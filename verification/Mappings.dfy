/** `Mapping`: options as "key=value;" pairs, each string with a length byte. */
module Mappings {
  import opened Bytes
  import opened Lists

  type String = seq<byte>

  datatype Entry = Entry(key: String, value: String)

  // ------------------------------------------------------------ ordered maps

  /** The order of `std::string`. */
  predicate Less(a: String, b: String)
    decreases |a|
  {
    b != [] && (a == [] || a[0] < b[0] || (a[0] == b[0] && Less(a[1..], b[1..])))
  }

  lemma {:induction false} LessTrans(a: String, b: String, c: String)
    requires Less(a, b) && Less(b, c)
    ensures Less(a, c)
    decreases |a|
  {
    if a != [] && a[0] == b[0] && b[0] == c[0] {
      LessTrans(a[1..], b[1..], c[1..]);
    }
  }

  lemma {:induction false} LessTotal(a: String, b: String)
    ensures Less(a, b) || a == b || Less(b, a)
    ensures !(Less(a, b) && Less(b, a)) && !Less(a, a)
    decreases |a|
  {
    if a != [] {
      LessTotal(a[1..], a[1..]);
      if b != [] && a[0] == b[0] {
        LessTotal(a[1..], b[1..]);
        assert a == [a[0]] + a[1..] && b == [b[0]] + b[1..];
      }
    }
  }

  /** The first k bytes are the same, and then a ends or has the smaller byte. */
  ghost predicate SmallerAt(a: String, b: String, k: nat) {
    k <= |a| && k < |b| && a[..k] == b[..k] && (k == |a| || a[k] < b[k])
  }

  lemma LaterPosition(a: String, b: String, k: nat)
    requires a != [] && b != [] && a[0] == b[0]
    ensures SmallerAt(a, b, k + 1) <==> SmallerAt(a[1..], b[1..], k)
  {
    if k + 1 <= |a| && k + 1 <= |b| {
      assert a[..k + 1] == [a[0]] + a[1..][..k] && b[..k + 1] == [b[0]] + b[1..][..k];
      DropPrefix([a[0]], a[1..][..k]);
      DropPrefix([b[0]], b[1..][..k]);
    }
  }

  /** The order is lexicographic, by bytes. */
  lemma {:induction false} LessIsLexicographic(a: String, b: String)
    ensures Less(a, b) <==> exists k: nat :: SmallerAt(a, b, k)
    decreases |a|
  {
    if a == [] || b == [] || a[0] != b[0] {
      assert b != [] && (a == [] || a[0] < b[0]) <==> SmallerAt(a, b, 0);
      forall k: nat | 0 < k <= |a| && k <= |b| ensures a[..k] != b[..k] {
        assert a[..k][0] == a[0] && b[..k][0] == b[0];
      }
    } else {
      LessIsLexicographic(a[1..], b[1..]);
      forall k: nat ensures SmallerAt(a, b, k + 1) <==> SmallerAt(a[1..], b[1..], k) {
        LaterPosition(a, b, k);
      }
      assert !SmallerAt(a, b, 0);
      if k: nat :| SmallerAt(a, b, k) {
        assert SmallerAt(a[1..], b[1..], k - 1);
      }
      if k: nat :| SmallerAt(a[1..], b[1..], k) {
        assert SmallerAt(a, b, k + 1);
      }
    }
  }

  /** A `std::map` as the list of its pairs, in the order of iteration. */
  type Map = seq<Entry>

  predicate Sorted(m: Map) {
    forall i, j :: 0 <= i < j < |m| ==> Less(m[i].key, m[j].key)
  }

  /** `m_map[key] = value`. */
  function Put(m: Map, e: Entry): Map {
    if m == [] || Less(e.key, m[0].key) then [e] + m
    else if m[0].key == e.key then [e] + m[1..]
    else [m[0]] + Put(m[1..], e)
  }

  /** Every entry of the new map was there before or is the new one. */
  predicate From(m': Map, m: Map, e: Entry) {
    forall i :: 0 <= i < |m'| ==> m'[i] in m || m'[i] == e
  }

  lemma SortedFront(h: Entry, m: Map)
    requires Sorted(m) && (m != [] ==> Less(h.key, m[0].key))
    ensures Sorted([h] + m)
  {
    forall j | 0 <= j < |m| ensures Less(h.key, m[j].key) {
      if j > 0 {
        LessTrans(h.key, m[0].key, m[j].key);
      }
    }
  }

  lemma {:induction false} PutSorted(m: Map, e: Entry)
    requires Sorted(m)
    ensures Sorted(Put(m, e)) && From(Put(m, e), m, e)
    ensures Put(m, e) != [] && (Put(m, e)[0] == e || (m != [] && Put(m, e)[0] == m[0]))
  {
    if m == [] || Less(e.key, m[0].key) {
      SortedFront(e, m);
    } else if m[0].key == e.key {
      SortedFront(e, m[1..]);
    } else {
      LessTotal(e.key, m[0].key);
      PutSorted(m[1..], e);
      SortedFront(m[0], Put(m[1..], e));
    }
  }

  lemma {:induction false} PutGets(m: Map, e: Entry)
    ensures e in Put(m, e)
  {
    if m != [] && !Less(e.key, m[0].key) && m[0].key != e.key {
      PutGets(m[1..], e);
      assert Put(m, e)[1..] == Put(m[1..], e);
    } else {
      assert Put(m, e)[0] == e;
    }
  }

  /** Other keys keep their entries. */
  lemma {:induction false} PutKeeps(m: Map, e: Entry, d: Entry)
    requires d in m && d.key != e.key
    ensures d in Put(m, e)
  {
    if m == [] || Less(e.key, m[0].key) {
      assert Put(m, e)[1..] == m;
    } else if d == m[0] {
      assert Put(m, e)[0] == d;
    } else {
      assert d in m[1..];
      if m[0].key == e.key {
        assert Put(m, e)[1..] == m[1..];
      } else {
        PutKeeps(m[1..], e, d);
        assert Put(m, e)[1..] == Put(m[1..], e);
      }
    }
  }

  lemma {:induction false} PutLast(m: Map, e: Entry)
    requires forall i :: 0 <= i < |m| ==> Less(m[i].key, e.key)
    ensures Put(m, e) == m + [e]
  {
    if m != [] {
      LessTotal(m[0].key, e.key);
      PutLast(m[1..], e);
    }
  }

  // --------------------------------------------------------------- raw entries

  /** An entry as it stands in the input, with the two separators. */
  datatype Raw = Raw(entry: Entry, equal: byte, semicolon: byte)

  function RawBytes(r: Raw): seq<byte> {
    [|r.entry.key| % 256] + (r.entry.key + ([r.equal] + ([|r.entry.value| % 256] + (r.entry.value + [r.semicolon]))))
  }

  function AllRawBytes(rs: seq<Raw>): seq<byte> {
    PrintMany(RawBytes, rs)
  }

  /** A length byte and that many bytes. */
  function ReadString(b: seq<byte>): Result<(String, seq<byte>)> {
    if b == [] then Err(Overrun)
    else if |b| - 1 < b[0] as int then Err(Malformed)
    else Ok((b[1..][..b[0]], b[1..][b[0]..]))
  }

  /** One round of the loop. */
  function ReadRaw(b: seq<byte>): Result<(Raw, seq<byte>)> {
    match ReadString(b)
    case Err(e) => Err(e)
    case Ok((key, b1)) =>
      if b1 == [] then Err(Overrun)
      else match ReadString(b1[1..])
        case Err(e) => Err(e)
        case Ok((value, b2)) =>
          if b2 == [] then Err(Overrun) else Ok((Raw(Entry(key, value), b1[0], b2[0]), b2[1..]))
  }

  lemma ReadRawShrinks(b: seq<byte>)
    requires ReadRaw(b).Ok?
    ensures |ReadRaw(b).value.1| < |b|
  {
  }

  lemma RawsShrink()
    ensures Shrinks(ReadRaw)
  {
    forall b: seq<byte> | ReadRaw(b).Ok? ensures |ReadRaw(b).value.1| < |b| {
      ReadRawShrinks(b);
    }
  }

  function ReadRaws(b: seq<byte>): Result<seq<Raw>> {
    RawsShrink();
    match ReadAll(ReadRaw, b) case Err(e) => Err(e) case Ok((rs, _)) => Ok(rs)
  }

  function PutAll(m: Map, rs: seq<Raw>): Map
    decreases rs
  {
    if rs == [] then m else PutAll(Put(m, rs[0].entry), rs[1..])
  }

  // ------------------------------------------------------------------- the codec

  function EntriesBytes(m: Map): seq<byte> {
    AllRawBytes(Canonical(m))
  }

  /** The entries with the separators the printer writes. */
  function Canonical(m: Map): (rs: seq<Raw>)
    ensures |rs| == |m| && forall i :: 0 <= i < |m| ==> rs[i] == Raw(m[i], 0x3D, 0x3B)
  {
    seq(|m|, i requires 0 <= i < |m| => Raw(m[i], 0x3D, 0x3B))
  }

  /** `serialize`: the size is kept in 16 bits. */
  function MappingBytes(m: Map): seq<byte> {
    PutU16(|EntriesBytes(m)| % 0x1_0000) + EntriesBytes(m)
  }

  /** The parsing constructor: the mapping and the input behind it. */
  function ReadMapping(b: seq<byte>): Result<(Map, seq<byte>)> {
    if |b| < 2 then Err(Malformed)
    else
      var size := GetU16(b);
      if |b| - 2 < size then Err(Malformed)
      else match ReadRaws(b[2..][..size])
        case Err(e) => Err(e)
        case Ok(rs) => Ok((PutAll([], rs), b[2..][size..]))
  }

  /** What the loop makes of the rest of the input, given the map so far. */
  function Into(m: Map, r: Result<seq<Raw>>): Result<Map> {
    match r case Err(e) => Err(e) case Ok(rs) => Ok(PutAll(m, rs))
  }

  function Behind(r: Raw, more: Result<seq<Raw>>): Result<seq<Raw>> {
    match more case Err(e) => Err(e) case Ok(rs) => Ok([r] + rs)
  }

  lemma ReadRawsNext(b: seq<byte>)
    requires b != []
    ensures ReadRaw(b).Err? ==> ReadRaws(b) == Err(ReadRaw(b).error)
    ensures ReadRaw(b).Ok? ==> ReadRaws(b) == Behind(ReadRaw(b).value.0, ReadRaws(ReadRaw(b).value.1))
  {
    RawsShrink();
  }

  lemma IntoNext(m: Map, b: seq<byte>)
    requires b != []
    ensures ReadRaw(b).Err? ==> Into(m, ReadRaws(b)) == Err(ReadRaw(b).error)
    ensures ReadRaw(b).Ok? ==>
      Into(m, ReadRaws(b)) == Into(Put(m, ReadRaw(b).value.0.entry), ReadRaws(ReadRaw(b).value.1))
  {
    ReadRawsNext(b);
    if ReadRaw(b).Ok? && ReadRaws(ReadRaw(b).value.1).Ok? {
      var r, rs := ReadRaw(b).value.0, ReadRaws(ReadRaw(b).value.1).value;
      assert ([r] + rs)[1..] == rs;
    }
  }

  lemma IntoEnd(m: Map)
    ensures Into(m, ReadRaws([])) == Ok(m)
  {
    RawsShrink();
  }

  /** The loop of the parsing constructor. */
  method ParseEntries(b: seq<byte>) returns (r: Result<Map>)
    ensures r == Into([], ReadRaws(b))
  {
    var m: Map := [];
    var rest := b;
    while rest != []
      invariant Into(m, ReadRaws(rest)) == Into([], ReadRaws(b))
      decreases |rest|
    {
      IntoNext(m, rest);
      var next := ReadRaw(rest);
      if next.Err? {
        return Err(next.error);
      }
      ReadRawShrinks(rest);
      m, rest := Put(m, next.value.0.entry), next.value.1;
    }
    IntoEnd(m);
    r := Ok(m);
  }

  method ParseMapping(b: seq<byte>) returns (r: Result<(Map, seq<byte>)>)
    ensures r == ReadMapping(b)
  {
    if |b| < 2 {
      return Err(Malformed);
    }
    var size := GetU16(b);
    if |b| - 2 < size {
      return Err(Malformed);
    }
    var m := ParseEntries(b[2..][..size]);
    r := match m case Err(e) => Err(e) case Ok(entries) => Ok((entries, b[2..][size..]));
  }

  lemma CanonicalTail(m: Map)
    requires m != []
    ensures Canonical(m)[1..] == Canonical(m[1..])
  {
  }

  method SerializeMapping(m: Map) returns (out: seq<byte>)
    ensures out == MappingBytes(m)
  {
    out := [];
    var rest := m;
    while rest != []
      invariant out + EntriesBytes(rest) == EntriesBytes(m)
    {
      var r := Raw(rest[0], 0x3D, 0x3B);
      CanonicalTail(rest);
      Assoc(out, RawBytes(r), EntriesBytes(rest[1..]));
      out := out + RawBytes(r);
      rest := rest[1..];
    }
    assert out == EntriesBytes(m);
    out := PutU16(|out| % 0x1_0000) + out;
  }

  // --------------------------------------------------------------- round trips

  predicate Small(r: Raw) {
    |r.entry.key| < 256 && |r.entry.value| < 256
  }

  predicate AllSmall(rs: seq<Raw>) {
    forall i :: 0 <= i < |rs| ==> Small(rs[i])
  }

  lemma StringRoundTrip(s: String, rest: seq<byte>)
    requires |s| < 256
    ensures ReadString([|s| % 256] + (s + rest)) == Ok((s, rest))
  {
    DropPrefix([|s| % 256], s + rest);
    DropPrefix(s, rest);
  }

  lemma StringUnread(b: seq<byte>, s: String, rest: seq<byte>)
    requires ReadString(b) == Ok((s, rest))
    ensures |s| < 256 && [|s| % 256] + (s + rest) == b
  {
    assert b == [b[0]] + b[1..];
    assert b[1..] == s + rest;
  }

  /** An entry in front of `rest`, with the concatenations nested to the right. */
  function Laid(r: Raw, rest: seq<byte>): seq<byte> {
    [|r.entry.key| % 256]
    + (r.entry.key + ([r.equal] + ([|r.entry.value| % 256] + (r.entry.value + ([r.semicolon] + rest)))))
  }

  lemma LaidIs(r: Raw, rest: seq<byte>)
    ensures RawBytes(r) + rest == Laid(r, rest)
  {
    var t4 := r.entry.value + [r.semicolon];
    var t3 := [|r.entry.value| % 256] + t4;
    var t2 := [r.equal] + t3;
    var t1 := r.entry.key + t2;
    Assoc([|r.entry.key| % 256], t1, rest);
    Assoc(r.entry.key, t2, rest);
    Assoc([r.equal], t3, rest);
    Assoc([|r.entry.value| % 256], t4, rest);
    Assoc(r.entry.value, [r.semicolon], rest);
  }

  lemma RawRoundTrip(r: Raw, rest: seq<byte>)
    requires Small(r)
    ensures ReadRaw(RawBytes(r) + rest) == Ok((r, rest))
  {
    LaidIs(r, rest);
    var t := [|r.entry.value| % 256] + (r.entry.value + ([r.semicolon] + rest));
    StringRoundTrip(r.entry.key, [r.equal] + t);
    DropPrefix([r.equal], t);
    StringRoundTrip(r.entry.value, [r.semicolon] + rest);
    DropPrefix([r.semicolon], rest);
  }

  lemma HeadTail(b: seq<byte>)
    requires b != []
    ensures b == [b[0]] + b[1..]
  {
  }

  /** What was read is what the input consists of. */
  lemma RawUnread(b: seq<byte>, r: Raw, rest: seq<byte>)
    requires ReadRaw(b) == Ok((r, rest))
    ensures Small(r) && RawBytes(r) + rest == b
  {
    LaidIs(r, rest);
    var b1 := ReadString(b).value.1;
    StringUnread(b, r.entry.key, b1);
    var b2 := ReadString(b1[1..]).value.1;
    StringUnread(b1[1..], r.entry.value, b2);
    HeadTail(b1);
    HeadTail(b2);
  }

  lemma RawsRoundTrip(rs: seq<Raw>)
    requires AllSmall(rs)
    ensures ReadRaws(AllRawBytes(rs)) == Ok(rs)
  {
    RawsShrink();
    assert Inverse(ReadRaw, RawBytes, rs) by {
      forall i, r: seq<byte> | 0 <= i < |rs| ensures ReadRaw(RawBytes(rs[i]) + r) == Ok((rs[i], r)) {
        RawRoundTrip(rs[i], r);
      }
    }
    AllRoundTrip(ReadRaw, RawBytes, rs);
  }

  lemma RawsUnread(b: seq<byte>)
    requires ReadRaws(b).Ok?
    ensures AllRawBytes(ReadRaws(b).value) == b
  {
    RawsShrink();
    assert Faithful(ReadRaw, RawBytes) by {
      forall c: seq<byte> | ReadRaw(c).Ok? ensures RawBytes(ReadRaw(c).value.0) + ReadRaw(c).value.1 == c {
        RawUnread(c, ReadRaw(c).value.0, ReadRaw(c).value.1);
      }
    }
    AllUnread(ReadRaw, RawBytes, b);
  }

  lemma {:induction false} RawsSmall(b: seq<byte>)
    requires ReadRaws(b).Ok?
    ensures AllSmall(ReadRaws(b).value)
    decreases |b|
  {
    if b == [] {
      RawsShrink();
    } else {
      ReadRawsNext(b);
      var (r, rest) := ReadRaw(b).value;
      RawUnread(b, r, rest);
      ReadRawShrinks(b);
      RawsSmall(rest);
    }
  }

  function Entries(rs: seq<Raw>): (m: Map)
    ensures |m| == |rs| && forall i :: 0 <= i < |rs| ==> m[i] == rs[i].entry
  {
    seq(|rs|, i requires 0 <= i < |rs| => rs[i].entry)
  }

  lemma {:induction false} PutAllInOrder(m: Map, rs: seq<Raw>)
    requires Sorted(m + Entries(rs))
    ensures PutAll(m, rs) == m + Entries(rs)
    decreases rs
  {
    var all := m + Entries(rs);
    if rs != [] {
      forall i | 0 <= i < |m| ensures Less(m[i].key, rs[0].entry.key) {
        assert all[i] == m[i] && all[|m|] == rs[0].entry;
      }
      PutLast(m, rs[0].entry);
      assert (m + [rs[0].entry]) + Entries(rs[1..]) == all;
      PutAllInOrder(m + [rs[0].entry], rs[1..]);
    }
  }

  predicate SmallMap(m: Map) {
    forall i :: 0 <= i < |m| ==> |m[i].key| < 256 && |m[i].value| < 256
  }

  lemma {:induction false} PutAllKeeps(m: Map, rs: seq<Raw>)
    requires Sorted(m)
    ensures Sorted(PutAll(m, rs)) && (SmallMap(m) && AllSmall(rs) ==> SmallMap(PutAll(m, rs)))
    decreases rs
  {
    if rs != [] {
      PutSorted(m, rs[0].entry);
      PutAllKeeps(Put(m, rs[0].entry), rs[1..]);
    }
  }

  lemma CanonicalEntries(m: Map)
    ensures Entries(Canonical(m)) == m && (SmallMap(m) ==> AllSmall(Canonical(m)))
  {
  }

  /** The entries are the last ones put under their keys: `m_map[key] = value` in a loop. */
  lemma {:induction false} LastWins(m: Map, rs: seq<Raw>, i: nat)
    requires i < |rs| && forall j :: i < j < |rs| ==> rs[j].entry.key != rs[i].entry.key
    ensures rs[i].entry in PutAll(m, rs)
    decreases rs
  {
    if i > 0 {
      LastWins(Put(m, rs[0].entry), rs[1..], i - 1);
    } else {
      PutGets(m, rs[0].entry);
      PutAllKeepsEntry(Put(m, rs[0].entry), rs[1..], rs[0].entry);
    }
  }

  lemma {:induction false} PutAllKeepsEntry(m: Map, rs: seq<Raw>, d: Entry)
    requires d in m && forall j :: 0 <= j < |rs| ==> rs[j].entry.key != d.key
    ensures d in PutAll(m, rs)
    decreases rs
  {
    if rs != [] {
      PutKeeps(m, rs[0].entry, d);
      PutAllKeepsEntry(Put(m, rs[0].entry), rs[1..], d);
    }
  }

  /** Nothing else is in the map, and no key twice. */
  lemma {:induction false} OnlyRead(m: Map, rs: seq<Raw>, e: Entry)
    requires Sorted(m) && e in PutAll(m, rs)
    ensures e in m || exists i :: 0 <= i < |rs| && rs[i].entry == e
    decreases rs
  {
    if rs != [] {
      PutSorted(m, rs[0].entry);
      OnlyRead(Put(m, rs[0].entry), rs[1..], e);
      if e !in Put(m, rs[0].entry) {
        var i :| 0 <= i < |rs[1..]| && rs[1..][i].entry == e;
        assert rs[i + 1].entry == e;
      } else if e !in m {
        assert rs[0].entry == e;
      }
    }
  }

  predicate LastOfKey(rs: seq<Raw>, i: nat) {
    i < |rs| && forall j :: i < j < |rs| ==> rs[j].entry.key != rs[i].entry.key
  }

  lemma {:induction false} FindLast(rs: seq<Raw>, i: nat) returns (k: nat)
    requires i < |rs|
    ensures LastOfKey(rs, k) && rs[k].entry.key == rs[i].entry.key
    decreases |rs| - i
  {
    k := i;
    if j :| i < j < |rs| && rs[j].entry.key == rs[i].entry.key {
      k := FindLast(rs, j);
    }
  }

  lemma KeysUnique(m: Map, d: Entry, e: Entry)
    requires Sorted(m) && d in m && e in m && d.key == e.key
    ensures d == e
  {
    var i :| 0 <= i < |m| && m[i] == d;
    var j :| 0 <= j < |m| && m[j] == e;
    LessTotal(d.key, d.key);
  }

  /** An entry of the map is the last one read under its key. */
  lemma EntryIsLast(m: Map, rs: seq<Raw>, e: Entry, i: nat) returns (k: nat)
    requires Sorted(m) && e in m && i < |rs| && rs[i].entry == e
    requires forall k: nat :: LastOfKey(rs, k) ==> rs[k].entry in m
    ensures LastOfKey(rs, k) && rs[k].entry == e
  {
    k := FindLast(rs, i);
    KeysUnique(m, rs[k].entry, e);
  }

  /** What a mapping read from `rs` holds: for every key the last entry, and no others. */
  lemma {:induction false} HoldsLast(rs: seq<Raw>, e: Entry)
    ensures e in PutAll([], rs) <==> exists i: nat :: LastOfKey(rs, i) && rs[i].entry == e
  {
    forall k: nat | LastOfKey(rs, k) ensures rs[k].entry in PutAll([], rs) {
      LastWins([], rs, k);
    }
    if e in PutAll([], rs) {
      OnlyRead([], rs, e);
      PutAllKeeps([], rs);
      var i: nat :| i < |rs| && rs[i].entry == e;
      var k := EntryIsLast(PutAll([], rs), rs, e, i);
    }
  }

  /** A body and the input behind it, read through the size field. */
  lemma ReadSizedBody(body: seq<byte>, rest: seq<byte>)
    requires |body| < 0x1_0000
    ensures var b := PutU16(|body| % 0x1_0000) + body + rest;
      |b| >= 2 && GetU16(b) == |body| && b[2..][..|body|] == body && b[2..][|body|..] == rest
  {
    var size := PutU16(|body| % 0x1_0000);
    Assoc(size, body, rest);
    DropPrefix(size, body + rest);
    DropPrefix(body, rest);
  }

  /** A mapping of short strings that fits the size field is read back. */
  lemma {:induction false} MappingRoundTrip(m: Map, rest: seq<byte>)
    requires Sorted(m) && SmallMap(m) && |EntriesBytes(m)| < 0x1_0000
    ensures ReadMapping(MappingBytes(m) + rest) == Ok((m, rest))
  {
    ReadSizedBody(EntriesBytes(m), rest);
    CanonicalEntries(m);
    RawsRoundTrip(Canonical(m));
    assert [] + Entries(Canonical(m)) == m;
    PutAllInOrder([], Canonical(m));
  }

  // ----------------------------------------------------------- the format, by positions

  /** A string with its length byte, from position `at` on. */
  predicate StringAt(b: seq<byte>, at: nat, s: String) {
    |b| >= at + 1 + |s| && b[at] as int == |s| && b[at + 1..at + 1 + |s|] == s
  }

  lemma StringExact(b: seq<byte>, at: nat, s: String, rest: seq<byte>)
    requires at <= |b|
    ensures ReadString(b[at..]) == Ok((s, rest)) <==> StringAt(b, at, s) && rest == b[at + 1 + |s|..]
  {
    var c := b[at..];
    if c != [] && |c| - 1 >= |s| {
      assert c[1..][..|s|] == b[at + 1..at + 1 + |s|] && c[1..][|s|..] == b[at + 1 + |s|..];
    }
  }

  /** Key, a byte, value, a byte. */
  predicate EntryAt(b: seq<byte>, r: Raw) {
    var n := 1 + |r.entry.key|;
    && StringAt(b, 0, r.entry.key) && |b| > n && b[n] == r.equal
    && StringAt(b, n + 1, r.entry.value)
    && |b| > n + 2 + |r.entry.value| && b[n + 2 + |r.entry.value|] == r.semicolon
  }

  function EntryLength(r: Raw): nat { |r.entry.key| + |r.entry.value| + 4 }

  lemma RawReads(b: seq<byte>, key: String, b1: seq<byte>, value: String, b2: seq<byte>)
    requires ReadString(b) == Ok((key, b1)) && b1 != [] && ReadString(b1[1..]) == Ok((value, b2)) && b2 != []
    ensures ReadRaw(b) == Ok((Raw(Entry(key, value), b1[0], b2[0]), b2[1..]))
  {
  }

  lemma EntryReads(b: seq<byte>, r: Raw, rest: seq<byte>)
    requires EntryAt(b, r) && rest == b[EntryLength(r)..]
    ensures ReadRaw(b) == Ok((r, rest))
  {
    var n, v := |r.entry.key|, |r.entry.value|;
    StringExact(b, 0, r.entry.key, b[1 + n..]);
    assert b[0..] == b && b[1 + n..][1..] == b[2 + n..] && b[3 + n + v..][1..] == b[4 + n + v..];
    StringExact(b, 2 + n, r.entry.value, b[3 + n + v..]);
    RawReads(b, r.entry.key, b[1 + n..], r.entry.value, b[3 + n + v..]);
  }

  lemma EntryWasThere(b: seq<byte>, r: Raw, rest: seq<byte>)
    requires ReadRaw(b) == Ok((r, rest))
    ensures EntryAt(b, r) && rest == b[EntryLength(r)..]
  {
    var n, v := |r.entry.key|, |r.entry.value|;
    var b1 := ReadString(b).value.1;
    var b2 := ReadString(b1[1..]).value.1;
    assert b[0..] == b;
    StringExact(b, 0, r.entry.key, b1);
    assert b1[1..] == b[2 + n..];
    StringExact(b, 2 + n, r.entry.value, b2);
    assert b2[1..] == b[4 + n + v..];
  }

  /** The reader finds an entry iff its bytes stand at the head of the input. */
  lemma EntryExact(b: seq<byte>, r: Raw, rest: seq<byte>)
    ensures ReadRaw(b) == Ok((r, rest)) <==> EntryAt(b, r) && rest == b[EntryLength(r)..]
  {
    if ReadRaw(b) == Ok((r, rest)) {
      EntryWasThere(b, r, rest);
    }
    if EntryAt(b, r) && rest == b[EntryLength(r)..] {
      EntryReads(b, r, rest);
    }
  }

  /** The printer writes '=' and ';', and every entry stands as the reader looks for it. */
  lemma EntryWritten(m: Map, i: nat)
    requires i < |m| && SmallMap(m)
    ensures var r := Canonical(m)[i];
      && EntryAt(RawBytes(r), r) && |RawBytes(r)| == EntryLength(r)
      && r.entry == m[i] && r.equal == '=' as int && r.semicolon == ';' as int
  {
    var r := Canonical(m)[i];
    RawRoundTrip(r, []);
    assert RawBytes(r) + [] == RawBytes(r);
    EntryExact(RawBytes(r), r, []);
  }

  /** A mapping is accepted iff its size field does not exceed the input and the bytes it
      covers are whole entries; the map is what these leave. */
  lemma MappingExact(b: seq<byte>, m: Map, rest: seq<byte>)
    ensures ReadMapping(b) == Ok((m, rest)) <==>
      && |b| >= 2 && |b| - 2 >= 0x100 * b[0] as int + b[1] as int
      && rest == b[2 + 0x100 * b[0] as int + b[1] as int..]
      && exists rs :: AllSmall(rs) && m == PutAll([], rs)
           && AllRawBytes(rs) == b[2..2 + 0x100 * b[0] as int + b[1] as int]
  {
    if |b| >= 2 && |b| - 2 >= GetU16(b) {
      var n := GetU16(b);
      var body := b[2..2 + n];
      assert b[2..][..n] == body && b[2..][n..] == b[2 + n..];
      if ReadRaws(body).Ok? {
        RawsUnread(body);
        RawsSmall(body);
      }
      if rs :| AllSmall(rs) && m == PutAll([], rs) && AllRawBytes(rs) == body {
        RawsRoundTrip(rs);
      }
    }
  }

  // -------------------------------------------------------------- canonical form

  /** Keys strictly increasing, separators '=' and ';'. */
  predicate IsCanonical(rs: seq<Raw>) {
    Sorted(Entries(rs)) && forall i :: 0 <= i < |rs| ==> rs[i].equal == 0x3D && rs[i].semicolon == 0x3B
  }

  lemma CanonicalIsCanonical(rs: seq<Raw>)
    requires IsCanonical(rs)
    ensures Canonical(Entries(rs)) == rs
  {
  }

  lemma {:induction false} BodyCanonical(body: seq<byte>)
    requires ReadRaws(body).Ok?
    ensures EntriesBytes(PutAll([], ReadRaws(body).value)) == body <==> IsCanonical(ReadRaws(body).value)
  {
    var rs := ReadRaws(body).value;
    var m := PutAll([], rs);
    RawsUnread(body);
    RawsSmall(body);
    PutAllKeeps([], rs);
    CanonicalEntries(m);
    if EntriesBytes(m) == body {
      RawsRoundTrip(Canonical(m));
      assert rs == Canonical(m);
    }
    if IsCanonical(rs) {
      assert [] + Entries(rs) == Entries(rs);
      PutAllInOrder([], rs);
      CanonicalIsCanonical(rs);
    }
  }

  lemma SplitSized(b: seq<byte>)
    requires |b| >= 2 && |b| - 2 >= GetU16(b)
    ensures b == PutU16(GetU16(b)) + (b[2..][..GetU16(b)] + b[2..][GetU16(b)..])
  {
    assert b[..2] == PutU16(GetU16(b));
    assert b == b[..2] + b[2..];
  }

  lemma {:induction false} SameEntries(m: Map, body: seq<byte>, rest: seq<byte>)
    requires |body| < 0x1_0000
    ensures MappingBytes(m) + rest == PutU16(|body|) + (body + rest) <==> EntriesBytes(m) == body
  {
    var e := EntriesBytes(m);
    var size := PutU16(|e| % 0x1_0000);
    Assoc(size, e, rest);
    if MappingBytes(m) + rest == PutU16(|body|) + (body + rest) {
      DropPrefix(size, e + rest);
      DropPrefix(PutU16(|body|), body + rest);
      assert |e + rest| == |body + rest|;
      DropPrefix(e, rest);
      DropPrefix(body, rest);
    }
  }

  /** Canonical form: for any bytes accepted as a mapping, printing the mapping gives the
      same bytes if and only if the keys were strictly increasing and the separators were
      '=' and ';'. */
  lemma {:induction false} MappingCanonical(b: seq<byte>)
    requires ReadMapping(b).Ok?
    ensures var (m, rest) := ReadMapping(b).value;
      MappingBytes(m) + rest == b <==> IsCanonical(ReadRaws(b[2..][..GetU16(b)]).value)
  {
    var body, rest := b[2..][..GetU16(b)], b[2..][GetU16(b)..];
    SplitSized(b);
    BodyCanonical(body);
    SameEntries(ReadMapping(b).value.0, body, rest);
  }
}
