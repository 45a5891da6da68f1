/** The Kademlia routing table: `Kademlia::getBucket`, `insert` and `find`. */
module Kademlia {
  import opened Bytes

  /** A 256-bit key, most significant byte first. */
  type Key = s: seq<bv8> | |s| == 32 witness seq(32, _ => 0 as bv8)

  // ------------------------------------------------------------- one byte

  /** The number of a byte. */
  function Val(b: bv8): (n: nat)
    ensures n < 256
  {
    b as int
  }

  lemma ValOrder(a: bv8, b: bv8)
    ensures a < b <==> Val(a) < Val(b)
    ensures a == 0 <==> Val(a) == 0
  {
  }

  /** All bits below the highest one set as well; the code shifts by 8 and 16 too, which
      adds nothing to a byte. */
  function Smear(v: bv8): bv8 {
    var v1 := v | (v >> 1);
    var v2 := v1 | (v1 >> 2);
    v2 | (v2 >> 4)
  }

  const POSITION: seq<int> :=
    [0, 9, 1, 10, 13, 21, 2, 29, 11, 14, 16, 18, 22, 25, 3, 30,
     8, 12, 20, 28, 15, 17, 24, 7, 19, 27, 23, 6, 26, 5, 4, 31]

  /** The multiplication by a De Bruijn number that selects the table entry. */
  function Slot(v: bv8): (i: nat)
    ensures i < 32
  {
    var w := ((v as bv32) * 0x07C4ACDD) >> 27;
    assert w < 32;
    w as int
  }

  function Bit(l: nat): bv8
    requires l < 8
  {
    match l case 0 => 1 case 1 => 2 case 2 => 4 case 3 => 8 case 4 => 16 case 5 => 32 case 6 => 64 case _ => 128
  }

  function TopBit(v: bv8): (l: nat)
    requires v != 0
    ensures l < 8 && Bit(l) <= v && (l < 7 ==> v < Bit(l + 1))
  {
    if v >= 128 then 7 else if v >= 64 then 6 else if v >= 32 then 5 else if v >= 16 then 4
    else if v >= 8 then 3 else if v >= 4 then 2 else if v >= 2 then 1 else 0
  }

  lemma SmearIs(v: bv8)
    requires v != 0
    ensures var l := TopBit(v); Smear(v) == if l == 7 then 255 else Bit(l + 1) - 1
  {
  }

  /** The De Bruijn lookup is the position of the highest bit. */
  lemma DeBruijn(v: bv8)
    requires v != 0
    ensures POSITION[Slot(Smear(v))] == TopBit(v)
  {
    SmearIs(v);
    assert Slot(1) == 0 && Slot(3) == 2 && Slot(7) == 6 && Slot(15) == 14;
    assert Slot(31) == 30 && Slot(63) == 29 && Slot(127) == 27 && Slot(255) == 23;
  }

  lemma BitIsPow2(l: nat)
    requires l < 8
    ensures Val(Bit(l)) == Pow2(l) && Pow2(8) == 256
  {
    assert Pow2(0) == 1 && Pow2(1) == 2 && Pow2(2) == 4 && Pow2(3) == 8;
    assert Pow2(4) == 16 && Pow2(5) == 32 && Pow2(6) == 64 && Pow2(7) == 128;
  }

  lemma TopBitBounds(v: bv8)
    requires v != 0
    ensures Pow2(TopBit(v)) <= Val(v) < Pow2(TopBit(v) + 1)
  {
    var l := TopBit(v);
    BitIsPow2(l);
    ValOrder(Bit(l), v);
    ValOrder(v, Bit(l));
    if l < 7 {
      BitIsPow2(l + 1);
      ValOrder(v, Bit(l + 1));
    }
  }

  // --------------------------------------------------------------- distances

  function Xor(a: Key, b: Key): (d: Key)
    ensures forall i :: 0 <= i < 32 ==> d[i] == a[i] ^ b[i]
  {
    seq(32, i requires 0 <= i < 32 => a[i] ^ b[i])
  }

  /** The number whose big-endian digits are the bytes. */
  function Num(s: seq<bv8>): nat {
    if s == [] then 0 else Num(s[..|s| - 1]) * 256 + Val(s[|s| - 1])
  }

  function Distance(a: Key, b: Key): nat {
    Num(Xor(a, b))
  }

  function LeadingZeros(s: seq<bv8>): (n: nat)
    ensures n <= |s| && (forall j :: 0 <= j < n ==> s[j] == 0) && (n < |s| ==> s[n] != 0)
  {
    if s == [] || s[0] != 0 then 0
    else
      var n := LeadingZeros(s[1..]);
      assert forall j :: 0 < j < 1 + n ==> s[j] == s[1..][j - 1];
      1 + n
  }

  const SIZE_T: int := 0x1_0000_0000_0000_0000

  /** The bucket before it is cut to a `size_t`. */
  function Level(d: Key): int {
    var i := LeadingZeros(d);
    255 - 8 * i - if i < 32 then 8 - TopBit(d[i]) else 0
  }

  /** A number below zero as a `size_t`. */
  function Unsigned(x: int): int {
    if x >= 0 then x else x + SIZE_T
  }

  /** Subtraction of two `size_t`. */
  function Minus(a: int, b: int): int {
    Unsigned(a - b)
  }

  lemma LevelRange(d: Key)
    ensures -1 <= Level(d) < 256
  {
  }

  function BucketOf(ref: Key, k: Key): nat {
    LevelRange(Xor(k, ref));
    Unsigned(Level(Xor(k, ref)))
  }

  /** `getBucket`. */
  method GetBucket(ref: Key, k: Key) returns (bucket: nat)
    ensures bucket == BucketOf(ref, k)
  {
    var distance := Xor(k, ref);
    bucket := 255;
    var i := 0;
    while i < 32
      invariant 0 <= i <= 32 && i <= LeadingZeros(distance)
      invariant bucket == Unsigned(255 - 8 * i)
    {
      var v := distance[i];
      if v != 0 {
        DeBruijn(v);
        bucket := Minus(bucket, 8 - POSITION[Slot(Smear(v))]);
        return;
      }
      bucket := Minus(bucket, 8);
      i := i + 1;
    }
  }

  // ------------------------------------------------- the bucket is a logarithm

  lemma {:induction false} Pow2Add(a: nat, b: nat)
    ensures Pow2(a + b) == Pow2(a) * Pow2(b)
  {
    if a > 0 {
      Pow2Add(a - 1, b);
      assert Pow2(a + b) == 2 * Pow2(a - 1 + b);
    }
  }

  lemma {:induction false} NumBound(s: seq<bv8>)
    ensures Num(s) < Pow2(8 * |s|)
  {
    if s != [] {
      NumBound(s[..|s| - 1]);
      Pow2Add(8 * (|s| - 1), 8);
      assert Pow2(8) == 256;
    }
  }

  lemma {:induction false} NumAppend(a: seq<bv8>, b: seq<bv8>)
    ensures Num(a + b) == Num(a) * Pow2(8 * |b|) + Num(b)
  {
    if b == [] {
      assert a + b == a;
    } else {
      var n := |b| - 1;
      assert (a + b)[..|a + b| - 1] == a + b[..n];
      NumAppend(a, b[..n]);
      Pow2Add(8 * n, 8);
      assert Pow2(8) == 256;
      Shift(Num(a), Pow2(8 * n), Num(b[..n]), Val(b[n]));
    }
  }

  lemma Shift(x: nat, p: nat, y: nat, v: nat)
    ensures (x * p + y) * 256 + v == x * (p * 256) + (y * 256 + v)
  {
  }

  lemma {:induction false} NumZeros(s: seq<bv8>)
    requires forall i :: 0 <= i < |s| ==> s[i] == 0
    ensures Num(s) == 0
  {
    if s != [] {
      NumZeros(s[..|s| - 1]);
      ValOrder(s[|s| - 1], 0);
    }
  }

  lemma NumOne(v: bv8)
    ensures Num([v]) == Val(v)
  {
    assert [v][..0] == [] && Num([]) == 0;
  }

  lemma NumHead(v: bv8, b: seq<bv8>)
    ensures Num([v] + b) == Val(v) * Pow2(8 * |b|) + Num(b)
  {
    NumOne(v);
    NumAppend([v], b);
  }

  lemma NumBehindZeros(a: seq<bv8>, b: seq<bv8>)
    requires forall i :: 0 <= i < |a| ==> a[i] == 0
    ensures Num(a + b) == Num(b)
  {
    NumZeros(a);
    NumAppend(a, b);
  }

  /** The number, from its first byte that is not zero on. */
  lemma NumLeading(s: seq<bv8>, i: nat)
    requires i < |s| && forall j :: 0 <= j < i ==> s[j] == 0
    ensures Num(s) == Val(s[i]) * Pow2(8 * (|s| - i - 1)) + Num(s[i + 1..])
  {
    var a, b := s[..i], s[i + 1..];
    SplitAt(s, i);
    NumBehindZeros(a, [s[i]] + b);
    NumHead(s[i], b);
  }

  lemma Scale(lo: nat, v: nat, hi: nat, p: nat, r: nat)
    requires lo <= v < hi && r < p
    ensures lo * p <= v * p + r < hi * p
  {
    assert lo * p <= v * p;
    assert v * p + p == (v + 1) * p <= hi * p;
  }

  /** n has exactly l + 1 binary digits: l is the floor of its binary logarithm. */
  predicate FloorLog2(n: nat, l: nat) {
    Pow2(l) <= n < Pow2(l + 1)
  }

  lemma LogScale(n: nat, v: nat, l: nat, m: nat, r: nat)
    requires n == v * Pow2(m) + r && r < Pow2(m) && FloorLog2(v, l)
    ensures FloorLog2(n, l + m)
  {
    Scale(Pow2(l), v, Pow2(l + 1), Pow2(m), r);
    Pow2Add(l, m);
    Pow2Add(l + 1, m);
  }

  lemma LevelIsLog(d: Key)
    requires LeadingZeros(d) < 32
    ensures Level(d) + 1 >= 0 && FloorLog2(Num(d), Level(d) + 1)
  {
    var i := LeadingZeros(d);
    var l, m := TopBit(d[i]), 8 * (31 - i);
    NumLeading(d, i);
    TopBitBounds(d[i]);
    NumBound(d[i + 1..]);
    LogScale(Num(d), Val(d[i]), l, m, Num(d[i + 1..]));
  }

  lemma {:induction false} LogUnique(n: nat, a: nat, b: nat)
    requires FloorLog2(n, a) && FloorLog2(n, b)
    ensures a == b
  {
    if a < b {
      Pow2Mono(a + 1, b);
    } else if b < a {
      Pow2Mono(b + 1, a);
    }
  }

  lemma {:induction false} Pow2Mono(a: nat, b: nat)
    requires a <= b
    ensures Pow2(a) <= Pow2(b)
    decreases b
  {
    if a < b {
      Pow2Mono(a, b - 1);
    }
  }

  lemma LevelZero(d: Key)
    requires LeadingZeros(d) == 32
    ensures Level(d) == -1 && Num(d) == 0
  {
    NumZeros(d);
  }

  lemma {:induction false} Pow2Positive(l: nat)
    ensures Pow2(l) >= 1 && (l >= 1 ==> Pow2(l) >= 2)
  {
    if l > 0 {
      Pow2Positive(l - 1);
    }
  }

  /** `getBucket` is one less than the binary logarithm of the distance, rounded down;
      the distances 0 and 1 both wrap around to the largest `size_t`. */
  lemma {:induction false} BucketIsLog(ref: Key, k: Key)
    ensures Distance(k, ref) >= 2 ==> forall l: nat :: FloorLog2(Distance(k, ref), l) <==> l == BucketOf(ref, k) + 1
    ensures Distance(k, ref) < 2 <==> BucketOf(ref, k) == SIZE_T - 1
  {
    var d := Xor(k, ref);
    if LeadingZeros(d) == 32 {
      LevelZero(d);
    } else {
      LevelIsLog(d);
      Pow2Positive(Level(d) + 1);
      assert Level(d) < 256;
      assert Pow2(0) == 1 && Pow2(1) == 2;
      forall l: nat | FloorLog2(Distance(k, ref), l) ensures l == Level(d) + 1 {
        LogUnique(Distance(k, ref), l, Level(d) + 1);
      }
    }
  }

  // -------------------------------------------------------------- closeness

  lemma XorZero(a: Key, b: Key)
    ensures LeadingZeros(Xor(a, b)) == 32 <==> a == b
    ensures Xor(a, b) == Xor(b, a)
  {
    var d := Xor(a, b);
    if LeadingZeros(d) == 32 {
      forall i | 0 <= i < 32 ensures a[i] == b[i] {
        XorBytes(a[i], b[i], 0);
        assert d[i] == 0;
      }
    }
    forall i | 0 <= i < 32 ensures d[i] == Xor(b, a)[i] && (a[i] == b[i] ==> d[i] == 0) {
      XorBytes(a[i], b[i], 0);
    }
  }

  lemma XorBytes(a: bv8, b: bv8, r: bv8)
    ensures (a ^ b == 0) <==> a == b
    ensures a ^ b == b ^ a
    ensures (a ^ r) ^ (b ^ r) == a ^ b
  {
  }

  lemma XorThrough(a: Key, b: Key, ref: Key, i: nat)
    requires i < 32
    ensures Xor(a, b)[i] == Xor(a, ref)[i] ^ Xor(b, ref)[i]
  {
    XorBytes(a[i], b[i], ref[i]);
  }

  /** Two bytes with the same highest bit differ by less than either. */
  lemma SameTopBit(a: bv8, b: bv8)
    requires a != 0 && b != 0 && TopBit(a) == TopBit(b)
    ensures a ^ b < a && a ^ b < b
  {
  }

  lemma LeadingLess(a: seq<bv8>, b: seq<bv8>, i: nat)
    requires |a| == |b| && i < |a|
    requires forall j :: 0 <= j < i ==> a[j] == 0 && b[j] == 0
    requires a[i] < b[i]
    ensures Num(a) < Num(b)
  {
    NumLeading(a, i);
    NumLeading(b, i);
    NumBound(a[i + 1..]);
    ValOrder(a[i], b[i]);
    LessScaled(Val(a[i]), Val(b[i]), Pow2(8 * (|a| - i - 1)), Num(a[i + 1..]), Num(b[i + 1..]));
  }

  lemma LessScaled(x: nat, y: nat, p: nat, r: nat, q: nat)
    requires x < y && r < p
    ensures x * p + r < y * p + q
  {
    assert x * p + p == (x + 1) * p <= y * p;
  }

  lemma SameLevel(d: Key, e: Key)
    requires LeadingZeros(d) < 32 && LeadingZeros(e) < 32 && Level(d) == Level(e)
    ensures LeadingZeros(d) == LeadingZeros(e) && TopBit(d[LeadingZeros(d)]) == TopBit(e[LeadingZeros(e)])
  {
  }

  lemma CloserThan(a: Key, b: Key, ref: Key)
    requires a != ref && b != ref && Level(Xor(a, ref)) == Level(Xor(b, ref))
    ensures Distance(a, b) < Distance(a, ref)
  {
    var d, e := Xor(a, ref), Xor(b, ref);
    XorZero(a, ref);
    XorZero(b, ref);
    SameLevel(d, e);
    var i := LeadingZeros(d);
    SameTopBit(d[i], e[i]);
    XorThrough(a, b, ref, i);
    forall j | 0 <= j < i ensures Xor(a, b)[j] == 0 {
      XorThrough(a, b, ref, j);
      XorBytes(0, 0, 0);
    }
    LeadingLess(Xor(a, b), d, i);
  }

  lemma SameBucketSameLevel(a: Key, b: Key, ref: Key)
    requires BucketOf(ref, a) == BucketOf(ref, b)
    ensures Level(Xor(a, ref)) == Level(Xor(b, ref))
  {
    LevelRange(Xor(a, ref));
    LevelRange(Xor(b, ref));
  }

  /** Kademlia closeness: two keys of the same bucket are strictly closer to each other
      than either is to the reference, if and only if neither is the reference. */
  lemma Closeness(a: Key, b: Key, ref: Key)
    requires BucketOf(ref, a) == BucketOf(ref, b)
    ensures Distance(a, b) < Distance(a, ref) && Distance(a, b) < Distance(b, ref) <==> a != ref && b != ref
  {
    SameBucketSameLevel(a, b, ref);
    XorZero(a, b);
    XorZero(a, ref);
    XorZero(b, ref);
    if a != ref && b != ref {
      CloserThan(a, b, ref);
      CloserThan(b, a, ref);
    } else if a == ref {
      LevelZero(Xor(a, ref));
    } else {
      LevelZero(Xor(b, ref));
    }
  }

  // ---------------------------------------------------------------- the table

  type Hash = seq<bv8>

  /** A `std::multimap` from buckets to values; equal keys keep their order. */
  type Table = map<nat, seq<Hash>>

  function Bucket(table: Table, b: nat): seq<Hash> {
    if b in table then table[b] else []
  }

  class RoutingTable {
    const ref: Key
    var table: Table

    constructor (ref: Key)
      ensures this.ref == ref && table == map[]
    {
      this.ref, table := ref, map[];
    }

    method Insert(k: Key, v: Hash)
      modifies this`table
      ensures table == old(table)[BucketOf(ref, k) := Bucket(old(table), BucketOf(ref, k)) + [v]]
    {
      var b := GetBucket(ref, k);
      table := table[b := Bucket(table, b) + [v]];
    }

    method Find(k: Key, count: nat) returns (r: seq<Hash>)
      ensures var all := Bucket(table, BucketOf(ref, k)); r == all[..Min(count, |all|)]
    {
      var b := GetBucket(ref, k);
      var all := Bucket(table, b);
      r := if |all| < count then all else all[..count];
    }
  }

  /** The table after a series of insertions. */
  function Inserted(ref: Key, entries: seq<(Key, Hash)>): Table {
    if entries == [] then map[]
    else
      var before, e := Inserted(ref, entries[..|entries| - 1]), entries[|entries| - 1];
      before[BucketOf(ref, e.0) := Bucket(before, BucketOf(ref, e.0)) + [e.1]]
  }

  /** The entries whose keys fall into bucket b. */
  function InBucket(ref: Key, entries: seq<(Key, Hash)>, b: nat): (r: seq<(Key, Hash)>)
    ensures forall i :: 0 <= i < |r| ==> r[i] in entries && BucketOf(ref, r[i].0) == b
  {
    if entries == [] then []
    else
      var before, e := InBucket(ref, entries[..|entries| - 1], b), entries[|entries| - 1];
      if BucketOf(ref, e.0) == b then before + [e] else before
  }

  function Values(entries: seq<(Key, Hash)>): (r: seq<Hash>)
    ensures |r| == |entries| && forall i :: 0 <= i < |r| ==> r[i] == entries[i].1
  {
    seq(|entries|, i requires 0 <= i < |entries| => entries[i].1)
  }

  lemma TableStep(table: Table, near: seq<(Key, Hash)>, e: (Key, Hash), at: nat, b: nat)
    requires Bucket(table, b) == Values(near)
    ensures Bucket(table[at := Bucket(table, at) + [e.1]], b) == Values(if at == b then near + [e] else near)
  {
  }

  lemma {:induction false} TableHolds(ref: Key, entries: seq<(Key, Hash)>, b: nat)
    ensures Bucket(Inserted(ref, entries), b) == Values(InBucket(ref, entries, b))
  {
    if entries != [] {
      var n := |entries| - 1;
      TableHolds(ref, entries[..n], b);
      TableStep(Inserted(ref, entries[..n]), InBucket(ref, entries[..n], b),
                entries[n], BucketOf(ref, entries[n].0), b);
    }
  }

  /** What `find` looks at: exactly the values inserted under keys of the same bucket, in
      order; every such key is closer to the one looked for than to the reference. */
  lemma {:induction false} FindIsClose(ref: Key, entries: seq<(Key, Hash)>, k: Key)
    requires k != ref && forall i :: 0 <= i < |entries| ==> entries[i].0 != ref
    ensures var near := InBucket(ref, entries, BucketOf(ref, k));
      && Bucket(Inserted(ref, entries), BucketOf(ref, k)) == Values(near)
      && forall i :: 0 <= i < |near| ==> Distance(near[i].0, k) < Distance(near[i].0, ref)
  {
    var near := InBucket(ref, entries, BucketOf(ref, k));
    TableHolds(ref, entries, BucketOf(ref, k));
    forall i | 0 <= i < |near| ensures Distance(near[i].0, k) < Distance(near[i].0, ref) {
      assert near[i] in entries;
      Closeness(near[i].0, k, ref);
    }
  }
}
