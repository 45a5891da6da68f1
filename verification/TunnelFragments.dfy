/** Fragments of tunnel messages: `Fragment`, `FirstFragment` and `FollowOnFragment`
    (I2P Tunnel Message specification, section "Tunnel Message Delivery
    Instructions"). */
module TunnelFragments {
  import opened Bytes
  import opened BuildRecords

  /** The delivery modes LOCAL, TUNNEL and ROUTER with what they carry. */
  datatype Delivery = Local | ToTunnel(tunnelId: uint32, hash: Bytes32) | ToRouter(hash: Bytes32)

  /** A first fragment has a message id only if it is flagged fragmented; otherwise
      `getMsgId` is 0. */
  datatype Fragment =
    | First(delivery: Delivery, id: Option<uint32>, payload: seq<byte>)
    | FollowOn(msgId: uint32, fragNum: byte, isLast: bool, payload: seq<byte>)

  /** `headerSize`: the router mode is not implemented. */
  function HeaderSize(f: Fragment): Result<nat> {
    match f
    case First(Local, id, _) => Ok(if id.None? then 3 else 7)
    case First(ToTunnel(_, _), id, _) => Ok(if id.None? then 39 else 43)
    case First(ToRouter(_), _, _) => Err(Unsupported)
    case FollowOn(_, _, _, _) => Ok(7)
  }

  // ------------------------------------------------------------------- the codec

  function ModeBits(d: Delivery): byte {
    match d case Local => 0 case ToTunnel(_, _) => 32 case ToRouter(_) => 64
  }

  function DestinationBytes(d: Delivery): seq<byte> {
    if d.ToTunnel? then PutU32(d.tunnelId) + d.hash else []
  }

  function IdBytes(id: Option<uint32>): seq<byte> {
    if id.Some? then PutU32(id.value) else []
  }

  function SizedBytes(payload: seq<byte>): seq<byte> {
    PutU16(|payload| % 0x1_0000) + payload
  }

  /** `compile`. */
  function FragmentBytes(f: Fragment): seq<byte> {
    match f
    case First(d, id, payload) =>
      [ModeBits(d) + if id.Some? then 8 else 0] + (DestinationBytes(d) + (IdBytes(id) + SizedBytes(payload)))
    case FollowOn(id, n, last, payload) =>
      [128 + n % 64 * 2 + if last then 1 else 0] + (PutU32(id) + SizedBytes(payload))
  }

  function ReadSized(b: seq<byte>): Result<(seq<byte>, seq<byte>)> {
    if |b| < 2 then Err(Overrun)
    else
      var size := GetU16(b);
      if |b| - 2 < size then Err(Malformed) else Ok((b[2..][..size], b[2..][size..]))
  }

  function ReadDestination(mode: nat, b: seq<byte>): Result<(Delivery, seq<byte>)> {
    if mode == 1 then
      if |b| < 36 then Err(Overrun) else Ok((ToTunnel(GetU32(b), b[4..][..32]), b[4..][32..]))
    else if mode == 2 then
      if |b| < 32 then Err(Overrun) else Ok((ToRouter(b[..32]), b[32..]))
    else Err(Unsupported)
  }

  function ReadId(fragmented: bool, b: seq<byte>): Result<(Option<uint32>, seq<byte>)> {
    if !fragmented then Ok((None, b)) else if |b| < 4 then Err(Overrun) else Ok((Some(GetU32(b)), b[4..]))
  }

  function ReadFirst(flag: byte, b: seq<byte>): Result<(Fragment, seq<byte>)> {
    match ReadDestination(flag / 32 % 4, b)
    case Err(e) => Err(e)
    case Ok((d, b1)) =>
      match ReadId(flag / 8 % 2 == 1, b1)
      case Err(e) => Err(e)
      case Ok((id, b2)) =>
        match ReadSized(b2)
        case Err(e) => Err(e)
        case Ok((payload, rest)) => Ok((First(d, id, payload), rest))
  }

  function ReadFollowOn(flag: byte, b: seq<byte>): Result<(Fragment, seq<byte>)> {
    if |b| < 4 then Err(Overrun)
    else match ReadSized(b[4..])
      case Err(e) => Err(e)
      case Ok((payload, rest)) => Ok((FollowOn(GetU32(b), flag / 2 % 64, flag % 2 == 1, payload), rest))
  }

  /** `Fragment::parse`: a fragment and the input behind it. */
  function ReadFragment(b: seq<byte>): Result<(Fragment, seq<byte>)> {
    if |b| < 3 then Err(Malformed)
    else if b[0] / 128 == 1 then ReadFollowOn(b[0], b[1..])
    else ReadFirst(b[0], b[1..])
  }

  /** Fragments the wire format has room for. */
  predicate Encodable(f: Fragment) {
    |f.payload| < 0x1_0000 && (f.FollowOn? ==> f.fragNum <= 63)
  }

  /** Fragments that are not local and not for a router. */
  predicate Readable(f: Fragment) {
    f.First? ==> f.delivery.ToTunnel?
  }

  lemma SizedRoundTrip(payload: seq<byte>, rest: seq<byte>)
    requires |payload| < 0x1_0000
    ensures ReadSized(SizedBytes(payload) + rest) == Ok((payload, rest))
  {
    var b := SizedBytes(payload) + rest;
    Assoc(PutU16(|payload|), payload, rest);
    DropPrefix(PutU16(|payload|), payload + rest);
    DropPrefix(payload, rest);
    assert b[2..] == payload + rest;
    assert GetU16(b) == GetU16(PutU16(|payload|));
  }

  lemma DestinationRoundTrip(d: Delivery, rest: seq<byte>)
    requires d.ToTunnel?
    ensures ReadDestination(1, DestinationBytes(d) + rest) == Ok((d, rest))
  {
    Assoc(PutU32(d.tunnelId), d.hash, rest);
    DropPrefix(PutU32(d.tunnelId), d.hash + rest);
    DropPrefix(d.hash, rest);
  }

  lemma IdRoundTrip(id: Option<uint32>, rest: seq<byte>)
    ensures ReadId(id.Some?, IdBytes(id) + rest) == Ok((id, rest))
  {
    if id.Some? {
      DropPrefix(PutU32(id.value), rest);
    } else {
      assert IdBytes(id) + rest == rest;
    }
  }

  lemma FlagBits(d: Delivery, fragmented: bool)
    ensures var flag := ModeBits(d) + if fragmented then 8 else 0;
      && flag / 128 == 0 && (flag / 8 % 2 == 1 <==> fragmented)
      && flag / 32 % 4 == match d case Local => 0 case ToTunnel(_, _) => 1 case ToRouter(_) => 2
  {
  }

  lemma FirstParts(d: Delivery, id: Option<uint32>, payload: seq<byte>, rest: seq<byte>)
    ensures var b := FragmentBytes(First(d, id, payload)) + rest;
      && |b| >= 3 && b[0] == ModeBits(d) + (if id.Some? then 8 else 0)
      && b[1..] == DestinationBytes(d) + (IdBytes(id) + (SizedBytes(payload) + rest))
  {
    var flag: seq<byte> := [ModeBits(d) + if id.Some? then 8 else 0];
    var t1 := IdBytes(id) + SizedBytes(payload);
    Assoc(IdBytes(id), SizedBytes(payload), rest);
    Assoc(DestinationBytes(d), t1, rest);
    Assoc(flag, DestinationBytes(d) + t1, rest);
    DropPrefix(flag, (DestinationBytes(d) + t1) + rest);
  }

  lemma FirstRoundTrip(d: Delivery, id: Option<uint32>, payload: seq<byte>, rest: seq<byte>)
    requires d.ToTunnel? && |payload| < 0x1_0000
    ensures ReadFragment(FragmentBytes(First(d, id, payload)) + rest) == Ok((First(d, id, payload), rest))
  {
    var b2 := SizedBytes(payload) + rest;
    FirstParts(d, id, payload, rest);
    FlagBits(d, id.Some?);
    DestinationRoundTrip(d, IdBytes(id) + b2);
    IdRoundTrip(id, b2);
    SizedRoundTrip(payload, rest);
  }

  lemma FollowOnFlag(n: byte, last: bool)
    requires n <= 63
    ensures var flag := 128 + n % 64 * 2 + (if last then 1 else 0);
      flag / 128 == 1 && flag / 2 % 64 == n && (flag % 2 == 1 <==> last)
  {
  }

  lemma FollowOnParts(id: uint32, n: byte, last: bool, payload: seq<byte>, rest: seq<byte>)
    requires n <= 63
    ensures var b := FragmentBytes(FollowOn(id, n, last, payload)) + rest;
      && |b| >= 3 && b[0] / 128 == 1 && b[0] / 2 % 64 == n && (b[0] % 2 == 1 <==> last)
      && b[1..] == PutU32(id) + (SizedBytes(payload) + rest)
  {
    var flag: seq<byte> := [128 + n % 64 * 2 + if last then 1 else 0];
    FollowOnFlag(n, last);
    Assoc(PutU32(id), SizedBytes(payload), rest);
    Assoc(flag, PutU32(id) + SizedBytes(payload), rest);
    DropPrefix(flag, (PutU32(id) + SizedBytes(payload)) + rest);
  }

  lemma FollowOnRoundTrip(id: uint32, n: byte, last: bool, payload: seq<byte>, rest: seq<byte>)
    requires n <= 63 && |payload| < 0x1_0000
    ensures ReadFragment(FragmentBytes(FollowOn(id, n, last, payload)) + rest)
         == Ok((FollowOn(id, n, last, payload), rest))
  {
    FollowOnParts(id, n, last, payload, rest);
    DropPrefix(PutU32(id), SizedBytes(payload) + rest);
    SizedRoundTrip(payload, rest);
  }

  /** What is read has been consumed; in particular a router hash of 32 bytes. */
  lemma RouterConsumes(flag: byte, b: seq<byte>)
    requires ReadFirst(flag, b).Ok? && ReadFirst(flag, b).value.0.delivery.ToRouter?
    ensures var (f, rest) := ReadFirst(flag, b).value;
      |b| == 32 + (if f.id.Some? then 4 else 0) + 2 + |f.payload| + |rest|
  {
  }

  /** The codec is exact: a fragment is read back, with the input behind it, if and only
      if it is a follow-on or a first fragment in tunnel mode. */
  lemma CodecExact(f: Fragment, rest: seq<byte>)
    requires Encodable(f)
    ensures ReadFragment(FragmentBytes(f) + rest) == Ok((f, rest)) <==> Readable(f)
  {
    match f
    case FollowOn(id, n, last, payload) => FollowOnRoundTrip(id, n, last, payload, rest);
    case First(d, id, payload) =>
      FirstParts(d, id, payload, rest);
      FlagBits(d, id.Some?);
      if d.ToTunnel? {
        FirstRoundTrip(d, id, payload, rest);
      } else if d.ToRouter? {
        var b := FragmentBytes(f) + rest;
        if ReadFragment(b) == Ok((f, rest)) {
          RouterConsumes(b[0], b[1..]);
        }
      }
  }

  /** A local first fragment makes the reader throw. */
  lemma LocalRejected(id: Option<uint32>, payload: seq<byte>, rest: seq<byte>)
    ensures ReadFragment(FragmentBytes(First(Local, id, payload)) + rest) == Err(Unsupported)
  {
    FirstParts(Local, id, payload, rest);
    FlagBits(Local, id.Some?);
  }

  // ------------------------------------------------------- the format, by positions

  /** A payload behind its size, from position `at` on. */
  predicate PayloadAt(b: seq<byte>, at: nat, payload: seq<byte>) {
    && |b| >= at + 2 + |payload| && 0x100 * b[at] as int + b[at + 1] as int == |payload|
    && b[at + 2..at + 2 + |payload|] == payload
  }

  /** The length of the destination in the modes that can be read. */
  function Skipped(d: Delivery): nat { if d.ToTunnel? then 36 else 32 }

  predicate DestinationAt(b: seq<byte>, d: Delivery) {
    && |b| >= 1 + Skipped(d) && !d.Local?
    && b[0] / 32 % 4 == (if d.ToTunnel? then 1 else 2)
    && (d.ToTunnel? ==> b[1..5] == PutU32(d.tunnelId) && b[5..37] == d.hash)
    && (d.ToRouter? ==> b[1..33] == d.hash)
  }

  predicate IdAt(b: seq<byte>, at: nat, id: Option<uint32>) {
    && |b| > 0 && (b[0] / 8 % 2 == 1 <==> id.Some?)
    && (id.Some? ==> |b| >= at + 4 && b[at..at + 4] == PutU32(id.value))
  }

  /** Where the size stands. */
  function SizeAt(f: Fragment): nat {
    if f.FollowOn? then 5 else 1 + Skipped(f.delivery) + if f.id.Some? then 4 else 0
  }

  /** The bytes of f stand at the head of b.  First fragment: flags, with the mode in bits 6
      and 5 and bit 3 set iff it has an id, destination, id, size, payload.  Follow-on: bit 7
      set, the number in the next six bits and the last flag in bit 0, id, size, payload. */
  predicate StandsIn(f: Fragment, b: seq<byte>) {
    match f
    case FollowOn(id, n, last, payload) =>
      && |b| >= 5 && b[0] as int == 128 + 2 * n as int + (if last then 1 else 0) && n < 64
      && b[1..5] == PutU32(id) && PayloadAt(b, 5, payload)
    case First(d, id, payload) =>
      DestinationAt(b, d) && b[0] < 128 && IdAt(b, 1 + Skipped(d), id) && PayloadAt(b, SizeAt(f), payload)
  }

  lemma SizedExact(b: seq<byte>, at: nat, payload: seq<byte>, rest: seq<byte>)
    requires at <= |b|
    ensures ReadSized(b[at..]) == Ok((payload, rest))
       <==> PayloadAt(b, at, payload) && rest == b[at + 2 + |payload|..]
  {
    var c := b[at..];
    if |c| >= 2 {
      var n := |payload|;
      assert GetU16(c) == 0x100 * b[at] as int + b[at + 1] as int;
      if |c| >= 2 + n {
        assert c[2..][..n] == b[at + 2..at + 2 + n] && c[2..][n..] == b[at + 2 + n..];
      }
    }
  }

  lemma WordExact(b: seq<byte>, at: nat, x: uint32)
    requires at + 4 <= |b|
    ensures GetU32(b[at..]) == x <==> b[at..at + 4] == PutU32(x)
  {
    assert b[at..at + 4] == [b[at], b[at + 1], b[at + 2], b[at + 3]];
  }

  lemma FollowOnFlagExact(flag: byte, n: byte, last: bool)
    requires flag >= 128
    ensures flag / 2 % 64 == n && (flag % 2 == 1 <==> last)
       <==> n < 64 && flag as int == 128 + 2 * n as int + if last then 1 else 0
  {
  }

  lemma FollowOnExact(b: seq<byte>, f: Fragment, rest: seq<byte>)
    requires |b| >= 3 && b[0] >= 128
    ensures ReadFollowOn(b[0], b[1..]) == Ok((f, rest))
       <==> f.FollowOn? && StandsIn(f, b) && rest == b[7 + |f.payload|..]
  {
    if |b| >= 5 {
      assert b[1..][4..] == b[5..];
      SizedExact(b, 5, f.payload, rest);
      if f.FollowOn? {
        WordExact(b, 1, f.msgId);
        FollowOnFlagExact(b[0], f.fragNum, f.isLast);
      }
    }
  }

  lemma DestinationExact(b: seq<byte>, d: Delivery, rest: seq<byte>)
    requires |b| >= 1
    ensures ReadDestination(b[0] / 32 % 4, b[1..]) == Ok((d, rest))
       <==> DestinationAt(b, d) && rest == b[1 + Skipped(d)..]
  {
    if |b| >= 37 {
      assert b[1..][4..][..32] == b[5..37] && b[1..][4..][32..] == b[37..];
      if d.ToTunnel? {
        WordExact(b, 1, d.tunnelId);
      }
    }
    if |b| >= 33 {
      assert b[1..][..32] == b[1..33] && b[1..][32..] == b[33..];
    }
  }

  lemma IdExact(b: seq<byte>, at: nat, id: Option<uint32>, rest: seq<byte>)
    requires 0 < at <= |b|
    ensures ReadId(b[0] / 8 % 2 == 1, b[at..]) == Ok((id, rest))
       <==> IdAt(b, at, id) && rest == b[at + (if id.Some? then 4 else 0)..]
  {
    if |b| >= at + 4 {
      assert b[at..][4..] == b[at + 4..];
      if id.Some? {
        WordExact(b, at, id.value);
      }
    }
  }

  lemma FirstReads(flag: byte, b: seq<byte>, d: Delivery, b1: seq<byte>, id: Option<uint32>, b2: seq<byte>)
    requires ReadDestination(flag / 32 % 4, b) == Ok((d, b1)) && ReadId(flag / 8 % 2 == 1, b1) == Ok((id, b2))
    ensures ReadFirst(flag, b) == match ReadSized(b2)
      case Err(e) => Err(e)
      case Ok((payload, rest)) => Ok((First(d, id, payload), rest))
  {
  }

  lemma FirstStands(b: seq<byte>, f: Fragment, rest: seq<byte>)
    requires |b| >= 3 && f.First? && StandsIn(f, b) && rest == b[SizeAt(f) + 2 + |f.payload|..]
    ensures ReadFirst(b[0], b[1..]) == Ok((f, rest))
  {
    var at := 1 + Skipped(f.delivery);
    DestinationExact(b, f.delivery, b[at..]);
    IdExact(b, at, f.id, b[SizeAt(f)..]);
    FirstReads(b[0], b[1..], f.delivery, b[at..], f.id, b[SizeAt(f)..]);
    SizedExact(b, SizeAt(f), f.payload, rest);
  }

  lemma FirstWasThere(b: seq<byte>, f: Fragment, rest: seq<byte>)
    requires |b| >= 3 && b[0] < 128 && ReadFirst(b[0], b[1..]) == Ok((f, rest))
    ensures f.First? && StandsIn(f, b) && rest == b[SizeAt(f) + 2 + |f.payload|..]
  {
    var (d, b1) := ReadDestination(b[0] / 32 % 4, b[1..]).value;
    var (id, b2) := ReadId(b[0] / 8 % 2 == 1, b1).value;
    DestinationExact(b, d, b1);
    IdExact(b, 1 + Skipped(d), id, b2);
    FirstReads(b[0], b[1..], d, b1, id, b2);
    SizedExact(b, SizeAt(f), f.payload, rest);
  }

  /** The reader is exact: on any input it finds f iff the bytes of f stand at its head. */
  lemma ReadExact(b: seq<byte>, f: Fragment, rest: seq<byte>)
    ensures ReadFragment(b) == Ok((f, rest)) <==> StandsIn(f, b) && rest == b[SizeAt(f) + 2 + |f.payload|..]
  {
    if |b| >= 3 {
      if b[0] >= 128 {
        FollowOnExact(b, f, rest);
      } else {
        if ReadFirst(b[0], b[1..]) == Ok((f, rest)) {
          FirstWasThere(b, f, rest);
        }
        if StandsIn(f, b) && rest == b[SizeAt(f) + 2 + |f.payload|..] {
          FirstStands(b, f, rest);
        }
      }
    }
  }

  /** What the writer makes, by positions: what can be read stands there as the reader looks
      for it; a local first fragment is flags, id and payload. */
  lemma WrittenLayout(f: Fragment)
    requires Encodable(f)
    ensures Readable(f) ==> StandsIn(f, FragmentBytes(f)) && |FragmentBytes(f)| == SizeAt(f) + 2 + |f.payload|
    ensures f.First? && f.delivery.Local? ==>
      var b := FragmentBytes(f);
      var at := if f.id.Some? then 5 else 1;
      && b[0] == (if f.id.Some? then 8 else 0) && (f.id.Some? ==> b[1..5] == PutU32(f.id.value))
      && PayloadAt(b, at, f.payload) && |b| == at + 2 + |f.payload|
  {
    var b := FragmentBytes(f);
    if Readable(f) {
      CodecExact(f, []);
      assert b + [] == b;
      ReadExact(b, f, []);
    } else if f.delivery.Local? {
      LocalLayout(f.id, f.payload);
    }
  }

  lemma LocalLayout(id: Option<uint32>, payload: seq<byte>)
    requires |payload| < 0x1_0000
    ensures var b := FragmentBytes(First(Local, id, payload));
      var at := if id.Some? then 5 else 1;
      && |b| == at + 2 + |payload| && b[0] == (if id.Some? then 8 else 0)
      && (id.Some? ==> b[1..5] == PutU32(id.value)) && PayloadAt(b, at, payload)
  {
    var head: seq<byte> := [if id.Some? then 8 else 0] + IdBytes(id);
    var b := FragmentBytes(First(Local, id, payload));
    assert [] + (IdBytes(id) + SizedBytes(payload)) == IdBytes(id) + SizedBytes(payload);
    Assoc([if id.Some? then 8 else 0], IdBytes(id), SizedBytes(payload));
    assert b == head + SizedBytes(payload);
    SizedRoundTrip(payload, []);
    assert SizedBytes(payload) + [] == SizedBytes(payload);
    DropPrefix(head, SizedBytes(payload));
    SizedExact(b, |head|, payload, []);
  }

  /** `size` is the length of the compiled fragment. */
  lemma CompiledSize(f: Fragment)
    requires HeaderSize(f).Ok?
    ensures |FragmentBytes(f)| == HeaderSize(f).value + |f.payload|
  {
  }

  // ------------------------------------------------------------ cutting a message

  const MAX: nat := 1003

  /** `setPayload`: as much of the input as fits, and what is left of it. */
  method SetPayload(input: seq<byte>, header: nat, max: nat) returns (payload: seq<byte>, rest: seq<byte>)
    requires header <= max
    ensures payload == input[..Min(|input|, max - header)] && rest == input[Min(|input|, max - header)..]
  {
    var len := |input|;
    if header + len > max {
      len := max - header;
    }
    payload, rest := input[..len], input[len..];
  }

  /** The k-th of the fragments a message is cut into. */
  function PieceAt(id: uint32, data: seq<byte>, k: nat): Fragment
    requires 996 * k <= |data| && k <= 63
  {
    var part := data[996 * k..Min(996 * k + 996, |data|)];
    if k == 0 then First(Local, Some(id), part) else FollowOn(id, k, 996 * k + 996 >= |data|, part)
  }

  function PieceCount(length: nat): nat {
    (length + 995) / 996
  }

  lemma PieceBounds(length: nat, k: nat)
    requires length > 0
    ensures k < PieceCount(length) <==> 996 * k < length
    ensures length <= 64 * 996 <==> PieceCount(length) <= 64
  {
  }

  function Pieces(id: uint32, data: seq<byte>): (r: seq<Fragment>)
    requires 0 < |data| <= 64 * 996
    ensures |r| == PieceCount(|data|)
  {
    seq(PieceCount(|data|), k requires 0 <= k < PieceCount(|data|) =>
      PieceBounds(|data|, k); PieceAt(id, data, k))
  }

  /** What `fragmentMessage` makes of a message: the length is compared in 16 bits, a
      fragment number above 63 throws. */
  function Fragmented(id: uint32, data: seq<byte>): Result<seq<Fragment>> {
    if |data| % 0x1_0000 + 3 <= MAX then Ok([First(Local, None, data[..Min(|data|, 1000)])])
    else if |data| > 64 * 996 then Err(TooLarge)
    else Ok(Pieces(id, data))
  }

  /** The first n pieces. */
  predicate PiecesTo(id: uint32, data: seq<byte>, n: nat, fs: seq<Fragment>) {
    && |fs| == n <= 64
    && forall k :: 0 <= k < n ==> 996 * k <= |data| && fs[k] == PieceAt(id, data, k)
  }

  lemma NextPiece(id: uint32, data: seq<byte>, n: nat, fs: seq<Fragment>, f: Fragment)
    requires PiecesTo(id, data, n, fs) && n < 64 && 996 * n <= |data| && f == PieceAt(id, data, n)
    ensures PiecesTo(id, data, n + 1, fs + [f])
  {
  }

  lemma AllPieces(id: uint32, data: seq<byte>, n: nat, fs: seq<Fragment>)
    requires PiecesTo(id, data, n, fs) && n > 0 && 996 * (n - 1) < |data| <= 996 * n
    ensures |data| <= 64 * 996 && fs == Pieces(id, data)
  {
    PieceBounds(|data|, n);
    PieceBounds(|data|, n - 1);
  }

  lemma NextPieceIs(id: uint32, data: seq<byte>, n: nat, rest: seq<byte>)
    requires 0 < n < 64 && 996 * n < |data| && rest == data[996 * n..]
    ensures var len := Min(|rest|, 996);
      && PieceAt(id, data, n) == FollowOn(id, n, rest[len..] == [], rest[..len])
      && rest[len..] == data[Min(996 * (n + 1), |data|)..]
  {
    var len := Min(|rest|, 996);
    assert rest[..len] == data[996 * n..996 * n + len];
  }

  /** The fragments of a message that is over 1000 bytes. */
  method CutMessage(id: uint32, data: seq<byte>) returns (r: Result<seq<Fragment>>)
    requires |data| > 0
    ensures r == if |data| > 64 * 996 then Err(TooLarge) else Ok(Pieces(id, data))
  {
    var payload, rest := SetPayload(data, 7, MAX);
    var fragments := [First(Local, Some(id), payload)];
    assert fragments[0] == PieceAt(id, data, 0);
    var fragNum := 1;
    while rest != []
      invariant 1 <= fragNum <= 64 && 996 * (fragNum - 1) < |data|
      invariant rest == data[Min(996 * fragNum, |data|)..]
      invariant PiecesTo(id, data, fragNum, fragments)
      decreases |rest|
    {
      if fragNum > 63 {
        return Err(TooLarge);
      }
      NextPieceIs(id, data, fragNum, rest);
      payload, rest := SetPayload(rest, 7, MAX);
      var f := FollowOn(id, fragNum, rest == [], payload);
      NextPiece(id, data, fragNum, fragments, f);
      fragments := fragments + [f];
      fragNum := fragNum + 1;
    }
    AllPieces(id, data, fragNum, fragments);
    r := Ok(fragments);
  }

  method FragmentMessage(id: uint32, data: seq<byte>) returns (r: Result<seq<Fragment>>)
    ensures r == Fragmented(id, data)
  {
    if 3 + |data| % 0x1_0000 <= MAX {
      var payload, _ := SetPayload(data, 3, MAX);
      r := Ok([First(Local, None, payload)]);
    } else {
      r := CutMessage(id, data);
    }
  }

  function Payloads(fs: seq<Fragment>): seq<byte> {
    if fs == [] then [] else Payloads(fs[..|fs| - 1]) + fs[|fs| - 1].payload
  }

  /** What cutting a message is for. */
  predicate Faithful(id: uint32, data: seq<byte>, fs: seq<Fragment>) {
    && fs != [] && Payloads(fs) == data
    && (|fs| > 1 <==> |data| > 1000)
    && fs[0].First? && (fs[0].id == if |fs| > 1 then Some(id) else None)
    && (forall k :: 1 <= k < |fs| ==>
          fs[k].FollowOn? && fs[k].msgId == id && fs[k].fragNum == k && (fs[k].isLast <==> k == |fs| - 1))
    && (forall k :: 0 <= k < |fs| ==>
          HeaderSize(fs[k]).Ok? && |FragmentBytes(fs[k])| == HeaderSize(fs[k]).value + |fs[k].payload| <= MAX)
  }

  lemma {:induction false} PayloadsOfPieces(id: uint32, data: seq<byte>, k: nat)
    requires 0 < |data| <= 64 * 996 && k <= PieceCount(|data|)
    ensures Payloads(Pieces(id, data)[..k]) == data[..Min(996 * k, |data|)]
  {
    if k > 0 {
      PayloadsOfPieces(id, data, k - 1);
      PieceBounds(|data|, k - 1);
      assert Pieces(id, data)[..k][..k - 1] == Pieces(id, data)[..k - 1];
      TakeMore(data, 996 * (k - 1), Min(996 * k, |data|));
    }
  }

  lemma PieceShape(id: uint32, data: seq<byte>, k: nat)
    requires 0 < |data| <= 64 * 996 && k < PieceCount(|data|)
    ensures var f := Pieces(id, data)[k];
      && HeaderSize(f).Ok? && |FragmentBytes(f)| == HeaderSize(f).value + |f.payload| <= MAX
      && (if k == 0 then f.First? && f.id == Some(id)
          else f.FollowOn? && f.msgId == id && f.fragNum == k && (f.isLast <==> k == PieceCount(|data|) - 1))
  {
    PieceBounds(|data|, k);
    PieceBounds(|data|, k + 1);
    CompiledSize(Pieces(id, data)[k]);
  }

  lemma PiecesFaithful(id: uint32, data: seq<byte>)
    requires 1000 < |data| <= 64 * 996
    ensures Faithful(id, data, Pieces(id, data))
  {
    var fs := Pieces(id, data);
    PayloadsOfPieces(id, data, |fs|);
    assert fs[..|fs|] == fs && data[..|data|] == data;
    forall k | 0 <= k < |fs| {
      PieceShape(id, data, k);
    }
  }

  lemma SingleFaithful(id: uint32, data: seq<byte>)
    requires |data| <= 1000
    ensures Faithful(id, data, [First(Local, None, data)])
  {
    var fs := [First(Local, None, data)];
    assert fs[..0] == [];
    assert Payloads(fs) == Payloads(fs[..0]) + data;
    CompiledSize(fs[0]);
  }

  /** Tunnel fragmentation: the fragments are numbered 1..n behind the first, only the
      last is flagged, none is over 1003 bytes and together they are the message, if and
      only if the message has at most 64 * 996 bytes. */
  lemma FragmentationExact(id: uint32, data: seq<byte>)
    ensures Fragmented(id, data).Ok? && Faithful(id, data, Fragmented(id, data).value) <==> |data| <= 64 * 996
  {
    if |data| <= 1000 {
      assert data[..Min(|data|, 1000)] == data;
      SingleFaithful(id, data);
    } else if |data| <= 64 * 996 {
      PiecesFaithful(id, data);
    }
  }

  /** From 65536 bytes on the 16-bit test can take a long message for a short one, which
      is then cut off after 1000 bytes. */
  lemma LongMessageCutOff(id: uint32, data: seq<byte>)
    requires |data| >= 0x1_0000 && |data| % 0x1_0000 <= 1000
    ensures Fragmented(id, data) == Ok([First(Local, None, data[..1000])])
  {
  }
}
