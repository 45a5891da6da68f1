/** The SSU data message: `PacketBuilder::buildData` and the reading half of
    `InboundMessageFragments::receiveData` (I2P SSU specification, section
    "Data (type 6)"). */
module SsuPacket {
  import opened Bytes

  datatype Fragment = Fragment(msgId: uint32, fragNum: byte, isLast: bool, data: seq<byte>)

  /** An entry of `PartialAckList`: a message id and which fragments arrived. */
  datatype PartialAck = PartialAck(msgId: uint32, bits: seq<bool>)

  // ---------------------------------------------------------------- writing

  function AckBytes(ids: seq<uint32>): seq<byte> {
    if ids == [] then [] else PutU32(ids[0]) + AckBytes(ids[1..])
  }

  function ByteOf(bits: seq<bool>): byte
    requires |bits| == 8
  {
    BitsRoundTrip(bits);
    assert Pow2(8) == 256;
    OfBits(bits)
  }

  function Pad(bits: seq<bool>): (r: seq<bool>)
    requires |bits| <= 7
    ensures |r| == 7
  {
    bits + seq(7 - |bits|, _ => false)
  }

  /** One bitfield byte: bit 7 says that another byte follows, bits 6..0 are the
      next seven fragments. */
  function BitByte(bits: seq<bool>, more: bool): byte
    requires |bits| <= 7
  {
    ByteOf([more] + Pad(bits))
  }

  function BitfieldBytes(bits: seq<bool>): seq<byte> {
    if bits == [] then []
    else if |bits| <= 7 then [BitByte(bits, false)]
    else [BitByte(bits[..7], true)] + BitfieldBytes(bits[7..])
  }

  function PartialBytes(acks: seq<PartialAck>): seq<byte> {
    if acks == [] then []
    else PutU32(acks[0].msgId) + (BitfieldBytes(acks[0].bits) + PartialBytes(acks[1..]))
  }

  /** Message id, then the 24-bit word fragNum << 17 | isLast << 16 | size. */
  function FragmentHeader(f: Fragment): (b: seq<byte>)
    requires |f.data| <= 16383
    ensures |b| == 7
  {
    PutU32(f.msgId) + [(2 * f.fragNum as int + if f.isLast then 1 else 0) % 256] + PutU16(|f.data|)
  }

  predicate Sized(frags: seq<Fragment>) {
    forall i :: 0 <= i < |frags| ==> |frags[i].data| <= 16383
  }

  function FragmentBytes(frags: seq<Fragment>): seq<byte>
    requires Sized(frags)
  {
    if frags == [] then [] else FragmentHeader(frags[0]) + (frags[0].data + FragmentBytes(frags[1..]))
  }

  /** A one-byte count and the body it counts, or nothing when the count is 0;
      the count is kept in one byte and wraps. */
  function Counted(n: nat, body: seq<byte>): seq<byte> {
    if n % 256 == 0 then [] else [n % 256] + body
  }

  function DataFlag(wantReply: bool, nAcks: nat, nPartial: nat): byte {
    (if nAcks % 256 != 0 then 128 else 0) + (if nPartial % 256 != 0 then 64 else 0) + (if wantReply then 4 else 0)
  }

  function DataBytes(wantReply: bool, acks: seq<uint32>, partial: seq<PartialAck>, frags: seq<Fragment>): seq<byte>
    requires Sized(frags)
  {
    [DataFlag(wantReply, |acks|, |partial|)]
    + Counted(|acks|, AckBytes(acks))
    + Counted(|partial|, PartialBytes(partial))
    + [|frags| % 256] + FragmentBytes(frags)
  }

  /** The bits so far, with zeros for those to come. */
  function Partly(part: seq<bool>, more: bool, n: nat): (digits: seq<bool>)
    requires n <= |part| <= 7
    ensures |digits| == 8
  {
    [more] + Pad(part[..n])
  }

  lemma NextDigit(part: seq<bool>, more: bool, n: nat)
    requires n < |part| <= 7
    ensures !Partly(part, more, n)[n + 1]
    ensures Partly(part, more, n + 1) == if part[n] then Partly(part, more, n)[n + 1 := true] else Partly(part, more, n)
  {
    assert part[..n + 1] == part[..n] + [part[n]];
  }

  lemma NextBit(part: seq<bool>, more: bool, n: nat)
    requires n < |part| <= 7
    ensures OfBits(Partly(part, more, n + 1)) == OfBits(Partly(part, more, n)) + if part[n] then Pow2(6 - n) else 0
  {
    NextDigit(part, more, n);
    SetBit(Partly(part, more, n), 6 - n);
  }

  lemma NoBits(part: seq<bool>, more: bool)
    requires |part| <= 7
    ensures OfBits(Partly(part, more, 0)) == if more then 128 else 0
  {
    LeadingBit(more, 7);
    assert Partly(part, more, 0) == [more] + seq(7, _ => false);
    assert Pow2(7) == 128;
  }

  lemma DigitsFit(digits: seq<bool>)
    requires |digits| == 8
    ensures OfBits(digits) < 256
  {
    BitsRoundTrip(digits);
    assert Pow2(8) == 256;
  }

  /** The i-th group of up to seven bits. */
  function Group(bits: seq<bool>, i: nat): (part: seq<bool>)
    requires 7 * i < |bits|
    ensures |part| == Min(7, |bits| - 7 * i) && forall n :: 0 <= n < |part| ==> part[n] == bits[7 * i + n]
  {
    bits[7 * i..Min(7 * i + 7, |bits|)]
  }

  lemma NextOfGroup(bits: seq<bool>, i: nat, more: bool, n: nat)
    requires n < 7 && 7 * i + n < |bits|
    ensures var digits := OfBits(Partly(Group(bits, i), more, n + 1));
      digits < 256 && digits == OfBits(Partly(Group(bits, i), more, n)) + if bits[7 * i + n] then Pow2(6 - n) else 0
  {
    NextBit(Group(bits, i), more, n);
    DigitsFit(Partly(Group(bits, i), more, n + 1));
  }

  /** The inner loop of `buildData`: sets bit 6 - k for the k-th of up to seven bits. */
  method BuildBitByte(bits: seq<bool>, i: nat, more: bool) returns (b: byte)
    requires 7 * i < |bits|
    ensures b == BitByte(Group(bits, i), more)
  {
    NoBits(Group(bits, i), more);
    b := if more then 128 else 0;
    var j, k := 6, 7 * i;
    while j >= 0 && k < |bits|
      invariant -1 <= j <= 6 && k == 7 * i + 6 - j && k <= |bits|
      invariant b == OfBits(Partly(Group(bits, i), more, 6 - j))
    {
      NextOfGroup(bits, i, more, 6 - j);
      if bits[k] {
        b := b + Pow2(j);
      }
      j, k := j - 1, k + 1;
    }
    assert Group(bits, i)[..6 - j] == Group(bits, i);
  }

  method BuildBitfield(bits: seq<bool>) returns (out: seq<byte>)
    ensures out == BitfieldBytes(bits)
  {
    out := [];
    var steps := (|bits| + 6) / 7;
    var i := 0;
    assert bits[0..] == bits;
    while i < steps
      invariant 0 <= i <= steps && (i < steps ==> 7 * i < |bits|)
      invariant out + BitfieldBytes(bits[Min(7 * i, |bits|)..]) == BitfieldBytes(bits)
    {
      var b := BuildBitByte(bits, i, i + 1 < steps);
      ghost var rest := bits[7 * i..];
      if i + 1 < steps {
        assert rest[..7] == Group(bits, i);
        assert rest[7..] == bits[7 * (i + 1)..];
      } else {
        assert rest == Group(bits, i);
        assert bits[Min(7 * (i + 1), |bits|)..] == [];
      }
      out := out + [b];
      i := i + 1;
    }
  }

  lemma AckBytesStep(out: seq<byte>, rest: seq<uint32>)
    requires rest != []
    ensures out + AckBytes(rest) == (out + PutU32(rest[0])) + AckBytes(rest[1..])
  {
    Assoc(out, PutU32(rest[0]), AckBytes(rest[1..]));
  }

  function Bump(count: byte): byte { (count as int + 1) % 256 }

  lemma BumpCounts(n: nat)
    ensures Bump(n % 256) == (n + 1) % 256
  {
  }

  method BuildAcks(acks: seq<uint32>) returns (count: byte, out: seq<byte>)
    ensures count == |acks| % 256 && out == AckBytes(acks)
  {
    count, out := 0, [];
    var rest := acks;
    while rest != []
      invariant |rest| <= |acks| && count == (|acks| - |rest|) % 256
      invariant out + AckBytes(rest) == AckBytes(acks)
    {
      AckBytesStep(out, rest);
      BumpCounts(|acks| - |rest|);
      out := out + PutU32(rest[0]);
      count := Bump(count);
      rest := rest[1..];
    }
  }

  lemma PartialBytesStep(out: seq<byte>, rest: seq<PartialAck>)
    requires rest != []
    ensures out + PartialBytes(rest)
         == (out + (PutU32(rest[0].msgId) + BitfieldBytes(rest[0].bits))) + PartialBytes(rest[1..])
  {
    Assoc(out, PutU32(rest[0].msgId) + BitfieldBytes(rest[0].bits), PartialBytes(rest[1..]));
    Assoc(PutU32(rest[0].msgId), BitfieldBytes(rest[0].bits), PartialBytes(rest[1..]));
  }

  method BuildPartials(partial: seq<PartialAck>) returns (count: byte, out: seq<byte>)
    ensures count == |partial| % 256 && out == PartialBytes(partial)
  {
    count, out := 0, [];
    var rest := partial;
    while rest != []
      invariant |rest| <= |partial| && count == (|partial| - |rest|) % 256
      invariant out + PartialBytes(rest) == PartialBytes(partial)
    {
      PartialBytesStep(out, rest);
      BumpCounts(|partial| - |rest|);
      var field := BuildBitfield(rest[0].bits);
      out := out + (PutU32(rest[0].msgId) + field);
      count := Bump(count);
      rest := rest[1..];
    }
  }

  method BuildFragments(frags: seq<Fragment>) returns (r: Result<seq<byte>>)
    ensures r == if Sized(frags) then Ok(FragmentBytes(frags)) else Err(TooLarge)
  {
    var out: seq<byte> := [];
    for i := 0 to |frags|
      invariant forall k :: 0 <= k < i ==> |frags[k].data| <= 16383
      invariant Sized(frags) ==> out + FragmentBytes(frags[i..]) == FragmentBytes(frags)
    {
      assert frags[i..][1..] == frags[i + 1..];
      if |frags[i].data| > 16383 {
        return Err(TooLarge);
      }
      if Sized(frags) {
        Assoc(out, FragmentHeader(frags[i]) + frags[i].data, FragmentBytes(frags[i + 1..]));
        Assoc(FragmentHeader(frags[i]), frags[i].data, FragmentBytes(frags[i + 1..]));
      }
      out := out + (FragmentHeader(frags[i]) + frags[i].data);
    }
    assert Sized(frags) && out == FragmentBytes(frags);
    r := Ok(out);
  }

  /** `PacketBuilder::buildData`, after the packet header. */
  method BuildData(wantReply: bool, acks: seq<uint32>, partial: seq<PartialAck>, frags: seq<Fragment>)
    returns (r: Result<seq<byte>>)
    ensures r == if Sized(frags) then Ok(DataBytes(wantReply, acks, partial, frags)) else Err(TooLarge)
    ensures r.Err? <==> exists i :: 0 <= i < |frags| && |frags[i].data| > 16383
  {
    var flag: byte := if wantReply then 4 else 0;
    var eaCount, ea := BuildAcks(acks);
    var baCount, ba := BuildPartials(partial);
    if eaCount != 0 { flag := flag + 128; }
    if baCount != 0 { flag := flag + 64; }
    assert flag == DataFlag(wantReply, |acks|, |partial|);
    var d1: seq<byte>, d2: seq<byte> := [], [];
    if eaCount != 0 { d1 := [eaCount] + ea; }
    if baCount != 0 { d2 := [baCount] + ba; }
    assert d1 == Counted(|acks|, AckBytes(acks)) && d2 == Counted(|partial|, PartialBytes(partial));
    var body := BuildFragments(frags);
    match body
    case Err(e) => r := Err(e);
    case Ok(bytes) => r := Ok([flag] + d1 + d2 + [|frags| % 256] + bytes);
  }

  // ---------------------------------------------------------------- reading

  /** What a data message makes the receiver do, in the order of the message. */
  datatype Event =
    | CompleteAck(msgId: uint32)
    | BitfieldAck(msgId: uint32, nums: seq<nat>)
    | Received(frag: Fragment)

  /** The events of one part of the message and the unread input; no rest when
      the part threw or ran past the end. */
  datatype Part = Part(events: seq<Event>, rest: Option<seq<byte>>)

  function ReadAcks(b: seq<byte>, n: nat): seq<Event>
    requires |b| >= 4 * n
  {
    if n == 0 then [] else [CompleteAck(GetU32(b))] + ReadAcks(b[4..], n - 1)
  }

  function AckPart(present: bool, b: seq<byte>): Part {
    if !present then Part([], Some(b))
    else if |b| < 1 || |b| - 1 < 4 * b[0] as int then Part([], None)
    else Part(ReadAcks(b[1..], b[0]), Some(b[1 + 4 * b[0] as int..]))
  }

  /** The numbers of the true entries of `bits`, counted from `first`. */
  function SetBits(bits: seq<bool>, first: nat): seq<nat> {
    if bits == [] then [] else (if bits[0] then [first] else []) + SetBits(bits[1..], first + 1)
  }

  function ReadBitfield(b: seq<byte>, byteNum: byte): Option<(seq<nat>, seq<byte>)> {
    if b == [] then None
    else
      var bits := ToBits(b[0], 8);
      var nums := SetBits(bits[1..], 7 * byteNum as int);
      if !bits[0] then Some((nums, b[1..]))
      else match ReadBitfield(b[1..], (byteNum as int + 1) % 256)
        case None => None
        case Some((more, rest)) => Some((nums + more, rest))
  }

  function ReadBitfields(b: seq<byte>, n: nat): Part
    decreases n
  {
    if n == 0 then Part([], Some(b))
    else if |b| < 4 then Part([], None)
    else match ReadBitfield(b[4..], 0)
      case None => Part([], None)
      case Some((nums, rest)) =>
        var tail := ReadBitfields(rest, n - 1);
        Part([BitfieldAck(GetU32(b), nums)] + tail.events, tail.rest)
  }

  function BitfieldPart(present: bool, b: seq<byte>): Part {
    if !present then Part([], Some(b))
    else if |b| < 1 then Part([], None)
    else ReadBitfields(b[1..], b[0])
  }

  /** The fragment at the head of the input, if all of it is there. */
  function HeadFragment(b: seq<byte>): (r: Option<Fragment>)
    ensures r.Some? ==> |b| >= 7
  {
    if |b| < 7 then None
    else
      var size := GetU16(b[5..]) % 16384;
      if |b| - 7 < size then None
      else Some(Fragment(GetU32(b), b[4] / 2, b[4] % 2 == 1, b[7..7 + size]))
  }

  /** The fragment loop.  It steps over the seven header bytes of a fragment but
      not over its data. */
  function ReadFragments(b: seq<byte>, n: nat): Part {
    if n == 0 then Part([], Some(b))
    else match HeadFragment(b)
      case None => Part([], None)
      case Some(f) =>
        var tail := ReadFragments(b[7..], n - 1);
        Part([Received(f)] + tail.events, tail.rest)
  }

  function FragmentPart(b: seq<byte>): Part {
    if |b| < 1 then Part([], None) else ReadFragments(b[1..], b[0])
  }

  function ReadData(b: seq<byte>): Part {
    if |b| < 1 then Part([], None)
    else
      var acks := AckPart(b[0] / 128 % 2 == 1, b[1..]);
      if acks.rest.None? then acks else ReadRest(acks.events, b[0] / 64 % 2 == 1, acks.rest.value)
  }

  /** The message behind the complete acknowledgements. */
  function ReadRest(acks: seq<Event>, present: bool, b: seq<byte>): Part {
    var fields := BitfieldPart(present, b);
    if fields.rest.None? then Part(acks + fields.events, None)
    else
      var frags := FragmentPart(fields.rest.value);
      Part(acks + fields.events + frags.events, frags.rest)
  }

  function Prepend(nums: seq<nat>, r: Option<(seq<nat>, seq<byte>)>): Option<(seq<nat>, seq<byte>)> {
    match r
    case None => None
    case Some((more, tail)) => Some((nums + more, tail))
  }

  lemma PrependNothing(r: Option<(seq<nat>, seq<byte>)>)
    ensures Prepend([], r) == r
  {
    if r.Some? {
      assert [] + r.value.0 == r.value.0;
    }
  }

  method BitNumbers(bits: seq<bool>, first: nat) returns (nums: seq<nat>)
    ensures nums == SetBits(bits, first)
  {
    nums := [];
    for j := 0 to |bits|
      invariant nums + SetBits(bits[j..], first + j) == SetBits(bits, first)
    {
      assert bits[j..][1..] == bits[j + 1..];
      if bits[j] {
        Assoc(nums, [first + j], SetBits(bits[j + 1..], first + j + 1));
        nums := nums + [first + j];
      }
    }
  }

  lemma FieldStep(done: seq<nat>, b: seq<byte>, byteNum: byte)
    requires b != []
    ensures var bits := ToBits(b[0], 8);
      var nums := done + SetBits(bits[1..], 7 * byteNum as int);
      Prepend(done, ReadBitfield(b, byteNum))
      == if bits[0] then Prepend(nums, ReadBitfield(b[1..], (byteNum as int + 1) % 256)) else Some((nums, b[1..]))
  {
    var bits := ToBits(b[0], 8);
    var next := ReadBitfield(b[1..], (byteNum as int + 1) % 256);
    if bits[0] && next.Some? {
      Assoc(done, SetBits(bits[1..], 7 * byteNum as int), next.value.0);
    }
  }

  /** Reads one bitfield: bits 6..0 of each byte are fragments, bit 7 says that
      another byte follows.  `input` is what the iterator has not passed yet. */
  method ParseBitfield(input: seq<byte>) returns (r: Option<(seq<nat>, seq<byte>)>)
    ensures r == ReadBitfield(input, 0)
  {
    var rest, nums := input, [];
    var byteNum: byte := 0;
    PrependNothing(ReadBitfield(input, 0));
    var more := true;
    while more
      invariant more ==> Prepend(nums, ReadBitfield(rest, byteNum)) == ReadBitfield(input, 0)
      invariant !more ==> Some((nums, rest)) == ReadBitfield(input, 0)
      decreases more, |rest|
    {
      if rest == [] {
        return None;
      }
      FieldStep(nums, rest, byteNum);
      var bits := ToBits(rest[0], 8);
      var found := BitNumbers(bits[1..], 7 * byteNum as int);
      nums := nums + found;
      byteNum := (byteNum as int + 1) % 256;
      more := bits[0];
      rest := rest[1..];
    }
    r := Some((nums, rest));
  }

  lemma AcksStep(done: seq<Event>, b: seq<byte>, n: nat)
    requires n > 0 && |b| >= 4 * n
    ensures done + ReadAcks(b, n) == (done + [CompleteAck(GetU32(b))]) + ReadAcks(b[4..], n - 1)
  {
  }

  method ParseAcks(input: seq<byte>) returns (p: Part)
    ensures p == AckPart(true, input)
  {
    if |input| < 1 {
      return Part([], None);
    }
    var n: nat := input[0];
    var rest := input[1..];
    if |rest| < 4 * n {
      return Part([], None);
    }
    var events: seq<Event> := [];
    ghost var whole := ReadAcks(rest, n);
    ghost var end := rest[4 * n..];
    while n > 0
      invariant |rest| >= 4 * n && rest[4 * n..] == end
      invariant events + ReadAcks(rest, n) == whole
    {
      AcksStep(events, rest, n);
      events := events + [CompleteAck(GetU32(rest))];
      assert rest[4..][4 * (n - 1)..] == rest[4 * n..];
      rest, n := rest[4..], n - 1;
    }
    p := Part(events, Some(rest));
  }

  function Before(done: seq<Event>, p: Part): Part {
    Part(done + p.events, p.rest)
  }

  lemma BeforeNothing(p: Part)
    ensures Before([], p) == p
  {
    assert [] + p.events == p.events;
  }

  lemma NothingAfter(done: seq<Event>, rest: Option<seq<byte>>)
    ensures Before(done, Part([], rest)) == Part(done, rest)
  {
    assert done + [] == done;
  }

  lemma BitfieldStep(done: seq<Event>, b: seq<byte>, n: nat)
    requires n > 0 && |b| >= 4
    ensures match ReadBitfield(b[4..], 0)
      case None => Before(done, ReadBitfields(b, n)) == Part(done, None)
      case Some((nums, rest)) =>
        Before(done, ReadBitfields(b, n)) == Before(done + [BitfieldAck(GetU32(b), nums)], ReadBitfields(rest, n - 1))
  {
    if ReadBitfield(b[4..], 0).Some? {
      var (nums, rest) := ReadBitfield(b[4..], 0).value;
      Assoc(done, [BitfieldAck(GetU32(b), nums)], ReadBitfields(rest, n - 1).events);
    } else {
      NothingAfter(done, None);
    }
  }

  method ParseBitfields(input: seq<byte>, count: nat) returns (p: Part)
    ensures p == ReadBitfields(input, count)
  {
    var rest, n := input, count;
    var events: seq<Event> := [];
    ghost var whole := ReadBitfields(input, count);
    BeforeNothing(whole);
    while n > 0
      invariant Before(events, ReadBitfields(rest, n)) == whole
    {
      if |rest| < 4 {
        NothingAfter(events, None);
        return Part(events, None);
      }
      BitfieldStep(events, rest, n);
      var field := ParseBitfield(rest[4..]);
      if field.None? {
        return Part(events, None);
      }
      events := events + [BitfieldAck(GetU32(rest), field.value.0)];
      rest, n := field.value.1, n - 1;
    }
    NothingAfter(events, Some(rest));
    p := Part(events, Some(rest));
  }

  lemma FragmentStep(done: seq<Event>, b: seq<byte>, n: nat, f: Fragment)
    requires n > 0 && HeadFragment(b) == Some(f)
    ensures Before(done, ReadFragments(b, n)) == Before(done + [Received(f)], ReadFragments(b[7..], n - 1))
  {
    Assoc(done, [Received(f)], ReadFragments(b[7..], n - 1).events);
  }

  lemma FragmentMissing(done: seq<Event>, b: seq<byte>, n: nat)
    requires n > 0 && HeadFragment(b).None?
    ensures Before(done, ReadFragments(b, n)) == Part(done, None)
  {
    NothingAfter(done, None);
  }

  method ParseFragment(input: seq<byte>) returns (r: Option<Fragment>)
    ensures r == HeadFragment(input)
  {
    if |input| < 7 {
      return None;
    }
    var size := GetU16(input[5..]) % 16384;
    if |input| - 7 < size {
      return None;
    }
    r := Some(Fragment(GetU32(input), input[4] / 2, input[4] % 2 == 1, input[7..7 + size]));
  }

  method ParseFragments(input: seq<byte>, count: nat) returns (p: Part)
    ensures p == ReadFragments(input, count)
  {
    var rest, n := input, count;
    var events: seq<Event> := [];
    ghost var whole := ReadFragments(input, count);
    BeforeNothing(whole);
    while n > 0
      invariant Before(events, ReadFragments(rest, n)) == whole
    {
      var head := ParseFragment(rest);
      if head.None? {
        FragmentMissing(events, rest, n);
        return Part(events, None);
      }
      FragmentStep(events, rest, n, head.value);
      events := events + [Received(head.value)];
      rest, n := rest[7..], n - 1;
    }
    NothingAfter(events, Some(rest));
    p := Part(events, Some(rest));
  }

  /** The reading half of `receiveData`. */
  method ParseData(b: seq<byte>) returns (p: Part)
    ensures p == ReadData(b)
  {
    if |b| < 1 {
      return Part([], None);
    }
    var flag := b[0];
    var acks, fields := Part([], Some(b[1..])), Part([], None);
    if flag / 128 % 2 == 1 {
      acks := ParseAcks(b[1..]);
    }
    if acks.rest.None? {
      return acks;
    }
    var rest := acks.rest.value;
    if flag / 64 % 2 == 0 {
      fields := Part([], Some(rest));
    } else if |rest| >= 1 {
      fields := ParseBitfields(rest[1..], rest[0]);
    }
    if fields.rest.None? {
      return Part(acks.events + fields.events, None);
    }
    rest := fields.rest.value;
    if |rest| < 1 {
      assert acks.events + fields.events + [] == acks.events + fields.events;
      return Part(acks.events + fields.events, None);
    }
    var frags := ParseFragments(rest[1..], rest[0]);
    p := Part(acks.events + fields.events + frags.events, frags.rest);
  }

  // ------------------------------------------------------------- round trip

  /** Bitfields the packet can carry: at least one bit, and fragment numbers of
      one byte. */
  predicate Fields(partial: seq<PartialAck>) {
    forall i :: 0 <= i < |partial| ==> 1 <= |partial[i].bits| <= 256
  }

  /** What the receiver must be told about complete acknowledgements. */
  function AckEvents(acks: seq<uint32>): (es: seq<Event>)
    ensures |es| == |acks| && forall i :: 0 <= i < |acks| ==> es[i] == CompleteAck(acks[i])
  {
    if acks == [] then [] else [CompleteAck(acks[0])] + AckEvents(acks[1..])
  }

  function PartialEvents(partial: seq<PartialAck>): (es: seq<Event>)
    requires Fields(partial)
    ensures |es| == |partial|
    ensures forall i :: 0 <= i < |partial| ==>
              es[i] == BitfieldAck(partial[i].msgId, SetBits(partial[i].bits, 0))
  {
    if partial == [] then []
    else [BitfieldAck(partial[0].msgId, SetBits(partial[0].bits, 0))] + PartialEvents(partial[1..])
  }

  /** The wire has seven bits for the fragment number. */
  function OnWire(f: Fragment): Fragment {
    f.(fragNum := f.fragNum % 128)
  }

  function FragmentEvents(frags: seq<Fragment>): (es: seq<Event>)
    ensures |es| == |frags| && forall i :: 0 <= i < |frags| ==> es[i] == Received(OnWire(frags[i]))
  {
    if frags == [] then [] else [Received(OnWire(frags[0]))] + FragmentEvents(frags[1..])
  }

  lemma {:induction false} SetBitsAppend(a: seq<bool>, b: seq<bool>, first: nat)
    ensures SetBits(a + b, first) == SetBits(a, first) + SetBits(b, first + |a|)
  {
    if a == [] {
      assert a + b == b;
    } else {
      var head: seq<nat> := if a[0] then [first] else [];
      assert (a + b)[0] == a[0] && (a + b)[1..] == a[1..] + b;
      SetBitsAppend(a[1..], b, first + 1);
      Assoc(head, SetBits(a[1..], first + 1), SetBits(b, first + |a|));
    }
  }

  lemma {:induction false} SetBitsNone(bits: seq<bool>, first: nat)
    requires forall i :: 0 <= i < |bits| ==> !bits[i]
    ensures SetBits(bits, first) == []
  {
    if bits != [] {
      SetBitsNone(bits[1..], first + 1);
    }
  }

  /** Reading one bitfield byte recovers its bits and the continuation mark. */
  lemma BitByteRoundTrip(bits: seq<bool>, more: bool, first: nat)
    requires |bits| <= 7
    ensures ToBits(BitByte(bits, more), 8)[0] == more
    ensures SetBits(ToBits(BitByte(bits, more), 8)[1..], first) == SetBits(bits, first)
  {
    var digits := [more] + Pad(bits);
    BitsRoundTrip(digits);
    assert digits[1..] == bits + seq(7 - |bits|, _ => false);
    SetBitsAppend(bits, seq(7 - |bits|, _ => false), first);
    SetBitsNone(seq(7 - |bits|, _ => false), first + |bits|);
  }

  lemma ReadLastByte(b: seq<byte>, byteNum: byte)
    requires b != [] && !ToBits(b[0], 8)[0]
    ensures ReadBitfield(b, byteNum) == Some((SetBits(ToBits(b[0], 8)[1..], 7 * byteNum as int), b[1..]))
  {
  }

  lemma ReadMoreBytes(b: seq<byte>, byteNum: byte, more: seq<nat>, rest: seq<byte>)
    requires b != [] && ToBits(b[0], 8)[0] && byteNum < 255
    requires ReadBitfield(b[1..], byteNum + 1) == Some((more, rest))
    ensures ReadBitfield(b, byteNum) == Some((SetBits(ToBits(b[0], 8)[1..], 7 * byteNum as int) + more, rest))
  {
  }

  lemma ShortField(bits: seq<bool>, byteNum: byte, rest: seq<byte>)
    requires 1 <= |bits| <= 7
    ensures ReadBitfield([BitByte(bits, false)] + rest, byteNum) == Some((SetBits(bits, 7 * byteNum as int), rest))
  {
    var input := [BitByte(bits, false)] + rest;
    BitByteRoundTrip(bits, false, 7 * byteNum as int);
    ReadLastByte(input, byteNum);
    assert input[1..] == rest;
  }

  lemma LongField(bits: seq<bool>, byteNum: byte, tail: seq<byte>, rest: seq<byte>)
    requires |bits| > 7 && byteNum < 255
    requires ReadBitfield(tail, byteNum + 1) == Some((SetBits(bits[7..], 7 * byteNum as int + 7), rest))
    ensures ReadBitfield([BitByte(bits[..7], true)] + tail, byteNum)
         == Some((SetBits(bits, 7 * byteNum as int), rest))
  {
    var first := 7 * byteNum as int;
    var input := [BitByte(bits[..7], true)] + tail;
    BitByteRoundTrip(bits[..7], true, first);
    assert input[1..] == tail;
    ReadMoreBytes(input, byteNum, SetBits(bits[7..], first + 7), rest);
    SetBitsAppend(bits[..7], bits[7..], first);
    assert bits[..7] + bits[7..] == bits;
  }

  lemma {:induction false} BitfieldRoundTrip(bits: seq<bool>, byteNum: byte, rest: seq<byte>)
    requires bits != [] && 7 * byteNum as int + |bits| <= 256
    ensures ReadBitfield(BitfieldBytes(bits) + rest, byteNum) == Some((SetBits(bits, 7 * byteNum as int), rest))
    decreases |bits|
  {
    if |bits| <= 7 {
      ShortField(bits, byteNum, rest);
    } else {
      BitfieldRoundTrip(bits[7..], byteNum + 1, rest);
      LongField(bits, byteNum, BitfieldBytes(bits[7..]) + rest, rest);
      Assoc([BitByte(bits[..7], true)], BitfieldBytes(bits[7..]), rest);
    }
  }

  lemma {:induction false} AcksRoundTrip(acks: seq<uint32>, rest: seq<byte>)
    ensures |AckBytes(acks)| == 4 * |acks|
    ensures ReadAcks(AckBytes(acks) + rest, |acks|) == AckEvents(acks)
  {
    if acks != [] {
      AcksRoundTrip(acks[1..], rest);
      Assoc(PutU32(acks[0]), AckBytes(acks[1..]), rest);
      DropPrefix(PutU32(acks[0]), AckBytes(acks[1..]) + rest);
    }
  }

  lemma ReadOneField(b: seq<byte>, n: nat, nums: seq<nat>, rest: seq<byte>)
    requires |b| >= 4 && ReadBitfield(b[4..], 0) == Some((nums, rest))
    ensures ReadBitfields(b, n + 1)
         == Part([BitfieldAck(GetU32(b), nums)] + ReadBitfields(rest, n).events, ReadBitfields(rest, n).rest)
  {
  }

  lemma {:induction false} PartialsRoundTrip(partial: seq<PartialAck>, rest: seq<byte>)
    requires Fields(partial)
    ensures ReadBitfields(PartialBytes(partial) + rest, |partial|) == Part(PartialEvents(partial), Some(rest))
  {
    if partial == [] {
      assert PartialBytes(partial) + rest == rest;
    } else {
      var p := partial[0];
      var tail := PartialBytes(partial[1..]) + rest;
      var input := PutU32(p.msgId) + (BitfieldBytes(p.bits) + tail);
      assert PartialBytes(partial) + rest == input by {
        Assoc(PutU32(p.msgId), BitfieldBytes(p.bits) + PartialBytes(partial[1..]), rest);
        Assoc(BitfieldBytes(p.bits), PartialBytes(partial[1..]), rest);
      }
      DropPrefix(PutU32(p.msgId), BitfieldBytes(p.bits) + tail);
      BitfieldRoundTrip(p.bits, 0, tail);
      ReadOneField(input, |partial| - 1, SetBits(p.bits, 0), tail);
      PartialsRoundTrip(partial[1..], rest);
    }
  }

  /** Fragments the reader can take apart again: since it does not step over
      fragment data, only the last one may carry any. */
  predicate Readable(frags: seq<Fragment>) {
    && Sized(frags)
    && (forall i :: 0 <= i < |frags| - 1 ==> frags[i].data == [])
  }

  lemma HeaderRoundTrip(f: Fragment, rest: seq<byte>)
    requires |f.data| <= 16383
    ensures var b := FragmentHeader(f) + rest;
            && GetU32(b) == f.msgId && b[4] / 2 == f.fragNum % 128 && (b[4] % 2 == 1 <==> f.isLast)
            && GetU16(b[5..]) % 16384 == |f.data|
  {
  }

  lemma WrittenHead(f: Fragment, rest: seq<byte>)
    requires |f.data| <= 16383
    ensures HeadFragment(FragmentHeader(f) + (f.data + rest)) == Some(OnWire(f))
  {
    var b := FragmentHeader(f) + (f.data + rest);
    HeaderRoundTrip(f, f.data + rest);
    DropPrefix(FragmentHeader(f), f.data + rest);
    DropPrefix(f.data, rest);
    assert b[7..7 + |f.data|] == b[7..][..|f.data|];
  }

  lemma ReadOneFragment(f: Fragment, rest: seq<byte>, n: nat)
    requires |f.data| <= 16383
    ensures ReadFragments(FragmentHeader(f) + (f.data + rest), n + 1)
         == Part([Received(OnWire(f))] + ReadFragments(f.data + rest, n).events, ReadFragments(f.data + rest, n).rest)
  {
    WrittenHead(f, rest);
    DropPrefix(FragmentHeader(f), f.data + rest);
  }

  lemma {:induction false} FragmentsRoundTrip(frags: seq<Fragment>)
    requires Readable(frags)
    ensures ReadFragments(FragmentBytes(frags), |frags|).events == FragmentEvents(frags)
    ensures ReadFragments(FragmentBytes(frags), |frags|).rest.Some?
  {
    if frags != [] {
      var f, more := frags[0], FragmentBytes(frags[1..]);
      ReadOneFragment(f, more, |frags| - 1);
      if |frags| > 1 {
        assert f.data + more == more;
        FragmentsRoundTrip(frags[1..]);
      }
    }
  }

  lemma CountedBytes(n: nat, body: seq<byte>, rest: seq<byte>)
    requires 0 < n < 256
    ensures var b := Counted(n, body) + rest; |b| > 0 && b[0] == n && b[1..] == body + rest
  {
  }

  lemma AckPartRoundTrip(acks: seq<uint32>, rest: seq<byte>)
    requires |acks| < 256
    ensures AckPart(acks != [], Counted(|acks|, AckBytes(acks)) + rest) == Part(AckEvents(acks), Some(rest))
  {
    var b := Counted(|acks|, AckBytes(acks)) + rest;
    if acks == [] {
      assert b == rest;
    } else {
      CountedBytes(|acks|, AckBytes(acks), rest);
      AcksRoundTrip(acks, rest);
      DropPrefix(AckBytes(acks), rest);
      assert b[1 + 4 * |acks|..] == b[1..][4 * |acks|..];
    }
  }

  lemma PresentPart(n: nat, body: seq<byte>, rest: seq<byte>)
    requires 0 < n < 256
    ensures BitfieldPart(true, Counted(n, body) + rest) == ReadBitfields(body + rest, n)
  {
    CountedBytes(n, body, rest);
  }

  lemma BitfieldPartRoundTrip(partial: seq<PartialAck>, rest: seq<byte>)
    requires |partial| < 256 && Fields(partial)
    ensures BitfieldPart(partial != [], Counted(|partial|, PartialBytes(partial)) + rest)
         == Part(PartialEvents(partial), Some(rest))
  {
    var n, body := |partial|, PartialBytes(partial);
    PartialsRoundTrip(partial, rest);
    if partial == [] {
      assert Counted(n, body) + rest == rest;
    } else {
      PresentPart(n, body, rest);
    }
  }

  lemma ReadParts(flag: byte, b1: seq<byte>, b2: seq<byte>, b3: seq<byte>, acks: seq<Event>, fields: seq<Event>)
    requires AckPart(flag / 128 % 2 == 1, b1) == Part(acks, Some(b2))
    requires BitfieldPart(flag / 64 % 2 == 1, b2) == Part(fields, Some(b3))
    ensures ReadData([flag] + b1) == Part(acks + fields + FragmentPart(b3).events, FragmentPart(b3).rest)
  {
    assert ([flag] + b1)[1..] == b1;
  }

  lemma FlagBits(wantReply: bool, nAcks: nat, nPartial: nat)
    requires nAcks < 256 && nPartial < 256
    ensures DataFlag(wantReply, nAcks, nPartial) / 128 % 2 == 1 <==> nAcks > 0
    ensures DataFlag(wantReply, nAcks, nPartial) / 64 % 2 == 1 <==> nPartial > 0
  {
  }

  lemma DataBytesParts(wantReply: bool, acks: seq<uint32>, partial: seq<PartialAck>, frags: seq<Fragment>)
    requires Sized(frags)
    ensures DataBytes(wantReply, acks, partial, frags)
         == [DataFlag(wantReply, |acks|, |partial|)]
            + (Counted(|acks|, AckBytes(acks))
               + (Counted(|partial|, PartialBytes(partial)) + ([|frags| % 256] + FragmentBytes(frags))))
  {
  }

  lemma FragmentPartIs(count: byte, body: seq<byte>)
    ensures FragmentPart([count] + body) == ReadFragments(body, count)
  {
    DropPrefix([count], body);
  }

  lemma InOneByte(n: nat)
    requires n < 256
    ensures n % 256 == n
  {
  }

  lemma DataPart(wantReply: bool, acks: seq<uint32>, partial: seq<PartialAck>, frags: seq<Fragment>)
    requires |acks| < 256 && |partial| < 256 && Fields(partial) && Sized(frags)
    ensures ReadData(DataBytes(wantReply, acks, partial, frags))
         == Before(AckEvents(acks) + PartialEvents(partial), FragmentPart([|frags| % 256] + FragmentBytes(frags)))
  {
    var b3: seq<byte> := [|frags| % 256] + FragmentBytes(frags);
    var b2 := Counted(|partial|, PartialBytes(partial)) + b3;
    var b1 := Counted(|acks|, AckBytes(acks)) + b2;
    DataBytesParts(wantReply, acks, partial, frags);
    FlagBits(wantReply, |acks|, |partial|);
    AckPartRoundTrip(acks, b2);
    BitfieldPartRoundTrip(partial, b3);
    ReadParts(DataFlag(wantReply, |acks|, |partial|), b1, b2, b3, AckEvents(acks), PartialEvents(partial));
  }

  /** Acknowledgements are read back whatever the fragments are. */
  lemma DataEvents(wantReply: bool, acks: seq<uint32>, partial: seq<PartialAck>, frags: seq<Fragment>)
    requires |acks| < 256 && |partial| < 256 && |frags| < 256 && Fields(partial) && Sized(frags)
    ensures ReadData(DataBytes(wantReply, acks, partial, frags))
         == Before(AckEvents(acks) + PartialEvents(partial), ReadFragments(FragmentBytes(frags), |frags|))
  {
    DataPart(wantReply, acks, partial, frags);
    InOneByte(|frags|);
    FragmentPartIs(|frags|, FragmentBytes(frags));
  }

  // ------------------------------------------------ lists too long for their count

  lemma {:induction false} AckBytesAppend(a: seq<uint32>, b: seq<uint32>)
    ensures AckBytes(a + b) == AckBytes(a) + AckBytes(b)
  {
    if a == [] {
      assert a + b == b;
    } else {
      assert (a + b)[0] == a[0] && (a + b)[1..] == a[1..] + b;
      AckBytesAppend(a[1..], b);
      Assoc(PutU32(a[0]), AckBytes(a[1..]), AckBytes(b));
    }
  }

  lemma {:induction false} PartialBytesAppend(a: seq<PartialAck>, b: seq<PartialAck>)
    ensures PartialBytes(a + b) == PartialBytes(a) + PartialBytes(b)
  {
    if a == [] {
      assert a + b == b;
    } else {
      assert (a + b)[0] == a[0] && (a + b)[1..] == a[1..] + b;
      PartialBytesAppend(a[1..], b);
      PartialBytesStep([], a + b);
      PartialBytesStep([], a);
      Assoc(PutU32(a[0].msgId) + BitfieldBytes(a[0].bits), PartialBytes(a[1..]), PartialBytes(b));
    }
  }

  /** A list whose count wrapped looks like a shorter one with something behind it. */
  lemma CountedSplit(n: nat, a: seq<byte>, b: seq<byte>, rest: seq<byte>)
    requires n % 256 != 0
    ensures Counted(n, a + b) + rest == Counted(n % 256, a) + (b + rest)
  {
    assert n % 256 % 256 == n % 256;
    Assoc([n % 256], a + b, rest);
    Assoc(a, b, rest);
    Assoc([n % 256], a, b + rest);
  }

  /** The part of a list that its count in one byte covers, and the rest. */
  function Covered<T>(s: seq<T>): (r: seq<T>)
    ensures |r| == |s| % 256 && forall i :: 0 <= i < |r| ==> i < |s| && r[i] == s[i]
  {
    s[..|s| % 256]
  }

  function Uncovered<T>(s: seq<T>): (r: seq<T>)
    ensures s == Covered(s) + r
  {
    s[|s| % 256..]
  }

  /** Where the reader stands behind the complete acknowledgements. */
  function BehindAcks(acks: seq<uint32>, rest: seq<byte>): seq<byte> {
    if |acks| % 256 == 0 then rest else AckBytes(Uncovered(acks)) + rest
  }

  /** Of complete acknowledgements the reader takes the first |acks| % 256. */
  lemma AckPartPrefix(acks: seq<uint32>, rest: seq<byte>)
    ensures AckPart(|acks| % 256 != 0, Counted(|acks|, AckBytes(acks)) + rest)
         == Part(AckEvents(Covered(acks)), Some(BehindAcks(acks, rest)))
  {
    if |acks| % 256 == 0 {
      assert [] + rest == rest;
    } else {
      AckBytesAppend(Covered(acks), Uncovered(acks));
      CountedSplit(|acks|, AckBytes(Covered(acks)), AckBytes(Uncovered(acks)), rest);
      AckPartRoundTrip(Covered(acks), AckBytes(Uncovered(acks)) + rest);
    }
  }

  /** Of bitfields, if it comes to them at the right place, the first |partial| % 256. */
  lemma BitfieldPartPrefix(partial: seq<PartialAck>, rest: seq<byte>)
    requires Fields(partial)
    ensures BitfieldPart(|partial| % 256 != 0, Counted(|partial|, PartialBytes(partial)) + rest).events
         == PartialEvents(Covered(partial))
  {
    if |partial| % 256 != 0 {
      PartialBytesAppend(Covered(partial), Uncovered(partial));
      CountedSplit(|partial|, PartialBytes(Covered(partial)), PartialBytes(Uncovered(partial)), rest);
      BitfieldPartRoundTrip(Covered(partial), PartialBytes(Uncovered(partial)) + rest);
    }
  }

  /** The counts do not make the reader look for bitfields in the wrong place. */
  predicate Legible(acks: seq<uint32>, partial: seq<PartialAck>) {
    |acks| < 256 || |acks| % 256 == 0 || |partial| % 256 == 0
  }

  lemma BehindAll(acks: seq<uint32>, rest: seq<byte>)
    requires |acks| < 256 || |acks| % 256 == 0
    ensures BehindAcks(acks, rest) == rest
  {
    if |acks| < 256 {
      InOneByte(|acks|);
      assert Uncovered(acks) == [] && [] + rest == rest;
    }
  }

  lemma AbsentFields(b: seq<byte>)
    ensures BitfieldPart(false, b).events == PartialEvents([])
  {
  }

  lemma LegibleFields(acks: seq<uint32>, partial: seq<PartialAck>, rest: seq<byte>)
    requires Legible(acks, partial) && Fields(partial)
    ensures var b := Counted(|partial|, PartialBytes(partial)) + rest;
      BitfieldPart(|partial| % 256 != 0, BehindAcks(acks, b)).events == PartialEvents(Covered(partial))
  {
    var b := Counted(|partial|, PartialBytes(partial)) + rest;
    if |partial| % 256 == 0 {
      AbsentFields(BehindAcks(acks, b));
      assert Covered(partial) == [];
    } else {
      BehindAll(acks, b);
      BitfieldPartPrefix(partial, rest);
    }
  }

  lemma {:induction false} OnlyFields(b: seq<byte>, n: nat)
    ensures forall i :: 0 <= i < |ReadBitfields(b, n).events| ==> ReadBitfields(b, n).events[i].BitfieldAck?
    decreases n
  {
    if n > 0 && |b| >= 4 && ReadBitfield(b[4..], 0).Some? {
      OnlyFields(ReadBitfield(b[4..], 0).value.1, n - 1);
    }
  }

  lemma {:induction false} OnlyFragments(b: seq<byte>, n: nat)
    ensures forall i :: 0 <= i < |ReadFragments(b, n).events| ==> ReadFragments(b, n).events[i].Received?
    decreases n
  {
    if n > 0 && HeadFragment(b).Some? {
      OnlyFragments(b[7..], n - 1);
    }
  }

  /** Events come from the part of the message that holds their kind. */
  lemma RestKinds(acks: seq<Event>, present: bool, b: seq<byte>, e: Event)
    requires e in ReadRest(acks, present, b).events
    ensures e.CompleteAck? ==> e in acks
    ensures e.BitfieldAck? ==> e in acks || e in BitfieldPart(present, b).events
  {
    var fields := BitfieldPart(present, b);
    if b != [] {
      OnlyFields(b[1..], b[0]);
    }
    if fields.rest.Some? && fields.rest.value != [] {
      OnlyFragments(fields.rest.value[1..], fields.rest.value[0]);
    }
  }

  lemma WrappedFlag(nAcks: nat, nPartial: nat)
    ensures DataFlag(false, nAcks, nPartial) / 128 % 2 == 1 <==> nAcks % 256 != 0
    ensures DataFlag(false, nAcks, nPartial) / 64 % 2 == 1 <==> nPartial % 256 != 0
  {
  }

  lemma ReadBehindAcks(flag: byte, b1: seq<byte>, b2: seq<byte>, acks: seq<Event>, present: bool, fields: bool)
    requires AckPart(present, b1) == Part(acks, Some(b2))
    requires (flag / 128 % 2 == 1 <==> present) && (flag / 64 % 2 == 1 <==> fields)
    ensures ReadData([flag] + b1) == ReadRest(acks, fields, b2)
  {
    DropPrefix([flag], b1);
  }

  /** What a packet of acknowledgements ends in. */
  const NO_FRAGMENTS: seq<byte> := [0] + FragmentBytes([])

  lemma AckPacketRead(acks: seq<uint32>, partial: seq<PartialAck>)
    ensures ReadData(DataBytes(false, acks, partial, []))
         == ReadRest(AckEvents(Covered(acks)), |partial| % 256 != 0,
                     BehindAcks(acks, Counted(|partial|, PartialBytes(partial)) + NO_FRAGMENTS))
  {
    var b := Counted(|partial|, PartialBytes(partial)) + NO_FRAGMENTS;
    DataBytesParts(false, acks, partial, []);
    WrappedFlag(|acks|, |partial|);
    AckPartPrefix(acks, b);
    ReadBehindAcks(DataFlag(false, |acks|, |partial|), Counted(|acks|, AckBytes(acks)) + b, BehindAcks(acks, b),
                   AckEvents(Covered(acks)), |acks| % 256 != 0, |partial| % 256 != 0);
  }

  /** The reader's complete acknowledgements are among those written, however many. */
  lemma CompletesWritten(acks: seq<uint32>, partial: seq<PartialAck>, e: Event)
    requires e in ReadData(DataBytes(false, acks, partial, [])).events && e.CompleteAck?
    ensures e.msgId in acks
  {
    AckPacketRead(acks, partial);
    RestKinds(AckEvents(Covered(acks)), |partial| % 256 != 0,
              BehindAcks(acks, Counted(|partial|, PartialBytes(partial)) + NO_FRAGMENTS), e);
  }

  lemma FieldAmong(partial: seq<PartialAck>, e: Event)
    requires Fields(partial) && e in PartialEvents(Covered(partial))
    ensures exists i :: 0 <= i < |partial| && e == BitfieldAck(partial[i].msgId, SetBits(partial[i].bits, 0))
  {
    var i :| 0 <= i < |Covered(partial)| && PartialEvents(Covered(partial))[i] == e;
  }

  /** The reader's bitfields are among those written if the packet is legible. */
  lemma FieldsWritten(acks: seq<uint32>, partial: seq<PartialAck>, e: Event)
    requires e in ReadData(DataBytes(false, acks, partial, [])).events && e.BitfieldAck?
    requires Legible(acks, partial) && Fields(partial)
    ensures exists i :: 0 <= i < |partial| && e == BitfieldAck(partial[i].msgId, SetBits(partial[i].bits, 0))
  {
    AckPacketRead(acks, partial);
    RestKinds(AckEvents(Covered(acks)), |partial| % 256 != 0,
              BehindAcks(acks, Counted(|partial|, PartialBytes(partial)) + NO_FRAGMENTS), e);
    LegibleFields(acks, partial, NO_FRAGMENTS);
    FieldAmong(partial, e);
  }

  /** `receiveData` recovers what was given to `buildData`. */
  ghost predicate ReadBack(wantReply: bool, acks: seq<uint32>, partial: seq<PartialAck>, frags: seq<Fragment>)
    requires Fields(partial) && Sized(frags)
  {
    var p := ReadData(DataBytes(wantReply, acks, partial, frags));
    p.rest.Some? && p.events == AckEvents(acks) + PartialEvents(partial) + FragmentEvents(frags)
  }

  /** `receiveData` applied to the output of `buildData` recovers exactly the
      complete acknowledgements, the acknowledged fragment numbers of every
      bitfield and the fragments. */
  lemma DataRoundTrip(wantReply: bool, acks: seq<uint32>, partial: seq<PartialAck>, frags: seq<Fragment>)
    requires |acks| < 256 && |partial| < 256 && |frags| < 256
    requires Fields(partial) && Readable(frags)
    ensures var p := ReadData(DataBytes(wantReply, acks, partial, frags));
            p.rest.Some? && p.events == AckEvents(acks) + PartialEvents(partial) + FragmentEvents(frags)
  {
    DataEvents(wantReply, acks, partial, frags);
    FragmentsRoundTrip(frags);
  }

  /** The bytes of f stand at the head of b: id, number and last flag, size and data.  The
      two high bits of the size field do not matter. */
  predicate StandsIn(f: Fragment, b: seq<byte>) {
    && |b| >= 7 + |f.data| && b[..4] == PutU32(f.msgId)
    && b[4] as int == 2 * (f.fragNum % 128) + (if f.isLast then 1 else 0)
    && (b[5] as int % 64) * 256 + b[6] as int == |f.data| && b[7..7 + |f.data|] == f.data
  }

  lemma SizeField(hi: byte, lo: byte)
    ensures (hi as int * 0x100 + lo as int) % 16384 == (hi as int % 64) * 256 + lo as int
  {
    assert hi as int * 0x100 + lo as int == 16384 * (hi as int / 64) + ((hi as int % 64) * 256 + lo as int);
  }

  lemma NumberField(b: byte, num: nat, last: bool)
    requires num < 128
    ensures b as int == 2 * num + (if last then 1 else 0) <==> b / 2 == num && (b % 2 == 1 <==> last)
  {
  }

  lemma IdField(b: seq<byte>, id: uint32)
    requires |b| >= 4
    ensures b[..4] == PutU32(id) <==> GetU32(b) == id
  {
    assert b[..4] == [b[0], b[1], b[2], b[3]];
  }

  lemma SizeAt(b: seq<byte>)
    requires |b| >= 7
    ensures GetU16(b[5..]) % 16384 == (b[5] as int % 64) * 256 + b[6] as int
  {
    SizeField(b[5], b[6]);
  }

  /** The reader finds f exactly where its bytes stand. */
  lemma ReadsWhereItStands(b: seq<byte>, f: Fragment)
    ensures HeadFragment(b) == Some(OnWire(f)) <==> StandsIn(f, b)
  {
    if |b| >= 7 {
      IdField(b, f.msgId);
      NumberField(b[4], f.fragNum % 128, f.isLast);
      SizeAt(b);
    }
  }

  /** The bytes the reader comes to, in steps of seven, are those of `frags`. */
  predicate HeadsAre(b: seq<byte>, frags: seq<Fragment>)
    decreases |frags|
  {
    frags == [] || (StandsIn(frags[0], b) && HeadsAre(b[7..], frags[1..]))
  }

  lemma SameTail<T>(a: seq<T>, b: seq<T>, c: seq<T>)
    ensures a + b == a + c <==> b == c
  {
    DropPrefix(a, b);
    DropPrefix(a, c);
  }

  lemma {:induction false} FragmentsExact(b: seq<byte>, frags: seq<Fragment>)
    ensures var p := ReadFragments(b, |frags|);
      p.rest.Some? && p.events == FragmentEvents(frags) <==> HeadsAre(b, frags)
    decreases |frags|
  {
    if frags != [] {
      ReadsWhereItStands(b, frags[0]);
      if HeadFragment(b).Some? {
        var f, tail := HeadFragment(b).value, ReadFragments(b[7..], |frags| - 1);
        FragmentsExact(b[7..], frags[1..]);
        SameTail([Received(f)], tail.events, FragmentEvents(frags[1..]));
        assert ([Received(f)] + tail.events)[0] == Received(f);
        assert FragmentEvents(frags)[0] == Received(OnWire(frags[0]));
      }
    }
  }

  /** The exact case for any number of fragments: they are read back if and only if every
      header the reader comes to, stepping over headers and not over data, is the right one. */
  lemma DataExact(wantReply: bool, acks: seq<uint32>, partial: seq<PartialAck>, frags: seq<Fragment>)
    requires |acks| < 256 && |partial| < 256 && |frags| < 256 && Fields(partial) && Sized(frags)
    ensures ReadBack(wantReply, acks, partial, frags) <==> HeadsAre(FragmentBytes(frags), frags)
  {
    DataEvents(wantReply, acks, partial, frags);
    FragmentsExact(FragmentBytes(frags), frags);
    var read := ReadFragments(FragmentBytes(frags), |frags|).events;
    SameTail(AckEvents(acks) + PartialEvents(partial), read, FragmentEvents(frags));
  }

  lemma HeadIsFirst(frags: seq<Fragment>)
    requires Sized(frags) && frags != []
    ensures StandsIn(frags[0], FragmentBytes(frags))
    ensures FragmentBytes(frags)[7..] == frags[0].data + FragmentBytes(frags[1..])
  {
    var f, more := frags[0], FragmentBytes(frags[1..]);
    WrittenHead(f, more);
    DropPrefix(FragmentHeader(f), f.data + more);
    ReadsWhereItStands(FragmentHeader(f) + (f.data + more), f);
  }

  /** Two fragments survive if and only if the data of the first, followed by the second,
      happens to begin with the second. */
  lemma TwoFragmentsExact(wantReply: bool, acks: seq<uint32>, partial: seq<PartialAck>, f: Fragment, g: Fragment)
    requires |acks| < 256 && |partial| < 256 && Fields(partial) && Sized([f, g]) && Sized([g])
    ensures ReadBack(wantReply, acks, partial, [f, g]) <==> StandsIn(g, f.data + FragmentBytes([g]))
  {
    DataExact(wantReply, acks, partial, [f, g]);
    HeadIsFirst([f, g]);
    assert [f, g][1..] == [g] && [g][1..] == [];
    var b := f.data + FragmentBytes([g]);
    assert HeadsAre(b, [g]) <==> StandsIn(g, b);
  }

  /** So whenever the first fragment carries four bytes that are not the id of the second
      message, the packet is misread, whatever else it holds. */
  lemma SecondFragmentGarbled(wantReply: bool, acks: seq<uint32>, partial: seq<PartialAck>, frags: seq<Fragment>)
    requires |acks| < 256 && |partial| < 256 && |frags| < 256 && Fields(partial) && Sized(frags)
    requires |frags| >= 2 && |frags[0].data| >= 4 && GetU32(frags[0].data) != frags[1].msgId
    ensures !ReadBack(wantReply, acks, partial, frags)
  {
    DataExact(wantReply, acks, partial, frags);
    HeadIsFirst(frags);
    var b := frags[0].data + FragmentBytes(frags[1..]);
    assert GetU32(b) == GetU32(frags[0].data);
    IdField(b, frags[1].msgId);
  }

  /** A packet with one fragment, as the sender makes them. */
  lemma FragmentAlone(f: Fragment)
    requires |f.data| <= 16383
    ensures ReadData(DataBytes(false, [], [], [f])).events == [Received(OnWire(f))]
  {
    DataRoundTrip(false, [], [], [f]);
    assert FragmentEvents([f]) == [Received(OnWire(f))];
  }
}
