/** The SSU data message by positions: where every flag, count, id, bit and byte stands, as
    the I2P SSU specification, section "Data (type 6)", lays them out. */
module SsuFormat {
  import opened Bytes
  import opened SsuPacket

  // ------------------------------------------------------------------------ bits

  lemma HalfAndMore(x: nat, p: nat)
    requires p > 0
    ensures x / 2 / p == x / (2 * p)
  {
    var q, r := x / (2 * p), x % (2 * p);
    assert x == 2 * p * q + r;
    assert x / 2 == p * q + r / 2 && r / 2 < p;
    Quotient(p * q + r / 2, p, q, r / 2);
  }

  lemma Quotient(x: nat, p: nat, q: nat, r: nat)
    requires p > 0 && x == p * q + r && r < p
    ensures x / p == q
  {
    var d := x / p;
    assert x == p * d + x % p;
    assert d >= q + 1 ==> p * d >= p * (q + 1);
    assert d + 1 <= q ==> p * (d + 1) <= p * q;
    assert p * (q + 1) == p * q + p && p * (d + 1) == p * d + p;
  }

  lemma {:induction false} Pow2Positive(k: nat)
    ensures Pow2(k) > 0
  {
    if k > 0 {
      Pow2Positive(k - 1);
    }
  }

  /** Bit i of x, counted from the least significant. */
  predicate Bit(x: nat, i: nat) {
    Pow2Positive(i);
    x / Pow2(i) % 2 == 1
  }

  lemma {:induction false} DigitIsBit(x: nat, n: nat, i: nat)
    requires i < n
    ensures ToBits(x, n)[i] <==> Bit(x, n - 1 - i)
    decreases n
  {
    if i == n - 1 {
      assert Pow2(0) == 1;
    } else {
      DigitIsBit(x / 2, n - 1, i);
      Pow2Positive(n - 2 - i);
      HalfAndMore(x, Pow2(n - 2 - i));
      assert Pow2(n - 1 - i) == 2 * Pow2(n - 2 - i);
      assert ToBits(x, n)[i] == ToBits(x / 2, n - 1)[i];
    }
  }

  lemma TopBit(x: byte)
    ensures ToBits(x, 8)[0] <==> x >= 128
  {
    DigitIsBit(x, 8, 0);
    assert Pow2(7) == 128;
  }

  // ------------------------------------------------------------------- bitfields

  lemma BitByteBits(bits: seq<bool>, more: bool, r: nat)
    requires |bits| <= 7 && r < 7
    ensures BitByte(bits, more) >= 128 <==> more
    ensures Bit(BitByte(bits, more), 6 - r) <==> r < |bits| && bits[r]
  {
    var digits := [more] + Pad(bits);
    BitsRoundTrip(digits);
    TopBit(BitByte(bits, more));
    DigitIsBit(BitByte(bits, more), 8, r + 1);
    assert digits[r + 1] == Pad(bits)[r];
  }

  /** A written bitfield: one byte for every seven fragments begun; bit 7 of a byte is set iff
      another one follows; bit 6 - r of byte q is set iff fragment 7q + r has arrived. */
  lemma {:induction false} BitfieldLayout(bits: seq<bool>, q: nat, r: nat)
    requires 7 * q < |bits| && r < 7
    ensures |BitfieldBytes(bits)| == (|bits| + 6) / 7
    ensures BitfieldBytes(bits)[q] >= 128 <==> 7 * q + 7 < |bits|
    ensures Bit(BitfieldBytes(bits)[q], 6 - r) <==> 7 * q + r < |bits| && bits[7 * q + r]
    decreases |bits|
  {
    if |bits| <= 7 {
      BitByteBits(bits, false, r);
    } else {
      BitByteBits(bits[..7], true, r);
      BitfieldLayout(bits[7..], if q > 0 then q - 1 else 0, r);
    }
  }

  /** The bytes of a bitfield: all but the last, at position n, have bit 7 set. */
  predicate FieldEnds(b: seq<byte>, n: nat) {
    n < |b| && b[n] < 128 && forall i :: 0 <= i < n ==> b[i] >= 128
  }

  lemma SetBitsShift(bits: seq<bool>, first: nat, x: nat)
    ensures x in SetBits(bits, first) <==> first <= x < first + |bits| && bits[x - first]
    decreases bits
  {
    if bits != [] {
      var head: seq<nat> := if bits[0] then [first] else [];
      SetBitsShift(bits[1..], first + 1, x);
      assert SetBits(bits, first) == head + SetBits(bits[1..], first + 1);
    }
  }

  /** The numbers in one byte. */
  lemma OneByte(v: byte, byteNum: nat, x: nat)
    ensures x in SetBits(ToBits(v, 8)[1..], 7 * byteNum) <==> x / 7 == byteNum && Bit(v, 6 - x % 7)
  {
    var bits := ToBits(v, 8)[1..];
    SetBitsShift(bits, 7 * byteNum, x);
    if x / 7 == byteNum {
      var r := x - 7 * byteNum;
      assert r == x % 7 && 7 * byteNum <= x < 7 * byteNum + 7;
      DigitIsBit(v, 8, r + 1);
      assert bits[r] == ToBits(v, 8)[r + 1];
    }
  }

  /** Reading a bitfield, in any input: up to the first byte without bit 7, fragment x is
      named iff bit 6 - x % 7 of byte x / 7 is set. */
  lemma {:induction false} FieldReads(b: seq<byte>, byteNum: byte, n: nat, x: nat)
    requires FieldEnds(b, n) && byteNum as int + n < 256
    ensures ReadBitfield(b, byteNum).Some? && ReadBitfield(b, byteNum).value.1 == b[n + 1..]
    ensures x in ReadBitfield(b, byteNum).value.0
       <==> byteNum as int <= x / 7 <= byteNum as int + n && Bit(b[x / 7 - byteNum as int], 6 - x % 7)
    decreases n
  {
    TopBit(b[0]);
    OneByte(b[0], byteNum as int, x);
    if n > 0 {
      FieldReads(b[1..], byteNum + 1, n - 1, x);
      assert b[1..][n..] == b[n + 1..];
      NextByte(b, byteNum, x);
    }
  }

  lemma NextByte(b: seq<byte>, byteNum: byte, x: nat)
    requires b != [] && b[0] >= 128 && byteNum < 255 && ReadBitfield(b[1..], byteNum + 1).Some?
    ensures ReadBitfield(b, byteNum).Some?
    ensures ReadBitfield(b, byteNum).value.1 == ReadBitfield(b[1..], byteNum + 1).value.1
    ensures x in ReadBitfield(b, byteNum).value.0 <==>
              || x in SetBits(ToBits(b[0], 8)[1..], 7 * byteNum as int)
              || x in ReadBitfield(b[1..], byteNum + 1).value.0
  {
    TopBit(b[0]);
    ReadMoreBytes(b, byteNum, ReadBitfield(b[1..], byteNum + 1).value.0, ReadBitfield(b[1..], byteNum + 1).value.1);
  }

  lemma {:induction false} FieldRunsOut(b: seq<byte>, byteNum: byte)
    requires forall i :: 0 <= i < |b| ==> b[i] >= 128
    ensures ReadBitfield(b, byteNum).None?
    decreases |b|
  {
    if b != [] {
      TopBit(b[0]);
      FieldRunsOut(b[1..], (byteNum as int + 1) % 256);
    }
  }

  // ------------------------------------------------------- complete acknowledgements

  lemma {:induction false} AckLayout(acks: seq<uint32>, i: nat)
    requires i < |acks|
    ensures |AckBytes(acks)| == 4 * |acks| && AckBytes(acks)[4 * i..4 * i + 4] == PutU32(acks[i])
  {
    AcksRoundTrip(acks, []);
    if i > 0 {
      AckLayout(acks[1..], i - 1);
      var a, b := PutU32(acks[0]), AckBytes(acks[1..]);
      assert (a + b)[4 * i..4 * i + 4] == b[4 * (i - 1)..4 * (i - 1) + 4];
    } else {
      DropPrefix(PutU32(acks[0]), AckBytes(acks[1..]));
    }
  }

  lemma {:induction false} AcksReadAt(b: seq<byte>, n: nat, i: nat)
    requires |b| >= 4 * n && i < n
    ensures |ReadAcks(b, n)| == n && ReadAcks(b, n)[i] == CompleteAck(GetU32(b[4 * i..]))
    decreases n
  {
    if n > 1 {
      AcksReadAt(b[4..], n - 1, if i > 0 then i - 1 else 0);
    }
    if i > 0 {
      assert b[4..][4 * (i - 1)..] == b[4 * i..];
    }
  }

  /** Reading complete acknowledgements, in any input: as many ids as the count says, if they
      are all there, four bytes each. */
  lemma AckPartExact(b: seq<byte>, i: nat)
    ensures AckPart(true, b).rest.Some? <==> b != [] && |b| >= 1 + 4 * b[0] as int
    ensures AckPart(true, b).rest.None? ==> AckPart(true, b).events == []
    ensures AckPart(true, b).rest.Some? ==>
      && |AckPart(true, b).events| == b[0] as int && AckPart(true, b).rest.value == b[1 + 4 * b[0] as int..]
      && (i < b[0] as int ==> AckPart(true, b).events[i] == CompleteAck(GetU32(b[1 + 4 * i..])))
  {
    if b != [] && |b| >= 1 + 4 * b[0] as int {
      if b[0] > 0 {
        AcksReadAt(b[1..], b[0], if i < b[0] as int then i else 0);
      }
      if i < b[0] as int {
        assert b[1..][4 * i..] == b[1 + 4 * i..];
      }
    }
  }

  // ---------------------------------------------------------------- the whole packet

  /** A partial acknowledgement is the id and its bitfield. */
  lemma PartialLayout(partial: seq<PartialAck>)
    requires partial != []
    ensures var b, n := PartialBytes(partial), |BitfieldBytes(partial[0].bits)|;
      && |b| >= 4 + n && b[..4] == PutU32(partial[0].msgId)
      && b[4..4 + n] == BitfieldBytes(partial[0].bits) && b[4 + n..] == PartialBytes(partial[1..])
  {
    var a, f, more := PutU32(partial[0].msgId), BitfieldBytes(partial[0].bits), PartialBytes(partial[1..]);
    DropPrefix(a, f + more);
    DropPrefix(f, more);
    assert (a + (f + more))[4..][..|f|] == (a + (f + more))[4..4 + |f|];
    assert (a + (f + more))[4..][|f|..] == (a + (f + more))[4 + |f|..];
  }

  /** A list behind its count, or nothing. */
  predicate ListAt(b: seq<byte>, at: nat, n: nat, body: seq<byte>) {
    n > 0 ==> |b| >= at + 1 + |body| && b[at] as int == n && b[at + 1..at + 1 + |body|] == body
  }

  function ListLength(n: nat, body: seq<byte>): nat {
    if n > 0 then 1 + |body| else 0
  }

  lemma CountedAt(front: seq<byte>, n: nat, body: seq<byte>, rest: seq<byte>)
    requires n < 256
    ensures var b := front + (Counted(n, body) + rest);
      ListAt(b, |front|, n, body) && b[|front| + ListLength(n, body)..] == rest
      && |b| == |front| + ListLength(n, body) + |rest|
  {
    var b := front + (Counted(n, body) + rest);
    DropPrefix(front, Counted(n, body) + rest);
    DropPrefix(Counted(n, body), rest);
    if n > 0 {
      CountedBytes(n, body, rest);
      DropPrefix(body, rest);
      var c := Counted(n, body) + rest;
      assert b[|front|..] == c && b[|front| + 1..] == c[1..];
      assert b[|front| + 1..][..|body|] == b[|front| + 1..|front| + 1 + |body|];
    }
    assert b[|front|..][|Counted(n, body)|..] == b[|front| + |Counted(n, body)|..];
  }

  lemma FlagLayout(wantReply: bool, n: nat, m: nat)
    requires n < 256 && m < 256
    ensures var flag := DataFlag(wantReply, n, m);
      && (flag >= 128 <==> n > 0) && (flag / 64 % 2 == 1 <==> m > 0) && (flag / 4 % 2 == 1 <==> wantReply)
      && flag % 4 == 0 && flag / 8 % 8 == 0
  {
  }

  /** Flag byte, the two lists, each behind its count, the number of fragments, the fragments. */
  predicate LaidOut(b: seq<byte>, n: nat, acks: seq<byte>, m: nat, fields: seq<byte>, count: nat, frags: seq<byte>) {
    var p := 1 + ListLength(n, acks);
    var f := p + ListLength(m, fields);
    && |b| == f + 1 + |frags| && ListAt(b, 1, n, acks) && ListAt(b, p, m, fields)
    && b[f] as int == count && b[f + 1..] == frags
  }

  lemma PartsAt(flag: byte, n: nat, acks: seq<byte>, m: nat, fields: seq<byte>, count: byte, frags: seq<byte>)
    requires n < 256 && m < 256
    ensures var b := [flag] + (Counted(n, acks) + (Counted(m, fields) + ([count] + frags)));
      b[0] == flag && LaidOut(b, n, acks, m, fields, count, frags)
  {
    var c := [count] + frags;
    var front := [flag] + Counted(n, acks);
    CountedAt([flag], n, acks, Counted(m, fields) + c);
    Assoc([flag], Counted(n, acks), Counted(m, fields) + c);
    CountedAt(front, m, fields, c);
    DropPrefix([count], frags);
    var b := front + (Counted(m, fields) + c);
    var f := |front| + ListLength(m, fields);
    assert b[f..] == c && b[f..][1..] == b[f + 1..];
  }

  lemma DataFlat(wantReply: bool, acks: seq<uint32>, partial: seq<PartialAck>, frags: seq<Fragment>, count: byte)
    requires Sized(frags) && |frags| == count as int
    ensures DataBytes(wantReply, acks, partial, frags)
         == [DataFlag(wantReply, |acks|, |partial|)]
            + (Counted(|acks|, AckBytes(acks))
               + (Counted(|partial|, PartialBytes(partial)) + ([count] + FragmentBytes(frags))))
  {
    DataBytesParts(wantReply, acks, partial, frags);
    InOneByte(|frags|);
  }

  /** The data message: a flag byte with bit 7 for complete acknowledgements, bit 6 for
      bitfields and bit 2 for a reply that is wanted, and the parts in order. */
  lemma DataLayout(wantReply: bool, acks: seq<uint32>, partial: seq<PartialAck>, frags: seq<Fragment>)
    requires |acks| < 256 && |partial| < 256 && |frags| < 256 && Sized(frags)
    ensures var b := DataBytes(wantReply, acks, partial, frags);
      && LaidOut(b, |acks|, AckBytes(acks), |partial|, PartialBytes(partial), |frags|, FragmentBytes(frags))
      && (b[0] >= 128 <==> |acks| > 0) && (b[0] / 64 % 2 == 1 <==> |partial| > 0)
      && (b[0] / 4 % 2 == 1 <==> wantReply) && b[0] % 4 == 0 && b[0] / 8 % 8 == 0
  {
    var flag := DataFlag(wantReply, |acks|, |partial|);
    DataFlat(wantReply, acks, partial, frags, |frags|);
    FlagLayout(wantReply, |acks|, |partial|);
    PartsAt(flag, |acks|, AckBytes(acks), |partial|, PartialBytes(partial), |frags|, FragmentBytes(frags));
  }

  // ------------------------------------------------------- what stands before an error

  lemma FieldFirst(b: seq<byte>, n: nat)
    requires n > 0 && |b| >= 4 && ReadBitfield(b[4..], 0).Some?
    ensures var (nums, rest) := ReadBitfield(b[4..], 0).value;
      ReadBitfields(b, n).events == [BitfieldAck(GetU32(b), nums)] + ReadBitfields(rest, n - 1).events
  {
  }

  /** The bitfields of a longer list begin with those of a shorter one, whether or not the
      rest can be read. */
  lemma {:induction false} FieldsIncremental(b: seq<byte>, m: nat, n: nat)
    requires m <= n
    ensures ReadBitfields(b, m).events <= ReadBitfields(b, n).events
    ensures ReadBitfields(b, n).rest.Some? ==> |ReadBitfields(b, n).events| == n
    ensures n > 0 && (|b| < 4 || ReadBitfield(b[4..], 0).None?) ==> ReadBitfields(b, n) == Part([], None)
    decreases n
  {
    if n > 0 && |b| >= 4 && ReadBitfield(b[4..], 0).Some? {
      var rest := ReadBitfield(b[4..], 0).value.1;
      FieldFirst(b, n);
      if m > 0 {
        FieldFirst(b, m);
        FieldsIncremental(rest, m - 1, n - 1);
      } else {
        FieldsIncremental(rest, 0, n - 1);
      }
    }
  }

  lemma {:induction false} FragmentsIncremental(b: seq<byte>, m: nat, n: nat)
    requires m <= n
    ensures ReadFragments(b, m).events <= ReadFragments(b, n).events
    ensures ReadFragments(b, n).rest.Some? ==> |ReadFragments(b, n).events| == n
    ensures n > 0 && HeadFragment(b).None? ==> ReadFragments(b, n) == Part([], None)
    decreases n
  {
    if n > 0 && HeadFragment(b).Some? {
      FragmentsIncremental(b[7..], if m > 0 then m - 1 else 0, n - 1);
    }
  }

  /** What was read before an error takes effect: the acknowledgements come first, then the
      bitfields, as far as they go, and the fragments. */
  lemma DataIncremental(b: seq<byte>)
    requires b != []
    ensures var acks, es := AckPart(b[0] >= 128, b[1..]), ReadData(b).events;
      && acks.events <= es
      && (acks.rest.None? ==> es == acks.events && ReadData(b).rest.None?)
      && (acks.rest.Some? ==>
            var fields := BitfieldPart(b[0] / 64 % 2 == 1, acks.rest.value);
            && acks.events + fields.events <= es
            && (fields.rest.None? ==> es == acks.events + fields.events && ReadData(b).rest.None?)
            && (fields.rest.Some? ==>
                  && es == acks.events + fields.events + FragmentPart(fields.rest.value).events
                  && ReadData(b).rest == FragmentPart(fields.rest.value).rest))
  {
  }
}
