/** The table-driven UTF-8 validator of websocketpp, against section 4 of RFC 3629. */
module Utf8 {
  import opened Bytes

  // -------------------------------------------------------- the state machine

  const ACCEPT: nat := 0
  const REJECT: nat := 1

  /** The first 256 entries of `utf8d`, sixteen at a time: the classes of the bytes
      16 * hi .. 16 * hi + 15. */
  function ClassRow(hi: nat): (row: seq<nat>)
    requires hi < 16
    ensures |row| == 16
  {
    match hi
    case 8 => [1, 1, 1, 1, 1, 1, 1, 1, 1, 1, 1, 1, 1, 1, 1, 1]
    case 9 => [9, 9, 9, 9, 9, 9, 9, 9, 9, 9, 9, 9, 9, 9, 9, 9]
    case 10 => [7, 7, 7, 7, 7, 7, 7, 7, 7, 7, 7, 7, 7, 7, 7, 7]
    case 11 => [7, 7, 7, 7, 7, 7, 7, 7, 7, 7, 7, 7, 7, 7, 7, 7]
    case 12 => [8, 8, 2, 2, 2, 2, 2, 2, 2, 2, 2, 2, 2, 2, 2, 2]
    case 13 => [2, 2, 2, 2, 2, 2, 2, 2, 2, 2, 2, 2, 2, 2, 2, 2]
    case 14 => [10, 3, 3, 3, 3, 3, 3, 3, 3, 3, 3, 3, 3, 4, 3, 3]
    case 15 => [11, 6, 6, 6, 5, 8, 8, 8, 8, 8, 8, 8, 8, 8, 8, 8]
    case _ => [0, 0, 0, 0, 0, 0, 0, 0, 0, 0, 0, 0, 0, 0, 0, 0]
  }

  /** The nine rows behind them, one per state. */
  function StateRow(state: nat): (row: seq<nat>)
    requires state < 9
    ensures |row| == 16
  {
    match state
    case 0 => [0, 1, 2, 3, 5, 8, 7, 1, 1, 1, 4, 6, 1, 1, 1, 1]
    case 1 => [1, 1, 1, 1, 1, 1, 1, 1, 1, 1, 1, 1, 1, 1, 1, 1]
    case 2 => [1, 0, 1, 1, 1, 1, 1, 0, 1, 0, 1, 1, 1, 1, 1, 1]
    case 3 => [1, 2, 1, 1, 1, 1, 1, 2, 1, 2, 1, 1, 1, 1, 1, 1]
    case 4 => [1, 1, 1, 1, 1, 1, 1, 2, 1, 1, 1, 1, 1, 1, 1, 1]
    case 5 => [1, 2, 1, 1, 1, 1, 1, 1, 1, 2, 1, 1, 1, 1, 1, 1]
    case 6 => [1, 1, 1, 1, 1, 1, 1, 3, 1, 3, 1, 1, 1, 1, 1, 1]
    case 7 => [1, 3, 1, 1, 1, 1, 1, 3, 1, 3, 1, 1, 1, 1, 1, 1]
    case _ => [1, 3, 1, 1, 1, 1, 1, 1, 1, 1, 1, 1, 1, 1, 1, 1]
  }

  /** The class of a byte, run by run. */
  function Class(b: byte): (t: nat)
    ensures t < 12
  {
    if b < 0x80 then 0 else if b < 0x90 then 1 else if b < 0xA0 then 9 else if b < 0xC0 then 7
    else if b < 0xC2 then 8 else if b < 0xE0 then 2
    else if b == 0xE0 then 10 else if b == 0xED then 4 else if b < 0xF0 then 3
    else if b == 0xF0 then 11 else if b < 0xF4 then 6 else if b == 0xF4 then 5 else 8
  }

  /** Where a state goes on a class. */
  function Transition(state: nat, t: nat): (r: nat)
    requires state < 9 && t < 12
    ensures r < 9
  {
    match state
    case 0 => (match t
               case 0 => 0 case 2 => 2 case 3 => 3 case 4 => 5 case 5 => 8 case 6 => 7 case 10 => 4 case 11 => 6
               case _ => 1)
    case 1 => 1
    case 2 => if t == 1 || t == 7 || t == 9 then 0 else 1
    case 3 => if t == 1 || t == 7 || t == 9 then 2 else 1
    case 4 => if t == 7 then 2 else 1
    case 5 => if t == 1 || t == 9 then 2 else 1
    case 6 => if t == 7 || t == 9 then 3 else 1
    case 7 => if t == 1 || t == 7 || t == 9 then 3 else 1
    case _ => if t == 1 then 3 else 1
  }

  lemma LowRows(hi: nat, lo: nat)
    requires hi < 12 && lo < 16
    ensures ClassRow(hi)[lo] == Class(16 * hi + lo)
  {
  }

  lemma HighRows(hi: nat, lo: nat)
    requires 12 <= hi < 16 && lo < 16
    ensures ClassRow(hi)[lo] == Class(16 * hi + lo)
  {
  }

  lemma ClassIsTable(b: byte)
    ensures ClassRow(b / 16)[b % 16] == Class(b)
  {
    if b < 0xC0 {
      LowRows(b / 16, b % 16);
    } else {
      HighRows(b / 16, b % 16);
    }
  }

  lemma TransitionIsTable(state: nat, t: nat)
    requires state < 9 && t < 12
    ensures StateRow(state)[t] == Transition(state, t)
  {
  }

  type State = x: nat | x < 9

  function Step(state: State, b: byte): State {
    Transition(state, Class(b))
  }

  /** (0xff >> type) & byte */
  function LeadBits(t: nat, b: byte): nat {
    match t
    case 0 => b case 1 => b % 128 case 2 => b % 64 case 3 => b % 32
    case 4 => b % 16 case 5 => b % 8 case 6 => b % 4 case 7 => b % 2
    case _ => 0
  }

  datatype Decoder = Decoder(state: State, codep: nat)

  /** `decode`: 32-bit code point, 6 bits at a time. */
  function Decode(d: Decoder, b: byte): Decoder {
    Decoder(Step(d.state, b),
            if d.state != ACCEPT then d.codep * 64 % 0x1_0000_0000 + b % 64 else LeadBits(Class(b), b))
  }

  function Run(state: State, s: seq<byte>): State
    decreases s
  {
    if s == [] then state else Run(Step(state, s[0]), s[1..])
  }

  function DecodeAll(d: Decoder, s: seq<byte>): Decoder
    decreases s
  {
    if s == [] then d else DecodeAll(Decode(d, s[0]), s[1..])
  }

  /** `validator::decode`: stops at the first byte that is rejected. */
  function Fed(d: Decoder, s: seq<byte>): Decoder
    decreases s
  {
    if s == [] then d
    else
      var d' := Decode(d, s[0]);
      if d'.state == REJECT then d' else Fed(d', s[1..])
  }

  class Validator {
    var state: State
    var codep: nat

    function Value(): Decoder
      reads this
    {
      Decoder(state, codep)
    }

    constructor ()
      ensures Value() == Decoder(ACCEPT, 0)
    {
      state, codep := ACCEPT, 0;
    }

    method Consume(b: byte) returns (ok: bool)
      modifies this
      ensures Value() == Decode(old(Value()), b) && (ok <==> state != REJECT)
    {
      ClassIsTable(b);
      var t := ClassRow(b / 16)[b % 16];
      TransitionIsTable(state, t);
      codep := if state != ACCEPT then codep * 64 % 0x1_0000_0000 + b % 64 else LeadBits(t, b);
      state := StateRow(state)[t];
      ok := state != REJECT;
    }

    method DecodeBytes(s: seq<byte>) returns (ok: bool)
      modifies this
      ensures Value() == Fed(old(Value()), s)
      ensures ok <==> s == [] || state != REJECT
    {
      var rest := s;
      while rest != []
        invariant Fed(Value(), rest) == Fed(old(Value()), s)
        invariant rest != s ==> state != REJECT
        decreases |rest|
      {
        var good := Consume(rest[0]);
        if !good {
          return false;
        }
        rest := rest[1..];
      }
      ok := true;
    }
  }

  method Validate(s: seq<byte>) returns (ok: bool)
    ensures ok <==> Valid(s)
  {
    var v := new Validator();
    var good := v.DecodeBytes(s);
    FedRuns(Decoder(ACCEPT, 0), s);
    ok := good && v.state == ACCEPT;
  }

  // ----------------------------------------------------------- section 4 of RFC 3629

  predicate Tail(b: byte) { 0x80 <= b <= 0xBF }

  predicate Char1(s: seq<byte>) { |s| == 1 && s[0] <= 0x7F }

  predicate Char2(s: seq<byte>) { |s| == 2 && 0xC2 <= s[0] <= 0xDF && Tail(s[1]) }

  predicate Char3(s: seq<byte>) {
    && |s| == 3 && Tail(s[2])
    && (|| (s[0] == 0xE0 && 0xA0 <= s[1] <= 0xBF)
        || (0xE1 <= s[0] <= 0xEC && Tail(s[1]))
        || (s[0] == 0xED && 0x80 <= s[1] <= 0x9F)
        || (0xEE <= s[0] <= 0xEF && Tail(s[1])))
  }

  predicate Char4(s: seq<byte>) {
    && |s| == 4 && Tail(s[2]) && Tail(s[3])
    && (|| (s[0] == 0xF0 && 0x90 <= s[1] <= 0xBF)
        || (0xF1 <= s[0] <= 0xF3 && Tail(s[1]))
        || (s[0] == 0xF4 && 0x80 <= s[1] <= 0x8F))
  }

  /** UTF8-char of the grammar. */
  predicate Char(s: seq<byte>) {
    Char1(s) || Char2(s) || Char3(s) || Char4(s)
  }

  /** UTF8-octets: s is the concatenation of `chars`. */
  predicate Octets(s: seq<byte>, chars: seq<seq<byte>>) {
    Concat(chars) == s && forall i :: 0 <= i < |chars| ==> Char(chars[i])
  }

  /** The verdict of `validate`. */
  predicate Valid(s: seq<byte>) {
    Run(ACCEPT, s) == ACCEPT
  }

  // ------------------------------------------------------------- runs

  lemma {:induction false} RunAppend(state: State, a: seq<byte>, b: seq<byte>)
    ensures Run(state, a + b) == Run(Run(state, a), b)
    decreases a
  {
    if a == [] {
      assert a + b == b;
    } else {
      assert (a + b)[0] == a[0] && (a + b)[1..] == a[1..] + b;
      RunAppend(Step(state, a[0]), a[1..], b);
    }
  }

  /** Reject is absorbing. */
  lemma {:induction false} RejectAbsorbs(s: seq<byte>)
    ensures Run(REJECT, s) == REJECT
    decreases s
  {
    if s != [] {
      RejectAbsorbs(s[1..]);
    }
  }

  /** Stopping early does not change the state. */
  lemma {:induction false} FedRuns(d: Decoder, s: seq<byte>)
    ensures Fed(d, s).state == Run(d.state, s)
    decreases s
  {
    if s != [] {
      var d' := Decode(d, s[0]);
      if d'.state == REJECT {
        RejectAbsorbs(s[1..]);
      } else {
        FedRuns(d', s[1..]);
      }
    }
  }

  /** The chunks of a message, one after the other. */
  function FedAll(d: Decoder, chunks: seq<seq<byte>>): Decoder
    decreases chunks
  {
    if chunks == [] then d else FedAll(Fed(d, chunks[0]), chunks[1..])
  }

  /** Any chunking gives the same verdict as the whole message at once. */
  lemma {:induction false} ChunkingIrrelevant(d: Decoder, chunks: seq<seq<byte>>)
    ensures FedAll(d, chunks).state == Run(d.state, Concat(chunks))
    decreases chunks
  {
    if chunks != [] {
      FedRuns(d, chunks[0]);
      ChunkingIrrelevant(Fed(d, chunks[0]), chunks[1..]);
      RunAppend(d.state, chunks[0], Concat(chunks[1..]));
    }
  }

  // ----------------------------------------------------- accepted means valid

  /** Every character leads from accept to accept, and not before its end. */
  lemma CharAccepted(s: seq<byte>)
    requires Char(s)
    ensures Run(ACCEPT, s) == ACCEPT
    ensures forall n :: 0 < n < |s| ==> Run(ACCEPT, s[..n]) != ACCEPT && Run(ACCEPT, s[..n]) != REJECT
  {
    var a := Step(ACCEPT, s[0]);
    RunOne(ACCEPT, s);
    if |s| > 1 {
      RunOne(a, s[1..]);
      var b := Step(a, s[1]);
      assert s[1..][1..] == s[2..];
      RunPrefix(ACCEPT, s, 1);
      if |s| > 2 {
        RunOne(b, s[2..]);
        assert s[2..][1..] == s[3..];
        RunPrefix(ACCEPT, s, 2);
        if |s| > 3 {
          RunOne(Step(b, s[2]), s[3..]);
          RunPrefix(ACCEPT, s, 3);
        }
      }
    }
  }

  lemma RunOne(state: State, s: seq<byte>)
    requires s != []
    ensures Run(state, s) == Run(Step(state, s[0]), s[1..])
  {
  }

  lemma RunPrefix(state: State, s: seq<byte>, n: nat)
    requires 0 < n <= |s|
    ensures Run(state, s[..n]) == Step(Run(state, s[..n - 1]), s[n - 1])
  {
    assert s[..n] == s[..n - 1] + [s[n - 1]];
    RunAppend(state, s[..n - 1], [s[n - 1]]);
    assert [s[n - 1]][1..] == [];
  }

  /** A run that ends in accept goes on. */
  lemma Continues(state: State, s: seq<byte>)
    requires Run(state, s) == ACCEPT && state != ACCEPT
    ensures s != [] && Step(state, s[0]) != REJECT && Run(Step(state, s[0]), s[1..]) == ACCEPT
  {
    if s != [] {
      RejectAbsorbs(s[1..]);
    }
  }

  lemma FirstStep(s: seq<byte>)
    requires s != [] && Valid(s)
    ensures Step(ACCEPT, s[0]) != REJECT && Run(Step(ACCEPT, s[0]), s[1..]) == ACCEPT
  {
    RejectAbsorbs(s[1..]);
  }

  /** Accepted input starts with a character, behind which it is accepted again. */
  lemma FirstChar(s: seq<byte>) returns (n: nat)
    requires s != [] && Valid(s)
    ensures 0 < n <= |s| && Char(s[..n]) && Valid(s[n..])
  {
    FirstStep(s);
    var a := Step(ACCEPT, s[0]);
    if a == ACCEPT {
      return 1;
    }
    Continues(a, s[1..]);
    var b := Step(a, s[1]);
    assert s[1..][1..] == s[2..];
    if b == ACCEPT {
      return 2;
    }
    Continues(b, s[2..]);
    var c := Step(b, s[2]);
    assert s[2..][1..] == s[3..];
    if c == ACCEPT {
      return 3;
    }
    Continues(c, s[3..]);
    assert s[3..][1..] == s[4..];
    return 4;
  }

  lemma {:induction false} ValidHasChars(s: seq<byte>) returns (chars: seq<seq<byte>>)
    requires Valid(s)
    ensures Octets(s, chars)
    decreases |s|
  {
    chars := [];
    if s != [] {
      var n := FirstChar(s);
      var rest := ValidHasChars(s[n..]);
      chars := [s[..n]] + rest;
      assert chars[1..] == rest && s[..n] + s[n..] == s;
    }
  }

  lemma {:induction false} CharsAreValid(s: seq<byte>, chars: seq<seq<byte>>)
    requires Octets(s, chars)
    ensures Valid(s)
    decreases chars
  {
    if chars != [] {
      CharsAreValid(Concat(chars[1..]), chars[1..]);
      CharAccepted(chars[0]);
      RunAppend(ACCEPT, chars[0], Concat(chars[1..]));
    }
  }

  /** Validator correctness: `validate(s)` is true exactly if s is a concatenation of the
      byte sequences that section 4 of RFC 3629 allows. */
  lemma {:induction false} ValidIffOctets(s: seq<byte>)
    ensures Valid(s) <==> exists chars :: Octets(s, chars)
  {
    if Valid(s) {
      var chars := ValidHasChars(s);
      assert Octets(s, chars);
    }
    if exists chars :: Octets(s, chars) {
      var chars :| Octets(s, chars);
      CharsAreValid(s, chars);
    }
  }

  // ------------------------------------------------------------ code points

  /** Unicode scalar values: no surrogates. */
  predicate Scalar(c: nat) {
    c < 0xD800 || 0xE000 <= c < 0x11_0000
  }

  /** The encoding of section 3 of RFC 3629. */
  function Encode(c: nat): seq<byte>
    requires Scalar(c)
  {
    if c < 0x80 then [c]
    else if c < 0x800 then [0xC0 + c / 64, 0x80 + c % 64]
    else if c < 0x1_0000 then [0xE0 + c / 64 / 64, 0x80 + c / 64 % 64, 0x80 + c % 64]
    else [0xF0 + c / 64 / 64 / 64, 0x80 + c / 64 / 64 % 64, 0x80 + c / 64 % 64, 0x80 + c % 64]
  }

  lemma EncodeIsChar(c: nat)
    requires Scalar(c)
    ensures Char(Encode(c))
  {
  }

  lemma DecodeTail(d: Decoder, b: byte)
    requires d.state != ACCEPT && d.codep < 0x1_0000 && Tail(b)
    ensures Decode(d, b) == Decoder(Step(d.state, b), d.codep * 64 + (b as int - 0x80))
  {
  }

  lemma DecodeOne(d: Decoder, s: seq<byte>)
    requires s != []
    ensures DecodeAll(d, s) == DecodeAll(Decode(d, s[0]), s[1..])
  {
  }

  lemma {:induction false} DecodeState(d: Decoder, s: seq<byte>)
    ensures DecodeAll(d, s).state == Run(d.state, s)
    decreases s
  {
    if s != [] {
      DecodeState(Decode(d, s[0]), s[1..]);
    }
  }

  lemma CodePoint1(d: Decoder, c: nat)
    requires d.state == ACCEPT && c < 0x80
    ensures DecodeAll(d, Encode(c)).codep == c
  {
    DecodeOne(d, Encode(c));
  }

  lemma CodePoint2(d: Decoder, c: nat)
    requires d.state == ACCEPT && 0x80 <= c < 0x800
    ensures DecodeAll(d, Encode(c)).codep == c
  {
    var s := Encode(c);
    DecodeOne(d, s);
    var d1 := Decode(d, s[0]);
    assert d1.codep == c / 64 && d1.state == 2;
    DecodeOne(d1, s[1..]);
    DecodeTail(d1, s[1]);
    assert s[1..][1..] == [];
  }

  lemma CodePoint3(d: Decoder, c: nat)
    requires d.state == ACCEPT && 0x800 <= c < 0x1_0000 && Scalar(c)
    ensures DecodeAll(d, Encode(c)).codep == c
  {
    var s := Encode(c);
    EncodeIsChar(c);
    CharAccepted(s);
    DecodeOne(d, s);
    var d1 := Decode(d, s[0]);
    assert d1.codep == c / 64 / 64 && d1.state != ACCEPT;
    DecodeOne(d1, s[1..]);
    DecodeTail(d1, s[1]);
    var d2 := Decode(d1, s[1]);
    assert d2.codep == c / 64 && d2.state == 2;
    assert s[1..][1..] == s[2..];
    DecodeOne(d2, s[2..]);
    DecodeTail(d2, s[2]);
    assert s[2..][1..] == [];
  }

  lemma CodePoint4(d: Decoder, c: nat)
    requires d.state == ACCEPT && 0x1_0000 <= c && Scalar(c)
    ensures DecodeAll(d, Encode(c)).codep == c
  {
    var s := Encode(c);
    DecodeOne(d, s);
    var d1 := Decode(d, s[0]);
    assert d1.codep == c / 64 / 64 / 64 && d1.state != ACCEPT;
    DecodeOne(d1, s[1..]);
    DecodeTail(d1, s[1]);
    var d2 := Decode(d1, s[1]);
    assert d2.codep == c / 64 / 64 && d2.state == 3;
    assert s[1..][1..] == s[2..];
    DecodeOne(d2, s[2..]);
    DecodeTail(d2, s[2]);
    var d3 := Decode(d2, s[2]);
    assert d3.codep == c / 64 && d3.state == 2;
    assert s[2..][1..] == s[3..];
    DecodeOne(d3, s[3..]);
    DecodeTail(d3, s[3]);
    assert s[3..][1..] == [];
  }

  /** At the end of an encoded character the decoder is in accept and holds its scalar
      value, whatever it held before. */
  lemma CodePoint(d: Decoder, c: nat)
    requires d.state == ACCEPT && Scalar(c)
    ensures DecodeAll(d, Encode(c)) == Decoder(ACCEPT, c)
  {
    EncodeIsChar(c);
    CharAccepted(Encode(c));
    DecodeState(d, Encode(c));
    if c < 0x80 {
      CodePoint1(d, c);
    } else if c < 0x800 {
      CodePoint2(d, c);
    } else if c < 0x1_0000 {
      CodePoint3(d, c);
    } else {
      CodePoint4(d, c);
    }
  }

  /** Six more bits. */
  function Six(hi: int, b: byte): int {
    hi * 64 + (b as int - 0x80)
  }

  lemma SixBack(hi: nat, b: byte)
    requires Tail(b)
    ensures Six(hi, b) / 64 == hi && Six(hi, b) % 64 == b as int - 0x80 && Six(hi, b) >= 0
  {
  }

  /** The value a character of the grammar stands for. */
  function ScalarOf(s: seq<byte>): int
    requires Char(s)
  {
    match |s|
    case 1 => s[0]
    case 2 => Six(s[0] as int - 0xC0, s[1])
    case 3 => Six(Six(s[0] as int - 0xE0, s[1]), s[2])
    case _ => Six(Six(Six(s[0] as int - 0xF0, s[1]), s[2]), s[3])
  }

  lemma Char2IsEncoding(s: seq<byte>)
    requires Char2(s)
    ensures ScalarOf(s) >= 0 && Scalar(ScalarOf(s)) && Encode(ScalarOf(s)) == s
  {
    SixBack(s[0] as int - 0xC0, s[1]);
  }

  lemma Char3IsEncoding(s: seq<byte>)
    requires Char3(s)
    ensures ScalarOf(s) >= 0 && Scalar(ScalarOf(s)) && Encode(ScalarOf(s)) == s
  {
    var a := Six(s[0] as int - 0xE0, s[1]);
    SixBack(s[0] as int - 0xE0, s[1]);
    SixBack(a, s[2]);
  }

  lemma Char4IsEncoding(s: seq<byte>)
    requires Char4(s)
    ensures ScalarOf(s) >= 0 && Scalar(ScalarOf(s)) && Encode(ScalarOf(s)) == s
  {
    var a := Six(s[0] as int - 0xF0, s[1]);
    var b := Six(a, s[2]);
    SixBack(s[0] as int - 0xF0, s[1]);
    SixBack(a, s[2]);
    SixBack(b, s[3]);
  }

  /** The characters of the grammar are exactly the encodings of scalar values. */
  lemma CharIsEncoding(s: seq<byte>)
    requires Char(s)
    ensures ScalarOf(s) >= 0 && Scalar(ScalarOf(s)) && Encode(ScalarOf(s)) == s
  {
    if Char2(s) {
      Char2IsEncoding(s);
    } else if Char3(s) {
      Char3IsEncoding(s);
    } else if Char4(s) {
      Char4IsEncoding(s);
    }
  }

  predicate Scalars(cs: seq<nat>) {
    forall i :: 0 <= i < |cs| ==> Scalar(cs[i])
  }

  function EncodeAll(cs: seq<nat>): seq<byte>
    requires Scalars(cs)
  {
    if cs == [] then [] else Encode(cs[0]) + EncodeAll(cs[1..])
  }

  lemma {:induction false} CharsEncode(s: seq<byte>, chars: seq<seq<byte>>) returns (cs: seq<nat>)
    requires Octets(s, chars)
    ensures Scalars(cs) && EncodeAll(cs) == s
    decreases chars
  {
    cs := [];
    if chars != [] {
      CharIsEncoding(chars[0]);
      var rest := CharsEncode(Concat(chars[1..]), chars[1..]);
      cs := [ScalarOf(chars[0])] + rest;
      assert cs[1..] == rest;
    }
  }

  lemma {:induction false} DecodeAppend(d: Decoder, a: seq<byte>, b: seq<byte>)
    ensures DecodeAll(d, a + b) == DecodeAll(DecodeAll(d, a), b)
    decreases a
  {
    if a == [] {
      assert a + b == b;
    } else {
      assert (a + b)[0] == a[0] && (a + b)[1..] == a[1..] + b;
      DecodeAppend(Decode(d, a[0]), a[1..], b);
    }
  }

  /** Decoding encoded scalar values ends in accept with the last of them. */
  lemma {:induction false} DecodeEncoded(d: Decoder, cs: seq<nat>)
    requires d.state == ACCEPT && Scalars(cs)
    ensures DecodeAll(d, EncodeAll(cs)) == if cs == [] then d else Decoder(ACCEPT, cs[|cs| - 1])
    decreases cs
  {
    if cs != [] {
      CodePoint(d, cs[0]);
      DecodeAppend(d, Encode(cs[0]), EncodeAll(cs[1..]));
      DecodeEncoded(Decoder(ACCEPT, cs[0]), cs[1..]);
    }
  }

  /** The same in terms of Unicode: valid input is the encoding of a sequence of scalar
      values. */
  lemma {:induction false} ValidIffScalars(s: seq<byte>)
    ensures Valid(s) <==> exists cs: seq<nat> :: Scalars(cs) && EncodeAll(cs) == s
  {
    if Valid(s) {
      var chars := ValidHasChars(s);
      var cs := CharsEncode(s, chars);
      assert Scalars(cs) && EncodeAll(cs) == s;
    }
    if exists cs: seq<nat> :: Scalars(cs) && EncodeAll(cs) == s {
      var cs: seq<nat> :| Scalars(cs) && EncodeAll(cs) == s;
      DecodeEncoded(Decoder(ACCEPT, 0), cs);
      DecodeState(Decoder(ACCEPT, 0), s);
    }
  }
}
