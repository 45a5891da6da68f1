/** I2P Base64: section 4 of RFC 4648 with '-' and '~' in place of '+' and '/'. */
module Base64 {
  import opened Bytes

  type Sextet = x: int | 0 <= x < 64

  /** `b64chars[i]` */
  function Char(i: Sextet): char {
    if i < 26 then ('A' as int + i) as char
    else if i < 52 then ('a' as int + (i - 26)) as char
    else if i < 62 then ('0' as int + (i - 52)) as char
    else if i == 62 then '-' else '~'
  }

  /** `b64chars.find(c)`, where "not found" is cut to 255. */
  function Find(c: char): byte {
    if 'A' <= c <= 'Z' then c as int - 'A' as int
    else if 'a' <= c <= 'z' then c as int - 'a' as int + 26
    else if '0' <= c <= '9' then c as int - '0' as int + 52
    else if c == '-' then 62 else if c == '~' then 63 else 255
  }

  /** `is_base64` */
  predicate IsBase64(c: char) {
    'A' <= c <= 'Z' || 'a' <= c <= 'z' || '0' <= c <= '9' || c == '-' || c == '~'
  }

  lemma FindChar(i: Sextet)
    ensures Find(Char(i)) == i && IsBase64(Char(i))
  {
  }

  /** The characters of the alphabet are exactly those that are found in it. */
  lemma CharFind(c: char)
    ensures IsBase64(c) <==> Find(c) < 64
    ensures IsBase64(c) ==> Char(Find(c)) == c
  {
  }

  // -------------------------------------------------------------- three and four

  function Sextet0(a: byte): Sextet { a / 4 }
  function Sextet1(a: byte, b: byte): Sextet { a % 4 * 16 + b / 16 }
  function Sextet2(b: byte, c: byte): Sextet { b % 16 * 4 + c / 64 }
  function Sextet3(c: byte): Sextet { c % 64 }

  function Byte0(p: byte, q: byte): byte { (p * 4 + q / 16 % 4) % 256 }
  function Byte1(q: byte, r: byte): byte { (q % 16 * 16 + r / 4 % 16) % 256 }
  function Byte2(r: byte, s: byte): byte { (r % 4 * 64 + s) % 256 }

  lemma HighLow16(h: nat, l: nat)
    requires l < 16
    ensures (h * 16 + l) / 16 == h && (h * 16 + l) % 16 == l
  {
  }

  lemma HighLow4(h: nat, l: nat)
    requires l < 4
    ensures (h * 4 + l) / 4 == h && (h * 4 + l) % 4 == l
  {
  }

  lemma Back0(a: byte, b: byte)
    ensures Byte0(Sextet0(a), Sextet1(a, b)) == a
  {
    HighLow16(a % 4, b / 16);
  }

  lemma Back1(a: byte, b: byte, c: byte)
    ensures Byte1(Sextet1(a, b), Sextet2(b, c)) == b
  {
    HighLow16(a % 4, b / 16);
    HighLow4(b % 16, c / 64);
  }

  lemma Back2(b: byte, c: byte)
    ensures Byte2(Sextet2(b, c), Sextet3(c)) == c
  {
    HighLow4(b % 16, c / 64);
  }

  // ---------------------------------------------------------------------- encoding

  function Quad(a: byte, b: byte, c: byte): (q: seq<char>)
    ensures |q| == 4
  {
    [Char(Sextet0(a)), Char(Sextet1(a, b)), Char(Sextet2(b, c)), Char(Sextet3(c))]
  }

  /** The last one or two bytes: as if zeros followed, and '=' for what is missing. */
  function Tail(x: seq<byte>): (q: seq<char>)
    requires 1 <= |x| <= 2
    ensures |q| == 4
  {
    if |x| == 1 then Quad(x[0], 0, 0)[..2] + "==" else Quad(x[0], x[1], 0)[..3] + "="
  }

  function Encoded(x: seq<byte>): seq<char> {
    if x == [] then [] else if |x| < 3 then Tail(x) else Quad(x[0], x[1], x[2]) + Encoded(x[3..])
  }

  lemma EncodeStep(ret: seq<char>, x: seq<byte>)
    requires |x| >= 3
    ensures ret + Encoded(x) == (ret + Quad(x[0], x[1], x[2])) + Encoded(x[3..])
  {
    Assoc(ret, Quad(x[0], x[1], x[2]), Encoded(x[3..]));
  }

  function Equals(n: nat): seq<char> {
    seq(n, _ => '=')
  }

  /** The part of `encode` behind the loop: i bytes are left in the work array. */
  method EncodeRest(three: array<byte>, i: nat) returns (out: seq<char>)
    requires three.Length == 3 && 1 <= i <= 2
    modifies three
    ensures out == Tail(old(three[..i]))
  {
    var j := i;
    while j < 3
      invariant i <= j <= 3 && three[..i] == old(three[..i]) && forall k :: i <= k < j ==> three[k] == 0
    {
      three[j] := 0;
      j := j + 1;
    }
    var four := Quad(three[0], three[1], three[2]);
    out := four[..i + 1] + Equals(3 - i);
  }

  /** A full work array gives four characters. */
  lemma TakeThree(ret: seq<char>, held: seq<byte>, more: seq<byte>)
    requires |held| == 3
    ensures ret + Encoded(held + more) == (ret + Quad(held[0], held[1], held[2])) + Encoded([] + more)
  {
    DropPrefix(held, more);
    EncodeStep(ret, held + more);
    assert [] + more == more;
  }

  lemma TakeByte(held: seq<byte>, rest: seq<byte>)
    requires rest != []
    ensures held + rest == (held + [rest[0]]) + rest[1..]
  {
    Assoc(held, [rest[0]], rest[1..]);
  }

  /** What is left when the input is read. */
  lemma LastBytes(ret: seq<char>, held: seq<byte>)
    requires |held| < 3
    ensures ret + Encoded(held + []) == if held == [] then ret else ret + Tail(held)
  {
    assert held + [] == held;
    assert ret + [] == ret;
  }

  /** `encode`: three bytes at a time through a work array. */
  method Encode(data: seq<byte>) returns (ret: seq<char>)
    ensures ret == Encoded(data)
  {
    ret := [];
    var three := new byte[3](_ => 0);
    var i, rest := 0, data;
    ghost var held: seq<byte> := [];
    assert [] + data == data;
    while rest != []
      invariant 0 <= i < 3 && held == three[..i]
      invariant ret + Encoded(held + rest) == Encoded(data)
      decreases |rest|
    {
      TakeByte(held, rest);
      held := held + [rest[0]];
      three[i] := rest[0];
      i, rest := i + 1, rest[1..];
      if i == 3 {
        TakeThree(ret, held, rest);
        assert three[0] == held[0] && three[1] == held[1] && three[2] == held[2];
        ret := ret + Quad(three[0], three[1], three[2]);
        held, i := [], 0;
      }
    }
    LastBytes(ret, held);
    if i > 0 {
      var tail := EncodeRest(three, i);
      ret := ret + tail;
    }
  }

  // ---------------------------------------------------------------------- decoding

  /** The input up to the first character that is not of the alphabet. */
  function Text(s: seq<char>): (n: nat)
    ensures n <= |s| && (forall i :: 0 <= i < n ==> IsBase64(s[i])) && (n < |s| ==> !IsBase64(s[n]))
  {
    if s == [] || !IsBase64(s[0]) then 0
    else
      var n := Text(s[1..]);
      assert forall i :: 0 < i < 1 + n ==> s[i] == s[1..][i - 1];
      1 + n
  }

  function Triple(p: byte, q: byte, r: byte, s: byte): seq<byte> {
    [Byte0(p, q), Byte1(q, r), Byte2(r, s)]
  }

  /** Groups of four; one to three characters at the end give up to two bytes, the slots
      that are missing decoding as 255. */
  function Groups(t: seq<char>): seq<byte> {
    if |t| >= 4 then Triple(Find(t[0]), Find(t[1]), Find(t[2]), Find(t[3])) + Groups(t[4..])
    else if |t| == 3 then Triple(Find(t[0]), Find(t[1]), Find(t[2]), 255)[..2]
    else if |t| == 2 then Triple(Find(t[0]), Find(t[1]), 255, 255)[..1]
    else []
  }

  function Decoded(s: seq<char>): seq<byte> {
    Groups(s[..Text(s)])
  }

  lemma DecodeStep(ret: seq<byte>, t: seq<char>)
    requires |t| >= 4
    ensures ret + Groups(t) == (ret + Triple(Find(t[0]), Find(t[1]), Find(t[2]), Find(t[3]))) + Groups(t[4..])
  {
    Assoc(ret, Triple(Find(t[0]), Find(t[1]), Find(t[2]), Find(t[3])), Groups(t[4..]));
  }

  /** The part of `decode` behind the loop: i characters are left in the work array. */
  method DecodeRest(four: array<char>, i: nat) returns (out: seq<byte>)
    requires four.Length == 4 && 1 <= i <= 3
    modifies four
    ensures out == Groups(old(four[..i]))
  {
    var j := i;
    while j < 4
      invariant i <= j <= 4 && four[..i] == old(four[..i]) && forall k :: i <= k < j ==> four[k] == '\0'
    {
      four[j] := '\0';
      j := j + 1;
    }
    out := Triple(Find(four[0]), Find(four[1]), Find(four[2]), Find(four[3]))[..i - 1];
  }

  lemma TextStep(s: seq<char>)
    requires s != [] && IsBase64(s[0])
    ensures Text(s) == 1 + Text(s[1..])
  {
  }

  lemma NoText(s: seq<char>)
    requires s == [] || s[0] == '=' || !IsBase64(s[0])
    ensures Text(s) == 0
  {
  }

  lemma TakeFirst(s: seq<char>, n: nat)
    requires s != [] && n < |s|
    ensures s[..1 + n] == [s[0]] + s[1..][..n]
  {
  }

  /** The next character goes into the work array, which holds `held`. */
  lemma TakeChar(held: seq<char>, rest: seq<char>)
    requires rest != [] && IsBase64(rest[0])
    ensures held + rest[..Text(rest)] == (held + [rest[0]]) + rest[1..][..Text(rest[1..])]
  {
    TextStep(rest);
    TakeFirst(rest, Text(rest[1..]));
    Assoc(held, [rest[0]], rest[1..][..Text(rest[1..])]);
  }

  /** A full work array gives three bytes. */
  lemma TakeGroup(ret: seq<byte>, held: seq<char>, more: seq<char>)
    requires |held| == 4
    ensures ret + Groups(held + more)
         == (ret + Triple(Find(held[0]), Find(held[1]), Find(held[2]), Find(held[3]))) + Groups([] + more)
  {
    DropPrefix(held, more);
    DecodeStep(ret, held + more);
    assert [] + more == more;
  }

  lemma NoMoreText(held: seq<char>, rest: seq<char>)
    requires rest == [] || rest[0] == '=' || !IsBase64(rest[0])
    ensures held + rest[..Text(rest)] == held
  {
    NoText(rest);
  }

  /** `decode` */
  method Decode(s: seq<char>) returns (ret: seq<byte>)
    ensures ret == Decoded(s)
  {
    ret := [];
    var four := new char[4](_ => '\0');
    var i, rest := 0, s;
    ghost var held: seq<char> := [];
    assert [] + s[..Text(s)] == s[..Text(s)];
    while rest != [] && rest[0] != '=' && IsBase64(rest[0])
      invariant 0 <= i < 4 && held == four[..i]
      invariant ret + Groups(held + rest[..Text(rest)]) == Decoded(s)
      decreases |rest|
    {
      TakeChar(held, rest);
      held := held + [rest[0]];
      four[i] := rest[0];
      i, rest := i + 1, rest[1..];
      if i == 4 {
        TakeGroup(ret, held, rest[..Text(rest)]);
        assert four[0] == held[0] && four[1] == held[1] && four[2] == held[2] && four[3] == held[3];
        ret := ret + Triple(Find(four[0]), Find(four[1]), Find(four[2]), Find(four[3]));
        held, i := [], 0;
      }
    }
    NoMoreText(held, rest);
    if i > 0 {
      var tail := DecodeRest(four, i);
      ret := ret + tail;
    }
  }

  // --------------------------------------------------------------------- round trip

  lemma {:induction false} TextAppend(a: seq<char>, b: seq<char>)
    requires forall i :: 0 <= i < |a| ==> IsBase64(a[i])
    ensures Text(a + b) == |a| + Text(b)
    decreases |a|
  {
    if a == [] {
      assert a + b == b;
    } else {
      assert (a + b)[0] == a[0] && (a + b)[1..] == a[1..] + b;
      TextAppend(a[1..], b);
    }
  }

  lemma QuadText(a: byte, b: byte, c: byte)
    ensures var q := Quad(a, b, c);
      && (forall i :: 0 <= i < 4 ==> IsBase64(q[i]))
      && Find(q[0]) == Sextet0(a) && Find(q[1]) == Sextet1(a, b)
      && Find(q[2]) == Sextet2(b, c) && Find(q[3]) == Sextet3(c)
  {
    FindChar(Sextet0(a));
    FindChar(Sextet1(a, b));
    FindChar(Sextet2(b, c));
    FindChar(Sextet3(c));
  }

  lemma QuadBack(a: byte, b: byte, c: byte)
    ensures var q := Quad(a, b, c); Triple(Find(q[0]), Find(q[1]), Find(q[2]), Find(q[3])) == [a, b, c]
  {
    QuadText(a, b, c);
    Back0(a, b);
    Back1(a, b, c);
    Back2(b, c);
  }

  lemma DecodedQuad(q: seq<char>, rest: seq<char>)
    requires |q| == 4 && forall i :: 0 <= i < 4 ==> IsBase64(q[i])
    ensures Decoded(q + rest) == Triple(Find(q[0]), Find(q[1]), Find(q[2]), Find(q[3])) + Decoded(rest)
  {
    TextAppend(q, rest);
    var t := (q + rest)[..4 + Text(rest)];
    assert t == q + rest[..Text(rest)];
    assert t[4..] == rest[..Text(rest)];
  }

  lemma DecodedTail(t: seq<char>, pad: seq<char>)
    requires |t| < 4 && (forall i :: 0 <= i < |t| ==> IsBase64(t[i])) && pad != [] && pad[0] == '='
    ensures Decoded(t + pad) == Groups(t)
  {
    NoText(pad);
    TextAppend(t, pad);
    DropPrefix(t, pad);
  }

  lemma OneBack(a: byte)
    ensures Decoded(Tail([a])) == [a]
  {
    var q := Quad(a, 0, 0);
    QuadText(a, 0, 0);
    Back0(a, 0);
    DecodedTail(q[..2], "==");
  }

  lemma TwoBack(a: byte, b: byte)
    ensures Decoded(Tail([a, b])) == [a, b]
  {
    var q := Quad(a, b, 0);
    QuadText(a, b, 0);
    Back0(a, b);
    Back1(a, b, 0);
    DecodedTail(q[..3], "=");
  }

  lemma ThreeBack(a: byte, b: byte, c: byte, rest: seq<byte>, text: seq<char>)
    requires Decoded(text) == rest
    ensures Decoded(Quad(a, b, c) + text) == [a, b, c] + rest
  {
    QuadText(a, b, c);
    QuadBack(a, b, c);
    DecodedQuad(Quad(a, b, c), text);
  }

  lemma EncodedMore(x: seq<byte>)
    requires |x| >= 3
    ensures Encoded(x) == Quad(x[0], x[1], x[2]) + Encoded(x[3..])
  {
  }

  lemma EncodedRest(x: seq<byte>)
    requires |x| < 3
    ensures Encoded(x) == if x == [] then [] else Tail(x)
  {
  }

  lemma OneGroupMore(n: nat)
    requires n >= 3
    ensures (n + 2) / 3 == (n - 3 + 2) / 3 + 1
  {
  }

  lemma {:induction false} EncodedLength(x: seq<byte>)
    ensures |Encoded(x)| == 4 * ((|x| + 2) / 3)
    decreases |x|
  {
    if |x| >= 3 {
      EncodedMore(x);
      OneGroupMore(|x|);
      EncodedLength(x[3..]);
    } else {
      EncodedRest(x);
    }
  }

  lemma NoneBack()
    ensures Decoded(Encoded([])) == []
  {
  }

  lemma OneEncoded(a: byte)
    ensures Encoded([a]) == Tail([a])
  {
  }

  lemma TwoEncoded(a: byte, b: byte)
    ensures Encoded([a, b]) == Tail([a, b])
  {
  }

  /** A byte string of less than three bytes, by its bytes. */
  lemma ShortCases(x: seq<byte>)
    requires |x| < 3
    ensures x == [] || (|x| == 1 && x == [x[0]]) || (|x| == 2 && x == [x[0], x[1]])
  {
  }

  lemma RestBack(x: seq<byte>)
    requires |x| < 3
    ensures Decoded(Encoded(x)) == x
  {
    ShortCases(x);
    if |x| == 2 {
      TwoEncoded(x[0], x[1]);
      TwoBack(x[0], x[1]);
    } else if |x| == 1 {
      OneEncoded(x[0]);
      OneBack(x[0]);
    } else {
      NoneBack();
    }
  }

  lemma {:induction false} AllBack(x: seq<byte>)
    ensures Decoded(Encoded(x)) == x
    decreases |x|
  {
    if |x| >= 3 {
      AllBack(x[3..]);
      EncodedMore(x);
      ThreeBack(x[0], x[1], x[2], x[3..], Encoded(x[3..]));
      assert x == [x[0], x[1], x[2]] + x[3..];
    } else {
      RestBack(x);
    }
  }

  /** Base64 round trip: `decode(encode(x)) == x`, and four characters for every three
      bytes begun. */
  lemma {:induction false} RoundTrip(x: seq<byte>)
    ensures Decoded(Encoded(x)) == x && |Encoded(x)| == 4 * ((|x| + 2) / 3)
  {
    AllBack(x);
    EncodedLength(x);
  }

  // ----------------------------------------------------- the text, by the numbers

  const UPPER: string := "ABCDEFGHIJKLMNOPQRSTUVWXYZ"
  const LOWER: string := "abcdefghijklmnopqrstuvwxyz"
  const DIGITS: string := "0123456789"
  const ALPHABET: string := UPPER + LOWER + DIGITS + "-~"

  lemma UpperCase(i: nat)
    requires i < 26
    ensures |UPPER| == 26 && UPPER[i] == ('A' as int + i) as char
  {
  }

  lemma LowerCase(i: nat)
    requires i < 26
    ensures |LOWER| == 26 && LOWER[i] == ('a' as int + i) as char
  {
  }

  lemma Digit(i: nat)
    requires i < 10
    ensures |DIGITS| == 10 && DIGITS[i] == ('0' as int + i) as char
  {
  }

  /** The alphabet is the string of the source, in its order. */
  lemma CharIsAlphabet(i: Sextet)
    ensures |ALPHABET| == 64 && Char(i) == ALPHABET[i]
  {
    UpperCase(0);
    LowerCase(0);
    Digit(0);
    if i < 26 {
      UpperCase(i);
    } else if i < 52 {
      LowerCase(i - 26);
    } else if i < 62 {
      Digit(i - 52);
    }
  }

  /** Byte i of x, with zeros behind the end. */
  function At(x: seq<byte>, i: nat): byte {
    if i < |x| then x[i] else 0
  }

  /** The 24 bits of group g. */
  function BytesValue(x: seq<byte>, g: nat): nat {
    0x1_0000 * At(x, 3 * g) as int + 0x100 * At(x, 3 * g + 1) as int + At(x, 3 * g + 2) as int
  }

  /** What a character stands for; padding and what is missing count as zero. */
  function CharValue(t: seq<char>, i: nat): nat {
    if i < |t| && t[i] != '=' then Find(t[i]) else 0
  }

  function TextValue(t: seq<char>, g: nat): nat {
    0x4_0000 * CharValue(t, 4 * g) + 0x1000 * CharValue(t, 4 * g + 1) + 0x40 * CharValue(t, 4 * g + 2)
    + CharValue(t, 4 * g + 3)
  }

  lemma QuadValue(a: byte, b: byte, c: byte)
    ensures 0x4_0000 * Sextet0(a) + 0x1000 * Sextet1(a, b) + 0x40 * Sextet2(b, c) + Sextet3(c)
         == 0x1_0000 * a as int + 0x100 * b as int + c as int
  {
  }

  /** Character i is padding iff no bit of x belongs to it. */
  ghost predicate PaddedRight(x: seq<byte>, t: seq<char>) {
    forall i :: 0 <= i < |t| ==> (t[i] == '=' <==> 6 * i >= 8 * |x|) && (t[i] != '=' ==> IsBase64(t[i]))
  }

  lemma QuadIs(a: byte, b: byte, c: byte)
    ensures var q := Quad(a, b, c);
      && (forall i :: 0 <= i < 4 ==> q[i] != '=' && IsBase64(q[i]))
      && Find(q[0]) == Sextet0(a) && Find(q[1]) == Sextet1(a, b)
      && Find(q[2]) == Sextet2(b, c) && Find(q[3]) == Sextet3(c)
  {
    QuadText(a, b, c);
  }

  lemma TailNumbers(x: seq<byte>)
    requires 1 <= |x| <= 2
    ensures TextValue(Tail(x), 0) == BytesValue(x, 0) && PaddedRight(x, Tail(x))
  {
    var b: byte := if |x| == 2 then x[1] else 0;
    QuadIs(x[0], b, 0);
    QuadValue(x[0], b, 0);
  }

  lemma GroupNumbers(a: byte, b: byte, c: byte, x: seq<byte>, t: seq<char>)
    requires |x| >= 3 && x[0] == a && x[1] == b && x[2] == c
    ensures TextValue(Quad(a, b, c) + t, 0) == BytesValue(x, 0)
  {
    QuadIs(a, b, c);
    QuadValue(a, b, c);
  }

  lemma LaterGroup(x: seq<byte>, q: seq<char>, t: seq<char>, g: nat)
    requires |x| >= 3 && |q| == 4 && g > 0
    ensures BytesValue(x, g) == BytesValue(x[3..], g - 1) && TextValue(q + t, g) == TextValue(t, g - 1)
  {
    assert forall i: nat :: At(x, 3 + i) == At(x[3..], i);
    assert forall i: nat :: CharValue(q + t, 4 + i) == CharValue(t, i);
  }

  lemma LaterPadding(x: seq<byte>, q: seq<char>, t: seq<char>)
    requires |x| >= 3 && |q| == 4 && PaddedRight(x[3..], t)
    requires forall i :: 0 <= i < 4 ==> q[i] != '=' && IsBase64(q[i])
    ensures PaddedRight(x, q + t)
  {
    forall i | 0 <= i < |q + t|
      ensures ((q + t)[i] == '=' <==> 6 * i >= 8 * |x|) && ((q + t)[i] != '=' ==> IsBase64((q + t)[i]))
    {
      if i >= 4 {
        assert (q + t)[i] == t[i - 4];
      } else {
        assert (q + t)[i] == q[i];
      }
    }
  }

  /** What the text is: in every group the four characters stand, as digits of base 64, for
      the number of the three bytes, with zeros for bytes that are missing; and a character
      is '=' exactly where no bit of the input belongs. */
  lemma {:induction false} EncodedNumbers(x: seq<byte>, g: nat)
    ensures TextValue(Encoded(x), g) == BytesValue(x, g) && PaddedRight(x, Encoded(x))
    decreases |x|
  {
    if |x| >= 3 {
      var q, t := Quad(x[0], x[1], x[2]), Encoded(x[3..]);
      EncodedMore(x);
      EncodedNumbers(x[3..], if g > 0 then g - 1 else 0);
      QuadIs(x[0], x[1], x[2]);
      LaterPadding(x, q, t);
      if g == 0 {
        GroupNumbers(x[0], x[1], x[2], x, t);
      } else {
        LaterGroup(x, q, t, g);
      }
    } else {
      EncodedRest(x);
      if x != [] {
        TailNumbers(x);
      }
    }
  }

  // ------------------------------------------------------------------- and back

  lemma Unwrapped(p: Sextet, q: Sextet, r: Sextet, s: Sextet)
    ensures Byte0(p, q) == 4 * p + q / 16
    ensures Byte1(q, r) == 16 * (q % 16) + r / 4
    ensures Byte2(r, s) == 64 * (r % 4) + s
  {
  }

  lemma TripleValue(p: Sextet, q: Sextet, r: Sextet, s: Sextet)
    ensures 0x1_0000 * Byte0(p, q) as int + 0x100 * Byte1(q, r) as int + Byte2(r, s) as int
         == 0x4_0000 * p + 0x1000 * q + 0x40 * r + s
  {
    Unwrapped(p, q, r, s);
  }

  /** How many bytes n characters give. */
  function ByteCount(n: nat): nat {
    3 * (n / 4) + if n % 4 >= 2 then n % 4 - 1 else 0
  }

  predicate AllText(t: seq<char>) {
    forall i :: 0 <= i < |t| ==> IsBase64(t[i])
  }

  /** Byte i of the group is the i-th digit, to base 256, of its number. */
  function DigitOf(v: nat, i: nat): nat
    requires i < 3
  {
    if i == 0 then v / 0x1_0000 else if i == 1 then v / 0x100 % 0x100 else v % 0x100
  }

  lemma Digits(a: byte, b: byte, c: byte, i: nat)
    requires i < 3
    ensures DigitOf(0x1_0000 * a as int + 0x100 * b as int + c as int, i)
         == if i == 0 then a else if i == 1 then b else c
  {
  }

  lemma TripleDigits(p: Sextet, q: Sextet, r: Sextet, s: Sextet, i: nat)
    requires i < 3
    ensures Triple(p, q, r, s)[i] == DigitOf(0x4_0000 * p + 0x1000 * q + 0x40 * r + s, i)
  {
    TripleValue(p, q, r, s);
    Digits(Byte0(p, q), Byte1(q, r), Byte2(r, s), i);
  }

  lemma TextSextet(t: seq<char>, i: nat)
    requires AllText(t) && i < |t|
    ensures Find(t[i]) < 64 && CharValue(t, i) == Find(t[i])
  {
    CharFind(t[i]);
  }

  lemma GroupsHead(t: seq<char>, i: nat)
    requires |t| >= 4 && i < 3
    ensures i < |Groups(t)| && Groups(t)[i] == Triple(Find(t[0]), Find(t[1]), Find(t[2]), Find(t[3]))[i]
  {
  }

  lemma FullGroupBack(t: seq<char>, i: nat)
    requires |t| >= 4 && AllText(t) && i < 3
    ensures i < |Groups(t)| && Groups(t)[i] == DigitOf(TextValue(t, 0), i)
  {
    TextSextet(t, 0);
    TextSextet(t, 1);
    TextSextet(t, 2);
    TextSextet(t, 3);
    GroupsHead(t, i);
    TripleDigits(Find(t[0]), Find(t[1]), Find(t[2]), Find(t[3]), i);
  }

  lemma ShortDigits(p: Sextet, q: Sextet, r: Sextet)
    ensures Byte0(p, q) == DigitOf(0x4_0000 * p + 0x1000 * q, 0)
    ensures Byte0(p, q) == DigitOf(0x4_0000 * p + 0x1000 * q + 0x40 * r, 0)
    ensures Byte1(q, r) == DigitOf(0x4_0000 * p + 0x1000 * q + 0x40 * r, 1)
  {
    TripleValue(p, q, r, 0);
    TripleValue(p, q, 0, 0);
    Digits(Byte0(p, q), Byte1(q, r), Byte2(r, 0), 0);
    Digits(Byte0(p, q), Byte1(q, r), Byte2(r, 0), 1);
    Digits(Byte0(p, q), Byte1(q, 0), Byte2(0, 0), 0);
  }

  lemma LastGroupBack(t: seq<char>, i: nat)
    requires 2 <= |t| < 4 && AllText(t) && i < |t| - 1
    ensures |Groups(t)| == |t| - 1 && Groups(t)[i] == DigitOf(TextValue(t, 0), i)
  {
    CharFind(t[0]);
    CharFind(t[1]);
    if |t| == 3 {
      CharFind(t[2]);
      ShortDigits(Find(t[0]), Find(t[1]), Find(t[2]));
    } else {
      ShortDigits(Find(t[0]), Find(t[1]), 0);
    }
  }

  lemma {:induction false} GroupsCount(t: seq<char>)
    ensures |Groups(t)| == ByteCount(|t|)
    decreases |t|
  {
    if |t| >= 4 {
      GroupsCount(t[4..]);
    }
  }

  /** What a text decodes to, for every text of the alphabet: as many bytes as its bits fill,
      and byte i of group g is the i-th digit, to base 256, of the number of the group. */
  lemma {:induction false} DecodedNumbers(t: seq<char>, g: nat, i: nat)
    requires AllText(t) && i < 3 && 3 * g + i < ByteCount(|t|)
    ensures |Groups(t)| == ByteCount(|t|) && Groups(t)[3 * g + i] == DigitOf(TextValue(t, g), i)
    decreases |t|
  {
    GroupsCount(t);
    if |t| >= 4 {
      if g == 0 {
        FullGroupBack(t, i);
      } else {
        DecodedNumbers(t[4..], g - 1, i);
        LaterText(t, g);
        var head := Triple(Find(t[0]), Find(t[1]), Find(t[2]), Find(t[3]));
        assert (head + Groups(t[4..]))[3 * g + i] == Groups(t[4..])[3 * (g - 1) + i];
      }
    } else {
      LastGroupBack(t, i);
    }
  }

  lemma LaterText(t: seq<char>, g: nat)
    requires |t| >= 4 && g > 0
    ensures TextValue(t, g) == TextValue(t[4..], g - 1)
  {
    assert forall i: nat :: CharValue(t, 4 + i) == CharValue(t[4..], i);
  }
}
