/** `Date`: a 64-bit number of milliseconds, eight bytes big-endian. */
module Dates {
  import opened Bytes

  function Pow256(n: nat): (p: nat)
    ensures p > 0
  {
    if n == 0 then 1 else 256 * Pow256(n - 1)
  }

  type Date = x: nat | x < 0x1_0000_0000_0000_0000

  /** The number of a big-endian byte string. */
  function OfBytes(b: seq<byte>): nat {
    if b == [] then 0 else OfBytes(b[..|b| - 1]) * 256 + b[|b| - 1] as int
  }

  /** The n low bytes of v, most significant first. */
  function ToBytes(v: nat, n: nat): (b: seq<byte>)
    ensures |b| == n
    decreases n
  {
    if n == 0 then [] else ToBytes(v / 256, n - 1) + [v % 256]
  }

  lemma {:induction false} OfToBytes(v: nat, n: nat)
    requires v < Pow256(n)
    ensures OfBytes(ToBytes(v, n)) == v
    decreases n
  {
    if n > 0 {
      OfToBytes(v / 256, n - 1);
      assert ToBytes(v, n)[..n - 1] == ToBytes(v / 256, n - 1);
    }
  }

  lemma {:induction false} ToOfBytes(b: seq<byte>)
    ensures ToBytes(OfBytes(b), |b|) == b && OfBytes(b) < Pow256(|b|)
  {
    if b != [] {
      ToOfBytes(b[..|b| - 1]);
    }
  }

  lemma Pow8()
    ensures Pow256(8) == 0x1_0000_0000_0000_0000
  {
    assert Pow256(2) == 0x1_0000;
    assert Pow256(4) == 0x1_0000_0000;
    assert Pow256(6) == 0x1_0000_0000_0000;
  }

  /** `Date::serialize`. */
  function DateBytes(d: Date): (b: seq<byte>)
    ensures |b| == 8
  {
    ToBytes(d, 8)
  }

  /** The parsing constructor: the date and the input behind it. */
  function ReadDate(b: seq<byte>): Result<(Date, seq<byte>)> {
    if |b| < 8 then Err(Malformed)
    else
      ToOfBytes(b[..8]);
      Pow8();
      Ok((OfBytes(b[..8]), b[8..]))
  }

  lemma DateRoundTrip(d: Date, rest: seq<byte>)
    ensures ReadDate(DateBytes(d) + rest) == Ok((d, rest))
  {
    Pow8();
    OfToBytes(d, 8);
    DropPrefix(DateBytes(d), rest);
  }

  /** Every eight bytes are a date that is written back as it was. */
  lemma DateCanonical(b: seq<byte>)
    requires |b| >= 8
    ensures ReadDate(b).Ok? && DateBytes(ReadDate(b).value.0) + ReadDate(b).value.1 == b
  {
    ToOfBytes(b[..8]);
    assert b[..8] + b[8..] == b;
  }

  lemma FourBytes(b: seq<byte>)
    requires |b| >= 4
    ensures OfBytes(b[..4])
         == 0x100_0000 * b[0] as int + 0x1_0000 * b[1] as int + 0x100 * b[2] as int + b[3] as int
  {
    OfBytesNext(b, 0);
    OfBytesNext(b, 1);
    OfBytesNext(b, 2);
    OfBytesNext(b, 3);
    assert b[..0] == [];
  }

  /** The number, byte by byte, the most significant first; fewer than eight bytes are refused. */
  lemma DateIsBigEndian(b: seq<byte>)
    ensures ReadDate(b).Ok? <==> |b| >= 8
    ensures |b| >= 8 ==> ReadDate(b).value.1 == b[8..]
    ensures |b| >= 8 ==>
      var high := 0x100_0000 * b[0] as int + 0x1_0000 * b[1] as int + 0x100 * b[2] as int + b[3] as int;
      var low := 0x100_0000 * b[4] as int + 0x1_0000 * b[5] as int + 0x100 * b[6] as int + b[7] as int;
      ReadDate(b).value.0 == 0x1_0000_0000 * high + low
  {
    if |b| >= 8 {
      FourBytes(b);
      OfBytesNext(b, 4);
      OfBytesNext(b, 5);
      OfBytesNext(b, 6);
      OfBytesNext(b, 7);
    }
  }

  lemma OfBytesNext(b: seq<byte>, i: nat)
    requires i < |b|
    ensures OfBytes(b[..i + 1]) == OfBytes(b[..i]) * 256 + b[i] as int
  {
    assert b[..i + 1][..i] == b[..i];
  }

  method ParseDate(b: seq<byte>) returns (r: Result<(Date, seq<byte>)>)
    ensures r == ReadDate(b)
  {
    if |b| < 8 {
      return Err(Malformed);
    }
    var value := 0;
    Pow8();
    for i := 0 to 8
      invariant value == OfBytes(b[..i])
    {
      OfBytesNext(b, i);
      value := value * 256 + b[i] as int;
    }
    ToOfBytes(b[..8]);
    r := Ok((value, b[8..]));
  }

  /** v >> 8 * k */
  function ShiftRight(v: nat, k: nat): nat {
    if k == 0 then v else ShiftRight(v, k - 1) / 256
  }

  method SerializeDate(d: Date) returns (b: seq<byte>)
    ensures b == DateBytes(d)
  {
    b := [];
    var i := 8;
    while i > 0
      invariant 0 <= i <= 8 && b == ToBytes(ShiftRight(d, i), 8 - i)
    {
      b := b + [ShiftRight(d, i - 1) % 256];
      i := i - 1;
    }
  }
}
