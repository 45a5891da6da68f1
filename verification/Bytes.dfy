/** Machine integers and the big-endian words of the wire formats.

    Words are subset types of `int`; a shift by k is a division or a
    multiplication by 2^k, a mask of the low k bits is a remainder modulo 2^k.
 */
module Bytes {
  type byte = x: int | 0 <= x < 0x100
  type uint16 = x: int | 0 <= x < 0x1_0000

  /** A 32-bit word by its bytes, most significant first.  Message and tunnel ids
      are only compared, copied and shifted out byte by byte. */
  datatype uint32 = Word(b3: byte, b2: byte, b1: byte, b0: byte)

  datatype Option<+T> = None | Some(value: T)

  /** Why an operation gave up.  `Overrun` stands for a read past the end of the
      input that the C++ code does not check for. */
  datatype Error = Overrun | Malformed | TooLarge | Unsupported | Duplicate

  datatype Result<+T> = Ok(value: T) | Err(error: Error)

  /** The value `parseUint16` reads. */
  function GetU16(b: seq<byte>): uint16
    requires |b| >= 2
  {
    b[0] as int * 0x100 + b[1] as int
  }

  /** The value `parseUint32` reads. */
  function GetU32(b: seq<byte>): uint32
    requires |b| >= 4
  {
    Word(b[0], b[1], b[2], b[3])
  }

  function PutU16(x: uint16): (b: seq<byte>)
    ensures |b| == 2 && GetU16(b) == x
  {
    [x / 0x100, x % 0x100]
  }

  function PutU32(x: uint32): (b: seq<byte>)
    ensures |b| == 4 && GetU32(b) == x
  {
    [x.b3, x.b2, x.b1, x.b0]
  }

  /** The number a word stands for. */
  function Number(x: uint32): nat {
    0x100_0000 * x.b3 as int + 0x1_0000 * x.b2 as int + 0x100 * x.b1 as int + x.b0 as int
  }

  /** Both words are big-endian. */
  lemma BigEndian(b: seq<byte>)
    requires |b| >= 4
    ensures GetU16(b) == 0x100 * b[0] as int + b[1] as int
    ensures Number(GetU32(b))
         == 0x100_0000 * b[0] as int + 0x1_0000 * b[1] as int + 0x100 * b[2] as int + b[3] as int
  {
  }

  function Min(a: int, b: int): int {
    if a <= b then a else b
  }

  lemma Assoc<T>(a: seq<T>, b: seq<T>, c: seq<T>)
    ensures (a + b) + c == a + (b + c)
  {
  }

  lemma DropPrefix<T>(a: seq<T>, b: seq<T>)
    ensures (a + b)[|a|..] == b && (a + b)[..|a|] == a
  {
  }

  lemma TakeMore<T>(s: seq<T>, a: nat, b: nat)
    requires a <= b <= |s|
    ensures s[..a] + s[a..b] == s[..b]
  {
  }

  lemma SplitAt<T>(s: seq<T>, i: nat)
    requires i < |s|
    ensures s == s[..i] + ([s[i]] + s[i + 1..])
  {
  }

  /** `std::copy` into a buffer. */
  method Copy(dst: array<byte>, pos: nat, part: seq<byte>)
    requires pos + |part| <= dst.Length
    modifies dst
    ensures dst[..pos] == old(dst[..pos]) && dst[pos..pos + |part|] == part
    ensures dst[..pos + |part|] == old(dst[..pos]) + part
  {
    for k := 0 to |part|
      invariant dst[..pos] == old(dst[..pos])
      invariant dst[pos..pos + k] == part[..k]
    {
      dst[pos + k] := part[k];
    }
  }

  /** The concatenation of the byte strings of a sequence. */
  function Concat(parts: seq<seq<byte>>): seq<byte> {
    if parts == [] then [] else parts[0] + Concat(parts[1..])
  }

  /** The number whose binary digits, most significant first, are `bits`. */
  function OfBits(bits: seq<bool>): nat {
    if bits == [] then 0
    else 2 * OfBits(bits[..|bits| - 1]) + if bits[|bits| - 1] then 1 else 0
  }

  /** The n low binary digits of x, most significant first (a `std::bitset`). */
  function ToBits(x: nat, n: nat): (bits: seq<bool>)
    ensures |bits| == n
    decreases n, x
  {
    if n == 0 then [] else ToBits(x / 2, n - 1) + [x % 2 == 1]
  }

  function Pow2(k: nat): nat { if k == 0 then 1 else 2 * Pow2(k - 1) }

  lemma {:induction false} BitsRoundTrip(bits: seq<bool>)
    ensures ToBits(OfBits(bits), |bits|) == bits
    ensures OfBits(bits) < Pow2(|bits|)
  {
    if bits != [] {
      BitsRoundTrip(bits[..|bits| - 1]);
    }
  }

  /** A zero bit i set to one adds 2^i. */
  lemma {:induction false} SetBit(bits: seq<bool>, i: nat)
    requires i < |bits| && !bits[|bits| - 1 - i]
    ensures OfBits(bits[|bits| - 1 - i := true]) == OfBits(bits) + Pow2(i)
  {
    var n := |bits| - 1;
    if i > 0 {
      SetBit(bits[..n], i - 1);
      assert bits[n - i := true][..n] == bits[..n][n - i := true];
    } else {
      assert bits[n := true][..n] == bits[..n];
    }
  }

  lemma {:induction false} LeadingBit(more: bool, n: nat)
    ensures OfBits([more] + seq(n, _ => false)) == if more then Pow2(n) else 0
  {
    var bits := [more] + seq(n, _ => false);
    if n > 0 {
      assert bits[..n] == [more] + seq(n - 1, _ => false);
      LeadingBit(more, n - 1);
    }
  }
}
