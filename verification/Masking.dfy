/** WebSocket payload masking (section 5.3 of RFC 6455): byte by byte, word by word, and
    in chunks with a key that is rotated along, on a little-endian machine with words of
    eight bytes. */
module Masking {
  // ------------------------------------------------------------ words in memory

  /** Byte i of a word in memory. */
  function ByteOf(w: bv64, i: nat): bv8
    requires i < 8
  {
    match i
    case 0 => (w & 0xFF) as bv8
    case 1 => ((w >> 8) & 0xFF) as bv8
    case 2 => ((w >> 16) & 0xFF) as bv8
    case 3 => ((w >> 24) & 0xFF) as bv8
    case 4 => ((w >> 32) & 0xFF) as bv8
    case 5 => ((w >> 40) & 0xFF) as bv8
    case 6 => ((w >> 48) & 0xFF) as bv8
    case _ => ((w >> 56) & 0xFF) as bv8
  }

  /** The word read from eight bytes. */
  function Load(b0: bv8, b1: bv8, b2: bv8, b3: bv8, b4: bv8, b5: bv8, b6: bv8, b7: bv8): bv64 {
    (b0 as bv64) | ((b1 as bv64) << 8) | ((b2 as bv64) << 16) | ((b3 as bv64) << 24)
    | ((b4 as bv64) << 32) | ((b5 as bv64) << 40) | ((b6 as bv64) << 48) | ((b7 as bv64) << 56)
  }

  lemma LoadBytes(b0: bv8, b1: bv8, b2: bv8, b3: bv8, b4: bv8, b5: bv8, b6: bv8, b7: bv8)
    ensures var w := Load(b0, b1, b2, b3, b4, b5, b6, b7);
      && ByteOf(w, 0) == b0 && ByteOf(w, 1) == b1 && ByteOf(w, 2) == b2 && ByteOf(w, 3) == b3
      && ByteOf(w, 4) == b4 && ByteOf(w, 5) == b5 && ByteOf(w, 6) == b6 && ByteOf(w, 7) == b7
  {
  }

  function Xor(a: bv8, b: bv8): bv8 { a ^ b }

  /** Exclusive or of words is exclusive or of their bytes. */
  lemma XorBytes(a: bv64, b: bv64)
    ensures
      && ByteOf(a ^ b, 0) == Xor(ByteOf(a, 0), ByteOf(b, 0)) && ByteOf(a ^ b, 1) == Xor(ByteOf(a, 1), ByteOf(b, 1))
      && ByteOf(a ^ b, 2) == Xor(ByteOf(a, 2), ByteOf(b, 2)) && ByteOf(a ^ b, 3) == Xor(ByteOf(a, 3), ByteOf(b, 3))
      && ByteOf(a ^ b, 4) == Xor(ByteOf(a, 4), ByteOf(b, 4)) && ByteOf(a ^ b, 5) == Xor(ByteOf(a, 5), ByteOf(b, 5))
      && ByteOf(a ^ b, 6) == Xor(ByteOf(a, 6), ByteOf(b, 6)) && ByteOf(a ^ b, 7) == Xor(ByteOf(a, 7), ByteOf(b, 7))
  {
  }

  // ---------------------------------------------------------------------- keys

  /** `key.c[i]` */
  function KeyByte(key: bv32, i: nat): bv8
    requires i < 4
  {
    match i
    case 0 => (key & 0xFF) as bv8
    case 1 => ((key >> 8) & 0xFF) as bv8
    case 2 => ((key >> 16) & 0xFF) as bv8
    case _ => ((key >> 24) & 0xFF) as bv8
  }

  /** `prepare_masking_key`: the key twice. */
  function Prepared(key: bv32): bv64 {
    ((key as bv64) << 32) | (key as bv64)
  }

  lemma PreparedBytes(key: bv32)
    ensures
      && ByteOf(Prepared(key), 0) == KeyByte(key, 0) && ByteOf(Prepared(key), 1) == KeyByte(key, 1)
      && ByteOf(Prepared(key), 2) == KeyByte(key, 2) && ByteOf(Prepared(key), 3) == KeyByte(key, 3)
      && ByteOf(Prepared(key), 4) == KeyByte(key, 0) && ByteOf(Prepared(key), 5) == KeyByte(key, 1)
      && ByteOf(Prepared(key), 6) == KeyByte(key, 2) && ByteOf(Prepared(key), 7) == KeyByte(key, 3)
  {
  }

  /** `circshift_prepared_key`; a rotation by 0 is taken to be the identity. */
  function Rotated(w: bv64, offset: nat): bv64
    requires offset < 8
  {
    match offset
    case 0 => w
    case 1 => (w >> 8) | (w << 56)
    case 2 => (w >> 16) | (w << 48)
    case 3 => (w >> 24) | (w << 40)
    case 4 => (w >> 32) | (w << 32)
    case 5 => (w >> 40) | (w << 24)
    case 6 => (w >> 48) | (w << 16)
    case _ => (w >> 56) | (w << 8)
  }

  lemma Rotated1(w: bv64)
    ensures var r := Rotated(w, 1);
      && ByteOf(r, 0) == ByteOf(w, 1) && ByteOf(r, 1) == ByteOf(w, 2)
      && ByteOf(r, 2) == ByteOf(w, 3) && ByteOf(r, 3) == ByteOf(w, 4)
      && ByteOf(r, 4) == ByteOf(w, 5) && ByteOf(r, 5) == ByteOf(w, 6)
      && ByteOf(r, 6) == ByteOf(w, 7) && ByteOf(r, 7) == ByteOf(w, 0)
  {
  }

  lemma Rotated2(w: bv64)
    ensures var r := Rotated(w, 2);
      && ByteOf(r, 0) == ByteOf(w, 2) && ByteOf(r, 1) == ByteOf(w, 3)
      && ByteOf(r, 2) == ByteOf(w, 4) && ByteOf(r, 3) == ByteOf(w, 5)
      && ByteOf(r, 4) == ByteOf(w, 6) && ByteOf(r, 5) == ByteOf(w, 7)
      && ByteOf(r, 6) == ByteOf(w, 0) && ByteOf(r, 7) == ByteOf(w, 1)
  {
  }

  lemma Rotated3(w: bv64)
    ensures var r := Rotated(w, 3);
      && ByteOf(r, 0) == ByteOf(w, 3) && ByteOf(r, 1) == ByteOf(w, 4)
      && ByteOf(r, 2) == ByteOf(w, 5) && ByteOf(r, 3) == ByteOf(w, 6)
      && ByteOf(r, 4) == ByteOf(w, 7) && ByteOf(r, 5) == ByteOf(w, 0)
      && ByteOf(r, 6) == ByteOf(w, 1) && ByteOf(r, 7) == ByteOf(w, 2)
  {
  }

  lemma Rotated4(w: bv64)
    ensures var r := Rotated(w, 4);
      && ByteOf(r, 0) == ByteOf(w, 4) && ByteOf(r, 1) == ByteOf(w, 5)
      && ByteOf(r, 2) == ByteOf(w, 6) && ByteOf(r, 3) == ByteOf(w, 7)
      && ByteOf(r, 4) == ByteOf(w, 0) && ByteOf(r, 5) == ByteOf(w, 1)
      && ByteOf(r, 6) == ByteOf(w, 2) && ByteOf(r, 7) == ByteOf(w, 3)
  {
  }

  lemma Rotated5(w: bv64)
    ensures var r := Rotated(w, 5);
      && ByteOf(r, 0) == ByteOf(w, 5) && ByteOf(r, 1) == ByteOf(w, 6)
      && ByteOf(r, 2) == ByteOf(w, 7) && ByteOf(r, 3) == ByteOf(w, 0)
      && ByteOf(r, 4) == ByteOf(w, 1) && ByteOf(r, 5) == ByteOf(w, 2)
      && ByteOf(r, 6) == ByteOf(w, 3) && ByteOf(r, 7) == ByteOf(w, 4)
  {
  }

  lemma Rotated6(w: bv64)
    ensures var r := Rotated(w, 6);
      && ByteOf(r, 0) == ByteOf(w, 6) && ByteOf(r, 1) == ByteOf(w, 7)
      && ByteOf(r, 2) == ByteOf(w, 0) && ByteOf(r, 3) == ByteOf(w, 1)
      && ByteOf(r, 4) == ByteOf(w, 2) && ByteOf(r, 5) == ByteOf(w, 3)
      && ByteOf(r, 6) == ByteOf(w, 4) && ByteOf(r, 7) == ByteOf(w, 5)
  {
  }

  lemma Rotated7(w: bv64)
    ensures var r := Rotated(w, 7);
      && ByteOf(r, 0) == ByteOf(w, 7) && ByteOf(r, 1) == ByteOf(w, 0)
      && ByteOf(r, 2) == ByteOf(w, 1) && ByteOf(r, 3) == ByteOf(w, 2)
      && ByteOf(r, 4) == ByteOf(w, 3) && ByteOf(r, 5) == ByteOf(w, 4)
      && ByteOf(r, 6) == ByteOf(w, 5) && ByteOf(r, 7) == ByteOf(w, 6)
  {
  }

  // ------------------------------------------- from bit vectors to byte strings

  /** The bytes of a word in memory; from here on words are only looked at through it. */
  function Mem(w: bv64): (m: seq<bv8>)
    ensures |m| == 8
  {
    [ByteOf(w, 0), ByteOf(w, 1), ByteOf(w, 2), ByteOf(w, 3), ByteOf(w, 4), ByteOf(w, 5), ByteOf(w, 6), ByteOf(w, 7)]
  }

  function KeyBytes(key: bv32): (k: seq<bv8>)
    ensures |k| == 4
  {
    [KeyByte(key, 0), KeyByte(key, 1), KeyByte(key, 2), KeyByte(key, 3)]
  }

  predicate IsXor(x: seq<bv8>, a: seq<bv8>, b: seq<bv8>) {
    |x| == |a| == |b| && forall i :: 0 <= i < |x| ==> x[i] == Xor(a[i], b[i])
  }

  /** Eight positions one by one are all positions of a word. */
  lemma ForEight(p: nat -> bool)
    requires p(0) && p(1) && p(2) && p(3) && p(4) && p(5) && p(6) && p(7)
    ensures forall i: nat :: i < 8 ==> p(i)
  {
  }

  lemma EightXor(x: seq<bv8>, a: seq<bv8>, b: seq<bv8>)
    requires |x| == 8 && |a| == 8 && |b| == 8
    requires
      && x[0] == Xor(a[0], b[0]) && x[1] == Xor(a[1], b[1]) && x[2] == Xor(a[2], b[2]) && x[3] == Xor(a[3], b[3])
      && x[4] == Xor(a[4], b[4]) && x[5] == Xor(a[5], b[5]) && x[6] == Xor(a[6], b[6]) && x[7] == Xor(a[7], b[7])
    ensures IsXor(x, a, b)
  {
    var p := (i: nat) => i < 8 && x[i] == Xor(a[i], b[i]);
    ForEight(p);
    assert forall i: nat :: i < 8 ==> p(i) ==> x[i] == Xor(a[i], b[i]);
  }

  lemma XorMem(a: bv64, b: bv64)
    ensures IsXor(Mem(a ^ b), Mem(a), Mem(b))
  {
    XorBytes(a, b);
    EightXor(Mem(a ^ b), Mem(a), Mem(b));
  }

  lemma LoadMem(s: seq<bv8>)
    requires |s| == 8
    ensures Mem(Load(s[0], s[1], s[2], s[3], s[4], s[5], s[6], s[7])) == s
  {
    LoadBytes(s[0], s[1], s[2], s[3], s[4], s[5], s[6], s[7]);
  }

  /** m is the key, from byte `offset` on and over again. */
  predicate Cyclic(m: seq<bv8>, k: seq<bv8>, offset: nat) {
    |k| == 4 && forall i :: 0 <= i < |m| ==> m[i] == k[(offset + i) % 4]
  }

  lemma PreparedMem(key: bv32)
    ensures Cyclic(Mem(Prepared(key)), KeyBytes(key), 0)
  {
    PreparedBytes(key);
    EightCyclic(Mem(Prepared(key)), KeyBytes(key));
  }

  lemma EightCyclic(m: seq<bv8>, k: seq<bv8>)
    requires |m| == 8 && |k| == 4
    requires
      && m[0] == k[0] && m[1] == k[1] && m[2] == k[2] && m[3] == k[3]
      && m[4] == k[0] && m[5] == k[1] && m[6] == k[2] && m[7] == k[3]
    ensures Cyclic(m, k, 0)
  {
  }

  /** Sequences of eight, one rotated against the other. */
  predicate Turned(r: seq<bv8>, m: seq<bv8>, offset: nat) {
    |r| == |m| == 8 && offset < 8 && forall i :: 0 <= i < 8 ==> r[i] == m[(i + offset) % 8]
  }

  lemma EightTurned(r: seq<bv8>, m: seq<bv8>, offset: nat)
    requires |r| == |m| == 8 && offset < 8
    requires
      && r[0] == m[offset] && r[1] == m[(1 + offset) % 8] && r[2] == m[(2 + offset) % 8] && r[3] == m[(3 + offset) % 8]
      && r[4] == m[(4 + offset) % 8] && r[5] == m[(5 + offset) % 8]
      && r[6] == m[(6 + offset) % 8] && r[7] == m[(7 + offset) % 8]
    ensures Turned(r, m, offset)
  {
    var p := (i: nat) => i < 8 && r[i] == m[(i + offset) % 8];
    ForEight(p);
    assert forall i: nat :: i < 8 ==> p(i) ==> r[i] == m[(i + offset) % 8];
  }

  lemma Turned0(m: seq<bv8>)
    requires |m| == 8
    ensures Turned(m, m, 0)
  {
  }

  lemma Turned1(w: bv64, r: seq<bv8>, m: seq<bv8>)
    requires r == Mem(Rotated(w, 1)) && m == Mem(w)
    ensures Turned(r, m, 1)
  {
    Rotated1(w);
    EightTurned(r, m, 1);
  }

  lemma Turned2(w: bv64, r: seq<bv8>, m: seq<bv8>)
    requires r == Mem(Rotated(w, 2)) && m == Mem(w)
    ensures Turned(r, m, 2)
  {
    Rotated2(w);
    EightTurned(r, m, 2);
  }

  lemma Turned3(w: bv64, r: seq<bv8>, m: seq<bv8>)
    requires r == Mem(Rotated(w, 3)) && m == Mem(w)
    ensures Turned(r, m, 3)
  {
    Rotated3(w);
    EightTurned(r, m, 3);
  }

  lemma Turned4(w: bv64, r: seq<bv8>, m: seq<bv8>)
    requires r == Mem(Rotated(w, 4)) && m == Mem(w)
    ensures Turned(r, m, 4)
  {
    Rotated4(w);
    EightTurned(r, m, 4);
  }

  lemma Turned5(w: bv64, r: seq<bv8>, m: seq<bv8>)
    requires r == Mem(Rotated(w, 5)) && m == Mem(w)
    ensures Turned(r, m, 5)
  {
    Rotated5(w);
    EightTurned(r, m, 5);
  }

  lemma Turned6(w: bv64, r: seq<bv8>, m: seq<bv8>)
    requires r == Mem(Rotated(w, 6)) && m == Mem(w)
    ensures Turned(r, m, 6)
  {
    Rotated6(w);
    EightTurned(r, m, 6);
  }

  lemma Turned7(w: bv64, r: seq<bv8>, m: seq<bv8>)
    requires r == Mem(Rotated(w, 7)) && m == Mem(w)
    ensures Turned(r, m, 7)
  {
    Rotated7(w);
    EightTurned(r, m, 7);
  }

  /** Rotating a word rotates its bytes. */
  lemma RotatedMem(w: bv64, offset: nat)
    requires offset < 8
    ensures Turned(Mem(Rotated(w, offset)), Mem(w), offset)
  {
    var r, m := Mem(Rotated(w, offset)), Mem(w);
    if offset == 0 { Turned0(m); }
    else if offset == 1 { Turned1(w, r, m); }
    else if offset == 2 { Turned2(w, r, m); }
    else if offset == 3 { Turned3(w, r, m); }
    else if offset == 4 { Turned4(w, r, m); }
    else if offset == 5 { Turned5(w, r, m); }
    else if offset == 6 { Turned6(w, r, m); }
    else { Turned7(w, r, m); }
  }

  /** `key.i = prepared_key` keeps the low four bytes. */
  function Low(w: bv64): bv32 {
    (w & 0xFFFF_FFFF) as bv32
  }

  lemma LowBytes(w: bv64)
    ensures KeyByte(Low(w), 0) == ByteOf(w, 0) && KeyByte(Low(w), 1) == ByteOf(w, 1)
    ensures KeyByte(Low(w), 2) == ByteOf(w, 2) && KeyByte(Low(w), 3) == ByteOf(w, 3)
  {
  }

  lemma LowMem(w: bv64)
    ensures KeyBytes(Low(w)) == Mem(w)[..4]
  {
    LowBytes(w);
  }

  // ------------------------------------------------------------------ masking

  /** Masking as section 5.3 of RFC 6455 defines it, from byte `offset` of the key on. */
  function Masked(s: seq<bv8>, k: seq<bv8>, offset: nat): (r: seq<bv8>)
    requires |k| == 4
    ensures |r| == |s| && forall i :: 0 <= i < |s| ==> r[i] == Xor(s[i], k[(offset + i) % 4])
  {
    seq(|s|, i requires 0 <= i < |s| => Xor(s[i], k[(offset + i) % 4]))
  }

  /** Masking with the bytes of m over and over. */
  function Cycled(s: seq<bv8>, m: seq<bv8>): (r: seq<bv8>)
    requires |m| > 0
    ensures |r| == |s| && forall i :: 0 <= i < |s| ==> r[i] == Xor(s[i], m[i % |m|])
  {
    seq(|s|, i requires 0 <= i < |s| => Xor(s[i], m[i % |m|]))
  }

  /** `byte_mask`; input and output may be the same buffer. */
  method ByteMask(input: array<bv8>, output: array<bv8>, length: nat, key: bv32, offset: nat)
    requires length <= input.Length && length <= output.Length
    modifies output
    ensures output[..length] == Masked(old(input[..length]), KeyBytes(key), offset)
    ensures output[length..] == old(output[length..])
  {
    var k := KeyBytes(key);
    var index := offset % 4;
    for i := 0 to length
      invariant index == (offset + i) % 4
      invariant forall j :: 0 <= j < i ==> output[j] == Xor(old(input[j]), k[(offset + j) % 4])
      invariant forall j :: i <= j < input.Length ==> input[j] == old(input[j])
      invariant forall j :: i <= j < output.Length ==> output[j] == old(output[j])
    {
      output[i] := Xor(input[i], k[index]);
      index := (index + 1) % 4;
    }
  }

  method LoadWord(input: array<bv8>, pos: nat) returns (w: bv64)
    requires pos + 8 <= input.Length
    ensures Mem(w) == input[pos..pos + 8]
  {
    LoadMem(input[pos..pos + 8]);
    w := Load(input[pos], input[pos + 1], input[pos + 2], input[pos + 3],
              input[pos + 4], input[pos + 5], input[pos + 6], input[pos + 7]);
  }

  method StoreWord(output: array<bv8>, pos: nat, w: bv64)
    requires pos + 8 <= output.Length
    modifies output
    ensures forall j :: 0 <= j < output.Length ==>
              output[j] == if pos <= j < pos + 8 then Mem(w)[j - pos] else old(output[j])
  {
    var m := Mem(w);
    for i := 0 to 8
      invariant forall j :: 0 <= j < output.Length ==>
                  output[j] == if pos <= j < pos + i then m[j - pos] else old(output[j])
    {
      output[pos + i] := m[i];
    }
  }

  method MaskWord(input: array<bv8>, output: array<bv8>, pos: nat, w: bv64)
    requires pos + 8 <= input.Length && pos + 8 <= output.Length
    modifies output
    ensures forall j :: 0 <= j < output.Length ==>
              output[j] == if pos <= j < pos + 8 then Xor(old(input[j]), Mem(w)[j - pos]) else old(output[j])
  {
    ghost var s := input[pos..pos + 8];
    var x := LoadWord(input, pos);
    XorMem(x, w);
    assert forall j :: pos <= j < pos + 8 ==> s[j - pos] == input[j];
    StoreWord(output, pos, x ^ w);
  }

  /** The loop over whole words. */
  method MaskWords(input: array<bv8>, output: array<bv8>, n: nat, w: bv64)
    requires 8 * n <= input.Length && 8 * n <= output.Length
    modifies output
    ensures forall j :: 0 <= j < 8 * n ==> output[j] == Xor(old(input[j]), Mem(w)[j % 8])
    ensures forall j :: 8 * n <= j < input.Length ==> input[j] == old(input[j])
    ensures forall j :: 8 * n <= j < output.Length ==> output[j] == old(output[j])
  {
    var i := 0;
    ghost var m := Mem(w);
    while i < n
      invariant 0 <= i <= n
      invariant forall j :: 0 <= j < 8 * i ==> output[j] == Xor(old(input[j]), m[j % 8])
      invariant forall j :: 8 * i <= j < input.Length ==> input[j] == old(input[j])
      invariant forall j :: 8 * i <= j < output.Length ==> output[j] == old(output[j])
    {
      assert forall j :: 8 * i <= j < 8 * i + 8 ==> j % 8 == j - 8 * i;
      MaskWord(input, output, 8 * i, w);
      i := i + 1;
    }
  }

  /** The loop over the bytes behind them. */
  method MaskRest(input: array<bv8>, output: array<bv8>, start: nat, length: nat, k: seq<bv8>)
    requires start <= length <= input.Length && length <= output.Length && |k| > 0
    modifies output
    ensures forall j :: start <= j < length ==> output[j] == Xor(old(input[j]), k[j % |k|])
    ensures forall j :: 0 <= j < output.Length && !(start <= j < length) ==> output[j] == old(output[j])
  {
    for i := start to length
      invariant forall j :: start <= j < i ==> output[j] == Xor(old(input[j]), k[j % |k|])
      invariant forall j :: i <= j < input.Length ==> input[j] == old(input[j])
      invariant forall j :: 0 <= j < output.Length && !(start <= j < i) ==> output[j] == old(output[j])
    {
      output[i] := Xor(input[i], k[i % |k|]);
    }
  }

  /** `word_mask_exact` */
  method WordMaskExact(input: array<bv8>, output: array<bv8>, length: nat, key: bv32)
    requires length <= input.Length && length <= output.Length
    modifies output
    ensures output[..length] == Masked(old(input[..length]), KeyBytes(key), 0)
    ensures output[length..] == old(output[length..])
  {
    var w := Prepared(key);
    PreparedMem(key);
    var n := length / 8;
    MaskWords(input, output, n, w);
    MaskRest(input, output, 8 * n, length, KeyBytes(key));
    ghost var s, m, k := old(input[..length]), Mem(w), KeyBytes(key);
    forall j | 0 <= j < length ensures output[j] == Xor(s[j], k[j % 4]) {
      if j < 8 * n {
        CyclicAt(m, k, 0, j);
      }
    }
  }

  /** `word_mask_circ`: masks with the bytes of the prepared key and returns the key for
      what follows. */
  method WordMaskCirc(input: array<bv8>, output: array<bv8>, length: nat, w: bv64) returns (next: bv64)
    requires length <= input.Length && length <= output.Length
    modifies output
    ensures output[..length] == Cycled(old(input[..length]), Mem(w)) && next == Rotated(w, length % 8)
    ensures output[length..] == old(output[length..])
  {
    var n := length / 8;
    MaskWords(input, output, n, w);
    MaskRest(input, output, 8 * n, length, Mem(w));
    next := Rotated(w, length - 8 * n);
  }

  /** `byte_mask_circ` */
  method ByteMaskCirc(input: array<bv8>, output: array<bv8>, length: nat, w: bv64) returns (next: bv64)
    requires length <= input.Length && length <= output.Length
    modifies output
    ensures output[..length] == Cycled(old(input[..length]), Mem(w)[..4]) && next == Rotated(w, length % 4)
    ensures output[length..] == old(output[length..])
  {
    LowMem(w);
    MaskRest(input, output, 0, length, KeyBytes(Low(w)));
    next := Rotated(w, length % 4);
  }

  // --------------------------------------------------------------- refinement

  lemma ModUnique(x: nat, q: nat, r: nat)
    requires x == 4 * q + r && r < 4
    ensures x % 4 == r
  {
  }

  lemma Mod4Plus(x: nat, n: nat)
    ensures (x + 4 * n) % 4 == x % 4
  {
    ModUnique(x + 4 * n, x / 4 + n, x % 4);
  }

  lemma Mod4(a: nat, i: nat)
    ensures (a + i % 8) % 4 == (a + i) % 4 && (a + i % 4) % 4 == (a + i) % 4
  {
    Mod4Plus(a + i % 8, 2 * (i / 8));
    Mod4Plus(a + i % 4, i / 4);
    assert a + i == a + i % 8 + 4 * (2 * (i / 8)) && a + i == a + i % 4 + 4 * (i / 4);
  }

  lemma CyclicAt(m: seq<bv8>, k: seq<bv8>, offset: nat, j: nat)
    requires Cyclic(m, k, offset) && (|m| == 8 || |m| == 4)
    ensures m[j % |m|] == k[(offset + j) % 4]
  {
    Mod4(offset, j);
  }

  lemma CycledIsMasked(s: seq<bv8>, m: seq<bv8>, k: seq<bv8>, offset: nat)
    requires Cyclic(m, k, offset) && (|m| == 8 || |m| == 4)
    ensures Cycled(s, m) == Masked(s, k, offset)
  {
    forall j | 0 <= j < |s| ensures Cycled(s, m)[j] == Masked(s, k, offset)[j] {
      CyclicAt(m, k, offset, j);
    }
  }

  /** Rotating the key by l bytes moves its start by l. */
  lemma CyclicTurned(r: seq<bv8>, m: seq<bv8>, k: seq<bv8>, offset: nat, l: nat)
    requires Cyclic(m, k, offset) && Turned(r, m, l)
    ensures Cyclic(r, k, offset + l)
  {
    forall i | 0 <= i < 8 ensures r[i] == k[(offset + l + i) % 4] {
      CyclicAt(m, k, offset, i + l);
    }
  }

  lemma {:induction false} MaskedFrom(s: seq<bv8>, k: seq<bv8>, a: nat, b: nat)
    requires |k| == 4 && a % 4 == b % 4
    ensures Masked(s, k, a) == Masked(s, k, b)
  {
    forall i | 0 <= i < |s| ensures Masked(s, k, a)[i] == Masked(s, k, b)[i] {
      Mod4(i, a);
      Mod4(i, b);
    }
  }

  lemma MaskedAppend(a: seq<bv8>, b: seq<bv8>, k: seq<bv8>, offset: nat)
    requires |k| == 4
    ensures Masked(a + b, k, offset) == Masked(a, k, offset) + Masked(b, k, offset + |a|)
  {
    var l, r := Masked(a + b, k, offset), Masked(a, k, offset) + Masked(b, k, offset + |a|);
    forall i | 0 <= i < |a| + |b| ensures l[i] == r[i] {
      if i >= |a| {
        assert offset + i == offset + |a| + (i - |a|);
      }
    }
  }

  /** A piece of the payload, masked word by word or byte by byte. */
  datatype Chunk = Chunk(data: seq<bv8>, byWord: bool)

  function Payload(chunks: seq<Chunk>): seq<bv8> {
    if chunks == [] then [] else chunks[0].data + Payload(chunks[1..])
  }

  /** One call of `word_mask_circ` or `byte_mask_circ`: the bytes and the next key. */
  function MaskChunk(c: Chunk, w: bv64): seq<bv8> {
    if c.byWord then Cycled(c.data, Mem(w)) else Cycled(c.data, Mem(w)[..4])
  }

  function NextKey(c: Chunk, w: bv64): bv64 {
    if c.byWord then Rotated(w, |c.data| % 8) else Rotated(w, |c.data| % 4)
  }

  function MaskChunks(chunks: seq<Chunk>, w: bv64): seq<bv8>
    decreases chunks
  {
    if chunks == [] then [] else MaskChunk(chunks[0], w) + MaskChunks(chunks[1..], NextKey(chunks[0], w))
  }

  // The same with the key as the eight bytes it has in memory.

  function Turn(m: seq<bv8>, l: nat): (r: seq<bv8>)
    requires |m| == 8 && l < 8
    ensures |r| == 8
  {
    m[l..] + m[..l]
  }

  function Step(c: Chunk): nat {
    if c.byWord then |c.data| % 8 else |c.data| % 4
  }

  function MaskOne(c: Chunk, m: seq<bv8>): seq<bv8>
    requires |m| == 8
  {
    if c.byWord then Cycled(c.data, m) else Cycled(c.data, m[..4])
  }

  function MaskAll(chunks: seq<Chunk>, m: seq<bv8>): seq<bv8>
    requires |m| == 8
    decreases chunks
  {
    if chunks == [] then [] else MaskOne(chunks[0], m) + MaskAll(chunks[1..], Turn(m, Step(chunks[0])))
  }

  lemma TurnedIsTurn(r: seq<bv8>, m: seq<bv8>, l: nat)
    requires Turned(r, m, l)
    ensures r == Turn(m, l)
  {
    forall i | 0 <= i < 8 ensures r[i] == Turn(m, l)[i] {
      assert r[i] == m[(i + l) % 8];
    }
  }

  lemma NextKeyMem(c: Chunk, w: bv64)
    ensures Mem(NextKey(c, w)) == Turn(Mem(w), Step(c))
  {
    RotatedMem(w, Step(c));
    TurnedIsTurn(Mem(Rotated(w, Step(c))), Mem(w), Step(c));
  }

  lemma {:induction false} ThroughMemory(chunks: seq<Chunk>, w: bv64, m: seq<bv8>)
    requires m == Mem(w)
    ensures MaskChunks(chunks, w) == MaskAll(chunks, m)
    decreases chunks
  {
    if chunks != [] {
      NextKeyMem(chunks[0], w);
      ThroughMemory(chunks[1..], NextKey(chunks[0], w), Turn(m, Step(chunks[0])));
    }
  }

  lemma TurnTurned(m: seq<bv8>, l: nat)
    requires |m| == 8 && l < 8
    ensures Turned(Turn(m, l), m, l)
  {
  }

  lemma OneIsMasked(c: Chunk, m: seq<bv8>, k: seq<bv8>, offset: nat)
    requires |m| == 8 && Cyclic(m, k, offset)
    ensures MaskOne(c, m) == Masked(c.data, k, offset)
  {
    CycledIsMasked(c.data, if c.byWord then m else m[..4], k, offset);
  }

  lemma NextIsCyclic(c: Chunk, m: seq<bv8>, k: seq<bv8>, offset: nat)
    requires |m| == 8 && Cyclic(m, k, offset)
    ensures Cyclic(Turn(m, Step(c)), k, offset + Step(c))
  {
    TurnTurned(m, Step(c));
    CyclicTurned(Turn(m, Step(c)), m, k, offset, Step(c));
  }

  lemma MaskedOn(c: Chunk, rest: seq<bv8>, k: seq<bv8>, offset: nat)
    requires |k| == 4
    ensures Masked(c.data, k, offset) + Masked(rest, k, offset + Step(c)) == Masked(c.data + rest, k, offset)
  {
    Mod4(offset, |c.data|);
    MaskedFrom(rest, k, offset + Step(c), offset + |c.data|);
    MaskedAppend(c.data, rest, k, offset);
  }

  lemma {:induction false} ChunksFrom(chunks: seq<Chunk>, m: seq<bv8>, k: seq<bv8>, offset: nat)
    requires |m| == 8 && Cyclic(m, k, offset)
    ensures MaskAll(chunks, m) == Masked(Payload(chunks), k, offset)
    decreases chunks
  {
    if chunks != [] {
      var c, rest := chunks[0], chunks[1..];
      OneIsMasked(c, m, k, offset);
      NextIsCyclic(c, m, k, offset);
      ChunksFrom(rest, Turn(m, Step(c)), k, offset + Step(c));
      MaskedOn(c, Payload(rest), k, offset);
    }
  }

  /** Masking refinement: for every split of a payload into chunks, masked word by word
      or byte by byte with the key threaded through, the bytes are those of one
      `byte_mask` over the whole payload. */
  lemma {:induction false} ChunkingIrrelevant(chunks: seq<Chunk>, key: bv32)
    ensures MaskChunks(chunks, Prepared(key)) == Masked(Payload(chunks), KeyBytes(key), 0)
  {
    PreparedMem(key);
    ThroughMemory(chunks, Prepared(key), Mem(Prepared(key)));
    ChunksFrom(chunks, Mem(Prepared(key)), KeyBytes(key), 0);
  }

  lemma XorTwice(a: bv8, b: bv8)
    ensures Xor(Xor(a, b), b) == a
  {
  }

  /** Masking twice is the identity. */
  lemma {:induction false} MaskTwice(s: seq<bv8>, k: seq<bv8>, offset: nat)
    requires |k| == 4
    ensures Masked(Masked(s, k, offset), k, offset) == s
  {
    forall i | 0 <= i < |s| ensures Masked(Masked(s, k, offset), k, offset)[i] == s[i] {
      XorTwice(s[i], k[(offset + i) % 4]);
    }
  }
}
