/** Tunnel messages: `Message`.  A message of 1008 bytes holds a checksum, random
    padding without zeros, a zero and the compiled fragments. */
module TunnelMessages {
  import opened Bytes
  import opened BuildRecords
  import opened Lists
  import opened TunnelFragments

  /** SHA-256. */
  type Sha = seq<byte> -> Bytes32

  function Compiled(fs: seq<Fragment>): seq<byte> {
    PrintMany(FragmentBytes, fs)
  }

  predicate Supported(fs: seq<Fragment>) {
    forall i :: 0 <= i < |fs| ==> HeaderSize(fs[i]).Ok?
  }

  /** A 16-bit sum. */
  function Wrap(x: nat): uint16 { x % 0x1_0000 }

  lemma WrapAdd(a: nat, b: nat)
    ensures Wrap(Wrap(a) + b) == Wrap(a + b)
  {
  }

  /** `size()` of a fragment, before it is cut to 16 bits. */
  function Size(f: Fragment): nat
    requires HeaderSize(f).Ok?
  {
    HeaderSize(f).value + |f.payload|
  }

  function Checksum(sha: Sha, iv: seq<byte>, body: seq<byte>): (r: seq<byte>)
    ensures |r| == 4
  {
    sha(body + iv)[..4]
  }

  function NonZero(b: byte): byte {
    if b == 0 then 0xff else b
  }

  /** The random padding once its zeros are replaced. */
  function Padding(noise: seq<byte>): (r: seq<byte>)
    ensures |r| == |noise| && forall i :: 0 <= i < |r| ==> r[i] == NonZero(noise[i])
  {
    seq(|noise|, i requires 0 <= i < |noise| => NonZero(noise[i]))
  }

  function MessageBytes(sha: Sha, iv: seq<byte>, noise: seq<byte>, body: seq<byte>): (r: seq<byte>)
    ensures |r| == 4 + |noise| + 1 + |body|
  {
    Checksum(sha, iv, body) + (Padding(noise) + ([0] + body))
  }

  // --------------------------------------------------------------------- writing

  /** `Message`; the buffer has 1008 bytes. */
  class Message {
    const iv: seq<byte>
    const fragments: seq<Fragment>
    const payloadSize: uint16
    const checksum: seq<byte>
    const encrypted: array<byte>

    constructor (iv: seq<byte>, fragments: seq<Fragment>, payloadSize: uint16, checksum: seq<byte>)
      ensures this.iv == iv && this.fragments == fragments
      ensures this.payloadSize == payloadSize && this.checksum == checksum
      ensures fresh(encrypted) && encrypted.Length == 1008
    {
      this.iv, this.fragments, this.payloadSize, this.checksum := iv, fragments, payloadSize, checksum;
      encrypted := new byte[1008](_ => 0);
    }

    /** `compile`: writes exactly the 1008 bytes of the buffer.  False where the code would
        write past its end, because the sum of the sizes had wrapped around. */
    method Compile(noise: seq<byte>) returns (ok: bool)
      requires encrypted.Length == 1008 && |checksum| == 4
      requires payloadSize as int == Wrap(|Compiled(fragments)|) <= 1003 && |noise| == 1003 - payloadSize
      modifies encrypted
      ensures ok <==> |Compiled(fragments)| == payloadSize
      ensures ok ==> encrypted[..] == checksum + (Padding(noise) + ([0] + Compiled(fragments)))
    {
      var pos := WriteHead(encrypted, checksum, noise);
      ok := WriteFragments(encrypted, pos, fragments);
      if ok {
        assert encrypted[..] == encrypted[..1008];
        Assoc(checksum, Padding(noise) + [0], Compiled(fragments));
        Assoc(Padding(noise), [0], Compiled(fragments));
      }
    }
  }

  /** The constructor of `Message`: the sum of the sizes is kept in 16 bits. */
  method NewMessage(sha: Sha, iv: seq<byte>, fs: seq<Fragment>) returns (r: Result<Message>)
    ensures !Supported(fs) ==> r == Err(Unsupported)
    ensures Supported(fs) ==> if Wrap(|Compiled(fs)|) > 1003 then r == Err(TooLarge) else r.Ok?
    ensures r.Ok? ==> fresh(r.value) && fresh(r.value.encrypted) && r.value.encrypted.Length == 1008
    ensures r.Ok? ==> r.value.iv == iv && r.value.fragments == fs
    ensures r.Ok? ==> r.value.payloadSize == Wrap(|Compiled(fs)|)
    ensures r.Ok? ==> r.value.checksum == Checksum(sha, iv, Compiled(fs))
  {
    for i := 0 to |fs|
      invariant forall j :: 0 <= j < i ==> HeaderSize(fs[j]).Ok?
    {
      if HeaderSize(fs[i]).Err? {
        return Err(Unsupported);
      }
    }
    var size, sum := MeasureAndSum(sha, iv, fs);
    if size > 1003 {
      return Err(TooLarge);
    }
    var m := new Message(iv, fs, size, sum);
    r := Ok(m);
  }

  method CompileFragment(f: Fragment) returns (part: seq<byte>)
    ensures part == FragmentBytes(f) && (HeaderSize(f).Ok? ==> |part| == Size(f))
  {
    if HeaderSize(f).Ok? {
      CompiledSize(f);
    }
    part := FragmentBytes(f);
  }

  /** The sum of the `size()` of the fragments. */
  function TotalSize(fs: seq<Fragment>): nat
    requires Supported(fs)
  {
    if fs == [] then 0 else TotalSize(fs[..|fs| - 1]) + Size(fs[|fs| - 1])
  }

  lemma {:induction false} TotalIsLength(fs: seq<Fragment>)
    requires Supported(fs)
    ensures TotalSize(fs) == |Compiled(fs)|
  {
    if fs != [] {
      var n := |fs| - 1;
      TotalIsLength(fs[..n]);
      PrintNext(FragmentBytes, fs, n);
      assert fs[..n + 1] == fs;
      CompiledSize(fs[n]);
    }
  }

  /** The loop of the constructor. */
  method Measure(fs: seq<Fragment>) returns (size: uint16)
    requires Supported(fs)
    ensures size == Wrap(TotalSize(fs))
  {
    size := 0;
    var i := 0;
    while i < |fs|
      invariant 0 <= i <= |fs| && size == Wrap(TotalSize(fs[..i]))
    {
      assert fs[..i + 1][..i] == fs[..i];
      WrapAdd(TotalSize(fs[..i]), Size(fs[i]));
      size := Wrap(size as int + Size(fs[i]));
      i := i + 1;
    }
    assert fs[..i] == fs;
  }

  /** The constructor and `calculateChecksum`. */
  method MeasureAndSum(sha: Sha, iv: seq<byte>, fs: seq<Fragment>) returns (size: uint16, sum: seq<byte>)
    requires Supported(fs)
    ensures size == Wrap(|Compiled(fs)|) && sum == Checksum(sha, iv, Compiled(fs))
  {
    size := Measure(fs);
    TotalIsLength(fs);
    var body := SerializeMany(FragmentBytes, fs);
    sum := sha(body + iv)[..4];
  }

  method WriteHead(a: array<byte>, checksum: seq<byte>, noise: seq<byte>) returns (pos: nat)
    requires a.Length == 1008 && |checksum| == 4 && |noise| <= 1003
    modifies a
    ensures pos == 5 + |noise| && a[..pos] == checksum + (Padding(noise) + [0])
  {
    Copy(a, 0, checksum);
    pos := WritePadding(a, noise);
    assert a[..pos] == checksum + Padding(noise);
    a[pos] := 0;
    assert a[..pos + 1] == a[..pos] + [0];
    Assoc(checksum, Padding(noise), [0]);
    pos := pos + 1;
  }

  method WritePadding(a: array<byte>, noise: seq<byte>) returns (pos: nat)
    requires a.Length == 1008 && |noise| <= 1003
    modifies a
    ensures pos == 4 + |noise| && a[..pos] == old(a[..4]) + Padding(noise)
  {
    pos := 4;
    while pos < 4 + |noise|
      invariant 4 <= pos <= 4 + |noise| && a[..4] == old(a[..4])
      invariant a[4..pos] == Padding(noise)[..pos - 4]
    {
      a[pos] := NonZero(noise[pos - 4]);
      pos := pos + 1;
    }
    assert a[..pos] == a[..4] + a[4..pos];
  }

  method WriteFragments(a: array<byte>, start: nat, fs: seq<Fragment>) returns (ok: bool)
    requires start <= a.Length
    modifies a
    ensures ok <==> start + |Compiled(fs)| <= a.Length
    ensures ok ==> a[..start + |Compiled(fs)|] == old(a[..start]) + Compiled(fs)
  {
    var pos, rest := start, fs;
    ghost var whole := old(a[..start]) + Compiled(fs);
    while rest != []
      invariant start <= pos <= a.Length && pos + |Compiled(rest)| == start + |Compiled(fs)|
      invariant a[..pos] + Compiled(rest) == whole
    {
      var part := CompileFragment(rest[0]);
      if pos + |part| > a.Length {
        return false;
      }
      pos := Append(a, pos, part, Compiled(rest[1..]));
      rest := rest[1..];
    }
    assert a[..pos] + [] == a[..pos];
    ok := true;
  }

  // --------------------------------------------------------------------- reading

  /** `std::find(…, 0x00)`. */
  function FindZero(b: seq<byte>): (i: nat)
    ensures i <= |b| && (i < |b| ==> b[i] == 0) && forall j :: 0 <= j < i ==> b[j] != 0
  {
    if b == [] || b[0] == 0 then 0
    else
      var i := FindZero(b[1..]);
      assert forall j :: 0 < j < 1 + i ==> b[j] == b[1..][j - 1];
      1 + i
  }

  lemma ReadShrinks(b: seq<byte>)
    requires ReadFragment(b).Ok?
    ensures |ReadFragment(b).value.1| < |b|
  {
  }

  lemma FragmentsShrink()
    ensures Shrinks(ReadFragment)
  {
    forall b: seq<byte> | ReadFragment(b).Ok? ensures |ReadFragment(b).value.1| < |b| {
      ReadShrinks(b);
    }
  }

  /** The loop of `parse`. */
  function ReadFragments(b: seq<byte>): Result<seq<Fragment>> {
    FragmentsShrink();
    match ReadAll(ReadFragment, b) case Err(e) => Err(e) case Ok((fs, _)) => Ok(fs)
  }

  /** What stands behind the first zero, if there is one and the checksum is right. */
  function Body(sha: Sha, iv: seq<byte>, b: seq<byte>): Result<seq<byte>>
    requires |b| == 1008
  {
    var at := FindZero(b[4..]);
    if at == 1004 then Err(Overrun)
    else
      var body := b[4..][at + 1..];
      if Checksum(sha, iv, body) != b[..4] then Err(Malformed) else Ok(body)
  }

  /** `parse`: no zero, a wrong checksum or a broken fragment make it fail. */
  function ReadMessage(sha: Sha, iv: seq<byte>, b: seq<byte>): Result<seq<Fragment>>
    requires |b| == 1008
  {
    match Body(sha, iv, b) case Err(e) => Err(e) case Ok(body) => ReadFragments(body)
  }

  method Find(b: seq<byte>) returns (i: nat)
    ensures i == FindZero(b)
  {
    i := 0;
    while i < |b| && b[i] != 0
      invariant i <= FindZero(b)
    {
      i := i + 1;
    }
  }

  method ParseMessage(sha: Sha, iv: seq<byte>, b: seq<byte>) returns (r: Result<seq<Fragment>>)
    requires |b| == 1008
    ensures r == ReadMessage(sha, iv, b)
  {
    var at := Find(b[4..]);
    if at == 1004 {
      return Err(Overrun);
    }
    var body := b[4..][at + 1..];
    if Checksum(sha, iv, body) != b[..4] {
      return Err(Malformed);
    }
    FragmentsShrink();
    var fragments := ParseAll(ReadFragment, body);
    r := match fragments case Err(e) => Err(e) case Ok((fs, _)) => Ok(fs);
  }

  // ------------------------------------------------------------------ round trip

  lemma FirstZero(pad: seq<byte>, body: seq<byte>)
    requires forall i :: 0 <= i < |pad| ==> pad[i] != 0
    ensures FindZero(pad + ([0] + body)) == |pad|
  {
    var b := pad + ([0] + body);
    assert b[|pad|] == 0;
    assert forall j :: 0 <= j < |pad| ==> b[j] == pad[j];
  }

  lemma BodyBehindZero(pad: seq<byte>, body: seq<byte>)
    ensures (pad + ([0] + body))[|pad| + 1..] == body
  {
    Assoc(pad, [0], body);
    DropPrefix(pad + [0], body);
  }

  /** What reading comes to, given the parts of the message. */
  lemma BodyLaid(sha: Sha, iv: seq<byte>, b: seq<byte>, sum: seq<byte>, pad: seq<byte>, body: seq<byte>)
    requires |b| == 1008 && |sum| == 4 && b == sum + (pad + ([0] + body)) && sum == Checksum(sha, iv, body)
    requires forall i :: 0 <= i < |pad| ==> pad[i] != 0
    ensures FindZero(b[4..]) == |pad| && Body(sha, iv, b) == Ok(body)
  {
    DropPrefix(sum, pad + ([0] + body));
    FirstZero(pad, body);
    BodyBehindZero(pad, body);
  }

  /** The zero in front of the fragments is the first one behind the checksum, and what
      stands behind it passes the checksum. */
  lemma ReadWritten(sha: Sha, iv: seq<byte>, noise: seq<byte>, body: seq<byte>)
    requires |noise| + |body| == 1003
    ensures FindZero(MessageBytes(sha, iv, noise, body)[4..]) == |noise|
    ensures Body(sha, iv, MessageBytes(sha, iv, noise, body)) == Ok(body)
  {
    BodyLaid(sha, iv, MessageBytes(sha, iv, noise, body), Checksum(sha, iv, body), Padding(noise), body);
  }

  /** What a message is, by positions: four bytes of the hash of the body followed by the
      initialization vector, the padding with 255 for its zeros, a zero and the body. */
  lemma MessageLayout(sha: Sha, iv: seq<byte>, noise: seq<byte>, body: seq<byte>)
    ensures var m, n := MessageBytes(sha, iv, noise, body), |noise|;
      && m[..4] == sha(body + iv)[..4] && m[4 + n] == 0 && m[5 + n..] == body
      && forall i :: 0 <= i < n ==> m[4 + i] == if noise[i] == 0 then 255 else noise[i]
  {
    var sum, pad := Checksum(sha, iv, body), Padding(noise);
    DropPrefix(sum, pad + ([0] + body));
    BodyBehindZero(pad, body);
    assert MessageBytes(sha, iv, noise, body)[4..][|noise| + 1..] == MessageBytes(sha, iv, noise, body)[5 + |noise|..];
  }

  predicate NoZero(pad: seq<byte>) {
    forall i :: 0 <= i < |pad| ==> pad[i] != 0
  }

  /** Any 1008 bytes are taken for a message with this body iff they are laid out as one: the
      hash of body and initialization vector, padding without zeros, a zero, the body. */
  lemma BodyExact(sha: Sha, iv: seq<byte>, b: seq<byte>, body: seq<byte>)
    requires |b| == 1008
    ensures Body(sha, iv, b) == Ok(body)
       <==> exists pad :: NoZero(pad) && b == sha(body + iv)[..4] + (pad + ([0] + body))
  {
    if Body(sha, iv, b) == Ok(body) {
      var rest := b[4..];
      var at := FindZero(rest);
      var pad := rest[..at];
      assert rest == pad + ([0] + rest[at + 1..]);
      assert b == b[..4] + rest;
      assert NoZero(pad) && b == sha(body + iv)[..4] + (pad + ([0] + body));
    }
    if exists pad :: NoZero(pad) && b == sha(body + iv)[..4] + (pad + ([0] + body)) {
      var pad :| NoZero(pad) && b == sha(body + iv)[..4] + (pad + ([0] + body));
      BodyLaid(sha, iv, b, sha(body + iv)[..4], pad, body);
    }
  }

  predicate AllReadable(fs: seq<Fragment>) {
    forall i :: 0 <= i < |fs| ==> Readable(fs[i])
  }

  predicate AllEncodable(fs: seq<Fragment>) {
    forall i :: 0 <= i < |fs| ==> Encodable(fs[i])
  }

  lemma ReadableInverse(fs: seq<Fragment>)
    requires AllReadable(fs) && AllEncodable(fs)
    ensures Inverse(ReadFragment, FragmentBytes, fs)
  {
    forall i, r: seq<byte> | 0 <= i < |fs| ensures ReadFragment(FragmentBytes(fs[i]) + r) == Ok((fs[i], r)) {
      CodecExact(fs[i], r);
    }
  }

  lemma ReadableRoundTrip(fs: seq<Fragment>)
    requires AllReadable(fs) && AllEncodable(fs)
    ensures ReadFragments(Compiled(fs)) == Ok(fs)
  {
    FragmentsShrink();
    ReadableInverse(fs);
    AllRoundTrip(ReadFragment, FragmentBytes, fs);
  }

  function FirstLocal(fs: seq<Fragment>): (i: nat)
    requires Supported(fs) && !AllReadable(fs)
    ensures i < |fs| && AllReadable(fs[..i]) && fs[i].First? && fs[i].delivery.Local?
  {
    if !Readable(fs[0]) then 0
    else
      assert forall k :: 0 <= k < |fs[1..]| ==> fs[1..][k] == fs[k + 1];
      var i := FirstLocal(fs[1..]);
      assert fs[..1 + i] == [fs[0]] + fs[1..][..i];
      1 + i
  }

  lemma LocalStops(f: Fragment, b: seq<byte>)
    requires f.First? && f.delivery.Local?
    ensures Shrinks(ReadFragment) && ReadAll(ReadFragment, FragmentBytes(f) + b) == Err(Unsupported)
  {
    FragmentsShrink();
    LocalRejected(f.id, f.payload, b);
  }

  /** A list around its i-th fragment. */
  lemma CompiledAround(fs: seq<Fragment>, i: nat)
    requires i < |fs|
    ensures Compiled(fs) == Compiled(fs[..i]) + (FragmentBytes(fs[i]) + Compiled(fs[i + 1..]))
  {
    assert fs == fs[..i] + fs[i..] && fs[i..][1..] == fs[i + 1..];
    PrintAppend(FragmentBytes, fs[..i], fs[i..]);
  }

  lemma LocalStopsAll(before: seq<Fragment>, f: Fragment, b: seq<byte>)
    requires AllReadable(before) && AllEncodable(before) && f.First? && f.delivery.Local?
    ensures ReadFragments(Compiled(before) + (FragmentBytes(f) + b)) == Err(Unsupported)
  {
    FragmentsShrink();
    ReadableInverse(before);
    AllBefore(ReadFragment, FragmentBytes, before, FragmentBytes(f) + b);
    LocalStops(f, b);
  }

  lemma LocalFails(fs: seq<Fragment>)
    requires Supported(fs) && AllEncodable(fs) && !AllReadable(fs)
    ensures ReadFragments(Compiled(fs)) == Err(Unsupported)
  {
    var i := FirstLocal(fs);
    CompiledAround(fs, i);
    LocalStopsAll(fs[..i], fs[i], Compiled(fs[i + 1..]));
  }

  predicate Numbered(fs: seq<Fragment>) {
    forall i :: 0 <= i < |fs| && fs[i].FollowOn? ==> fs[i].fragNum <= 63
  }

  lemma SmallEncodable(fs: seq<Fragment>)
    requires Supported(fs) && Numbered(fs) && |Compiled(fs)| <= 1003
    ensures AllEncodable(fs)
  {
    forall i | 0 <= i < |fs| ensures Encodable(fs[i]) {
      PartFits(FragmentBytes, fs, i);
      CompiledSize(fs[i]);
    }
  }

  /** Tunnel message round trip: for every initialization vector and every padding, the
      list of fragments a message was made of is read back, the checksum included, if and
      only if no first fragment is in local mode.  With one the reader throws. */
  lemma MessageRoundTrip(sha: Sha, iv: seq<byte>, noise: seq<byte>, fs: seq<Fragment>)
    requires Supported(fs) && Numbered(fs) && |noise| + |Compiled(fs)| == 1003
    ensures ReadMessage(sha, iv, MessageBytes(sha, iv, noise, Compiled(fs)))
         == if AllReadable(fs) then Ok(fs) else Err(Unsupported)
  {
    ReadWritten(sha, iv, noise, Compiled(fs));
    SmallEncodable(fs);
    if AllReadable(fs) {
      ReadableRoundTrip(fs);
    } else {
      LocalFails(fs);
    }
  }

  lemma PieceFits(id: uint32, data: seq<byte>, k: nat)
    requires Fragmented(id, data).Ok? && k < |Fragmented(id, data).value|
    ensures var f := Fragmented(id, data).value[k];
      HeaderSize(f).Ok? && |FragmentBytes(f)| <= 1003 && Encodable(f) && (Readable(f) <==> k > 0)
  {
    var f := Fragmented(id, data).value[k];
    if |data| % 0x1_0000 + 3 > MAX {
      PieceShape(id, data, k);
    }
    CompiledSize(f);
  }

  /** What a gateway puts on its way: every fragment of a message fits a tunnel message of
      its own; the follow-ons are read back from it, the first fragment, being in local
      mode, makes the reader throw. */
  lemma GatewayMessage(sha: Sha, iv: seq<byte>, noise: seq<byte>, id: uint32, data: seq<byte>, k: nat)
    requires Fragmented(id, data).Ok? && k < |Fragmented(id, data).value|
    requires |noise| + |Compiled([Fragmented(id, data).value[k]])| == 1003
    ensures var f := Fragmented(id, data).value[k];
      ReadMessage(sha, iv, MessageBytes(sha, iv, noise, Compiled([f]))) == if k > 0 then Ok([f]) else Err(Unsupported)
  {
    var f := Fragmented(id, data).value[k];
    PieceFits(id, data, k);
    PrintOne(FragmentBytes, f);
    MessageRoundTrip(sha, iv, noise, [f]);
    assert AllReadable([f]) <==> Readable([f][0]);
  }
}
