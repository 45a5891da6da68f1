/** Tunnel build records: `BuildRecord`, `BuildRequestRecord` and
    `BuildResponseRecord`.  The ciphers and the hash are given as functions of which
    only the laws stated by `Lawful` are used. */
module BuildRecords {
  import opened Bytes

  type Bytes16 = s: seq<byte> | |s| == 16 witness seq(16, _ => 0 as byte)
  type Bytes32 = s: seq<byte> | |s| == 32 witness seq(32, _ => 0 as byte)
  type Block = s: seq<byte> | |s| == 512 witness seq(512, _ => 0 as byte)

  datatype Record = Record(header: Bytes16, data: Block)

  /** The key and initialization vector of one AES layer. */
  datatype LayerKey = LayerKey(key: Bytes32, iv: Bytes16)

  /** AES over header and data, ElGamal (with its random exponent as an argument) and
      SHA-256. */
  datatype Crypto = Crypto(
    enc: (LayerKey, Record) -> Record,
    dec: (LayerKey, Record) -> Record,
    seal: (seq<byte>, seq<byte>, seq<byte>) -> Block,
    open: (seq<byte>, Block) -> seq<byte>,
    sha: seq<byte> -> Bytes32)

  /** AES encryption undoes AES decryption. */
  ghost predicate Lawful(c: Crypto) {
    forall k: LayerKey, r: Record :: c.enc(k, c.dec(k, r)) == r
  }

  /** `priv` opens what is sealed for `pub`, if the plaintext does not start with 0
      (the "Raw" padding drops leading zeros). */
  ghost predicate KeyPair(c: Crypto, pub: seq<byte>, priv: seq<byte>) {
    forall rnd: seq<byte>, m: seq<byte> :: |m| == 255 && m[0] != 0 ==> c.open(priv, c.seal(pub, rnd, m)) == m
  }

  // ---------------------------------------------------------------- ElGamal

  /** `encrypt(encryptionKey)`: a non-zero byte, the hash and the first 222 bytes. */
  function Plaintext(c: Crypto, data: Block): (m: seq<byte>)
    ensures |m| == 255 && m[0] == 0xFF
  {
    [0xFF] + (c.sha(data[..222]) + data[..222])
  }

  function Sealed(c: Crypto, pub: seq<byte>, rnd: seq<byte>, data: Block): Block {
    c.seal(pub, rnd, Plaintext(c, data))
  }

  /** `decrypt(key)`: the plaintext replaces the first 222 bytes; the hash must match. */
  function Opened(c: Crypto, priv: seq<byte>, data: Block): Result<Block> {
    var m := c.open(priv, data);
    if |m| < 255 then Err(Overrun)
    else if c.sha(m[33..255]) != m[1..33] then Err(Malformed)
    else Ok(m[33..255] + data[222..])
  }

  /** Opening returns the 222 bytes that were sealed. */
  lemma OpenSealed(c: Crypto, pub: seq<byte>, priv: seq<byte>, rnd: seq<byte>, data: Block)
    requires KeyPair(c, pub, priv)
    ensures Opened(c, priv, Sealed(c, pub, rnd, data)).Ok?
    ensures Opened(c, priv, Sealed(c, pub, rnd, data)).value[..222] == data[..222]
  {
    var m := Plaintext(c, data);
    assert m[1..33] == c.sha(data[..222]);
    assert m[33..255] == data[..222];
  }

  lemma PlaintextLayout(c: Crypto, data: Block)
    ensures var m := Plaintext(c, data); m[0] == 255 && m[1..33] == c.sha(data[..222]) && m[33..] == data[..222]
  {
    DropPrefix(c.sha(data[..222]), data[..222]);
    DropPrefix([0xFF], c.sha(data[..222]) + data[..222]);
  }

  /** A record opens to d iff what the cipher gives is the hash of the first 222 bytes of d
      and these bytes, behind one byte of any value; the rest of the record is kept. */
  lemma OpenExact(c: Crypto, priv: seq<byte>, data: Block, d: Block)
    ensures var m := c.open(priv, data);
      Opened(c, priv, data) == Ok(d)
      <==> |m| >= 255 && m[1..255] == c.sha(d[..222]) + d[..222] && d[222..] == data[222..]
  {
    var m := c.open(priv, data);
    if |m| >= 255 {
      assert m[1..255] == m[1..33] + m[33..255];
      DropPrefix(m[1..33], m[33..255]);
      DropPrefix(c.sha(d[..222]), d[..222]);
      DropPrefix(m[33..255], data[222..]);
      assert d == d[..222] + d[222..];
    }
  }

  // ------------------------------------------------------------- request records

  datatype HopType = Participant | Gateway | Endpoint

  datatype Request = Request(
    tunnelId: uint32, localHash: Bytes32, nextTunnelId: uint32, nextHash: Bytes32,
    layerKey: Bytes32, ivKey: Bytes32, replyKey: Bytes32, replyIV: Bytes16,
    flags: byte, requestTime: uint32, nextMsgId: uint32)

  /** `getType`: bit 7 is looked at before bit 6. */
  function TypeOf(flags: byte): HopType {
    if flags / 128 % 2 == 1 then Gateway else if flags / 64 % 2 == 1 then Endpoint else Participant
  }

  /** `setType`: sets a bit, or clears all. */
  function WithType(flags: byte, t: HopType): byte {
    match t
    case Gateway => if flags / 128 % 2 == 1 then flags else flags + 128
    case Endpoint => if flags / 64 % 2 == 1 then flags else flags + 64
    case Participant => 0
  }

  /** A type that was set is read back, except that an endpoint that was a gateway
      before stays a gateway. */
  lemma TypeRoundTrip(flags: byte, t: HopType)
    ensures TypeOf(WithType(flags, t)) == t <==> !(t == Endpoint && TypeOf(flags) == Gateway)
  {
  }

  /** The type is in the two high bits, and setting one bit leaves the others alone. */
  lemma TypeBits(flags: byte, t: HopType)
    ensures TypeOf(flags) == Gateway <==> flags >= 128
    ensures TypeOf(flags) == Endpoint <==> 64 <= flags < 128
    ensures var f := WithType(flags, t);
      && (t == Gateway ==> f / 128 % 2 == 1 && f % 128 == flags % 128)
      && (t == Endpoint ==> f / 64 % 2 == 1 && f % 64 == flags % 64 && f / 128 == flags / 128)
      && (t == Participant ==> f == 0)
  {
  }

  function Reply(r: Request): LayerKey {
    LayerKey(r.replyKey, r.replyIV)
  }

  function Zeros(n: nat): (z: seq<byte>)
    ensures |z| == n && forall i :: 0 <= i < n ==> z[i] == 0
  {
    seq(n, _ => 0)
  }

  /** The fields behind the reply key. */
  function LateBytes(r: Request): (b: seq<byte>)
    ensures |b| == 25
  {
    r.replyIV + ([r.flags] + (PutU32(r.requestTime) + PutU32(r.nextMsgId)))
  }

  function KeyBytes(r: Request): (b: seq<byte>)
    ensures |b| == 121
  {
    r.layerKey + (r.ivKey + (r.replyKey + LateBytes(r)))
  }

  function FieldBytes(r: Request): (b: seq<byte>)
    ensures |b| == 193
  {
    PutU32(r.tunnelId) + (r.localHash + (PutU32(r.nextTunnelId) + (r.nextHash + KeyBytes(r))))
  }

  /** What `compile` leaves in `m_data`. */
  function RequestBytes(r: Request): Block {
    FieldBytes(r) + Zeros(319)
  }

  datatype Late = Late(replyIV: Bytes16, flags: byte, requestTime: uint32, nextMsgId: uint32)

  function ReadLate(b: seq<byte>): Late
    requires |b| == 25
  {
    var b1 := b[16..];
    var b2 := b1[1..];
    var b3 := b2[4..];
    Late(b[..16], b1[0], GetU32(b2), GetU32(b3))
  }

  datatype Keys = Keys(layerKey: Bytes32, ivKey: Bytes32, replyKey: Bytes32, late: Late)

  function ReadKeys(b: seq<byte>): Keys
    requires |b| == 121
  {
    var b1 := b[32..];
    var b2 := b1[32..];
    Keys(b[..32], b1[..32], b2[..32], ReadLate(b2[32..]))
  }

  function ReadFields(b: seq<byte>): Request
    requires |b| == 193
  {
    var b1 := b[4..];
    var b2 := b1[32..];
    var b3 := b2[4..];
    var k := ReadKeys(b3[32..]);
    Request(GetU32(b), b1[..32], GetU32(b2), b3[..32], k.layerKey, k.ivKey, k.replyKey,
            k.late.replyIV, k.late.flags, k.late.requestTime, k.late.nextMsgId)
  }

  /** What `parse` reads: an iterator walks over the first 193 bytes. */
  function ReadRequest(data: Block): Request {
    ReadFields(data[..193])
  }

  lemma LateRoundTrip(r: Request)
    ensures ReadLate(LateBytes(r)) == Late(r.replyIV, r.flags, r.requestTime, r.nextMsgId)
  {
    var t2 := PutU32(r.requestTime) + PutU32(r.nextMsgId);
    DropPrefix(PutU32(r.requestTime), PutU32(r.nextMsgId));
    DropPrefix([r.flags], t2);
    DropPrefix(r.replyIV, [r.flags] + t2);
  }

  lemma KeysRoundTrip(r: Request)
    ensures ReadKeys(KeyBytes(r))
         == Keys(r.layerKey, r.ivKey, r.replyKey, Late(r.replyIV, r.flags, r.requestTime, r.nextMsgId))
  {
    LateRoundTrip(r);
    var t2 := r.replyKey + LateBytes(r);
    DropPrefix(r.replyKey, LateBytes(r));
    DropPrefix(r.ivKey, t2);
    DropPrefix(r.layerKey, r.ivKey + t2);
  }

  lemma FieldsRoundTrip(r: Request)
    ensures ReadFields(FieldBytes(r)) == r
  {
    KeysRoundTrip(r);
    var t2 := r.nextHash + KeyBytes(r);
    var t1 := PutU32(r.nextTunnelId) + t2;
    DropPrefix(r.nextHash, KeyBytes(r));
    DropPrefix(PutU32(r.nextTunnelId), t2);
    DropPrefix(r.localHash, t1);
    DropPrefix(PutU32(r.tunnelId), r.localHash + t1);
  }

  lemma LateLayout(r: Request)
    ensures var b := LateBytes(r);
      && b[..16] == r.replyIV && b[16] == r.flags
      && b[17..21] == PutU32(r.requestTime) && b[21..] == PutU32(r.nextMsgId)
  {
  }

  lemma KeyLayout(r: Request)
    ensures var b := KeyBytes(r);
      b[..32] == r.layerKey && b[32..64] == r.ivKey && b[64..96] == r.replyKey && b[96..] == LateBytes(r)
  {
  }

  lemma IdLayout(r: Request)
    ensures var b := FieldBytes(r);
      && b[..4] == PutU32(r.tunnelId) && b[4..36] == r.localHash
      && b[36..40] == PutU32(r.nextTunnelId) && b[40..72] == r.nextHash && b[72..] == KeyBytes(r)
  {
  }

  lemma Within(b: seq<byte>, part: seq<byte>, at: nat, i: nat, j: nat)
    requires at <= |b| && b[at..] == part && i <= j <= |part|
    ensures b[at + i..at + j] == part[i..j]
  {
    assert b[at..][i..j] == b[at + i..at + j];
  }

  /** Where every field stands in the 512 bytes, as the I2P tunnel creation specification
      lays out a build request record. */
  lemma RequestLayout(r: Request)
    ensures var b := RequestBytes(r);
      && b[..4] == PutU32(r.tunnelId) && b[4..36] == r.localHash
      && b[36..40] == PutU32(r.nextTunnelId) && b[40..72] == r.nextHash
      && b[72..104] == r.layerKey && b[104..136] == r.ivKey && b[136..168] == r.replyKey && b[168..184] == r.replyIV
      && b[184] == r.flags && b[185..189] == PutU32(r.requestTime) && b[189..193] == PutU32(r.nextMsgId)
      && forall i :: 193 <= i < 512 ==> b[i] == 0
  {
    var f := FieldBytes(r);
    IdLayout(r);
    KeyLayout(r);
    LateLayout(r);
    Within(f, KeyBytes(r), 72, 0, 32);
    Within(f, KeyBytes(r), 72, 32, 64);
    Within(f, KeyBytes(r), 72, 64, 96);
    Within(f, KeyBytes(r), 72, 96, 121);
    assert KeyBytes(r)[96..121] == LateBytes(r) && f[168..193] == f[168..];
    Within(f, LateBytes(r), 168, 0, 16);
    Within(f, LateBytes(r), 168, 16, 17);
    Within(f, LateBytes(r), 168, 17, 21);
    Within(f, LateBytes(r), 168, 21, 25);
    FieldsInBlock(f, r.flags);
  }

  lemma FieldsInBlock(f: seq<byte>, flags: byte)
    requires |f| == 193 && f[184..185] == [flags]
    ensures var b := f + Zeros(319);
      && b[..193] == f && b[184] == flags && (forall i, j :: 0 <= i <= j <= 193 ==> b[i..j] == f[i..j])
      && forall i :: 193 <= i < 512 ==> b[i] == 0
  {
    assert f[184] == f[184..185][0];
  }

  /** Parsing data that starts like a compiled record returns the fields of the
      record, whatever follows its first 222 bytes. */
  lemma RequestRoundTrip(r: Request, data: Block)
    requires data[..222] == RequestBytes(r)[..222]
    ensures ReadRequest(data) == r
  {
    FieldsRoundTrip(r);
    DropPrefix(FieldBytes(r), Zeros(319));
    assert data[..193] == data[..222][..193];
    assert RequestBytes(r)[..193] == RequestBytes(r)[..222][..193];
  }

  /** And nothing else is read as r: the first 193 bytes decide. */
  lemma RequestExact(r: Request, data: Block)
    ensures ReadRequest(data) == r <==> data[..193] == RequestBytes(r)[..193]
  {
    var f := data[..193];
    DropPrefix(FieldBytes(r), Zeros(319));
    FieldsRoundTrip(r);
    FieldsBack(f);
  }

  lemma LateBack(b: seq<byte>)
    requires |b| == 25
    ensures var l := ReadLate(b);
      l.replyIV + ([l.flags] + (PutU32(l.requestTime) + PutU32(l.nextMsgId))) == b
  {
  }

  lemma KeysBack(b: seq<byte>)
    requires |b| == 121
    ensures var k := ReadKeys(b); k.layerKey + (k.ivKey + (k.replyKey + b[96..])) == b && k.late == ReadLate(b[96..])
  {
    assert b[32..][32..][32..] == b[96..];
  }

  lemma FieldsBack(b: seq<byte>)
    requires |b| == 193
    ensures FieldBytes(ReadFields(b)) == b
  {
    var r := ReadFields(b);
    var keys := b[4..][32..][4..][32..];
    KeysBack(keys);
    LateBack(keys[96..]);
    assert LateBytes(r) == keys[96..];
    assert KeyBytes(r) == keys;
    assert b == PutU32(r.tunnelId) + b[4..];
    assert b[4..] == r.localHash + b[4..][32..];
    assert b[4..][32..] == PutU32(r.nextTunnelId) + b[4..][32..][4..];
    assert b[4..][32..][4..] == r.nextHash + keys;
  }

  /** A part is written behind what is there: `done + rest` stays the whole. */
  method Append(data: array<byte>, pos: nat, part: seq<byte>, ghost rest: seq<byte>) returns (end: nat)
    requires pos + |part| <= data.Length
    modifies data
    ensures end == pos + |part| && data[..end] + rest == old(data[..pos]) + (part + rest)
  {
    Copy(data, pos, part);
    Assoc(old(data[..pos]), part, rest);
    end := pos + |part|;
  }

  /** `compile`. */
  method Compile(r: Request, data: array<byte>)
    requires data.Length == 512
    modifies data
    ensures data[..] == RequestBytes(r)
  {
    var pos := WriteIds(r, data);
    pos := WriteKeys(r, data, pos);
    pos := WriteLate(r, data, pos);
    ghost var fields := FieldBytes(r);
    assert data[..pos] == fields;
    while pos < 512
      invariant 193 <= pos <= 512 && data[..193] == fields
      invariant forall i :: 193 <= i < pos ==> data[i] == 0
    {
      data[pos] := 0;
      pos := pos + 1;
    }
    assert data[..] == fields + Zeros(319);
  }

  method WriteIds(r: Request, data: array<byte>) returns (pos: nat)
    requires data.Length == 512
    modifies data
    ensures pos == 72 && data[..pos] + KeyBytes(r) == FieldBytes(r)
  {
    ghost var t2 := r.nextHash + KeyBytes(r);
    ghost var t1 := PutU32(r.nextTunnelId) + t2;
    assert data[..0] == [];
    pos := Append(data, 0, PutU32(r.tunnelId), r.localHash + t1);
    pos := Append(data, pos, r.localHash, t1);
    pos := Append(data, pos, PutU32(r.nextTunnelId), t2);
    pos := Append(data, pos, r.nextHash, KeyBytes(r));
  }

  method WriteKeys(r: Request, data: array<byte>, start: nat) returns (pos: nat)
    requires data.Length == 512 && start == 72
    modifies data
    ensures pos == 168 && data[..pos] + LateBytes(r) == old(data[..start]) + KeyBytes(r)
  {
    ghost var t2 := r.replyKey + LateBytes(r);
    pos := Append(data, start, r.layerKey, r.ivKey + t2);
    pos := Append(data, pos, r.ivKey, t2);
    pos := Append(data, pos, r.replyKey, LateBytes(r));
  }

  method WriteLate(r: Request, data: array<byte>, start: nat) returns (pos: nat)
    requires data.Length == 512 && start == 168
    modifies data
    ensures pos == 193 && data[..pos] == old(data[..start]) + LateBytes(r)
  {
    ghost var t2 := PutU32(r.requestTime) + PutU32(r.nextMsgId);
    pos := Append(data, start, r.replyIV, [r.flags] + t2);
    pos := Append(data, pos, [r.flags], t2);
    pos := Append(data, pos, PutU32(r.requestTime), PutU32(r.nextMsgId));
    pos := Append(data, pos, PutU32(r.nextMsgId), []);
    assert data[..pos] + [] == data[..pos];
    assert PutU32(r.nextMsgId) + [] == PutU32(r.nextMsgId);
  }

  // ------------------------------------------------------------ response records

  /** `BuildResponseRecord::compile`: 495 random bytes and the reply, after their hash. */
  function Response(c: Crypto, padding: seq<byte>, reply: byte): Record
    requires |padding| == 495
  {
    var hash := c.sha(padding + [reply]);
    Record(hash[..16], hash[16..] + (padding + [reply]))
  }

  /** `BuildResponseRecord::parse`. */
  function ReadResponse(c: Crypto, r: Record): Result<byte> {
    if c.sha(r.data[16..]) != r.header + r.data[..16] then Err(Malformed) else Ok(r.data[511])
  }

  lemma ResponseRoundTrip(c: Crypto, padding: seq<byte>, reply: byte)
    requires |padding| == 495
    ensures ReadResponse(c, Response(c, padding, reply)) == Ok(reply)
  {
    var hash := c.sha(padding + [reply]);
    DropPrefix(hash[16..], padding + [reply]);
    assert hash[..16] + hash[16..] == hash;
  }

  /** A response is accepted with reply x iff it was compiled with that reply. */
  lemma ResponseExact(c: Crypto, r: Record, x: byte)
    ensures ReadResponse(c, r) == Ok(x) <==> exists padding :: |padding| == 495 && r == Response(c, padding, x)
  {
    if ReadResponse(c, r) == Ok(x) {
      var padding := r.data[16..511];
      assert r.data[16..] == padding + [x];
      var hash := c.sha(r.data[16..]);
      DropPrefix(r.header, r.data[..16]);
      assert hash[..16] == r.header && hash[16..] == r.data[..16];
      assert r.data == r.data[..16] + r.data[16..];
      assert r == Response(c, padding, x);
    }
    if exists padding :: |padding| == 495 && r == Response(c, padding, x) {
      var padding :| |padding| == 495 && r == Response(c, padding, x);
      ResponseRoundTrip(c, padding, x);
    }
  }

  /** The hash stands in front, in header and data; the reply is the last byte. */
  lemma ResponseLayout(c: Crypto, padding: seq<byte>, reply: byte)
    requires |padding| == 495
    ensures var r := Response(c, padding, reply);
      && r.header + r.data[..16] == c.sha(padding + [reply]) && r.data[16..511] == padding && r.data[511] == reply
  {
    var hash := c.sha(padding + [reply]);
    DropPrefix(hash[16..], padding + [reply]);
    assert hash[..16] + hash[16..] == hash;
  }
}
