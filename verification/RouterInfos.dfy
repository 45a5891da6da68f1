/** `RouterInfo` with its parts `Certificate`, `RouterIdentity` and `RouterAddress`: the
    parsing constructors and the printers. */
module RouterInfos {
  import opened Bytes
  import opened Dates
  import opened Lists
  import opened Mappings

  // --------------------------------------------------------------- certificates

  datatype Certificate = Certificate(kind: byte, payload: seq<byte>)

  predicate GoodCertificate(c: Certificate) {
    c.kind <= 4 && |c.payload| < 0x1_0000
  }

  function CertificateBytes(c: Certificate): seq<byte> {
    [c.kind] + (PutU16(|c.payload| % 0x1_0000) + c.payload)
  }

  function ReadCertificate(b: seq<byte>): Result<(Certificate, seq<byte>)> {
    if b == [] then Err(Malformed)
    else if b[0] > 4 then Err(Malformed)
    else if |b| < 3 then Err(Overrun)
    else
      var size := GetU16(b[1..]);
      if |b| - 3 < size then Err(Malformed)
      else Ok((Certificate(b[0], b[1..][2..][..size]), b[1..][2..][size..]))
  }

  lemma CertificateRoundTrip(c: Certificate, rest: seq<byte>)
    requires GoodCertificate(c)
    ensures ReadCertificate(CertificateBytes(c) + rest) == Ok((c, rest))
  {
    var size := PutU16(|c.payload|);
    Assoc([c.kind], size + c.payload, rest);
    DropPrefix([c.kind], (size + c.payload) + rest);
    ReadSizedBody(c.payload, rest);
  }

  /** Type, size and payload, from position `at` on. */
  predicate CertificateAt(b: seq<byte>, at: nat, c: Certificate) {
    && |b| >= at + 3 + |c.payload| && b[at] == c.kind && c.kind <= 4
    && 0x100 * b[at + 1] as int + b[at + 2] as int == |c.payload| && b[at + 3..at + 3 + |c.payload|] == c.payload
  }

  /** A certificate is read iff it stands there, with a type of 0..4 and all of its payload. */
  lemma CertificateExact(b: seq<byte>, at: nat, c: Certificate, rest: seq<byte>)
    requires at <= |b|
    ensures ReadCertificate(b[at..]) == Ok((c, rest)) <==> CertificateAt(b, at, c) && rest == b[at + 3 + |c.payload|..]
  {
    var d := b[at..];
    if |d| >= 3 {
      var n := |c.payload|;
      assert GetU16(d[1..]) == 0x100 * b[at + 1] as int + b[at + 2] as int;
      if |d| >= 3 + n {
        assert d[1..][2..][..n] == b[at + 3..at + 3 + n] && d[1..][2..][n..] == b[at + 3 + n..];
      }
    }
  }

  // ----------------------------------------------------------------- identities

  type Bytes256 = s: seq<byte> | |s| == 256 witness seq(256, _ => 0 as byte)
  type Bytes128 = s: seq<byte> | |s| == 128 witness seq(128, _ => 0 as byte)

  datatype Identity = Identity(encryptionKey: Bytes256, signingKey: Bytes128, certificate: Certificate)

  function IdentityBytes(i: Identity): seq<byte> {
    i.encryptionKey + (i.signingKey + CertificateBytes(i.certificate))
  }

  function ReadIdentity(b: seq<byte>): Result<(Identity, seq<byte>)> {
    if |b| < 384 then Err(Malformed)
    else match ReadCertificate(b[256..][128..])
      case Err(e) => Err(e)
      case Ok((c, rest)) => Ok((Identity(b[..256], b[256..][..128], c), rest))
  }

  lemma IdentityRoundTrip(i: Identity, rest: seq<byte>)
    requires GoodCertificate(i.certificate)
    ensures ReadIdentity(IdentityBytes(i) + rest) == Ok((i, rest))
  {
    var cert := CertificateBytes(i.certificate);
    Assoc(i.encryptionKey, i.signingKey + cert, rest);
    Assoc(i.signingKey, cert, rest);
    DropPrefix(i.encryptionKey, i.signingKey + (cert + rest));
    DropPrefix(i.signingKey, cert + rest);
    CertificateRoundTrip(i.certificate, rest);
  }

  predicate IdentityAt(b: seq<byte>, i: Identity) {
    |b| >= 384 && b[..256] == i.encryptionKey && b[256..384] == i.signingKey && CertificateAt(b, 384, i.certificate)
  }

  function IdentityLength(i: Identity): nat { 387 + |i.certificate.payload| }

  /** An identity is 256 bytes of encryption key, 128 of signing key and a certificate. */
  lemma IdentityExact(b: seq<byte>, i: Identity, rest: seq<byte>)
    ensures ReadIdentity(b) == Ok((i, rest)) <==> IdentityAt(b, i) && rest == b[IdentityLength(i)..]
  {
    if |b| >= 384 {
      assert b[256..][128..] == b[384..] && b[256..][..128] == b[256..384];
      CertificateExact(b, 384, i.certificate, rest);
    }
  }

  lemma IdentityWritten(i: Identity)
    requires GoodCertificate(i.certificate)
    ensures IdentityAt(IdentityBytes(i), i) && |IdentityBytes(i)| == IdentityLength(i)
  {
    IdentityRoundTrip(i, []);
    assert IdentityBytes(i) + [] == IdentityBytes(i);
    IdentityExact(IdentityBytes(i), i, []);
  }

  /** `RouterIdentity` with the hash it keeps once computed. */
  class RouterIdentity {
    const value: Identity
    var hashed: bool
    var hash: seq<byte>

    ghost predicate Valid(sha: seq<byte> -> seq<byte>)
      reads this
    {
      hashed ==> hash == sha(IdentityBytes(value))
    }

    constructor (value: Identity)
      ensures this.value == value && !hashed
    {
      this.value, hashed, hash := value, false, [];
    }

    /** `getHash`: the same whether or not it was asked for before. */
    method GetHash(sha: seq<byte> -> seq<byte>) returns (h: seq<byte>)
      requires Valid(sha)
      modifies this
      ensures Valid(sha) && hashed && h == sha(IdentityBytes(value))
    {
      if !hashed {
        hash := sha(IdentityBytes(value));
        hashed := true;
      }
      h := hash;
    }
  }

  // ------------------------------------------------------------------ addresses

  datatype Address = Address(cost: byte, expiration: Date, transport: String, options: Map)

  predicate GoodMap(m: Map) {
    Sorted(m) && SmallMap(m) && |EntriesBytes(m)| < 0x1_0000
  }

  predicate GoodAddress(a: Address) {
    |a.transport| < 256 && GoodMap(a.options)
  }

  function AddressBytes(a: Address): seq<byte> {
    [a.cost] + (DateBytes(a.expiration) + ([|a.transport| % 256] + (a.transport + MappingBytes(a.options))))
  }

  function ReadAddress(b: seq<byte>): Result<(Address, seq<byte>)> {
    if b == [] then Err(Overrun)
    else match ReadDate(b[1..])
      case Err(e) => Err(e)
      case Ok((d, b1)) =>
        match ReadString(b1)
        case Err(e) => Err(e)
        case Ok((transport, b2)) =>
          match ReadMapping(b2)
          case Err(e) => Err(e)
          case Ok((m, rest)) => Ok((Address(b[0], d, transport, m), rest))
  }

  lemma AddressLaid(a: Address, rest: seq<byte>)
    ensures AddressBytes(a) + rest
         == [a.cost]
            + (DateBytes(a.expiration) + ([|a.transport| % 256] + (a.transport + (MappingBytes(a.options) + rest))))
  {
    var t3 := a.transport + MappingBytes(a.options);
    var t2 := [|a.transport| % 256] + t3;
    Assoc([a.cost], DateBytes(a.expiration) + t2, rest);
    Assoc(DateBytes(a.expiration), t2, rest);
    Assoc([|a.transport| % 256], t3, rest);
    Assoc(a.transport, MappingBytes(a.options), rest);
  }

  lemma AddressRoundTrip(a: Address, rest: seq<byte>)
    requires GoodAddress(a)
    ensures ReadAddress(AddressBytes(a) + rest) == Ok((a, rest))
  {
    AddressLaid(a, rest);
    var b2 := MappingBytes(a.options) + rest;
    var b1 := [|a.transport| % 256] + (a.transport + b2);
    DropPrefix([a.cost], DateBytes(a.expiration) + b1);
    DateRoundTrip(a.expiration, b1);
    StringRoundTrip(a.transport, b2);
    MappingRoundTrip(a.options, rest);
  }

  /** Cost, expiration, transport and, behind them, a mapping. */
  predicate AddressAt(b: seq<byte>, a: Address, rest: seq<byte>) {
    && |b| >= 9 && b[0] == a.cost && b[1..9] == DateBytes(a.expiration) && StringAt(b, 9, a.transport)
    && ReadMapping(b[10 + |a.transport|..]) == Ok((a.options, rest))
  }

  lemma DateExact(b: seq<byte>, at: nat, d: Date, rest: seq<byte>)
    requires at <= |b|
    ensures ReadDate(b[at..]) == Ok((d, rest))
       <==> |b| >= at + 8 && b[at..at + 8] == DateBytes(d) && rest == b[at + 8..]
  {
    var c := b[at..];
    if |c| >= 8 {
      assert c[..8] == b[at..at + 8] && c[8..] == b[at + 8..];
      DateCanonical(c);
      DropPrefix(DateBytes(ReadDate(c).value.0), ReadDate(c).value.1);
      DateRoundTrip(d, c[8..]);
      assert c == c[..8] + c[8..];
    }
  }

  lemma AddressReads(b: seq<byte>, d: Date, b1: seq<byte>, transport: String, b2: seq<byte>)
    requires b != [] && ReadDate(b[1..]) == Ok((d, b1)) && ReadString(b1) == Ok((transport, b2))
    ensures ReadAddress(b) == match ReadMapping(b2)
      case Err(e) => Err(e)
      case Ok((m, rest)) => Ok((Address(b[0], d, transport, m), rest))
  {
  }

  lemma AddressStands(b: seq<byte>, a: Address, rest: seq<byte>)
    requires AddressAt(b, a, rest)
    ensures ReadAddress(b) == Ok((a, rest))
  {
    DateExact(b, 1, a.expiration, b[9..]);
    StringExact(b, 9, a.transport, b[10 + |a.transport|..]);
    AddressReads(b, a.expiration, b[9..], a.transport, b[10 + |a.transport|..]);
  }

  lemma AddressWasThere(b: seq<byte>, a: Address, rest: seq<byte>)
    requires ReadAddress(b) == Ok((a, rest))
    ensures AddressAt(b, a, rest)
  {
    var (d, b1) := ReadDate(b[1..]).value;
    var (transport, b2) := ReadString(b1).value;
    AddressReads(b, d, b1, transport, b2);
    DateExact(b, 1, d, b1);
    StringExact(b, 9, transport, b2);
  }

  /** An address is read iff it stands at the head of the input. */
  lemma AddressExact(b: seq<byte>, a: Address, rest: seq<byte>)
    ensures ReadAddress(b) == Ok((a, rest)) <==> AddressAt(b, a, rest)
  {
    if ReadAddress(b) == Ok((a, rest)) {
      AddressWasThere(b, a, rest);
    }
    if AddressAt(b, a, rest) {
      AddressStands(b, a, rest);
    }
  }

  function AllAddressBytes(addresses: seq<Address>): seq<byte> {
    PrintMany(AddressBytes, addresses)
  }

  predicate AllGood(addresses: seq<Address>) {
    forall i :: 0 <= i < |addresses| ==> GoodAddress(addresses[i])
  }

  lemma {:induction false} AddressesRoundTrip(addresses: seq<Address>, rest: seq<byte>)
    requires |addresses| < 256 && AllGood(addresses)
    ensures ReadCounted(ReadAddress, [|addresses| % 256] + (AllAddressBytes(addresses) + rest)) == Ok((addresses, rest))
  {
    assert Inverse(ReadAddress, AddressBytes, addresses) by {
      forall i, r: seq<byte> | 0 <= i < |addresses|
        ensures ReadAddress(AddressBytes(addresses[i]) + r) == Ok((addresses[i], r))
      {
        AddressRoundTrip(addresses[i], r);
      }
    }
    CountedRoundTrip(ReadAddress, AddressBytes, addresses, rest);
  }

  // ---------------------------------------------------------------- router infos

  datatype Info = Info(identity: Identity, published: Date, addresses: seq<Address>, options: Map, signature: seq<byte>)

  predicate GoodInfo(i: Info) {
    && GoodCertificate(i.identity.certificate) && |i.addresses| < 256 && AllGood(i.addresses)
    && GoodMap(i.options) && |i.signature| == 40
  }

  /** What stands behind the addresses: an unused zero, the options. */
  function OptionsPart(i: Info): seq<byte> {
    [0] + MappingBytes(i.options)
  }

  /** `getSignedBytes` */
  function SignedBytes(i: Info): seq<byte> {
    IdentityBytes(i.identity)
    + (DateBytes(i.published) + ([|i.addresses| % 256] + (AllAddressBytes(i.addresses) + OptionsPart(i))))
  }

  /** `serialize` */
  function InfoBytes(i: Info): seq<byte> {
    SignedBytes(i) + i.signature
  }

  /** The end of the parsing constructor: the signature is the last 40 bytes of the
      input. */
  function ReadOptions(identity: Identity, published: Date, addresses: seq<Address>, b: seq<byte>): Result<Info> {
    if b == [] then Err(Overrun)
    else match ReadMapping(b[1..])
      case Err(e) => Err(e)
      case Ok((options, rest)) =>
        if |rest| < 40 then Err(Malformed)
        else Ok(Info(identity, published, addresses, options, rest[|rest| - 40..]))
  }

  /** From the addresses on. */
  function ReadAddresses(identity: Identity, published: Date, b: seq<byte>): Result<Info> {
    match ReadCounted(ReadAddress, b)
    case Err(e) => Err(e)
    case Ok((addresses, rest)) => ReadOptions(identity, published, addresses, rest)
  }

  /** From the publication date on. */
  function ReadPublished(identity: Identity, b: seq<byte>): Result<Info> {
    match ReadDate(b)
    case Err(e) => Err(e)
    case Ok((published, rest)) => ReadAddresses(identity, published, rest)
  }

  function ReadInfo(b: seq<byte>): Result<Info> {
    match ReadIdentity(b)
    case Err(e) => Err(e)
    case Ok((identity, rest)) => ReadPublished(identity, rest)
  }

  lemma SignedLaid(i: Info, rest: seq<byte>)
    ensures SignedBytes(i) + rest
         == IdentityBytes(i.identity)
            + (DateBytes(i.published)
               + ([|i.addresses| % 256] + (AllAddressBytes(i.addresses) + (OptionsPart(i) + rest))))
  {
    var t3 := AllAddressBytes(i.addresses) + OptionsPart(i);
    var t2 := [|i.addresses| % 256] + t3;
    Assoc(IdentityBytes(i.identity), DateBytes(i.published) + t2, rest);
    Assoc(DateBytes(i.published), t2, rest);
    Assoc([|i.addresses| % 256], t3, rest);
    Assoc(AllAddressBytes(i.addresses), OptionsPart(i), rest);
  }

  lemma OptionsRoundTrip(i: Info, rest: seq<byte>)
    requires GoodMap(i.options) && |rest| >= 40
    ensures ReadOptions(i.identity, i.published, i.addresses, OptionsPart(i) + rest)
         == Ok(Info(i.identity, i.published, i.addresses, i.options, rest[|rest| - 40..]))
  {
    Assoc([0], MappingBytes(i.options), rest);
    DropPrefix([0], MappingBytes(i.options) + rest);
    MappingRoundTrip(i.options, rest);
  }

  lemma IdentityRead(identity: Identity, rest: seq<byte>)
    requires GoodCertificate(identity.certificate)
    ensures ReadInfo(IdentityBytes(identity) + rest) == ReadPublished(identity, rest)
  {
    IdentityRoundTrip(identity, rest);
  }

  lemma PublishedRead(identity: Identity, published: Date, rest: seq<byte>)
    ensures ReadPublished(identity, DateBytes(published) + rest) == ReadAddresses(identity, published, rest)
  {
    DateRoundTrip(published, rest);
  }

  lemma AddressesRead(identity: Identity, published: Date, addresses: seq<Address>, rest: seq<byte>)
    requires |addresses| < 256 && AllGood(addresses)
    ensures ReadAddresses(identity, published, [|addresses| % 256] + (AllAddressBytes(addresses) + rest))
         == ReadOptions(identity, published, addresses, rest)
  {
    AddressesRoundTrip(addresses, rest);
  }

  lemma PartsRead(i: Info, b3: seq<byte>)
    requires GoodInfo(i)
    ensures var b2 := [|i.addresses| % 256] + (AllAddressBytes(i.addresses) + b3);
      ReadInfo(IdentityBytes(i.identity) + (DateBytes(i.published) + b2))
      == ReadOptions(i.identity, i.published, i.addresses, b3)
  {
    var b2 := [|i.addresses| % 256] + (AllAddressBytes(i.addresses) + b3);
    IdentityRead(i.identity, DateBytes(i.published) + b2);
    PublishedRead(i.identity, i.published, b2);
    AddressesRead(i.identity, i.published, i.addresses, b3);
  }

  /** Signed bytes followed by anything: all fields are read back, and the signature is
      whatever the last 40 bytes are. */
  lemma {:induction false} SignedRoundTrip(i: Info, rest: seq<byte>)
    requires GoodInfo(i) && |rest| >= 40
    ensures ReadInfo(SignedBytes(i) + rest)
         == Ok(Info(i.identity, i.published, i.addresses, i.options, rest[|rest| - 40..]))
  {
    SignedLaid(i, rest);
    PartsRead(i, OptionsPart(i) + rest);
    OptionsRoundTrip(i, rest);
  }

  /** RouterInfo round trip: parsing what was printed returns the same value through all
      nested types. */
  lemma {:induction false} InfoRoundTrip(i: Info)
    requires GoodInfo(i)
    ensures ReadInfo(InfoBytes(i)) == Ok(i)
  {
    SignedRoundTrip(i, i.signature);
    assert i.signature[0..] == i.signature;
  }

  /** With bytes behind it, a printed RouterInfo is read back unchanged if and only if the
      last 40 bytes happen to be its signature. */
  lemma {:induction false} TrailingBytes(i: Info, extra: seq<byte>)
    requires GoodInfo(i)
    ensures ReadInfo(InfoBytes(i) + extra) == Ok(i) <==> (i.signature + extra)[|extra|..] == i.signature
  {
    Assoc(SignedBytes(i), i.signature, extra);
    SignedRoundTrip(i, i.signature + extra);
  }

  lemma BehindIdentity(b: seq<byte>, n: nat, date: seq<byte>, count: byte, addresses: seq<byte>, options: seq<byte>)
    requires n <= |b| && b[n..] == date + ([count] + (addresses + ([0] + options))) && |date| == 8
    ensures var m := n + 9 + |addresses|;
      && |b| == m + 1 + |options| && b[n..n + 8] == date && b[n + 8] == count
      && b[n + 9..m] == addresses && b[m] == 0 && b[m + 1..] == options
  {
    var c := b[n..];
    DropPrefix(date, [count] + (addresses + ([0] + options)));
    DropPrefix([count], addresses + ([0] + options));
    DropPrefix(addresses, [0] + options);
    DropPrefix([0], options);
    assert c[..8] == b[n..n + 8] && c[8..] == b[n + 8..] && c[8..][1..] == b[n + 9..];
    assert b[n + 9..][|addresses|..] == b[n + 9 + |addresses|..];
    assert b[n + 9..][..|addresses|] == b[n + 9..n + 9 + |addresses|];
    assert b[n + 9 + |addresses|..][1..] == b[n + 10 + |addresses|..];
  }

  /** Identity, eight bytes of publication date, the number of addresses, the addresses, a
      zero, the options. */
  predicate PartsAt(b: seq<byte>, identity: Identity, date: seq<byte>, count: nat, addresses: seq<byte>,
                    options: seq<byte>) {
    var n := IdentityLength(identity);
    var m := n + 9 + |addresses|;
    && |b| >= m + 1 + |options| && IdentityAt(b, identity) && b[n..n + 8] == date && b[n + 8] as int == count
    && b[n + 9..m] == addresses && b[m] == 0 && b[m + 1..m + 1 + |options|] == options
  }

  lemma PartsLaid(identity: Identity, date: seq<byte>, count: byte, addresses: seq<byte>, options: seq<byte>)
    requires GoodCertificate(identity.certificate) && |date| == 8
    ensures var b := IdentityBytes(identity) + (date + ([count] + (addresses + ([0] + options))));
      PartsAt(b, identity, date, count, addresses, options)
      && |b| == IdentityLength(identity) + 10 + |addresses| + |options|
  {
    var more := date + ([count] + (addresses + ([0] + options)));
    var b := IdentityBytes(identity) + more;
    IdentityWritten(identity);
    DropPrefix(IdentityBytes(identity), more);
    IdentityKept(IdentityBytes(identity), more, identity);
    BehindIdentity(b, IdentityLength(identity), date, count, addresses, options);
    assert b[IdentityLength(identity) + 10 + |addresses|..] == b[IdentityLength(identity) + 10 + |addresses|..|b|];
  }

  lemma PartsKept(a: seq<byte>, b: seq<byte>, identity: Identity, date: seq<byte>, count: nat, addresses: seq<byte>,
                  options: seq<byte>)
    requires PartsAt(a, identity, date, count, addresses, options)
    ensures PartsAt(a + b, identity, date, count, addresses, options)
  {
    InFront(a, b);
    IdentityKept(a, b, identity);
  }

  lemma SignedParts(i: Info)
    requires GoodInfo(i)
    ensures var addresses, options := PrintMany(AddressBytes, i.addresses), MappingBytes(i.options);
      && PartsAt(SignedBytes(i), i.identity, DateBytes(i.published), |i.addresses|, addresses, options)
      && |SignedBytes(i)| == IdentityLength(i.identity) + 10 + |addresses| + |options|
  {
    var count: byte := |i.addresses|;
    assert |i.addresses| % 256 == count;
    PartsLaid(i.identity, DateBytes(i.published), count,
              PrintMany(AddressBytes, i.addresses), MappingBytes(i.options));
  }

  lemma SignatureLast(signed: seq<byte>, signature: seq<byte>)
    requires |signature| == 40
    ensures (signed + signature)[|signed + signature| - 40..] == signature
  {
    DropPrefix(signed, signature);
  }

  /** Where the parts of a printed RouterInfo stand, and the signature at the very end. */
  lemma InfoLayout(i: Info)
    requires GoodInfo(i)
    ensures PartsAt(InfoBytes(i), i.identity, DateBytes(i.published), |i.addresses|,
                    PrintMany(AddressBytes, i.addresses), MappingBytes(i.options))
    ensures |InfoBytes(i)| == IdentityLength(i.identity) + 10 + |PrintMany(AddressBytes, i.addresses)|
                              + |MappingBytes(i.options)| + 40
    ensures InfoBytes(i)[|InfoBytes(i)| - 40..] == i.signature
  {
    SignedParts(i);
    PartsKept(SignedBytes(i), i.signature, i.identity, DateBytes(i.published), |i.addresses|,
              PrintMany(AddressBytes, i.addresses), MappingBytes(i.options));
    SignatureLast(SignedBytes(i), i.signature);
  }

  lemma InFront(a: seq<byte>, b: seq<byte>)
    ensures forall i, j :: 0 <= i <= j <= |a| ==> (a + b)[i..j] == a[i..j]
    ensures forall i :: 0 <= i < |a| ==> (a + b)[i] == a[i]
  {
  }

  lemma IdentityKept(a: seq<byte>, b: seq<byte>, i: Identity)
    requires IdentityAt(a, i)
    ensures IdentityAt(a + b, i)
  {
    InFront(a, b);
    assert (a + b)[..256] == a[..256];
  }

  /** The parts of a RouterInfo in any input, up to the signature at its end. */
  ghost predicate InfoAt(b: seq<byte>, i: Info, c: seq<byte>, rest: seq<byte>) {
    var n := IdentityLength(i.identity);
    && IdentityAt(b, i.identity) && |b| >= n + 8 && b[n..n + 8] == DateBytes(i.published)
    && ReadCounted(ReadAddress, b[n + 8..]) == Ok((i.addresses, c))
    && c != [] && ReadMapping(c[1..]) == Ok((i.options, rest))
    && |rest| >= 40 && i.signature == rest[|rest| - 40..]
  }

  lemma OptionsExact(identity: Identity, published: Date, addresses: seq<Address>, c: seq<byte>, i: Info)
    ensures ReadOptions(identity, published, addresses, c) == Ok(i) <==>
      && i.identity == identity && i.published == published && i.addresses == addresses && c != []
      && ReadMapping(c[1..]).Ok? && ReadMapping(c[1..]).value.0 == i.options
      && var rest := ReadMapping(c[1..]).value.1; |rest| >= 40 && i.signature == rest[|rest| - 40..]
  {
  }

  lemma InfoStands(b: seq<byte>, i: Info, c: seq<byte>, rest: seq<byte>)
    requires InfoAt(b, i, c, rest)
    ensures ReadInfo(b) == Ok(i)
  {
    var n := IdentityLength(i.identity);
    IdentityExact(b, i.identity, b[n..]);
    DateExact(b, n, i.published, b[n + 8..]);
    OptionsExact(i.identity, i.published, i.addresses, c, i);
  }

  lemma InfoWasThere(b: seq<byte>, i: Info) returns (c: seq<byte>, rest: seq<byte>)
    requires ReadInfo(b) == Ok(i)
    ensures InfoAt(b, i, c, rest)
  {
    var (identity, b1) := ReadIdentity(b).value;
    var (published, b2) := ReadDate(b1).value;
    var (addresses, b3) := ReadCounted(ReadAddress, b2).value;
    OptionsExact(identity, published, addresses, b3, i);
    IdentityExact(b, identity, b1);
    DateExact(b, IdentityLength(identity), published, b2);
    c, rest := b3, ReadMapping(b3[1..]).value.1;
  }

  /** A RouterInfo is read iff its parts stand one behind the other, at least forty bytes are
      left behind the options, and its signature is the last forty. */
  lemma InfoExact(b: seq<byte>, i: Info)
    ensures ReadInfo(b) == Ok(i) <==> exists c, rest :: InfoAt(b, i, c, rest)
  {
    if ReadInfo(b) == Ok(i) {
      var c, rest := InfoWasThere(b, i);
    }
    if exists c, rest :: InfoAt(b, i, c, rest) {
      var c, rest :| InfoAt(b, i, c, rest);
      InfoStands(b, i, c, rest);
    }
  }

  // -------------------------------------------------------------- the whole value

  method ParseInfo(b: seq<byte>) returns (r: Result<Info>)
    ensures r == ReadInfo(b)
  {
    var identity := ReadIdentity(b);
    if identity.Err? {
      return Err(identity.error);
    }
    var published := ParseDate(identity.value.1);
    if published.Err? {
      return Err(published.error);
    }
    var addresses := ParseCounted(ReadAddress, published.value.1);
    if addresses.Err? {
      return Err(addresses.error);
    }
    r := ReadOptions(identity.value.0, published.value.0, addresses.value.0, addresses.value.1);
  }

  method SerializeInfo(i: Info) returns (out: seq<byte>)
    ensures out == InfoBytes(i)
  {
    var published := SerializeDate(i.published);
    var addresses := SerializeMany(AddressBytes, i.addresses);
    var options := SerializeMapping(i.options);
    var signed := IdentityBytes(i.identity) + (published + ([|i.addresses| % 256] + (addresses + ([0] + options))));
    assert signed == SignedBytes(i);
    out := signed + i.signature;
  }
}
