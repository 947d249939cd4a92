/**
 * The handshake messages of TLS 1.2 (section 7.4 of RFC 5246) as byte-exact
 * readers and writers over the grammar of `Wire`.
 *
 * Each structure has a reader `ParseX`, whose contract says that whatever it
 * reads is a valid value whose encoding is exactly the bytes it consumed, and
 * a writer `WriteX` together with a lemma `ParseXWritten` saying that reading
 * what was written gives the value back. `XCodec` packages the two, and
 * `XCodecSound` states both directions at once.
 *
 * Two widths follow the repository's byte vectors rather than RFC 5246: the
 * envelope's length and the Certificate lengths are four bytes, not three.
 */
module Message {
  import opened Wrappers
  import opened Wire

  // ---------------------------------------------------------------------------
  // Enumerations

  /** `ClientCertificateType` of section 7.4.4 of RFC 5246. */
  datatype ClientCertificateType =
    RsaSign | DssSign | RsaFixedDh | DssFixedDh | RsaEphemeralDh | DssEphemeralDh | FortezzaDms

  function ClientCertificateTypeCode(t: ClientCertificateType): Byte
  {
    match t
    case RsaSign => 1
    case DssSign => 2
    case RsaFixedDh => 3
    case DssFixedDh => 4
    case RsaEphemeralDh => 5
    case DssEphemeralDh => 6
    case FortezzaDms => 20
  }

  function DecodeClientCertificateType(b: Byte): (r: Result<ClientCertificateType, ParseError>)
    ensures r.Success? ==> ClientCertificateTypeCode(r.value) == b
    ensures r.Failure? ==> r.error == UnknownEnumValue(b)
  {
    if b == 1 then Success(RsaSign)
    else if b == 2 then Success(DssSign)
    else if b == 3 then Success(RsaFixedDh)
    else if b == 4 then Success(DssFixedDh)
    else if b == 5 then Success(RsaEphemeralDh)
    else if b == 6 then Success(DssEphemeralDh)
    else if b == 20 then Success(FortezzaDms)
    else Failure(UnknownEnumValue(b))
  }

  /** Every certificate type's code decodes to it, and only codes decode. */
  lemma ClientCertificateTypeCodes()
    ensures Inverse(ClientCertificateTypeCode, DecodeClientCertificateType)
  {
    forall t ensures DecodeClientCertificateType(ClientCertificateTypeCode(t)) == Success(t) {
      match t
      case RsaSign =>
      case DssSign =>
      case RsaFixedDh =>
      case DssFixedDh =>
      case RsaEphemeralDh =>
      case DssEphemeralDh =>
      case FortezzaDms =>
    }
  }

  /** `HashAlgorithm` of section 7.4.1.4.1 of RFC 5246. */
  datatype HashAlgorithm = HashNone | Md5 | Sha1 | Sha224 | Sha256 | Sha384 | Sha512

  function HashAlgorithmCode(h: HashAlgorithm): Byte
  {
    match h
    case HashNone => 0
    case Md5 => 1
    case Sha1 => 2
    case Sha224 => 3
    case Sha256 => 4
    case Sha384 => 5
    case Sha512 => 6
  }

  function DecodeHashAlgorithm(b: Byte): (r: Result<HashAlgorithm, ParseError>)
    ensures r.Success? ==> HashAlgorithmCode(r.value) == b
    ensures r.Failure? ==> r.error == UnknownEnumValue(b)
  {
    if b == 0 then Success(HashNone)
    else if b == 1 then Success(Md5)
    else if b == 2 then Success(Sha1)
    else if b == 3 then Success(Sha224)
    else if b == 4 then Success(Sha256)
    else if b == 5 then Success(Sha384)
    else if b == 6 then Success(Sha512)
    else Failure(UnknownEnumValue(b))
  }

  /** Every hash algorithm's code decodes to it, and only codes decode. */
  lemma HashAlgorithmCodes()
    ensures Inverse(HashAlgorithmCode, DecodeHashAlgorithm)
  {
    forall h ensures DecodeHashAlgorithm(HashAlgorithmCode(h)) == Success(h) {
      match h
      case HashNone =>
      case Md5 =>
      case Sha1 =>
      case Sha224 =>
      case Sha256 =>
      case Sha384 =>
      case Sha512 =>
    }
  }

  /** `SignatureAlgorithm` of section 7.4.1.4.1 of RFC 5246. */
  datatype SignatureAlgorithm = Anonymous | Rsa | Dsa | Ecdsa

  function SignatureAlgorithmCode(a: SignatureAlgorithm): Byte
  {
    match a
    case Anonymous => 0
    case Rsa => 1
    case Dsa => 2
    case Ecdsa => 3
  }

  function DecodeSignatureAlgorithm(b: Byte): (r: Result<SignatureAlgorithm, ParseError>)
    ensures r.Success? ==> SignatureAlgorithmCode(r.value) == b
    ensures r.Failure? ==> r.error == UnknownEnumValue(b)
  {
    if b == 0 then Success(Anonymous)
    else if b == 1 then Success(Rsa)
    else if b == 2 then Success(Dsa)
    else if b == 3 then Success(Ecdsa)
    else Failure(UnknownEnumValue(b))
  }

  /** Every signature algorithm's code decodes to it, and only codes decode. */
  lemma SignatureAlgorithmCodes()
    ensures Inverse(SignatureAlgorithmCode, DecodeSignatureAlgorithm)
  {
    forall a ensures DecodeSignatureAlgorithm(SignatureAlgorithmCode(a)) == Success(a) {
      match a
      case Anonymous =>
      case Rsa =>
      case Dsa =>
      case Ecdsa =>
    }
  }

  /** `HandshakeType` of section 7.4 of RFC 5246: the `msg_type` of the envelope. */
  datatype HandshakeType =
    | HelloRequestType | ClientHelloType | ServerHelloType | CertificateType
    | ServerKeyExchangeType | CertificateRequestType | ServerHelloDoneType
    | CertificateVerifyType | ClientKeyExchangeType | FinishedType

  function HandshakeTypeCode(t: HandshakeType): Byte
  {
    match t
    case HelloRequestType => 0
    case ClientHelloType => 1
    case ServerHelloType => 2
    case CertificateType => 11
    case ServerKeyExchangeType => 12
    case CertificateRequestType => 13
    case ServerHelloDoneType => 14
    case CertificateVerifyType => 15
    case ClientKeyExchangeType => 16
    case FinishedType => 20
  }

  /** A message type outside the defined set is its own error, not a malformed encoding. */
  function DecodeHandshakeType(b: Byte): (r: Result<HandshakeType, ParseError>)
    ensures r.Success? ==> HandshakeTypeCode(r.value) == b
    ensures r.Failure? ==> r.error == UnknownHandshakeType(b)
  {
    if b == 0 then Success(HelloRequestType)
    else if b == 1 then Success(ClientHelloType)
    else if b == 2 then Success(ServerHelloType)
    else if b == 11 then Success(CertificateType)
    else if b == 12 then Success(ServerKeyExchangeType)
    else if b == 13 then Success(CertificateRequestType)
    else if b == 14 then Success(ServerHelloDoneType)
    else if b == 15 then Success(CertificateVerifyType)
    else if b == 16 then Success(ClientKeyExchangeType)
    else if b == 20 then Success(FinishedType)
    else Failure(UnknownHandshakeType(b))
  }

  /** Every message type's code decodes to it, and only codes decode. */
  lemma HandshakeTypeCodes()
    ensures Inverse(HandshakeTypeCode, DecodeHandshakeType)
  {
    forall t ensures DecodeHandshakeType(HandshakeTypeCode(t)) == Success(t) {
      match t
      case HelloRequestType =>
      case ClientHelloType =>
      case ServerHelloType =>
      case CertificateType =>
      case ServerKeyExchangeType =>
      case CertificateRequestType =>
      case ServerHelloDoneType =>
      case CertificateVerifyType =>
      case ClientKeyExchangeType =>
      case FinishedType =>
    }
  }

  // ---------------------------------------------------------------------------
  // ProtocolVersion and Random

  datatype ProtocolVersion = ProtocolVersion(major: Byte, minor: Byte)

  function WriteProtocolVersion(v: ProtocolVersion): seq<Byte>
  {
    [v.major, v.minor]
  }

  /** Two bytes, major then minor; fails only when fewer remain. */
  function ParseProtocolVersion(s: seq<Byte>): (r: Parsed<ProtocolVersion>)
    ensures r.Success? <==> |s| >= 2
    ensures r.Failure? ==> r.error == Malformed
    ensures r.Success? ==> s == WriteProtocolVersion(r.value.0) + r.value.1
  {
    if |s| < 2 then Failure(Malformed)
    else
      assert s == [s[0], s[1]] + s[2..];
      Success((ProtocolVersion(s[0], s[1]), s[2..]))
  }

  lemma ParseProtocolVersionWritten(v: ProtocolVersion, rest: seq<Byte>)
    ensures ParseProtocolVersion(WriteProtocolVersion(v) + rest) == Success((v, rest))
  {
    assert (WriteProtocolVersion(v) + rest)[2..] == rest;
  }

  /** `gmt_unix_time` as a four-byte integer, then 28 random bytes. */
  datatype Random = Random(gmtUnixTime: nat, randomBytes: seq<Byte>)

  predicate ValidRandom(r: Random)
  {
    r.gmtUnixTime < Pow256(4) && |r.randomBytes| == 28
  }

  function WriteRandom(r: Random): seq<Byte>
  {
    EncodeUint(r.gmtUnixTime, 4) + r.randomBytes
  }

  function ParseRandom(s: seq<Byte>): (r: Parsed<Random>)
    ensures r.Success? <==> |s| >= 32
    ensures r.Failure? ==> r.error == Malformed
    ensures r.Success? ==> ValidRandom(r.value.0) && s == WriteRandom(r.value.0) + r.value.1
  {
    var t :- ReadUint(s, 4);
    var b :- ReadFixed(t.1, 28);
    Consecutive(s, EncodeUint(t.0, 4), t.1, b.0, b.1);
    Success((Random(t.0, b.0), b.1))
  }

  lemma ParseRandomWritten(r: Random, rest: seq<Byte>)
    requires ValidRandom(r)
    ensures ParseRandom(WriteRandom(r) + rest) == Success((r, rest))
  {
    Consecutive(EncodeUint(r.gmtUnixTime, 4) + (r.randomBytes + rest), EncodeUint(r.gmtUnixTime, 4), r.randomBytes + rest, r.randomBytes, rest);
    ReadUintWritten(r.gmtUnixTime, 4, r.randomBytes + rest);
    ReadFixedWritten(r.randomBytes, rest);
  }

  // ---------------------------------------------------------------------------
  // Hello messages (section 7.4.1 of RFC 5246)

  /** An extension: its type as a two-byte integer, then its data as an opaque vector with a two-byte length. */
  datatype Extension = Extension(extensionType: nat, data: seq<Byte>)

  predicate ValidExtension(e: Extension)
  {
    e.extensionType < Pow256(2) && |e.data| < Pow256(2)
  }

  function WriteExtension(e: Extension): seq<Byte>
  {
    EncodeUint(e.extensionType, 2) + WriteOpaque(e.data, 2)
  }

  function ParseExtension(s: seq<Byte>): (r: Parsed<Extension>)
    ensures r.Failure? ==> r.error == Malformed
    ensures r.Success? ==> ValidExtension(r.value.0) && s == WriteExtension(r.value.0) + r.value.1
  {
    var t :- ReadUint(s, 2);
    var d :- ReadOpaque(t.1, 2);
    Consecutive(s, EncodeUint(t.0, 2), t.1, WriteOpaque(d.0, 2), d.1);
    Success((Extension(t.0, d.0), d.1))
  }

  lemma ParseExtensionWritten(e: Extension, rest: seq<Byte>)
    requires ValidExtension(e)
    ensures ParseExtension(WriteExtension(e) + rest) == Success((e, rest))
  {
    var d := WriteOpaque(e.data, 2) + rest;
    Consecutive(EncodeUint(e.extensionType, 2) + d, EncodeUint(e.extensionType, 2), d, WriteOpaque(e.data, 2), rest);
    ReadUintWritten(e.extensionType, 2, d);
    ReadOpaqueWritten(e.data, 2, rest);
  }

  function ExtensionCodec(): Codec<Extension>
  {
    Codec(ParseExtension, WriteExtension, ValidExtension)
  }

  /** Extensions read back as written, and are written back as read. */
  lemma ExtensionCodecSound()
    ensures Sound(ExtensionCodec())
  {
    var c := ExtensionCodec();
    forall e, rest | c.valid(e) ensures c.read(c.write(e) + rest) == Success((e, rest)) {
      ParseExtensionWritten(e, rest);
    }
    SoundByParts(c);
  }

  /** Cipher suites are two-byte integers. */
  function CipherSuiteCodec(): Codec<nat>
  {
    UintCodec(2)
  }

  datatype ClientHello = ClientHello(
    clientVersion: ProtocolVersion,
    random: Random,
    sessionId: seq<Byte>,
    cipherSuites: seq<nat>,
    compressionMethods: seq<Byte>,
    extensions: seq<Extension>)

  predicate ValidClientHello(h: ClientHello)
  {
    && ValidRandom(h.random)
    && |h.sessionId| < Pow256(1)
    && ValidList(h.cipherSuites, 2, CipherSuiteCodec())
    && |h.compressionMethods| < Pow256(1)
    && ValidList(h.extensions, 2, ExtensionCodec())
  }

  /**
   * The version, the random, the session id with a one-byte length, the
   * cipher suites with a two-byte length, the compression methods with a
   * one-byte length, and the extensions with a two-byte length.
   */
  function WriteClientHello(h: ClientHello): seq<Byte>
  {
    WriteProtocolVersion(h.clientVersion) + WriteRandom(h.random) + WriteOpaque(h.sessionId, 1)
      + WriteList(h.cipherSuites, 2, CipherSuiteCodec()) + WriteOpaque(h.compressionMethods, 1)
      + WriteList(h.extensions, 2, ExtensionCodec())
  }

  function ParseClientHello(s: seq<Byte>): (r: Parsed<ClientHello>)
  {
    UintCodecSound(2);
    ExtensionCodecSound();
    var v :- ParseProtocolVersion(s);
    var rnd :- ParseRandom(v.1);
    var sid :- ReadOpaque(rnd.1, 1);
    var cs :- ReadList(sid.1, 2, CipherSuiteCodec());
    var cm :- ReadOpaque(cs.1, 1);
    var ext :- ReadList(cm.1, 2, ExtensionCodec());
    Success((ClientHello(v.0, rnd.0, sid.0, cs.0, cm.0, ext.0), ext.1))
  }

  /** A ClientHello that parses is valid, and `s` is its encoding followed by what is left. */
  lemma ParseClientHelloRead(s: seq<Byte>)
    requires ParseClientHello(s).Success?
    ensures ValidClientHello(ParseClientHello(s).value.0)
    ensures s == WriteClientHello(ParseClientHello(s).value.0) + ParseClientHello(s).value.1
  {
    UintCodecSound(2);
    ExtensionCodecSound();
    var v := ParseProtocolVersion(s).value;
    var rnd := ParseRandom(v.1).value;
    var sid := ReadOpaque(rnd.1, 1).value;
    var cs := ReadList(sid.1, 2, CipherSuiteCodec()).value;
    var cm := ReadOpaque(cs.1, 1).value;
    var ext := ReadList(cm.1, 2, ExtensionCodec()).value;
    assert ParseClientHello(s).value == (ClientHello(v.0, rnd.0, sid.0, cs.0, cm.0, ext.0), ext.1);
    WriteListRead(sid.1, 2, CipherSuiteCodec());
    WriteListRead(cm.1, 2, ExtensionCodec());
    var a := WriteProtocolVersion(v.0);
    Consecutive(s, a, v.1, WriteRandom(rnd.0), rnd.1);
    var b := a + WriteRandom(rnd.0);
    Consecutive(s, b, rnd.1, WriteOpaque(sid.0, 1), sid.1);
    var c := b + WriteOpaque(sid.0, 1);
    Consecutive(s, c, sid.1, WriteList(cs.0, 2, CipherSuiteCodec()), cs.1);
    var d := c + WriteList(cs.0, 2, CipherSuiteCodec());
    Consecutive(s, d, cs.1, WriteOpaque(cm.0, 1), cm.1);
    var e := d + WriteOpaque(cm.0, 1);
    Consecutive(s, e, cm.1, WriteList(ext.0, 2, ExtensionCodec()), ext.1);
  }

  lemma ParseClientHelloWritten(h: ClientHello, rest: seq<Byte>)
    requires ValidClientHello(h)
    ensures ParseClientHello(WriteClientHello(h) + rest) == Success((h, rest))
  {
    UintCodecSound(2);
    ExtensionCodecSound();
    var pv, rn, si := WriteProtocolVersion(h.clientVersion), WriteRandom(h.random), WriteOpaque(h.sessionId, 1);
    var cl, co, el := WriteList(h.cipherSuites, 2, CipherSuiteCodec()), WriteOpaque(h.compressionMethods, 1), WriteList(h.extensions, 2, ExtensionCodec());
    var e := el + rest;
    var m := co + e;
    var c := cl + m;
    var i := si + c;
    var r := rn + i;
    Consecutive(pv + r, pv, r, rn, i);
    Consecutive(pv + r, pv + rn, i, si, c);
    Consecutive(pv + r, pv + rn + si, c, cl, m);
    Consecutive(pv + r, pv + rn + si + cl, m, co, e);
    Consecutive(pv + r, pv + rn + si + cl + co, e, el, rest);
    ParseProtocolVersionWritten(h.clientVersion, r);
    ParseRandomWritten(h.random, i);
    ReadOpaqueWritten(h.sessionId, 1, c);
    ReadListWritten(h.cipherSuites, 2, CipherSuiteCodec(), m);
    ReadOpaqueWritten(h.compressionMethods, 1, e);
    ReadListWritten(h.extensions, 2, ExtensionCodec(), rest);
  }

  datatype ServerHello = ServerHello(
    serverVersion: ProtocolVersion,
    random: Random,
    sessionId: seq<Byte>,
    cipherSuite: nat,
    compressionMethod: Byte,
    extensions: seq<Extension>)

  predicate ValidServerHello(h: ServerHello)
  {
    && ValidRandom(h.random)
    && |h.sessionId| < Pow256(1)
    && h.cipherSuite < Pow256(2)
    && ValidList(h.extensions, 2, ExtensionCodec())
  }

  /**
   * The version, the random, the session id with a one-byte length, the
   * chosen cipher suite in two bytes, the chosen compression method in one,
   * and the extensions with a two-byte length.
   */
  function WriteServerHello(h: ServerHello): seq<Byte>
  {
    WriteProtocolVersion(h.serverVersion) + WriteRandom(h.random) + WriteOpaque(h.sessionId, 1)
      + EncodeUint(h.cipherSuite, 2) + [h.compressionMethod]
      + WriteList(h.extensions, 2, ExtensionCodec())
  }

  function ParseServerHello(s: seq<Byte>): (r: Parsed<ServerHello>)
  {
    var v :- ParseProtocolVersion(s);
    var rnd :- ParseRandom(v.1);
    var sid :- ReadOpaque(rnd.1, 1);
    var cs :- ReadUint(sid.1, 2);
    var cm :- ReadFixed(cs.1, 1);
    ExtensionCodecSound();
    var ext :- ReadList(cm.1, 2, ExtensionCodec());
    Success((ServerHello(v.0, rnd.0, sid.0, cs.0, cm.0[0], ext.0), ext.1))
  }

  /** A ServerHello that parses is valid, and `s` is its encoding followed by what is left. */
  lemma ParseServerHelloRead(s: seq<Byte>)
    requires ParseServerHello(s).Success?
    ensures ValidServerHello(ParseServerHello(s).value.0)
    ensures s == WriteServerHello(ParseServerHello(s).value.0) + ParseServerHello(s).value.1
  {
    ExtensionCodecSound();
    var v := ParseProtocolVersion(s).value;
    var rnd := ParseRandom(v.1).value;
    var sid := ReadOpaque(rnd.1, 1).value;
    var cs := ReadUint(sid.1, 2).value;
    var cm := ReadFixed(cs.1, 1).value;
    var ext := ReadList(cm.1, 2, ExtensionCodec()).value;
    assert ParseServerHello(s).value == (ServerHello(v.0, rnd.0, sid.0, cs.0, cm.0[0], ext.0), ext.1);
    WriteListRead(cm.1, 2, ExtensionCodec());
    assert cm.0 == [cm.0[0]];
    var a := WriteProtocolVersion(v.0);
    Consecutive(s, a, v.1, WriteRandom(rnd.0), rnd.1);
    var b := a + WriteRandom(rnd.0);
    Consecutive(s, b, rnd.1, WriteOpaque(sid.0, 1), sid.1);
    var c := b + WriteOpaque(sid.0, 1);
    Consecutive(s, c, sid.1, EncodeUint(cs.0, 2), cs.1);
    var d := c + EncodeUint(cs.0, 2);
    Consecutive(s, d, cs.1, [cm.0[0]], cm.1);
    var e := d + [cm.0[0]];
    Consecutive(s, e, cm.1, WriteList(ext.0, 2, ExtensionCodec()), ext.1);
  }

  lemma ParseServerHelloWritten(h: ServerHello, rest: seq<Byte>)
    requires ValidServerHello(h)
    ensures ParseServerHello(WriteServerHello(h) + rest) == Success((h, rest))
  {
    ExtensionCodecSound();
    var pv, rn, si := WriteProtocolVersion(h.serverVersion), WriteRandom(h.random), WriteOpaque(h.sessionId, 1);
    var cl, co, el := EncodeUint(h.cipherSuite, 2), [h.compressionMethod], WriteList(h.extensions, 2, ExtensionCodec());
    var e := el + rest;
    var m := co + e;
    var c := cl + m;
    var i := si + c;
    var r := rn + i;
    Consecutive(pv + r, pv, r, rn, i);
    Consecutive(pv + r, pv + rn, i, si, c);
    Consecutive(pv + r, pv + rn + si, c, cl, m);
    Consecutive(pv + r, pv + rn + si + cl, m, co, e);
    Consecutive(pv + r, pv + rn + si + cl + co, e, el, rest);
    ParseProtocolVersionWritten(h.serverVersion, r);
    ParseRandomWritten(h.random, i);
    ReadOpaqueWritten(h.sessionId, 1, c);
    ReadUintWritten(h.cipherSuite, 2, m);
    ReadFixedWritten([h.compressionMethod], e);
    ReadListWritten(h.extensions, 2, ExtensionCodec(), rest);
  }

  // ---------------------------------------------------------------------------
  // Certificate (section 7.4.2 of RFC 5246)

  /** The certificate chain, each certificate opaque. */
  datatype Certificate = Certificate(certificateList: seq<seq<Byte>>)

  /** Each certificate is an opaque vector with a four-byte length. */
  function AsnCertCodec(): Codec<seq<Byte>>
  {
    OpaqueCodec(4)
  }

  predicate ValidCertificate(c: Certificate)
  {
    ValidList(c.certificateList, 4, AsnCertCodec())
  }

  /** The certificates, back to back, after their total length in four bytes. */
  function WriteCertificate(c: Certificate): seq<Byte>
  {
    WriteList(c.certificateList, 4, AsnCertCodec())
  }

  function ParseCertificate(s: seq<Byte>): (r: Parsed<Certificate>)
    ensures r.Success? ==> ValidCertificate(r.value.0) && s == WriteCertificate(r.value.0) + r.value.1
  {
    OpaqueCodecSound(4);
    var l :- ReadList(s, 4, AsnCertCodec());
    WriteListRead(s, 4, AsnCertCodec());
    Success((Certificate(l.0), l.1))
  }

  lemma ParseCertificateWritten(c: Certificate, rest: seq<Byte>)
    requires ValidCertificate(c)
    ensures ParseCertificate(WriteCertificate(c) + rest) == Success((c, rest))
  {
    OpaqueCodecSound(4);
    ReadListWritten(c.certificateList, 4, AsnCertCodec(), rest);
  }

  // ---------------------------------------------------------------------------
  // CertificateRequest (section 7.4.4 of RFC 5246)

  datatype SignatureAndHashAlgorithm = SignatureAndHashAlgorithm(hash: HashAlgorithm, signature: SignatureAlgorithm)

  /** The hash algorithm's byte, then the signature algorithm's. */
  function WriteSignatureAndHashAlgorithm(a: SignatureAndHashAlgorithm): seq<Byte>
  {
    [HashAlgorithmCode(a.hash), SignatureAlgorithmCode(a.signature)]
  }

  function ParseSignatureAndHashAlgorithm(s: seq<Byte>): (r: Parsed<SignatureAndHashAlgorithm>)
    ensures r.Success? ==> s == WriteSignatureAndHashAlgorithm(r.value.0) + r.value.1
    ensures |s| >= 2 && DecodeHashAlgorithm(s[0]).Success? && DecodeSignatureAlgorithm(s[1]).Success? ==> r.Success?
  {
    var h :- ReadEnum(s, DecodeHashAlgorithm);
    var g :- ReadEnum(h.1, DecodeSignatureAlgorithm);
    assert s == [s[0], s[1]] + g.1;
    Success((SignatureAndHashAlgorithm(h.0, g.0), g.1))
  }

  lemma ParseSignatureAndHashAlgorithmWritten(a: SignatureAndHashAlgorithm, rest: seq<Byte>)
    ensures ParseSignatureAndHashAlgorithm(WriteSignatureAndHashAlgorithm(a) + rest) == Success((a, rest))
  {
    HashAlgorithmCodes();
    SignatureAlgorithmCodes();
    var s := WriteSignatureAndHashAlgorithm(a) + rest;
    assert s[1..][1..] == rest;
  }

  function SignatureAndHashAlgorithmCodec(): Codec<SignatureAndHashAlgorithm>
  {
    Codec(ParseSignatureAndHashAlgorithm, WriteSignatureAndHashAlgorithm, a => true)
  }

  /** Signature-and-hash pairs read back as written, and are written back as read. */
  lemma SignatureAndHashAlgorithmCodecSound()
    ensures Sound(SignatureAndHashAlgorithmCodec())
  {
    var c := SignatureAndHashAlgorithmCodec();
    forall a, rest | c.valid(a) ensures c.read(c.write(a) + rest) == Success((a, rest)) {
      ParseSignatureAndHashAlgorithmWritten(a, rest);
    }
    SoundByParts(c);
  }

  function ClientCertificateTypeCodec(): Codec<ClientCertificateType>
  {
    EnumCodec(ClientCertificateTypeCode, DecodeClientCertificateType)
  }

  datatype CertificateRequest = CertificateRequest(
    certificateTypes: seq<ClientCertificateType>,
    supportedSignatureAlgorithms: seq<SignatureAndHashAlgorithm>,
    certificateAuthorities: seq<Byte>)

  predicate ValidCertificateRequest(r: CertificateRequest)
  {
    && ValidList(r.certificateTypes, 1, ClientCertificateTypeCodec())
    && ValidList(r.supportedSignatureAlgorithms, 2, SignatureAndHashAlgorithmCodec())
    && |r.certificateAuthorities| < Pow256(2)
  }

  /**
   * The certificate types with a one-byte length, the signature-and-hash
   * pairs with a two-byte length, and the authorities as one opaque vector
   * with a two-byte length.
   */
  function WriteCertificateRequest(r: CertificateRequest): seq<Byte>
  {
    WriteList(r.certificateTypes, 1, ClientCertificateTypeCodec())
      + WriteList(r.supportedSignatureAlgorithms, 2, SignatureAndHashAlgorithmCodec())
      + WriteOpaque(r.certificateAuthorities, 2)
  }

  function ParseCertificateRequest(s: seq<Byte>): (r: Parsed<CertificateRequest>)
  {
    ClientCertificateTypeCodes();
    EnumCodecSound(ClientCertificateTypeCode, DecodeClientCertificateType);
    SignatureAndHashAlgorithmCodecSound();
    var types :- ReadList(s, 1, ClientCertificateTypeCodec());
    var algs :- ReadList(types.1, 2, SignatureAndHashAlgorithmCodec());
    var auth :- ReadOpaque(algs.1, 2);
    Success((CertificateRequest(types.0, algs.0, auth.0), auth.1))
  }

  /** A CertificateRequest that parses is valid, and `s` is its encoding followed by what is left. */
  lemma ParseCertificateRequestRead(s: seq<Byte>)
    requires ParseCertificateRequest(s).Success?
    ensures ValidCertificateRequest(ParseCertificateRequest(s).value.0)
    ensures s == WriteCertificateRequest(ParseCertificateRequest(s).value.0) + ParseCertificateRequest(s).value.1
  {
    ClientCertificateTypeCodes();
    EnumCodecSound(ClientCertificateTypeCode, DecodeClientCertificateType);
    SignatureAndHashAlgorithmCodecSound();
    var types := ReadList(s, 1, ClientCertificateTypeCodec()).value;
    var algs := ReadList(types.1, 2, SignatureAndHashAlgorithmCodec()).value;
    var auth := ReadOpaque(algs.1, 2).value;
    assert ParseCertificateRequest(s).value == (CertificateRequest(types.0, algs.0, auth.0), auth.1);
    WriteListRead(s, 1, ClientCertificateTypeCodec());
    WriteListRead(types.1, 2, SignatureAndHashAlgorithmCodec());
    var a := WriteList(types.0, 1, ClientCertificateTypeCodec());
    Consecutive(s, a, types.1, WriteList(algs.0, 2, SignatureAndHashAlgorithmCodec()), algs.1);
    Consecutive(s, a + WriteList(algs.0, 2, SignatureAndHashAlgorithmCodec()), algs.1, WriteOpaque(auth.0, 2), auth.1);
  }

  lemma ParseCertificateRequestWritten(r: CertificateRequest, rest: seq<Byte>)
    requires ValidCertificateRequest(r)
    ensures ParseCertificateRequest(WriteCertificateRequest(r) + rest) == Success((r, rest))
  {
    ClientCertificateTypeCodes();
    EnumCodecSound(ClientCertificateTypeCode, DecodeClientCertificateType);
    SignatureAndHashAlgorithmCodecSound();
    var tl, al, ca := WriteList(r.certificateTypes, 1, ClientCertificateTypeCodec()),
      WriteList(r.supportedSignatureAlgorithms, 2, SignatureAndHashAlgorithmCodec()), WriteOpaque(r.certificateAuthorities, 2);
    var a := ca + rest;
    var g := al + a;
    Consecutive(tl + g, tl, g, al, a);
    Consecutive(tl + g, tl + al, a, ca, rest);
    ReadListWritten(r.certificateTypes, 1, ClientCertificateTypeCodec(), g);
    ReadListWritten(r.supportedSignatureAlgorithms, 2, SignatureAndHashAlgorithmCodec(), a);
    ReadOpaqueWritten(r.certificateAuthorities, 2, rest);
  }

  // ---------------------------------------------------------------------------
  // ServerDHParams (section 7.4.3 of RFC 5246) and PreMasterSecret (section 7.4.7.1)

  datatype ServerDhParams = ServerDhParams(dhP: seq<Byte>, dhG: seq<Byte>, dhYs: seq<Byte>)

  predicate ValidServerDhParams(p: ServerDhParams)
  {
    |p.dhP| < Pow256(2) && |p.dhG| < Pow256(2) && |p.dhYs| < Pow256(2)
  }

  /** The prime, the generator and the public value, each an opaque vector with a two-byte length. */
  function WriteServerDhParams(p: ServerDhParams): seq<Byte>
  {
    WriteOpaque(p.dhP, 2) + WriteOpaque(p.dhG, 2) + WriteOpaque(p.dhYs, 2)
  }

  function ParseServerDhParams(s: seq<Byte>): (r: Parsed<ServerDhParams>)
    ensures r.Failure? ==> r.error == Malformed
    ensures r.Success? ==> ValidServerDhParams(r.value.0) && s == WriteServerDhParams(r.value.0) + r.value.1
  {
    var p :- ReadOpaque(s, 2);
    var g :- ReadOpaque(p.1, 2);
    var y :- ReadOpaque(g.1, 2);
    Consecutive(s, WriteOpaque(p.0, 2), p.1, WriteOpaque(g.0, 2), g.1);
    Consecutive(s, WriteOpaque(p.0, 2) + WriteOpaque(g.0, 2), g.1, WriteOpaque(y.0, 2), y.1);
    Success((ServerDhParams(p.0, g.0, y.0), y.1))
  }

  lemma ParseServerDhParamsWritten(p: ServerDhParams, rest: seq<Byte>)
    requires ValidServerDhParams(p)
    ensures ParseServerDhParams(WriteServerDhParams(p) + rest) == Success((p, rest))
  {
    var dp, dg, dy := WriteOpaque(p.dhP, 2), WriteOpaque(p.dhG, 2), WriteOpaque(p.dhYs, 2);
    var y := dy + rest;
    var g := dg + y;
    Consecutive(dp + g, dp, g, dg, y);
    Consecutive(dp + g, dp + dg, y, dy, rest);
    ReadOpaqueWritten(p.dhP, 2, g);
    ReadOpaqueWritten(p.dhG, 2, y);
    ReadOpaqueWritten(p.dhYs, 2, rest);
  }

  datatype PreMasterSecret = PreMasterSecret(clientVersion: ProtocolVersion, random: seq<Byte>)

  predicate ValidPreMasterSecret(p: PreMasterSecret)
  {
    |p.random| == 46
  }

  /** The client's version, then 46 random bytes. */
  function WritePreMasterSecret(p: PreMasterSecret): seq<Byte>
  {
    WriteProtocolVersion(p.clientVersion) + p.random
  }

  function ParsePreMasterSecret(s: seq<Byte>): (r: Parsed<PreMasterSecret>)
    ensures r.Success? <==> |s| >= 48
    ensures r.Failure? ==> r.error == Malformed
    ensures r.Success? ==> ValidPreMasterSecret(r.value.0) && s == WritePreMasterSecret(r.value.0) + r.value.1
  {
    var v :- ParseProtocolVersion(s);
    var b :- ReadFixed(v.1, 46);
    Consecutive(s, WriteProtocolVersion(v.0), v.1, b.0, b.1);
    Success((PreMasterSecret(v.0, b.0), b.1))
  }

  lemma ParsePreMasterSecretWritten(p: PreMasterSecret, rest: seq<Byte>)
    requires ValidPreMasterSecret(p)
    ensures ParsePreMasterSecret(WritePreMasterSecret(p) + rest) == Success((p, rest))
  {
    var v := WriteProtocolVersion(p.clientVersion);
    Consecutive(v + (p.random + rest), v, p.random + rest, p.random, rest);
    ParseProtocolVersionWritten(p.clientVersion, p.random + rest);
    ReadFixedWritten(p.random, rest);
  }

  // ---------------------------------------------------------------------------
  // Each structure as a codec

  function ClientHelloCodec(): Codec<ClientHello>
  {
    Codec(ParseClientHello, WriteClientHello, ValidClientHello)
  }

  /** ClientHello messages read back as written, and are written back exactly as read. */
  lemma ClientHelloCodecSound()
    ensures Sound(ClientHelloCodec())
  {
    var c := ClientHelloCodec();
    forall h, rest | c.valid(h) ensures c.read(c.write(h) + rest) == Success((h, rest)) {
      ParseClientHelloWritten(h, rest);
    }
    forall s | c.read(s).Success?
      ensures c.valid(c.read(s).value.0) && s == c.write(c.read(s).value.0) + c.read(s).value.1
    {
      ParseClientHelloRead(s);
    }
    SoundByParts(c);
  }

  function ServerHelloCodec(): Codec<ServerHello>
  {
    Codec(ParseServerHello, WriteServerHello, ValidServerHello)
  }

  /** ServerHello messages read back as written, and are written back exactly as read. */
  lemma ServerHelloCodecSound()
    ensures Sound(ServerHelloCodec())
  {
    var c := ServerHelloCodec();
    forall h, rest | c.valid(h) ensures c.read(c.write(h) + rest) == Success((h, rest)) {
      ParseServerHelloWritten(h, rest);
    }
    forall s | c.read(s).Success?
      ensures c.valid(c.read(s).value.0) && s == c.write(c.read(s).value.0) + c.read(s).value.1
    {
      ParseServerHelloRead(s);
    }
    SoundByParts(c);
  }

  function CertificateCodec(): Codec<Certificate>
  {
    Codec(ParseCertificate, WriteCertificate, ValidCertificate)
  }

  /** Certificate messages read back as written, and are written back exactly as read. */
  lemma CertificateCodecSound()
    ensures Sound(CertificateCodec())
  {
    var c := CertificateCodec();
    forall x, rest | c.valid(x) ensures c.read(c.write(x) + rest) == Success((x, rest)) {
      ParseCertificateWritten(x, rest);
    }
    SoundByParts(c);
  }

  function CertificateRequestCodec(): Codec<CertificateRequest>
  {
    Codec(ParseCertificateRequest, WriteCertificateRequest, ValidCertificateRequest)
  }

  /** CertificateRequest messages read back as written, and are written back exactly as read. */
  lemma CertificateRequestCodecSound()
    ensures Sound(CertificateRequestCodec())
  {
    var c := CertificateRequestCodec();
    forall q, rest | c.valid(q) ensures c.read(c.write(q) + rest) == Success((q, rest)) {
      ParseCertificateRequestWritten(q, rest);
    }
    forall s | c.read(s).Success?
      ensures c.valid(c.read(s).value.0) && s == c.write(c.read(s).value.0) + c.read(s).value.1
    {
      ParseCertificateRequestRead(s);
    }
    SoundByParts(c);
  }

  function ServerDhParamsCodec(): Codec<ServerDhParams>
  {
    Codec(ParseServerDhParams, WriteServerDhParams, ValidServerDhParams)
  }

  /** Diffie-Hellman parameters read back as written, and are written back exactly as read. */
  lemma ServerDhParamsCodecSound()
    ensures Sound(ServerDhParamsCodec())
  {
    var c := ServerDhParamsCodec();
    forall p, rest | c.valid(p) ensures c.read(c.write(p) + rest) == Success((p, rest)) {
      ParseServerDhParamsWritten(p, rest);
    }
    SoundByParts(c);
  }

  function PreMasterSecretCodec(): Codec<PreMasterSecret>
  {
    Codec(ParsePreMasterSecret, WritePreMasterSecret, ValidPreMasterSecret)
  }

  /** Premaster secrets read back as written, and are written back exactly as read. */
  lemma PreMasterSecretCodecSound()
    ensures Sound(PreMasterSecretCodec())
  {
    var c := PreMasterSecretCodec();
    forall p, rest | c.valid(p) ensures c.read(c.write(p) + rest) == Success((p, rest)) {
      ParsePreMasterSecretWritten(p, rest);
    }
    SoundByParts(c);
  }

  // ---------------------------------------------------------------------------
  // The envelope (section 7.4 of RFC 5246)

  /** The bodies the envelope parses; `HelloRequest` and `ServerHelloDone` are empty. */
  datatype Body =
    | HelloRequest
    | ClientHelloBody(clientHello: ClientHello)
    | ServerHelloBody(serverHello: ServerHello)
    | CertificateBody(certificate: Certificate)
    | CertificateRequestBody(certificateRequest: CertificateRequest)
    | ServerHelloDone

  /** `length` counts the body's bytes; `body` is absent for a type with no body parser. */
  datatype Handshake = Handshake(msgType: HandshakeType, length: nat, body: Option<Body>)

  /** The message types whose bodies are parsed; the others are recognised but their bodies skipped. */
  predicate HasBodyParser(t: HandshakeType)
  {
    t.HelloRequestType? || t.ClientHelloType? || t.ServerHelloType? || t.CertificateType?
      || t.CertificateRequestType? || t.ServerHelloDoneType?
  }

  function TypeOf(b: Body): (t: HandshakeType)
    ensures HasBodyParser(t)
  {
    match b
    case HelloRequest => HelloRequestType
    case ClientHelloBody(_) => ClientHelloType
    case ServerHelloBody(_) => ServerHelloType
    case CertificateBody(_) => CertificateType
    case CertificateRequestBody(_) => CertificateRequestType
    case ServerHelloDone => ServerHelloDoneType
  }

  predicate ValidBody(b: Body)
  {
    match b
    case HelloRequest => true
    case ClientHelloBody(h) => ValidClientHello(h)
    case ServerHelloBody(h) => ValidServerHello(h)
    case CertificateBody(c) => ValidCertificate(c)
    case CertificateRequestBody(r) => ValidCertificateRequest(r)
    case ServerHelloDone => true
  }

  function WriteBody(b: Body): seq<Byte>
  {
    match b
    case HelloRequest => []
    case ClientHelloBody(h) => WriteClientHello(h)
    case ServerHelloBody(h) => WriteServerHello(h)
    case CertificateBody(c) => WriteCertificate(c)
    case CertificateRequestBody(r) => WriteCertificateRequest(r)
    case ServerHelloDone => []
  }

  /** The whole of `s` as the body of a message of type `t`: absent when `t` has no body parser. */
  function ParseBody(t: HandshakeType, s: seq<Byte>): Result<Option<Body>, ParseError>
  {
    match t
    case HelloRequestType => if s == [] then Success(Some(HelloRequest)) else Failure(Malformed)
    case ClientHelloType =>
      var h :- ParseClientHello(s);
      if h.1 == [] then Success(Some(ClientHelloBody(h.0))) else Failure(Malformed)
    case ServerHelloType =>
      var h :- ParseServerHello(s);
      if h.1 == [] then Success(Some(ServerHelloBody(h.0))) else Failure(Malformed)
    case CertificateType =>
      var c :- ParseCertificate(s);
      if c.1 == [] then Success(Some(CertificateBody(c.0))) else Failure(Malformed)
    case CertificateRequestType =>
      var q :- ParseCertificateRequest(s);
      if q.1 == [] then Success(Some(CertificateRequestBody(q.0))) else Failure(Malformed)
    case ServerHelloDoneType => if s == [] then Success(Some(ServerHelloDone)) else Failure(Malformed)
    case _ => Success(None)
  }

  /**
   * A body is present exactly when the type has a parser; a present body has
   * that type, is valid, and is encoded as all of `s`.
   */
  lemma ParseBodyRead(t: HandshakeType, s: seq<Byte>)
    ensures !HasBodyParser(t) ==> ParseBody(t, s) == Success(None)
    ensures ParseBody(t, s).Success? ==> (ParseBody(t, s).value.Some? <==> HasBodyParser(t))
    ensures ParseBody(t, s).Success? && ParseBody(t, s).value.Some? ==>
      var b := ParseBody(t, s).value.value;
      TypeOf(b) == t && ValidBody(b) && WriteBody(b) == s
  {
    match t
    case ClientHelloType => ClientHelloBodyRead(s);
    case ServerHelloType => ServerHelloBodyRead(s);
    case CertificateType => CertificateBodyRead(s);
    case CertificateRequestType => CertificateRequestBodyRead(s);
    case _ =>
  }

  lemma ParseBodyWritten(b: Body)
    requires ValidBody(b)
    ensures ParseBody(TypeOf(b), WriteBody(b)) == Success(Some(b))
  {
    match b
    case HelloRequest =>
    case ClientHelloBody(h) => ParseClientHelloBodyWritten(h);
    case ServerHelloBody(h) => ParseServerHelloBodyWritten(h);
    case CertificateBody(c) => ParseCertificateBodyWritten(c);
    case CertificateRequestBody(r) => ParseCertificateRequestBodyWritten(r);
    case ServerHelloDone =>
  }

  // Each structured body, read as a whole and written back: one group of
  // lemmas per body type, so that each proof opens one parser only.

  lemma ClientHelloBodyRead(s: seq<Byte>)
    ensures ParseBody(ClientHelloType, s).Success? ==>
      && ParseBody(ClientHelloType, s).value.Some?
      && var b := ParseBody(ClientHelloType, s).value.value;
      TypeOf(b) == ClientHelloType && ValidBody(b) && WriteBody(b) == s
  {
    if ParseClientHello(s).Success? { ParseClientHelloRead(s); }
  }

  lemma ClientHelloBodyOf(s: seq<Byte>, h: ClientHello)
    requires ParseClientHello(s) == Success((h, []))
    ensures ParseBody(ClientHelloType, s) == Success(Some(ClientHelloBody(h)))
  {
  }

  lemma ParseClientHelloBodyWritten(h: ClientHello)
    requires ValidClientHello(h)
    ensures ParseBody(ClientHelloType, WriteClientHello(h)) == Success(Some(ClientHelloBody(h)))
  {
    ParseClientHelloExactly(h);
    ClientHelloBodyOf(WriteClientHello(h), h);
  }

  lemma ParseClientHelloExactly(h: ClientHello)
    requires ValidClientHello(h)
    ensures ParseClientHello(WriteClientHello(h)) == Success((h, []))
  {
    ParseClientHelloWritten(h, []);
    assert WriteClientHello(h) + [] == WriteClientHello(h);
  }

  lemma ServerHelloBodyRead(s: seq<Byte>)
    ensures ParseBody(ServerHelloType, s).Success? ==>
      && ParseBody(ServerHelloType, s).value.Some?
      && var b := ParseBody(ServerHelloType, s).value.value;
      TypeOf(b) == ServerHelloType && ValidBody(b) && WriteBody(b) == s
  {
    if ParseServerHello(s).Success? { ParseServerHelloRead(s); }
  }

  lemma ServerHelloBodyOf(s: seq<Byte>, h: ServerHello)
    requires ParseServerHello(s) == Success((h, []))
    ensures ParseBody(ServerHelloType, s) == Success(Some(ServerHelloBody(h)))
  {
  }

  lemma ParseServerHelloBodyWritten(h: ServerHello)
    requires ValidServerHello(h)
    ensures ParseBody(ServerHelloType, WriteServerHello(h)) == Success(Some(ServerHelloBody(h)))
  {
    ParseServerHelloExactly(h);
    ServerHelloBodyOf(WriteServerHello(h), h);
  }

  lemma ParseServerHelloExactly(h: ServerHello)
    requires ValidServerHello(h)
    ensures ParseServerHello(WriteServerHello(h)) == Success((h, []))
  {
    ParseServerHelloWritten(h, []);
    assert WriteServerHello(h) + [] == WriteServerHello(h);
  }

  lemma CertificateBodyRead(s: seq<Byte>)
    ensures ParseBody(CertificateType, s).Success? ==>
      && ParseBody(CertificateType, s).value.Some?
      && var b := ParseBody(CertificateType, s).value.value;
      TypeOf(b) == CertificateType && ValidBody(b) && WriteBody(b) == s
  {
  }

  lemma CertificateBodyOf(s: seq<Byte>, c: Certificate)
    requires ParseCertificate(s) == Success((c, []))
    ensures ParseBody(CertificateType, s) == Success(Some(CertificateBody(c)))
  {
  }

  lemma ParseCertificateBodyWritten(c: Certificate)
    requires ValidCertificate(c)
    ensures ParseBody(CertificateType, WriteCertificate(c)) == Success(Some(CertificateBody(c)))
  {
    ParseCertificateExactly(c);
    CertificateBodyOf(WriteCertificate(c), c);
  }

  lemma ParseCertificateExactly(c: Certificate)
    requires ValidCertificate(c)
    ensures ParseCertificate(WriteCertificate(c)) == Success((c, []))
  {
    ParseCertificateWritten(c, []);
    assert WriteCertificate(c) + [] == WriteCertificate(c);
  }

  lemma CertificateRequestBodyRead(s: seq<Byte>)
    ensures ParseBody(CertificateRequestType, s).Success? ==>
      && ParseBody(CertificateRequestType, s).value.Some?
      && var b := ParseBody(CertificateRequestType, s).value.value;
      TypeOf(b) == CertificateRequestType && ValidBody(b) && WriteBody(b) == s
  {
    if ParseCertificateRequest(s).Success? { ParseCertificateRequestRead(s); }
  }

  lemma CertificateRequestBodyOf(s: seq<Byte>, r: CertificateRequest)
    requires ParseCertificateRequest(s) == Success((r, []))
    ensures ParseBody(CertificateRequestType, s) == Success(Some(CertificateRequestBody(r)))
  {
  }

  lemma ParseCertificateRequestBodyWritten(r: CertificateRequest)
    requires ValidCertificateRequest(r)
    ensures ParseBody(CertificateRequestType, WriteCertificateRequest(r)) == Success(Some(CertificateRequestBody(r)))
  {
    ParseCertificateRequestExactly(r);
    CertificateRequestBodyOf(WriteCertificateRequest(r), r);
  }

  lemma ParseCertificateRequestExactly(r: CertificateRequest)
    requires ValidCertificateRequest(r)
    ensures ParseCertificateRequest(WriteCertificateRequest(r)) == Success((r, []))
  {
    ParseCertificateRequestWritten(r, []);
    assert WriteCertificateRequest(r) + [] == WriteCertificateRequest(r);
  }

  /** The message carrying `b`: its type's byte, the body's length in four bytes, then the body. */
  function WriteHandshake(b: Body): seq<Byte>
  {
    [HandshakeTypeCode(TypeOf(b))] + EncodeUint(|WriteBody(b)|, 4) + WriteBody(b)
  }

  /** The body length a four-byte length field can carry. */
  predicate FitsEnvelope(b: Body)
  {
    ValidBody(b) && |WriteBody(b)| < Pow256(4)
  }

  /** The five-byte header: the message type, then the body's length in four bytes. */
  function ParseHeader(s: seq<Byte>): (r: Parsed<(HandshakeType, nat)>)
    ensures |s| > 0 && DecodeHandshakeType(s[0]).Failure? ==> r == Failure(UnknownHandshakeType(s[0]))
    ensures r.Success? ==> r.value.0.1 < Pow256(4) && s == [HandshakeTypeCode(r.value.0.0)] + EncodeUint(r.value.0.1, 4) + r.value.1
  {
    if |s| == 0 then Failure(Malformed)
    else
      var t :- DecodeHandshakeType(s[0]);
      var n :- ReadUint(s[1..], 4);
      assert s == [s[0]] + s[1..];
      Success(((t, n.0), n.1))
  }

  /**
   * One handshake message: a type byte, a four-byte length, and that many
   * bytes of body; returns the message and the bytes after it.
   */
  function ParseHandshake(s: seq<Byte>): (r: Parsed<Handshake>)
    ensures |s| > 0 && DecodeHandshakeType(s[0]).Failure? ==> r == Failure(UnknownHandshakeType(s[0]))
  {
    var header :- ParseHeader(s);
    var t, n, after := header.0.0, header.0.1, header.1;
    if |after| < n then Failure(Malformed)
    else
      var body :- ParseBody(t, after[..n]);
      Success((Handshake(t, n, body), after[n..]))
  }

  /**
   * A message read takes its five header bytes and exactly `length` more;
   * its body is absent exactly for the types without a body parser, and a
   * body read is valid, of the message's type, and written back as the bytes
   * read, so `length` is its encoded length.
   */
  lemma ParseHandshakeReadsOneMessage(s: seq<Byte>, m: Handshake, rest: seq<Byte>)
    requires ParseHandshake(s) == Success((m, rest))
    ensures 5 + m.length + |rest| == |s|
    ensures s[0] == HandshakeTypeCode(m.msgType)
    ensures m.body.None? <==> !HasBodyParser(m.msgType)
    ensures m.body.Some? ==>
      var b := m.body.value;
      m == Handshake(TypeOf(b), |WriteBody(b)|, Some(b)) && FitsEnvelope(b) && s == WriteHandshake(b) + rest
  {
    var header := ParseHeader(s).value;
    FrameRead(s, header.1, m, rest);
  }

  /** The body of a message, read from the bytes after its header. */
  lemma FrameRead(s: seq<Byte>, after: seq<Byte>, m: Handshake, rest: seq<Byte>)
    requires ParseHeader(s) == Success(((m.msgType, m.length), after))
    requires m.length <= |after| && rest == after[m.length..]
    requires ParseBody(m.msgType, after[..m.length]) == Success(m.body)
    ensures 5 + m.length + |rest| == |s|
    ensures s[0] == HandshakeTypeCode(m.msgType)
    ensures m.body.None? <==> !HasBodyParser(m.msgType)
    ensures m.body.Some? ==>
      var b := m.body.value;
      m == Handshake(TypeOf(b), |WriteBody(b)|, Some(b)) && FitsEnvelope(b) && s == WriteHandshake(b) + rest
  {
    var t, n := m.msgType, m.length;
    ParseBodyRead(t, after[..n]);
    assert after == after[..n] + after[n..];
    if m.body.Some? {
      Consecutive(s, [HandshakeTypeCode(t)] + EncodeUint(n, 4), after, after[..n], after[n..]);
    }
  }

  /** A header written for `t` and a body of `n` bytes gives back `t` and `n`. */
  lemma ParseHeaderWritten(t: HandshakeType, n: nat, after: seq<Byte>)
    requires n < Pow256(4)
    ensures ParseHeader([HandshakeTypeCode(t)] + EncodeUint(n, 4) + after) == Success(((t, n), after))
  {
    HandshakeTypeCodes();
    var s := [HandshakeTypeCode(t)] + EncodeUint(n, 4) + after;
    assert s[1..] == EncodeUint(n, 4) + after;
    ReadUintWritten(n, 4, after);
  }

  /** Reading a written message gives back its type, its body's length and the body. */
  lemma ParseHandshakeWritten(b: Body, rest: seq<Byte>)
    requires FitsEnvelope(b)
    ensures ParseHandshake(WriteHandshake(b) + rest) == Success((Handshake(TypeOf(b), |WriteBody(b)|, Some(b)), rest))
  {
    var body := WriteBody(b);
    assert WriteHandshake(b) + rest == [HandshakeTypeCode(TypeOf(b))] + EncodeUint(|body|, 4) + (body + rest);
    ParseHeaderWritten(TypeOf(b), |body|, body + rest);
    assert (body + rest)[..|body|] == body && (body + rest)[|body|..] == rest;
    ParseBodyWritten(b);
  }

  /** A message cut short anywhere, its header included, is refused: the length field never reaches past the bytes at hand. */
  lemma TruncatedHandshakeRejected(b: Body, k: nat)
    requires FitsEnvelope(b) && k < |WriteHandshake(b)|
    ensures ParseHandshake(WriteHandshake(b)[..k]) == Failure(Malformed)
  {
    TruncatedHeaderOverruns(TypeOf(b), WriteBody(b), k);
  }

  /** The header of a cut-short message is refused, or announces more bytes than follow it. */
  lemma TruncatedHeaderOverruns(t: HandshakeType, body: seq<Byte>, k: nat)
    requires |body| < Pow256(4) && k < 5 + |body|
    ensures var s := ([HandshakeTypeCode(t)] + EncodeUint(|body|, 4) + body)[..k];
      ParseHeader(s).Success? ==> |ParseHeader(s).value.1| < ParseHeader(s).value.0.1
  {
    var n := |body|;
    var w := [HandshakeTypeCode(t)] + EncodeUint(n, 4) + body;
    var s := w[..k];
    if k > 0 {
      HandshakeTypeCodes();
      assert DecodeHandshakeType(s[0]) == Success(t);
      if k < 5 {
        assert ReadUint(s[1..], 4).Failure?;
      } else {
        assert s[1..] == EncodeUint(n, 4) + s[5..];
        ReadUintWritten(n, 4, s[5..]);
        assert |s[5..]| < n;
      }
    }
  }
}
