/**
 * The byte vectors of the message tests, each read by the model to exactly
 * the record the test inspects, with nothing left over. Each packet is
 * written field by field, as the tests lay it out; a `...Written` lemma
 * shows that it is the encoding of the record, and the reading lemma then
 * follows from the round trip.
 */
module MessageVectors {
  import opened Wrappers
  import opened Wire
  import opened Message

  /** The bytes of an ASCII string. */
  function Ascii(t: string): (r: seq<Byte>)
    requires forall i :: 0 <= i < |t| ==> t[i] as int < 256
    ensures |r| == |t| && forall i :: 0 <= i < |t| ==> r[i] == t[i] as int
  {
    seq(|t|, i requires 0 <= i < |t| => t[i] as int)
  }

  // ---------------------------------------------------------------------------
  // CertificateRequest

  /** One certificate type (`rsa_sign`), one pair (MD5 with RSA), and the given authorities. */
  function CertificateRequestOfVector(authorities: seq<Byte>): CertificateRequest
  {
    CertificateRequest([RsaSign], [SignatureAndHashAlgorithm(Md5, Rsa)], authorities)
  }

  lemma CertificateRequestPacketWritten(authorities: seq<Byte>)
    requires |authorities| < 256
    ensures ValidCertificateRequest(CertificateRequestOfVector(authorities))
    ensures WriteCertificateRequest(CertificateRequestOfVector(authorities)) ==
      [1] + [1] + [0, 2] + [1] + [1] + [0, |authorities|] + authorities
  {
    CertificateTypesWritten();
    SignatureAlgorithmsWritten();
    assert EncodeUint(|authorities|, 2) == [0, |authorities|];
  }

  lemma CertificateTypesWritten()
    ensures WriteList([RsaSign], 1, ClientCertificateTypeCodec()) == [1] + [1]
  {
    var types := EnumCodec(ClientCertificateTypeCode, DecodeClientCertificateType);
    assert types.write(RsaSign) == [ClientCertificateTypeCode(RsaSign)];
    assert WriteItems([RsaSign], ClientCertificateTypeCodec()) == [1];
  }

  lemma SignatureAlgorithmsWritten()
    ensures WriteList([SignatureAndHashAlgorithm(Md5, Rsa)], 2, SignatureAndHashAlgorithmCodec()) == [0, 2] + [1] + [1]
  {
    assert SignatureAndHashAlgorithmCodec().write(SignatureAndHashAlgorithm(Md5, Rsa)) == [1, 1];
    assert WriteItems([SignatureAndHashAlgorithm(Md5, Rsa)], SignatureAndHashAlgorithmCodec()) == [1, 1];
  }

  /** `01 01 0002 01 01 0000`: one certificate type, one signature-and-hash pair, no authorities. */
  lemma CertificateRequestVector()
    ensures ParseCertificateRequest([1] + [1] + [0, 2] + [1] + [1] + [0, 0] + []) ==
      Success((CertificateRequest([RsaSign], [SignatureAndHashAlgorithm(Md5, Rsa)], []), []))
  {
    CertificateRequestPacketWritten([]);
    ParseCertificateRequestWritten(CertificateRequestOfVector([]), []);
    assert WriteCertificateRequest(CertificateRequestOfVector([])) + [] == WriteCertificateRequest(CertificateRequestOfVector([]));
  }

  /** The authorities are carried as the opaque bytes they are. */
  lemma CertificateRequestWithAuthoritiesVector()
    ensures ParseCertificateRequest([1] + [1] + [0, 2] + [1] + [1] + [0, 2] + Ascii("03")) ==
      Success((CertificateRequest([RsaSign], [SignatureAndHashAlgorithm(Md5, Rsa)], Ascii("03")), []))
  {
    CertificateRequestPacketWritten(Ascii("03"));
    ParseCertificateRequestWritten(CertificateRequestOfVector(Ascii("03")), []);
    assert WriteCertificateRequest(CertificateRequestOfVector(Ascii("03"))) + [] == WriteCertificateRequest(CertificateRequestOfVector(Ascii("03")));
  }

  // ---------------------------------------------------------------------------
  // ServerDHParams, PreMasterSecret, Certificate

  /** Three opaque vectors: `123`, `5678` and `78`. */
  lemma ServerDhParamsVector()
    ensures ParseServerDhParams([0, 3] + Ascii("123") + [0, 4] + Ascii("5678") + [0, 2] + Ascii("78")) ==
      Success((ServerDhParams(Ascii("123"), Ascii("5678"), Ascii("78")), []))
  {
    var p := ServerDhParams(Ascii("123"), Ascii("5678"), Ascii("78"));
    assert WriteOpaque(p.dhP, 2) == [0, 3] + Ascii("123");
    assert WriteOpaque(p.dhG, 2) == [0, 4] + Ascii("5678");
    assert WriteOpaque(p.dhYs, 2) == [0, 2] + Ascii("78");
    assert WriteServerDhParams(p) + [] == [0, 3] + Ascii("123") + [0, 4] + Ascii("5678") + [0, 2] + Ascii("78");
    ParseServerDhParamsWritten(p, []);
  }

  /** Whatever the 46 random bytes are, they come back unchanged after version 3.0. */
  lemma PreMasterSecretVector(random: seq<Byte>)
    requires |random| == 46
    ensures ParsePreMasterSecret([3, 0] + random) == Success((PreMasterSecret(ProtocolVersion(3, 0), random), []))
  {
    var p := PreMasterSecret(ProtocolVersion(3, 0), random);
    assert WritePreMasterSecret(p) + [] == [3, 0] + random;
    ParsePreMasterSecretWritten(p, []);
  }

  lemma CertificatePacketWritten()
    ensures ValidCertificate(Certificate([Ascii("ABC")]))
    ensures WriteCertificate(Certificate([Ascii("ABC")])) == [0, 0, 0, 7] + ([0, 0, 0, 3] + Ascii("ABC"))
  {
    var c := Certificate([Ascii("ABC")]);
    assert AsnCertCodec().write(Ascii("ABC")) == [0, 0, 0, 3] + Ascii("ABC");
    assert WriteItems(c.certificateList, AsnCertCodec()) == [0, 0, 0, 3] + Ascii("ABC");
  }

  /** `00000007 00000003 ABC`: four-byte lengths, one certificate. */
  lemma CertificateVector()
    ensures ParseCertificate([0, 0, 0, 7] + ([0, 0, 0, 3] + Ascii("ABC"))) == Success((Certificate([Ascii("ABC")]), []))
  {
    var c := Certificate([Ascii("ABC")]);
    CertificatePacketWritten();
    ParseCertificateWritten(c, []);
    assert WriteCertificate(c) + [] == WriteCertificate(c);
  }

  // ---------------------------------------------------------------------------
  // The envelope

  /** The hello messages' random: time 0x01020304, then 28 digits. */
  function HelloRandom(): Random
  {
    Random(0x01020304, Ascii("0123456789012345678901234567"))
  }

  /** The extension both hellos carry: type 13 with data `abcd`. */
  function HelloExtension(): Extension
  {
    Extension(13, Ascii("abcd"))
  }

  lemma HelloPartsWritten()
    ensures ValidRandom(HelloRandom())
    ensures WriteRandom(HelloRandom()) == [1, 2, 3, 4] + Ascii("0123456789012345678901234567")
    ensures ValidList([HelloExtension()], 2, ExtensionCodec())
    ensures WriteList([HelloExtension()], 2, ExtensionCodec()) == [0, 8] + ([0, 0x0D] + ([0, 4] + Ascii("abcd")))
  {
    var e := HelloExtension();
    assert WriteExtension(e) == [0, 0x0D] + ([0, 4] + Ascii("abcd"));
    assert ExtensionCodec().write(e) == WriteExtension(e);
    assert WriteItems([e], ExtensionCodec()) == WriteExtension(e);
  }

  function ClientHelloOfVector(): ClientHello
  {
    ClientHello(ProtocolVersion(3, 0), HelloRandom(), [], [0x6B], [0], [HelloExtension()])
  }

  function ClientHelloPacket(): seq<Byte>
  {
    [3, 0]
      + ([1, 2, 3, 4] + Ascii("0123456789012345678901234567"))
      + [0]
      + ([0, 2] + [0, 0x6B])
      + ([1] + [0])
      + ([0, 8] + ([0, 0x0D] + ([0, 4] + Ascii("abcd"))))
  }

  lemma ClientHelloPacketWritten()
    ensures ValidClientHello(ClientHelloOfVector())
    ensures WriteClientHello(ClientHelloOfVector()) == ClientHelloPacket()
    ensures |ClientHelloPacket()| == 51
  {
    var h := ClientHelloOfVector();
    HelloPartsWritten();
    assert CipherSuiteCodec().write(0x6B) == [0, 0x6B];
    assert WriteItems(h.cipherSuites, CipherSuiteCodec()) == [0, 0x6B];
    assert WriteList(h.cipherSuites, 2, CipherSuiteCodec()) == [0, 2] + [0, 0x6B];
    assert WriteOpaque(h.sessionId, 1) == [0];
    assert WriteOpaque(h.compressionMethods, 1) == [1] + [0];
  }

  /** Type 1 and length 51: the body is the ClientHello of the vector. */
  lemma ClientHelloEnvelopeVector()
    ensures ParseHandshake([1] + [0, 0, 0, 51] + ClientHelloPacket()) ==
      Success((Handshake(ClientHelloType, 51, Some(ClientHelloBody(ClientHelloOfVector()))), []))
  {
    ClientHelloPacketWritten();
    var b := ClientHelloBody(ClientHelloOfVector());
    assert EncodeUint(51, 4) == [0, 0, 0, 51];
    assert WriteHandshake(b) + [] == [1] + [0, 0, 0, 51] + ClientHelloPacket();
    ParseHandshakeWritten(b, []);
  }

  function ServerHelloOfVector(): ServerHello
  {
    ServerHello(ProtocolVersion(3, 0), HelloRandom(), Ascii("01234567890123456789012345678901"), 0x6B, 0, [HelloExtension()])
  }

  function ServerHelloPacket(): seq<Byte>
  {
    [3, 0]
      + ([1, 2, 3, 4] + Ascii("0123456789012345678901234567"))
      + ([0x20] + Ascii("01234567890123456789012345678901"))
      + [0, 0x6B]
      + [0]
      + ([0, 8] + ([0, 0x0D] + ([0, 4] + Ascii("abcd"))))
  }

  lemma ServerHelloPacketWritten()
    ensures ValidServerHello(ServerHelloOfVector())
    ensures WriteServerHello(ServerHelloOfVector()) == ServerHelloPacket()
    ensures |ServerHelloPacket()| == 80
  {
    var h := ServerHelloOfVector();
    HelloPartsWritten();
    assert WriteOpaque(h.sessionId, 1) == [0x20] + Ascii("01234567890123456789012345678901");
    assert EncodeUint(h.cipherSuite, 2) == [0, 0x6B];
  }

  /** Type 2 and length 80 (the letter P): the body is the ServerHello of the vector, with its 32-byte session id. */
  lemma ServerHelloEnvelopeVector()
    ensures ParseHandshake([2] + [0, 0, 0, 80] + ServerHelloPacket()) ==
      Success((Handshake(ServerHelloType, 80, Some(ServerHelloBody(ServerHelloOfVector()))), []))
  {
    ServerHelloPacketWritten();
    var b := ServerHelloBody(ServerHelloOfVector());
    assert EncodeUint(80, 4) == [0, 0, 0, 80];
    assert WriteHandshake(b) + [] == [2] + [0, 0, 0, 80] + ServerHelloPacket();
    ParseHandshakeWritten(b, []);
  }

  /** Type 13 and length 8: the body is the first CertificateRequest vector. */
  lemma CertificateRequestEnvelopeVector()
    ensures ParseHandshake([13] + [0, 0, 0, 8] + ([1] + [1] + [0, 2] + [1] + [1] + [0, 0] + [])) ==
      Success((Handshake(CertificateRequestType, 8, Some(CertificateRequestBody(CertificateRequestOfVector([])))), []))
  {
    CertificateRequestPacketWritten([]);
    var b := CertificateRequestBody(CertificateRequestOfVector([]));
    assert EncodeUint(8, 4) == [0, 0, 0, 8];
    assert WriteHandshake(b) + [] == [13] + [0, 0, 0, 8] + ([1] + [1] + [0, 2] + [1] + [1] + [0, 0] + []);
    ParseHandshakeWritten(b, []);
  }

  /** Type 11 and length 11: the body is the Certificate vector. */
  lemma CertificateEnvelopeVector()
    ensures ParseHandshake([11] + [0, 0, 0, 11] + ([0, 0, 0, 7] + ([0, 0, 0, 3] + Ascii("ABC")))) ==
      Success((Handshake(CertificateType, 11, Some(CertificateBody(Certificate([Ascii("ABC")])))), []))
  {
    CertificatePacketWritten();
    var b := CertificateBody(Certificate([Ascii("ABC")]));
    assert EncodeUint(11, 4) == [0, 0, 0, 11];
    assert WriteHandshake(b) + [] == [11] + [0, 0, 0, 11] + ([0, 0, 0, 7] + ([0, 0, 0, 3] + Ascii("ABC")));
    ParseHandshakeWritten(b, []);
  }

  /** Type 0 with length 0 is the empty HelloRequest. */
  lemma HelloRequestVector()
    ensures ParseHandshake([0, 0, 0, 0, 0]) == Success((Handshake(HelloRequestType, 0, Some(HelloRequest)), []))
  {
    ParseHandshakeWritten(HelloRequest, []);
    assert WriteHandshake(HelloRequest) + [] == [0, 0, 0, 0, 0];
  }

  /** Type 14 with length 0 is the empty ServerHelloDone. */
  lemma ServerHelloDoneVector()
    ensures ParseHandshake([14, 0, 0, 0, 0]) == Success((Handshake(ServerHelloDoneType, 0, Some(ServerHelloDone)), []))
  {
    ParseHandshakeWritten(ServerHelloDone, []);
    assert WriteHandshake(ServerHelloDone) + [] == [14, 0, 0, 0, 0];
  }

  /** Type 12, ServerKeyExchange, is recognised: the message parses, with no body. */
  lemma ServerKeyExchangeVector()
    ensures ParseHandshake([12, 0, 0, 0, 0]) == Success((Handshake(ServerKeyExchangeType, 0, None), []))
  {
    ReadUintWritten(0, 4, []);
    assert [12, 0, 0, 0, 0][1..] == EncodeUint(0, 4) + [];
  }

  /** A type outside the defined set is refused as such, whatever follows it. */
  lemma UnknownTypeVector(rest: seq<Byte>)
    ensures ParseHandshake([3] + rest) == Failure(UnknownHandshakeType(3))
  {
  }
}
