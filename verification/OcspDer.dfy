/**
 The DER encoder of the OCSP responder (src/grpc/certificate_service.rs) and a strict DER reader
 for what it writes: minimal lengths (section 10.1 of X.690), minimal integers (section 8.3.2),
 nothing left over, and the structure of section 4.2.1 of RFC 6960.
 */
module OcspDer {
  import opened MachineIntegers
  import opened NumberTheory
  import opened Wrappers

  const GOOD := 0
  const REVOKED := 1

  const OCSP_BASIC_OID: seq<byte> := [0x2B, 0x06, 0x01, 0x05, 0x05, 0x07, 0x30, 0x01, 0x01]
  const SIGNATURE_OID: seq<byte> := [0x2A, 0x86, 0x48, 0x86, 0xF7, 0x0D, 0x01, 0x01, 0x0B]
  const SHA256_OID: seq<byte> := [0x60, 0x86, 0x48, 0x01, 0x65, 0x03, 0x04, 0x02, 0x01]

  /** The SHA-256 values that go into a response. */
  datatype Digests = Digests(responder: seq<byte>, issuer: seq<byte>, key: seq<byte>, signature: seq<byte>) {
    predicate Valid() {
      |responder| == 32 && |issuer| == 32 && |key| == 32 && |signature| == 32
    }
  }

  /** What a response says; the times are the 15 characters of a GeneralizedTime. */
  datatype Request = Request(serial: seq<byte>, status: byte, thisUpdate: seq<byte>, nextUpdate: seq<byte>) {
    predicate Valid() {
      |thisUpdate| == 15 && |nextUpdate| == 15
    }

    function SerialBytes(): (s: seq<byte>)
      ensures s <= serial && |s| == if |serial| < 16 then |serial| else 16
    {
      if |serial| <= 16 then serial else serial[..16]
    }
  }

  // ----- the structure that the encoder means to write -----

  /** A definite length; the source keeps only 16 bits. */
  function DerLength(n: nat): (r: seq<byte>)
    ensures 1 <= |r| <= 3
  {
    if n < 128 then [n]
    else if n < 256 then [0x81, n]
    else [0x82, n / 256 % 256, n % 256]
  }

  function Tlv(tag: byte, content: seq<byte>): (r: seq<byte>)
    ensures |content| < |r| <= |content| + 4
  {
    [tag] + DerLength(|content|) + content
  }

  function Algorithm(oid: seq<byte>): seq<byte> {
    Tlv(0x30, Tlv(0x06, oid) + Tlv(0x05, []))
  }

  /** The contents of the certificate identifier. */
  function CertIdContent(q: Request, d: Digests): seq<byte> {
    Algorithm(SHA256_OID) + (Tlv(0x04, d.issuer) + (Tlv(0x04, d.key) + Tlv(0x02, q.SerialBytes())))
  }

  function CertId(q: Request, d: Digests): seq<byte> {
    Tlv(0x30, CertIdContent(q, d))
  }

  /** The revoked form declares 15 bytes of content but is followed by 17. */
  function StatusField(q: Request): seq<byte> {
    if q.status == GOOD then Tlv(0x80, [])
    else if q.status == REVOKED then [0xA1, 0x0F] + Tlv(0x18, q.thisUpdate)
    else Tlv(0x82, [])
  }

  function SingleContent(q: Request, d: Digests): seq<byte> {
    CertId(q, d) + (StatusField(q) + (Tlv(0x18, q.thisUpdate) + Tlv(0xA0, Tlv(0x18, q.nextUpdate))))
  }

  function SingleResponse(q: Request, d: Digests): seq<byte> {
    Tlv(0x30, SingleContent(q, d))
  }

  function DataContent(q: Request, d: Digests): seq<byte> {
    Tlv(0xA2, Tlv(0x04, d.responder)) + (Tlv(0x18, q.thisUpdate) + Tlv(0x30, SingleResponse(q, d)))
  }

  function ResponseData(q: Request, d: Digests): seq<byte> {
    Tlv(0x30, DataContent(q, d))
  }

  function BasicContent(q: Request, d: Digests): seq<byte> {
    ResponseData(q, d) + (Algorithm(SIGNATURE_OID) + Tlv(0x03, [0] + d.signature))
  }

  function BasicResponse(q: Request, d: Digests): seq<byte> {
    Tlv(0x30, BasicContent(q, d))
  }

  function ResponseBytes(q: Request, d: Digests): seq<byte> {
    Tlv(0x30, Tlv(0x06, OCSP_BASIC_OID) + Tlv(0x04, BasicResponse(q, d)))
  }

  function Response(q: Request, d: Digests): seq<byte> {
    Tlv(0x30, Tlv(0x0A, [0]) + Tlv(0xA0, ResponseBytes(q, d)))
  }

  // ----- the encoder -----

  method EncodeLength(output: seq<byte>, length: nat) returns (extended: seq<byte>)
    ensures extended == output + DerLength(length)
  {
    extended := output;
    if length < 128 {
      extended := extended + [length];
    } else if length < 256 {
      extended := extended + [0x81];
      extended := extended + [length];
    } else {
      extended := extended + [0x82];
      extended := extended + [length / 256 % 256];
      extended := extended + [length % 256];
    }
  }

  /** The last lines of most builders. */
  method Wrap(tag: byte, bytes: seq<byte>) returns (result: seq<byte>)
    ensures result == Tlv(tag, bytes)
  {
    result := [tag];
    result := EncodeLength(result, |bytes|);
    result := result + bytes;
  }

  lemma ShortTlv(tag: byte, content: seq<byte>)
    requires |content| < 128
    ensures [tag, |content|] + content == Tlv(tag, content)
  {
    assert [tag] + [|content|] == [tag, |content|];
  }

  lemma AlgorithmBytes(oid: seq<byte>)
    requires |oid| == 9
    ensures [0x30, |oid| + 4, 0x06, |oid|] + oid + [0x05, 0x00] == Algorithm(oid)
  {
    ShortTlv(0x06, oid);
    ShortTlv(0x05, []);
    ShortTlv(0x30, Tlv(0x06, oid) + Tlv(0x05, []));
  }

  lemma NestedTlv(tag: byte, inner: byte, content: seq<byte>)
    requires |content| < 100
    ensures [tag, |content| + 2, inner, |content|] + content == Tlv(tag, Tlv(inner, content))
  {
    ShortTlv(inner, content);
    ShortTlv(tag, Tlv(inner, content));
  }

  lemma Regroup(a: seq<byte>, b: seq<byte>, c: seq<byte>, d: seq<byte>)
    ensures a + b + c + d == a + (b + (c + d)) && a + b + c == a + (b + c)
  {
  }

  method BuildCertId(q: Request, d: Digests) returns (result: seq<byte>)
    requires d.Valid()
    ensures result == CertId(q, d)
  {
    hide Tlv, Algorithm;
    var bytes: seq<byte> := [0x30, |SHA256_OID| + 4, 0x06, |SHA256_OID|] + SHA256_OID + [0x05, 0x00];
    AlgorithmBytes(SHA256_OID);
    bytes := bytes + ([0x04, |d.issuer|] + d.issuer);
    bytes := bytes + ([0x04, |d.key|] + d.key);
    var serialBytes := q.SerialBytes();
    bytes := bytes + ([0x02, |serialBytes|] + serialBytes);
    ShortTlv(0x04, d.issuer);
    ShortTlv(0x04, d.key);
    ShortTlv(0x02, serialBytes);
    Regroup(Algorithm(SHA256_OID), Tlv(0x04, d.issuer), Tlv(0x04, d.key), Tlv(0x02, serialBytes));
    result := Wrap(0x30, bytes);
  }

  /** The match over the status. */
  method AppendStatus(bytes: seq<byte>, q: Request) returns (extended: seq<byte>)
    requires q.Valid()
    ensures extended == bytes + StatusField(q)
  {
    hide Tlv;
    ShortTlv(0x80, []);
    ShortTlv(0x82, []);
    ShortTlv(0x18, q.thisUpdate);
    if q.status == GOOD {
      extended := bytes + [0x80, 0x00];
    } else if q.status == REVOKED {
      extended := bytes + [0xA1, 0x0F];
      extended := extended + ([0x18, |q.thisUpdate|] + q.thisUpdate);
      Regroup(bytes, [0xA1, 0x0F], Tlv(0x18, q.thisUpdate), []);
    } else {
      extended := bytes + [0x82, 0x00];
    }
  }

  method BuildSingleResponse(q: Request, d: Digests) returns (result: seq<byte>)
    requires d.Valid() && q.Valid()
    ensures result == SingleResponse(q, d)
  {
    hide Tlv, CertId, StatusField;
    var bytes := BuildCertId(q, d);
    bytes := AppendStatus(bytes, q);
    ShortTlv(0x18, q.thisUpdate);
    bytes := bytes + ([0x18, |q.thisUpdate|] + q.thisUpdate);
    bytes := bytes + ([0xA0, |q.nextUpdate| + 2, 0x18, |q.nextUpdate|] + q.nextUpdate);
    NestedTlv(0xA0, 0x18, q.nextUpdate);
    Regroup(CertId(q, d), StatusField(q), Tlv(0x18, q.thisUpdate), Tlv(0xA0, Tlv(0x18, q.nextUpdate)));
    result := Wrap(0x30, bytes);
  }

  /** A value whose length may need the long form. */
  method AppendTlv(bytes: seq<byte>, tag: byte, content: seq<byte>) returns (extended: seq<byte>)
    ensures extended == bytes + Tlv(tag, content)
  {
    extended := bytes + [tag];
    extended := EncodeLength(extended, |content|);
    extended := extended + content;
    Regroup(bytes, [tag], DerLength(|content|), content);
    Regroup([tag], DerLength(|content|), content, []);
  }

  method BuildTbsResponseData(q: Request, d: Digests) returns (result: seq<byte>)
    requires d.Valid() && q.Valid()
    ensures result == ResponseData(q, d)
  {
    hide Tlv, SingleResponse;
    var bytes: seq<byte> := [0xA2, |d.responder| + 2, 0x04, |d.responder|] + d.responder;
    NestedTlv(0xA2, 0x04, d.responder);
    bytes := bytes + ([0x18, |q.thisUpdate|] + q.thisUpdate);
    ShortTlv(0x18, q.thisUpdate);
    var single := BuildSingleResponse(q, d);
    bytes := AppendTlv(bytes, 0x30, single);
    Regroup(Tlv(0xA2, Tlv(0x04, d.responder)), Tlv(0x18, q.thisUpdate), Tlv(0x30, single), []);
    result := Wrap(0x30, bytes);
  }

  method BuildBasicOcspResponse(q: Request, d: Digests) returns (result: seq<byte>)
    requires d.Valid() && q.Valid()
    ensures result == BasicResponse(q, d)
  {
    hide Tlv, Algorithm, ResponseData;
    var bytes := BuildTbsResponseData(q, d);
    bytes := bytes + ([0x30, |SIGNATURE_OID| + 4, 0x06, |SIGNATURE_OID|] + SIGNATURE_OID + [0x05, 0x00]);
    AlgorithmBytes(SIGNATURE_OID);
    bytes := bytes + ([0x03, |[0] + d.signature|] + ([0x00] + d.signature));
    ShortTlv(0x03, [0] + d.signature);
    Regroup(ResponseData(q, d), Algorithm(SIGNATURE_OID), Tlv(0x03, [0] + d.signature), []);
    result := Wrap(0x30, bytes);
  }

  method BuildResponseBytes(q: Request, d: Digests) returns (result: seq<byte>)
    requires d.Valid() && q.Valid()
    ensures result == ResponseBytes(q, d)
  {
    hide Tlv, BasicResponse;
    var bytes: seq<byte> := [0x06, |OCSP_BASIC_OID|] + OCSP_BASIC_OID;
    ShortTlv(0x06, OCSP_BASIC_OID);
    var basic := BuildBasicOcspResponse(q, d);
    bytes := AppendTlv(bytes, 0x04, basic);
    result := Wrap(0x30, bytes);
  }

  method BuildOcspResponseDer(q: Request, d: Digests) returns (result: seq<byte>)
    requires d.Valid() && q.Valid()
    ensures result == Response(q, d)
  {
    hide Tlv, ResponseBytes;
    var response: seq<byte> := [0x0A, 0x01] + [0x00];
    ShortTlv(0x0A, [0]);
    var responseBytes := BuildResponseBytes(q, d);
    response := AppendTlv(response, 0xA0, responseBytes);
    result := Wrap(0x30, response);
  }

  // ----- the reader -----

  /** A minimal definite length of at most two bytes, and what follows it. */
  function ReadLength(s: seq<byte>): Option<(nat, seq<byte>)> {
    if |s| >= 1 && s[0] < 128 then Some((s[0], s[1..]))
    else if |s| >= 2 && s[0] == 0x81 && s[1] >= 128 then Some((s[1], s[2..]))
    else if |s| >= 3 && s[0] == 0x82 && s[1] >= 1 then Some(((s[1] as int) * 256 + s[2], s[3..]))
    else None
  }

  /** The contents of the value with the given tag at the start, and what follows it. */
  function ReadTlv(tag: byte, s: seq<byte>): Option<(seq<byte>, seq<byte>)> {
    if s == [] || s[0] != tag then None
    else
      var (n, rest) :- ReadLength(s[1..]);
      if n <= |rest| then Some((rest[..n], rest[n..])) else None
  }

  /** The contents of a value that must fill the whole input. */
  function ReadOnly(tag: byte, s: seq<byte>): Option<seq<byte>> {
    var (content, rest) :- ReadTlv(tag, s);
    if rest == [] then Some(content) else None
  }

  /** A value whose contents must be the given ones; what follows it. */
  function Expect(tag: byte, content: seq<byte>, s: seq<byte>): Option<seq<byte>> {
    var (found, rest) :- ReadTlv(tag, s);
    if found == content then Some(rest) else None
  }

  function ReadTime(s: seq<byte>): Option<(seq<byte>, seq<byte>)> {
    var (time, rest) :- ReadTlv(0x18, s);
    if |time| == 15 then Some((time, rest)) else None
  }

  /** An integer has at least one content byte and no redundant leading one. */
  predicate MinimalInteger(s: seq<byte>) {
    && |s| > 0
    && (|s| > 1 ==> !(s[0] == 0 && s[1] < 128) && !(s[0] == 0xFF && s[1] >= 128))
  }

  function ReadAlgorithm(oid: seq<byte>, s: seq<byte>): Option<seq<byte>> {
    var (content, rest) :- ReadTlv(0x30, s);
    var parameters :- Expect(0x06, oid, content);
    var end :- Expect(0x05, [], parameters);
    if end == [] then Some(rest) else None
  }

  datatype Identity = Identity(issuer: seq<byte>, key: seq<byte>, serial: seq<byte>)

  function ReadCertId(s: seq<byte>): Option<Identity> {
    var hashes :- ReadAlgorithm(SHA256_OID, s);
    var (issuer, afterIssuer) :- ReadTlv(0x04, hashes);
    var (key, afterKey) :- ReadTlv(0x04, afterIssuer);
    var serial :- ReadOnly(0x02, afterKey);
    if |issuer| == 32 && |key| == 32 && MinimalInteger(serial) then Some(Identity(issuer, key, serial)) else None
  }

  datatype CertStatus = Good | Revoked(at: seq<byte>) | Unknown

  function ReadStatus(s: seq<byte>): Option<(CertStatus, seq<byte>)> {
    if s == [] then None
    else if s[0] == 0x80 then var rest :- Expect(0x80, [], s); Some((Good, rest))
    else if s[0] == 0x82 then var rest :- Expect(0x82, [], s); Some((Unknown, rest))
    else
      var (info, rest) :- ReadTlv(0xA1, s);
      var (at, end) :- ReadTime(info);
      if end == [] then Some((Revoked(at), rest)) else None
  }

  datatype Single = Single(certificate: Identity, status: CertStatus, thisUpdate: seq<byte>, nextUpdate: seq<byte>)

  datatype Answer = Answer(responder: seq<byte>, producedAt: seq<byte>, single: Single, signature: seq<byte>)

  function ReadSingle(s: seq<byte>): Option<Single> {
    var (certId, afterId) :- ReadTlv(0x30, s);
    var certificate :- ReadCertId(certId);
    var (status, afterStatus) :- ReadStatus(afterId);
    var (thisUpdate, afterThis) :- ReadTime(afterStatus);
    var wrapped :- ReadOnly(0xA0, afterThis);
    var (nextUpdate, end) :- ReadTime(wrapped);
    if end == [] then Some(Single(certificate, status, thisUpdate, nextUpdate)) else None
  }

  function ReadData(s: seq<byte>): Option<(seq<byte>, seq<byte>, Single)> {
    var (responder, afterResponder) :- ReadTlv(0xA2, s);
    var keyHash :- ReadOnly(0x04, responder);
    var (producedAt, afterProduced) :- ReadTime(afterResponder);
    var responses :- ReadOnly(0x30, afterProduced);
    var content :- ReadOnly(0x30, responses);
    var single :- ReadSingle(content);
    if |keyHash| == 32 then Some((keyHash, producedAt, single)) else None
  }

  function ReadBasic(s: seq<byte>): Option<Answer> {
    var (content, afterData) :- ReadTlv(0x30, s);
    var afterAlgorithm :- ReadAlgorithm(SIGNATURE_OID, afterData);
    var signature :- ReadOnly(0x03, afterAlgorithm);
    var (responder, producedAt, single) :- ReadData(content);
    if |signature| == 33 && signature[0] == 0 then Some(Answer(responder, producedAt, single, signature[1..])) else None
  }

  function Read(s: seq<byte>): Option<Answer> {
    var response :- ReadOnly(0x30, s);
    var afterStatus :- Expect(0x0A, [0], response);
    var explicit :- ReadOnly(0xA0, afterStatus);
    var responseBytes :- ReadOnly(0x30, explicit);
    var afterType :- Expect(0x06, OCSP_BASIC_OID, responseBytes);
    var octets :- ReadOnly(0x04, afterType);
    var basic :- ReadOnly(0x30, octets);
    ReadBasic(basic)
  }

  // ----- object identifiers: section 8.19 of X.690 -----

  /** All but the last of the base-128 digits of an arc, each with the top bit set. */
  function LeadingDigits(n: nat): seq<byte> {
    if n < 128 then [128 + n] else LeadingDigits(n / 128) + [128 + n % 128]
  }

  function ArcBytes(n: nat): seq<byte> {
    if n < 128 then [n] else LeadingDigits(n / 128) + [n % 128]
  }

  /** id-pkix-ocsp-basic, sha256WithRSAEncryption and id-sha256; the first two arcs share a number. */
  lemma Identifiers()
    ensures OCSP_BASIC_OID == ArcBytes(40 * 1 + 3) + [6, 1, 5, 5, 7, 48, 1, 1]
    ensures SIGNATURE_OID == ArcBytes(40 * 1 + 2) + ArcBytes(840) + ArcBytes(113549) + [1, 1, 11]
    ensures SHA256_OID == ArcBytes(40 * 2 + 16) + ArcBytes(840) + [1, 101, 3, 4, 2, 1]
  {
    assert ArcBytes(43) == [43] && ArcBytes(42) == [42] && ArcBytes(96) == [96];
    assert ArcBytes(840) == [0x86, 0x48] && ArcBytes(113549) == [0x86, 0xF7, 0x0D];
    hide ArcBytes;
  }

  // ----- reading back -----

  /** The reader accepts no other form of a length. */
  lemma LengthsAreMinimal(s: seq<byte>)
    ensures ReadLength(s).Some? ==>
              var (n, rest) := ReadLength(s).value; n < 0x1_0000 && s == DerLength(n) + rest
  {
    if ReadLength(s).Some? && s[0] == 0x82 {
      var n := s[1] as int * 256 + s[2];
      DivModUnique(n, 256, s[1], s[2]);
      ModSmall(s[1], 256);
      assert DerLength(n) == [0x82, s[1], s[2]];
    }
  }

  // ----- integers: section 8.3 of X.690 -----

  /** The bytes as an unsigned number, the first on top. */
  function Unsigned(s: seq<byte>): nat {
    if s == [] then 0 else 256 * Unsigned(s[..|s| - 1]) + s[|s| - 1]
  }

  /** The two's complement value that the contents stand for. */
  function IntegerValue(s: seq<byte>): int
    requires s != []
  {
    Unsigned(s) - if s[0] < 128 then 0 else Pow(256, |s|)
  }

  lemma {:induction false} UnsignedTop(s: seq<byte>)
    requires s != []
    ensures Unsigned(s) == s[0] * Pow(256, |s| - 1) + Unsigned(s[1..])
  {
    var n := |s| - 1;
    if n == 0 {
      assert s[..0] == [] && s[1..] == [] && Pow(256, 0) == 1;
    } else {
      UnsignedTop(s[..n]);
      assert s[..n][1..] == s[1..][..n - 1] && s[1..][n - 1] == s[n];
      assert Pow(256, n) == 256 * Pow(256, n - 1);
      hide Pow;
      assert 256 * (s[0] * Pow(256, n - 1)) == s[0] * (256 * Pow(256, n - 1));
    }
  }

  /** Minimal contents: without its first byte an integer would be another one. */
  lemma MinimalIff(s: seq<byte>)
    ensures MinimalInteger(s) <==> |s| == 1 || (|s| > 1 && IntegerValue(s[1..]) != IntegerValue(s))
  {
    if |s| > 1 {
      UnsignedTop(s);
      PowPositive(256, |s| - 1);
      assert Pow(256, |s|) == 256 * Pow(256, |s| - 1);
      hide Pow, Unsigned;
      TopByte(s[0], s[1], Pow(256, |s| - 1));
    }
  }

  lemma TopByte(top: byte, next: byte, weight: int)
    requires weight > 0
    ensures top * weight - (if top < 128 then 0 else 256 * weight) == -(if next < 128 then 0 else weight) <==>
            (top == 0 && next < 128) || (top == 255 && next >= 128)
  {
    var signed := if top < 128 then top else top - 256;
    assert signed * weight == top * weight - if top < 128 then 0 else 256 * weight;
    if signed > 0 {
      MulOrder(1, signed, weight);
    } else if signed < -1 {
      MulOrder(signed, -2, weight);
    }
  }

  /** A length of 256 or more is written with its 16 low bits, the high byte first. */
  lemma LongLength(n: nat)
    requires n >= 256
    ensures |DerLength(n)| == 3 && DerLength(n)[0] == 0x82
    ensures 256 * DerLength(n)[1] as int + DerLength(n)[2] == n % 0x1_0000
  {
    DivisionIdentity(n, 256);
    DivisionIdentity(n / 256, 256);
    DivModUnique(n, 0x1_0000, n / 256 / 256, 256 * (n / 256 % 256) + n % 256);
  }

  /** The status of a revoked certificate: 15 bytes declared, 17 written. */
  lemma RevokedBytes(q: Request)
    requires q.Valid() && q.status == 1
    ensures StatusField(q) == [0xA1, 15, 0x18, 15] + q.thisUpdate
  {
    assert DerLength(15) == [15];
  }

  /** A length is read back exactly when 16 bits hold it. */
  lemma LengthReadBack(n: nat, rest: seq<byte>)
    ensures ReadLength(DerLength(n) + rest) == Some((n, rest)) <==> n < 0x1_0000
  {
    assert (DerLength(n) + rest)[|DerLength(n)|..] == rest;
  }

  /** Any value shorter than 2^16 bytes is read back, whatever follows it. */
  lemma TlvReadBack(tag: byte, content: seq<byte>, rest: seq<byte>)
    requires |content| < 0x1_0000
    ensures ReadTlv(tag, Tlv(tag, content) + rest) == Some((content, rest))
  {
    var s := Tlv(tag, content) + rest;
    assert s[1..] == DerLength(|content|) + (content + rest);
    LengthReadBack(|content|, content + rest);
    assert (content + rest)[..|content|] == content && (content + rest)[|content|..] == rest;
  }

  lemma OnlyReadBack(tag: byte, content: seq<byte>)
    requires |content| < 0x1_0000
    ensures ReadOnly(tag, Tlv(tag, content)) == Some(content)
    ensures ReadTlv(tag, Tlv(tag, content)) == Some((content, []))
  {
    TlvReadBack(tag, content, []);
    assert Tlv(tag, content) + [] == Tlv(tag, content);
  }

  lemma AlgorithmReadBack(oid: seq<byte>, rest: seq<byte>)
    requires |oid| == 9
    ensures ReadAlgorithm(oid, Algorithm(oid) + rest) == Some(rest)
  {
    TlvReadBack(0x30, Tlv(0x06, oid) + Tlv(0x05, []), rest);
    TlvReadBack(0x06, oid, Tlv(0x05, []));
    OnlyReadBack(0x05, []);
  }

  lemma CertIdReadBack(q: Request, d: Digests)
    requires d.Valid()
    ensures |CertIdContent(q, d)| < 150
    ensures ReadCertId(CertIdContent(q, d)) ==
            if MinimalInteger(q.SerialBytes()) then Some(Identity(d.issuer, d.key, q.SerialBytes())) else None
  {
    var serial := Tlv(0x02, q.SerialBytes());
    AlgorithmReadBack(SHA256_OID, Tlv(0x04, d.issuer) + (Tlv(0x04, d.key) + serial));
    TlvReadBack(0x04, d.issuer, Tlv(0x04, d.key) + serial);
    TlvReadBack(0x04, d.key, serial);
    OnlyReadBack(0x02, q.SerialBytes());
  }

  function StatusOf(q: Request): CertStatus
    requires q.status != REVOKED
  {
    if q.status == GOOD then Good else Unknown
  }

  /** Good and unknown are read back; the revoked form is never readable. */
  lemma StatusReadBack(q: Request, rest: seq<byte>)
    requires q.Valid()
    ensures |StatusField(q)| < 30
    ensures ReadStatus(StatusField(q) + rest) ==
            if q.status == REVOKED then None else Some((StatusOf(q), rest))
  {
    if q.status == REVOKED {
      var s := StatusField(q) + rest;
      var info := [0x18, 0x0F] + q.thisUpdate[..13];
      assert s == [0xA1, 0x0F] + (info + (q.thisUpdate[13..] + rest));
      assert s[1..] == [0x0F] + (info + (q.thisUpdate[13..] + rest));
      assert s[1..][1..] == info + (q.thisUpdate[13..] + rest);
      assert (info + (q.thisUpdate[13..] + rest))[..15] == info;
      assert ReadTlv(0xA1, s).value.0 == info;
      assert info[1..] == [0x0F] + q.thisUpdate[..13];
    } else {
      TlvReadBack(if q.status == GOOD then 0x80 else 0x82, [], rest);
    }
  }

  /** What a response for a revoked certificate would have to say to be readable: 17 bytes of content. */
  lemma ProperRevoked(time: seq<byte>, rest: seq<byte>)
    requires |time| == 15
    ensures ReadStatus([0xA1, 17, 0x18, 15] + time + rest) == Some((Revoked(time), rest))
  {
    var info := Tlv(0x18, time);
    TimeReadBack(time, []);
    TlvReadBack(0xA1, info, rest);
    assert info == [0x18, 15] + time && Tlv(0xA1, info) == [0xA1, 17] + info;
    assert [0xA1, 17, 0x18, 15] + time + rest == Tlv(0xA1, info) + rest;
  }

  lemma TimeReadBack(time: seq<byte>, rest: seq<byte>)
    requires |time| == 15
    ensures ReadTime(Tlv(0x18, time) + rest) == Some((time, rest))
    ensures ReadTime(Tlv(0x18, time)) == Some((time, []))
  {
    TlvReadBack(0x18, time, rest);
    OnlyReadBack(0x18, time);
  }

  /** Which responses a reader accepts. */
  predicate Readable(q: Request) {
    q.status != REVOKED && MinimalInteger(q.SerialBytes())
  }

  /** What a reader should learn about the certificate. */
  function ExpectedSingle(q: Request, d: Digests): Single
    requires q.status != REVOKED
  {
    Single(Identity(d.issuer, d.key, q.SerialBytes()), StatusOf(q), q.thisUpdate, q.nextUpdate)
  }

  /** What a reader should learn from a response: everything that went into it. */
  function Expected(q: Request, d: Digests): Option<Answer> {
    if Readable(q) then Some(Answer(d.responder, q.thisUpdate, ExpectedSingle(q, d), d.signature)) else None
  }

  lemma SingleReadBack(q: Request, d: Digests)
    requires q.Valid() && d.Valid()
    ensures |SingleContent(q, d)| < 300
    ensures ReadSingle(SingleContent(q, d)) == if Readable(q) then Some(ExpectedSingle(q, d)) else None
  {
    var next := Tlv(0xA0, Tlv(0x18, q.nextUpdate));
    var times := Tlv(0x18, q.thisUpdate) + next;
    CertIdReadBack(q, d);
    TlvReadBack(0x30, CertIdContent(q, d), StatusField(q) + times);
    StatusReadBack(q, times);
    TimeReadBack(q.thisUpdate, next);
    OnlyReadBack(0xA0, Tlv(0x18, q.nextUpdate));
    TimeReadBack(q.nextUpdate, []);
  }

  lemma DataReadBack(q: Request, d: Digests)
    requires q.Valid() && d.Valid()
    ensures |DataContent(q, d)| < 400
    ensures ReadData(DataContent(q, d)) ==
            if Readable(q) then Some((d.responder, q.thisUpdate, ExpectedSingle(q, d))) else None
  {
    var responses := Tlv(0x30, SingleResponse(q, d));
    SingleReadBack(q, d);
    TlvReadBack(0xA2, Tlv(0x04, d.responder), Tlv(0x18, q.thisUpdate) + responses);
    OnlyReadBack(0x04, d.responder);
    TimeReadBack(q.thisUpdate, responses);
    OnlyReadBack(0x30, SingleResponse(q, d));
    OnlyReadBack(0x30, SingleContent(q, d));
  }

  lemma BasicReadBack(q: Request, d: Digests)
    requires q.Valid() && d.Valid()
    ensures |BasicContent(q, d)| < 500 && ReadBasic(BasicContent(q, d)) == Expected(q, d)
  {
    var signature := Tlv(0x03, [0] + d.signature);
    DataReadBack(q, d);
    TlvReadBack(0x30, DataContent(q, d), Algorithm(SIGNATURE_OID) + signature);
    AlgorithmReadBack(SIGNATURE_OID, signature);
    OnlyReadBack(0x03, [0] + d.signature);
    assert ([0] + d.signature)[1..] == d.signature;
  }

  /**
   The strict reader recovers everything that went into the response: all four digests, serial,
   status and times. It rejects every response for a revoked certificate and every serial that does
   not start like a minimal integer.
   */
  lemma ResponseReadBack(q: Request, d: Digests)
    requires q.Valid() && d.Valid()
    ensures Read(Response(q, d)) == Expected(q, d)
  {
    hide ReadLength, ReadBasic, BasicContent, Expected, Algorithm;
    var basic := BasicResponse(q, d);
    var bytes := ResponseBytes(q, d);
    BasicReadBack(q, d);
    OnlyReadBack(0x30, Tlv(0x0A, [0]) + Tlv(0xA0, bytes));
    TlvReadBack(0x0A, [0], Tlv(0xA0, bytes));
    OnlyReadBack(0xA0, bytes);
    OnlyReadBack(0x30, Tlv(0x06, OCSP_BASIC_OID) + Tlv(0x04, basic));
    TlvReadBack(0x06, OCSP_BASIC_OID, Tlv(0x04, basic));
    OnlyReadBack(0x04, basic);
    OnlyReadBack(0x30, BasicContent(q, d));
  }

  lemma AsciiMinimal(q: Request)
    requires q.serial != [] && forall i | 0 <= i < |q.serial| :: 0 < q.serial[i] < 128
    ensures MinimalInteger(q.SerialBytes())
  {
    assert q.SerialBytes()[0] == q.serial[0];
  }

  /** For serials of ASCII characters other than NUL only the status matters. */
  lemma AsciiRoundTrip(q: Request, d: Digests)
    requires q.Valid() && d.Valid()
    requires q.serial != [] && forall i | 0 <= i < |q.serial| :: 0 < q.serial[i] < 128
    ensures Read(Response(q, d)).Some? <==> q.status != REVOKED
    ensures q.status != REVOKED ==>
              Read(Response(q, d)) ==
              Some(Answer(d.responder, q.thisUpdate,
                          Single(Identity(d.issuer, d.key, if |q.serial| <= 16 then q.serial else q.serial[..16]),
                                 if q.status == 0 then Good else Unknown, q.thisUpdate, q.nextUpdate), d.signature))
  {
    hide Read, Response, MinimalInteger;
    ResponseReadBack(q, d);
    AsciiMinimal(q);
  }
}
