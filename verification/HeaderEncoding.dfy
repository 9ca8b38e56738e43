/** Encoding a header, and reading it back. */
module HeaderEncoding {
  import opened Types
  import opened Cbor
  import opened CborTokens
  import opened Header

  datatype OperationalCert = OperationalCert(hotVkey: Bytes, counter: nat, kesPeriod: nat, sigma: Bytes)

  datatype HeaderBody = HeaderBody(
    blockNumber: nat, slot: nat, prevHash: Option<Bytes>, issuer: Bytes,
    vrfVkey: Bytes, vrfOutput: Bytes, vrfProof: Bytes,
    bodySize: nat, bodyHash: Bytes, opCert: OperationalCert, protocolVersion: (nat, nat),
    certified: bool, announced: Option<(Bytes, nat)>)
  {
    /** Field widths, as the types of the fields fix them. */
    ghost predicate Valid() {
      && blockNumber < U64 && slot < U64 && (prevHash.Some? ==> |prevHash.value| == 32) && |issuer| == 32
      && |vrfVkey| == 32 && |vrfOutput| == 64 && |vrfProof| == 80
      && bodySize < U32 && |bodyHash| == 32
      && |opCert.hotVkey| == 32 && opCert.counter < U64 && opCert.kesPeriod < U64 && |opCert.sigma| == 64
      && protocolVersion.0 < U32 && protocolVersion.1 < U32
      && (announced.Some? ==> |announced.value.0| == 32 && announced.value.1 < U32)
    }

    function Info(): HeaderInfo {
      HeaderInfo(HEADER_ERA, blockNumber, slot, prevHash, issuer, bodySize, bodyHash, announced, Some(certified))
    }
  }

  // ---------------------------------------------------------------------------
  // The fields, in wire order
  // ---------------------------------------------------------------------------

  function EncodeOptionalHash(h: Option<Bytes>): Bytes
    requires h.Some? ==> |h.value| < U64
  {
    match h case Some(b) => EncodeBytes(b) case None => NULL
  }

  function EncodeIdentity(b: HeaderBody): Bytes
    requires b.Valid()
  {
    EncodeUInt(b.blockNumber) + (EncodeUInt(b.slot) + (EncodeOptionalHash(b.prevHash) + EncodeBytes(b.issuer)))
  }

  function EncodeVrf(b: HeaderBody): Bytes
    requires b.Valid()
  {
    EncodeBytes(b.vrfVkey) + (EncodeArray(2) + (EncodeBytes(b.vrfOutput) + EncodeBytes(b.vrfProof)))
  }

  function EncodeBodyReference(b: HeaderBody): Bytes
    requires b.Valid()
  {
    EncodeUInt(b.bodySize) + EncodeBytes(b.bodyHash)
  }

  function EncodeOperationalCert(c: OperationalCert): Bytes
    requires |c.hotVkey| < U64 && c.counter < U64 && c.kesPeriod < U64 && |c.sigma| < U64
  {
    EncodeArray(4)
    + (EncodeBytes(c.hotVkey) + (EncodeUInt(c.counter) + (EncodeUInt(c.kesPeriod) + EncodeBytes(c.sigma))))
  }

  function EncodeVersion(b: HeaderBody): Bytes
    requires b.Valid()
  {
    EncodeArray(2) + (EncodeUInt(b.protocolVersion.0) + EncodeUInt(b.protocolVersion.1))
  }

  function EncodeLeiosFields(b: HeaderBody): Bytes
    requires b.Valid()
  {
    EncodeBool(b.certified) + EncodeAnnouncement(b.announced)
  }

  function EncodeAnnouncement(a: Option<(Bytes, nat)>): Bytes
    requires a.Some? ==> |a.value.0| < U64 && a.value.1 < U64
  {
    match a
    case Some(pair) => EncodeArray(2) + (EncodeBytes(pair.0) + EncodeUInt(pair.1))
    case None => NULL
  }

  function EncodeFields(b: HeaderBody): Bytes
    requires b.Valid()
  {
    EncodeIdentity(b)
    + (EncodeVrf(b)
       + (EncodeBodyReference(b) + (EncodeOperationalCert(b.opCert) + (EncodeVersion(b) + EncodeLeiosFields(b)))))
  }

  /** The header body: what the body signature covers. */
  function EncodeHeaderBody(b: HeaderBody): Bytes
    requires b.Valid()
  {
    EncodeArray(12) + EncodeFields(b)
  }

  function EncodeHeaderInner(body: Bytes, signature: Bytes): Bytes
    requires |signature| < U64
  {
    EncodeArray(2) + (body + EncodeBytes(signature))
  }

  function WrapHeader(inner: Bytes, era: nat): Bytes
    requires |inner| < U64 && era < U32
  {
    EncodeArray(2) + (EncodeUInt(era) + (EncodeTag(TAG_ENCODED_CBOR) + EncodeBytes(inner)))
  }

  // ---------------------------------------------------------------------------
  // Reading back, group by group
  // ---------------------------------------------------------------------------

  lemma FixedReads(b: Bytes, n: nat, t: Bytes)
    requires |b| < U64
    ensures FixedBytes(EncodeBytes(b) + t, n) == if |b| == n then Got(b, t) else Bad
  {
    hide EncodeBytes, ByteString;
    BytesRead(b, t);
  }

  lemma BytesAreNotNull(b: Bytes, t: Bytes)
    requires |b| < U64
    ensures Peek(EncodeBytes(b) + t) != Some(NullKind)
  {
  }

  lemma OptionalHashReads(h: Option<Bytes>, t: Bytes)
    requires h.Some? ==> |h.value| == 32
    ensures OptionalHash(EncodeOptionalHash(h) + t) == Got(h, t)
  {
    hide FixedBytes, EncodeBytes, Peek, Null;
    match h
    case Some(b) =>
      FixedReads(b, 32, t);
      BytesAreNotNull(b, t);
    case None =>
      NullReads(t);
  }

  lemma IdentityReads(b: HeaderBody, t: Bytes)
    requires b.Valid()
    ensures ReadIdentity(EncodeIdentity(b) + t) == Got(Identity(b.blockNumber, b.slot, b.prevHash, b.issuer), t)
  {
    hide UInt, OptionalHash, FixedBytes, EncodeUInt, EncodeOptionalHash, EncodeBytes;
    var t3 := EncodeBytes(b.issuer) + t;
    var t2 := EncodeOptionalHash(b.prevHash) + t3;
    var t1 := EncodeUInt(b.slot) + t2;
    assert EncodeIdentity(b) + t == EncodeUInt(b.blockNumber) + t1;
    UIntReads(b.blockNumber, U64, t1);
    UIntReads(b.slot, U64, t2);
    OptionalHashReads(b.prevHash, t3);
    FixedReads(b.issuer, 32, t);
  }

  lemma RecordReads(n: nat, t: Bytes)
    requires n < U64
    ensures RecordHead(EncodeArray(n) + t, n) == Got(Some(n), t)
  {
    hide ArrayHead, EncodeArray;
    ArrayReads(n, t);
  }

  lemma VrfReads(b: HeaderBody, t: Bytes)
    requires b.Valid()
    ensures ReadVrf(EncodeVrf(b) + t) == Got((), t)
  {
    hide RecordHead, FixedBytes, EncodeArray, EncodeBytes;
    var t3 := EncodeBytes(b.vrfProof) + t;
    var t2 := EncodeBytes(b.vrfOutput) + t3;
    var t1 := EncodeArray(2) + t2;
    assert EncodeVrf(b) + t == EncodeBytes(b.vrfVkey) + t1;
    FixedReads(b.vrfVkey, 32, t1);
    RecordReads(2, t2);
    FixedReads(b.vrfOutput, 64, t3);
    FixedReads(b.vrfProof, 80, t);
  }

  lemma BodyReferenceReads(b: HeaderBody, t: Bytes)
    requires b.Valid()
    ensures ReadBodyReference(EncodeBodyReference(b) + t) == Got((b.bodySize, b.bodyHash), t)
  {
    hide UInt, FixedBytes, EncodeUInt, EncodeBytes;
    var t1 := EncodeBytes(b.bodyHash) + t;
    assert EncodeBodyReference(b) + t == EncodeUInt(b.bodySize) + t1;
    UIntReads(b.bodySize, U32, t1);
    FixedReads(b.bodyHash, 32, t);
  }

  lemma OperationalCertReads(c: OperationalCert, t: Bytes)
    requires |c.hotVkey| == 32 && c.counter < U64 && c.kesPeriod < U64 && |c.sigma| == 64
    ensures ReadOperationalCert(EncodeOperationalCert(c) + t) == Got((), t)
  {
    hide RecordHead, FixedBytes, UInt, EncodeArray, EncodeBytes, EncodeUInt;
    var t4 := EncodeBytes(c.sigma) + t;
    var t3 := EncodeUInt(c.kesPeriod) + t4;
    var t2 := EncodeUInt(c.counter) + t3;
    var t1 := EncodeBytes(c.hotVkey) + t2;
    assert EncodeOperationalCert(c) + t == EncodeArray(4) + t1;
    RecordReads(4, t1);
    FixedReads(c.hotVkey, 32, t2);
    UIntReads(c.counter, U64, t3);
    UIntReads(c.kesPeriod, U64, t4);
    FixedReads(c.sigma, 64, t);
  }

  lemma VersionReads(b: HeaderBody, t: Bytes)
    requires b.Valid()
    ensures ReadVersion(EncodeVersion(b) + t) == Got((), t)
  {
    hide RecordHead, UInt, EncodeArray, EncodeUInt;
    var t2 := EncodeUInt(b.protocolVersion.1) + t;
    var t1 := EncodeUInt(b.protocolVersion.0) + t2;
    assert EncodeVersion(b) + t == EncodeArray(2) + t1;
    RecordReads(2, t1);
    UIntReads(b.protocolVersion.0, U32, t2);
    UIntReads(b.protocolVersion.1, U32, t);
  }

  lemma ArrayIsNotNull(n: nat, t: Bytes)
    requires n < U64
    ensures Peek(EncodeArray(n) + t) != Some(NullKind)
  {
  }

  lemma AnnouncementReads(a: Option<(Bytes, nat)>, t: Bytes)
    requires a.Some? ==> |a.value.0| == 32 && a.value.1 < U32
    ensures ReadAnnouncement(EncodeAnnouncement(a) + t) == Got(a, t)
  {
    hide RecordHead, FixedBytes, UInt, EncodeArray, EncodeBytes, EncodeUInt, Peek, Null;
    match a
    case Some(pair) =>
      var t2 := EncodeUInt(pair.1) + t;
      var t1 := EncodeBytes(pair.0) + t2;
      assert EncodeAnnouncement(a) + t == EncodeArray(2) + t1;
      ArrayIsNotNull(2, t1);
      RecordReads(2, t1);
      FixedReads(pair.0, 32, t2);
      UIntReads(pair.1, U32, t);
    case None =>
      NullReads(t);
  }

  lemma LeiosFieldsRead(b: HeaderBody, t: Bytes)
    requires b.Valid()
    ensures ReadLeiosFields(EncodeLeiosFields(b) + t) == Got((b.certified, b.announced), t)
  {
    hide Bool, EncodeBool, ReadAnnouncement, EncodeAnnouncement;
    var t1 := EncodeAnnouncement(b.announced) + t;
    assert EncodeLeiosFields(b) + t == EncodeBool(b.certified) + t1;
    BoolReads(b.certified, t1);
    AnnouncementReads(b.announced, t);
  }

  lemma FieldsRead(b: HeaderBody, t: Bytes)
    requires b.Valid()
    ensures ReadBodyFields(EncodeFields(b) + t) == Got(b.Info(), t)
  {
    hide ReadIdentity, ReadVrf, ReadBodyReference, ReadOperationalCert, ReadVersion, ReadLeiosFields,
         EncodeIdentity, EncodeVrf, EncodeBodyReference, EncodeOperationalCert, EncodeVersion, EncodeLeiosFields;
    var t5 := EncodeLeiosFields(b) + t;
    var t4 := EncodeVersion(b) + t5;
    var t3 := EncodeOperationalCert(b.opCert) + t4;
    var t2 := EncodeBodyReference(b) + t3;
    var t1 := EncodeVrf(b) + t2;
    assert EncodeFields(b) + t == EncodeIdentity(b) + t1;
    IdentityReads(b, t1);
    VrfReads(b, t2);
    BodyReferenceReads(b, t3);
    OperationalCertReads(b.opCert, t4);
    VersionReads(b, t5);
    LeiosFieldsRead(b, t);
  }

  lemma InnerReads(b: HeaderBody, signature: Bytes)
    requires b.Valid() && |signature| < U64
    ensures ValidateInner(EncodeHeaderInner(EncodeHeaderBody(b), signature)) ==
            if |signature| == 448 then Some(b.Info()) else None
  {
    hide RecordHead, FixedBytes, ReadBodyFields, EncodeArray, EncodeFields, EncodeBytes;
    var t2 := EncodeBytes(signature);
    var t1 := EncodeFields(b) + t2;
    assert EncodeHeaderInner(EncodeHeaderBody(b), signature) == EncodeArray(2) + (EncodeArray(12) + t1);
    RecordReads(2, EncodeArray(12) + t1);
    RecordReads(12, t1);
    FieldsRead(b, t2);
    FixedReads(signature, 448, []);
    assert t2 + [] == t2;
  }

  lemma WrapperReads(inner: Bytes, era: nat)
    requires |inner| < U64 && era < U32
    ensures ReadWrapper(WrapHeader(inner, era)) == Got((Some(2), era, inner), [])
  {
    hide ArrayHead, UInt, TagHead, ByteString, EncodeArray, EncodeUInt, EncodeTag, EncodeBytes;
    var t3 := EncodeBytes(inner);
    var t2 := EncodeTag(TAG_ENCODED_CBOR) + t3;
    var t1 := EncodeUInt(era) + t2;
    ArrayReads(2, t1);
    UIntReads(era, U32, t2);
    TagReads(TAG_ENCODED_CBOR, t3);
    BytesRead(inner, []);
    assert t3 + [] == t3;
  }

  // ---------------------------------------------------------------------------
  // Sizes
  // ---------------------------------------------------------------------------

  lemma HeadSize(major: nat, n: nat)
    requires major < 8 && n < U64
    ensures 1 <= |EncodeHead(major, n)| <= 9
  {
  }

  lemma IdentityAndVrfSize(b: HeaderBody)
    requires b.Valid()
    ensures |EncodeIdentity(b)| + |EncodeVrf(b)| <= 400
  {
    hide EncodeHead;
    HeadSize(0, b.blockNumber);
    HeadSize(0, b.slot);
    HeadSize(2, 32);
    HeadSize(2, 64);
    HeadSize(2, 80);
    HeadSize(4, 2);
  }

  lemma ReferenceAndCertSize(b: HeaderBody)
    requires b.Valid()
    ensures |EncodeBodyReference(b)| + |EncodeOperationalCert(b.opCert)| <= 300
  {
    hide EncodeHead;
    HeadSize(0, b.bodySize);
    HeadSize(0, b.opCert.counter);
    HeadSize(0, b.opCert.kesPeriod);
    HeadSize(2, 32);
    HeadSize(2, 64);
    HeadSize(4, 4);
  }

  lemma VersionAndLeiosSize(b: HeaderBody)
    requires b.Valid()
    ensures |EncodeVersion(b)| + |EncodeLeiosFields(b)| <= 100
  {
    hide EncodeHead;
    HeadSize(0, b.protocolVersion.0);
    HeadSize(0, b.protocolVersion.1);
    HeadSize(2, 32);
    HeadSize(4, 2);
    if b.announced.Some? {
      HeadSize(0, b.announced.value.1);
    }
  }

  lemma HeaderSize(b: HeaderBody, signature: Bytes)
    requires b.Valid() && |signature| < U64
    ensures |EncodeHeaderInner(EncodeHeaderBody(b), signature)| <= 900 + |signature|
  {
    hide EncodeHead, EncodeIdentity, EncodeVrf, EncodeBodyReference, EncodeOperationalCert, EncodeVersion,
         EncodeLeiosFields;
    IdentityAndVrfSize(b);
    ReferenceAndCertSize(b);
    VersionAndLeiosSize(b);
    HeadSize(2, |signature|);
    HeadSize(4, 2);
    HeadSize(4, 12);
  }

  lemma WrapperSize(inner: Bytes, era: nat)
    requires |inner| < U64 && era < U32
    ensures |WrapHeader(inner, era)| <= 36 + |inner|
  {
    hide EncodeHead;
    HeadSize(4, 2);
    HeadSize(0, era);
    HeadSize(6, TAG_ENCODED_CBOR);
    HeadSize(2, |inner|);
  }

  /** Any header body, signed with 448 bytes and wrapped as the header era, validates to the same
      fields; with a signature of any other length it is refused. */
  lemma HeaderRoundTrip(b: HeaderBody, signature: Bytes)
    requires b.Valid() && |signature| < U64 - 1000
    ensures var inner := EncodeHeaderInner(EncodeHeaderBody(b), signature);
            && |inner| < U64
            && ValidateLeiosHeader(WrapHeader(inner, HEADER_ERA)) ==
               if |signature| == 448 then Some(b.Info()) else None
  {
    hide WrapHeader, EncodeHeaderInner, ReadWrapper, ValidateInner;
    var inner := EncodeHeaderInner(EncodeHeaderBody(b), signature);
    HeaderSize(b, signature);
    WrapperSize(inner, HEADER_ERA);
    WrapperReads(inner, HEADER_ERA);
    InnerReads(b, signature);
  }

  // ---------------------------------------------------------------------------
  // An indefinite header body
  // ---------------------------------------------------------------------------

  /** An inner header whose body is an array of indefinite length. */
  function IndefiniteInner(b: HeaderBody, signature: Bytes): Bytes
    requires b.Valid() && |signature| < U64
  {
    EncodeArray(2) + ([0x9f] + (EncodeFields(b) + ([BREAK] + EncodeBytes(signature))))
  }

  lemma IndefiniteArrayReads(t: Bytes)
    ensures ArrayHead([0x9f] + t) == Got(None, t)
  {
    assert ([0x9f] + t)[1..] == t;
  }

  lemma IndefiniteInnerReads(b: HeaderBody, signature: Bytes)
    requires b.Valid() && |signature| == 448
    ensures ValidateInner(IndefiniteInner(b, signature)) == Some(b.Info())
    ensures ParseInner(IndefiniteInner(b, signature), HEADER_ERA) == None
  {
    hide ArrayHead, FixedBytes, ReadBodyFields, EncodeArray, EncodeFields, EncodeBytes;
    var t3 := EncodeBytes(signature);
    var t2 := EncodeFields(b) + ([BREAK] + t3);
    ArrayReads(2, [0x9f] + t2);
    IndefiniteArrayReads(t2);
    FieldsRead(b, [BREAK] + t3);
    assert ([BREAK] + t3)[1..] == t3;
    FixedReads(signature, 448, []);
    assert t3 + [] == t3;
  }

  lemma IndefiniteSize(b: HeaderBody, signature: Bytes)
    requires b.Valid() && |signature| == 448
    ensures |IndefiniteInner(b, signature)| <= |EncodeHeaderInner(EncodeHeaderBody(b), signature)| + 1
  {
    hide EncodeFields, EncodeBytes;
    HeadSize(4, 12);
  }

  /** Every header body, sent with an indefinite body array, passes the strict validator with its
      fields and is refused by the lenient parser. */
  lemma IndefiniteBodySplitsTheParsers(b: HeaderBody, signature: Bytes)
    requires b.Valid() && |signature| == 448
    ensures var inner := IndefiniteInner(b, signature);
            && |inner| < U64
            && ValidateLeiosHeader(WrapHeader(inner, HEADER_ERA)) == Some(b.Info())
            && ParseHeader(WrapHeader(inner, HEADER_ERA)) == None
  {
    hide WrapHeader, IndefiniteInner, EncodeHeaderInner, ReadWrapper, ValidateInner, ParseInner;
    var inner := IndefiniteInner(b, signature);
    HeaderSize(b, signature);
    IndefiniteSize(b, signature);
    WrapperSize(inner, HEADER_ERA);
    WrapperReads(inner, HEADER_ERA);
    IndefiniteInnerReads(b, signature);
  }
}
