/** The block codec as growing buffers and decoder cursors. */
module BlockCodec {
  import opened Types
  import opened Cbor
  import opened CborTokens
  import opened CborDecoder
  import opened Header
  import opened HeaderAgreement
  import opened HeaderEncoding
  import opened HeaderCodec
  import opened Block
  import opened BlockRoundTrip

  method EncodeBody(txs: seq<Bytes>, cert: Option<Bytes>) returns (buf: Bytes)
    requires |txs| < U64
    ensures buf == EncodeBlockBody(txs, cert)
  {
    hide EncodeArray;
    buf := EncodeArray(3);
    buf := buf + EncodeArray(|txs|);
    for i := 0 to |txs|
      invariant buf == EncodeArray(3) + (EncodeArray(|txs|) + Joined(txs[..i]))
    {
      assert txs[..i + 1][..i] == txs[..i];
      buf := buf + txs[i];
    }
    assert txs[..|txs|] == txs;
    match cert {
      case Some(c) =>
        buf := buf + c;
      case None =>
        buf := buf + NULL;
    }
    buf := buf + NULL;
    assert buf == EncodeArray(3) + (EncodeArray(|txs|) + (Joined(txs) + (CertificateField(cert) + NULL)));
  }

  method Wrap(header: Bytes, body: Bytes, era: nat) returns (buf: Bytes)
    requires era < U32 && |BlockContent(header, body, era)| < U64
    ensures buf == WrapBlock(header, body, era)
  {
    hide EncodeArray, EncodeUInt, EncodeTag, EncodeBytes;
    var inner := EncodeArray(2);
    inner := inner + EncodeUInt(era);
    inner := inner + EncodeArray(2);
    inner := inner + header;
    inner := inner + body;
    assert inner == BlockContent(header, body, era);
    buf := EncodeTag(TAG_ENCODED_CBOR);
    buf := buf + EncodeBytes(inner);
  }

  /** Unwraps the tag and the era; the cursor is then at the era's block. */
  method Open(raw: Bytes) returns (d: Decoder, era: Option<nat>)
    ensures fresh(d) && d.Valid()
    ensures match OpenBlock(raw)
            case Some((e, s)) => era == Some(e) && d.Rest() == s
            case None => era.None?
  {
    hide TagHead, ByteString, ArrayHead, UInt;
    era := None;
    d := new Decoder(raw);
    var tag := d.Tag();
    if tag.None? || tag.value != TAG_ENCODED_CBOR {
      return;
    }
    var inner := d.ReadBytes();
    if inner.None? {
      return;
    }
    d := new Decoder(inner.value);
    var length := d.Array();
    if length.None? {
      return;
    }
    era := d.Unsigned(U32);
    if era.Some? && era.value < 2 {
      era := None;
    }
  }

  method SkipFields(d: Decoder, n: nat) returns (ok: Option<()>)
    requires d.Valid()
    modifies d
    ensures d.Valid() && (ok.Some? <==> SkipMany(old(d.Rest()), n).Got?)
    ensures ok.Some? ==> d.Rest() == SkipMany(old(d.Rest()), n).rest
  {
    hide Skip;
    ghost var whole := SkipMany(d.Rest(), n);
    for i := 0 to n
      invariant d.Valid() && whole == SkipMany(d.Rest(), n - i)
    {
      var skipped := d.SkipItem();
      if skipped.None? {
        return None;
      }
    }
    return Some(());
  }

  method CountAndSkipArray(d: Decoder) returns (r: Option<nat>)
    requires d.Valid()
    modifies d
    ensures d.Reads(old(CountArray(d.Rest())), r)
  {
    hide ArrayHead, SkipMany, CountUntilBreak;
    var length := d.Array();
    if length.None? {
      return None;
    }
    if length.value.Some? {
      var n := length.value.value;
      if n >= U32 {
        return None;
      }
      var ok := SkipFields(d, n);
      return if ok.Some? then Some(n) else None;
    }
    r := CountToBreak(d);
  }

  method CountToBreak(d: Decoder) returns (r: Option<nat>)
    requires d.Valid()
    modifies d
    ensures d.Reads(old(CountUntilBreak(d.Rest(), 0)), r)
  {
    hide Item;
    var n := 0;
    ghost var whole := CountUntilBreak(d.Rest(), 0);
    while true
      invariant d.Valid() && whole == CountUntilBreak(d.Rest(), n)
      decreases |d.Rest()|
    {
      var kind := d.Datatype();
      if kind.None? {
        return None;
      }
      if kind.value == BreakKind {
        var skipped := d.SkipItem();
        return Some(n);
      }
      var element := d.SkipItem();
      if element.None? {
        return None;
      }
      n := Min(n + 1, U32 - 1);
    }
  }

  method LeiosBlockInfo(raw: Bytes) returns (cert: Option<Bytes>)
    ensures cert == BlockCertificate(raw)
  {
    hide OpenBlock, ArrayHead, Skip, SkipMany;
    var d, era := Open(raw);
    if era.None? {
      return None;
    }
    var length := d.Array();
    if length.None? || length.value.None? {
      return None;
    }
    if era.value >= LEIOS_ERA {
      cert := DecodeLeiosCertificate(d, length.value.value);
    } else {
      if length.value.value <= BLOCK_BASE_FIELDS {
        return None;
      }
      var ok := SkipFields(d, BLOCK_BASE_FIELDS);
      if ok.None? {
        return None;
      }
      cert := d.SkipItem();
    }
  }

  method DecodeLeiosCertificate(d: Decoder, blockLength: nat) returns (cert: Option<Bytes>)
    requires d.Valid()
    modifies d
    ensures cert == LeiosCertificate(old(d.Rest()), blockLength)
  {
    hide ArrayHead, Skip, SkipMany;
    if blockLength < 2 {
      return None;
    }
    var header := d.SkipItem();
    if header.None? {
      return None;
    }
    var arity := d.Array();
    if arity.None? || arity.value.None? {
      return None;
    }
    var txField := TxFieldIndex(arity.value.value);
    if txField.None? {
      return None;
    }
    var ok := SkipFields(d, txField.value + 1);
    if ok.None? {
      return None;
    }
    var kind := d.Datatype();
    if kind == Some(NullKind) {
      return None;
    }
    cert := d.SkipItem();
  }

  method Classify(d: Decoder) returns (r: Option<CertSlot>)
    requires d.Valid()
    modifies d
    ensures d.Reads(old(ClassifyCertSlot(d.Rest())), r)
  {
    hide ArrayHead, Skip;
    var kind := d.Datatype();
    if kind.None? {
      return None;
    }
    if kind.value == NullKind {
      NullSkips(d.Rest());
      var skipped := d.SkipItem();
      return Some(Absent);
    }
    if kind.value == ArrayKind || kind.value == ArrayIndef {
      var probe := new Decoder(d.Rest());
      var length := probe.Array();
      if length == Some(Some(0)) {
        var consumed := d.Array();
        return Some(Pending);
      }
      if length == Some(Some(2)) {
        var skipped := d.SkipItem();
        return if skipped.Some? then Some(PresentWithoutIdentity) else None;
      }
    }
    return Some(Other);
  }

  lemma NullSkips(s: Bytes)
    requires Peek(s) == Some(NullKind)
    ensures Skip(s).Got? && Skip(s).rest == s[1..]
  {
    hide Item;
    NullIsItemAt(s);
  }

  method DecodeLeiosCert(d: Decoder) returns (r: Option<(nat, Bytes)>)
    requires d.Valid()
    modifies d
    ensures d.Reads(old(DecodeCertificate(d.Rest())), r)
  {
    hide ArrayHead, UInt, FixedBytes, ByteString;
    var length := d.Array();
    if length != Some(Some(4)) {
      return None;
    }
    var slot := d.Unsigned(U64);
    if slot.None? {
      return None;
    }
    var hash := Fixed(d, 32);
    if hash.None? {
      return None;
    }
    var signers := d.ReadBytes();
    if signers.None? {
      return None;
    }
    var signature := Fixed(d, 48);
    if signature.None? {
      return None;
    }
    return Some((slot.value, hash.value));
  }

  method InspectCertSlots(d: Decoder, slots: nat, base: BodyInfo) returns (r: Option<BodyInfo>)
    requires d.Valid()
    modifies d
    ensures r == InspectSlots(old(d.Rest()), slots, base)
  {
    hide ClassifyCertSlot, DecodeCertificate;
    var info := base;
    if slots >= 1 {
      ghost var before := d.Rest();
      var slot := Classify(d);
      if slot.None? {
        return None;
      }
      if slot.value == Pending || slot.value == PresentWithoutIdentity {
        info := info.(certificatePending := true);
      } else if slot.value == Other {
        OtherConsumesNothing(before);
        var cert := DecodeLeiosCert(d);
        if cert.None? {
          return None;
        }
        info := info.(certificate := cert);
      }
    }
    if slots >= 2 {
      var slot := Classify(d);
      if slot.None? || slot.value == Other {
        return None;
      }
      if slot.value != Absent {
        info := info.(perasPending := true);
      }
    }
    return Some(info);
  }

  lemma OtherConsumesNothing(s: Bytes)
    ensures ClassifyCertSlot(s).Got? && ClassifyCertSlot(s).value == Other ==> ClassifyCertSlot(s).rest == s
  {
  }

  method TryInspect(raw: Bytes) returns (r: Option<BodyInfo>)
    ensures r == Inspect(raw)
  {
    hide OpenBlock, ArrayHead, Skip, InspectLeiosBody, InspectFlat;
    var d, era := Open(raw);
    if era.None? {
      return None;
    }
    var length := d.Array();
    if length.None? || length.value.None? || length.value.value >= U32 {
      return None;
    }
    var fields := length.value.value;
    if fields < 2 {
      return Some(BodyInfo(0, fields, None, false, false));
    }
    var header := d.SkipItem();
    if header.None? {
      return None;
    }
    if era.value >= LEIOS_ERA {
      r := InspectEraEight(d, fields);
    } else {
      r := InspectEraSeven(d, fields);
    }
  }

  method InspectEraEight(d: Decoder, fieldCount: nat) returns (r: Option<BodyInfo>)
    requires d.Valid()
    modifies d
    ensures r == InspectLeiosBody(old(d.Rest()), fieldCount)
  {
    hide ArrayHead, SkipMany, CountArray, InspectSlots;
    var arity := d.Array();
    if arity.None? || arity.value.None? {
      return None;
    }
    var txField := TxFieldIndex(arity.value.value);
    if txField.None? {
      return Some(BodyInfo(0, fieldCount, None, false, false));
    }
    var ok := SkipFields(d, txField.value);
    if ok.None? {
      return None;
    }
    var txCount := CountAndSkipArray(d);
    if txCount.None? {
      return None;
    }
    r := InspectCertSlots(d, arity.value.value - txField.value - 1,
                          BodyInfo(txCount.value, fieldCount, None, false, false));
  }

  method InspectEraSeven(d: Decoder, length: nat) returns (r: Option<BodyInfo>)
    requires d.Valid() && length >= 2
    modifies d
    ensures r == InspectFlat(old(d.Rest()), length)
  {
    hide SkipMany, CountArray, InspectSlots;
    var txCount := CountAndSkipArray(d);
    if txCount.None? {
      return None;
    }
    var base := Min(length - 2, 3);
    var ok := SkipFields(d, base);
    if ok.None? {
      return None;
    }
    r := InspectCertSlots(d, length - 2 - base, BodyInfo(txCount.value, length, None, false, false));
  }

  method TryPoint(raw: Bytes, blake: Bytes -> Hash) returns (r: Option<Point>)
    ensures r == BlockPoint(raw, blake)
  {
    hide OpenBlock, ArrayHead, Skip, ParseHeader, HeaderHash, WrapHeader;
    var d, era := Open(raw);
    if era.None? {
      return None;
    }
    var length := d.Array();
    if length.None? {
      return None;
    }
    var header := d.SkipItem();
    if header.None? || |header.value| >= U64 || era.value >= U32 {
      return None;
    }
    var wrapped := WrapHeader(header.value, era.value);
    var info := TryParse(wrapped);
    return if info.None? then None else Some(Specific(info.value.slot, HeaderHash(wrapped, blake)));
  }

  /** A block built from its parts and read again: the point is the header's slot and digest, the
      certificate comes back whole, and the transactions are counted. */
  method SendAndRead(b: HeaderBody, signature: Bytes, txs: seq<Bytes>, cert: Option<Bytes>, blake: Bytes -> Hash)
    returns (inner: Bytes, point: Option<Point>, read: Option<Bytes>, info: Option<BodyInfo>)
    requires b.Valid() && |signature| == 448 && AllItems(txs) && |txs| < U32
    requires cert.Some? ==> IsTwoFieldCertificate(cert.value)
    requires |BlockContent(EncodeHeaderInner(EncodeHeaderBody(b), signature), EncodeBlockBody(txs, cert), LEIOS_ERA)| < U64
    ensures point == Some(Specific(b.slot, blake(inner))) && read == cert
    ensures info == Some(BodyInfo(|txs|, 2, None, cert.Some?, false))
  {
    hide BlockContent, WrapBlock, EncodeBlockBody, EncodeHeaderBody, EncodeHeaderInner, BlockPoint, BlockCertificate,
         Inspect, IsItem, AllItems, HeaderBody.Valid, IsTwoFieldCertificate;
    var header := Encode(b);
    inner := EncodeHeaderInner(header, signature);
    var body := EncodeBody(txs, cert);
    var block := Wrap(inner, body, LEIOS_ERA);
    EncodedBlockPoint(b, signature, body, blake);
    if cert.Some? {
      TwoFieldsAreNotNull(cert.value);
    }
    CertificateIsVerbatim(inner, txs, cert);
    InspectionCountsTransactions(inner, txs, cert);
    point := TryPoint(block, blake);
    read := LeiosBlockInfo(block);
    info := TryInspect(block);
  }

  lemma TwoFieldsAreNotNull(cert: Bytes)
    requires IsTwoFieldCertificate(cert)
    ensures IsItem(cert) && Peek(cert) != Some(NullKind)
  {
    hide IsItem;
  }
}
