/** What an encoded block gives back: its certificate, its transaction count and its point. */
module BlockRoundTrip {
  import opened Types
  import opened Cbor
  import opened CborTokens
  import opened Header
  import opened HeaderEncoding
  import opened HeaderAgreement
  import opened Block

  ghost predicate AllItems(txs: seq<Bytes>) {
    forall i :: 0 <= i < |txs| ==> IsItem(txs[i])
  }

  // ---------------------------------------------------------------------------
  // Opening what was wrapped
  // ---------------------------------------------------------------------------

  lemma WrappedBlockOpens(header: Bytes, body: Bytes, era: nat)
    requires 2 <= era < U32 && |BlockContent(header, body, era)| < U64
    ensures OpenBlock(WrapBlock(header, body, era)) == Some((era, EncodeArray(2) + (header + body)))
  {
    hide TagHead, ByteString, OpenContent, BlockContent, EncodeTag, EncodeBytes;
    var content := BlockContent(header, body, era);
    TagReads(TAG_ENCODED_CBOR, EncodeBytes(content));
    BytesRead(content, []);
    assert EncodeBytes(content) + [] == EncodeBytes(content);
    ContentOpens(header, body, era);
  }

  lemma ContentOpens(header: Bytes, body: Bytes, era: nat)
    requires 2 <= era < U32
    ensures OpenContent(BlockContent(header, body, era)) == Some((era, EncodeArray(2) + (header + body)))
  {
    hide ArrayHead, UInt, EncodeArray, EncodeUInt;
    var rest := EncodeArray(2) + (header + body);
    ArrayReads(2, EncodeUInt(era) + rest);
    UIntReads(era, U32, rest);
  }

  // ---------------------------------------------------------------------------
  // The transaction list
  // ---------------------------------------------------------------------------

  lemma {:induction false} JoinedItems(txs: seq<Bytes>, t: Bytes)
    requires AllItems(txs)
    ensures Items(Joined(txs) + t, |txs|) == Some(t)
    decreases |txs|
  {
    if txs == [] {
      assert Joined(txs) + t == t;
    } else {
      JoinedFromFront(txs);
      assert Joined(txs) + t == txs[0] + (Joined(txs[1..]) + t);
      ItemThen(txs[0], Joined(txs[1..]) + t);
      JoinedItems(txs[1..], t);
    }
  }

  lemma {:induction false} JoinedFromFront(txs: seq<Bytes>)
    requires txs != []
    ensures Joined(txs) == txs[0] + Joined(txs[1..])
  {
    var n := |txs| - 1;
    if n == 0 {
      assert Joined(txs) == [] + txs[0] && Joined(txs[1..]) == [];
    } else {
      var middle := txs[1..n];
      JoinedFromFront(txs[..n]);
      assert txs[..n][1..] == middle && txs[1..][..n - 1] == middle && txs[1..][n - 1] == txs[n];
      assert Joined(txs[1..]) == Joined(middle) + txs[n];
      assert txs[0] + Joined(middle) + txs[n] == txs[0] + (Joined(middle) + txs[n]);
    }
  }

  lemma {:induction false} JoinedSkips(txs: seq<Bytes>, t: Bytes)
    requires AllItems(txs)
    ensures SkipMany(Joined(txs) + t, |txs|) == Got((), t)
    decreases |txs|
  {
    hide Skip;
    if txs == [] {
      assert Joined(txs) + t == t;
    } else {
      JoinedFromFront(txs);
      assert Joined(txs) + t == txs[0] + (Joined(txs[1..]) + t);
      SkipThen(txs[0], Joined(txs[1..]) + t);
      JoinedSkips(txs[1..], t);
    }
  }

  lemma TransactionsSkip(txs: seq<Bytes>, t: Bytes)
    requires AllItems(txs) && |txs| < U64
    ensures Skip(EncodeArray(|txs|) + (Joined(txs) + t)).Got?
    ensures Skip(EncodeArray(|txs|) + (Joined(txs) + t)).rest == t
  {
    hide Item, Items, ArrayHead, EncodeArray, Joined;
    var s := EncodeArray(|txs|) + (Joined(txs) + t);
    ArrayReads(|txs|, Joined(txs) + t);
    JoinedItems(txs, t);
    ArrayIsItem(s, |txs|, t);
    SkipOfItem(s);
  }

  lemma TransactionsCount(txs: seq<Bytes>, t: Bytes)
    requires AllItems(txs) && |txs| < U32
    ensures CountArray(EncodeArray(|txs|) + (Joined(txs) + t)) == Got(|txs|, t)
  {
    hide SkipMany, ArrayHead, EncodeArray, Joined, CountUntilBreak;
    ArrayReads(|txs|, Joined(txs) + t);
    JoinedSkips(txs, t);
  }

  // ---------------------------------------------------------------------------
  // The certificate
  // ---------------------------------------------------------------------------

  lemma CertificateReads(cert: Bytes, t: Bytes, txs: seq<Bytes>)
    requires IsItem(cert) && AllItems(txs) && |txs| < U64
    ensures CertificateAfter(EncodeArray(|txs|) + (Joined(txs) + (cert + t)), 0) ==
            if Peek(cert) == Some(NullKind) then None else Some(cert)
  {
    hide Skip, IsItem, EncodeArray, Joined;
    var s := EncodeArray(|txs|) + (Joined(txs) + (cert + t));
    TransactionsSkip(txs, cert + t);
    assert SkipMany(cert + t, 0) == Got((), cert + t);
    assert SkipMany(s, 1).Got? && SkipMany(s, 1).rest == cert + t;
    SkipThen(cert, t);
    ItemIsNotEmpty(cert);
    assert (cert + t)[0] == cert[0];
  }

  lemma ItemIsNotEmpty(x: Bytes)
    requires IsItem(x)
    ensures x != []
  {
  }

  lemma LeiosCertificateReads(header: Bytes, txs: seq<Bytes>, cert: Bytes)
    requires IsItem(header) && AllItems(txs) && |txs| < U64 && IsItem(cert)
    ensures LeiosCertificate(header + EncodeBlockBody(txs, Some(cert)), 2) ==
            if Peek(cert) == Some(NullKind) then None else Some(cert)
  {
    hide Skip, ArrayHead, IsItem, EncodeArray, Joined, CertificateAfter;
    SkipThen(header, EncodeBlockBody(txs, Some(cert)));
    ArrayReads(3, EncodeArray(|txs|) + (Joined(txs) + (cert + NULL)));
    CertificateReads(cert, NULL, txs);
  }

  lemma NullIsItem()
    ensures IsItem(NULL) && Peek(NULL) == Some(NullKind)
  {
    NullReads([]);
    assert NULL + [] == NULL;
  }

  /** The certificate of a wrapped block comes back byte for byte; a null certificate, or none, reads
      as no certificate. */
  lemma CertificateIsVerbatim(header: Bytes, txs: seq<Bytes>, cert: Option<Bytes>)
    requires IsItem(header) && AllItems(txs) && |txs| < U64 && (cert.Some? ==> IsItem(cert.value))
    requires |BlockContent(header, EncodeBlockBody(txs, cert), LEIOS_ERA)| < U64
    ensures BlockCertificate(WrapBlock(header, EncodeBlockBody(txs, cert), LEIOS_ERA)) ==
            if cert.Some? && Peek(cert.value) != Some(NullKind) then cert else None
  {
    hide OpenBlock, WrapBlock, BlockContent, ArrayHead, LeiosCertificate, EncodeArray, IsItem, Joined;
    var field := CertificateField(cert);
    var body := EncodeBlockBody(txs, cert);
    assert body == EncodeBlockBody(txs, Some(field));
    NullIsItem();
    WrappedBlockOpens(header, body, LEIOS_ERA);
    ArrayReads(2, header + body);
    LeiosCertificateReads(header, txs, field);
  }

  // ---------------------------------------------------------------------------
  // The transaction count
  // ---------------------------------------------------------------------------

  /** A certificate of two fields: signers and signature. */
  ghost predicate IsTwoFieldCertificate(cert: Bytes) {
    IsItem(cert) && ArrayHead(cert).Got? && ArrayHead(cert).value == Some(2)
  }

  lemma TwoFieldSlot(cert: Bytes, t: Bytes)
    requires IsTwoFieldCertificate(cert)
    ensures ClassifyCertSlot(cert + t) == Got(PresentWithoutIdentity, t)
  {
    hide Skip, IsItem, Head;
    SkipThen(cert, t);
    TwoFieldHead(cert, t);
  }

  lemma TwoFieldHead(cert: Bytes, t: Bytes)
    requires IsTwoFieldCertificate(cert)
    ensures ArrayHead(cert + t).Got? && ArrayHead(cert + t).value == Some(2)
    ensures Peek(cert + t) == Some(ArrayKind)
  {
    hide Item;
    var rest := Head(cert).rest;
    HeadIsLocal(cert, rest + t);
    assert cert + t == Taken(cert, rest) + (rest + t);
    assert (cert + t)[0] == cert[0];
  }

  lemma NullSlot(t: Bytes)
    ensures ClassifyCertSlot(NULL + t) == Got(Absent, t)
  {
    hide Item, ArrayHead;
    assert (NULL + t)[1..] == t;
  }

  lemma SlotsRead(cert: Option<Bytes>, info: BodyInfo)
    requires cert.Some? ==> IsTwoFieldCertificate(cert.value)
    requires !info.certificatePending
    ensures InspectSlots(CertificateField(cert) + NULL, 2, info) == Some(info.(certificatePending := cert.Some?))
  {
    hide ClassifyCertSlot, DecodeCertificate, IsTwoFieldCertificate;
    NullSlot([]);
    assert NULL + [] == NULL;
    match cert
    case Some(c) => TwoFieldSlot(c, NULL);
    case None => NullSlot(NULL);
  }

  lemma LeiosBodyInspects(txs: seq<Bytes>, cert: Option<Bytes>)
    requires AllItems(txs) && |txs| < U32 && (cert.Some? ==> IsTwoFieldCertificate(cert.value))
    ensures InspectLeiosBody(EncodeBlockBody(txs, cert), 2) == Some(BodyInfo(|txs|, 2, None, cert.Some?, false))
  {
    hide ArrayHead, CountArray, InspectSlots, EncodeArray, Joined, IsTwoFieldCertificate, CertificateField;
    var tail := CertificateField(cert) + NULL;
    var list := EncodeArray(|txs|) + (Joined(txs) + tail);
    ArrayReads(3, list);
    TransactionsCount(txs, tail);
    SlotsRead(cert, BodyInfo(|txs|, 2, None, false, false));
  }

  /** Inspecting a wrapped block counts its transactions, and notes a two-field certificate as present
      but naming no EB. */
  lemma InspectionCountsTransactions(header: Bytes, txs: seq<Bytes>, cert: Option<Bytes>)
    requires IsItem(header) && AllItems(txs) && |txs| < U32
    requires cert.Some? ==> IsTwoFieldCertificate(cert.value)
    requires |BlockContent(header, EncodeBlockBody(txs, cert), LEIOS_ERA)| < U64
    ensures Inspect(WrapBlock(header, EncodeBlockBody(txs, cert), LEIOS_ERA)) ==
            Some(BodyInfo(|txs|, 2, None, cert.Some?, false))
  {
    hide OpenBlock, WrapBlock, BlockContent, ArrayHead, Skip, InspectLeiosBody, EncodeArray, EncodeBlockBody, IsItem,
         IsTwoFieldCertificate;
    var body := EncodeBlockBody(txs, cert);
    WrappedBlockOpens(header, body, LEIOS_ERA);
    ArrayReads(2, header + body);
    SkipThen(header, body);
    LeiosBodyInspects(txs, cert);
  }

  // ---------------------------------------------------------------------------
  // The point
  // ---------------------------------------------------------------------------

  lemma HeaderExtracts(header: Bytes, body: Bytes, era: nat)
    requires IsItem(header) && 2 <= era < U32 && |BlockContent(header, body, era)| < U64
    ensures ExtractHeader(WrapBlock(header, body, era)) == Some((header, era))
  {
    hide OpenBlock, WrapBlock, BlockContent, ArrayHead, Skip, EncodeArray, IsItem;
    WrappedBlockOpens(header, body, era);
    ArrayReads(2, header + body);
    SkipThen(header, body);
  }

  lemma WrappedHeaderExtracts(inner: Bytes, era: nat)
    requires |inner| < U64 && era < U32
    ensures ExtractHeaderCbor(WrapHeader(inner, era)) == Some(inner)
  {
    hide ArrayHead, UInt, TagHead, ByteString, Skip, Item, EncodeArray, EncodeUInt, EncodeTag, EncodeBytes;
    var t3 := EncodeBytes(inner);
    var t2 := EncodeTag(TAG_ENCODED_CBOR) + t3;
    var t1 := EncodeUInt(era) + t2;
    ArrayReads(2, t1);
    UIntReads(era, U32, t2);
    UIntIsItem(t1, U32);
    SkipOfItem(t1);
    TagReads(TAG_ENCODED_CBOR, t3);
    BytesRead(inner, []);
    assert t3 + [] == t3;
  }

  /** The slot that the lenient parser reads does not depend on the era of the wrapper. */
  lemma SlotIgnoresEra(inner: Bytes, era: nat, era': nat)
    ensures ParseInner(inner, era).Some? <==> ParseInner(inner, era').Some?
    ensures ParseInner(inner, era).Some? ==> ParseInner(inner, era).value.slot == ParseInner(inner, era').value.slot
  {
    hide ArrayHead, ReadIdentity, SkipTwo, ReadBodyReference, ReadExtensions;
  }

  lemma PointOfWrappedHeader(inner: Bytes, era: nat, blake: Bytes -> Hash)
    requires |inner| < U64 && 2 <= era < 256
    ensures HeaderPoint(WrapHeader(inner, era), blake) ==
            match ParseInner(inner, era)
            case Some(info) => Some(Specific(info.slot, blake(inner)))
            case None => None
  {
    hide ReadWrapper, ExtractHeaderCbor, WrapHeader, ParseInner;
    WrapperReads(inner, era);
    WrappedHeaderExtracts(inner, era);
  }

  /** The point of a block is the point of its header as announced, although the two are wrapped with
      different eras. */
  lemma BlockPointIsHeaderPoint(header: Bytes, body: Bytes, blake: Bytes -> Hash)
    requires IsItem(header) && |header| < U64 && |BlockContent(header, body, LEIOS_ERA)| < U64
    ensures BlockPoint(WrapBlock(header, body, LEIOS_ERA), blake)
            == HeaderPoint(WrapHeader(header, HEADER_ERA), blake)
  {
    hide ExtractHeader, WrapBlock, BlockContent, HeaderPoint, WrapHeader, ParseInner, IsItem;
    HeaderExtracts(header, body, LEIOS_ERA);
    PointOfWrappedHeader(header, LEIOS_ERA, blake);
    PointOfWrappedHeader(header, HEADER_ERA, blake);
    SlotIgnoresEra(header, LEIOS_ERA, HEADER_ERA);
  }

  /** A block built around an encoded header has that header's slot and the digest of its bytes. */
  lemma EncodedBlockPoint(b: HeaderBody, signature: Bytes, body: Bytes, blake: Bytes -> Hash)
    requires b.Valid() && |signature| == 448
    requires |BlockContent(EncodeHeaderInner(EncodeHeaderBody(b), signature), body, LEIOS_ERA)| < U64
    ensures var inner := EncodeHeaderInner(EncodeHeaderBody(b), signature);
            && IsItem(inner)
            && BlockPoint(WrapBlock(inner, body, LEIOS_ERA), blake) == Some(Specific(b.slot, blake(inner)))
  {
    hide BlockContent, WrapBlock, BlockPoint, HeaderPoint, EncodeHeaderInner, EncodeHeaderBody, ValidateInner, ParseInner,
         IsItem;
    var inner := EncodeHeaderInner(EncodeHeaderBody(b), signature);
    HeaderSize(b, signature);
    InnerReads(b, signature);
    ValidInnerIsItem(inner);
    BlockPointIsHeaderPoint(inner, body, blake);
    PointOfWrappedHeader(inner, HEADER_ERA, blake);
    EncodedInnerParses(b, signature);
  }

  lemma EncodedInnerParses(b: HeaderBody, signature: Bytes)
    requires b.Valid() && |signature| == 448
    ensures ParseInner(EncodeHeaderInner(EncodeHeaderBody(b), signature), HEADER_ERA) == Some(b.Info())
  {
    hide ArrayHead, ReadBodyFields, ParseBodyFields, EncodeArray, EncodeFields, EncodeBytes;
    var t := EncodeFields(b) + EncodeBytes(signature);
    assert EncodeHeaderInner(EncodeHeaderBody(b), signature) == EncodeArray(2) + (EncodeArray(12) + t);
    ArrayReads(2, EncodeArray(12) + t);
    ArrayReads(12, t);
    FieldsRead(b, EncodeBytes(signature));
    BodyFieldsAgree(t);
  }
}
