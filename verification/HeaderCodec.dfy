/** The header codec as growing buffers and decoder cursors. */
module HeaderCodec {
  import opened Types
  import opened Cbor
  import opened CborTokens
  import opened CborDecoder
  import opened Header
  import opened HeaderEncoding

  // ---------------------------------------------------------------------------
  // Encoding
  // ---------------------------------------------------------------------------

  method AppendIdentity(buf: Bytes, b: HeaderBody) returns (r: Bytes)
    requires b.Valid()
    ensures r == buf + EncodeIdentity(b)
  {
    hide EncodeUInt, EncodeBytes;
    r := buf + EncodeUInt(b.blockNumber);
    r := r + EncodeUInt(b.slot);
    match b.prevHash {
      case Some(h) =>
        r := r + EncodeBytes(h);
      case None =>
        r := r + NULL;
    }
    r := r + EncodeBytes(b.issuer);
    IdentityJoins(buf, b);
  }

  lemma IdentityJoins(buf: Bytes, b: HeaderBody)
    requires b.Valid()
    ensures buf + EncodeUInt(b.blockNumber) + EncodeUInt(b.slot) + EncodeOptionalHash(b.prevHash) + EncodeBytes(b.issuer)
            == buf + EncodeIdentity(b)
  {
    hide EncodeUInt, EncodeBytes, EncodeOptionalHash;
  }

  method AppendVrf(buf: Bytes, b: HeaderBody) returns (r: Bytes)
    requires b.Valid()
    ensures r == buf + EncodeVrf(b)
  {
    hide EncodeArray, EncodeBytes;
    r := buf + EncodeBytes(b.vrfVkey);
    r := r + EncodeArray(2);
    r := r + EncodeBytes(b.vrfOutput);
    r := r + EncodeBytes(b.vrfProof);
  }

  method AppendOperationalCert(buf: Bytes, c: OperationalCert) returns (r: Bytes)
    requires |c.hotVkey| < U64 && c.counter < U64 && c.kesPeriod < U64 && |c.sigma| < U64
    ensures r == buf + EncodeOperationalCert(c)
  {
    hide EncodeArray, EncodeBytes, EncodeUInt;
    r := buf + EncodeArray(4);
    r := r + EncodeBytes(c.hotVkey);
    r := r + EncodeUInt(c.counter);
    r := r + EncodeUInt(c.kesPeriod);
    r := r + EncodeBytes(c.sigma);
  }

  method AppendLeiosFields(buf: Bytes, b: HeaderBody) returns (r: Bytes)
    requires b.Valid()
    ensures r == buf + EncodeLeiosFields(b)
  {
    hide EncodeArray, EncodeBytes, EncodeUInt, EncodeBool;
    r := buf + EncodeBool(b.certified);
    match b.announced
    case Some(pair) =>
      r := r + EncodeArray(2);
      r := r + EncodeBytes(pair.0);
      r := r + EncodeUInt(pair.1);
    case None =>
      r := r + NULL;
  }

  method Encode(b: HeaderBody) returns (buf: Bytes)
    requires b.Valid()
    ensures buf == EncodeHeaderBody(b)
  {
    hide EncodeArray, EncodeUInt, EncodeBytes, EncodeIdentity, EncodeVrf, EncodeOperationalCert, EncodeLeiosFields;
    buf := EncodeArray(12);
    buf := AppendIdentity(buf, b);
    buf := AppendVrf(buf, b);
    buf := buf + EncodeUInt(b.bodySize);
    buf := buf + EncodeBytes(b.bodyHash);
    buf := AppendOperationalCert(buf, b.opCert);
    buf := buf + EncodeArray(2);
    buf := buf + EncodeUInt(b.protocolVersion.0);
    buf := buf + EncodeUInt(b.protocolVersion.1);
    buf := AppendLeiosFields(buf, b);
  }

  // ---------------------------------------------------------------------------
  // Strict validation
  // ---------------------------------------------------------------------------

  method Record(d: Decoder, count: nat) returns (length: Option<Option<nat>>)
    requires d.Valid()
    modifies d
    ensures d.Reads(old(RecordHead(d.Rest(), count)), length)
  {
    hide ArrayHead;
    length := d.Array();
    if length.Some? && length.value.Some? && length.value.value != count {
      return None;
    }
  }

  method EndRecord(d: Decoder, length: Option<nat>) returns (ok: Option<()>)
    requires d.Valid()
    modifies d
    ensures d.Reads(old(FinishRecord(d.Rest(), length)), ok)
  {
    if length.None? {
      var kind := d.Datatype();
      if kind != Some(BreakKind) {
        return None;
      }
      var skipped := d.SkipItem();
    }
    return Some(());
  }

  method Fixed(d: Decoder, n: nat) returns (r: Option<Bytes>)
    requires d.Valid()
    modifies d
    ensures d.Reads(old(FixedBytes(d.Rest(), n)), r)
  {
    hide ByteString;
    r := d.ReadBytes();
    if r.Some? && |r.value| != n {
      return None;
    }
  }

  method HashOrNull(d: Decoder) returns (r: Option<Option<Bytes>>)
    requires d.Valid()
    modifies d
    ensures d.Reads(old(OptionalHash(d.Rest())), r)
  {
    hide FixedBytes;
    var kind := d.Datatype();
    if kind == Some(NullKind) {
      var skipped := d.ReadNull();
      return Some(None);
    }
    var h := Fixed(d, 32);
    return if h.Some? then Some(h) else None;
  }

  method DecodeIdentity(d: Decoder) returns (r: Option<Identity>)
    requires d.Valid()
    modifies d
    ensures d.Reads(old(ReadIdentity(d.Rest())), r)
  {
    hide UInt, OptionalHash, FixedBytes;
    var blockNumber := d.Unsigned(U64);
    if blockNumber.None? {
      return None;
    }
    var slot := d.Unsigned(U64);
    if slot.None? {
      return None;
    }
    var prevHash := HashOrNull(d);
    if prevHash.None? {
      return None;
    }
    var issuer := Fixed(d, 32);
    if issuer.None? {
      return None;
    }
    return Some(Identity(blockNumber.value, slot.value, prevHash.value, issuer.value));
  }

  method DecodeVrf(d: Decoder) returns (r: Option<()>)
    requires d.Valid()
    modifies d
    ensures d.Reads(old(ReadVrf(d.Rest())), r)
  {
    hide RecordHead, FixedBytes, FinishRecord;
    var vkey := Fixed(d, 32);
    if vkey.None? {
      return None;
    }
    var vrf := Record(d, 2);
    if vrf.None? {
      return None;
    }
    var output := Fixed(d, 64);
    if output.None? {
      return None;
    }
    var proof := Fixed(d, 80);
    if proof.None? {
      return None;
    }
    r := EndRecord(d, vrf.value);
  }

  method DecodeBodyReference(d: Decoder) returns (r: Option<(nat, Bytes)>)
    requires d.Valid()
    modifies d
    ensures d.Reads(old(ReadBodyReference(d.Rest())), r)
  {
    hide UInt, FixedBytes;
    var size := d.Unsigned(U32);
    if size.None? {
      return None;
    }
    var hash := Fixed(d, 32);
    if hash.None? {
      return None;
    }
    return Some((size.value, hash.value));
  }

  method DecodeOperationalCert(d: Decoder) returns (r: Option<()>)
    requires d.Valid()
    modifies d
    ensures d.Reads(old(ReadOperationalCert(d.Rest())), r)
  {
    hide RecordHead, FixedBytes, UInt, FinishRecord;
    var cert := Record(d, 4);
    if cert.None? {
      return None;
    }
    var vkey := Fixed(d, 32);
    if vkey.None? {
      return None;
    }
    var counter := d.Unsigned(U64);
    if counter.None? {
      return None;
    }
    var period := d.Unsigned(U64);
    if period.None? {
      return None;
    }
    var sigma := Fixed(d, 64);
    if sigma.None? {
      return None;
    }
    r := EndRecord(d, cert.value);
  }

  method DecodeVersion(d: Decoder) returns (r: Option<()>)
    requires d.Valid()
    modifies d
    ensures d.Reads(old(ReadVersion(d.Rest())), r)
  {
    hide RecordHead, UInt, FinishRecord;
    var version := Record(d, 2);
    if version.None? {
      return None;
    }
    var major := d.Unsigned(U32);
    if major.None? {
      return None;
    }
    var tag := d.Unsigned(U32);
    if tag.None? {
      return None;
    }
    r := EndRecord(d, version.value);
  }

  method DecodeHashAndSize(d: Decoder) returns (r: Option<(Bytes, nat)>)
    requires d.Valid()
    modifies d
    ensures d.Reads(old(ReadHashAndSize(d.Rest())), r)
  {
    hide FixedBytes, UInt;
    var hash := Fixed(d, 32);
    if hash.None? {
      return None;
    }
    var size := d.Unsigned(U32);
    if size.None? {
      return None;
    }
    return Some((hash.value, size.value));
  }

  method DecodeAnnouncement(d: Decoder) returns (r: Option<Option<(Bytes, nat)>>)
    requires d.Valid()
    modifies d
    ensures d.Reads(old(ReadAnnouncement(d.Rest())), r)
  {
    hide RecordHead, ReadHashAndSize, FinishRecord;
    var kind := d.Datatype();
    if kind == Some(NullKind) {
      var skipped := d.ReadNull();
      return Some(None);
    }
    var announcement := Record(d, 2);
    if announcement.None? {
      return None;
    }
    var pair := DecodeHashAndSize(d);
    if pair.None? {
      return None;
    }
    var ok := EndRecord(d, announcement.value);
    return if ok.Some? then Some(pair) else None;
  }

  method DecodeBodyFields(d: Decoder) returns (r: Option<HeaderInfo>)
    requires d.Valid()
    modifies d
    ensures d.Reads(old(ReadBodyFields(d.Rest())), r)
  {
    hide ReadIdentity, ReadVrf, ReadBodyReference, ReadOperationalCert, ReadVersion, ReadAnnouncement, Bool;
    var id := DecodeIdentity(d);
    if id.None? {
      return None;
    }
    var vrf := DecodeVrf(d);
    if vrf.None? {
      return None;
    }
    var body := DecodeBodyReference(d);
    if body.None? {
      return None;
    }
    var cert := DecodeOperationalCert(d);
    if cert.None? {
      return None;
    }
    var version := DecodeVersion(d);
    if version.None? {
      return None;
    }
    var certified := d.ReadBool();
    if certified.None? {
      return None;
    }
    var announced := DecodeAnnouncement(d);
    if announced.None? {
      return None;
    }
    return Some(HeaderInfo(HEADER_ERA, id.value.blockNumber, id.value.slot, id.value.prevHash, id.value.issuer,
                           body.value.0, body.value.1, announced.value, certified));
  }

  method ValidateInnerBytes(inner: Bytes) returns (r: Option<HeaderInfo>)
    ensures r == ValidateInner(inner)
  {
    hide RecordHead, FixedBytes, FinishRecord, ReadBodyFields;
    var d := new Decoder(inner);
    var header := Record(d, 2);
    if header.None? {
      return None;
    }
    var body := Record(d, 12);
    if body.None? {
      return None;
    }
    var info := DecodeBodyFields(d);
    if info.None? {
      return None;
    }
    var ended := EndRecord(d, body.value);
    if ended.None? {
      return None;
    }
    var signature := Fixed(d, 448);
    if signature.None? {
      return None;
    }
    ended := EndRecord(d, header.value);
    if ended.None? || d.position != |d.input| {
      return None;
    }
    return info;
  }

  method Unwrap(d: Decoder) returns (r: Option<(Option<nat>, nat, Bytes)>)
    requires d.Valid()
    modifies d
    ensures d.Reads(old(ReadWrapper(d.Rest())), r)
  {
    hide ArrayHead, UInt, TagHead, ByteString;
    var length := d.Array();
    if length.None? {
      return None;
    }
    var era := d.Unsigned(U32);
    if era.None? {
      return None;
    }
    var tag := d.Tag();
    if tag.None? || tag.value != TAG_ENCODED_CBOR {
      return None;
    }
    var inner := d.ReadBytes();
    if inner.None? {
      return None;
    }
    return Some((length.value, era.value, inner.value));
  }

  method ValidateHeaderBytes(raw: Bytes) returns (r: Option<HeaderInfo>)
    ensures r == ValidateLeiosHeader(raw)
  {
    hide ReadWrapper, ValidateInner;
    if |raw| > MAX_HEADER_SIZE {
      return None;
    }
    var outer := new Decoder(raw);
    var wrapper := Unwrap(outer);
    if wrapper.None? || wrapper.value.0 != Some(2) || wrapper.value.1 != HEADER_ERA {
      return None;
    }
    if outer.position != |outer.input| {
      return None;
    }
    r := ValidateInnerBytes(wrapper.value.2);
  }

  // ---------------------------------------------------------------------------
  // Lenient parsing
  // ---------------------------------------------------------------------------

  method DecodeTuple(d: Decoder) returns (r: Option<(Bytes, nat)>)
    requires d.Valid()
    modifies d
    ensures d.Reads(old(ReadTuple(d.Rest())), r)
  {
    hide ArrayHead, ReadHashAndSize;
    var length := d.Array();
    if length.None? {
      return None;
    }
    var pair := DecodeHashAndSize(d);
    if pair.None? {
      return None;
    }
    if length.value.Some? {
      return if length.value.value == 2 then pair else None;
    }
    var kind := d.Datatype();
    if kind != Some(BreakKind) {
      return None;
    }
    var skipped := d.SkipItem();
    return pair;
  }

  method DecodeExtensions(d: Decoder, count: nat) returns (r: Option<(Option<(Bytes, nat)>, Option<bool>)>)
    requires d.Valid()
    modifies d
    ensures r == ReadExtensions(old(d.Rest()), count, None, None)
  {
    hide Bool, ReadTuple, ReadHashAndSize;
    var announced: Option<(Bytes, nat)> := None;
    var certified: Option<bool> := None;
    var remaining := count;
    ghost var whole := ReadExtensions(d.Rest(), count, None, None);
    while remaining > 0
      invariant d.Valid()
      invariant whole == ReadExtensions(d.Rest(), remaining, announced, certified)
    {
      var kind := d.Datatype();
      if kind == Some(BoolKind) {
        if certified.Some? {
          return None;
        }
        certified := d.ReadBool();
        if certified.None? {
          return None;
        }
        remaining := remaining - 1;
      } else if kind == Some(ArrayKind) || kind == Some(ArrayIndef) {
        if announced.Some? {
          return None;
        }
        announced := DecodeTuple(d);
        if announced.None? {
          return None;
        }
        remaining := remaining - 1;
      } else if kind == Some(BytesKind) {
        if announced.Some? || remaining < 2 {
          return None;
        }
        announced := DecodeHashAndSize(d);
        if announced.None? {
          return None;
        }
        remaining := remaining - 2;
      } else if kind == Some(NullKind) {
        if announced.Some? {
          return None;
        }
        var skipped := d.ReadNull();
        remaining := remaining - 1;
      } else {
        return None;
      }
    }
    return Some((announced, certified));
  }

  method SkipPair(d: Decoder) returns (r: Option<()>)
    requires d.Valid()
    modifies d
    ensures d.Reads(old(SkipTwo(d.Rest())), r)
  {
    hide Skip;
    var first := d.SkipItem();
    if first.None? {
      return None;
    }
    var second := d.SkipItem();
    if second.None? {
      return None;
    }
    return Some(());
  }

  method ParseBody(d: Decoder, era: nat, count: nat) returns (r: Option<HeaderInfo>)
    requires d.Valid() && count >= BASE_FIELDS
    modifies d
    ensures r == ParseBodyFields(old(d.Rest()), era, count)
  {
    hide ReadIdentity, ReadBodyReference, ReadExtensions, SkipTwo;
    var id := DecodeIdentity(d);
    if id.None? {
      return None;
    }
    var vrf := SkipPair(d);
    if vrf.None? {
      return None;
    }
    var body := DecodeBodyReference(d);
    if body.None? {
      return None;
    }
    var certAndVersion := SkipPair(d);
    if certAndVersion.None? {
      return None;
    }
    var extensions := DecodeExtensions(d, count - BASE_FIELDS);
    if extensions.None? {
      return None;
    }
    return Some(HeaderInfo(era, id.value.blockNumber, id.value.slot, id.value.prevHash, id.value.issuer,
                           body.value.0, body.value.1, extensions.value.0, extensions.value.1));
  }

  method TryParse(raw: Bytes) returns (r: Option<HeaderInfo>)
    ensures r == ParseHeader(raw)
  {
    hide ReadWrapper, ArrayHead, ParseBodyFields;
    var outer := new Decoder(raw);
    var wrapper := Unwrap(outer);
    if wrapper.None? {
      return None;
    }
    var era := wrapper.value.1 % 256;
    if era < 2 {
      return None;
    }
    var d := new Decoder(wrapper.value.2);
    var header := d.Array();
    if header.None? {
      return None;
    }
    var body := d.Array();
    if body.None? || body.value.None? || body.value.value < BASE_FIELDS {
      return None;
    }
    r := ParseBody(d, era, body.value.value);
  }
}
