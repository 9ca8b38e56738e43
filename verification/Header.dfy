/** Ranking-block headers: the encoder, the strict validator and the lenient parser. */
module Header {
  import opened Types
  import opened Cbor
  import opened CborTokens

  const HEADER_ERA: nat := 7
  const MAX_HEADER_SIZE: nat := 65_535
  const BASE_FIELDS: nat := 10
  const TAG_ENCODED_CBOR: nat := 24

  datatype HeaderInfo = HeaderInfo(
    era: nat, blockNumber: nat, slot: nat, prevHash: Option<Bytes>, issuer: Bytes,
    bodySize: nat, bodyHash: Bytes, announced: Option<(Bytes, nat)>, certified: Option<bool>)

  // ---------------------------------------------------------------------------
  // Field readers shared by both parsers
  // ---------------------------------------------------------------------------

  function FixedBytes(s: Bytes, n: nat): Read<Bytes> {
    match ByteString(s) case Got(b, rest) => if |b| == n then Got(b, rest) else Bad case Bad => Bad
  }

  function OptionalHash(s: Bytes): Read<Option<Bytes>> {
    if Peek(s) == Some(NullKind) then (match Null(s) case Got(_, rest) => Got(None, rest) case Bad => Bad)
    else match FixedBytes(s, 32) case Got(h, rest) => Got(Some(h), rest) case Bad => Bad
  }

  datatype Identity = Identity(blockNumber: nat, slot: nat, prevHash: Option<Bytes>, issuer: Bytes)

  /** Fields 0 to 3. */
  function ReadIdentity(s: Bytes): Read<Identity> {
    match UInt(s, U64)
    case Bad => Bad
    case Got(blockNumber, s1) =>
      match UInt(s1, U64)
      case Bad => Bad
      case Got(slot, s2) =>
        match OptionalHash(s2)
        case Bad => Bad
        case Got(prevHash, s3) =>
          match FixedBytes(s3, 32)
          case Got(issuer, s4) => Got(Identity(blockNumber, slot, prevHash, issuer), s4)
          case Bad => Bad
  }

  /** Fields 6 and 7. */
  function ReadBodyReference(s: Bytes): Read<(nat, Bytes)> {
    match UInt(s, U32)
    case Bad => Bad
    case Got(size, s1) =>
      match FixedBytes(s1, 32) case Got(hash, s2) => Got((size, hash), s2) case Bad => Bad
  }

  // ---------------------------------------------------------------------------
  // The strict validator
  // ---------------------------------------------------------------------------

  /** A record is an array of exactly its fields, definite or indefinite. */
  function RecordHead(s: Bytes, count: nat): Read<Option<nat>> {
    match ArrayHead(s)
    case Got(length, rest) => if length == None || length == Some(count) then Got(length, rest) else Bad
    case Bad => Bad
  }

  function FinishRecord(s: Bytes, length: Option<nat>): Read<()> {
    if length.Some? then Got((), s)
    else if Peek(s) == Some(BreakKind) then Got((), s[1..])
    else Bad
  }

  /** Fields 4 and 5: the VRF key, output and proof. */
  function ReadVrf(s: Bytes): Read<()> {
    match FixedBytes(s, 32)
    case Bad => Bad
    case Got(_, s1) =>
      match RecordHead(s1, 2)
      case Bad => Bad
      case Got(length, s2) =>
        match FixedBytes(s2, 64)
        case Bad => Bad
        case Got(_, s3) =>
          match FixedBytes(s3, 80)
          case Bad => Bad
          case Got(_, s4) => FinishRecord(s4, length)
  }

  /** Field 8. */
  function ReadOperationalCert(s: Bytes): Read<()> {
    match RecordHead(s, 4)
    case Bad => Bad
    case Got(length, s1) =>
      match FixedBytes(s1, 32)
      case Bad => Bad
      case Got(_, s2) =>
        match UInt(s2, U64)
        case Bad => Bad
        case Got(_, s3) =>
          match UInt(s3, U64)
          case Bad => Bad
          case Got(_, s4) =>
            match FixedBytes(s4, 64)
            case Bad => Bad
            case Got(_, s5) => FinishRecord(s5, length)
  }

  /** Field 9. */
  function ReadVersion(s: Bytes): Read<()> {
    match RecordHead(s, 2)
    case Bad => Bad
    case Got(length, s1) =>
      match UInt(s1, U32)
      case Bad => Bad
      case Got(_, s2) =>
        match UInt(s2, U32)
        case Bad => Bad
        case Got(_, s3) => FinishRecord(s3, length)
  }

  /** Field 11: null, or the announced hash and size. */
  function ReadAnnouncement(s: Bytes): Read<Option<(Bytes, nat)>> {
    if Peek(s) == Some(NullKind) then (match Null(s) case Got(_, rest) => Got(None, rest) case Bad => Bad)
    else
      match RecordHead(s, 2)
      case Bad => Bad
      case Got(length, s1) =>
        match ReadHashAndSize(s1)
        case Bad => Bad
        case Got(pair, s2) =>
          match FinishRecord(s2, length) case Got(_, s3) => Got(Some(pair), s3) case Bad => Bad
  }

  function ReadHashAndSize(s: Bytes): Read<(Bytes, nat)> {
    match FixedBytes(s, 32)
    case Bad => Bad
    case Got(hash, s1) =>
      match UInt(s1, U32) case Got(size, s2) => Got((hash, size), s2) case Bad => Bad
  }

  /** Fields 10 and 11. */
  function ReadLeiosFields(s: Bytes): Read<(bool, Option<(Bytes, nat)>)> {
    match Bool(s)
    case Bad => Bad
    case Got(certified, s1) =>
      match ReadAnnouncement(s1) case Got(announced, s2) => Got((certified, announced), s2) case Bad => Bad
  }

  /** The twelve fields of a header body, after its array head. */
  function ReadBodyFields(s: Bytes): Read<HeaderInfo> {
    match ReadIdentity(s)
    case Bad => Bad
    case Got(id, s1) =>
      match ReadVrf(s1)
      case Bad => Bad
      case Got(_, s2) =>
        match ReadBodyReference(s2)
        case Bad => Bad
        case Got((bodySize, bodyHash), s3) =>
          match ReadOperationalCert(s3)
          case Bad => Bad
          case Got(_, s4) =>
            match ReadVersion(s4)
            case Bad => Bad
            case Got(_, s5) =>
              match ReadLeiosFields(s5)
              case Bad => Bad
              case Got((certified, announced), s6) =>
                Got(HeaderInfo(HEADER_ERA, id.blockNumber, id.slot, id.prevHash, id.issuer,
                               bodySize, bodyHash, announced, Some(certified)), s6)
  }

  /** The inner header: body record, signature, and nothing after. */
  function ValidateInner(s: Bytes): Option<HeaderInfo> {
    match RecordHead(s, 2)
    case Bad => None
    case Got(header, s1) =>
      match RecordHead(s1, 12)
      case Bad => None
      case Got(body, s2) =>
        match ReadBodyFields(s2)
        case Bad => None
        case Got(info, s3) =>
          match FinishRecord(s3, body)
          case Bad => None
          case Got(_, s4) => if ValidSignature(s4, header) then Some(info) else None
  }

  predicate ValidSignature(s: Bytes, header: Option<nat>) {
    match FixedBytes(s, 448)
    case Bad => false
    case Got(_, rest) => FinishRecord(rest, header).Got? && FinishRecord(rest, header).rest == []
  }

  /** The era and the wrapped bytes of `[era, #6.24(bytes)]`, any array head. */
  function ReadWrapper(raw: Bytes): Read<(Option<nat>, nat, Bytes)> {
    match ArrayHead(raw)
    case Bad => Bad
    case Got(length, s1) =>
      match UInt(s1, U32)
      case Bad => Bad
      case Got(era, s2) =>
        match TagHead(s2)
        case Bad => Bad
        case Got(tag, s3) =>
          if tag != TAG_ENCODED_CBOR then Bad
          else match ByteString(s3) case Got(inner, s4) => Got((length, era, inner), s4) case Bad => Bad
  }

  function ValidateLeiosHeader(raw: Bytes): Option<HeaderInfo> {
    if |raw| > MAX_HEADER_SIZE then None
    else
      match ReadWrapper(raw)
      case Bad => None
      case Got((length, era, inner), rest) =>
        if length == Some(2) && era == HEADER_ERA && rest == [] then ValidateInner(inner) else None
  }

  // ---------------------------------------------------------------------------
  // The lenient parser
  // ---------------------------------------------------------------------------

  /** The trailing fields, told apart by kind; `remaining` array elements are left. */
  function ReadExtensions(s: Bytes, remaining: nat, announced: Option<(Bytes, nat)>, certified: Option<bool>)
    : Option<(Option<(Bytes, nat)>, Option<bool>)>
    decreases remaining
  {
    if remaining == 0 then Some((announced, certified))
    else
      var kind := Peek(s);
      if kind == Some(BoolKind) && certified.None? then
        match Bool(s)
        case Got(b, rest) => ReadExtensions(rest, remaining - 1, announced, Some(b))
        case Bad => None
      else if (kind == Some(ArrayKind) || kind == Some(ArrayIndef)) && announced.None? then
        match ReadTuple(s)
        case Got(pair, rest) => ReadExtensions(rest, remaining - 1, Some(pair), certified)
        case Bad => None
      else if kind == Some(BytesKind) && announced.None? && remaining >= 2 then
        match ReadHashAndSize(s)
        case Got(pair, rest) => ReadExtensions(rest, remaining - 2, Some(pair), certified)
        case Bad => None
      else if kind == Some(NullKind) && announced.None? then
        ReadExtensions(s[1..], remaining - 1, announced, certified)
      else None
  }

  /** An announcement as an array of two. */
  function ReadTuple(s: Bytes): Read<(Bytes, nat)> {
    match ArrayHead(s)
    case Bad => Bad
    case Got(length, s1) =>
      match ReadHashAndSize(s1)
      case Bad => Bad
      case Got(pair, s2) =>
        match length
        case Some(n) => if n == 2 then Got(pair, s2) else Bad
        case None => if Peek(s2) == Some(BreakKind) then Got(pair, s2[1..]) else Bad
  }

  function SkipTwo(s: Bytes): Read<()> {
    match Skip(s) case Got(_, s1) => (match Skip(s1) case Got(_, s2) => Got((), s2) case Bad => Bad) case Bad => Bad
  }

  /** The fields of a header body of `count` elements, after its array head. */
  function ParseBodyFields(s: Bytes, era: nat, count: nat): Option<HeaderInfo>
    requires count >= BASE_FIELDS
  {
    match ReadIdentity(s)
    case Bad => None
    case Got(id, s1) =>
      match SkipTwo(s1)
      case Bad => None
      case Got(_, s2) =>
        match ReadBodyReference(s2)
        case Bad => None
        case Got((bodySize, bodyHash), s3) =>
          match SkipTwo(s3)
          case Bad => None
          case Got(_, s4) =>
            match ReadExtensions(s4, count - BASE_FIELDS, None, None)
            case None => None
            case Some((announced, certified)) =>
              Some(HeaderInfo(era, id.blockNumber, id.slot, id.prevHash, id.issuer,
                              bodySize, bodyHash, announced, certified))
  }

  function ParseInner(s: Bytes, era: nat): Option<HeaderInfo> {
    match ArrayHead(s)
    case Bad => None
    case Got(_, s1) =>
      match ArrayHead(s1)
      case Got(Some(count), s2) => if count < BASE_FIELDS then None else ParseBodyFields(s2, era, count)
      case _ => None
  }

  /** The era is truncated to a byte; Byron eras are refused. */
  function ParseHeader(raw: Bytes): Option<HeaderInfo> {
    match ReadWrapper(raw)
    case Bad => None
    case Got((_, era, inner), _) => if era % 256 < 2 then None else ParseInner(inner, era % 256)
  }

  // ---------------------------------------------------------------------------
  // Identity of a header
  // ---------------------------------------------------------------------------

  function ExtractHeaderCbor(raw: Bytes): Option<Bytes> {
    match ArrayHead(raw)
    case Bad => None
    case Got(_, s1) =>
      match Skip(s1)
      case Bad => None
      case Got(_, s2) =>
        match TagHead(s2)
        case Bad => None
        case Got(_, s3) => (match ByteString(s3) case Got(inner, _) => Some(inner) case Bad => None)
  }

  function HeaderHash(raw: Bytes, blake: Bytes -> Hash): Hash {
    blake(ExtractHeaderCbor(raw).GetOr(raw))
  }

  function HeaderPoint(raw: Bytes, blake: Bytes -> Hash): Option<Point> {
    match ParseHeader(raw) case Some(info) => Some(Specific(info.slot, HeaderHash(raw, blake))) case None => None
  }
}
