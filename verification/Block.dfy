/** Blocks: the encoder, the certificate extractor, the inspector and the block's point. */
module Block {
  import opened Types
  import opened Cbor
  import opened CborTokens
  import opened Header
  import opened HeaderEncoding

  const LEIOS_ERA: nat := 8
  const BLOCK_BASE_FIELDS: nat := 5

  // ---------------------------------------------------------------------------
  // Encoding
  // ---------------------------------------------------------------------------

  function Joined(txs: seq<Bytes>): Bytes {
    if txs == [] then [] else Joined(txs[..|txs| - 1]) + txs[|txs| - 1]
  }

  function CertificateField(cert: Option<Bytes>): Bytes {
    cert.GetOr(NULL)
  }

  function EncodeBlockBody(txs: seq<Bytes>, cert: Option<Bytes>): Bytes
    requires |txs| < U64
  {
    EncodeArray(3) + (EncodeArray(|txs|) + (Joined(txs) + (CertificateField(cert) + NULL)))
  }

  function BlockContent(header: Bytes, body: Bytes, era: nat): Bytes
    requires era < U32
  {
    EncodeArray(2) + (EncodeUInt(era) + (EncodeArray(2) + (header + body)))
  }

  function WrapBlock(header: Bytes, body: Bytes, era: nat): Bytes
    requires era < U32 && |BlockContent(header, body, era)| < U64
  {
    EncodeTag(TAG_ENCODED_CBOR) + EncodeBytes(BlockContent(header, body, era))
  }

  // ---------------------------------------------------------------------------
  // Opening a block
  // ---------------------------------------------------------------------------

  /** The era, and the bytes of the era's block; Byron eras are refused. */
  function OpenBlock(raw: Bytes): Option<(nat, Bytes)> {
    match TagHead(raw)
    case Bad => None
    case Got(tag, s) =>
      if tag != TAG_ENCODED_CBOR then None
      else match ByteString(s) case Got(inner, _) => OpenContent(inner) case Bad => None
  }

  function OpenContent(inner: Bytes): Option<(nat, Bytes)> {
    match ArrayHead(inner)
    case Bad => None
    case Got(_, s) =>
      match UInt(s, U32)
      case Got(era, rest) => if era < 2 then None else Some((era, rest))
      case Bad => None
  }

  function SkipMany(s: Bytes, n: nat): Read<()>
    decreases n
  {
    if n == 0 then Got((), s) else match Skip(s) case Got(_, rest) => SkipMany(rest, n - 1) case Bad => Bad
  }

  // ---------------------------------------------------------------------------
  // The certificate
  // ---------------------------------------------------------------------------

  /** How many fields precede the transactions, for the two body layouts. */
  function TxFieldIndex(arity: nat): Option<nat> {
    if arity == 3 then Some(0) else if arity == 4 then Some(1) else None
  }

  /** The certificate of an era-8 block, after the head of its array. */
  function LeiosCertificate(s: Bytes, blockLength: nat): Option<Bytes> {
    if blockLength < 2 then None
    else
      match Skip(s)
      case Bad => None
      case Got(_, s1) =>
        match ArrayHead(s1)
        case Got(Some(arity), s2) => if TxFieldIndex(arity).None? then None else CertificateAfter(s2, TxFieldIndex(arity).value)
        case _ => None
  }

  function CertificateAfter(s: Bytes, txField: nat): Option<Bytes> {
    match SkipMany(s, txField + 1)
    case Bad => None
    case Got(_, rest) =>
      if Peek(rest) == Some(NullKind) then None
      else match Skip(rest) case Got(cert, _) => Some(cert) case Bad => None
  }

  /** The trailing certificate of a flat block. */
  function FlatCertificate(s: Bytes, blockLength: nat): Option<Bytes> {
    if blockLength <= BLOCK_BASE_FIELDS then None
    else
      match SkipMany(s, BLOCK_BASE_FIELDS)
      case Bad => None
      case Got(_, rest) => (match Skip(rest) case Got(cert, _) => Some(cert) case Bad => None)
  }

  function BlockCertificate(raw: Bytes): Option<Bytes> {
    match OpenBlock(raw)
    case None => None
    case Some((era, s)) =>
      match ArrayHead(s)
      case Got(Some(length), rest) =>
        if era >= LEIOS_ERA then LeiosCertificate(rest, length) else FlatCertificate(rest, length)
      case _ => None
  }

  // ---------------------------------------------------------------------------
  // Inspection
  // ---------------------------------------------------------------------------

  datatype BodyInfo = BodyInfo(
    txCount: nat, fieldCount: nat, certificate: Option<(nat, Bytes)>, certificatePending: bool, perasPending: bool)

  function CountUntilBreak(s: Bytes, n: nat): Read<nat>
    decreases |s|
  {
    if s == [] then Bad
    else if s[0] == BREAK then Got(n, s[1..])
    else match Skip(s) case Got(_, rest) => CountUntilBreak(rest, Min(n + 1, U32 - 1)) case Bad => Bad
  }

  /** The number of elements of an array, which is skipped. */
  function CountArray(s: Bytes): Read<nat> {
    match ArrayHead(s)
    case Bad => Bad
    case Got(Some(n), rest) =>
      if n >= U32 then Bad else (match SkipMany(rest, n) case Got(_, last) => Got(n, last) case Bad => Bad)
    case Got(None, rest) => CountUntilBreak(rest, 0)
  }

  datatype CertSlot = Absent | Pending | PresentWithoutIdentity | Other

  /** Classifies a certificate slot; all but `Other` consume it. */
  function ClassifyCertSlot(s: Bytes): Read<CertSlot> {
    var kind := Peek(s);
    if kind.None? then Bad
    else if kind == Some(NullKind) then Got(Absent, s[1..])
    else if kind == Some(ArrayKind) || kind == Some(ArrayIndef) then
      match ArrayHead(s)
      case Got(Some(n), rest) =>
        if n == 0 then Got(Pending, rest)
        else if n == 2 then (match Skip(s) case Got(_, last) => Got(PresentWithoutIdentity, last) case Bad => Bad)
        else Got(Other, s)
      case _ => Got(Other, s)
    else Got(Other, s)
  }

  /** A four-field certificate: the slot and hash of its EB. */
  function DecodeCertificate(s: Bytes): Read<(nat, Bytes)> {
    match ArrayHead(s)
    case Bad => Bad
    case Got(length, s1) =>
      if length != Some(4) then Bad
      else
        match UInt(s1, U64)
        case Bad => Bad
        case Got(slot, s2) =>
          match FixedBytes(s2, 32)
          case Bad => Bad
          case Got(hash, s3) =>
            match ByteString(s3)
            case Bad => Bad
            case Got(_, s4) => (match FixedBytes(s4, 48) case Got(_, s5) => Got((slot, hash), s5) case Bad => Bad)
  }

  /** The certificate slots after the transactions: Leios first, Peras second. */
  function InspectSlots(s: Bytes, slots: nat, info: BodyInfo): Option<BodyInfo> {
    if slots == 0 then Some(info)
    else
      match ClassifyCertSlot(s)
      case Bad => None
      case Got(Absent, rest) => InspectPeras(rest, slots, info)
      case Got(Other, _) =>
        (match DecodeCertificate(s)
         case Got(cert, rest) => InspectPeras(rest, slots, info.(certificate := Some(cert)))
         case Bad => None)
      case Got(_, rest) => InspectPeras(rest, slots, info.(certificatePending := true))
  }

  function InspectPeras(s: Bytes, slots: nat, info: BodyInfo): Option<BodyInfo> {
    if slots < 2 then Some(info)
    else
      match ClassifyCertSlot(s)
      case Bad => None
      case Got(Absent, _) => Some(info)
      case Got(Other, _) => None
      case Got(_, _) => Some(info.(perasPending := true))
  }

  function InspectLeiosBody(s: Bytes, fieldCount: nat): Option<BodyInfo> {
    match ArrayHead(s)
    case Got(Some(arity), s1) =>
      if TxFieldIndex(arity).None? then Some(BodyInfo(0, fieldCount, None, false, false))
      else InspectFrom(s1, TxFieldIndex(arity).value, arity, fieldCount)
    case _ => None
  }

  function InspectFrom(s: Bytes, txField: nat, arity: nat, fieldCount: nat): Option<BodyInfo>
    requires txField < arity
  {
    match SkipMany(s, txField)
    case Bad => None
    case Got(_, s1) =>
      match CountArray(s1)
      case Bad => None
      case Got(txCount, s2) =>
        InspectSlots(s2, arity - txField - 1, BodyInfo(txCount, fieldCount, None, false, false))
  }

  function InspectFlat(s: Bytes, length: nat): Option<BodyInfo>
    requires length >= 2
  {
    match CountArray(s)
    case Bad => None
    case Got(txCount, s1) =>
      var base := Min(length - 2, 3);
      match SkipMany(s1, base)
      case Bad => None
      case Got(_, s2) => InspectSlots(s2, length - 2 - base, BodyInfo(txCount, length, None, false, false))
  }

  /** None stands for a body that does not parse; the caller then reports defaults. */
  function Inspect(raw: Bytes): Option<BodyInfo> {
    match OpenBlock(raw)
    case None => None
    case Some((era, s)) =>
      match ArrayHead(s)
      case Got(Some(length), s1) =>
        if length >= U32 then None
        else if length < 2 then Some(BodyInfo(0, length, None, false, false))
        else InspectFields(s1, era, length)
      case _ => None
  }

  function InspectFields(s: Bytes, era: nat, length: nat): Option<BodyInfo>
    requires length >= 2
  {
    match Skip(s)
    case Bad => None
    case Got(_, rest) => if era >= LEIOS_ERA then InspectLeiosBody(rest, length) else InspectFlat(rest, length)
  }

  // ---------------------------------------------------------------------------
  // The header and the point
  // ---------------------------------------------------------------------------

  /** The bytes of the header, and the era of the block. */
  function ExtractHeader(raw: Bytes): Option<(Bytes, nat)> {
    match OpenBlock(raw)
    case None => None
    case Some((era, s)) =>
      match ArrayHead(s)
      case Bad => None
      case Got(_, rest) => (match Skip(rest) case Got(header, _) => Some((header, era)) case Bad => None)
  }

  /** The point of a block: that of its header, wrapped with the era of the block. */
  function BlockPoint(raw: Bytes, blake: Bytes -> Hash): Option<Point> {
    match ExtractHeader(raw)
    case Some((header, era)) =>
      if |header| < U64 && era < U32 then HeaderPoint(WrapHeader(header, era), blake) else None
    case None => None
  }
}
