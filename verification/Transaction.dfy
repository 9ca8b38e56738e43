/** The transaction envelope conversions between submission form and block form. */
module Transaction {
  import opened Types
  import opened Cbor
  import opened CborTokens

  /** The signed components, as their bytes. */
  datatype Parts = Parts(body: Bytes, witnesses: Bytes, auxiliary: Bytes) {
    function Joined(): Bytes {
      body + witnesses + auxiliary
    }
  }

  predicate IsMapKind(k: Option<Kind>) {
    k == Some(MapKind) || k == Some(MapIndef)
  }

  predicate IsAuxiliaryKind(k: Option<Kind>) {
    IsMapKind(k) || k == Some(ArrayKind) || k == Some(ArrayIndef) || k == Some(NullKind) || k == Some(TagKind)
  }

  function ReadMap(s: Bytes): (r: Read<Bytes>)
    ensures r.Got? ==> |r.rest| < |s|
  {
    if IsMapKind(Peek(s)) then Skip(s) else Bad
  }

  function ReadAuxiliary(s: Bytes): (r: Read<Bytes>)
    ensures r.Got? ==> |r.rest| < |s|
  {
    if IsAuxiliaryKind(Peek(s)) then Skip(s) else Bad
  }

  /** The break that ends an indefinite array, or nothing after a definite one; and then nothing. */
  predicate Ends(count: Option<nat>, s: Bytes) {
    if count.None? then s == [BREAK] else s == []
  }

  datatype Envelope = Envelope(parts: Parts, valid: bool)

  function Flag(valid: bool): Bytes {
    EncodeBool(valid)
  }

  /** The block form with a one-byte head. */
  function BlockForm(e: Envelope): Bytes {
    [0x84] + (e.parts.Joined() + Flag(e.valid))
  }

  /** The submission form with a one-byte head. */
  function SubmissionForm(p: Parts): Bytes {
    [0x83] + p.Joined()
  }

  // ---------------------------------------------------------------------------
  // The reading with the flag last
  // ---------------------------------------------------------------------------

  predicate ThreeOrFour(count: Option<nat>) {
    count == None || count == Some(3) || count == Some(4)
  }

  datatype Opening = Opening(count: Option<nat>, body: Bytes, witnesses: Bytes)

  /** What both readings start with: the array head, the body and the witnesses. */
  function ReadOpening(tx: Bytes): Read<Opening> {
    match ArrayHead(tx)
    case Bad => Bad
    case Got(count, s0) =>
      if !ThreeOrFour(count) then Bad
      else
        match ReadMap(s0)
        case Bad => Bad
        case Got(body, s1) =>
          match ReadMap(s1)
          case Bad => Bad
          case Got(witnesses, s2) => Got(Opening(count, body, witnesses), s2)
  }

  function ReadFlagLast(tx: Bytes): Option<Envelope> {
    match ReadOpening(tx)
    case Bad => None
    case Got(Opening(count, body, witnesses), s) =>
      match ReadAuxiliary(s)
      case Bad => None
      case Got(auxiliary, rest) => ReadTrailingFlag(count, Parts(body, witnesses, auxiliary), rest)
  }

  function ReadTrailingFlag(count: Option<nat>, parts: Parts, s: Bytes): Option<Envelope> {
    if count == Some(4) || (count.None? && Peek(s) != Some(BreakKind)) then
      match Bool(s)
      case Got(valid, rest) => if Ends(count, rest) then Some(Envelope(parts, valid)) else None
      case Bad => None
    else if Ends(count, s) then Some(Envelope(parts, true))
    else None
  }

  function InlineLeios(era: nat, tx: Bytes): Option<(Bytes, bool)> {
    if era != 8 then None
    else match ReadFlagLast(tx) case Some(e) => Some((BlockForm(e), e.valid)) case None => None
  }

  // ---------------------------------------------------------------------------
  // The reading with the flag third
  // ---------------------------------------------------------------------------

  function ReadFlagThird(tx: Bytes): Option<Parts> {
    match ReadOpening(tx)
    case Bad => None
    case Got(Opening(count, body, witnesses), s) =>
      match ReadThirdTail(count, s)
      case Some(auxiliary) => Some(Parts(body, witnesses, auxiliary))
      case None => None
  }

  function ReadThirdTail(count: Option<nat>, s: Bytes): Option<Bytes> {
    match ReadLegacyFlag(count, s)
    case Bad => None
    case Got(_, rest) =>
      match ReadAuxiliary(rest)
      case Got(auxiliary, last) => if Ends(count, last) then Some(auxiliary) else None
      case Bad => None
  }

  /** The flag of the four-field form, which must be true; nothing in the three-field form. */
  function ReadLegacyFlag(count: Option<nat>, s: Bytes): Read<()> {
    if count == Some(4) || (count.None? && Peek(s) == Some(BoolKind)) then
      match Bool(s) case Got(valid, rest) => if valid then Got((), rest) else Bad case Bad => Bad
    else Got((), s)
  }

  function MempoolLeios(tx: Bytes): Option<Bytes> {
    match ReadFlagThird(tx) case Some(p) => Some(BlockForm(Envelope(p, true))) case None => None
  }

  // ---------------------------------------------------------------------------
  // The compositions
  // ---------------------------------------------------------------------------

  function LeiosInline(tx: Bytes): Option<Bytes> {
    match MempoolLeios(tx)
    case Some(inline) => Some(inline)
    case None =>
      match InlineLeios(8, tx)
      case Some((inline, valid)) => if valid then Some(inline) else None
      case None => None
  }

  function LeiosMempool(tx: Bytes): Option<Bytes> {
    match InlineLeios(8, tx)
    case Some((inline, valid)) =>
      if valid && |inline| >= 2 then Some([0x83] + inline[1..|inline| - 1]) else None
    case None => None
  }

  /** The bytes that a transaction id is the digest of. */
  function WireBody(tx: Bytes): Option<Bytes> {
    match ArrayHead(tx)
    case Got(_, s) => (match Skip(s) case Got(body, _) => Some(body) case Bad => None)
    case Bad => None
  }

  function WireTxId(tx: Bytes, blake: Bytes -> Hash): Option<Hash> {
    match WireBody(tx) case Some(body) => Some(blake(body)) case None => None
  }

  // ---------------------------------------------------------------------------
  // What the readings accept
  // ---------------------------------------------------------------------------

  ghost predicate IsMap(x: Bytes) {
    IsItem(x) && IsMapKind(Peek(x))
  }

  ghost predicate IsAuxiliary(x: Bytes) {
    IsItem(x) && IsAuxiliaryKind(Peek(x))
  }

  ghost predicate WellFormed(p: Parts) {
    IsMap(p.body) && IsMap(p.witnesses) && IsAuxiliary(p.auxiliary)
  }

  /** An array head of any width, and nothing more. */
  ghost predicate IsHead(h: Bytes, count: Option<nat>) {
    ArrayHead(h) == Got(count, [])
  }

  /** The forms with the flag last: three fields (valid) or four, definite or indefinite. */
  ghost predicate FlagLastForm(tx: Bytes, h: Bytes, count: Option<nat>, e: Envelope) {
    && WellFormed(e.parts) && IsHead(h, count)
    && match count
       case Some(n) =>
         || (n == 3 && e.valid && tx == h + e.parts.Joined())
         || (n == 4 && tx == h + e.parts.Joined() + Flag(e.valid))
       case None =>
         || (e.valid && tx == h + e.parts.Joined() + [BREAK])
         || tx == h + e.parts.Joined() + Flag(e.valid) + [BREAK]
  }

  /** The forms with a true flag third, or none. */
  ghost predicate FlagThirdForm(tx: Bytes, h: Bytes, count: Option<nat>, p: Parts) {
    && WellFormed(p) && IsHead(h, count)
    && match count
       case Some(n) =>
         || (n == 3 && tx == h + p.Joined())
         || (n == 4 && tx == h + p.body + p.witnesses + Flag(true) + p.auxiliary)
       case None =>
         || tx == h + p.Joined() + [BREAK]
         || tx == h + p.body + p.witnesses + Flag(true) + p.auxiliary + [BREAK]
  }

  lemma HeadReads(h: Bytes, count: Option<nat>, t: Bytes)
    requires IsHead(h, count)
    ensures ArrayHead(h + t) == Got(count, t)
  {
    HeadIsLocal(h, t);
    assert Taken(h, []) == h;
  }

  lemma HeadSplits(s: Bytes) returns (h: Bytes)
    requires ArrayHead(s).Got?
    ensures IsHead(h, ArrayHead(s).value) && s == h + ArrayHead(s).rest
  {
    h := Taken(s, ArrayHead(s).rest);
    HeadIsLocal(s, []);
    assert h + [] == h;
  }

  lemma MapReads(x: Bytes, t: Bytes)
    requires IsMap(x)
    ensures ReadMap(x + t) == Got(x, t)
  {
    SkipThen(x, t);
    assert (x + t)[0] == x[0];
  }

  lemma MapSplits(s: Bytes)
    requires ReadMap(s).Got?
    ensures IsMap(ReadMap(s).value) && s == ReadMap(s).value + ReadMap(s).rest
  {
    hide Item;
    TakenIsItem(s);
  }

  lemma AuxiliaryReads(x: Bytes, t: Bytes)
    requires IsAuxiliary(x)
    ensures ReadAuxiliary(x + t) == Got(x, t) && Peek(x + t) == Peek(x)
  {
    SkipThen(x, t);
    assert (x + t)[0] == x[0];
  }

  lemma AuxiliarySplits(s: Bytes)
    requires ReadAuxiliary(s).Got?
    ensures IsAuxiliary(ReadAuxiliary(s).value) && s == ReadAuxiliary(s).value + ReadAuxiliary(s).rest
  {
    hide Item;
    TakenIsItem(s);
  }

  lemma OpeningReads(h: Bytes, count: Option<nat>, body: Bytes, witnesses: Bytes, t: Bytes)
    requires IsHead(h, count) && ThreeOrFour(count) && IsMap(body) && IsMap(witnesses)
    ensures ReadOpening(h + (body + (witnesses + t))) == Got(Opening(count, body, witnesses), t)
  {
    hide ArrayHead, ReadMap;
    HeadReads(h, count, body + (witnesses + t));
    MapReads(body, witnesses + t);
    MapReads(witnesses, t);
  }

  lemma OpeningSplits(tx: Bytes) returns (h: Bytes)
    requires ReadOpening(tx).Got?
    ensures var Got(o, s) := ReadOpening(tx);
            && IsHead(h, o.count) && ThreeOrFour(o.count) && IsMap(o.body) && IsMap(o.witnesses)
            && tx == h + (o.body + (o.witnesses + s))
  {
    hide ArrayHead, ReadMap;
    h := HeadSplits(tx);
    var s0 := ArrayHead(tx).rest;
    MapSplits(s0);
    MapSplits(ReadMap(s0).rest);
  }
}
