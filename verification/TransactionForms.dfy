/** What the transaction conversions accept, keep and undo. */
module TransactionForms {
  import opened Types
  import opened Cbor
  import opened CborTokens
  import opened Transaction

  // ---------------------------------------------------------------------------
  // The two readings, exactly
  // ---------------------------------------------------------------------------

  /** What follows the parts when the flag comes last. */
  ghost predicate FlagLastTail(count: Option<nat>, valid: bool, s: Bytes) {
    || (count == Some(3) && valid && s == [])
    || (count == Some(4) && s == Flag(valid))
    || (count == None && valid && s == [BREAK])
    || (count == None && s == Flag(valid) + [BREAK])
  }

  lemma TrailingFlagIff(count: Option<nat>, parts: Parts, s: Bytes, e: Envelope)
    requires ThreeOrFour(count)
    ensures ReadTrailingFlag(count, parts, s) == Some(e) <==> e.parts == parts && FlagLastTail(count, e.valid, s)
  {
    if Bool(s).Got? {
      assert s == [s[0]] + s[1..];
    }
    assert Flag(e.valid)[1..] == [] && (Flag(e.valid) + [BREAK])[1..] == [BREAK];
  }

  lemma FlagLastJoins(tx: Bytes, h: Bytes, count: Option<nat>, e: Envelope, tail: Bytes)
    requires tx == h + (e.parts.body + (e.parts.witnesses + (e.parts.auxiliary + tail)))
    requires WellFormed(e.parts) && IsHead(h, count)
    ensures tx == h + e.parts.Joined() + tail
    ensures FlagLastTail(count, e.valid, tail) ==> FlagLastForm(tx, h, count, e)
  {
    assert tx == h + e.parts.Joined() + tail;
    assert h + e.parts.Joined() + [] == h + e.parts.Joined();
    assert h + e.parts.Joined() + (Flag(e.valid) + [BREAK]) == h + e.parts.Joined() + Flag(e.valid) + [BREAK];
  }

  /** The reading with the flag last accepts exactly its forms. */
  lemma FlagLastReads(tx: Bytes, h: Bytes, count: Option<nat>, e: Envelope)
    requires FlagLastForm(tx, h, count, e)
    ensures ReadFlagLast(tx) == Some(e)
  {
    hide ReadOpening, ReadAuxiliary, ReadTrailingFlag, IsHead, IsMap, IsAuxiliary;
    var p := e.parts;
    var tail := FlagLastTailOf(tx, h, count, e);
    OpeningReads(h, count, p.body, p.witnesses, p.auxiliary + tail);
    AuxiliaryReads(p.auxiliary, tail);
    TrailingFlagIff(count, p, tail, e);
  }

  lemma FlagLastTailOf(tx: Bytes, h: Bytes, count: Option<nat>, e: Envelope) returns (tail: Bytes)
    requires FlagLastForm(tx, h, count, e)
    ensures ThreeOrFour(count) && FlagLastTail(count, e.valid, tail)
    ensures tx == h + (e.parts.body + (e.parts.witnesses + (e.parts.auxiliary + tail)))
  {
    hide IsHead, WellFormed;
    var joined := h + e.parts.Joined();
    tail := tx[|joined|..];
    assert tx == joined + tail;
    assert tx == h + (e.parts.body + (e.parts.witnesses + (e.parts.auxiliary + tail)));
    if count.None? {
      assert tx == joined + [BREAK] || tx == joined + (Flag(e.valid) + [BREAK]);
    }
  }

  lemma FlagLastSplits(tx: Bytes) returns (h: Bytes, count: Option<nat>)
    requires ReadFlagLast(tx).Some?
    ensures FlagLastForm(tx, h, count, ReadFlagLast(tx).value)
  {
    hide ReadOpening, ReadAuxiliary, ReadTrailingFlag, IsHead, IsMap, IsAuxiliary;
    h := OpeningSplits(tx);
    var Got(o, s) := ReadOpening(tx);
    count := o.count;
    AuxiliarySplits(s);
    var e, tail := ReadFlagLast(tx).value, ReadAuxiliary(s).rest;
    TrailingFlagIff(count, Parts(o.body, o.witnesses, ReadAuxiliary(s).value), tail, e);
    FlagLastJoins(tx, h, count, e, tail);
  }

  /** What follows the witnesses when the flag, if any, comes third. */
  ghost predicate FlagThirdTail(count: Option<nat>, auxiliary: Bytes, s: Bytes) {
    || (count == Some(3) && s == auxiliary)
    || (count == Some(4) && s == Flag(true) + auxiliary)
    || (count == None && s == auxiliary + [BREAK])
    || (count == None && s == Flag(true) + (auxiliary + [BREAK]))
  }

  lemma ThirdTailReads(count: Option<nat>, auxiliary: Bytes, s: Bytes)
    requires IsAuxiliary(auxiliary) && FlagThirdTail(count, auxiliary, s)
    ensures ReadThirdTail(count, s) == Some(auxiliary)
  {
    hide ReadAuxiliary, IsItem;
    var end := if count.None? then [BREAK] else [];
    assert auxiliary + [] == auxiliary;
    AuxiliaryReads(auxiliary, end);
    BoolReads(true, auxiliary + end);
  }

  lemma ThirdTailSplits(count: Option<nat>, s: Bytes)
    requires ThreeOrFour(count) && ReadThirdTail(count, s).Some?
    ensures IsAuxiliary(ReadThirdTail(count, s).value) && FlagThirdTail(count, ReadThirdTail(count, s).value, s)
  {
    hide ReadAuxiliary, IsAuxiliary;
    var rest := ReadLegacyFlag(count, s).rest;
    AuxiliarySplits(rest);
    var auxiliary := ReadAuxiliary(rest).value;
    assert auxiliary + [] == auxiliary;
    if rest != s {
      assert s == [s[0]] + s[1..];
    }
  }

  lemma FlagThirdJoins(h: Bytes, count: Option<nat>, p: Parts, tail: Bytes)
    requires WellFormed(p) && IsHead(h, count) && FlagThirdTail(count, p.auxiliary, tail)
    ensures FlagThirdForm(h + (p.body + (p.witnesses + tail)), h, count, p)
  {
    hide WellFormed, IsHead;
    var tx, opening := h + (p.body + (p.witnesses + tail)), h + p.body + p.witnesses;
    assert tx == opening + tail;
    assert opening + p.auxiliary == h + p.Joined();
    assert opening + (p.auxiliary + [BREAK]) == h + p.Joined() + [BREAK];
    assert opening + (Flag(true) + p.auxiliary) == opening + Flag(true) + p.auxiliary;
    assert opening + (Flag(true) + (p.auxiliary + [BREAK])) == opening + Flag(true) + p.auxiliary + [BREAK];
  }

  lemma FlagThirdTailOf(tx: Bytes, h: Bytes, count: Option<nat>, p: Parts) returns (tail: Bytes)
    requires FlagThirdForm(tx, h, count, p)
    ensures ThreeOrFour(count) && FlagThirdTail(count, p.auxiliary, tail)
    ensures tx == h + (p.body + (p.witnesses + tail))
  {
    hide WellFormed, IsHead, Flag;
    if tx == h + p.Joined() && count == Some(3) {
      tail := p.auxiliary;
    } else if tx == h + p.Joined() + [BREAK] && count == None {
      tail := p.auxiliary + [BREAK];
    } else if count == Some(4) {
      tail := Flag(true) + p.auxiliary;
    } else {
      tail := Flag(true) + (p.auxiliary + [BREAK]);
    }
    assert h + (p.body + (p.witnesses + tail)) == h + p.body + p.witnesses + tail;
  }

  /** The reading with the flag third accepts exactly its forms. */
  lemma FlagThirdReads(tx: Bytes, h: Bytes, count: Option<nat>, p: Parts)
    requires FlagThirdForm(tx, h, count, p)
    ensures ReadFlagThird(tx) == Some(p)
  {
    hide ReadOpening, ReadThirdTail, IsHead, IsMap, IsAuxiliary;
    var tail := FlagThirdTailOf(tx, h, count, p);
    OpeningReads(h, count, p.body, p.witnesses, tail);
    ThirdTailReads(count, p.auxiliary, tail);
  }

  lemma FlagThirdSplits(tx: Bytes) returns (h: Bytes, count: Option<nat>)
    requires ReadFlagThird(tx).Some?
    ensures FlagThirdForm(tx, h, count, ReadFlagThird(tx).value)
  {
    hide ReadOpening, ReadThirdTail, IsHead, IsMap, IsAuxiliary;
    h := OpeningSplits(tx);
    var Got(o, s) := ReadOpening(tx);
    count := o.count;
    ThirdTailSplits(count, s);
    FlagThirdJoins(h, count, ReadFlagThird(tx).value, s);
  }

  // ---------------------------------------------------------------------------
  // The four-field readings exclude each other
  // ---------------------------------------------------------------------------

  function EndOf(count: Option<nat>): Bytes {
    if count.None? then [BREAK] else []
  }

  ghost predicate FourFieldsFlagLast(tx: Bytes, h: Bytes, count: Option<nat>, e: Envelope) {
    && WellFormed(e.parts) && IsHead(h, count) && (count == Some(4) || count == None)
    && tx == h + (e.parts.body + (e.parts.witnesses + (e.parts.auxiliary + (Flag(e.valid) + EndOf(count)))))
  }

  ghost predicate FourFieldsFlagThird(tx: Bytes, h: Bytes, count: Option<nat>, p: Parts) {
    && WellFormed(p) && IsHead(h, count) && (count == Some(4) || count == None)
    && tx == h + (p.body + (p.witnesses + (Flag(true) + (p.auxiliary + EndOf(count)))))
  }

  lemma FourFieldsOpen(tx: Bytes, h: Bytes, count: Option<nat>, e: Envelope)
    requires FourFieldsFlagLast(tx, h, count, e)
    ensures ReadOpening(tx) == Got(Opening(count, e.parts.body, e.parts.witnesses),
                                   e.parts.auxiliary + (Flag(e.valid) + EndOf(count)))
  {
    hide ReadOpening, IsHead, IsMap, IsItem, Flag;
    OpeningReads(h, count, e.parts.body, e.parts.witnesses, e.parts.auxiliary + (Flag(e.valid) + EndOf(count)));
  }

  /** Four fields with the flag last are read that way, and refused by the reading with the flag third. */
  lemma FlagLastExcludesThird(tx: Bytes, h: Bytes, count: Option<nat>, e: Envelope)
    requires FourFieldsFlagLast(tx, h, count, e)
    ensures ReadFlagLast(tx) == Some(e) && ReadFlagThird(tx) == None
  {
    hide ReadOpening, ReadAuxiliary, ReadTrailingFlag, IsHead, IsMap, IsItem, Flag;
    var tail := Flag(e.valid) + EndOf(count);
    FourFieldsOpen(tx, h, count, e);
    AuxiliaryReads(e.parts.auxiliary, tail);
    FlagTail(e.valid, count);
    TrailingFlagIff(count, e.parts, tail, e);
  }

  lemma FlagTail(valid: bool, count: Option<nat>)
    requires count == Some(4) || count == None
    ensures FlagLastTail(count, valid, Flag(valid) + EndOf(count))
    ensures !Ends(count, Flag(valid) + EndOf(count))
  {
    assert Flag(valid) + [] == Flag(valid);
  }

  /** Four fields with the flag third are read that way, and refused by the reading with the flag last;
      so no byte string has both four-field readings. */
  lemma FlagThirdExcludesLast(tx: Bytes, h: Bytes, count: Option<nat>, p: Parts)
    requires FourFieldsFlagThird(tx, h, count, p)
    ensures ReadFlagThird(tx) == Some(p) && ReadFlagLast(tx) == None
  {
    hide ReadOpening, ReadThirdTail, IsHead, IsMap, IsItem, Flag;
    var rest := p.auxiliary + EndOf(count);
    OpeningReads(h, count, p.body, p.witnesses, Flag(true) + rest);
    FlagIsBool(rest);
    assert Flag(true) + (p.auxiliary + []) == Flag(true) + p.auxiliary by { assert p.auxiliary + [] == p.auxiliary; }
    ThirdTailReads(count, p.auxiliary, Flag(true) + rest);
  }

  lemma FlagIsBool(t: Bytes)
    ensures Peek(Flag(true) + t) == Some(BoolKind)
  {
  }

  // ---------------------------------------------------------------------------
  // Conversions
  // ---------------------------------------------------------------------------

  lemma OneByteHeads()
    ensures IsHead([0x83], Some(3)) && IsHead([0x84], Some(4))
  {
  }

  lemma BlockFormReads(e: Envelope)
    requires WellFormed(e.parts)
    ensures ReadFlagLast(BlockForm(e)) == Some(e)
  {
    hide ReadFlagLast, WellFormed, IsHead;
    OneByteHeads();
    assert BlockForm(e) == [0x84] + e.parts.Joined() + Flag(e.valid);
    FlagLastReads(BlockForm(e), [0x84], Some(4), e);
  }

  lemma SubmissionFormReads(p: Parts)
    requires WellFormed(p)
    ensures ReadFlagThird(SubmissionForm(p)) == Some(p)
  {
    hide ReadFlagThird, WellFormed, IsHead;
    OneByteHeads();
    FlagThirdReads(SubmissionForm(p), [0x83], Some(3), p);
  }

  lemma BlockFormIsNotFlagThird(e: Envelope)
    requires WellFormed(e.parts)
    ensures ReadFlagThird(BlockForm(e)) == None
  {
    hide ReadFlagLast, ReadFlagThird, WellFormed, IsHead;
    var p := e.parts;
    OneByteHeads();
    assert Flag(e.valid) + [] == Flag(e.valid);
    assert BlockForm(e) == [0x84] + (p.body + (p.witnesses + (p.auxiliary + Flag(e.valid))));
    FlagLastExcludesThird(BlockForm(e), [0x84], Some(4), e);
  }

  /** What a reading yields is well formed. */
  lemma ReadPartsAreWellFormed(tx: Bytes)
    ensures ReadFlagLast(tx).Some? ==> WellFormed(ReadFlagLast(tx).value.parts)
    ensures ReadFlagThird(tx).Some? ==> WellFormed(ReadFlagThird(tx).value)
  {
    hide ReadFlagLast, ReadFlagThird;
    if ReadFlagLast(tx).Some? {
      var h, count := FlagLastSplits(tx);
    }
    if ReadFlagThird(tx).Some? {
      var h, count := FlagThirdSplits(tx);
    }
  }

  /** Converting for a ranking block twice is converting once. */
  lemma LeiosInlineIsIdempotent(tx: Bytes)
    requires LeiosInline(tx).Some?
    ensures LeiosInline(LeiosInline(tx).value) == LeiosInline(tx)
  {
    hide ReadFlagLast, ReadFlagThird, WellFormed, BlockForm;
    ReadPartsAreWellFormed(tx);
    var e := if ReadFlagThird(tx).Some? then Envelope(ReadFlagThird(tx).value, true) else ReadFlagLast(tx).value;
    assert LeiosInline(tx) == Some(BlockForm(e));
    BlockFormReads(e);
    BlockFormIsNotFlagThird(e);
  }

  /** Converting a submission for selection and back gives its one-byte-head form, and so does the other
      way round for a valid block transaction; on forms that already have that head the two undo
      each other. */
  lemma MempoolConversionsInvert(tx: Bytes)
    ensures ReadFlagThird(tx).Some? ==>
              && MempoolLeios(tx).Some?
              && LeiosMempool(MempoolLeios(tx).value) == Some(SubmissionForm(ReadFlagThird(tx).value))
    ensures ReadFlagLast(tx).Some? && ReadFlagLast(tx).value.valid ==>
              && LeiosMempool(tx).Some?
              && MempoolLeios(LeiosMempool(tx).value) == Some(BlockForm(ReadFlagLast(tx).value))
  {
    hide ReadFlagLast, ReadFlagThird, WellFormed;
    ReadPartsAreWellFormed(tx);
    if ReadFlagThird(tx).Some? {
      CanonicalFormsConvert(ReadFlagThird(tx).value);
    }
    if ReadFlagLast(tx).Some? && ReadFlagLast(tx).value.valid {
      CanonicalFormsConvert(ReadFlagLast(tx).value.parts);
      var block := BlockForm(ReadFlagLast(tx).value);
      assert block[1..|block| - 1] == ReadFlagLast(tx).value.parts.Joined();
    }
  }

  lemma CanonicalFormsConvert(p: Parts)
    requires WellFormed(p)
    ensures MempoolLeios(SubmissionForm(p)) == Some(BlockForm(Envelope(p, true)))
    ensures LeiosMempool(BlockForm(Envelope(p, true))) == Some(SubmissionForm(p))
  {
    hide ReadFlagLast, ReadFlagThird, WellFormed;
    SubmissionFormReads(p);
    BlockFormReads(Envelope(p, true));
    var block := BlockForm(Envelope(p, true));
    assert block[1..|block| - 1] == p.Joined();
  }

  lemma FailedHasFlag(tx: Bytes) returns (h: Bytes, count: Option<nat>)
    requires ReadFlagLast(tx).Some? && !ReadFlagLast(tx).value.valid
    ensures FourFieldsFlagLast(tx, h, count, ReadFlagLast(tx).value)
  {
    hide ReadFlagLast, WellFormed, IsHead;
    h, count := FlagLastSplits(tx);
    var e := ReadFlagLast(tx).value;
    var tail := FlagLastTailOf(tx, h, count, e);
    assert Flag(false) + [] == Flag(false);
  }

  /** A transaction with a failed script, in whatever form, is never converted for submission or
      selection. */
  lemma FailedScriptsAreRefused(tx: Bytes)
    requires ReadFlagLast(tx).Some? && !ReadFlagLast(tx).value.valid
    ensures LeiosMempool(tx) == None && LeiosInline(tx) == None
  {
    hide ReadFlagLast, ReadFlagThird, FourFieldsFlagLast, BlockForm;
    var h, count := FailedHasFlag(tx);
    FlagLastExcludesThird(tx, h, count, ReadFlagLast(tx).value);
  }

  // ---------------------------------------------------------------------------
  // Conversions keep the signed bytes, and so the transaction id
  // ---------------------------------------------------------------------------

  lemma WireBodyReads(h: Bytes, count: Option<nat>, body: Bytes, t: Bytes)
    requires IsHead(h, count) && IsItem(body)
    ensures WireBody(h + (body + t)) == Some(body)
  {
    hide ArrayHead, Skip, IsItem;
    HeadReads(h, count, body + t);
    SkipThen(body, t);
  }

  lemma WireBodyOfReading(tx: Bytes)
    requires ReadOpening(tx).Got?
    ensures WireBody(tx) == Some(ReadOpening(tx).value.body)
  {
    hide ReadOpening, WireBody;
    var h := OpeningSplits(tx);
    var Got(o, s) := ReadOpening(tx);
    WireBodyReads(h, o.count, o.body, o.witnesses + s);
  }

  lemma WireBodyOfBlockForm(e: Envelope)
    requires WellFormed(e.parts)
    ensures WireBody(BlockForm(e)) == Some(e.parts.body)
  {
    hide WireBody, IsItem, IsHead;
    OneByteHeads();
    var t := e.parts.witnesses + e.parts.auxiliary + Flag(e.valid);
    assert BlockForm(e) == [0x84] + (e.parts.body + t);
    WireBodyReads([0x84], Some(4), e.parts.body, t);
  }

  lemma WireBodyOfSubmissionForm(p: Parts)
    requires WellFormed(p)
    ensures WireBody(SubmissionForm(p)) == Some(p.body)
  {
    hide WireBody, IsItem, IsHead;
    OneByteHeads();
    var t := p.witnesses + p.auxiliary;
    assert SubmissionForm(p) == [0x83] + (p.body + t);
    WireBodyReads([0x83], Some(3), p.body, t);
  }

  /** Every conversion yields a transaction with the same parts. */
  lemma ConversionsKeepParts(tx: Bytes)
    ensures InlineLeios(8, tx).Some? ==>
              ReadFlagLast(InlineLeios(8, tx).value.0) == ReadFlagLast(tx)
    ensures MempoolLeios(tx).Some? ==>
              ReadFlagLast(MempoolLeios(tx).value) == Some(Envelope(ReadFlagThird(tx).value, true))
    ensures LeiosMempool(tx).Some? ==>
              ReadFlagThird(LeiosMempool(tx).value) == Some(ReadFlagLast(tx).value.parts)
    ensures LeiosInline(tx).Some? ==>
              ReadFlagLast(LeiosInline(tx).value) ==
              if ReadFlagThird(tx).Some? then Some(Envelope(ReadFlagThird(tx).value, true)) else ReadFlagLast(tx)
  {
    hide ReadFlagLast, ReadFlagThird, WellFormed;
    ReadPartsAreWellFormed(tx);
    if ReadFlagLast(tx).Some? {
      var e := ReadFlagLast(tx).value;
      BlockFormReads(e);
      SubmissionFormReads(e.parts);
      assert BlockForm(e)[1..|BlockForm(e)| - 1] == e.parts.Joined();
    }
    if ReadFlagThird(tx).Some? {
      BlockFormReads(Envelope(ReadFlagThird(tx).value, true));
    }
  }

  /** ... and the same transaction id. */
  lemma ConversionsKeepTxId(tx: Bytes, blake: Bytes -> Hash)
    ensures InlineLeios(8, tx).Some? ==> WireTxId(InlineLeios(8, tx).value.0, blake) == WireTxId(tx, blake)
    ensures MempoolLeios(tx).Some? ==> WireTxId(MempoolLeios(tx).value, blake) == WireTxId(tx, blake)
    ensures LeiosInline(tx).Some? ==> WireTxId(LeiosInline(tx).value, blake) == WireTxId(tx, blake)
    ensures LeiosMempool(tx).Some? ==> WireTxId(LeiosMempool(tx).value, blake) == WireTxId(tx, blake)
  {
    hide WellFormed, ReadOpening, WireBody, ReadAuxiliary, ReadTrailingFlag, ReadThirdTail;
    ReadPartsAreWellFormed(tx);
    if ReadFlagLast(tx).Some? {
      TrailingFlagKeepsParts(tx);
      WireBodyOfReading(tx);
      WireBodyOfBlockForm(ReadFlagLast(tx).value);
      WireBodyOfSubmissionForm(ReadFlagLast(tx).value.parts);
      var block := BlockForm(ReadFlagLast(tx).value);
      assert block[1..|block| - 1] == ReadFlagLast(tx).value.parts.Joined();
    }
    if ReadFlagThird(tx).Some? {
      WireBodyOfReading(tx);
      WireBodyOfBlockForm(Envelope(ReadFlagThird(tx).value, true));
    }
  }

  lemma TrailingFlagKeepsParts(tx: Bytes)
    requires ReadFlagLast(tx).Some?
    ensures ReadOpening(tx).Got? && ReadFlagLast(tx).value.parts.body == ReadOpening(tx).value.body
  {
    hide ReadOpening, ReadAuxiliary;
  }
}
