/** The transaction conversions as decoder cursors and output buffers. */
module TransactionCodec {
  import opened Types
  import opened Cbor
  import opened CborTokens
  import opened CborDecoder
  import opened Transaction
  import opened TransactionForms

  /** One map, checked by its kind and skipped. */
  method SkipMap(d: Decoder) returns (r: Option<Bytes>)
    requires d.Valid()
    modifies d
    ensures d.Reads(old(ReadMap(d.Rest())), r)
  {
    var kind := d.Datatype();
    if !IsMapKind(kind) {
      return None;
    }
    r := d.SkipItem();
  }

  method SkipAuxiliary(d: Decoder) returns (r: Option<Bytes>)
    requires d.Valid()
    modifies d
    ensures d.Reads(old(ReadAuxiliary(d.Rest())), r)
  {
    var kind := d.Datatype();
    if !IsAuxiliaryKind(kind) {
      return None;
    }
    r := d.SkipItem();
  }

  /** Consumes the break of an indefinite array; then the input must be at its end. */
  method Finish(d: Decoder, count: Option<nat>) returns (ok: bool)
    requires d.Valid()
    modifies d
    ensures ok == Ends(count, old(d.Rest()))
  {
    if count.None? {
      var kind := d.Datatype();
      if kind != Some(BreakKind) {
        return false;
      }
      var skipped := d.SkipItem();
    }
    ok := d.position == |d.input|;
  }

  method OpenEnvelope(d: Decoder) returns (count: Option<Option<nat>>)
    requires d.Valid()
    modifies d
    ensures d.Valid()
    ensures var r := ArrayHead(old(d.Rest()));
            if r.Got? && ThreeOrFour(r.value) then count == Some(r.value) && d.Rest() == r.rest else count.None?
  {
    count := d.Array();
    if count.Some? && !ThreeOrFour(count.value) {
      return None;
    }
  }

  /** The three parts in a row. */
  function ReadParts(s: Bytes): Read<Parts> {
    match ReadMap(s)
    case Bad => Bad
    case Got(body, s1) =>
      match ReadMap(s1)
      case Bad => Bad
      case Got(witnesses, s2) =>
        match ReadAuxiliary(s2)
        case Got(auxiliary, s3) => Got(Parts(body, witnesses, auxiliary), s3)
        case Bad => Bad
  }

  lemma PartsAreWhatIsRead(s: Bytes)
    requires ReadParts(s).Got?
    ensures s == ReadParts(s).value.Joined() + ReadParts(s).rest
  {
    hide ReadMap, ReadAuxiliary, IsItem;
    MapSplits(s);
    var s1 := ReadMap(s).rest;
    MapSplits(s1);
    AuxiliarySplits(ReadMap(s1).rest);
  }

  method SkipParts(d: Decoder) returns (ok: bool)
    requires d.Valid()
    modifies d
    ensures d.Valid() && ok == ReadParts(old(d.Rest())).Got?
    ensures ok ==> d.Rest() == ReadParts(old(d.Rest())).rest
  {
    hide ReadMap, ReadAuxiliary;
    ghost var s := d.Rest();
    for field := 0 to 3
      invariant d.Valid()
      invariant field == 0 ==> d.Rest() == s
      invariant field >= 1 ==> ReadMap(s).Got?
      invariant field == 1 ==> d.Rest() == ReadMap(s).rest
      invariant field >= 2 ==> ReadMap(ReadMap(s).rest).Got?
      invariant field == 2 ==> d.Rest() == ReadMap(ReadMap(s).rest).rest
      invariant field == 3 ==> ReadParts(s).Got? && d.Rest() == ReadParts(s).rest
    {
      var r;
      if field < 2 {
        r := SkipMap(d);
      } else {
        r := SkipAuxiliary(d);
      }
      if r.None? {
        return false;
      }
    }
    return true;
  }

  /** The reading with the flag last, in the order in which the cursor goes. */
  lemma FlagLastByParts(tx: Bytes)
    ensures ReadFlagLast(tx) ==
            match ArrayHead(tx)
            case Bad => None
            case Got(count, s) =>
              if !ThreeOrFour(count) then None
              else
                match ReadParts(s)
                case Bad => None
                case Got(parts, rest) => ReadTrailingFlag(count, parts, rest)
  {
    hide ArrayHead, ReadMap, ReadAuxiliary, ReadTrailingFlag;
  }

  method ReadValidity(d: Decoder, count: Option<nat>, ghost parts: Parts) returns (valid: Option<bool>)
    requires d.Valid()
    modifies d
    ensures valid == match ReadTrailingFlag(count, parts, old(d.Rest())) case Some(e) => Some(e.valid) case None => None
  {
    hide Item;
    var kind := d.Datatype();
    var hasValidity := count == Some(4) || (count.None? && kind != Some(BreakKind));
    valid := Some(true);
    if hasValidity {
      valid := d.ReadBool();
      if valid.None? {
        return None;
      }
    }
    var ok := Finish(d, count);
    if !ok {
      return None;
    }
  }

  lemma PartsOfSlice(tx: Bytes, h: Bytes, s: Bytes, rest: Bytes, joined: Bytes)
    requires tx == h + s && s == joined + rest
    ensures |rest| <= |s| <= |tx| && tx[|tx| - |s|..|tx| - |rest|] == joined
  {
  }

  /** A one-byte head with four fields is the block form already. */
  lemma AlreadyInBlockForm(tx: Bytes, parts: Parts, valid: bool, rest: Bytes)
    requires ArrayHead(tx) == Got(Some(4), parts.Joined() + rest) && tx[0] == 0x84
    requires ReadTrailingFlag(Some(4), parts, rest) == Some(Envelope(parts, valid))
    ensures tx == BlockForm(Envelope(parts, valid))
  {
    TrailingFlagIff(Some(4), parts, rest, Envelope(parts, valid));
    assert tx == [tx[0]] + tx[1..];
  }

  method InlineLeiosTransaction(era: nat, tx: Bytes) returns (r: Option<(Bytes, bool)>)
    ensures r == InlineLeios(era, tx)
  {
    hide ReadParts, ArrayHead, ReadTrailingFlag, ReadFlagLast, BlockForm, IsHead;
    if era != 8 {
      return None;
    }
    FlagLastByParts(tx);
    var d := new Decoder(tx);
    var count := OpenEnvelope(d);
    if count.None? {
      return None;
    }
    ghost var s := d.Rest();
    var start := d.position;
    var ok := SkipParts(d);
    if !ok {
      return None;
    }
    var end := d.position;
    ghost var parts, rest := ReadParts(s).value, d.Rest();
    PartsAreWhatIsRead(s);
    ghost var h := HeadSplits(tx);
    PartsOfSlice(tx, h, s, rest, parts.Joined());
    var valid := ReadValidity(d, count.value, parts);
    if valid.None? {
      return None;
    }
    TrailingParts(count.value, parts, rest);
    if count.value == Some(4) && tx[0] == 0x84 {
      AlreadyInBlockForm(tx, parts, valid.value, rest);
      return Some((tx, valid.value));
    }
    var leios := [0x84];
    leios := leios + tx[start..end];
    leios := leios + [if valid.value then 0xf5 else 0xf4];
    BuiltBlockForm(leios, tx[start..end], Envelope(parts, valid.value));
    return Some((leios, valid.value));
  }

  lemma BuiltBlockForm(leios: Bytes, slice: Bytes, e: Envelope)
    requires slice == e.parts.Joined()
    requires leios == [0x84] + slice + [if e.valid then 0xf5 else 0xf4]
    ensures leios == BlockForm(e)
  {
  }

  lemma TrailingParts(count: Option<nat>, parts: Parts, s: Bytes)
    requires ReadTrailingFlag(count, parts, s).Some?
    ensures ReadTrailingFlag(count, parts, s).value.parts == parts
  {
  }

  method MempoolLeiosTransaction(tx: Bytes) returns (r: Option<Bytes>)
    ensures r == MempoolLeios(tx)
  {
    hide ReadMap, ArrayHead, ReadAuxiliary, Bool;
    var d := new Decoder(tx);
    var count := OpenEnvelope(d);
    if count.None? {
      return None;
    }
    var body := SkipMap(d);
    if body.None? {
      return None;
    }
    var witnesses := SkipMap(d);
    if witnesses.None? {
      return None;
    }
    var auxiliary := SkipThirdTail(d, count.value);
    if auxiliary.None? {
      return None;
    }
    var inline := [0x84];
    inline := inline + body.value + witnesses.value;
    inline := inline + auxiliary.value;
    inline := inline + [0xf5];
    assert inline == BlockForm(Envelope(Parts(body.value, witnesses.value, auxiliary.value), true));
    return Some(inline);
  }

  method SkipThirdTail(d: Decoder, count: Option<nat>) returns (auxiliary: Option<Bytes>)
    requires d.Valid()
    modifies d
    ensures auxiliary == ReadThirdTail(count, old(d.Rest()))
  {
    hide ReadAuxiliary, Bool;
    var kind := d.Datatype();
    var legacy := count == Some(4) || (count.None? && kind == Some(BoolKind));
    if legacy {
      var flag := d.ReadBool();
      if flag != Some(true) {
        return None;
      }
    }
    auxiliary := SkipAuxiliary(d);
    if auxiliary.None? {
      return None;
    }
    var ok := Finish(d, count);
    if !ok {
      return None;
    }
  }

  method LeiosInlineTransaction(tx: Bytes) returns (r: Option<Bytes>)
    ensures r == LeiosInline(tx)
  {
    hide MempoolLeios, InlineLeios;
    r := MempoolLeiosTransaction(tx);
    if r.Some? {
      return;
    }
    var inline := InlineLeiosTransaction(8, tx);
    if inline.None? || !inline.value.1 {
      return None;
    }
    return Some(inline.value.0);
  }

  method LeiosMempoolTransaction(tx: Bytes) returns (r: Option<Bytes>)
    ensures r == LeiosMempool(tx)
  {
    hide InlineLeios;
    var inline := InlineLeiosTransaction(8, tx);
    if inline.None? || !inline.value.1 {
      return None;
    }
    var bytes := inline.value.0;
    if |bytes| < 2 {
      return None;
    }
    var mempool := [0x83];
    mempool := mempool + bytes[1..|bytes| - 1];
    return Some(mempool);
  }

  method WireTxIdOf(tx: Bytes, blake: Bytes -> Hash) returns (id: Option<Hash>)
    ensures id == WireTxId(tx, blake)
  {
    hide ArrayHead, Skip;
    var d := new Decoder(tx);
    var count := d.Array();
    if count.None? {
      return None;
    }
    var body := d.SkipItem();
    if body.None? {
      return None;
    }
    return Some(blake(body.value));
  }
}
