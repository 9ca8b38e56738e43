/** Where the strict validator accepts, the lenient parser agrees. */
module HeaderAgreement {
  import opened Types
  import opened Cbor
  import opened CborTokens
  import opened Header

  // ---------------------------------------------------------------------------
  // Strictly read records are items
  // ---------------------------------------------------------------------------

  lemma FixedIsItem(s: Bytes, n: nat)
    requires FixedBytes(s, n).Got?
    ensures Item(s) == Some(FixedBytes(s, n).rest)
  {
    ByteStringIsItem(s);
  }

  lemma ItemIsNoBreak(s: Bytes)
    requires Item(s).Some?
    ensures s != [] && s[0] != BREAK
  {
  }

  lemma {:induction false} ItemsThenBreak(s: Bytes, n: nat, last: Bytes)
    requires Items(s, n) == Some(last) && last != [] && last[0] == BREAK
    ensures UntilBreak(s, 1) == Some(last[1..])
    decreases n
  {
    if n > 0 {
      var first := Item(s).value;
      ItemIsNoBreak(s);
      ItemsThenBreak(first, n - 1, last);
      assert Items(s, 1) == Some(first);
    }
  }

  /** A record read field by field is one item. */
  lemma RecordIsItem(s: Bytes, count: nat, last: Bytes)
    requires RecordHead(s, count).Got? && Items(RecordHead(s, count).rest, count) == Some(last)
    requires FinishRecord(last, RecordHead(s, count).value).Got?
    ensures Item(s) == Some(FinishRecord(last, RecordHead(s, count).value).rest)
  {
    hide Items, UntilBreak;
    var Got(length, s1) := RecordHead(s, count);
    if length.None? {
      ItemsThenBreak(s1, count, last);
    }
  }

  lemma TwoItems(s: Bytes, s1: Bytes, s2: Bytes)
    requires Item(s) == Some(s1) && Item(s1) == Some(s2)
    ensures Items(s, 2) == Some(s2)
  {
    assert Items(s1, 1) == Some(s2);
  }

  lemma FourItems(s: Bytes, s1: Bytes, s2: Bytes, s3: Bytes, s4: Bytes)
    requires Item(s) == Some(s1) && Item(s1) == Some(s2) && Item(s2) == Some(s3) && Item(s3) == Some(s4)
    ensures Items(s, 4) == Some(s4)
  {
    TwoItems(s2, s3, s4);
    assert Items(s1, 3) == Some(s4);
  }

  lemma SkipsTwo(s: Bytes, s1: Bytes, s2: Bytes)
    requires Item(s) == Some(s1) && Item(s1) == Some(s2)
    ensures SkipTwo(s) == Got((), s2)
  {
    hide Item;
    SkipOfItem(s);
    SkipOfItem(s1);
  }

  lemma OperationalCertIsItem(s: Bytes)
    requires ReadOperationalCert(s).Got?
    ensures Item(s) == Some(ReadOperationalCert(s).rest)
  {
    hide FixedBytes, UInt, Item, Items, RecordHead, FinishRecord;
    var s1 := RecordHead(s, 4).rest;
    var s2 := FixedBytes(s1, 32).rest;
    var s3 := UInt(s2, U64).rest;
    var s4 := UInt(s3, U64).rest;
    var s5 := FixedBytes(s4, 64).rest;
    FixedIsItem(s1, 32);
    UIntIsItem(s2, U64);
    UIntIsItem(s3, U64);
    FixedIsItem(s4, 64);
    FourItems(s1, s2, s3, s4, s5);
    RecordIsItem(s, 4, s5);
  }

  lemma VersionIsItem(s: Bytes)
    requires ReadVersion(s).Got?
    ensures Item(s) == Some(ReadVersion(s).rest)
  {
    hide UInt, Item, Items, RecordHead, FinishRecord;
    var s1 := RecordHead(s, 2).rest;
    var s2 := UInt(s1, U32).rest;
    var s3 := UInt(s2, U32).rest;
    UIntIsItem(s1, U32);
    UIntIsItem(s2, U32);
    TwoItems(s1, s2, s3);
    RecordIsItem(s, 2, s3);
  }

  lemma {:induction false} ItemsChain(s: Bytes, n: nat, mid: Bytes, m: nat, last: Bytes)
    requires Items(s, n) == Some(mid) && Items(mid, m) == Some(last)
    ensures Items(s, n + m) == Some(last)
    decreases n
  {
    if n > 0 {
      ItemsChain(Item(s).value, n - 1, mid, m, last);
    }
  }

  lemma NullIsItemAt(s: Bytes)
    requires Peek(s) == Some(NullKind)
    ensures Item(s) == Some(s[1..])
  {
  }

  lemma BoolIsItem(s: Bytes)
    requires Bool(s).Got?
    ensures Item(s) == Some(Bool(s).rest)
  {
  }

  lemma IdentityIsFourItems(s: Bytes)
    requires ReadIdentity(s).Got?
    ensures Items(s, 4) == Some(ReadIdentity(s).rest)
  {
    hide UInt, FixedBytes, Item, Items;
    var s1 := UInt(s, U64).rest;
    var s2 := UInt(s1, U64).rest;
    var s3 := OptionalHash(s2).rest;
    var s4 := FixedBytes(s3, 32).rest;
    UIntIsItem(s, U64);
    UIntIsItem(s1, U64);
    if Peek(s2) == Some(NullKind) {
      NullIsItemAt(s2);
    } else {
      FixedIsItem(s2, 32);
    }
    FixedIsItem(s3, 32);
    FourItems(s, s1, s2, s3, s4);
  }

  lemma BodyReferenceIsTwoItems(s: Bytes)
    requires ReadBodyReference(s).Got?
    ensures Items(s, 2) == Some(ReadBodyReference(s).rest)
  {
    hide UInt, FixedBytes, Item, Items;
    var s1 := UInt(s, U32).rest;
    UIntIsItem(s, U32);
    FixedIsItem(s1, 32);
    TwoItems(s, s1, FixedBytes(s1, 32).rest);
  }

  lemma VrfIsTwoItems(s: Bytes)
    requires ReadVrf(s).Got?
    ensures Items(s, 2) == Some(ReadVrf(s).rest) && SkipTwo(s) == Got((), ReadVrf(s).rest)
  {
    hide FixedBytes, Item, Items, RecordHead, FinishRecord, SkipTwo;
    var s1 := FixedBytes(s, 32).rest;
    var s2 := RecordHead(s1, 2).rest;
    var s3 := FixedBytes(s2, 64).rest;
    var s4 := FixedBytes(s3, 80).rest;
    FixedIsItem(s, 32);
    FixedIsItem(s2, 64);
    FixedIsItem(s3, 80);
    TwoItems(s2, s3, s4);
    RecordIsItem(s1, 2, s4);
    TwoItems(s, s1, ReadVrf(s).rest);
    SkipsTwo(s, s1, ReadVrf(s).rest);
  }

  lemma AnnouncementIsItem(s: Bytes)
    requires ReadAnnouncement(s).Got?
    ensures Item(s) == Some(ReadAnnouncement(s).rest)
  {
    hide FixedBytes, UInt, Item, Items, RecordHead, FinishRecord;
    if Peek(s) == Some(NullKind) {
      NullIsItemAt(s);
    } else {
      var s1 := RecordHead(s, 2).rest;
      var s2 := FixedBytes(s1, 32).rest;
      var s3 := UInt(s2, U32).rest;
      FixedIsItem(s1, 32);
      UIntIsItem(s2, U32);
      TwoItems(s1, s2, s3);
      RecordIsItem(s, 2, s3);
    }
  }

  lemma LeiosFieldsAreTwoItems(s: Bytes)
    requires ReadLeiosFields(s).Got?
    ensures Items(s, 2) == Some(ReadLeiosFields(s).rest)
  {
    hide Bool, ReadAnnouncement, Item, Items;
    var s1 := Bool(s).rest;
    BoolIsItem(s);
    AnnouncementIsItem(s1);
    TwoItems(s, s1, ReadAnnouncement(s1).rest);
  }

  /** The strictly read header body fields are twelve items. */
  lemma BodyFieldsAreTwelveItems(s: Bytes)
    requires ReadBodyFields(s).Got?
    ensures Items(s, 12) == Some(ReadBodyFields(s).rest)
  {
    hide ReadIdentity, ReadVrf, ReadBodyReference, ReadOperationalCert, ReadVersion, ReadLeiosFields, Item, Items;
    var s1 := ReadIdentity(s).rest;
    var s2 := ReadVrf(s1).rest;
    var s3 := ReadBodyReference(s2).rest;
    var s4 := ReadOperationalCert(s3).rest;
    var s5 := ReadVersion(s4).rest;
    var s6 := ReadLeiosFields(s5).rest;
    IdentityIsFourItems(s);
    VrfIsTwoItems(s1);
    BodyReferenceIsTwoItems(s2);
    OperationalCertIsItem(s3);
    VersionIsItem(s4);
    TwoItems(s3, s4, s5);
    LeiosFieldsAreTwoItems(s5);
    ItemsChain(s, 4, s1, 2, s2);
    ItemsChain(s, 6, s2, 2, s3);
    ItemsChain(s, 8, s3, 2, s5);
    ItemsChain(s, 10, s5, 2, s6);
  }

  /** A strictly valid inner header is one item. */
  lemma ValidInnerIsItem(inner: Bytes)
    requires ValidateInner(inner).Some?
    ensures IsItem(inner)
  {
    hide RecordHead, FixedBytes, FinishRecord, ReadBodyFields, Item, Items;
    var Got(header, s1) := RecordHead(inner, 2);
    var Got(body, s2) := RecordHead(s1, 12);
    var s3 := ReadBodyFields(s2).rest;
    var s4 := FinishRecord(s3, body).rest;
    var s5 := FixedBytes(s4, 448).rest;
    BodyFieldsAreTwelveItems(s2);
    RecordIsItem(s1, 12, s3);
    FixedIsItem(s4, 448);
    TwoItems(s1, s4, s5);
    RecordIsItem(inner, 2, s5);
  }

  // ---------------------------------------------------------------------------
  // The trailing fields
  // ---------------------------------------------------------------------------

  lemma ArrayKindOf(s: Bytes)
    requires ArrayHead(s).Got?
    ensures Peek(s) == Some(ArrayKind) || Peek(s) == Some(ArrayIndef)
  {
  }

  lemma TupleAgrees(s: Bytes)
    requires ReadAnnouncement(s).Got? && ReadAnnouncement(s).value.Some?
    ensures ReadTuple(s) == Got(ReadAnnouncement(s).value.value, ReadAnnouncement(s).rest)
    ensures Peek(s) == Some(ArrayKind) || Peek(s) == Some(ArrayIndef)
  {
    hide ReadHashAndSize, ArrayHead;
    ArrayKindOf(s);
  }

  lemma LeiosFieldsAgree(s: Bytes)
    requires ReadLeiosFields(s).Got?
    ensures ReadExtensions(s, 2, None, None) ==
            Some((ReadLeiosFields(s).value.1, Some(ReadLeiosFields(s).value.0)))
  {
    hide ReadTuple;
    var Got(certified, s1) := Bool(s);
    var Got(announced, s2) := ReadAnnouncement(s1);
    assert ReadExtensions(s2, 0, announced, Some(certified)) == Some((announced, Some(certified)));
    if announced.Some? {
      TupleAgrees(s1);
    }
    assert ReadExtensions(s1, 1, None, Some(certified)) == Some((announced, Some(certified)));
  }

  lemma BodyFieldsAgree(s: Bytes)
    requires ReadBodyFields(s).Got?
    ensures ParseBodyFields(s, HEADER_ERA, 12) == Some(ReadBodyFields(s).value)
  {
    hide ReadIdentity, ReadVrf, ReadBodyReference, ReadOperationalCert, ReadVersion, ReadLeiosFields, SkipTwo,
         ReadExtensions, Item;
    var s1 := ReadIdentity(s).rest;
    VrfIsTwoItems(s1);
    var s2 := ReadVrf(s1).rest;
    var s3 := ReadBodyReference(s2).rest;
    OperationalCertIsItem(s3);
    var s4 := ReadOperationalCert(s3).rest;
    VersionIsItem(s4);
    SkipsTwo(s3, s4, ReadVersion(s4).rest);
    LeiosFieldsAgree(ReadVersion(s4).rest);
  }

  /** The header body array inside a wrapped header has a definite length. */
  predicate BodyIsDefinite(raw: Bytes) {
    match ReadWrapper(raw)
    case Bad => false
    case Got((_, _, inner), _) =>
      match ArrayHead(inner)
      case Bad => false
      case Got(_, s) => (match ArrayHead(s) case Got(length, _) => length.Some? case Bad => false)
  }

  /** What the strict validator accepts, the lenient parser reads identically if the header body array
      is definite, and refuses if it is not. */
  lemma StrictImpliesLenient(raw: Bytes)
    requires ValidateLeiosHeader(raw).Some?
    ensures ParseHeader(raw) == if BodyIsDefinite(raw) then ValidateLeiosHeader(raw) else None
  {
    hide ReadWrapper, ArrayHead, ReadBodyFields, ParseBodyFields, FinishRecord, ValidSignature;
    var inner := ReadWrapper(raw).value.2;
    var s1 := ArrayHead(inner).rest;
    var s2 := ArrayHead(s1).rest;
    BodyFieldsAgree(s2);
  }
}
