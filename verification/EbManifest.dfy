/** The endorser-block manifest codec: a map from transaction hash to transaction size. */
module EbManifest {
  import opened Types
  import opened Cbor
  import opened CborTokens
  import opened CborDecoder

  const MAX_OVERFLOW_EB_TXS: nat := 65_536

  const DIGEST_SIZE: nat := 32

  /** Transaction hashes as their bytes. */
  type Digest = Bytes

  type SizeOf = Digest -> nat

  /** Hashes are 32 bytes and sizes fit 32 bits. */
  ghost predicate Fits(manifest: seq<Digest>, sizeOf: SizeOf) {
    forall i :: 0 <= i < |manifest| ==> FitsEntry(manifest[i], sizeOf)
  }

  ghost predicate FitsEntry(h: Digest, sizeOf: SizeOf) {
    |h| == DIGEST_SIZE && sizeOf(h) < U32
  }

  // ---------------------------------------------------------------------------
  // Encoding
  // ---------------------------------------------------------------------------

  function Entry(h: Digest, sizeOf: SizeOf): Bytes
    requires FitsEntry(h, sizeOf)
  {
    EncodeBytes(h) + EncodeUInt(sizeOf(h))
  }

  function Entries(manifest: seq<Digest>, sizeOf: SizeOf): Bytes
    requires Fits(manifest, sizeOf)
  {
    if manifest == [] then [] else Entry(manifest[0], sizeOf) + Entries(manifest[1..], sizeOf)
  }

  function EncodeManifest(manifest: seq<Digest>, sizeOf: SizeOf): Bytes
    requires |manifest| < U64 && Fits(manifest, sizeOf)
  {
    EncodeMap(|manifest|) + Entries(manifest, sizeOf)
  }

  lemma {:induction false} EntriesSnoc(manifest: seq<Digest>, h: Digest, sizeOf: SizeOf)
    requires Fits(manifest, sizeOf) && FitsEntry(h, sizeOf)
    ensures Fits(manifest + [h], sizeOf)
    ensures Entries(manifest + [h], sizeOf) == Entries(manifest, sizeOf) + Entry(h, sizeOf)
  {
    if manifest == [] {
      assert manifest + [h] == [h];
    } else {
      var first, rest := Entry(manifest[0], sizeOf), Entries(manifest[1..], sizeOf);
      assert (manifest + [h])[1..] == manifest[1..] + [h];
      EntriesSnoc(manifest[1..], h, sizeOf);
      assert first + rest + Entry(h, sizeOf) == first + (rest + Entry(h, sizeOf));
    }
  }

  method EncodeOverflowEb(manifest: seq<Digest>, sizeOf: SizeOf) returns (data: Bytes)
    requires |manifest| < U64 && Fits(manifest, sizeOf)
    ensures data == EncodeManifest(manifest, sizeOf)
  {
    data := EncodeMap(|manifest|);
    for i := 0 to |manifest|
      invariant Fits(manifest[..i], sizeOf)
      invariant data == EncodeMap(|manifest|) + Entries(manifest[..i], sizeOf)
    {
      EntriesSnoc(manifest[..i], manifest[i], sizeOf);
      assert manifest[..i + 1] == manifest[..i] + [manifest[i]];
      data := data + EncodeBytes(manifest[i]);
      data := data + EncodeUInt(sizeOf(manifest[i]));
    }
    assert manifest[..|manifest|] == manifest;
  }

  // ---------------------------------------------------------------------------
  // Decoding
  // ---------------------------------------------------------------------------

  function ReadEntry(s: Bytes): (r: Read<Digest>)
    ensures r.Got? ==> |r.rest| < |s|
  {
    match ByteString(s)
    case Got(h, rest) =>
      if |h| != DIGEST_SIZE then Bad
      else (match UInt(rest, U32) case Got(_, next) => Got(h, next) case Bad => Bad)
    case Bad => Bad
  }

  function Prepend(read: seq<Digest>, more: Option<seq<Digest>>): Option<seq<Digest>> {
    match more case Some(hashes) => Some(read + hashes) case None => None
  }

  /** The hashes of `n` entries; sizes are ignored. */
  function ReadEntries(s: Bytes, n: nat): Option<seq<Digest>> {
    if n == 0 then Some([])
    else match ReadEntry(s) case Got(h, rest) => Prepend([h], ReadEntries(rest, n - 1)) case Bad => None
  }

  /** The hashes up to the break, provided there are at most `room`. */
  function ReadUntilBreak(s: Bytes, room: nat): Option<seq<Digest>>
    decreases |s|
  {
    if s == [] then None
    else if s[0] == BREAK then Some([])
    else if room == 0 then None
    else match ReadEntry(s) case Got(h, rest) => Prepend([h], ReadUntilBreak(rest, room - 1)) case Bad => None
  }

  function DecodeManifest(blob: Bytes): Option<seq<Digest>> {
    match MapHead(blob)
    case Got(Some(n), rest) => if n > MAX_OVERFLOW_EB_TXS then None else ReadEntries(rest, n)
    case Got(None, rest) => ReadUntilBreak(rest, MAX_OVERFLOW_EB_TXS)
    case Bad => None
  }

  /** The key of an EB: its slot and the digest of its bytes. */
  function KeyFor(point: Point, digest: Hash): Option<EbKey> {
    match point case Origin => None case Specific(slot, _) => Some(EbKey(slot, digest))
  }

  method DecodeOverflowEb(point: Point, blob: Bytes, blake: Bytes -> Hash)
    returns (r: Option<(Option<EbKey>, seq<Digest>)>)
    ensures r == match DecodeManifest(blob)
                 case Some(hashes) => Some((KeyFor(point, blake(blob)), hashes))
                 case None => None
  {
    var d := new Decoder(blob);
    var entries := d.Map();
    if entries.None? {
      return None;
    }
    var hashes: Option<seq<Digest>>;
    if entries.value.Some? {
      if entries.value.value > MAX_OVERFLOW_EB_TXS {
        return None;
      }
      hashes := DecodeEntries(d, entries.value.value);
    } else {
      hashes := DecodeUntilBreak(d, MAX_OVERFLOW_EB_TXS);
    }
    if hashes.None? {
      return None;
    }
    return Some((KeyFor(point, blake(blob)), hashes.value));
  }

  method DecodeEntry(d: Decoder) returns (r: Option<Digest>)
    requires d.Valid()
    modifies d
    ensures d.Reads(old(ReadEntry(d.Rest())), r)
  {
    var bytes := d.ReadBytes();
    if bytes.None? || |bytes.value| != DIGEST_SIZE {
      return None;
    }
    var size := d.Unsigned(U32);
    if size.None? {
      return None;
    }
    return Some(bytes.value);
  }

  lemma PrependUnits(read: seq<Digest>, more: Option<seq<Digest>>)
    ensures Prepend([], more) == more && Prepend(read, Some([])) == Some(read)
  {
    assert read + [] == read;
    assert more.Some? ==> [] + more.value == more.value;
  }

  lemma PrependNext(read: seq<Digest>, h: Digest, more: Option<seq<Digest>>)
    ensures Prepend(read + [h], more) == Prepend(read, Prepend([h], more))
  {
    assert more.Some? ==> read + [h] + more.value == read + ([h] + more.value);
  }

  method DecodeEntries(d: Decoder, n: nat) returns (r: Option<seq<Digest>>)
    requires d.Valid()
    modifies d
    ensures r == ReadEntries(old(d.Rest()), n)
  {
    var hashes: seq<Digest> := [];
    ghost var whole := ReadEntries(d.Rest(), n);
    PrependUnits([], whole);
    for i := 0 to n
      invariant d.Valid()
      invariant whole == Prepend(hashes, ReadEntries(d.Rest(), n - i))
    {
      var h := DecodeEntry(d);
      if h.None? {
        return None;
      }
      PrependNext(hashes, h.value, ReadEntries(d.Rest(), n - i - 1));
      hashes := hashes + [h.value];
    }
    PrependUnits(hashes, None);
    return Some(hashes);
  }

  datatype Next = End | Fail | More(hash: Digest)

  /** The break, or one more entry while there is room for it. */
  method DecodeNext(d: Decoder, room: nat) returns (next: Next)
    requires d.Valid()
    modifies d
    ensures d.Valid()
    ensures next.End? ==> ReadUntilBreak(old(d.Rest()), room) == Some([])
    ensures next.Fail? ==> ReadUntilBreak(old(d.Rest()), room) == None
    ensures next.More? ==>
              && room > 0 && d.position > old(d.position)
              && ReadUntilBreak(old(d.Rest()), room) == Prepend([next.hash], ReadUntilBreak(d.Rest(), room - 1))
  {
    var kind := d.Datatype();
    if kind.None? {
      return Fail;
    }
    if kind.value == BreakKind {
      return End;
    }
    if room == 0 {
      return Fail;
    }
    var h := DecodeEntry(d);
    return if h.None? then Fail else More(h.value);
  }

  method DecodeUntilBreak(d: Decoder, limit: nat) returns (r: Option<seq<Digest>>)
    requires d.Valid()
    modifies d
    ensures r == ReadUntilBreak(old(d.Rest()), limit)
  {
    hide ReadEntry;
    var hashes: seq<Digest> := [];
    var room := limit;
    ghost var whole := ReadUntilBreak(d.Rest(), room);
    PrependUnits([], whole);
    while true
      invariant d.Valid()
      invariant whole == Prepend(hashes, ReadUntilBreak(d.Rest(), room))
      decreases |d.input| - d.position
    {
      var next := DecodeNext(d, room);
      match next
      case End =>
        PrependUnits(hashes, None);
        return Some(hashes);
      case Fail =>
        return None;
      case More(h) =>
        room := room - 1;
        PrependNext(hashes, h, ReadUntilBreak(d.Rest(), room));
        hashes := hashes + [h];
    }
  }

  // ---------------------------------------------------------------------------
  // Round trip
  // ---------------------------------------------------------------------------

  lemma EntryReads(h: Digest, sizeOf: SizeOf, t: Bytes)
    requires FitsEntry(h, sizeOf)
    ensures ReadEntry(Entry(h, sizeOf) + t) == Got(h, t)
  {
    var size := EncodeUInt(sizeOf(h));
    assert Entry(h, sizeOf) + t == EncodeBytes(h) + (size + t);
    BytesRead(h, size + t);
    UIntReads(sizeOf(h), U32, t);
  }

  lemma {:induction false} EntriesRead(manifest: seq<Digest>, sizeOf: SizeOf, t: Bytes)
    requires Fits(manifest, sizeOf)
    ensures ReadEntries(Entries(manifest, sizeOf) + t, |manifest|) == Some(manifest)
  {
    hide ReadEntry, Entry;
    if manifest != [] {
      var rest := Entries(manifest[1..], sizeOf);
      assert Entries(manifest, sizeOf) + t == Entry(manifest[0], sizeOf) + (rest + t);
      EntryReads(manifest[0], sizeOf, rest + t);
      EntriesRead(manifest[1..], sizeOf, t);
      assert manifest == [manifest[0]] + manifest[1..];
    }
  }

  /** Decoding an encoded manifest gives it back, in order, exactly when it is within the limit. */
  lemma ManifestRoundTrip(manifest: seq<Digest>, sizeOf: SizeOf)
    requires |manifest| < U64 && Fits(manifest, sizeOf)
    ensures DecodeManifest(EncodeManifest(manifest, sizeOf)) ==
            if |manifest| <= MAX_OVERFLOW_EB_TXS then Some(manifest) else None
  {
    var entries := Entries(manifest, sizeOf);
    MapReads(|manifest|, entries);
    EntriesRead(manifest, sizeOf, []);
    assert entries + [] == entries;
  }

  lemma EntryIsNoBreak(h: Digest, sizeOf: SizeOf)
    requires FitsEntry(h, sizeOf)
    ensures Entry(h, sizeOf) != [] && Entry(h, sizeOf)[0] != BREAK
  {
  }

  lemma {:induction false} BreakEndsEntries(manifest: seq<Digest>, sizeOf: SizeOf, room: nat)
    requires Fits(manifest, sizeOf)
    ensures ReadUntilBreak(Entries(manifest, sizeOf) + [BREAK], room) ==
            if |manifest| <= room then Some(manifest) else None
    decreases |manifest|
  {
    hide ReadEntry, Entry;
    var s := Entries(manifest, sizeOf) + [BREAK];
    if manifest == [] {
      assert s == [BREAK];
    } else {
      var rest := Entries(manifest[1..], sizeOf);
      assert s == Entry(manifest[0], sizeOf) + (rest + [BREAK]);
      EntryIsNoBreak(manifest[0], sizeOf);
      if room > 0 {
        EntryReads(manifest[0], sizeOf, rest + [BREAK]);
        BreakEndsEntries(manifest[1..], sizeOf, room - 1);
        assert manifest == [manifest[0]] + manifest[1..];
      }
    }
  }

  lemma IndefiniteForm(t: Bytes)
    ensures DecodeManifest([0xbf] + t) == ReadUntilBreak(t, MAX_OVERFLOW_EB_TXS)
  {
    hide ReadUntilBreak;
    assert ([0xbf] + t)[1..] == t;
  }

  /** The indefinite-length form of the same map decodes to the same manifest. */
  lemma IndefiniteManifestReads(manifest: seq<Digest>, sizeOf: SizeOf)
    requires Fits(manifest, sizeOf)
    ensures DecodeManifest([0xbf] + (Entries(manifest, sizeOf) + [BREAK])) ==
            if |manifest| <= MAX_OVERFLOW_EB_TXS then Some(manifest) else None
  {
    hide DecodeManifest, ReadUntilBreak;
    IndefiniteForm(Entries(manifest, sizeOf) + [BREAK]);
    BreakEndsEntries(manifest, sizeOf, MAX_OVERFLOW_EB_TXS);
  }
}
