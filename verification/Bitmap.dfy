/**
 The sparse, most-significant-bit-first index bitmap of `MsgLeiosBlockTxsRequest`.

 A 64-bit mask is the number it denotes: `BitSet(w, b)` is `w & (1 << b) != 0` and
 `OrBit(w, b)` is `w | (1 << b)`.
 */
module Bitmap {
  import opened Types
  import opened Ordered

  // ---------------------------------------------------------------------------
  // Words
  // ---------------------------------------------------------------------------

  function Pow2(n: nat): (p: nat)
    ensures p > 0
  {
    if n == 0 then 1 else 2 * Pow2(n - 1)
  }

  predicate BitSet(w: nat, b: nat) {
    if b == 0 then w % 2 == 1 else BitSet(w / 2, b - 1)
  }

  function OrBit(w: nat, b: nat): nat {
    if b == 0 then (if w % 2 == 1 then w else w + 1) else 2 * OrBit(w / 2, b - 1) + w % 2
  }

  lemma {:induction false} OrBitSets(w: nat, i: nat, j: nat)
    ensures BitSet(OrBit(w, i), j) <==> BitSet(w, j) || i == j
  {
    if i > 0 {
      assert OrBit(w, i) / 2 == OrBit(w / 2, i - 1) && OrBit(w, i) % 2 == w % 2;
      if j > 0 {
        OrBitSets(w / 2, i - 1, j - 1);
      }
    } else if j > 0 {
      assert OrBit(w, i) / 2 == w / 2;
    }
  }

  lemma {:induction false} OrBitAdds(w: nat, b: nat)
    ensures OrBit(w, b) == if BitSet(w, b) then w else w + Pow2(b)
  {
    if b > 0 {
      OrBitAdds(w / 2, b - 1);
    }
  }

  lemma {:induction false} OrBitFits(w: nat, b: nat, n: nat)
    requires w < Pow2(n) && b < n
    ensures 0 < OrBit(w, b) < Pow2(n)
  {
    if b > 0 {
      OrBitFits(w / 2, b - 1, n - 1);
    }
  }

  lemma {:induction false} ZeroHasNoBit(b: nat)
    ensures !BitSet(0, b)
  {
    if b > 0 {
      ZeroHasNoBit(b - 1);
    }
  }

  lemma {:induction false} NonzeroHasBit(w: nat, n: nat) returns (b: nat)
    requires 0 < w < Pow2(n)
    ensures b < n && BitSet(w, b)
  {
    if w % 2 == 1 {
      b := 0;
    } else {
      var c := NonzeroHasBit(w / 2, n - 1);
      b := c + 1;
    }
  }

  /** Bits `k` and up, of `n`. */
  function HighBits(n: nat, k: nat): nat
    requires k <= n
  {
    Pow2Grows(n, k);
    Pow2(n) - Pow2(k)
  }

  lemma {:induction false} Pow2Grows(n: nat, k: nat)
    requires k <= n
    ensures Pow2(k) <= Pow2(n)
  {
    if k < n {
      Pow2Grows(n - 1, k);
    }
  }

  lemma {:induction false} HighBitsSet(n: nat, k: nat, b: nat)
    requires k <= n && b < n
    ensures BitSet(HighBits(n, k), b) <==> b >= k
  {
    if k == 0 {
      assert HighBits(n, 0) % 2 == 1 && HighBits(n, 0) / 2 == HighBits(n - 1, 0);
      if b > 0 {
        HighBitsSet(n - 1, 0, b - 1);
      }
    } else {
      assert HighBits(n, k) % 2 == 0 && HighBits(n, k) / 2 == HighBits(n - 1, k - 1);
      if b > 0 {
        HighBitsSet(n - 1, k - 1, b - 1);
      }
    }
  }

  /** Setting the bit just below the set ones extends them by one. */
  lemma HighBitsExtend(n: nat, k: nat)
    requires 0 < k <= n
    ensures OrBit(HighBits(n, k), k - 1) == HighBits(n, k - 1)
    ensures OrBit(HighBits(n, 0), k - 1) == HighBits(n, 0)
  {
    HighBitsSet(n, k, k - 1);
    HighBitsSet(n, 0, k - 1);
    OrBitAdds(HighBits(n, k), k - 1);
    OrBitAdds(HighBits(n, 0), k - 1);
    Pow2Grows(n, k);
  }

  // ---------------------------------------------------------------------------
  // The bitmap
  // ---------------------------------------------------------------------------

  /** Segment numbers are 16 bits wide. */
  const SEGMENTS: nat := 0x1_0000

  type Segment = s: nat | s < SEGMENTS

  type Word = w: nat | w < 0x1_0000_0000_0000_0000

  type Bitmap = map<Segment, Word>

  /** Indices from here on do not fit: 65,536 segments of 64 bits. */
  const LIMIT: nat := 0x40_0000

  lemma WordSize()
    ensures Pow2(64) == 0x1_0000_0000_0000_0000
  {
    assert Pow2(8) == 0x100;
    assert Pow2(16) == 0x1_0000;
    assert Pow2(24) == 0x100_0000;
    assert Pow2(32) == 0x1_0000_0000;
    assert Pow2(40) == 0x100_0000_0000;
    assert Pow2(48) == 0x1_0000_0000_0000;
    assert Pow2(56) == 0x100_0000_0000_0000;
  }

  function SegmentOf(index: nat): Segment {
    (index / 64) % SEGMENTS
  }

  function SegBit(index: nat): (b: nat)
    ensures b < 64
  {
    63 - index % 64
  }

  predicate Contains(bitmap: Bitmap, index: nat) {
    SegmentOf(index) in bitmap && BitSet(bitmap[SegmentOf(index)], SegBit(index))
  }

  /** The indices a bitmap selects. */
  ghost function Indices(bitmap: Bitmap): set<nat> {
    set i | 0 <= i < LIMIT && Contains(bitmap, i)
  }

  function OrWord(w: Word, b: nat): (r: Word)
    requires b < 64
    ensures r == OrBit(w, b) && r > 0
  {
    WordSize();
    OrBitFits(w, b, 64);
    OrBit(w, b)
  }

  function SetIndex(bitmap: Bitmap, index: nat): Bitmap {
    var segment := SegmentOf(index);
    bitmap[segment := OrWord(if segment in bitmap then bitmap[segment] else 0, SegBit(index))]
  }

  function Packed(indices: seq<nat>): Bitmap {
    if indices == [] then map[] else SetIndex(Packed(indices[..|indices| - 1]), indices[|indices| - 1])
  }

  method FromIndices(indices: seq<nat>) returns (bitmap: Bitmap)
    ensures bitmap == Packed(indices)
  {
    bitmap := map[];
    for i := 0 to |indices|
      invariant bitmap == Packed(indices[..i])
    {
      var segment := SegmentOf(indices[i]);
      assert indices[..i + 1][..i] == indices[..i];
      if segment !in bitmap {
        bitmap := bitmap[segment := 0];
      }
      bitmap := bitmap[segment := OrWord(bitmap[segment], SegBit(indices[i]))];
    }
    assert indices[..|indices|] == indices;
  }

  // ---------------------------------------------------------------------------
  // Packing and reading back
  // ---------------------------------------------------------------------------

  /** Truncation to 16-bit segments identifies exactly the indices equal modulo `LIMIT`. */
  lemma SamePlace(i: nat, j: nat)
    requires i < LIMIT
    ensures SegmentOf(i) == SegmentOf(j) && SegBit(i) == SegBit(j) <==> j % LIMIT == i
  {
    assert j == 64 * (j / 64) + j % 64 && i == 64 * (i / 64) + i % 64;
    assert j / 64 == SEGMENTS * (j / 64 / SEGMENTS) + SegmentOf(j);
    assert j == LIMIT * (j / 64 / SEGMENTS) + (64 * SegmentOf(j) + j % 64);
    assert j % LIMIT == 64 * SegmentOf(j) + j % 64;
  }

  lemma SetIndexSelects(bitmap: Bitmap, index: nat, i: nat)
    requires i < LIMIT
    ensures Contains(SetIndex(bitmap, index), i) <==> Contains(bitmap, i) || index % LIMIT == i
  {
    var mask := if SegmentOf(index) in bitmap then bitmap[SegmentOf(index)] else 0;
    OrBitSets(mask, SegBit(index), SegBit(i));
    ZeroHasNoBit(SegBit(i));
    SamePlace(i, index);
  }

  /** What a packed list selects, for every list of 32-bit indices. */
  lemma {:induction false} PackedSelects(indices: seq<nat>, i: nat)
    requires i < LIMIT
    ensures Contains(Packed(indices), i) <==> exists k :: 0 <= k < |indices| && indices[k] % LIMIT == i
  {
    if indices != [] {
      var n := |indices| - 1;
      PackedSelects(indices[..n], i);
      SetIndexSelects(Packed(indices[..n]), indices[n], i);
      assert forall k :: 0 <= k < n ==> indices[..n][k] == indices[k];
    }
  }

  /** Reading a packed list back gives the list's set if and only if every index fits. */
  lemma RoundTripIffFits(indices: seq<nat>)
    ensures Indices(Packed(indices)) == Elements(indices) <==> forall i :: i in indices ==> i < LIMIT
  {
    forall i | 0 <= i < LIMIT
      ensures Contains(Packed(indices), i) <==> exists k :: 0 <= k < |indices| && indices[k] % LIMIT == i
    {
      PackedSelects(indices, i);
    }
    if forall i :: i in indices ==> i < LIMIT {
      forall k | 0 <= k < |indices|
        ensures indices[k] % LIMIT == indices[k]
      {
        assert indices[k] in indices && indices[k] < LIMIT;
      }
      assert Indices(Packed(indices)) == Elements(indices);
    } else {
      var i :| i in indices && i >= LIMIT;
      assert i in Elements(indices) && i !in Indices(Packed(indices));
    }
  }

  lemma {:induction false} PackedHasNoEmptySegment(indices: seq<nat>)
    ensures forall s :: s in Packed(indices) ==> Packed(indices)[s] != 0
  {
    if indices != [] {
      PackedHasNoEmptySegment(indices[..|indices| - 1]);
    }
  }

  /** A packed request is the empty map exactly when it selects nothing. */
  lemma EmptyIffNothingSelected(indices: seq<nat>)
    ensures Packed(indices) == map[] <==> Indices(Packed(indices)) == {}
  {
    hide Packed, BitSet;
    var bitmap := Packed(indices);
    PackedHasNoEmptySegment(indices);
    if bitmap != map[] {
      var s :| s in bitmap;
      var i := NonemptySegmentSelects(bitmap, s);
      assert i in Indices(bitmap);
    }
  }

  lemma NonemptySegmentSelects(bitmap: Bitmap, s: Segment) returns (i: nat)
    requires s in bitmap && bitmap[s] != 0
    ensures i < LIMIT && Contains(bitmap, i)
  {
    hide BitSet;
    WordSize();
    var b := NonzeroHasBit(bitmap[s], 64);
    i := 64 * s + (63 - b);
    assert SegmentOf(i) == s && SegBit(i) == b;
  }

  /** The selected indices that lie in the listed segments. */
  ghost function SelectedIn(bitmap: Bitmap, segments: seq<nat>): set<nat> {
    set i | 0 <= i < LIMIT && SegmentOf(i) in segments && Contains(bitmap, i)
  }

  /** Walk the segments upward, and the bits of each downward. */
  method IterIndices(bitmap: Bitmap) returns (out: seq<nat>)
    ensures StrictlyAscending(out) && Elements(out) == Indices(bitmap)
  {
    hide SelectedIn, Indices, SegmentSet;
    var segments := Ascending(bitmap.Keys);
    SegmentEnds(bitmap, segments);
    out := [];
    for k := 0 to |segments|
      invariant StrictlyAscending(out) && Elements(out) == SelectedIn(bitmap, segments[..k])
    {
      assert segments[k] in segments && segments[k] in bitmap.Keys;
      var part := SegmentIndices(segments[k], bitmap[segments[k]]);
      NextSegment(bitmap, segments, k, out, part);
      out := out + part;
    }
    assert segments[..|segments|] == segments;
  }

  lemma SegmentEnds(bitmap: Bitmap, segments: seq<nat>)
    requires forall s :: s in segments <==> s in bitmap.Keys
    ensures SelectedIn(bitmap, segments[..0]) == {} && SelectedIn(bitmap, segments) == Indices(bitmap)
  {
    hide BitSet;
  }

  lemma NextSegment(bitmap: Bitmap, segments: seq<nat>, k: nat, out: seq<nat>, part: seq<nat>)
    requires StrictlyAscending(segments) && k < |segments| && segments[k] in bitmap
    requires StrictlyAscending(out) && Elements(out) == SelectedIn(bitmap, segments[..k])
    requires StrictlyAscending(part) && Elements(part) == SegmentSet(segments[k], bitmap[segments[k]])
    ensures StrictlyAscending(out + part) && Elements(out + part) == SelectedIn(bitmap, segments[..k + 1])
  {
    forall i, j | i in out && j in part
      ensures i < j
    {
      assert i in SelectedIn(bitmap, segments[..k]) && j in SegmentSet(segments[k], bitmap[segments[k]]);
      assert SegmentOf(i) < SegmentOf(j);
      Placed(i);
      Placed(j);
    }
    AscendingConcat(out, part);
    assert segments[..k + 1] == segments[..k] + [segments[k]];
    assert Elements(out + part) == Elements(out) + Elements(part);
    assert SelectedIn(bitmap, segments[..k + 1])
        == SelectedIn(bitmap, segments[..k]) + SegmentSet(segments[k], bitmap[segments[k]]);
  }

  ghost function SegmentSet(segment: nat, mask: Word): set<nat> {
    set i | 0 <= i < LIMIT && SegmentOf(i) == segment && BitSet(mask, SegBit(i))
  }

  lemma Placed(i: nat)
    requires i < LIMIT
    ensures 64 * SegmentOf(i) <= i < 64 * SegmentOf(i) + 64
  {
  }

  method SegmentIndices(segment: Segment, mask: Word) returns (part: seq<nat>)
    ensures StrictlyAscending(part) && Elements(part) == SegmentSet(segment, mask)
  {
    part := [];
    var bit := 64;
    while bit > 0
      invariant 0 <= bit <= 64
      invariant StrictlyAscending(part)
      invariant forall i: nat :: i in part <==> 64 * segment <= i < 64 * segment + (64 - bit) && BitSet(mask, SegBit(i))
    {
      bit := bit - 1;
      var i := 64 * segment + (63 - bit);
      assert SegBit(i) == bit;
      if BitSet(mask, bit) {
        AscendingConcat(part, [i]);
        part := part + [i];
      }
    }
    forall i: nat
      ensures i < LIMIT && SegmentOf(i) == segment <==> 64 * segment <= i < 64 * segment + 64
    {
      if i < LIMIT {
        Placed(i);
      }
    }
  }

  // ---------------------------------------------------------------------------
  // Selecting everything
  // ---------------------------------------------------------------------------

  function Range(n: nat): seq<nat> {
    seq(n, i => i)
  }

  function FullMask(): (w: Word)
    ensures w == HighBits(64, 0) == 0xFFFF_FFFF_FFFF_FFFF
  {
    WordSize();
    0xFFFF_FFFF_FFFF_FFFF
  }

  /** The top `r` bits: `!((1 << (64 - r)) - 1)`. */
  function TopMask(r: nat): (w: Word)
    requires 0 < r < 64
    ensures w == HighBits(64, 64 - r)
  {
    WordSize();
    HighBits(64, 64 - r)
  }

  /** The first `k` segments, full; past the last segment number they wrap around. */
  function FullSegments(k: nat): Bitmap {
    if k == 0 then map[] else FullSegments(k - 1)[(k - 1) % SEGMENTS := FullMask()]
  }

  lemma {:induction false} FullSegmentsAre(k: nat, s: Segment)
    ensures s in FullSegments(k) <==> s < k
    ensures s in FullSegments(k) ==> FullSegments(k)[s] == FullMask()
  {
    if k > 0 {
      FullSegmentsAre(k - 1, s);
    }
  }

  function AllSelected(count: nat): Bitmap {
    var full := FullSegments(count / 64);
    if count % 64 > 0 then full[(count / 64) % SEGMENTS := TopMask(count % 64)] else full
  }

  method SelectAll(count: nat) returns (bitmap: Bitmap)
    ensures bitmap == AllSelected(count)
  {
    bitmap := map[];
    var full, remainder := count / 64, count % 64;
    for seg := 0 to full
      invariant bitmap == FullSegments(seg)
    {
      bitmap := bitmap[seg % SEGMENTS := FullMask()];
    }
    if remainder > 0 {
      bitmap := bitmap[full % SEGMENTS := TopMask(remainder)];
    }
  }

  /** What packing `0..n` one index at a time builds. */
  function RangePacked(n: nat): Bitmap {
    if n % 64 == 0 || n >= LIMIT then FullSegments(n / 64)
    else FullSegments(n / 64)[n / 64 := TopMask(n % 64)]
  }

  lemma {:induction false} PackedRange(n: nat)
    ensures Packed(Range(n)) == RangePacked(n)
  {
    if n > 0 {
      var m := n - 1;
      PackedRange(m);
      assert Range(n)[..m] == Range(m) && Range(n)[m] == m;
      if m < LIMIT {
        PackNext(m);
      } else {
        PackPastLimit(m);
      }
    }
  }

  lemma PackNext(m: nat)
    requires m < LIMIT
    ensures SetIndex(RangePacked(m), m) == RangePacked(m + 1)
  {
    hide BitSet, OrBit, Pow2;
    var k, r := m / 64, m % 64;
    assert SegmentOf(m) == k;
    FullSegmentsAre(k, k);
    HighBitsExtend(64, 64 - r);
    if r == 0 {
      assert HighBits(64, 64) == 0;
      assert (m + 1) / 64 == k && (m + 1) % 64 == 1;
    } else if r == 63 {
      assert (m + 1) / 64 == k + 1 && (m + 1) % 64 == 0;
    } else {
      assert (m + 1) / 64 == k && (m + 1) % 64 == r + 1;
    }
  }

  lemma PackPastLimit(m: nat)
    requires m >= LIMIT
    ensures SetIndex(RangePacked(m), m) == RangePacked(m + 1)
  {
    var k, s := m / 64, SegmentOf(m);
    FullSegmentsAre(k, s);
    FullSegmentsAre(k, k % SEGMENTS);
    HighBitsExtend(64, SegBit(m) + 1);
    assert FullSegments(k)[s := FullMask()] == FullSegments(k);
    if (m + 1) % 64 == 0 {
      assert (m + 1) / 64 == k + 1;
      assert FullSegments(k)[k % SEGMENTS := FullMask()] == FullSegments(k);
    } else {
      assert (m + 1) / 64 == k;
    }
  }

  /** Selecting everything is packing `0..n`, except past the limit with a partial last
      segment, which then overwrites a full one. */
  lemma SelectAllIffNoWrap(n: nat)
    ensures AllSelected(n) == Packed(Range(n)) <==> n <= LIMIT || n % 64 == 0
  {
    PackedRange(n);
    if n <= LIMIT || n % 64 == 0 {
      NoWrap(n);
    } else {
      PartialOverwrites(n);
    }
  }

  lemma NoWrap(n: nat)
    requires n <= LIMIT || n % 64 == 0
    ensures AllSelected(n) == RangePacked(n)
  {
    if n % 64 != 0 {
      assert n < LIMIT && (n / 64) % SEGMENTS == n / 64;
    }
  }

  lemma PartialOverwrites(n: nat)
    requires n > LIMIT && n % 64 != 0
    ensures AllSelected(n) != RangePacked(n)
  {
    var s := (n / 64) % SEGMENTS;
    FullSegmentsAre(n / 64, s);
    assert AllSelected(n)[s] == TopMask(n % 64) && RangePacked(n)[s] == FullMask();
    assert TopMask(n % 64) != FullMask() by { Pow2Grows(64 - n % 64, 1); }
  }

  // ---------------------------------------------------------------------------
  // Indices past the limit
  // ---------------------------------------------------------------------------

  /** The first index past the limit reads back as 0. */
  lemma PastLimitReadsBackWrong()
    ensures Indices(Packed([LIMIT])) == {0}
  {
    forall i | 0 <= i < LIMIT
      ensures Contains(Packed([LIMIT]), i) <==> i == 0
    {
      PackedSelects([LIMIT], i);
      assert [LIMIT][0] % LIMIT == 0;
    }
  }

  /** One more than the limit: the partial last segment overwrites the first, which loses index 1. */
  lemma PastLimitSelectsLess()
    ensures Contains(Packed(Range(LIMIT + 1)), 1) && !Contains(AllSelected(LIMIT + 1), 1)
  {
    hide Packed, FullSegments, BitSet, HighBits, TopMask;
    PackedSelects(Range(LIMIT + 1), 1);
    assert Range(LIMIT + 1)[1] % LIMIT == 1;
    var n := LIMIT + 1;
    assert n % 64 == 1 && (n / 64) % SEGMENTS == 0 && SegmentOf(1) == 0 && SegBit(1) == 62;
    assert AllSelected(n)[0] == TopMask(1) == HighBits(64, 63);
    HighBitsSet(64, 63, 62);
  }
}
