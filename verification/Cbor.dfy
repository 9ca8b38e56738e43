/** CBOR data items (RFC 8949, sections 3.1 to 3.3), read off the front of a byte sequence. */
module Cbor {
  import opened Types

  type Byte = b: int | 0 <= b < 256
  type Bytes = seq<Byte>

  /** What a read yields: a value and the bytes that follow it. */
  datatype Read<+T> = Got(value: T, rest: Bytes) | Bad

  /** The bytes of `s` in front of its suffix `rest`. */
  function Taken(s: Bytes, rest: Bytes): Bytes
    requires |rest| <= |s|
  {
    s[..|s| - |rest|]
  }

  ghost predicate IsSuffix(rest: Bytes, s: Bytes) {
    |rest| <= |s| && s == Taken(s, rest) + rest
  }

  lemma SuffixTransitive(c: Bytes, b: Bytes, a: Bytes)
    requires IsSuffix(c, b) && IsSuffix(b, a)
    ensures IsSuffix(c, a) && Taken(a, c) == Taken(a, b) + Taken(b, c)
  {
    assert a == Taken(a, b) + Taken(b, c) + c;
  }

  // ---------------------------------------------------------------------------
  // Item heads
  // ---------------------------------------------------------------------------

  function BigEndian(s: Bytes): nat {
    if s == [] then 0 else BigEndian(s[..|s| - 1]) * 256 + s[|s| - 1]
  }

  /** How many argument bytes follow the initial byte, for additional information 24 to 27. */
  function ArgumentSize(info: nat): nat {
    if info == 24 then 1 else if info == 25 then 2 else if info == 26 then 4 else if info == 27 then 8 else 0
  }

  /** Major type and argument; no argument stands for the indefinite form. */
  datatype ItemHead = ItemHead(major: nat, argument: Option<nat>)

  function Head(s: Bytes): (r: Read<ItemHead>)
    ensures r.Got? ==> |r.rest| < |s|
  {
    if s == [] then Bad
    else
      var major, info := s[0] / 32, s[0] % 32;
      if info < 24 then Got(ItemHead(major, Some(info)), s[1..])
      else if info == 31 then Got(ItemHead(major, None), s[1..])
      else
        var size := ArgumentSize(info);
        if size == 0 || |s| < 1 + size then Bad
        else Got(ItemHead(major, Some(BigEndian(s[1..1 + size]))), s[1 + size..])
  }

  /** Only the bytes consumed matter. */
  lemma HeadIsLocal(s: Bytes, t: Bytes)
    requires Head(s).Got?
    ensures IsSuffix(Head(s).rest, s) && Head(Taken(s, Head(s).rest) + t) == Head(s).(rest := t)
  {
    var x := Taken(s, Head(s).rest);
    var size := ArgumentSize(s[0] % 32);
    assert (x + t)[0] == s[0];
    assert (x + t)[|x|..] == t;
    if 24 <= s[0] % 32 < 31 {
      assert (x + t)[1..1 + size] == s[1..1 + size];
    }
  }

  // ---------------------------------------------------------------------------
  // Well-formed items
  // ---------------------------------------------------------------------------

  const BREAK: Byte := 0xff

  function Drop(s: Bytes, n: nat): (r: Option<Bytes>)
    ensures r.Some? ==> |r.value| <= |s|
  {
    if n <= |s| then Some(s[n..]) else None
  }

  /** What follows the first item of `s`, if `s` starts with a well-formed one. */
  function Item(s: Bytes): (r: Option<Bytes>)
    ensures r.Some? ==> |r.value| < |s|
    decreases |s|, 2, 0
  {
    match Head(s)
    case Bad => None
    case Got(head, rest) => Content(s[0], head, rest)
  }

  /** What follows the content of an item whose head was read. */
  function Content(initial: Byte, head: ItemHead, s: Bytes): (r: Option<Bytes>)
    ensures r.Some? ==> |r.value| <= |s|
    decreases |s|, 5, 0
  {
    var major := head.major;
    match head.argument
    case Some(n) =>
      if major == 0 || major == 1 then Some(s)
      else if major == 2 || major == 3 then Drop(s, n)
      else if major == 4 then Items(s, n)
      else if major == 5 then Items(s, 2 * n)
      else if major == 6 then Items(s, 1)
      else if initial == 0xf8 && n < 32 then None
      else Some(s)
    case None =>
      if major == 2 || major == 3 then Chunks(major, s)
      else if major == 4 then UntilBreak(s, 1)
      else if major == 5 then UntilBreak(s, 2)
      else None
  }

  /** What follows `n` items. */
  function Items(s: Bytes, n: nat): (r: Option<Bytes>)
    ensures r.Some? ==> |r.value| <= |s| && (n > 0 ==> |r.value| < |s|)
    decreases |s|, 3, n
  {
    if n == 0 then Some(s)
    else match Item(s) case None => None case Some(first) => Items(first, n - 1)
  }

  /** What follows groups of `group` items and the break that ends them. */
  function UntilBreak(s: Bytes, group: nat): (r: Option<Bytes>)
    requires group > 0
    ensures r.Some? ==> |r.value| < |s|
    decreases |s|, 4, 0
  {
    if s == [] then None
    else if s[0] == BREAK then Some(s[1..])
    else match Items(s, group) case None => None case Some(first) => UntilBreak(first, group)
  }

  /** What follows the definite-length chunks of a string and the break that ends them. */
  function Chunks(major: nat, s: Bytes): (r: Option<Bytes>)
    ensures r.Some? ==> |r.value| < |s|
    decreases |s|, 0, 0
  {
    if s == [] then None
    else if s[0] == BREAK then Some(s[1..])
    else
      match Head(s)
      case Got(ItemHead(m, Some(n)), rest) => if m != major || n > |rest| then None else Chunks(major, rest[n..])
      case _ => None
  }

  // ---------------------------------------------------------------------------
  // Locality: whether and where an item ends depends on its own bytes only
  // ---------------------------------------------------------------------------

  lemma {:induction false} ItemIsLocal(s: Bytes, last: Bytes, t: Bytes)
    requires Item(s) == Some(last)
    ensures IsSuffix(last, s) && Item(Taken(s, last) + t) == Some(t)
    decreases |s|, 2, 0
  {
    var rest := Head(s).rest;
    ContentIsLocal(s[0], Head(s).value, rest, last, t);
    HeadIsLocal(s, Taken(rest, last) + t);
    Regroup(last, rest, s, t);
  }

  lemma {:induction false} ContentIsLocal(initial: Byte, head: ItemHead, s: Bytes, last: Bytes, t: Bytes)
    requires Content(initial, head, s) == Some(last)
    ensures IsSuffix(last, s) && Content(initial, head, Taken(s, last) + t) == Some(t)
    decreases |s|, 5, 0
  {
    match head.argument
    case Some(n) =>
      if head.major == 4 {
        ItemsAreLocal(s, n, last, t);
      } else if head.major == 5 {
        ItemsAreLocal(s, 2 * n, last, t);
      } else if head.major == 6 {
        ItemsAreLocal(s, 1, last, t);
      } else {
        assert IsSuffix(last, s);
        assert (Taken(s, last) + t)[|s| - |last|..] == t;
      }
    case None =>
      if head.major == 2 || head.major == 3 {
        ChunksAreLocal(head.major, s, last, t);
      } else {
        UntilBreakIsLocal(s, head.major - 3, last, t);
      }
  }

  lemma {:induction false} ItemsAreLocal(s: Bytes, n: nat, last: Bytes, t: Bytes)
    requires Items(s, n) == Some(last)
    ensures IsSuffix(last, s) && Items(Taken(s, last) + t, n) == Some(t)
    decreases |s|, 3, n
  {
    if n == 0 {
      assert Taken(s, last) + t == t;
    } else {
      var first := Item(s).value;
      ItemsAreLocal(first, n - 1, last, t);
      ItemIsLocal(s, first, Taken(first, last) + t);
      Regroup(last, first, s, t);
    }
  }

  /** Reading to `last` by way of `first`, with `t` in place of `last`. */
  lemma Regroup(last: Bytes, first: Bytes, s: Bytes, t: Bytes)
    requires IsSuffix(last, first) && IsSuffix(first, s)
    ensures IsSuffix(last, s) && Taken(s, last) + t == Taken(s, first) + (Taken(first, last) + t)
  {
    SuffixTransitive(last, first, s);
  }

  lemma {:induction false} UntilBreakIsLocal(s: Bytes, group: nat, last: Bytes, t: Bytes)
    requires group > 0 && UntilBreak(s, group) == Some(last)
    ensures IsSuffix(last, s) && UntilBreak(Taken(s, last) + t, group) == Some(t)
    decreases |s|, 4, 0
  {
    if s[0] == BREAK {
      assert Taken(s, last) + t == [BREAK] + t;
    } else {
      var first := Items(s, group).value;
      UntilBreakIsLocal(first, group, last, t);
      ItemsAreLocal(s, group, first, Taken(first, last) + t);
      Regroup(last, first, s, t);
    }
  }

  lemma {:induction false} ChunksAreLocal(major: nat, s: Bytes, last: Bytes, t: Bytes)
    requires Chunks(major, s) == Some(last)
    ensures IsSuffix(last, s) && Chunks(major, Taken(s, last) + t) == Some(t)
    decreases |s|, 0, 0
  {
    if s[0] == BREAK {
      assert Taken(s, last) + t == [BREAK] + t;
    } else {
      var rest, n := Head(s).rest, Head(s).value.argument.value;
      ChunksAreLocal(major, rest[n..], last, t);
      var d := Taken(rest[n..], last);
      HeadIsLocal(s, rest[..n] + (d + t));
      ChunkRegroup(last, rest, n, s, t);
      assert (rest[..n] + (d + t))[n..] == d + t;
    }
  }

  lemma ChunkRegroup(last: Bytes, rest: Bytes, n: nat, s: Bytes, t: Bytes)
    requires n <= |rest| && IsSuffix(last, rest[n..]) && IsSuffix(rest, s)
    ensures IsSuffix(last, s)
    ensures Taken(s, last) + t == Taken(s, rest) + (rest[..n] + (Taken(rest[n..], last) + t))
  {
    SuffixTransitive(last, rest[n..], rest);
    SuffixTransitive(last, rest, s);
    assert Taken(rest, rest[n..]) == rest[..n];
  }

  /** The bytes are exactly one well-formed item. */
  ghost predicate IsItem(x: Bytes) {
    Item(x) == Some([])
  }

  /** Reading an item in front of anything takes the item and leaves the rest. */
  lemma ItemThen(x: Bytes, t: Bytes)
    requires IsItem(x)
    ensures Item(x + t) == Some(t)
  {
    ItemIsLocal(x, [], t);
    assert Taken(x, []) == x;
  }

  lemma TakenIsItem(s: Bytes)
    requires Item(s).Some?
    ensures IsSuffix(Item(s).value, s) && IsItem(Taken(s, Item(s).value))
  {
    ItemIsLocal(s, Item(s).value, []);
    assert Taken(s, Item(s).value) + [] == Taken(s, Item(s).value);
  }
}
