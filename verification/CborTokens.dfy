/** The typed reads of a CBOR decoder, and the matching writes of an encoder. */
module CborTokens {
  import opened Types
  import opened Cbor

  const U32: nat := 0x1_0000_0000
  const U64: nat := 0x1_0000_0000_0000_0000

  // ---------------------------------------------------------------------------
  // Reads
  // ---------------------------------------------------------------------------

  /** The kinds of item that the codecs tell apart by their initial byte. */
  datatype Kind =
    | BytesKind | ArrayKind | ArrayIndef | MapKind | MapIndef | TagKind | BoolKind | NullKind | BreakKind | OtherKind

  function KindOf(b: Byte): Kind {
    if 0x40 <= b <= 0x5b then BytesKind
    else if 0x80 <= b <= 0x9b then ArrayKind
    else if b == 0x9f then ArrayIndef
    else if 0xa0 <= b <= 0xbb then MapKind
    else if b == 0xbf then MapIndef
    else if 0xc0 <= b <= 0xdb then TagKind
    else if b == 0xf4 || b == 0xf5 then BoolKind
    else if b == 0xf6 then NullKind
    else if b == BREAK then BreakKind
    else OtherKind
  }

  /** The kind of the next item, without reading it. */
  function Peek(s: Bytes): Option<Kind> {
    if s == [] then None else Some(KindOf(s[0]))
  }

  function ArrayHead(s: Bytes): (r: Read<Option<nat>>)
    ensures r.Got? ==> |r.rest| < |s|
  {
    match Head(s)
    case Got(ItemHead(major, argument), rest) => if major == 4 then Got(argument, rest) else Bad
    case Bad => Bad
  }

  function MapHead(s: Bytes): (r: Read<Option<nat>>)
    ensures r.Got? ==> |r.rest| < |s|
  {
    match Head(s)
    case Got(ItemHead(major, argument), rest) => if major == 5 then Got(argument, rest) else Bad
    case Bad => Bad
  }

  function TagHead(s: Bytes): (r: Read<nat>)
    ensures r.Got? ==> |r.rest| < |s|
  {
    match Head(s)
    case Got(ItemHead(major, Some(n)), rest) => if major == 6 then Got(n, rest) else Bad
    case _ => Bad
  }

  /** An unsigned integer below the bound of its type. */
  function UInt(s: Bytes, bound: nat): (r: Read<nat>)
    ensures r.Got? ==> r.value < bound && |r.rest| < |s|
  {
    match Head(s)
    case Got(ItemHead(major, Some(n)), rest) => if major == 0 && n < bound then Got(n, rest) else Bad
    case _ => Bad
  }

  /** A definite-length byte string. */
  function ByteString(s: Bytes): (r: Read<Bytes>)
    ensures r.Got? ==> |r.rest| < |s|
  {
    match Head(s)
    case Got(ItemHead(major, Some(n)), rest) => if major == 2 && n <= |rest| then Got(rest[..n], rest[n..]) else Bad
    case _ => Bad
  }

  function Bool(s: Bytes): (r: Read<bool>)
    ensures r.Got? ==> |r.rest| < |s|
  {
    if s != [] && (s[0] == 0xf4 || s[0] == 0xf5) then Got(s[0] == 0xf5, s[1..]) else Bad
  }

  function Null(s: Bytes): (r: Read<()>)
    ensures r.Got? ==> |r.rest| < |s|
  {
    if s != [] && s[0] == 0xf6 then Got((), s[1..]) else Bad
  }

  /** One item of any kind, or a break, as its bytes. */
  function Skip(s: Bytes): (r: Read<Bytes>)
    ensures r.Got? ==> |r.rest| < |s|
  {
    if s != [] && s[0] == BREAK then Got([BREAK], s[1..])
    else match Item(s) case Some(rest) => Got(Taken(s, rest), rest) case None => Bad
  }

  // ---------------------------------------------------------------------------
  // Typed reads consume items
  // ---------------------------------------------------------------------------

  lemma UIntIsItem(s: Bytes, bound: nat)
    requires UInt(s, bound).Got?
    ensures Item(s) == Some(UInt(s, bound).rest)
  {
  }

  lemma ByteStringIsItem(s: Bytes)
    requires ByteString(s).Got?
    ensures Item(s) == Some(ByteString(s).rest)
  {
  }

  lemma ByteStringSuffix(s: Bytes)
    requires ByteString(s).Got?
    ensures IsSuffix(ByteString(s).rest, s)
  {
    hide Item, BigEndian;
    HeadIsLocal(s, []);
    var rest := Head(s).rest;
    assert IsSuffix(ByteString(s).rest, rest);
    SuffixTransitive(ByteString(s).rest, rest, s);
  }

  lemma SkipOfItem(s: Bytes)
    requires Item(s).Some?
    ensures Skip(s) == Got(Taken(s, Item(s).value), Item(s).value)
  {
  }

  /** An item in front of anything is skipped whole. */
  lemma SkipThen(x: Bytes, t: Bytes)
    requires IsItem(x)
    ensures Skip(x + t) == Got(x, t)
  {
    ItemThen(x, t);
    SkipOfItem(x + t);
    assert Taken(x + t, t) == x;
  }

  /** A fixed number of items after the head of an array of that many, or before a break, are one item. */
  lemma ArrayIsItem(s: Bytes, count: nat, last: Bytes)
    requires ArrayHead(s).Got?
    requires match ArrayHead(s).value
             case Some(n) => n == count && Items(ArrayHead(s).rest, count) == Some(last)
             case None => UntilBreak(ArrayHead(s).rest, 1) == Some(last)
    ensures Item(s) == Some(last)
  {
  }

  // ---------------------------------------------------------------------------
  // Writes
  // ---------------------------------------------------------------------------

  /** Big-endian, in `size` bytes. */
  function BigEndianOf(n: nat, size: nat): (r: Bytes)
    ensures |r| == size
  {
    if size == 0 then [] else BigEndianOf(n / 256, size - 1) + [n % 256]
  }

  function Power256(k: nat): (p: nat)
    ensures p > 0
  {
    if k == 0 then 1 else 256 * Power256(k - 1)
  }

  lemma {:induction false} BigEndianReads(n: nat, size: nat)
    requires n < Power256(size)
    ensures BigEndian(BigEndianOf(n, size)) == n
  {
    if size > 0 {
      BigEndianReads(n / 256, size - 1);
      assert BigEndianOf(n, size)[..size - 1] == BigEndianOf(n / 256, size - 1);
    }
  }

  /** The shortest head for the argument. */
  function EncodeHead(major: nat, n: nat): Bytes
    requires major < 8 && n < U64
  {
    if n < 24 then [major * 32 + n]
    else if n < 0x100 then [major * 32 + 24] + BigEndianOf(n, 1)
    else if n < 0x1_0000 then [major * 32 + 25] + BigEndianOf(n, 2)
    else if n < U32 then [major * 32 + 26] + BigEndianOf(n, 4)
    else [major * 32 + 27] + BigEndianOf(n, 8)
  }

  lemma EncodedHeadReads(major: nat, n: nat, t: Bytes)
    requires major < 8 && n < U64
    ensures Head(EncodeHead(major, n) + t) == Got(ItemHead(major, Some(n)), t)
  {
    PowersOf256();
    if n < 24 {
      ShortHeadReads(major, n, t);
    } else if n < 0x100 {
      LongHeadReads(major, 24, n, t);
    } else if n < 0x1_0000 {
      LongHeadReads(major, 25, n, t);
    } else if n < U32 {
      LongHeadReads(major, 26, n, t);
    } else {
      LongHeadReads(major, 27, n, t);
    }
  }

  lemma ShortHeadReads(major: nat, n: nat, t: Bytes)
    requires major < 8 && n < 24
    ensures Head([major * 32 + n] + t) == Got(ItemHead(major, Some(n)), t)
  {
    var s := [major * 32 + n] + t;
    assert s[0] / 32 == major && s[0] % 32 == n;
    assert s[1..] == t;
  }

  lemma LongHeadReads(major: nat, info: nat, n: nat, t: Bytes)
    requires major < 8 && 24 <= info <= 27 && n < Power256(ArgumentSize(info))
    ensures Head([major * 32 + info] + BigEndianOf(n, ArgumentSize(info)) + t) == Got(ItemHead(major, Some(n)), t)
  {
    var size := ArgumentSize(info);
    var s := [major * 32 + info] + BigEndianOf(n, size) + t;
    assert s[0] / 32 == major && s[0] % 32 == info;
    assert s[1..1 + size] == BigEndianOf(n, size);
    assert s[1 + size..] == t;
    BigEndianReads(n, size);
  }

  lemma PowersOf256()
    ensures Power256(1) == 0x100 && Power256(2) == 0x1_0000 && Power256(4) == U32 && Power256(8) == U64
  {
    assert Power256(3) == 0x100_0000;
    assert Power256(5) == 0x100_0000_0000;
    assert Power256(6) == 0x1_0000_0000_0000;
    assert Power256(7) == 0x100_0000_0000_0000;
  }

  function EncodeUInt(n: nat): Bytes
    requires n < U64
  {
    EncodeHead(0, n)
  }

  function EncodeBytes(b: Bytes): Bytes
    requires |b| < U64
  {
    EncodeHead(2, |b|) + b
  }

  function EncodeArray(n: nat): Bytes
    requires n < U64
  {
    EncodeHead(4, n)
  }

  function EncodeMap(n: nat): Bytes
    requires n < U64
  {
    EncodeHead(5, n)
  }

  function EncodeTag(n: nat): Bytes
    requires n < U64
  {
    EncodeHead(6, n)
  }

  function EncodeBool(b: bool): Bytes {
    if b then [0xf5] else [0xf4]
  }

  const NULL: Bytes := [0xf6]

  // ---------------------------------------------------------------------------
  // What is written reads back, in front of anything
  // ---------------------------------------------------------------------------

  lemma UIntReads(n: nat, bound: nat, t: Bytes)
    requires n < bound <= U64
    ensures UInt(EncodeUInt(n) + t, bound) == Got(n, t)
  {
    EncodedHeadReads(0, n, t);
  }

  lemma BytesRead(b: Bytes, t: Bytes)
    requires |b| < U64
    ensures ByteString(EncodeBytes(b) + t) == Got(b, t)
  {
    assert EncodeBytes(b) + t == EncodeHead(2, |b|) + (b + t);
    EncodedHeadReads(2, |b|, b + t);
  }

  lemma ArrayReads(n: nat, t: Bytes)
    requires n < U64
    ensures ArrayHead(EncodeArray(n) + t) == Got(Some(n), t)
  {
    EncodedHeadReads(4, n, t);
  }

  lemma MapReads(n: nat, t: Bytes)
    requires n < U64
    ensures MapHead(EncodeMap(n) + t) == Got(Some(n), t)
  {
    EncodedHeadReads(5, n, t);
  }

  lemma TagReads(n: nat, t: Bytes)
    requires n < U64
    ensures TagHead(EncodeTag(n) + t) == Got(n, t)
  {
    EncodedHeadReads(6, n, t);
  }

  lemma BoolReads(b: bool, t: Bytes)
    ensures Bool(EncodeBool(b) + t) == Got(b, t) && Peek(EncodeBool(b) + t) == Some(BoolKind)
  {
    assert (EncodeBool(b) + t)[1..] == t;
  }

  lemma NullReads(t: Bytes)
    ensures Null(NULL + t) == Got((), t) && Peek(NULL + t) == Some(NullKind) && Item(NULL + t) == Some(t)
  {
    assert (NULL + t)[1..] == t;
  }
}
