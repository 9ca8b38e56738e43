/** A decoder: a cursor over an input, advanced by typed reads. */
module CborDecoder {
  import opened Types
  import opened Cbor
  import opened CborTokens

  class Decoder {
    const input: Bytes
    var position: nat

    ghost predicate Valid()
      reads this
    {
      position <= |input|
    }

    /** What is still to be read. */
    function Rest(): Bytes
      requires Valid()
      reads this
    {
      input[position..]
    }

    /** The outcome of a read, and where it leaves the cursor; a failed read may leave it anywhere. */
    ghost predicate Reads<T>(spec: Read<T>, r: Option<T>)
      reads this
    {
      && Valid()
      && (spec.Got? ==> r == Some(spec.value) && Rest() == spec.rest)
      && (spec.Bad? ==> r.None?)
    }

    constructor (input: Bytes)
      ensures Valid() && this.input == input && position == 0 && Rest() == input
    {
      this.input := input;
      position := 0;
    }

    /** Moves the cursor so that `rest` is what remains. */
    method Advance(rest: Bytes)
      requires Valid() && IsSuffix(rest, Rest())
      modifies this
      ensures Valid() && Rest() == rest
    {
      position := |input| - |rest|;
    }

    method Datatype() returns (kind: Option<Kind>)
      requires Valid()
      ensures kind == Peek(Rest())
    {
      if position == |input| {
        return None;
      }
      return Some(KindOf(input[position]));
    }

    method Array() returns (r: Option<Option<nat>>)
      requires Valid()
      modifies this
      ensures Reads(old(ArrayHead(Rest())), r)
    {
      match ArrayHead(Rest())
      case Got(value, rest) =>
        HeadIsLocal(Rest(), []);
        Advance(rest);
        return Some(value);
      case Bad =>
        return None;
    }

    method Map() returns (r: Option<Option<nat>>)
      requires Valid()
      modifies this
      ensures Reads(old(MapHead(Rest())), r)
    {
      match MapHead(Rest())
      case Got(value, rest) =>
        HeadIsLocal(Rest(), []);
        Advance(rest);
        return Some(value);
      case Bad =>
        return None;
    }

    method Tag() returns (r: Option<nat>)
      requires Valid()
      modifies this
      ensures Reads(old(TagHead(Rest())), r)
    {
      match TagHead(Rest())
      case Got(value, rest) =>
        HeadIsLocal(Rest(), []);
        Advance(rest);
        return Some(value);
      case Bad =>
        return None;
    }

    method Unsigned(bound: nat) returns (r: Option<nat>)
      requires Valid()
      modifies this
      ensures Reads(old(UInt(Rest(), bound)), r)
    {
      match UInt(Rest(), bound)
      case Got(value, rest) =>
        HeadIsLocal(Rest(), []);
        Advance(rest);
        return Some(value);
      case Bad =>
        return None;
    }

    method ReadBytes() returns (r: Option<Bytes>)
      requires Valid()
      modifies this
      ensures Reads(old(ByteString(Rest())), r)
    {
      hide ByteString;
      match ByteString(Rest())
      case Got(value, rest) =>
        ByteStringSuffix(Rest());
        Advance(rest);
        return Some(value);
      case Bad =>
        return None;
    }

    method ReadBool() returns (r: Option<bool>)
      requires Valid()
      modifies this
      ensures Reads(old(Bool(Rest())), r)
    {
      match Bool(Rest())
      case Got(value, rest) =>
        Advance(rest);
        return Some(value);
      case Bad =>
        return None;
    }

    method ReadNull() returns (r: Option<()>)
      requires Valid()
      modifies this
      ensures Reads(old(Null(Rest())), r)
    {
      match Null(Rest())
      case Got(value, rest) =>
        Advance(rest);
        return Some(value);
      case Bad =>
        return None;
    }

    method SkipItem() returns (r: Option<Bytes>)
      requires Valid()
      modifies this
      ensures Reads(old(Skip(Rest())), r)
    {
      match Skip(Rest())
      case Got(value, rest) =>
        if Rest()[0] != BREAK {
          ItemIsLocal(Rest(), rest, []);
        }
        Advance(rest);
        return Some(value);
      case Bad =>
        return None;
    }
  }
}
