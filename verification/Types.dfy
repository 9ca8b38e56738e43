/** Plain data shared by the consensus modules. */
module Types {

  datatype Option<+T> = None | Some(value: T) {
    function GetOr(default: T): T {
      match this case Some(v) => v case None => default
    }
  }

  /** A 32-byte digest read as a big-endian number: numeric order and equality
      are the byte array's lexicographic order and equality. */
  type Hash = nat

  /** `[0xFF; 32]`, the greatest digest. */
  const MAX_HASH: Hash :=
    0xFFFF_FFFF_FFFF_FFFF_FFFF_FFFF_FFFF_FFFF_FFFF_FFFF_FFFF_FFFF_FFFF_FFFF_FFFF_FFFF

  type TxId = Hash
  type TxBody = seq<bv8>
  type PeerId = nat

  datatype Point = Origin | Specific(slot: nat, hash: Hash) {
    function SlotOr(default: nat): nat {
      match this case Specific(slot, _) => slot case Origin => default
    }
  }

  datatype EbKey = EbKey(slot: nat, hash: Hash)

  function SaturatingSub(a: nat, b: nat): nat {
    if a >= b then a - b else 0
  }

  function Max(a: nat, b: nat): nat {
    if a >= b then a else b
  }

  function Min(a: nat, b: nat): nat {
    if a <= b then a else b
  }

  function Elements<T>(s: seq<T>): set<T> {
    set x | x in s
  }

  ghost predicate Distinct<T>(s: seq<T>) {
    forall i, j :: 0 <= i < j < |s| ==> s[i] != s[j]
  }
}
