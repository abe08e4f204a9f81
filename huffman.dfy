/**
 * The Huffman tree of util.h and the walks over it that the code table and
 * the decoder share.
 */
module Huffman {

  /** The end-of-stream symbol, taken as 256; the header that defines it is not part of this model. */
  const PSEUDO_EOF: int := 256
  /** The `character` of every internal node, taken as 257; the header that defines it is not part of this model. */
  const NOT_A_CHAR: int := 257

  /** One input character, taken as an unsigned byte. */
  type Byte = x: int | 0 <= x < 256

  datatype Option<T> = None | Some(value: T)

  /**
   * A `HuffmanNode`. A leaf has two null children; an internal node has two
   * children and holds NOT_A_CHAR as its character, so the datatype does not
   * store it.
   */
  datatype Tree =
    | Leaf(sym: int, count: int)
    | Internal(count: int, zero: Tree, one: Tree)

  /** The `character` field of a node. */
  function Character(t: Tree): int {
    if t.Leaf? then t.sym else NOT_A_CHAR
  }

  /** The symbols of the leaves, left (zero) to right (one). */
  function Symbols(t: Tree): (r: seq<int>)
    ensures |r| >= 1
    ensures t.Internal? ==> |r| >= 2
  {
    match t
    case Leaf(s, _) => [s]
    case Internal(_, z, o) => Symbols(z) + Symbols(o)
  }

  /** Every internal node's count is the sum of its children's counts. */
  predicate WellWeighted(t: Tree) {
    match t
    case Leaf(_, _) => true
    case Internal(c, z, o) => c == z.count + o.count && WellWeighted(z) && WellWeighted(o)
  }

  /**
   * The node the decoder moves to on reading `bit`: `zero` for 0, `one` for
   * any other value; None stands for the null child of a leaf.
   */
  function Child(t: Tree, bit: int): Option<Tree> {
    match t
    case Leaf(_, _) => None
    case Internal(_, z, o) => Some(if bit == 0 then z else o)
  }

  /**
   * The node at the end of `path` from `t`, where '0' steps to the zero child
   * and '1' to the one child; None when the path leaves the tree or holds any
   * other character.
   */
  function Follow(t: Tree, path: string): Option<Tree>
    decreases |path|
  {
    if path == [] then Some(t)
    else match t
      case Leaf(_, _) => None
      case Internal(_, z, o) =>
        if path[0] == '0' then Follow(z, path[1..])
        else if path[0] == '1' then Follow(o, path[1..])
        else None
  }

  /** `path` leads from `t` to a leaf whose symbol is `k`. */
  predicate LeadsTo(t: Tree, path: string, k: int) {
    var n := Follow(t, path);
    n.Some? && n.value.Leaf? && n.value.sym == k
  }

  /** Following `p + r` is following `p` and then `r` from where `p` ends. */
  lemma {:induction false} FollowAppend(t: Tree, p: string, r: string)
    ensures Follow(t, p + r) == if Follow(t, p).Some? then Follow(Follow(t, p).value, r) else None
    decreases |p|
  {
    if p != [] {
      assert (p + r)[0] == p[0] && (p + r)[1..] == p[1..] + r;
      match t
      case Leaf(_, _) =>
      case Internal(_, z, o) =>
        if p[0] == '0' { FollowAppend(z, p[1..], r); }
        else if p[0] == '1' { FollowAppend(o, p[1..], r); }
    } else {
      assert p + r == r;
    }
  }

  /** No path continues past a leaf: a leaf's path is never a proper prefix of another path. */
  lemma LeafEndsPath(t: Tree, p: string, r: string)
    requires Follow(t, p).Some? && Follow(t, p).value.Leaf?
    requires r != []
    ensures Follow(t, p + r) == None
  {
    FollowAppend(t, p, r);
  }
}
