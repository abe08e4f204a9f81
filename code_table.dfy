/**
 * `_buildEncodingMap` / `buildEncodingMap` (util.h:142-168): a depth-first
 * walk that records, for each leaf below an internal node, the path taken to
 * it ('0' for a step to `zero`, '1' for a step to `one`).
 */
module CodeTable {
  import opened Huffman

  /**
   * `_buildEncodingMap(node, encodingMap, str, prev)`. The zero subtree is
   * walked first with '0' appended; then `node` is recorded when `prev` holds
   * NOT_A_CHAR and `node` does not; then the one subtree is walked with '1'
   * appended. A null child returns at once, and `emplace` leaves a key that
   * is already present untouched.
   */
  function Walk(node: Tree, acc: map<int, string>, path: string, prev: Tree): map<int, string>
    decreases node
  {
    var afterZero := if node.Internal? then Walk(node.zero, acc, path + "0", node) else acc;
    var here :=
      if Character(prev) == NOT_A_CHAR && Character(node) != NOT_A_CHAR && Character(node) !in afterZero
      then afterZero[Character(node) := path]
      else afterZero;
    if node.Internal? then Walk(node.one, here, path + "1", node) else here
  }

  /** The leaf symbols that can receive a code: all but NOT_A_CHAR. */
  function Coded(t: Tree): set<int> {
    set x | x in Symbols(t) && x != NOT_A_CHAR
  }

  /** `emplace` never overwrites: what `acc` held is still there. */
  lemma {:induction false} WalkKeeps(node: Tree, acc: map<int, string>, path: string, prev: Tree)
    ensures forall k :: k in acc ==> k in Walk(node, acc, path, prev) && Walk(node, acc, path, prev)[k] == acc[k]
    decreases node
  {
    if node.Internal? {
      var afterZero := Walk(node.zero, acc, path + "0", node);
      WalkKeeps(node.zero, acc, path + "0", node);
      WalkKeeps(node.one, afterZero, path + "1", node);
    }
  }

  /** Below an internal node every leaf symbol other than NOT_A_CHAR gets a key, and nothing else does. */
  lemma {:induction false} WalkKeys(node: Tree, acc: map<int, string>, path: string, prev: Tree)
    requires Character(prev) == NOT_A_CHAR
    ensures Walk(node, acc, path, prev).Keys == acc.Keys + Coded(node)
    decreases node
  {
    match node
    case Leaf(s, _) =>
      assert Symbols(node) == [s];
    case Internal(_, z, o) =>
      var afterZero := Walk(z, acc, path + "0", node);
      WalkKeys(z, acc, path + "0", node);
      WalkKeys(o, afterZero, path + "1", node);
      assert Coded(node) == Coded(z) + Coded(o);
  }

  /** A path into a child of `node`, with the step to that child in front, is a path from `node`. */
  lemma StepDown(node: Tree, path: string, c: string, k: int)
    requires node.Internal?
    requires (path + "0" <= c && LeadsTo(node.zero, c[|path| + 1..], k))
          || (path + "1" <= c && LeadsTo(node.one, c[|path| + 1..], k))
    ensures path <= c && LeadsTo(node, c[|path|..], k)
  {
    var tail := c[|path|..];
    assert tail[1..] == c[|path| + 1..];
  }

  /** Every key the walk adds maps to `path` followed by the path from `node` to a leaf with that symbol. */
  lemma {:induction false} WalkPaths(node: Tree, acc: map<int, string>, path: string, prev: Tree)
    ensures var r := Walk(node, acc, path, prev);
      forall k :: k in r && k !in acc ==> path <= r[k] && LeadsTo(node, r[k][|path|..], k)
    decreases node
  {
    var r := Walk(node, acc, path, prev);
    match node
    case Leaf(s, _) =>
      forall k | k in r && k !in acc
        ensures path <= r[k] && LeadsTo(node, r[k][|path|..], k)
      {
        assert r[k] == path;
        assert r[k][|path|..] == "";
      }
    case Internal(_, z, o) =>
      var afterZero := Walk(z, acc, path + "0", node);
      WalkPaths(z, acc, path + "0", node);
      WalkPaths(o, afterZero, path + "1", node);
      WalkKeeps(o, afterZero, path + "1", node);
      forall k | k in r && k !in acc
        ensures path <= r[k] && LeadsTo(node, r[k][|path|..], k)
      {
        StepDown(node, path, r[k], k);
      }
  }

  /**
   * `buildEncodingMap`: a lone leaf at the root gets no code at all (its
   * `prev` is itself, not an internal node); otherwise every leaf symbol
   * other than NOT_A_CHAR is a key, no internal node is, and each code is the
   * non-empty root-to-leaf path of its symbol.
   */
  function BuildEncodingMap(tree: Tree): (codes: map<int, string>)
    ensures tree.Leaf? ==> codes == map[]
    ensures tree.Internal? ==> codes.Keys == Coded(tree)
    ensures forall k :: k in codes ==> codes[k] != "" && LeadsTo(tree, codes[k], k)
  {
    WalkPaths(tree, map[], "", tree);
    if tree.Internal? then
      WalkKeys(tree, map[], "", tree);
      Walk(tree, map[], "", tree)
    else
      Walk(tree, map[], "", tree)
  }

  /** No code is a prefix of another symbol's code (equal codes included). */
  lemma EncodingMapPrefixFree(tree: Tree)
    ensures var codes := BuildEncodingMap(tree);
      forall a, b :: a in codes && b in codes && a != b ==> !(codes[a] <= codes[b])
  {
    var codes := BuildEncodingMap(tree);
    forall a, b | a in codes && b in codes && a != b
      ensures !(codes[a] <= codes[b])
    {
      var ca, cb := codes[a], codes[b];
      if ca <= cb {
        var rest := cb[|ca|..];
        assert cb == ca + rest;
        FollowAppend(tree, ca, rest);
        if rest != [] {
          LeafEndsPath(tree, ca, rest);
        }
      }
    }
  }
}
