/**
 * `buildEncodingTree` (util.h:107-137): one leaf per map key pushed into a
 * min-priority queue on count (the `compare` functor, util.h:38-45), then the
 * two lowest nodes merged until one root remains.
 *
 * The queue is a sequence. `std::priority_queue` leaves the order of equal
 * counts open; this model fixes it: the leaves are pushed in ascending symbol
 * order, merged nodes go to the back, and a pop takes the leftmost node of
 * least count, so equal counts leave in arrival order.
 */
module TreeBuilder {
  import opened Huffman
  import opened Frequency

  /** A set that is not empty has an element. */
  lemma HasElement(s: set<int>)
    requires s != {}
    ensures exists x :: x in s
  {
    if forall x :: x !in s {
      assert false;
    }
  }

  /** The least element of a non-empty set, found by removing one element at a time. */
  lemma {:induction false} LeastOf(s: set<int>) returns (x: int)
    requires s != {}
    ensures x in s && forall y :: y in s ==> x <= y
  {
    HasElement(s);
    var e :| e in s;
    var rest := s - {e};
    if rest == {} {
      x := e;
      forall y | y in s ensures x <= y { assert y !in rest; }
    } else {
      var m := LeastOf(rest);
      x := if e < m then e else m;
      forall y | y in s ensures x <= y { if y != e { assert y in rest; } }
    }
  }

  lemma LeastExists(s: set<int>)
    requires s != {}
    ensures exists x :: x in s && forall y :: y in s ==> x <= y
  {
    var w := LeastOf(s);
  }

  /** The smallest element of a non-empty set. */
  function Least(s: set<int>): (x: int)
    requires s != {}
    ensures x in s && forall y :: y in s ==> x <= y
  {
    LeastExists(s);
    var x :| x in s && forall y :: y in s ==> x <= y; x
  }

  /** The elements of `s` in ascending order: the order the leaves are pushed in. */
  function SortedKeys(s: set<int>): (r: seq<int>)
    ensures |r| == |s|
    ensures forall k :: k in r <==> k in s
    decreases s
  {
    if s == {} then []
    else
      var k := Least(s);
      [k] + SortedKeys(s - {k})
  }

  /** A key below all of an ascending sequence can be put in front of it. */
  lemma AscendingCons(k: int, rest: seq<int>)
    requires forall i :: 0 <= i < |rest| ==> k < rest[i]
    requires forall i, j :: 0 <= i < j < |rest| ==> rest[i] < rest[j]
    ensures forall i, j :: 0 <= i < j < |[k] + rest| ==> ([k] + rest)[i] < ([k] + rest)[j]
  {
  }

  /** The keys come in strictly ascending order. */
  lemma {:induction false} SortedKeysAscending(s: set<int>)
    ensures forall i, j :: 0 <= i < j < |SortedKeys(s)| ==> SortedKeys(s)[i] < SortedKeys(s)[j]
    decreases s
  {
    if s != {} {
      var k := Least(s);
      var rest := SortedKeys(s - {k});
      SortedKeysAscending(s - {k});
      forall i | 0 <= i < |rest| ensures k < rest[i] {
        assert rest[i] in s - {k};
      }
      AscendingCons(k, rest);
      assert [k] + rest == SortedKeys(s);
    }
  }

  /** Each key comes exactly once. */
  lemma {:induction false} SortedKeysOnce(s: set<int>)
    ensures multiset(SortedKeys(s)) == multiset(s)
    decreases s
  {
    if s != {} {
      var k := Least(s);
      SortedKeysOnce(s - {k});
      assert s == {k} + (s - {k});
      assert multiset(s) == multiset{k} + multiset(s - {k});
      assert SortedKeys(s) == [k] + SortedKeys(s - {k});
    }
  }

  /** A leaf for each key of `ks`, in order, carrying its count in `m`. */
  function LeafQueue(m: map<int, int>, ks: seq<int>): seq<Tree>
    requires forall i :: 0 <= i < |ks| ==> ks[i] in m
  {
    if ks == [] then [] else [Leaf(ks[0], m[ks[0]])] + LeafQueue(m, ks[1..])
  }

  lemma {:induction false} LeafQueueSnoc(m: map<int, int>, ks: seq<int>, k: int)
    requires forall i :: 0 <= i < |ks| ==> ks[i] in m
    requires k in m
    ensures LeafQueue(m, ks + [k]) == LeafQueue(m, ks) + [Leaf(k, m[k])]
  {
    if ks == [] {
      assert ks + [k] == [k];
    } else {
      assert (ks + [k])[1..] == ks[1..] + [k];
      LeafQueueSnoc(m, ks[1..], k);
    }
  }

  /** The index of the node `top()` returns. */
  function MinIndex(q: seq<Tree>): (i: nat)
    requires |q| > 0
    ensures i < |q|
  {
    if |q| == 1 then 0
    else
      var k := 1 + MinIndex(q[1..]);
      if q[0].count <= q[k].count then 0 else k
  }

  /** `top()` is a node of least count, and the leftmost of those. */
  lemma {:induction false} MinIndexIsLeast(q: seq<Tree>)
    requires |q| > 0
    ensures forall j :: 0 <= j < |q| ==> q[MinIndex(q)].count <= q[j].count
    ensures forall j :: 0 <= j < MinIndex(q) ==> q[j].count > q[MinIndex(q)].count
  {
    if |q| > 1 {
      MinIndexIsLeast(q[1..]);
      var k := 1 + MinIndex(q[1..]);
      assert forall j :: 1 <= j < |q| ==> q[j] == q[1..][j - 1];
    }
  }

  /** `pop()` of the node at index `i`. */
  function RemoveAt(q: seq<Tree>, i: nat): (r: seq<Tree>)
    requires i < |q|
    ensures |r| == |q| - 1
  {
    q[..i] + q[i + 1..]
  }

  /** Popping one node leaves the others: the queue as a multiset loses exactly `q[i]`. */
  lemma RemoveAtFacts(q: seq<Tree>, i: nat)
    requires i < |q|
    ensures multiset(RemoveAt(q, i)) + multiset{q[i]} == multiset(q)
    ensures forall t :: t in RemoveAt(q, i) ==> t in q
  {
    assert q == q[..i] + [q[i]] + q[i + 1..];
  }

  /** The node allocated for two popped nodes (util.h:127-131). */
  function Merge(first: Tree, second: Tree): Tree {
    Internal(first.count + second.count, first, second)
  }

  /** One iteration of the merge loop (util.h:121-134): pop, pop, merge, push. */
  function Step(q: seq<Tree>): (r: seq<Tree>)
    requires |q| >= 2
    ensures |r| == |q| - 1
  {
    var i := MinIndex(q);
    var first := q[i];
    var q1 := RemoveAt(q, i);
    var j := MinIndex(q1);
    var second := q1[j];
    RemoveAt(q1, j) + [Merge(first, second)]
  }

  /**
   * The greedy choice: the two nodes popped are of least count, the first no
   * larger than the second and the second no larger than any node left; the
   * first becomes `zero`, the second `one`, the merged node is pushed last,
   * and the queue loses exactly one node.
   */
  lemma StepIsGreedy(q: seq<Tree>)
    requires |q| >= 2
    ensures var r := Step(q);
      && |r| == |q| - 1
      && r[|r| - 1].Internal?
      && r[|r| - 1].count == r[|r| - 1].zero.count + r[|r| - 1].one.count
      && r[|r| - 1].zero.count <= r[|r| - 1].one.count
      && (forall t :: t in r[..|r| - 1] ==> r[|r| - 1].one.count <= t.count)
      && multiset(r[..|r| - 1]) + multiset{r[|r| - 1].zero, r[|r| - 1].one} == multiset(q)
  {
    var i := MinIndex(q);
    var first := q[i];
    var q1 := RemoveAt(q, i);
    var j := MinIndex(q1);
    var second := q1[j];
    var q2 := RemoveAt(q1, j);
    MinIndexIsLeast(q);
    MinIndexIsLeast(q1);
    RemoveAtFacts(q, i);
    RemoveAtFacts(q1, j);
    assert second in q;
    forall t | t in q2 ensures second.count <= t.count {
      var k :| 0 <= k < |q1| && q1[k] == t;
    }
    var r := q2 + [Merge(first, second)];
    assert r == Step(q);
    assert r[..|r| - 1] == q2;
  }

  /** The root left when the merge loop ends. */
  function Combine(q: seq<Tree>): Tree
    requires |q| >= 1
    decreases |q|
  {
    if |q| == 1 then q[0] else Combine(Step(q))
  }

  /** The tree `buildEncodingTree` returns for a non-empty map. */
  function HuffmanTree(m: map<int, int>): Tree
    requires m != map[]
  {
    var ks := SortedKeys(m.Keys);
    assert |ks| >= 1;
    Combine(LeafQueue(m, ks))
  }

  /** The queue after `n` iterations of the merge loop. */
  function Merges(q: seq<Tree>, n: nat): seq<Tree>
    requires n < |q|
    decreases n
  {
    if n == 0 then q else Merges(Step(q), n - 1)
  }

  /**
   * Every iteration removes one node, so `n` iterations leave `|q| - n` nodes
   * and the merge loop stops after exactly `|q| - 1` merges with the root as
   * the only node.
   */
  lemma {:induction false} MergeLoopLength(q: seq<Tree>, n: nat)
    requires n < |q|
    ensures |Merges(q, n)| == |q| - n
    ensures n == |q| - 1 ==> Merges(q, n) == [Combine(q)]
    decreases n
  {
    if n > 0 {
      var next := Step(q);
      assert Merges(q, n) == Merges(next, n - 1);
      MergeLoopLength(next, n - 1);
      if n == |q| - 1 {
        CombineStep(q);
      }
    } else if |q| == 1 {
      assert q == [q[0]];
    }
  }

  lemma CombineStep(q: seq<Tree>)
    requires |q| >= 2
    ensures Combine(q) == Combine(Step(q))
  {
  }

  /**
   * `buildEncodingTree`: the leaves are pushed, then while more than one node
   * is queued the two of least count are popped and merged.
   */
  method BuildEncodingTree(m: map<int, int>) returns (root: Tree)
    requires m != map[]
    ensures root == HuffmanTree(m)
  {
    var keys := SortedKeys(m.Keys);
    var q: seq<Tree> := [];
    for i := 0 to |keys|
      invariant q == LeafQueue(m, keys[..i])
    {
      LeafQueueSnoc(m, keys[..i], keys[i]);
      assert keys[..i + 1] == keys[..i] + [keys[i]];
      q := q + [Leaf(keys[i], m[keys[i]])];
    }
    assert keys[..|keys|] == keys;
    while |q| > 1
      invariant 1 <= |q|
      invariant Combine(q) == HuffmanTree(m)
      decreases |q|
    {
      ghost var before := q;
      var i := MinIndex(q);
      var first := q[i];
      q := RemoveAt(q, i);
      var j := MinIndex(q);
      var second := q[j];
      q := RemoveAt(q, j);
      q := q + [Merge(first, second)];
      assert q == Step(before);
    }
    root := q[0];
  }

  // ---- what the merge loop preserves ----

  /** The symbols of all queued trees, with multiplicity. */
  function SymbolBag(q: seq<Tree>): multiset<int> {
    if q == [] then multiset{} else multiset(Symbols(q[0])) + SymbolBag(q[1..])
  }

  /** The sum of the counts of the queued nodes. */
  function Total(q: seq<Tree>): int {
    if q == [] then 0 else q[0].count + Total(q[1..])
  }

  /** Every leaf of `t` is a key of `m` and carries that key's count. */
  predicate FromMap(t: Tree, m: map<int, int>) {
    match t
    case Leaf(s, c) => s in m && m[s] == c
    case Internal(_, z, o) => FromMap(z, m) && FromMap(o, m)
  }

  /** The sum of the counts in `m`, over its keys in ascending order. */
  function MapTotal(m: map<int, int>): int {
    SumCounts(m, SortedKeys(m.Keys))
  }

  lemma {:induction false} BagAppend(a: seq<Tree>, b: seq<Tree>)
    ensures SymbolBag(a + b) == SymbolBag(a) + SymbolBag(b)
    ensures Total(a + b) == Total(a) + Total(b)
  {
    if a == [] {
      assert a + b == b;
    } else {
      assert (a + b)[1..] == a[1..] + b;
      BagAppend(a[1..], b);
    }
  }

  lemma BagSingle(t: Tree)
    ensures SymbolBag([t]) == multiset(Symbols(t))
    ensures Total([t]) == t.count
  {
    assert [t][1..] == [];
  }

  lemma Regroup(h: multiset<int>, r: multiset<int>, t: multiset<int>)
    ensures (h + r) + t == h + (r + t)
  {
  }

  /** Putting back two bags taken out in turn, and their union pushed. */
  lemma TwoOut(b: multiset<int>, f: multiset<int>, s: multiset<int>)
    ensures (b + s) + f == b + (f + s)
  {
  }

  lemma {:induction false} BagRemove(q: seq<Tree>, i: nat)
    requires i < |q|
    ensures SymbolBag(RemoveAt(q, i)) + multiset(Symbols(q[i])) == SymbolBag(q)
    ensures Total(RemoveAt(q, i)) + q[i].count == Total(q)
    decreases i
  {
    if i == 0 {
      assert RemoveAt(q, 0) == q[1..];
    } else {
      var r := RemoveAt(q, i);
      var r1 := RemoveAt(q[1..], i - 1);
      assert r == [q[0]] + r1;
      assert r[0] == q[0] && r[1..] == r1;
      assert q[1..][i - 1] == q[i];
      BagRemove(q[1..], i - 1);
      Regroup(multiset(Symbols(q[0])), SymbolBag(r1), multiset(Symbols(q[i])));
    }
  }

  /** A merge keeps the queued symbols and the total count. */
  lemma StepKeepsBag(q: seq<Tree>)
    requires |q| >= 2
    ensures SymbolBag(Step(q)) == SymbolBag(q)
    ensures Total(Step(q)) == Total(q)
  {
    var i := MinIndex(q);
    var first := q[i];
    var q1 := RemoveAt(q, i);
    var j := MinIndex(q1);
    var second := q1[j];
    var q2 := RemoveAt(q1, j);
    var n := Merge(first, second);
    assert Step(q) == q2 + [n];
    BagRemove(q, i);
    BagRemove(q1, j);
    BagAppend(q2, [n]);
    BagSingle(n);
    assert multiset(Symbols(n)) == multiset(Symbols(first)) + multiset(Symbols(second));
    TwoOut(SymbolBag(q2), multiset(Symbols(first)), multiset(Symbols(second)));
  }

  /** A merge of well-weighted trees built from `m` is again one. */
  lemma StepKeepsSound(q: seq<Tree>, m: map<int, int>)
    requires |q| >= 2
    requires forall t :: t in q ==> WellWeighted(t) && FromMap(t, m)
    ensures forall t :: t in Step(q) ==> WellWeighted(t) && FromMap(t, m)
  {
    var i := MinIndex(q);
    var first := q[i];
    var q1 := RemoveAt(q, i);
    var j := MinIndex(q1);
    var second := q1[j];
    var q2 := RemoveAt(q1, j);
    var n := Merge(first, second);
    assert Step(q) == q2 + [n];
    RemoveAtFacts(q, i);
    RemoveAtFacts(q1, j);
    assert second in q1;
    forall t | t in Step(q) ensures WellWeighted(t) && FromMap(t, m) {
      if t != n {
        assert t in q2;
      }
    }
  }

  /** The root has the symbols of the whole queue, its total count, and stays well formed. */
  lemma {:induction false} CombinePreserves(q: seq<Tree>, m: map<int, int>)
    requires |q| >= 1
    ensures multiset(Symbols(Combine(q))) == SymbolBag(q)
    ensures Combine(q).count == Total(q)
    ensures (forall t :: t in q ==> WellWeighted(t) && FromMap(t, m)) ==>
              WellWeighted(Combine(q)) && FromMap(Combine(q), m)
    decreases |q|
  {
    if |q| == 1 {
      assert q[1..] == [];
      assert q[0] in q;
    } else {
      StepKeepsBag(q);
      if forall t :: t in q ==> WellWeighted(t) && FromMap(t, m) {
        StepKeepsSound(q, m);
      }
      CombinePreserves(Step(q), m);
    }
  }

  lemma {:induction false} LeafQueueFacts(m: map<int, int>, ks: seq<int>)
    requires forall i :: 0 <= i < |ks| ==> ks[i] in m
    ensures SymbolBag(LeafQueue(m, ks)) == multiset(ks)
    ensures Total(LeafQueue(m, ks)) == SumCounts(m, ks)
    ensures forall t :: t in LeafQueue(m, ks) ==> WellWeighted(t) && FromMap(t, m)
  {
    if ks != [] {
      LeafQueueFacts(m, ks[1..]);
      assert ks == [ks[0]] + ks[1..];
      assert LeafQueue(m, ks)[1..] == LeafQueue(m, ks[1..]);
    }
  }

  /**
   * The shape of the built tree: one leaf per key of `m` and no other leaf,
   * each carrying its key's count; every internal node's count is the sum of
   * its children's; the root's count is the sum of all counts in `m`.
   */
  lemma HuffmanTreeShape(m: map<int, int>)
    requires m != map[]
    ensures multiset(Symbols(HuffmanTree(m))) == multiset(m.Keys)
    ensures FromMap(HuffmanTree(m), m)
    ensures WellWeighted(HuffmanTree(m))
    ensures HuffmanTree(m).count == MapTotal(m)
  {
    var ks := SortedKeys(m.Keys);
    SortedKeysOnce(m.Keys);
    LeafQueueFacts(m, ks);
    CombinePreserves(LeafQueue(m, ks), m);
  }

  /** The root is a lone leaf exactly when the map has one key, and then it is that key's leaf. */
  lemma HuffmanTreeLeafIffOneKey(m: map<int, int>)
    requires m != map[]
    ensures HuffmanTree(m).Leaf? <==> |m| == 1
    ensures forall k :: k in m && |m| == 1 ==> HuffmanTree(m) == Leaf(k, m[k])
  {
    HuffmanTreeShape(m);
    var t := HuffmanTree(m);
    assert |multiset(Symbols(t))| == |Symbols(t)|;
    assert |multiset(m.Keys)| == |m.Keys|;
    if |m| == 1 {
      HasElement(m.Keys);
      var k :| k in m;
      assert m.Keys == {k};
      assert t.Leaf?;
      assert t.sym in multiset(Symbols(t));
    }
  }

  /** Every key of `m` is the symbol of some leaf of the built tree, and every leaf symbol is a key. */
  lemma HuffmanTreeKeys(m: map<int, int>)
    requires m != map[]
    ensures forall k :: k in Symbols(HuffmanTree(m)) <==> k in m
  {
    HuffmanTreeShape(m);
    var t := HuffmanTree(m);
    forall k
      ensures k in Symbols(t) <==> k in m
    {
      assert k in Symbols(t) <==> k in multiset(Symbols(t));
      assert k in m <==> k in multiset(m.Keys);
    }
  }
}
