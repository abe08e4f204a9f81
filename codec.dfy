/**
 * `encode` (util.h:177-208) and `decode` (util.h:216-244). The input file is
 * the sequence of bytes it holds, the output bit stream the sequence of bits
 * written to it, and the compressed input the sequence of bits `readBit`
 * returns before `eof()`.
 */
module Codec {
  import opened Huffman

  /** The bit written for one character of the bit string: 0 for '0', 1 for anything else. */
  function BitOf(c: char): int {
    if c == '0' then 0 else 1
  }

  /** The bits written for a whole bit string, one per character. */
  function Bits(s: string): seq<int> {
    seq(|s|, i requires 0 <= i < |s| => BitOf(s[i]))
  }

  lemma BitsAppend(a: string, b: string)
    ensures Bits(a + b) == Bits(a) + Bits(b)
  {
    assert forall i :: 0 <= i < |a + b| ==> Bits(a + b)[i] == (Bits(a) + Bits(b))[i];
  }

  /** The code of `x`, or nothing when `x` has no entry (the `count` check of the loop). */
  function CodeFor(codes: map<int, string>, x: int): string {
    if x in codes then codes[x] else ""
  }

  /** The codes of the symbols of `s` in order, symbols without a code skipped. */
  function Concat(s: seq<int>, codes: map<int, string>): string {
    if s == [] then "" else CodeFor(codes, s[0]) + Concat(s[1..], codes)
  }

  lemma {:induction false} ConcatSnoc(s: seq<int>, c: int, codes: map<int, string>)
    ensures Concat(s + [c], codes) == Concat(s, codes) + CodeFor(codes, c)
  {
    if s == [] {
      assert s + [c] == [c];
      assert [c][1..] == [];
    } else {
      assert (s + [c])[0] == s[0];
      assert (s + [c])[1..] == s[1..] + [c];
      ConcatSnoc(s[1..], c, codes);
    }
  }

  /** What `encode` returns for the input `s`: its codes, then the PSEUDO_EOF code if there is one. */
  function EncodedString(s: seq<int>, codes: map<int, string>): string {
    Concat(s, codes) + CodeFor(codes, PSEUDO_EOF)
  }

  /**
   * `encode(input, encodingMap, output, size, makeFile)`: with `makeFile`
   * the bit string is the codes of the input characters in order (those
   * without a code skipped) followed by the PSEUDO_EOF code when it has one;
   * one bit is written per character of it, 0 exactly for '0', and `size`
   * grows by its length. Without `makeFile` nothing is read or written and
   * the result is empty.
   */
  method Encode(input: seq<Byte>, codes: map<int, string>, size0: int, makeFile: bool)
    returns (bitString: string, written: seq<int>, size: int)
    ensures bitString == if makeFile then EncodedString(input, codes) else ""
    ensures written == Bits(bitString)
    ensures |written| == |bitString|
    ensures forall i :: 0 <= i < |written| ==> (written[i] == 0 <==> bitString[i] == '0')
    ensures forall i :: 0 <= i < |written| ==> written[i] == 0 || written[i] == 1
    ensures size == size0 + |bitString|
  {
    bitString := "";
    written := [];
    size := size0;
    if makeFile {
      var i := 0;
      while i < |input|
        invariant 0 <= i <= |input|
        invariant bitString == Concat(input[..i], codes)
      {
        var c := input[i];
        ConcatSnoc(input[..i], c, codes);
        assert input[..i + 1] == input[..i] + [c];
        if c in codes {
          bitString := bitString + codes[c];
        }
        i := i + 1;
      }
      assert input[..i] == input;
      if PSEUDO_EOF in codes {
        bitString := bitString + codes[PSEUDO_EOF];
      }
      var j := 0;
      while j < |bitString|
        invariant 0 <= j <= |bitString|
        invariant |written| == j
        invariant forall k :: 0 <= k < j ==> written[k] == BitOf(bitString[k])
        invariant size == size0 + j
      {
        if bitString[j] == '0' {
          written := written + [0];
        } else {
          written := written + [1];
        }
        size := size + 1;
        j := j + 1;
      }
    }
  }

  /** Reaching node `n` makes the decoder put out its character and go back to the root. */
  predicate Emits(n: Tree) {
    Character(n) != NOT_A_CHAR && Character(n) != PSEUDO_EOF
  }

  /**
   * The decoder's output from node `curr` on: each bit moves to a child;
   * a null child stops the walk; a node with a real character puts it out
   * and the walk goes on from `root`.
   */
  function DecodeFrom(root: Tree, curr: Tree, bits: seq<int>): seq<int>
    decreases |bits|
  {
    if bits == [] then []
    else match Child(curr, bits[0])
      case None => []
      case Some(n) =>
        if Emits(n) then [n.sym] + DecodeFrom(root, root, bits[1..])
        else DecodeFrom(root, n, bits[1..])
  }

  /** What `decode` returns for the bits `bits` and the tree `root`. */
  function Decoded(root: Tree, bits: seq<int>): seq<int> {
    DecodeFrom(root, root, bits)
  }

  /**
   * `decode(input, encodingTree, output)`: the loop over the bits with the
   * `curr` pointer, resetting it to the root after each character put out
   * and breaking at the first null child.
   */
  method Decode(bits: seq<int>, root: Tree) returns (decoded: seq<int>)
    ensures decoded == Decoded(root, bits)
  {
    var curr := root;
    decoded := [];
    var i := 0;
    while i < |bits|
      invariant 0 <= i <= |bits|
      invariant decoded + DecodeFrom(root, curr, bits[i..]) == Decoded(root, bits)
    {
      var bit := bits[i];
      var next := Child(curr, bit);
      if next.None? {
        assert DecodeFrom(root, curr, bits[i..]) == [];
        break;
      }
      assert DecodeFrom(root, curr, bits[i..]) ==
        if Emits(next.value) then [next.value.sym] + DecodeFrom(root, root, bits[i + 1..])
        else DecodeFrom(root, next.value, bits[i + 1..]);
      curr := next.value;
      if Emits(curr) {
        decoded := decoded + [curr.sym];
        curr := root;
      }
      i := i + 1;
    }
  }

  /** `n` is `t` or a node below it. */
  predicate SubtreeOf(n: Tree, t: Tree) {
    n == t || (t.Internal? && (SubtreeOf(n, t.zero) || SubtreeOf(n, t.one)))
  }

  /** A leaf below `t` carries one of the symbols of `t`. */
  lemma {:induction false} SubtreeLeaf(n: Tree, t: Tree)
    requires SubtreeOf(n, t) && n.Leaf?
    ensures n.sym in Symbols(t)
  {
    if n != t {
      if SubtreeOf(n, t.zero) {
        SubtreeLeaf(n, t.zero);
      } else {
        SubtreeLeaf(n, t.one);
      }
    }
  }

  lemma {:induction false} ChildSubtree(curr: Tree, root: Tree, bit: int)
    requires SubtreeOf(curr, root)
    requires Child(curr, bit).Some?
    ensures SubtreeOf(Child(curr, bit).value, root)
  {
    if curr != root {
      if SubtreeOf(curr, root.zero) {
        ChildSubtree(curr, root.zero, bit);
      } else {
        ChildSubtree(curr, root.one, bit);
      }
    }
  }

  /**
   * The decoder puts out only leaf characters of the tree, never
   * NOT_A_CHAR and never PSEUDO_EOF, and at most one per bit read.
   */
  lemma {:induction false} DecodeFromEmitsLeaves(root: Tree, curr: Tree, bits: seq<int>)
    requires SubtreeOf(curr, root)
    ensures var out := DecodeFrom(root, curr, bits);
      && |out| <= |bits|
      && forall i :: 0 <= i < |out| ==>
           out[i] in Symbols(root) && out[i] != NOT_A_CHAR && out[i] != PSEUDO_EOF
    decreases |bits|
  {
    if bits != [] {
      var c := Child(curr, bits[0]);
      if c.Some? {
        var n := c.value;
        ChildSubtree(curr, root, bits[0]);
        if Emits(n) {
          DecodeFromEmitsLeaves(root, root, bits[1..]);
          SubtreeLeaf(n, root);
          var out := DecodeFrom(root, curr, bits);
          assert out == [n.sym] + DecodeFrom(root, root, bits[1..]);
        } else {
          DecodeFromEmitsLeaves(root, n, bits[1..]);
        }
      }
    }
  }

  /** `Decoded` in particular. */
  lemma DecodedEmitsLeaves(root: Tree, bits: seq<int>)
    ensures var out := Decoded(root, bits);
      && |out| <= |bits|
      && forall i :: 0 <= i < |out| ==>
           out[i] in Symbols(root) && out[i] != NOT_A_CHAR && out[i] != PSEUDO_EOF
  {
    DecodeFromEmitsLeaves(root, root, bits);
  }

  /**
   * Reading the bits of a path from `curr` to a leaf walks down to that leaf;
   * the nodes passed on the way are internal, so nothing is put out before.
   */
  lemma {:induction false} RunAlongCode(root: Tree, curr: Tree, code: string, rest: seq<int>)
    requires code != []
    requires Follow(curr, code).Some? && Follow(curr, code).value.Leaf?
    ensures var leaf := Follow(curr, code).value;
      DecodeFrom(root, curr, Bits(code) + rest) ==
        if Emits(leaf) then [leaf.sym] + DecodeFrom(root, root, rest) else DecodeFrom(root, leaf, rest)
    decreases |code|
  {
    var bits := Bits(code) + rest;
    assert bits[0] == BitOf(code[0]);
    assert bits[1..] == Bits(code[1..]) + rest;
    var n := if code[0] == '0' then curr.zero else curr.one;
    assert Child(curr, bits[0]) == Some(n);
    assert Follow(curr, code) == Follow(n, code[1..]);
    if code[1..] != [] {
      assert !Emits(n);
      RunAlongCode(root, n, code[1..], rest);
    }
  }

  /** Decoding the codes of `s`, the PSEUDO_EOF code and then any padding bits gives back `s`. */
  lemma {:induction false} DecodeEncodedString(t: Tree, codes: map<int, string>, s: seq<Byte>, padding: seq<int>)
    requires forall k :: k in codes ==> codes[k] != "" && LeadsTo(t, codes[k], k)
    requires forall i :: 0 <= i < |s| ==> s[i] in codes
    requires PSEUDO_EOF in codes
    ensures Decoded(t, Bits(EncodedString(s, codes)) + padding) == s
    decreases |s|
  {
    var eof := codes[PSEUDO_EOF];
    if s == [] {
      assert EncodedString(s, codes) == eof;
      RunAlongCode(t, t, eof, padding);
    } else {
      var c := codes[s[0]];
      var tail := Bits(EncodedString(s[1..], codes)) + padding;
      assert EncodedString(s, codes) == c + EncodedString(s[1..], codes);
      BitsAppend(c, EncodedString(s[1..], codes));
      assert Bits(EncodedString(s, codes)) + padding == Bits(c) + tail;
      RunAlongCode(t, t, c, tail);
      DecodeEncodedString(t, codes, s[1..], padding);
    }
  }
}
