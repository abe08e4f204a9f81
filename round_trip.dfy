/**
 * The promise of `decompress` (util.h:293): it reverses what `compress` did.
 * `compress` writes the frequency map as the header and then the encoded
 * bits; `decompress` reads the same map back, rebuilds the same tree with
 * `buildEncodingTree` and decodes the bits that follow.
 */
module RoundTrip {
  import opened Huffman
  import opened Frequency
  import opened TreeBuilder
  import opened CodeTable
  import opened Codec

  /** The tree both `compress` and `decompress` build from the frequency map of `s`. */
  function FrequencyTree(s: seq<Byte>): Tree {
    var m := Tally(map[], s);
    assert PSEUDO_EOF in m;
    HuffmanTree(m)
  }

  /**
   * For a tree with at least two leaves that holds PSEUDO_EOF and every
   * symbol of `s`, decoding the encoding of `s` with the tree's code table,
   * followed by any padding bits, gives back `s`.
   */
  lemma DecodeEncode(t: Tree, s: seq<Byte>, padding: seq<int>)
    requires t.Internal?
    requires PSEUDO_EOF in Symbols(t)
    requires forall i :: 0 <= i < |s| ==> s[i] in Symbols(t)
    ensures Decoded(t, Bits(EncodedString(s, BuildEncodingMap(t))) + padding) == s
  {
    var codes := BuildEncodingMap(t);
    assert forall i :: 0 <= i < |s| ==> s[i] in Coded(t);
    assert PSEUDO_EOF in Coded(t);
    DecodeEncodedString(t, codes, s, padding);
  }

  /** A map with two distinct keys has at least two entries. */
  lemma TwoKeys(m: map<int, int>, a: int, b: int)
    requires a in m && b in m && a != b
    ensures |m| >= 2
  {
    var rest := m.Keys - {a, b};
    assert m.Keys == {a, b} + rest;
    assert {a, b} !! rest;
    assert |{a, b}| == 2;
  }

  /**
   * The frequency tree of a non-empty input has at least two leaves, and
   * PSEUDO_EOF and every input symbol are among them.
   */
  lemma FrequencyTreeLeaves(s: seq<Byte>)
    requires s != []
    ensures FrequencyTree(s).Internal?
    ensures PSEUDO_EOF in Symbols(FrequencyTree(s))
    ensures forall i :: 0 <= i < |s| ==> s[i] in Symbols(FrequencyTree(s))
  {
    var m := Tally(map[], s);
    var t := FrequencyTree(s);
    HuffmanTreeKeys(m);
    HuffmanTreeLeafIffOneKey(m);
    assert s[0] in Elements(s);
    TwoKeys(m, s[0], PSEUDO_EOF);
    forall i | 0 <= i < |s|
      ensures s[i] in Symbols(t)
    {
      assert s[i] in Elements(s);
    }
  }

  /**
   * The frequency tree of the empty input is the lone PSEUDO_EOF leaf, which
   * has no code, so the empty input encodes to no bits.
   */
  lemma FrequencyTreeOfEmpty()
    ensures FrequencyTree([]) == Leaf(PSEUDO_EOF, 1)
    ensures BuildEncodingMap(FrequencyTree([])) == map[]
    ensures EncodedString([], BuildEncodingMap(FrequencyTree([]))) == ""
  {
    var m := Tally(map[], []);
    TallyFromEmpty([]);
    assert m.Keys == {PSEUDO_EOF};
    HuffmanTreeLeafIffOneKey(m);
  }

  /**
   * Compressing `s` and decompressing the result gives back `s`, whatever
   * bits follow the encoding in the last byte of the file.
   */
  lemma DecompressReversesCompress(s: seq<Byte>, padding: seq<int>)
    ensures var t := FrequencyTree(s);
      Decoded(t, Bits(EncodedString(s, BuildEncodingMap(t))) + padding) == s
  {
    var t := FrequencyTree(s);
    if s == [] {
      FrequencyTreeOfEmpty();
      assert Bits(EncodedString(s, BuildEncodingMap(t))) + padding == padding;
    } else {
      FrequencyTreeLeaves(s);
      DecodeEncode(t, s, padding);
    }
  }

  // ---- the root's count ----

  /** The root of the frequency tree of `s` counts every input character once, plus one for PSEUDO_EOF. */
  lemma RootCountIsLength(s: seq<Byte>)
    ensures FrequencyTree(s).count == |s| + 1
  {
    var m := Tally(map[], s);
    var ks := SortedKeys(m.Keys);
    HuffmanTreeShape(m);
    SortedKeysOnce(m.Keys);
    TallyTotal(s, ks);
  }
}
