/**
 * `buildFrequencyMap` (util.h:68-102): counting symbol occurrences into a
 * map the caller passes by reference, then adding PSEUDO_EOF.
 */
module Frequency {
  import opened Huffman

  /**
   * Where `buildFrequencyMap` reads from: the string itself (`isFile` false),
   * or a named file (`isFile` true) whose content is None when it cannot be
   * opened.
   */
  datatype Source = Text(text: seq<Byte>) | File(content: Option<seq<Byte>>)

  function Get(m: map<int, int>, k: int): int {
    if k in m then m[k] else 0
  }

  /** The characters of `s`, once each. */
  function Elements(s: seq<int>): set<int> {
    set x | x in s
  }

  /** `m0` with every symbol of `s` counted once more per occurrence. */
  function Counted(m0: map<int, int>, s: seq<int>): map<int, int> {
    map k | k in m0.Keys + Elements(s) :: Get(m0, k) + multiset(s)[k]
  }

  /** The map left by counting `s` into `m0` and then putting PSEUDO_EOF with count 1. */
  function Tally(m0: map<int, int>, s: seq<int>): map<int, int> {
    Counted(m0, s)[PSEUDO_EOF := 1]
  }

  /** Counting one more symbol `c` is the containsKey / get / put step of the loop. */
  lemma CountedSnoc(m0: map<int, int>, s: seq<int>, c: int)
    ensures Counted(m0, s + [c]) ==
      var m := Counted(m0, s); if c in m then m[c := m[c] + 1] else m[c := 1]
  {
    var m := Counted(m0, s);
    var m' := if c in m then m[c := m[c] + 1] else m[c := 1];
    assert multiset(s + [c]) == multiset(s) + multiset{c};
    assert Elements(s + [c]) == Elements(s) + {c};
    assert Counted(m0, s + [c]).Keys == m'.Keys;
    forall k | k in m'
      ensures Counted(m0, s + [c])[k] == m'[k]
    {
    }
  }

  /** `m` holds exactly the counts of `Counted(m0, s)`, stated key by key. */
  ghost predicate CountsOf(m: map<int, int>, m0: map<int, int>, s: seq<int>) {
    && m.Keys == m0.Keys + Elements(s)
    && (forall k :: k in m ==> m[k] == Get(m0, k) + multiset(s)[k])
  }

  lemma CountsOfIsCounted(m: map<int, int>, m0: map<int, int>, s: seq<int>)
    requires CountsOf(m, m0, s)
    ensures m == Counted(m0, s)
  {
    var c := Counted(m0, s);
    assert m.Keys == c.Keys;
    forall k | k in m
      ensures m[k] == c[k]
    {
    }
  }

  /** `Counted` itself holds the counts key by key. */
  lemma CountedIsCountsOf(m0: map<int, int>, s: seq<int>)
    ensures CountsOf(Counted(m0, s), m0, s)
  {
  }

  /** Counting the character at index `i`, key by key: `CountedSnoc` applied to the loop state. */
  lemma CountStep(m: map<int, int>, m0: map<int, int>, s: seq<int>, i: nat)
    requires i < |s| && CountsOf(m, m0, s[..i])
    ensures CountsOf(if s[i] in m then m[s[i] := m[s[i]] + 1] else m[s[i] := 1], m0, s[..i + 1])
  {
    CountsOfIsCounted(m, m0, s[..i]);
    assert s[..i + 1] == s[..i] + [s[i]];
    CountedSnoc(m0, s[..i], s[i]);
    CountedIsCountsOf(m0, s[..i + 1]);
  }

  /** The counting loop shared by the file branch and the string branch. */
  method CountInto(m0: map<int, int>, s: seq<Byte>) returns (m: map<int, int>)
    ensures m == Counted(m0, s)
  {
    m := m0;
    var i := 0;
    assert s[..0] == [];
    while i < |s|
      invariant 0 <= i <= |s|
      invariant CountsOf(m, m0, s[..i])
    {
      var c := s[i];
      CountStep(m, m0, s, i);
      if c in m {
        var current := m[c];
        m := m[c := current + 1];
      } else {
        m := m[c := 1];
      }
      i := i + 1;
    }
    assert s[..i] == s;
    CountsOfIsCounted(m, m0, s);
  }

  /**
   * `buildFrequencyMap`: from an unopenable file the map is returned as it
   * came, with no PSEUDO_EOF added; otherwise every character read is
   * counted into `m0` and PSEUDO_EOF is then put with count 1.
   */
  method BuildFrequencyMap(source: Source, m0: map<int, int>) returns (m: map<int, int>)
    ensures source.File? && source.content.None? ==> m == m0
    ensures source.File? && source.content.Some? ==> m == Tally(m0, source.content.value)
    ensures source.Text? ==> m == Tally(m0, source.text)
  {
    m := m0;
    if source.File? {
      if source.content.Some? {
        m := CountInto(m, source.content.value);
        m := m[PSEUDO_EOF := 1];
      }
    } else {
      m := CountInto(m, source.text);
      m := m[PSEUDO_EOF := 1];
    }
  }

  /**
   * Counting into an empty map: the keys are the characters of `s` and
   * PSEUDO_EOF, PSEUDO_EOF has count 1, and every other key's count is its
   * number of occurrences in `s`.
   */
  lemma TallyFromEmpty(s: seq<Byte>)
    ensures var m := Tally(map[], s);
      && m.Keys == Elements(s) + {PSEUDO_EOF}
      && m[PSEUDO_EOF] == 1
      && (forall k :: k in m && k != PSEUDO_EOF ==> m[k] == multiset(s)[k] >= 1)
  {
    var m := Tally(map[], s);
    forall k | k in m && k != PSEUDO_EOF
      ensures m[k] == multiset(s)[k] >= 1
    {
      assert k in Elements(s);
    }
  }

  // ---- what the counts add up to ----

  /** The sum of the counts in `m` of the keys listed in `ks`. */
  function SumCounts(m: map<int, int>, ks: seq<int>): int
    requires forall i :: 0 <= i < |ks| ==> ks[i] in m
  {
    if ks == [] then 0 else m[ks[0]] + SumCounts(m, ks[1..])
  }

  /** How often the symbols listed in `ks` occur in `s` altogether. */
  function Occurrences(ks: seq<int>, s: seq<int>): nat {
    if ks == [] then 0 else multiset(s)[ks[0]] + Occurrences(ks[1..], s)
  }

  lemma {:induction false} OccurrencesSnoc(ks: seq<int>, s: seq<int>, c: int)
    ensures Occurrences(ks, s + [c]) == Occurrences(ks, s) + multiset(ks)[c]
  {
    assert multiset(s + [c]) == multiset(s) + multiset{c};
    if ks != [] {
      assert ks == [ks[0]] + ks[1..];
      assert multiset(ks) == multiset{ks[0]} + multiset(ks[1..]);
      OccurrencesSnoc(ks[1..], s, c);
    }
  }

  /** When every symbol of `s` is listed exactly once, the occurrences add up to the length of `s`. */
  lemma {:induction false} OccurrencesAll(ks: seq<int>, s: seq<int>)
    requires forall i :: 0 <= i < |s| ==> multiset(ks)[s[i]] == 1
    ensures Occurrences(ks, s) == |s|
    decreases |s|
  {
    if s == [] {
      OccurrencesEmpty(ks);
    } else {
      var init := s[..|s| - 1];
      assert s == init + [s[|s| - 1]];
      OccurrencesAll(ks, init);
      OccurrencesSnoc(ks, init, s[|s| - 1]);
    }
  }

  lemma {:induction false} OccurrencesEmpty(ks: seq<int>)
    ensures Occurrences(ks, []) == 0
  {
    if ks != [] {
      OccurrencesEmpty(ks[1..]);
    }
  }

  /** Over keys of the frequency map of `s`, the counts are the occurrences plus one for PSEUDO_EOF. */
  lemma {:induction false} SumOfTally(s: seq<Byte>, ks: seq<int>)
    requires forall i :: 0 <= i < |ks| ==> ks[i] in Tally(map[], s)
    ensures SumCounts(Tally(map[], s), ks) == Occurrences(ks, s) + multiset(ks)[PSEUDO_EOF]
  {
    if ks != [] {
      var m := Tally(map[], s);
      assert ks == [ks[0]] + ks[1..];
      assert multiset(ks) == multiset{ks[0]} + multiset(ks[1..]);
      SumOfTally(s, ks[1..]);
      if ks[0] == PSEUDO_EOF {
        assert PSEUDO_EOF !in s;
        assert multiset(s)[PSEUDO_EOF] == 0;
      } else {
        assert m[ks[0]] == Counted(map[], s)[ks[0]];
      }
    }
  }

  /** Over a listing of the keys of the frequency map of `s`, each once, the counts add up to `|s| + 1`. */
  lemma TallyTotal(s: seq<Byte>, ks: seq<int>)
    requires forall i :: 0 <= i < |ks| ==> ks[i] in Tally(map[], s)
    requires multiset(ks) == multiset(Tally(map[], s).Keys)
    ensures SumCounts(Tally(map[], s), ks) == |s| + 1
  {
    var m := Tally(map[], s);
    SumOfTally(s, ks);
    assert multiset(ks)[PSEUDO_EOF] == 1;
    forall i | 0 <= i < |s|
      ensures multiset(ks)[s[i] as int] == 1
    {
      assert s[i] in Elements(s);
      assert s[i] in m.Keys;
    }
    OccurrencesAll(ks, s);
  }
}
