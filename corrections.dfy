/** The corrections the LanguageTool checker proposes, as `apply_corrections`
    sees them: a match names an original-coordinate range and a list of
    replacement suggestions; the usable ones become `(start, end, replacement)`
    triples, which Python's `sorted` puts in lexicographic tuple order. */
module Corrections {

  datatype Replacement = Replacement(value: string)

  /** One entry of the checker's `matches` list. */
  datatype Match = Match(offset: int, length: int, replacements: seq<Replacement>)

  /** The triple `(start_pos, end_pos, replacement)`. */
  datatype Correction = Correction(start: int, end: int, replacement: string)

  /** The triple a match contributes, if it has a replacement at all:
      only the first suggestion is used. */
  predicate Usable(m: Match) {
    m.replacements != []
  }

  function ToCorrection(m: Match): Correction
    requires Usable(m)
  {
    Correction(m.offset, m.offset + m.length, m.replacements[0].value)
  }

  /** The list the first loop of `apply_corrections` builds, in match order. */
  function UsableCorrections(ms: seq<Match>): (cs: seq<Correction>)
    ensures |cs| <= |ms|
  {
    if ms == [] then []
    else
      var last := ms[|ms| - 1];
      UsableCorrections(ms[..|ms| - 1]) + (if Usable(last) then [ToCorrection(last)] else [])
  }

  lemma {:induction false} UsableCorrectionsAppend(a: seq<Match>, b: seq<Match>)
    ensures UsableCorrections(a + b) == UsableCorrections(a) + UsableCorrections(b)
    decreases |b|
  {
    if b == [] {
      assert a + b == a;
    } else {
      var b' := b[..|b| - 1];
      assert (a + b)[..|a + b| - 1] == a + b';
      UsableCorrectionsAppend(a, b');
    }
  }

  /** A match with no replacement contributes nothing, wherever it stands. */
  lemma {:induction false} UnusableMatchIgnored(a: seq<Match>, m: Match, b: seq<Match>)
    requires !Usable(m)
    ensures UsableCorrections(a + [m] + b) == UsableCorrections(a + b)
  {
    UsableCorrectionsAppend(a + [m], b);
    UsableCorrectionsAppend(a, [m]);
    UsableCorrectionsAppend(a, b);
    assert UsableCorrections([m]) == UsableCorrections([m][..0]) + [];
  }

  /** Two matches over the same range whose first suggestions agree
      contribute the same triple: later suggestions are never consulted. */
  lemma {:induction false} OnlyFirstReplacementUsed(a: seq<Match>, m: Match, m': Match, b: seq<Match>)
    requires m.offset == m'.offset && m.length == m'.length
    requires Usable(m) && Usable(m') && m.replacements[0] == m'.replacements[0]
    ensures UsableCorrections(a + [m] + b) == UsableCorrections(a + [m'] + b)
  {
    UsableCorrectionsAppend(a + [m], b);
    UsableCorrectionsAppend(a, [m]);
    UsableCorrectionsAppend(a + [m'], b);
    UsableCorrectionsAppend(a, [m']);
    assert UsableCorrections([m]) == UsableCorrections([m][..0]) + [ToCorrection(m)];
    assert UsableCorrections([m']) == UsableCorrections([m'][..0]) + [ToCorrection(m')];
  }

  /** Reordering the matches reorders the triples and nothing more. */
  lemma {:induction false} UsableCorrectionsPermutation(a: seq<Match>, b: seq<Match>)
    requires multiset(a) == multiset(b)
    ensures multiset(UsableCorrections(a)) == multiset(UsableCorrections(b))
    decreases |a|
  {
    if a == [] {
      assert |b| == |multiset(b)| == 0;
      assert b == [];
    } else {
      var x := a[|a| - 1];
      assert x in multiset(b);
      var k :| 0 <= k < |b| && b[k] == x;
      var a' := a[..|a| - 1];
      var b' := b[..k] + b[k + 1..];
      assert a == a' + [x];
      assert b == b[..k] + [x] + b[k + 1..];
      assert multiset(b) == multiset(b[..k]) + multiset{x} + multiset(b[k + 1..]);
      assert multiset(a') == multiset(a) - multiset{x};
      assert multiset(a') == multiset(b');
      UsableCorrectionsPermutation(a', b');
      UsableCorrectionsAppend(a', [x]);
      UsableCorrectionsAppend(b[..k] + [x], b[k + 1..]);
      UsableCorrectionsAppend(b[..k], [x]);
      UsableCorrectionsAppend(b[..k], b[k + 1..]);
    }
  }

  // ---------------------------------------------------------------------
  // Python's ordering of the triples

  /** `a <= b` on Python strings: code point by code point, a proper prefix first. */
  predicate StrLe(a: string, b: string) {
    a == [] || (b != [] && (a[0] < b[0] || (a[0] == b[0] && StrLe(a[1..], b[1..]))))
  }

  lemma StrLeReflexive(a: string)
    ensures StrLe(a, a)
  {
  }

  lemma StrLeTotal(a: string, b: string)
    ensures StrLe(a, b) || StrLe(b, a)
  {
  }

  lemma StrLeAntisymmetric(a: string, b: string)
    requires StrLe(a, b) && StrLe(b, a)
    ensures a == b
  {
    if a != [] && b != [] {
      StrLeAntisymmetric(a[1..], b[1..]);
      assert a == [a[0]] + a[1..] && b == [b[0]] + b[1..];
    }
  }

  lemma StrLeTransitive(a: string, b: string, c: string)
    requires StrLe(a, b) && StrLe(b, c)
    ensures StrLe(a, c)
  {
    if a != [] && b != [] && c != [] && a[0] == b[0] == c[0] {
      StrLeTransitive(a[1..], b[1..], c[1..]);
    }
  }

  /** `a <= b` on `(start, end, replacement)` tuples. */
  predicate LessEq(a: Correction, b: Correction) {
    a.start < b.start ||
    (a.start == b.start && (a.end < b.end || (a.end == b.end && StrLe(a.replacement, b.replacement))))
  }

  lemma LessEqReflexive(a: Correction)
    ensures LessEq(a, a)
  {
    StrLeReflexive(a.replacement);
  }

  lemma LessEqTotal(a: Correction, b: Correction)
    ensures LessEq(a, b) || LessEq(b, a)
  {
    StrLeTotal(a.replacement, b.replacement);
  }

  lemma LessEqAntisymmetric(a: Correction, b: Correction)
    requires LessEq(a, b) && LessEq(b, a)
    ensures a == b
  {
    StrLeAntisymmetric(a.replacement, b.replacement);
  }

  lemma LessEqTransitive(a: Correction, b: Correction, c: Correction)
    requires LessEq(a, b) && LessEq(b, c)
    ensures LessEq(a, c)
  {
    if a.start == b.start == c.start && a.end == b.end == c.end {
      StrLeTransitive(a.replacement, b.replacement, c.replacement);
    }
  }

  predicate Sorted(cs: seq<Correction>) {
    forall i, j :: 0 <= i < j < |cs| ==> LessEq(cs[i], cs[j])
  }

  /** A lower bound of a sorted list can go in front of it. */
  lemma PrependLowerBound(x: Correction, cs: seq<Correction>)
    requires Sorted(cs)
    requires forall j :: 0 <= j < |cs| ==> LessEq(x, cs[j])
    ensures Sorted([x] + cs)
  {
  }

  /** `c` goes in front when it is no greater than the head. */
  lemma InsertAtFront(c: Correction, cs: seq<Correction>)
    requires Sorted(cs) && (cs == [] || LessEq(c, cs[0]))
    ensures Sorted([c] + cs)
  {
    forall j | 0 <= j < |cs| ensures LessEq(c, cs[j]) {
      if j > 0 { LessEqTransitive(c, cs[0], cs[j]); }
    }
    PrependLowerBound(c, cs);
  }

  /** Otherwise the head stays in front of the tail with `c` inserted. */
  lemma InsertBehindHead(c: Correction, cs: seq<Correction>, rest: seq<Correction>)
    requires Sorted(cs) && cs != [] && !LessEq(c, cs[0])
    requires Sorted(rest) && multiset(rest) == multiset(cs[1..]) + multiset{c}
    ensures Sorted([cs[0]] + rest)
  {
    LessEqTotal(c, cs[0]);
    forall j | 0 <= j < |rest| ensures LessEq(cs[0], rest[j]) {
      assert rest[j] in multiset(cs[1..]) + multiset{c};
    }
    PrependLowerBound(cs[0], rest);
  }

  /** Inserts `c` into the sorted `cs`. */
  function Insert(c: Correction, cs: seq<Correction>): (r: seq<Correction>)
    requires Sorted(cs)
    ensures Sorted(r)
    ensures multiset(r) == multiset(cs) + multiset{c}
  {
    if cs == [] || LessEq(c, cs[0]) then
      InsertAtFront(c, cs);
      [c] + cs
    else
      var rest := Insert(c, cs[1..]);
      InsertBehindHead(c, cs, rest);
      assert cs == [cs[0]] + cs[1..];
      [cs[0]] + rest
  }

  /** Python's `sorted(corrections)`. */
  function Sort(cs: seq<Correction>): (r: seq<Correction>)
    ensures Sorted(r)
    ensures multiset(r) == multiset(cs)
  {
    if cs == [] then []
    else
      assert cs == [cs[0]] + cs[1..];
      Insert(cs[0], Sort(cs[1..]))
  }

  lemma SortedHeadIsLeast(a: seq<Correction>, x: Correction)
    requires Sorted(a) && x in a
    ensures LessEq(a[0], x)
  {
    var i :| 0 <= i < |a| && a[i] == x;
    if i == 0 {
      LessEqReflexive(x);
    }
  }

  lemma MultisetTail(a: seq<Correction>, b: seq<Correction>)
    requires a != [] && b != [] && a[0] == b[0] && multiset(a) == multiset(b)
    ensures multiset(a[1..]) == multiset(b[1..])
  {
    assert a == [a[0]] + a[1..] && b == [b[0]] + b[1..];
    assert multiset(a[1..]) == multiset(a) - multiset{a[0]};
    assert multiset(b[1..]) == multiset(b) - multiset{b[0]};
  }

  /** With a total, antisymmetric order there is only one sorted arrangement
      of a multiset of triples. */
  lemma {:induction false} SortedUnique(a: seq<Correction>, b: seq<Correction>)
    requires Sorted(a) && Sorted(b) && multiset(a) == multiset(b)
    ensures a == b
    decreases |a|
  {
    if a == [] {
      assert |b| == |multiset(b)| == 0;
    } else {
      assert |b| == |multiset(b)| == |multiset(a)| == |a|;
      assert a[0] in multiset(b) && b[0] in multiset(a);
      SortedHeadIsLeast(a, b[0]);
      SortedHeadIsLeast(b, a[0]);
      LessEqAntisymmetric(a[0], b[0]);
      MultisetTail(a, b);
      SortedUnique(a[1..], b[1..]);
    }
  }

  /** `sorted` depends only on which triples there are, not on their input order. */
  lemma SortPermutationInvariant(a: seq<Correction>, b: seq<Correction>)
    requires multiset(a) == multiset(b)
    ensures Sort(a) == Sort(b)
  {
    SortedUnique(Sort(a), Sort(b));
  }
}
