/** `apply_corrections`: collect the usable triples, sort them, and splice
    them into the text left to right while a running offset records how much
    the earlier splices lengthened or shortened the text. */
module Splicing {
  import opened PySlice
  import opened Corrections

  /** How much one splice changes the length of the text. */
  function Delta(c: Correction): int {
    |c.replacement| - (c.end - c.start)
  }

  /** The running `offset` after splicing `cs`. */
  function TotalDelta(cs: seq<Correction>): int {
    if cs == [] then 0 else Delta(cs[0]) + TotalDelta(cs[1..])
  }

  lemma {:induction false} TotalDeltaSnoc(cs: seq<Correction>, k: nat)
    requires k < |cs|
    ensures TotalDelta(cs[..k + 1]) == TotalDelta(cs[..k]) + Delta(cs[k])
  {
    if k > 0 {
      assert cs[..k + 1][1..] == cs[1..][..k];
      assert cs[..k][1..] == cs[1..][..k - 1];
      TotalDeltaSnoc(cs[1..], k - 1);
    }
  }

  /** One pass of the second loop: `text[:start + offset] + replacement + text[end + offset:]`. */
  function Splice(text: string, offset: int, c: Correction): string {
    Prefix(text, c.start + offset) + c.replacement + Suffix(text, c.end + offset)
  }

  /** The remaining passes of the second loop, from the current text and offset. */
  function ApplyFrom(text: string, offset: int, cs: seq<Correction>): string
    decreases |cs|
  {
    if cs == [] then text
    else ApplyFrom(Splice(text, offset, cs[0]), offset + Delta(cs[0]), cs[1..])
  }

  /** `sorted(corrections)`: the triples the second loop splices, in order. */
  function Triples(matches: seq<Match>): seq<Correction> {
    Sort(UsableCorrections(matches))
  }

  /** What `apply_corrections(text, matches)` returns. */
  function Corrected(text: string, matches: seq<Match>): string {
    ApplyFrom(text, 0, Triples(matches))
  }

  lemma ApplyFromStep(text: string, offset: int, cs: seq<Correction>, k: nat)
    requires k < |cs|
    ensures ApplyFrom(text, offset, cs[k..]) == ApplyFrom(Splice(text, offset, cs[k]), offset + Delta(cs[k]), cs[k + 1..])
  {
    assert cs[k..][1..] == cs[k + 1..];
  }

  /** The first loop of `apply_corrections`. */
  method CollectCorrections(matches: seq<Match>) returns (corrections: seq<Correction>)
    ensures corrections == UsableCorrections(matches)
  {
    corrections := [];
    for i := 0 to |matches|
      invariant corrections == UsableCorrections(matches[..i])
    {
      assert matches[..i + 1][..i] == matches[..i];
      var m := matches[i];
      if m.replacements != [] {
        var replacement := m.replacements[0].value;
        var startPos := m.offset;
        var endPos := startPos + m.length;
        corrections := corrections + [Correction(startPos, endPos, replacement)];
      }
    }
    assert matches[..|matches|] == matches;
  }

  /** The second loop of `apply_corrections`. */
  method SpliceAll(text: string, sorted: seq<Correction>) returns (correctedText: string)
    ensures correctedText == ApplyFrom(text, 0, sorted)
  {
    correctedText := text;
    var offset := 0;
    ghost var target := ApplyFrom(text, 0, sorted);
    assert sorted[0..] == sorted;
    for k := 0 to |sorted|
      invariant offset == TotalDelta(sorted[..k])
      invariant ApplyFrom(correctedText, offset, sorted[k..]) == target
    {
      TotalDeltaSnoc(sorted, k);
      ApplyFromStep(correctedText, offset, sorted, k);
      var c := sorted[k];
      correctedText := Splice(correctedText, offset, c);
      offset := offset + |c.replacement| - (c.end - c.start);
    }
    assert sorted[|sorted|..] == [];
  }

  method ApplyCorrections(text: string, matches: seq<Match>) returns (correctedText: string)
    ensures correctedText == Corrected(text, matches)
  {
    var corrections := CollectCorrections(matches);
    correctedText := SpliceAll(text, Sort(corrections));
  }

  // ---------------------------------------------------------------------
  // Identity and order

  /** With no usable match the text comes back unchanged. */
  lemma NoUsableMatchIsIdentity(text: string, matches: seq<Match>)
    requires forall m :: m in matches ==> !Usable(m)
    ensures Corrected(text, matches) == text
  {
    var cs := UsableCorrections(matches);
    if cs != [] {
      UsableCorrectionsSource(matches, cs[0]);
    }
  }

  lemma {:induction false} UsableCorrectionsSource(matches: seq<Match>, c: Correction)
    requires c in UsableCorrections(matches)
    ensures exists m :: m in matches && Usable(m) && c == ToCorrection(m)
    decreases |matches|
  {
    var last := matches[|matches| - 1];
    var init := matches[..|matches| - 1];
    if c in UsableCorrections(init) {
      UsableCorrectionsSource(init, c);
      var m :| m in init && Usable(m) && c == ToCorrection(m);
      assert m in matches;
    } else {
      assert last in matches;
    }
  }

  /** A match with no replacement, anywhere in the list, changes nothing. */
  lemma MatchWithoutReplacementIgnored(text: string, a: seq<Match>, m: Match, b: seq<Match>)
    requires m.replacements == []
    ensures Corrected(text, a + [m] + b) == Corrected(text, a + b)
  {
    UnusableMatchIgnored(a, m, b);
  }

  /** Suggestions after the first one are never used. */
  lemma FirstReplacementOnly(text: string, a: seq<Match>, m: Match, m': Match, b: seq<Match>)
    requires m.offset == m'.offset && m.length == m'.length
    requires m.replacements != [] && m'.replacements != []
    requires m.replacements[0].value == m'.replacements[0].value
    ensures Corrected(text, a + [m] + b) == Corrected(text, a + [m'] + b)
  {
    OnlyFirstReplacementUsed(a, m, m', b);
  }

  /** The result does not depend on the order in which the checker listed its matches. */
  lemma MatchOrderIrrelevant(text: string, a: seq<Match>, b: seq<Match>)
    requires multiset(a) == multiset(b)
    ensures Corrected(text, a) == Corrected(text, b)
  {
    UsableCorrectionsPermutation(a, b);
    SortPermutationInvariant(UsableCorrections(a), UsableCorrections(b));
  }

  // ---------------------------------------------------------------------
  // Splicing in original coordinates

  /** The corrections, from position `from` on, lie inside the text in
      ascending order, each ending at or before the next one starts. */
  predicate Disjoint(text: string, cs: seq<Correction>, from: int) {
    cs == [] ||
    (from <= cs[0].start <= cs[0].end <= |text| && Disjoint(text, cs[1..], cs[0].end))
  }

  /** Reference result: every replacement put in place of its range, all
      ranges read in the original text, the text between them kept. */
  function Rebuild(text: string, cs: seq<Correction>, from: nat): string
    requires from <= |text| && Disjoint(text, cs, from)
    decreases |cs|
  {
    if cs == [] then text[from..]
    else text[from..cs[0].start] + cs[0].replacement + Rebuild(text, cs[1..], cs[0].end)
  }

  /** The loop's running offset realigns every splice with its original range:
      when the current text `t` is the output so far, `done`, followed by the
      unread original from `from` on, the remaining passes finish the reference result. */
  lemma {:induction false} ApplyFromRebuild(text: string, t: string, done: string, from: nat, offset: int, cs: seq<Correction>)
    requires from <= |text| && Disjoint(text, cs, from)
    requires |done| == from + offset && t == done + text[from..]
    ensures ApplyFrom(t, offset, cs) == done + Rebuild(text, cs, from)
    decreases |cs|
  {
    if cs != [] {
      var c := cs[0];
      var t' := Splice(t, offset, c);
      var done' := done + text[from..c.start] + c.replacement;
      SpliceShifted(text, done, from, offset, c);
      ApplyFromRebuild(text, t', done', c.end, offset + Delta(c), cs[1..]);
      RebuildFirstPiece(text, done, from, cs);
    }
  }

  lemma RebuildFirstPiece(text: string, done: string, from: nat, cs: seq<Correction>)
    requires cs != [] && from <= |text| && Disjoint(text, cs, from)
    ensures done + Rebuild(text, cs, from)
         == done + text[from..cs[0].start] + cs[0].replacement + Rebuild(text, cs[1..], cs[0].end)
  {
    var piece := text[from..cs[0].start] + cs[0].replacement;
    var rest := Rebuild(text, cs[1..], cs[0].end);
    assert done + (piece + rest) == done + piece + rest;
  }

  /** One pass: shifted by `offset`, the splice replaces exactly the original range. */
  lemma SpliceShifted(text: string, done: string, from: nat, offset: int, c: Correction)
    requires from <= c.start <= c.end <= |text|
    requires |done| == from + offset
    ensures Splice(done + text[from..], offset, c) == (done + text[from..c.start] + c.replacement) + text[c.end..]
  {
    var t := done + text[from..];
    assert Prefix(t, c.start + offset) == done + text[from..c.start] by {
      assert t[..c.start + offset] == done + text[from..c.start];
    }
    assert Suffix(t, c.end + offset) == text[c.end..] by {
      assert t[c.end + offset..] == text[c.end..];
    }
  }

  /** For in-range, non-overlapping corrections the result is the splice of
      every replacement in original coordinates. */
  lemma SplicedInOriginalCoordinates(text: string, matches: seq<Match>)
    requires Disjoint(text, Triples(matches), 0)
    ensures Corrected(text, matches) == Rebuild(text, Triples(matches), 0)
  {
    ApplyFromIsRebuild(text, Triples(matches));
  }

  lemma ApplyFromIsRebuild(text: string, cs: seq<Correction>)
    requires Disjoint(text, cs, 0)
    ensures ApplyFrom(text, 0, cs) == Rebuild(text, cs, 0)
  {
    assert text == [] + text[0..];
    ApplyFromRebuild(text, text, [], 0, 0, cs);
  }

  lemma {:induction false} RebuildLength(text: string, cs: seq<Correction>, from: nat)
    requires from <= |text| && Disjoint(text, cs, from)
    ensures |Rebuild(text, cs, from)| == |text| - from + TotalDelta(cs)
    decreases |cs|
  {
    if cs != [] {
      RebuildLength(text, cs[1..], cs[0].end);
    }
  }

  /** The length of the result is the original length plus the final offset. */
  lemma CorrectedLength(text: string, matches: seq<Match>)
    requires Disjoint(text, Triples(matches), 0)
    ensures |Corrected(text, matches)| == |text| + TotalDelta(Triples(matches))
  {
    SplicedInOriginalCoordinates(text, matches);
    RebuildLength(text, Triples(matches), 0);
  }

  lemma {:induction false} DisjointInBounds(text: string, cs: seq<Correction>, from: int, i: nat)
    requires Disjoint(text, cs, from) && i < |cs|
    ensures from <= cs[i].start <= cs[i].end <= |text|
    ensures i > 0 ==> cs[i - 1].end <= cs[i].start
    decreases i
  {
    if i > 0 {
      DisjointInBounds(text, cs[1..], cs[0].end, i - 1);
      if i > 1 {
        DisjointInBounds(text, cs, from, i - 1);
      }
    }
  }

  /** Where the gap before correction `k` begins: the end of correction
      `k - 1`, or `from` for the first gap. */
  function GapStart(text: string, cs: seq<Correction>, from: int, k: nat): (g: int)
    requires Disjoint(text, cs, from) && k <= |cs|
    ensures from <= g
    ensures k < |cs| ==> g <= cs[k].start
  {
    if k == 0 then
      if k < |cs| then DisjointInBounds(text, cs, from, k); from else from
    else
      DisjointInBounds(text, cs, from, k - 1);
      if k < |cs| then DisjointInBounds(text, cs, from, k); cs[k - 1].end else cs[k - 1].end
  }

  /** Where the gap before correction `k` ends: its start, or the end of the
      text for the gap after the last correction. */
  function GapEnd(text: string, cs: seq<Correction>, from: int, k: nat): (g: int)
    requires Disjoint(text, cs, from) && k <= |cs|
    ensures g <= |text|
  {
    if k == |cs| then |text|
    else DisjointInBounds(text, cs, from, k); cs[k].start
  }

  /** A character in the gap before correction `k` reappears, shifted by the
      length change of the `k` corrections before it. */
  lemma {:induction false} RebuildKeepsGap(text: string, cs: seq<Correction>, from: nat, k: nat, p: int)
    requires from <= |text| && Disjoint(text, cs, from)
    requires k <= |cs| && GapStart(text, cs, from, k) <= p < GapEnd(text, cs, from, k)
    ensures 0 <= p - from + TotalDelta(cs[..k]) < |Rebuild(text, cs, from)|
    ensures Rebuild(text, cs, from)[p - from + TotalDelta(cs[..k])] == text[p]
    decreases |cs|
  {
    RebuildLength(text, cs, from);
    if k == 0 {
      assert cs[..0] == [];
    } else {
      var c := cs[0];
      assert cs[..k][1..] == cs[1..][..k - 1];
      assert GapStart(text, cs[1..], c.end, k - 1) == GapStart(text, cs, from, k);
      assert GapEnd(text, cs[1..], c.end, k - 1) == GapEnd(text, cs, from, k);
      RebuildKeepsGap(text, cs[1..], c.end, k - 1, p);
    }
  }

  /** The same for the loop's output: a character between two edits is
      found again at its position plus the offset accumulated before it. */
  lemma ApplyFromKeepsGap(text: string, cs: seq<Correction>, k: nat, p: int)
    requires Disjoint(text, cs, 0)
    requires k <= |cs| && GapStart(text, cs, 0, k) <= p < GapEnd(text, cs, 0, k)
    ensures 0 <= p + TotalDelta(cs[..k]) < |ApplyFrom(text, 0, cs)|
    ensures ApplyFrom(text, 0, cs)[p + TotalDelta(cs[..k])] == text[p]
  {
    ApplyFromIsRebuild(text, cs);
    RebuildKeepsGap(text, cs, 0, k, p);
    assert p - 0 + TotalDelta(cs[..k]) == p + TotalDelta(cs[..k]);
  }

  /** Every character outside the edited ranges survives, in its original
      order, at its position shifted by the offset accumulated before it. */
  lemma UneditedTextPreserved(text: string, matches: seq<Match>, k: nat, p: int)
    requires Disjoint(text, Triples(matches), 0)
    requires k <= |Triples(matches)|
    requires GapStart(text, Triples(matches), 0, k) <= p < GapEnd(text, Triples(matches), 0, k)
    ensures 0 <= p + TotalDelta(Triples(matches)[..k]) < |Corrected(text, matches)|
    ensures Corrected(text, matches)[p + TotalDelta(Triples(matches)[..k])] == text[p]
  {
    ApplyFromKeepsGap(text, Triples(matches), k, p);
  }

  // ---------------------------------------------------------------------
  // Worked examples

  lemma SingleEdit()
    ensures Corrected("The quick fox", [Match(4, 5, [Replacement("slow")])]) == "The slow fox"
  {
    var text, ms := "The quick fox", [Match(4, 5, [Replacement("slow")])];
    var c := Correction(4, 9, "slow");
    assert ms[..0] == [];
    assert Triples(ms) == [c];
    assert Splice(text, 0, c) == text[..4] + "slow" + text[9..];
    assert Corrected(text, ms) == ApplyFrom(Splice(text, 0, c), Delta(c), []);
  }

  lemma TwoEditsSorted(ms: seq<Match>)
    requires ms == [Match(6, 2, [Replacement("Q")]), Match(0, 2, [Replacement("XYZ")])]
    ensures Triples(ms) == [Correction(0, 2, "XYZ"), Correction(6, 8, "Q")]
  {
    var first, second := Correction(0, 2, "XYZ"), Correction(6, 8, "Q");
    assert ms[..1] == [ms[0]] && ms[..1][..0] == [];
    assert UsableCorrections(ms) == [second, first];
    assert Sort([first]) == [first];
  }

  lemma TwoEditsRebuilt(text: string, cs: seq<Correction>)
    requires text == "ab cd ef" && cs == [Correction(0, 2, "XYZ"), Correction(6, 8, "Q")]
    ensures Disjoint(text, cs, 0) && Rebuild(text, cs, 0) == "XYZ cd Q"
  {
    assert cs[1..][1..] == [];
    assert Rebuild(text, cs[1..], 2) == text[2..6] + "Q" + text[8..];
  }

  /** The second edit is listed first; after sorting, the first one's
      lengthening by one character shifts the second. */
  lemma TwoEditsShiftOffset()
    ensures Corrected("ab cd ef", [Match(6, 2, [Replacement("Q")]), Match(0, 2, [Replacement("XYZ")])]) == "XYZ cd Q"
  {
    var ms := [Match(6, 2, [Replacement("Q")]), Match(0, 2, [Replacement("XYZ")])];
    TwoEditsSorted(ms);
    TwoEditsRebuilt("ab cd ef", Triples(ms));
    SplicedInOriginalCoordinates("ab cd ef", ms);
  }
}
