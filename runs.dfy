/** A paragraph's runs and `apply_corrected_text_to_runs`: the corrected
    paragraph text is cut back into the runs, each run taking as many
    characters as it had before, starting where the previous run stopped. */
module Runs {
  import opened PySlice

  /** A run of a Word paragraph: its text, which the corrector rewrites in
      place, and the tags of the child elements of its `w:r` element as they
      stand before any rewrite. Assigning `run.text` also discards every
      child but the run properties; the model does not track the children
      after a rewrite. */
  class Run {
    var text: string
    var children: seq<string>

    constructor (text: string, children: seq<string>)
      ensures this.text == text && this.children == children
    {
      this.text := text;
      this.children := children;
    }
  }

  /** A paragraph: its runs, in document order. */
  class Paragraph {
    const runs: seq<Run>

    /** Each run of a paragraph is its own element. */
    ghost predicate Valid() {
      forall i, j :: 0 <= i < j < |runs| ==> runs[i] != runs[j]
    }

    constructor (runs: seq<Run>)
      requires forall i, j :: 0 <= i < j < |runs| ==> runs[i] != runs[j]
      ensures this.runs == runs && Valid()
    {
      this.runs := runs;
    }

    /** The runs' texts, in order. */
    function Texts(): (ts: seq<string>)
      reads runs
      ensures |ts| == |runs|
      ensures forall i :: 0 <= i < |runs| ==> ts[i] == runs[i].text
    {
      seq(|runs|, i reads runs requires 0 <= i < |runs| => runs[i].text)
    }
  }

  /** `"".join(texts)` */
  function Concat(ts: seq<string>): string {
    if ts == [] then [] else Concat(ts[..|ts| - 1]) + ts[|ts| - 1]
  }

  /** The original length of each run. */
  function Lengths(ts: seq<string>): (ls: seq<nat>)
    ensures |ls| == |ts|
    ensures forall i :: 0 <= i < |ts| ==> ls[i] == |ts[i]|
  {
    seq(|ts|, i requires 0 <= i < |ts| => |ts[i]|)
  }

  function Sum(ls: seq<nat>): nat {
    if ls == [] then 0 else Sum(ls[..|ls| - 1]) + ls[|ls| - 1]
  }

  /** The run texts `apply_corrected_text_to_runs` writes: run `i`, of
      original length `ls[i]`, gets `corrected[cursor:cursor + ls[i]]`, where
      `cursor` is the sum of the lengths before it. */
  function Remap(corrected: string, ls: seq<nat>): (ts: seq<string>)
    ensures |ts| == |ls|
    ensures forall i :: 0 <= i < |ls| ==> ts[i] == Piece(corrected, ls, i)
  {
    seq(|ls|, i requires 0 <= i < |ls| => Piece(corrected, ls, i))
  }

  /** `corrected[cursor:cursor + ls[i]]` for run `i`. */
  function Piece(corrected: string, ls: seq<nat>, i: nat): string
    requires i < |ls|
  {
    Slice(corrected, Sum(ls[..i]), Sum(ls[..i]) + ls[i])
  }

  lemma SumSnoc(ls: seq<nat>, k: nat)
    requires k < |ls|
    ensures Sum(ls[..k + 1]) == Sum(ls[..k]) + ls[k]
  {
    assert ls[..k + 1][..k] == ls[..k];
  }

  method ApplyCorrectedTextToRuns(p: Paragraph, corrected: string)
    requires p.Valid()
    modifies p.runs
    ensures p.Texts() == Remap(corrected, Lengths(old(p.Texts())))
  {
    ghost var ls := Lengths(p.Texts());
    var currentIndex := 0;
    for k := 0 to |p.runs|
      invariant currentIndex == Sum(ls[..k])
      invariant forall i :: 0 <= i < k ==> p.runs[i].text == Piece(corrected, ls, i)
      invariant forall i :: k <= i < |p.runs| ==> |p.runs[i].text| == ls[i]
    {
      var run := p.runs[k];
      var textLength := |run.text|;
      SumSnoc(ls, k);
      assert forall i :: 0 <= i < |p.runs| && i != k ==> p.runs[i] != p.runs[k];
      ghost var piece := Piece(corrected, ls, k);
      assert piece == Slice(corrected, currentIndex, currentIndex + textLength);
      run.text := Slice(corrected, currentIndex, currentIndex + textLength);
      currentIndex := currentIndex + textLength;
    }
    RunsHoldRemap(p, corrected, ls);
  }

  lemma RunsHoldRemap(p: Paragraph, corrected: string, ls: seq<nat>)
    requires |ls| == |p.runs|
    requires forall i :: 0 <= i < |p.runs| ==> p.runs[i].text == Piece(corrected, ls, i)
    ensures p.Texts() == Remap(corrected, ls)
  {
  }

  // ---------------------------------------------------------------------
  // Properties of the remapping

  lemma {:induction false} ConcatAppend(a: seq<string>, b: seq<string>)
    ensures Concat(a + b) == Concat(a) + Concat(b)
    decreases |b|
  {
    if b == [] {
      assert a + b == a;
    } else {
      assert (a + b)[..|a + b| - 1] == a + b[..|b| - 1];
      ConcatAppend(a, b[..|b| - 1]);
    }
  }

  lemma {:induction false} ConcatLength(ts: seq<string>)
    ensures |Concat(ts)| == Sum(Lengths(ts))
    decreases |ts|
  {
    if ts != [] {
      assert Lengths(ts)[..|ts| - 1] == Lengths(ts[..|ts| - 1]);
      ConcatLength(ts[..|ts| - 1]);
    }
  }

  /** No run is lengthened, and each one keeps exactly its original length
      as long as the corrected text reaches its end. */
  lemma RunLengthBound(corrected: string, ls: seq<nat>, i: nat)
    requires i < |ls|
    ensures |Remap(corrected, ls)[i]| <= ls[i]
    ensures |Remap(corrected, ls)[i]| == ls[i] <==> Sum(ls[..i]) + ls[i] <= |corrected| || ls[i] == 0
  {
  }

  function Min(a: nat, b: nat): nat {
    if a < b then a else b
  }

  lemma SliceExtendsPrefix(c: string, start: nat, len: nat)
    ensures c[..Min(|c|, start)] + Slice(c, start, start + len) == c[..Min(|c|, start + len)]
  {
    if |c| <= start {
      SliceBeyondEnd(c, start, start + len);
    } else if |c| <= start + len {
      SliceBeyondEnd(c, start, start + len);
      assert c[..start] + c[start..] == c;
    } else {
      assert c[..start] + c[start..start + len] == c[..start + len];
    }
  }

  lemma RemapPrefix(corrected: string, ls: seq<nat>, n: nat)
    requires n <= |ls|
    ensures Remap(corrected, ls)[..n] == Remap(corrected, ls[..n])
  {
    forall i | 0 <= i < n ensures ls[..n][..i] == ls[..i] { }
  }

  /** The remapped runs spell out the corrected text cut to the runs' total
      original length: surplus is dropped, a shortfall leaves the last runs short. */
  lemma {:induction false} RemapConcat(corrected: string, ls: seq<nat>)
    ensures Concat(Remap(corrected, ls)) == corrected[..Min(|corrected|, Sum(ls))]
    decreases |ls|
  {
    if ls == [] {
      assert Remap(corrected, ls) == [];
    } else {
      var n := |ls| - 1;
      var ts := Remap(corrected, ls);
      var cursor := Sum(ls[..n]);
      calc {
        Concat(ts);
        Concat(ts[..n]) + ts[n];
        { RemapPrefix(corrected, ls, n); }
        Concat(Remap(corrected, ls[..n])) + Piece(corrected, ls, n);
        { RemapConcat(corrected, ls[..n]); }
        corrected[..Min(|corrected|, cursor)] + Slice(corrected, cursor, cursor + ls[n]);
        { SliceExtendsPrefix(corrected, cursor, ls[n]); }
        corrected[..Min(|corrected|, cursor + ls[n])];
        { assert Sum(ls) == cursor + ls[n]; }
        corrected[..Min(|corrected|, Sum(ls))];
      }
    }
  }

  /** Run count and text: the concatenation of the runs equals the corrected
      text exactly when the text is no longer than the runs were. */
  lemma RemapKeepsAllText(corrected: string, ls: seq<nat>)
    ensures |Remap(corrected, ls)| == |ls|
    ensures Concat(Remap(corrected, ls)) == corrected <==> |corrected| <= Sum(ls)
  {
    RemapConcat(corrected, ls);
  }

  lemma ConcatSplit(ts: seq<string>, i: nat)
    requires i < |ts|
    ensures Concat(ts) == Concat(ts[..i]) + ts[i] + Concat(ts[i + 1..])
  {
    var pre, post := ts[..i + 1], ts[i + 1..];
    calc {
      Concat(ts);
      { assert ts == pre + post; }
      Concat(pre + post);
      { ConcatAppend(pre, post); }
      Concat(pre) + Concat(post);
      { assert pre[..i] == ts[..i]; }
      Concat(ts[..i]) + ts[i] + Concat(post);
    }
  }

  lemma LengthsPrefix(ts: seq<string>, i: nat)
    requires i <= |ts|
    ensures Lengths(ts[..i]) == Lengths(ts)[..i]
  {
  }

  lemma RemapOwnTextAt(ts: seq<string>, i: nat)
    requires i < |ts|
    ensures Piece(Concat(ts), Lengths(ts), i) == ts[i]
  {
    var before, after := Concat(ts[..i]), Concat(ts[i + 1..]);
    ConcatSplit(ts, i);
    LengthsPrefix(ts, i);
    ConcatLength(ts[..i]);
    assert |before| == Sum(Lengths(ts)[..i]);
    var c := before + ts[i] + after;
    assert c[|before|..|before| + |ts[i]|] == ts[i];
  }

  /** Writing a paragraph's own text back into its runs changes no run. */
  lemma RemapOwnText(ts: seq<string>)
    ensures Remap(Concat(ts), Lengths(ts)) == ts
  {
    forall i | 0 <= i < |ts| ensures Remap(Concat(ts), Lengths(ts))[i] == ts[i] {
      RemapOwnTextAt(ts, i);
    }
  }

  lemma RemapTwoRunsExample()
    ensures Remap("Hi", [3, 3]) == ["Hi", ""]
  {
    var ls: seq<nat> := [3, 3];
    assert Sum(ls[..0]) == 0;
    assert ls[..1][..0] == [];
    assert Sum(ls[..1]) == 3;
    assert Remap("Hi", ls)[0] == "Hi";
    assert Remap("Hi", ls)[1] == "";
  }

  // ---------------------------------------------------------------------
  // The surplus of a lengthened paragraph is lost

  /** A comma inserted by the checker costs the paragraph its last letter. */
  lemma SurplusDropped()
    ensures Remap("Hello, world", Lengths(["Hello world"])) == ["Hello, worl"]
    ensures Concat(Remap("Hello, world", Lengths(["Hello world"]))) != "Hello, world"
  {
    var ls := Lengths(["Hello world"]);
    assert ls == [11];
    assert Sum(ls[..0]) == 0;
    assert Remap("Hello, world", ls)[0] == "Hello, worl";
    assert Concat(["Hello, worl"]) == Concat([]) + "Hello, worl";
  }

  /** A remapping that loses no character of the corrected paragraph: every
      run but the last as before, the last run taking everything from its
      cursor to the end of the corrected text. */
  function RemapAbsorbing(corrected: string, ls: seq<nat>): (ts: seq<string>)
    ensures |ts| == |ls|
  {
    seq(|ls|, i requires 0 <= i < |ls| =>
      if i < |ls| - 1 then Piece(corrected, ls, i) else Suffix(corrected, Sum(ls[..i])))
  }

  lemma PrefixThenSuffix(c: string, k: nat)
    ensures c[..Min(|c|, k)] + Suffix(c, k) == c
  {
    if |c| <= k {
      assert Suffix(c, k) == [];
    }
  }

  /** With at least one run, the remainder-absorbing remapping keeps the whole corrected text. */
  lemma RemapAbsorbingKeepsAllText(corrected: string, ls: seq<nat>)
    requires ls != []
    ensures Concat(RemapAbsorbing(corrected, ls)) == corrected
  {
    var n := |ls| - 1;
    var ts := RemapAbsorbing(corrected, ls);
    RemapPrefix(corrected, ls, n);
    assert ts[..n] == Remap(corrected, ls)[..n];
    RemapConcat(corrected, ls[..n]);
    assert Concat(ts) == Concat(ts[..n]) + ts[n];
    PrefixThenSuffix(corrected, Sum(ls[..n]));
  }

  /** No run but the last grows under the remainder-absorbing remapping. */
  lemma RemapAbsorbingRunBound(corrected: string, ls: seq<nat>, i: nat)
    requires i < |ls| - 1
    ensures |RemapAbsorbing(corrected, ls)[i]| <= ls[i]
  {
  }
}
