/** `process_paragraph` and `paragraph_contains_footnote_reference`: a
    paragraph holding a footnote reference is left alone; any other has its
    run texts joined, corrected and cut back into its runs. */
module Paragraphs {
  import opened Runs
  import opened Checker

  /** `qn('w:footnoteReference')`: the tag in Clark notation, under the
      WordprocessingML main namespace. */
  const FootnoteReferenceTag: string :=
    "{http://schemas.openxmlformats.org/wordprocessingml/2006/main}footnoteReference"

  /** Some child element of some run is a footnote reference. */
  predicate HasFootnoteReference(runs: seq<Run>)
    reads runs
  {
    exists i, j :: 0 <= i < |runs| && 0 <= j < |runs[i].children| && runs[i].children[j] == FootnoteReferenceTag
  }

  method ParagraphContainsFootnoteReference(p: Paragraph) returns (found: bool)
    ensures found <==> HasFootnoteReference(p.runs)
  {
    for i := 0 to |p.runs|
      invariant forall i', j :: 0 <= i' < i && 0 <= j < |p.runs[i'].children| ==>
        p.runs[i'].children[j] != FootnoteReferenceTag
    {
      var run := p.runs[i];
      for j := 0 to |run.children|
        invariant forall j' :: 0 <= j' < j ==> run.children[j'] != FootnoteReferenceTag
      {
        if run.children[j] == FootnoteReferenceTag {
          return true;
        }
      }
    }
    return false;
  }

  method ProcessParagraph(p: Paragraph, language: string, checker: Request -> Outcome)
    requires p.Valid()
    modifies p.runs
    ensures old(HasFootnoteReference(p.runs)) ==> unchanged(p.runs)
    ensures old(HasFootnoteReference(p.runs)) ==> p.Texts() == old(p.Texts())
    ensures !old(HasFootnoteReference(p.runs)) ==>
      var fullText := Concat(old(p.Texts()));
      p.Texts() == Remap(CorrectedOrOriginal(fullText, checker(BuildRequest(fullText, language))), Lengths(old(p.Texts())))
    ensures !Succeeded(checker(BuildRequest(Concat(old(p.Texts())), language))) ==> p.Texts() == old(p.Texts())
  {
    var skip := ParagraphContainsFootnoteReference(p);
    if skip {
      return;
    }
    var fullText := Concat(p.Texts());
    var correctedParagraphText := CorrectTextWithLanguageTool(fullText, language, checker);
    RemapOwnText(p.Texts());
    ApplyCorrectedTextToRuns(p, correctedParagraphText);
  }
}
