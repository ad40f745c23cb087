/** The analyse page of frontend/app/[locale]/analyze/page.tsx as far as it
    joins the two cores. The page keeps two pieces of state: the textarea's
    current text and the analysis of the text at the last `run()` (that of
    "" before the first run). It segments the current text with the
    annotations of that analysis. */
module AnalyzePage {
  import opened Wrappers
  import opened Strings
  import opened Types
  import opened Mock
  import opened AnnotatedText

  /** The parts the page renders for the current text `shown` when the
      last run analysed `analysed`. */
  function PageRender(shown: string, analysed: string): seq<Part> {
    TermMapValid();
    Segment(shown, Analyze(analysed, TermMap).annotations)
  }

  /** The parts rendered right after a run, before the text is edited. */
  function Render(text: string): seq<Part> {
    PageRender(text, text)
  }

  /** The parts rendered with the clamped segmenter. */
  function RenderClamped(text: string): seq<Part> {
    TermMapValid();
    SegmentClamped(text, Analyze(text, TermMap).annotations)
  }

  /** The matcher's annotations are in range of the text. */
  lemma AnalysisInRange(text: string, rules: seq<Rule>)
    requires ValidRules(rules)
    ensures var anns := Analyze(text, rules).annotations;
      forall i :: 0 <= i < |anns| ==> Proper(anns[i], |text|)
  {
    AnalyzeAnnotations(text, rules);
  }

  /** With clamping, the rendered parts spell the text exactly, whatever
      the shipped table flags. */
  lemma RenderClampedCovers(text: string)
    ensures Concat(RenderClamped(text)) == text
  {
    TermMapValid();
    var anns := Analyze(text, TermMap).annotations;
    AnalysisInRange(text, TermMap);
    SegmentClampedCovers(text, anns);
  }

  /** Where the shipped table flags no overlapping spans, the page as
      written renders the text exactly, and clamping changes nothing. */
  lemma RenderCovers(text: string)
    requires PairwiseDisjoint(Analyze(text, TermMap).annotations)
    ensures Concat(Render(text)) == text
    ensures RenderClamped(text) == Render(text)
  {
    TermMapValid();
    var anns := Analyze(text, TermMap).annotations;
    AnalysisInRange(text, TermMap);
    SegmentCovers(text, anns);
    SegmentClampedAgrees(text, anns);
  }

  const Overlapping := "homosexual preference"

  lemma OverlappingLower()
    ensures LowerStr(Overlapping) == Overlapping
  {
  }

  lemma HomosexualAt()
    ensures IndexOf(Overlapping, "homosexual", 0) == 0
  {
    assert Overlapping[0..10] == "homosexual";
    IndexOfFirst(Overlapping, "homosexual", 0, 0);
  }

  lemma SexualPreferenceAt()
    ensures IndexOf(Overlapping, "sexual preference", 0) == 4
  {
    var head, tail := "homo", "sexual preference";
    assert Overlapping == head + tail;
    assert (head + tail)[4..21] == tail;
    IndexOfFirst(Overlapping, "sexual preference", 0, 4);
  }

  lemma OverlappingRule0()
    ensures RuleOccurrences(Overlapping, Homosexual, 0, 0) == [Occurrence(0, 10, Homosexual, 0)]
  {
    assert Key(Homosexual.term) == "homosexual";
    HomosexualAt();
    RuleOccurrencesFound(Overlapping, Homosexual, 0, 0, 0);
    IndexOfNone(Overlapping, "homosexual", 10);
    RuleOccurrencesNone(Overlapping, Homosexual, 0, 10);
  }

  lemma OverlappingRule1()
    ensures RuleOccurrences(Overlapping, Transsexual, 1, 0) == []
  {
    assert Key(Transsexual.term) == "transsexual";
    IndexOfNone(Overlapping, "transsexual", 0);
    RuleOccurrencesNone(Overlapping, Transsexual, 1, 0);
  }

  lemma OverlappingRule2()
    ensures RuleOccurrences(Overlapping, NormalPeople, 2, 0) == []
  {
    assert Key(NormalPeople.term) == "normal people";
    IndexOfNone(Overlapping, "normal people", 0);
    RuleOccurrencesNone(Overlapping, NormalPeople, 2, 0);
  }

  lemma OverlappingRule3()
    ensures RuleOccurrences(Overlapping, SexualPreference, 3, 0) == [Occurrence(4, 21, SexualPreference, 3)]
  {
    assert Key(SexualPreference.term) == "sexual preference";
    SexualPreferenceAt();
    RuleOccurrencesFound(Overlapping, SexualPreference, 3, 0, 4);
    IndexOfNone(Overlapping, "sexual preference", 21);
    RuleOccurrencesNone(Overlapping, SexualPreference, 3, 21);
  }

  lemma OverlappingRule4()
    ensures RuleOccurrences(Overlapping, BornAsAMan, 4, 0) == []
  {
    assert Key(BornAsAMan.term) == "born as a man";
    IndexOfNone(Overlapping, "born as a man", 0);
    RuleOccurrencesNone(Overlapping, BornAsAMan, 4, 0);
  }

  /** The shipped table flags `homosexual` at [0,10) and `sexual preference`
      at [4,21) in the same text. */
  lemma OverlappingScan()
    ensures Scan(LowerStr(Overlapping), TermMap, 0) ==
      [Occurrence(0, 10, Homosexual, 0), Occurrence(4, 21, SexualPreference, 3)]
  {
    TermMapValid();
    OverlappingLower();
    var t := Overlapping;
    OverlappingRule0();
    OverlappingRule1();
    OverlappingRule2();
    OverlappingRule3();
    OverlappingRule4();
    assert Scan(t, TermMap, 5) == [];
    ScanStep(t, TermMap, 4);
    ScanStep(t, TermMap, 3);
    ScanStep(t, TermMap, 2);
    ScanStep(t, TermMap, 1);
    ScanStep(t, TermMap, 0);
    assert Scan(t, TermMap, 3) == [Occurrence(4, 21, SexualPreference, 3)];
  }

  lemma OverlappingAnnotations()
    ensures Analyze(Overlapping, TermMap).annotations ==
      [ToAnnotation(Occurrence(0, 10, Homosexual, 0)), ToAnnotation(Occurrence(4, 21, SexualPreference, 3))]
  {
    TermMapValid();
    OverlappingScan();
    AnalyzeAnnotations(Overlapping, TermMap);
  }

  /** Any annotations at [0,10) and [4,21) of the text segment into its
      first ten characters followed by everything from offset 4 on. */
  lemma OverlappingSegment(h: Annotation, p: Annotation)
    requires h.start == 0 && h.end == 10 && p.start == 4 && p.end == 21
    ensures Concat(Segment(Overlapping, [h, p])) == Overlapping[..10] + Overlapping[4..]
  {
    SegmentPair(Overlapping, h, p);
  }

  lemma OverlappingShown()
    ensures Overlapping[..10] + Overlapping[4..] == "homosexualsexual preference"
  {
    assert Overlapping[..10] == "homosexual";
    assert Overlapping[4..] == "sexual preference";
  }

  /** Before the first run the analysis is that of "", so the current text
      is shown as one plain part. */
  lemma BeforeRun(shown: string)
    ensures PageRender(shown, "") == (if shown == "" then [] else [Part(shown, None)])
  {
    TermMapValid();
    AnalyzeEmptyText(TermMap);
  }

  const Flagged := "homosexual"
  const Edited := "a homosexual"
  const FlaggedAnnotation := ToAnnotation(Occurrence(0, 10, Homosexual, 0))

  lemma FlaggedRule0()
    ensures RuleOccurrences(Flagged, Homosexual, 0, 0) == [Occurrence(0, 10, Homosexual, 0)]
  {
    var t := Flagged;
    assert Key(Homosexual.term) == t;
    IndexOfFirst(t, t, 0, 0);
    RuleOccurrencesFound(t, Homosexual, 0, 0, 0);
    RuleOccurrencesNone(t, Homosexual, 0, 10);
  }

  lemma FlaggedScan()
    ensures Scan(LowerStr(Flagged), TermMap, 0) == [Occurrence(0, 10, Homosexual, 0)]
  {
    TermMapValid();
    var t := Flagged;
    assert LowerStr(t) == t;
    FlaggedRule0();
    RuleOccurrencesNone(t, Transsexual, 1, 0);
    RuleOccurrencesNone(t, NormalPeople, 2, 0);
    RuleOccurrencesNone(t, SexualPreference, 3, 0);
    RuleOccurrencesNone(t, BornAsAMan, 4, 0);
    assert Scan(t, TermMap, 5) == [];
    ScanStep(t, TermMap, 4);
    ScanStep(t, TermMap, 3);
    ScanStep(t, TermMap, 2);
    ScanStep(t, TermMap, 1);
    ScanStep(t, TermMap, 0);
  }

  /** After "homosexual" is analysed and "a " is typed in front of it, the
      page keeps the old annotation at [0,10) and highlights "a homosexu"
      of the edited text: the highlight no longer covers the flagged
      term. */
  lemma StaleHighlight()
    ensures PageRender(Edited, Flagged) == [Part("a homosexu", Some(FlaggedAnnotation)), Part("al", None)]
  {
    FlaggedAnnotations();
    SegmentOne(Edited, FlaggedAnnotation);
    EditedSlices();
  }

  lemma FlaggedAnnotations()
    ensures Analyze(Flagged, TermMap).annotations == [FlaggedAnnotation]
  {
    TermMapValid();
    FlaggedScan();
    AnalyzeAnnotations(Flagged, TermMap);
  }

  lemma EditedSlices()
    ensures Edited[..10] == "a homosexu" && Edited[10..] == "al"
  {
    var head, tail := "a homosexu", "al";
    assert Edited == head + tail;
  }

  /** One annotation at the start of a longer text: the annotated slice,
      then the rest as plain text. */
  lemma SegmentOne(text: string, a: Annotation)
    requires 0 == a.start <= a.end < |text|
    ensures Segment(text, [a]) == [Part(text[..a.end], Some(a)), Part(text[a.end..], None)]
  {
    assert SortByStart([a]) == [a];
    assert [a][1..] == [];
    assert Slice(text, 0, a.end) == text[..a.end];
    assert Slice(text, a.end, |text|) == text[a.end..];
    assert Walk(text, [], a.end) == [Part(text[a.end..], None)];
    assert Walk(text, [a], 0) == [Part(text[..a.end], Some(a))] + Walk(text, [], a.end);
    assert Segment(text, [a]) == Walk(text, [a], 0);
  }

  /** The page as written renders "homosexual preference" as
      "homosexualsexual preference": the overlap is shown twice. */
  lemma OverlapDuplicates()
    ensures Concat(Render(Overlapping)) == "homosexualsexual preference"
    ensures Concat(Render(Overlapping)) != Overlapping
  {
    TermMapValid();
    OverlappingAnnotations();
    OverlappingSegment(ToAnnotation(Occurrence(0, 10, Homosexual, 0)), ToAnnotation(Occurrence(4, 21, SexualPreference, 3)));
    OverlappingShown();
    assert |Overlapping| == 21;
  }
}
