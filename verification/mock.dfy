/** The term matcher and aggregator of frontend/lib/utils/mock.ts: the static
    rule table, the per-rule `indexOf` scan of the lower-cased text, and the
    aggregation of matches into annotations, deduplicated results and
    per-severity counts.

    The rule table is a parameter; `TermMap` is the five-entry table the
    source ships. The scan is stated functionally (`Scan`, `Aggregate`,
    `Analyze`) and imperatively (`MockAnalyze`, the source's nested loops),
    and the two are proved to agree. */
module Mock {
  import opened Wrappers
  import opened Strings
  import opened Types

  /** One row of the rule table. */
  datatype Rule = Rule(term: string, severity: Severity, explanation: string, suggestion: Option<string>)

  /** The per-severity tally, a `Record<Severity, number>` in the source. */
  datatype Counts = Counts(outdated: nat, biased: nat, offensive: nat, incorrect: nat) {

    function Get(s: Severity): nat {
      match s
      case Outdated => outdated
      case Biased => biased
      case Offensive => offensive
      case Incorrect => incorrect
    }

    /** `counts[s] += 1`: bumps one severity and leaves the others alone. */
    function Bump(s: Severity): (c: Counts)
      ensures c.Get(s) == Get(s) + 1
      ensures forall t :: t != s ==> c.Get(t) == Get(t)
    {
      match s
      case Outdated => this.(outdated := outdated + 1)
      case Biased => this.(biased := biased + 1)
      case Offensive => this.(offensive := offensive + 1)
      case Incorrect => this.(incorrect := incorrect + 1)
    }

    function Total(): nat {
      outdated + biased + offensive + incorrect
    }
  }

  /** All four counts start at zero. */
  const NoCounts := Counts(0, 0, 0, 0)

  /** What `mockAnalyze` returns. */
  datatype Analysis = Analysis(annotations: seq<Annotation>, results: seq<Result>, counts: Counts)

  const EmptyAnalysis := Analysis([], [], NoCounts)

  /** The single reference every annotation and result carries. */
  const ApaReference := Reference("APA inclusive language", "https://apastyle.apa.org/style-grammar-guidelines")

  /** The rows of the rule table the source ships. */
  const Homosexual := Rule("homosexual", Outdated,
    "The term is considered outdated and clinical in many contexts.",
    Some("Use \"gay\" or \"lesbian\" depending on context"))
  const Transsexual := Rule("transsexual", Outdated,
    "The term is outdated and often perceived as medicalizing.",
    Some("Use \"transgender person\" or \"trans person\""))
  const NormalPeople := Rule("normal people", Biased,
    "Implies LGBTQ+ people are abnormal by contrast.",
    Some("Use \"non-LGBTQ+ people\" or be specific"))
  const SexualPreference := Rule("sexual preference", Incorrect,
    "Orientation is not a preference; \"preference\" is misleading.",
    Some("Use \"sexual orientation\""))
  const BornAsAMan := Rule("born as a man", Offensive,
    "Invalidates gender identity; phrasing can be disrespectful.",
    Some("Use \"assigned male at birth (AMAB)\""))

  /** The rule table, in its order. */
  const TermMap: seq<Rule> := [Homosexual, Transsexual, NormalPeople, SexualPreference, BornAsAMan]

  /** The scan only terminates when no term is empty: `indexOf("", idx)`
      returns `idx` and the loop never advances. */
  predicate ValidRules(rules: seq<Rule>) {
    forall i :: 0 <= i < |rules| ==> |rules[i].term| > 0
  }

  lemma TermMapValid()
    ensures ValidRules(TermMap)
  {
  }

  /** The case-insensitive key of a term: the needle and the dedup key. */
  function Key(term: string): string {
    LowerStr(term)
  }

  /** One match of rule number `ruleIndex` at `[start, end)`. */
  datatype Occurrence = Occurrence(start: nat, end: nat, rule: Rule, ruleIndex: nat)

  /** The occurrence is a real match of its rule in the lower-cased text. */
  predicate Matched(lower: string, o: Occurrence) {
    o.end == o.start + |o.rule.term| && IsAt(lower, Key(o.rule.term), o.start)
  }

  /** The inner `while (idx !== -1)` loop for one rule, started at `from`:
      each match resumes the search at its end, so matches never overlap. */
  function RuleOccurrences(lower: string, rule: Rule, index: nat, from: nat): (occs: seq<Occurrence>)
    requires |rule.term| > 0 && from <= |lower|
    ensures forall j :: 0 <= j < |occs| ==>
      && from <= occs[j].start
      && occs[j].rule == rule && occs[j].ruleIndex == index
      && Matched(lower, occs[j])
    ensures forall i, j :: 0 <= i < j < |occs| ==> occs[i].end <= occs[j].start
    decreases |lower| - from
  {
    var idx := IndexOf(lower, Key(rule.term), from);
    if idx == -1 then []
    else [Occurrence(idx, idx + |rule.term|, rule, index)] + RuleOccurrences(lower, rule, index, idx + |rule.term|)
  }

  /** Offset `k` lies inside one of the occurrences. */
  predicate Covered(occs: seq<Occurrence>, k: int) {
    exists j :: 0 <= j < |occs| && occs[j].start <= k < occs[j].end
  }

  /** Every occurrence of the term at or after `from` overlaps a reported
      match: the scan is the greedy leftmost non-overlapping one. */
  lemma {:induction false} RuleOccurrencesGreedy(lower: string, rule: Rule, index: nat, from: nat, k: nat)
    requires |rule.term| > 0 && from <= |lower|
    requires from <= k && IsAt(lower, Key(rule.term), k)
    ensures Covered(RuleOccurrences(lower, rule, index, from), k)
    decreases |lower| - from
  {
    var idx := IndexOf(lower, Key(rule.term), from);
    IndexOfFound(lower, Key(rule.term), from, k);
    var next := idx + |rule.term|;
    RuleOccurrencesFound(lower, rule, index, from, idx);
    var o := Occurrence(idx, next, rule, index);
    var rest := RuleOccurrences(lower, rule, index, next);
    if k < next {
      CoveredHead(o, rest, k);
    } else {
      RuleOccurrencesGreedy(lower, rule, index, next, k);
      CoveredCons(o, rest, k);
    }
  }

  lemma CoveredHead(o: Occurrence, occs: seq<Occurrence>, k: int)
    requires o.start <= k < o.end
    ensures Covered([o] + occs, k)
  {
    assert ([o] + occs)[0] == o;
  }

  lemma CoveredCons(o: Occurrence, occs: seq<Occurrence>, k: int)
    requires Covered(occs, k)
    ensures Covered([o] + occs, k)
  {
    var j :| 0 <= j < |occs| && occs[j].start <= k < occs[j].end;
    assert ([o] + occs)[j + 1] == occs[j];
  }

  /** One step of the inner loop: a match at `k` is reported and the
      search resumes at its end. */
  lemma RuleOccurrencesFound(lower: string, rule: Rule, index: nat, from: nat, k: nat)
    requires |rule.term| > 0 && from <= |lower|
    requires IndexOf(lower, Key(rule.term), from) == k
    ensures k + |rule.term| <= |lower|
    ensures RuleOccurrences(lower, rule, index, from) ==
      [Occurrence(k, k + |rule.term|, rule, index)] + RuleOccurrences(lower, rule, index, k + |rule.term|)
  {
  }

  /** The inner loop stops when the search fails. */
  lemma RuleOccurrencesNone(lower: string, rule: Rule, index: nat, from: nat)
    requires |rule.term| > 0 && from <= |lower|
    requires IndexOf(lower, Key(rule.term), from) == -1
    ensures RuleOccurrences(lower, rule, index, from) == []
  {
  }

  /** `aa` against `aaaa` matches at 0 and 2, not at 1. */
  lemma BackToBackRepeats(rule: Rule)
    requires rule.term == "aa"
    ensures RuleOccurrences("aaaa", rule, 0, 0) ==
      [Occurrence(0, 2, rule, 0), Occurrence(2, 4, rule, 0)]
  {
    assert Key("aa") == "aa";
    assert IndexOf("aaaa", "aa", 0) == 0;
    assert IndexOf("aaaa", "aa", 2) == 2;
    assert IndexOf("aaaa", "aa", 4) == -1;
  }

  /** The outer `for (const item of termMap)` loop from rule `first` on:
      all matches of one rule, then all of the next, in table order. */
  function Scan(lower: string, rules: seq<Rule>, first: nat): (occs: seq<Occurrence>)
    requires ValidRules(rules) && first <= |rules|
    ensures forall j :: 0 <= j < |occs| ==>
      && first <= occs[j].ruleIndex < |rules|
      && occs[j].rule == rules[occs[j].ruleIndex]
      && Matched(lower, occs[j])
    ensures forall i, j :: 0 <= i < j < |occs| ==>
      || occs[i].ruleIndex < occs[j].ruleIndex
      || (occs[i].ruleIndex == occs[j].ruleIndex && occs[i].end <= occs[j].start)
    decreases |rules| - first
  {
    if first == |rules| then []
    else
      var here := RuleOccurrences(lower, rules[first], first, 0);
      var rest := Scan(lower, rules, first + 1);
      assert forall i, j :: 0 <= i < |here| <= j < |here| + |rest| ==>
        (here + rest)[i].ruleIndex < (here + rest)[j].ruleIndex;
      here + rest
  }

  /** One step of the outer loop. */
  lemma ScanStep(lower: string, rules: seq<Rule>, first: nat)
    requires ValidRules(rules) && first < |rules|
    ensures Scan(lower, rules, first) ==
      RuleOccurrences(lower, rules[first], first, 0) + Scan(lower, rules, first + 1)
  {
  }

  /** The scan finds nothing exactly when no term occurs anywhere. */
  lemma {:induction false} ScanEmpty(lower: string, rules: seq<Rule>, first: nat)
    requires ValidRules(rules) && first <= |rules|
    ensures Scan(lower, rules, first) == [] <==>
      forall i, k :: first <= i < |rules| ==> !IsAt(lower, Key(rules[i].term), k)
    decreases |rules| - first
  {
    if first < |rules| {
      ScanEmpty(lower, rules, first + 1);
      var here := RuleOccurrences(lower, rules[first], first, 0);
      assert here == [] <==> forall k :: !IsAt(lower, Key(rules[first].term), k) by {
        var idx := IndexOf(lower, Key(rules[first].term), 0);
        IndexOfSpec(lower, Key(rules[first].term), 0);
        if idx != -1 {
          assert IsAt(lower, Key(rules[first].term), idx);
        } else {
          forall k ensures !IsAt(lower, Key(rules[first].term), k) {
            if k < 0 {
            } else {
              assert 0 <= k;
            }
          }
        }
      }
    }
  }

  /** The annotation pushed for one match. */
  function ToAnnotation(o: Occurrence): Annotation {
    Annotation(o.start, o.end, o.rule.severity, o.rule.term, o.rule.suggestion,
      Some(o.rule.explanation), Some([ApaReference]))
  }

  /** The result pushed for the first match of a term. */
  function ToResult(rule: Rule): Result {
    Result(rule.term, rule.severity, rule.explanation, rule.suggestion, Some([ApaReference]))
  }

  /** The local state of `mockAnalyze`: the three outputs and `seenPhrases`. */
  datatype Acc = Acc(annotations: seq<Annotation>, results: seq<Result>, seen: set<string>, counts: Counts)

  const Initial := Acc([], [], {}, NoCounts)

  /** The body of `if (idx !== -1)`: one annotation per match, a result only
      for a key not seen before, one count per match. */
  function Step(acc: Acc, o: Occurrence): Acc {
    var key := Key(o.rule.term);
    Acc(acc.annotations + [ToAnnotation(o)],
      if key in acc.seen then acc.results else acc.results + [ToResult(o.rule)],
      acc.seen + {key},
      acc.counts.Bump(o.rule.severity))
  }

  function AggregateFrom(acc: Acc, occs: seq<Occurrence>): Acc
    decreases |occs|
  {
    if |occs| == 0 then acc else AggregateFrom(Step(acc, occs[0]), occs[1..])
  }

  function Aggregate(occs: seq<Occurrence>): Analysis {
    var acc := AggregateFrom(Initial, occs);
    Analysis(acc.annotations, acc.results, acc.counts)
  }

  /** `mockAnalyze(text)` over an arbitrary rule table. */
  function Analyze(text: string, rules: seq<Rule>): Analysis
    requires ValidRules(rules)
  {
    Aggregate(Scan(LowerStr(text), rules, 0))
  }

  /** Folding one more occurrence is one more step. */
  lemma {:induction false} AggregateSnoc(acc: Acc, occs: seq<Occurrence>, o: Occurrence)
    ensures AggregateFrom(acc, occs + [o]) == Step(AggregateFrom(acc, occs), o)
    decreases |occs|
  {
    if |occs| == 0 {
      assert occs + [o] == [o];
      assert [o][1..] == [];
    } else {
      assert (occs + [o])[0] == occs[0];
      assert (occs + [o])[1..] == occs[1..] + [o];
      AggregateSnoc(Step(acc, occs[0]), occs[1..], o);
    }
  }

  function AnnotationsOf(occs: seq<Occurrence>): (anns: seq<Annotation>)
    ensures |anns| == |occs|
    ensures forall j :: 0 <= j < |occs| ==> anns[j] == ToAnnotation(occs[j])
  {
    seq(|occs|, j requires 0 <= j < |occs| => ToAnnotation(occs[j]))
  }

  function ResultsOf(occs: seq<Occurrence>): (rs: seq<Result>)
    ensures |rs| == |occs|
    ensures forall j :: 0 <= j < |occs| ==> rs[j] == ToResult(occs[j].rule)
  {
    seq(|occs|, j requires 0 <= j < |occs| => ToResult(occs[j].rule))
  }

  /** The keys of the rules of the given occurrences. */
  function KeysOf(occs: seq<Occurrence>): set<string> {
    set j | 0 <= j < |occs| :: Key(occs[j].rule.term)
  }

  /** Number of annotations of severity `s`. */
  function CountSeverity(anns: seq<Annotation>, s: Severity): nat
    decreases |anns|
  {
    if |anns| == 0 then 0
    else CountSeverity(anns[..|anns| - 1], s) + (if anns[|anns| - 1].severity == s then 1 else 0)
  }

  /** Some entry of `rs` has key `k`. */
  predicate HasKey(rs: seq<Result>, k: string) {
    exists i :: 0 <= i < |rs| && Key(rs[i].phrase) == k
  }

  /** Some annotation of `anns` has key `k`. */
  predicate HasLabel(anns: seq<Annotation>, k: string) {
    exists i :: 0 <= i < |anns| && Key(anns[i].caption) == k
  }

  lemma HasKeySnoc(rs: seq<Result>, x: Result, k: string)
    ensures HasKey(rs + [x], k) <==> HasKey(rs, k) || Key(x.phrase) == k
  {
    if HasKey(rs, k) {
      var i :| 0 <= i < |rs| && Key(rs[i].phrase) == k;
      assert (rs + [x])[i] == rs[i];
    }
    if Key(x.phrase) == k {
      assert (rs + [x])[|rs|] == x;
    }
  }

  /** Reference definition of the result list: keep each entry whose key no
      earlier entry has, in order. */
  function Dedup(rs: seq<Result>): seq<Result>
    decreases |rs|
  {
    if |rs| == 0 then []
    else
      var init := rs[..|rs| - 1];
      var last := rs[|rs| - 1];
      if HasKey(init, Key(last.phrase)) then Dedup(init) else Dedup(init) + [last]
  }

  /** The deduplicated list holds entries of the input only, no key twice,
      and every key of the input. */
  lemma {:induction false} DedupSpec(rs: seq<Result>)
    ensures forall i :: 0 <= i < |Dedup(rs)| ==> Dedup(rs)[i] in rs
    ensures forall i, j :: 0 <= i < j < |Dedup(rs)| ==> Key(Dedup(rs)[i].phrase) != Key(Dedup(rs)[j].phrase)
    ensures forall k :: HasKey(Dedup(rs), k) <==> HasKey(rs, k)
    decreases |rs|
  {
    if |rs| > 0 {
      var init := rs[..|rs| - 1];
      var last := rs[|rs| - 1];
      assert rs == init + [last];
      DedupSpec(init);
      var d0 := Dedup(init);
      forall k ensures HasKey(rs, k) <==> HasKey(init, k) || Key(last.phrase) == k {
        HasKeySnoc(init, last, k);
      }
      if !HasKey(init, Key(last.phrase)) {
        forall k ensures HasKey(d0 + [last], k) <==> HasKey(d0, k) || Key(last.phrase) == k {
          HasKeySnoc(d0, last, k);
        }
        assert !HasKey(d0, Key(last.phrase));
        assert forall i :: 0 <= i < |d0| ==> Key(d0[i].phrase) != Key(last.phrase);
      }
    }
  }

  lemma AnnotationsOfSnoc(occs: seq<Occurrence>, o: Occurrence)
    ensures AnnotationsOf(occs + [o]) == AnnotationsOf(occs) + [ToAnnotation(o)]
  {
  }

  lemma ResultsOfSnoc(occs: seq<Occurrence>, o: Occurrence)
    ensures ResultsOf(occs + [o]) == ResultsOf(occs) + [ToResult(o.rule)]
  {
  }

  lemma KeysOfSnoc(occs: seq<Occurrence>, o: Occurrence)
    ensures KeysOf(occs + [o]) == KeysOf(occs) + {Key(o.rule.term)}
  {
    var xs := occs + [o];
    assert xs[|occs|] == o;
    assert forall j :: 0 <= j < |occs| ==> xs[j] == occs[j];
  }

  /** A key has been seen exactly when some result carries it. */
  lemma KeysOfResults(occs: seq<Occurrence>, k: string)
    ensures k in KeysOf(occs) <==> HasKey(ResultsOf(occs), k)
  {
    if k in KeysOf(occs) {
      var j :| 0 <= j < |occs| && Key(occs[j].rule.term) == k;
      assert Key(ResultsOf(occs)[j].phrase) == k;
    }
  }

  /** What the fold builds, against the reference definitions. */
  lemma {:induction false} AggregateParts(occs: seq<Occurrence>)
    ensures AggregateFrom(Initial, occs).annotations == AnnotationsOf(occs)
    ensures AggregateFrom(Initial, occs).seen == KeysOf(occs)
    ensures AggregateFrom(Initial, occs).results == Dedup(ResultsOf(occs))
    ensures forall s :: AggregateFrom(Initial, occs).counts.Get(s) == CountSeverity(AnnotationsOf(occs), s)
    decreases |occs|
  {
    if |occs| > 0 {
      var init := occs[..|occs| - 1];
      var o := occs[|occs| - 1];
      assert occs == init + [o];
      AggregateParts(init);
      AggregateSnoc(Initial, init, o);
      AnnotationsOfSnoc(init, o);
      ResultsOfSnoc(init, o);
      KeysOfSnoc(init, o);
      KeysOfResults(init, Key(o.rule.term));
      var anns := AnnotationsOf(occs);
      assert anns[..|anns| - 1] == AnnotationsOf(init);
      var rs := ResultsOf(occs);
      assert rs[..|rs| - 1] == ResultsOf(init);
    }
  }

  lemma {:induction false} SummariesOfAnnotations(occs: seq<Occurrence>)
    ensures Summaries(AnnotationsOf(occs)) == ResultsOf(occs)
  {
  }

  /** The summary entry an annotation stands for. */
  function Summary(a: Annotation): Result {
    Result(a.caption, a.severity, a.explanation.GetOr(""), a.suggestion, a.references)
  }

  function Summaries(anns: seq<Annotation>): (rs: seq<Result>)
    ensures |rs| == |anns|
    ensures forall j :: 0 <= j < |anns| ==> rs[j] == Summary(anns[j])
  {
    seq(|anns|, j requires 0 <= j < |anns| => Summary(anns[j]))
  }

  /** The four severity counts of a list add up to its length. */
  lemma {:induction false} SeveritiesPartition(anns: seq<Annotation>)
    ensures CountSeverity(anns, Outdated) + CountSeverity(anns, Biased)
          + CountSeverity(anns, Offensive) + CountSeverity(anns, Incorrect) == |anns|
    decreases |anns|
  {
    if |anns| > 0 {
      SeveritiesPartition(anns[..|anns| - 1]);
    }
  }

  /** One count per match: each severity's count is the number of its
      annotations, and the counts add up to the number of annotations. */
  lemma AnalyzeCounts(text: string, rules: seq<Rule>)
    requires ValidRules(rules)
    ensures var a := Analyze(text, rules);
      forall s :: a.counts.Get(s) == CountSeverity(a.annotations, s)
    ensures var a := Analyze(text, rules);
      a.counts.Total() == |a.annotations|
  {
    var occs := Scan(LowerStr(text), rules, 0);
    AggregateParts(occs);
    SeveritiesPartition(Analyze(text, rules).annotations);
  }

  /** An annotation flags a real match: in range of the text, spelling its
      term case-insensitively, carrying rule number `i`'s payload and the APA
      reference. */
  ghost predicate FlagsMatch(text: string, rules: seq<Rule>, a: Annotation) {
    && 0 <= a.start < a.end == a.start + |a.caption| <= |text|
    && LowerStr(text[a.start..a.end]) == Key(a.caption)
    && exists i :: 0 <= i < |rules| && a == ToAnnotation(Occurrence(a.start, a.end, rules[i], i))
  }

  lemma OccurrenceFlagsMatch(text: string, rules: seq<Rule>, o: Occurrence)
    requires ValidRules(rules)
    requires o.ruleIndex < |rules| && o.rule == rules[o.ruleIndex]
    requires Matched(LowerStr(text), o)
    ensures FlagsMatch(text, rules, ToAnnotation(o))
  {
    LowerStrSlice(text, o.start, o.end);
    assert ToAnnotation(o) == ToAnnotation(Occurrence(o.start, o.end, rules[o.ruleIndex], o.ruleIndex));
  }

  /** The annotations are the scan's matches in scan order, and each flags
      a real match of its rule. */
  lemma AnalyzeAnnotations(text: string, rules: seq<Rule>)
    requires ValidRules(rules)
    ensures Analyze(text, rules).annotations == AnnotationsOf(Scan(LowerStr(text), rules, 0))
    ensures var anns := Analyze(text, rules).annotations;
      forall j :: 0 <= j < |anns| ==> FlagsMatch(text, rules, anns[j])
  {
    var occs := Scan(LowerStr(text), rules, 0);
    AggregateParts(occs);
    forall j | 0 <= j < |occs| ensures FlagsMatch(text, rules, ToAnnotation(occs[j])) {
      OccurrenceFlagsMatch(text, rules, occs[j]);
    }
  }

  lemma SummariesKeys(anns: seq<Annotation>, k: string)
    ensures HasKey(Summaries(anns), k) <==> HasLabel(anns, k)
  {
    var ss := Summaries(anns);
    if HasLabel(anns, k) {
      var j :| 0 <= j < |anns| && Key(anns[j].caption) == k;
      assert Key(ss[j].phrase) == k;
    }
  }

  /** Every summary entry of the scan is some rule's result. */
  lemma ScanResults(lower: string, rules: seq<Rule>)
    requires ValidRules(rules)
    ensures var rs := ResultsOf(Scan(lower, rules, 0));
      forall r :: r in rs ==> exists i :: 0 <= i < |rules| && r == ToResult(rules[i])
  {
    var occs := Scan(lower, rules, 0);
    var rs := ResultsOf(occs);
    forall r | r in rs ensures exists i :: 0 <= i < |rules| && r == ToResult(rules[i]) {
      var j :| 0 <= j < |rs| && rs[j] == r;
      assert r == ToResult(rules[occs[j].ruleIndex]);
    }
  }

  /** The results keep, in first-match order, one entry per distinct
      lower-cased term; a term has an entry iff it matched; each entry is
      its rule's payload. */
  lemma AnalyzeResults(text: string, rules: seq<Rule>)
    requires ValidRules(rules)
    ensures var a := Analyze(text, rules);
      a.results == Dedup(Summaries(a.annotations))
    ensures var a := Analyze(text, rules);
      forall i, j :: 0 <= i < j < |a.results| ==> Key(a.results[i].phrase) != Key(a.results[j].phrase)
    ensures var a := Analyze(text, rules);
      forall k :: HasKey(a.results, k) <==> HasLabel(a.annotations, k)
    ensures var a := Analyze(text, rules);
      forall r :: r in a.results ==> exists i :: 0 <= i < |rules| && r == ToResult(rules[i])
  {
    var occs := Scan(LowerStr(text), rules, 0);
    var anns := AnnotationsOf(occs);
    var rs := ResultsOf(occs);
    AggregateParts(occs);
    SummariesOfAnnotations(occs);
    DedupSpec(rs);
    ScanResults(LowerStr(text), rules);
    forall k ensures HasKey(rs, k) <==> HasLabel(anns, k) {
      SummariesKeys(anns, k);
    }
  }

  /** No annotations, no results and zero counts exactly when no term of
      the table occurs in the text; no annotations means nothing at all. */
  lemma AnalyzeNothing(text: string, rules: seq<Rule>)
    requires ValidRules(rules)
    ensures Analyze(text, rules) == EmptyAnalysis <==>
      forall i, k :: 0 <= i < |rules| ==> !IsAt(LowerStr(text), Key(rules[i].term), k)
    ensures Analyze(text, rules).annotations == [] ==> Analyze(text, rules) == EmptyAnalysis
  {
    var occs := Scan(LowerStr(text), rules, 0);
    ScanEmpty(LowerStr(text), rules, 0);
    AggregateParts(occs);
  }

  /** Empty text yields the empty analysis. */
  lemma AnalyzeEmptyText(rules: seq<Rule>)
    requires ValidRules(rules)
    ensures Analyze("", rules) == EmptyAnalysis
  {
    AnalyzeNothing("", rules);
  }

  lemma AggregateCons(acc: Acc, o: Occurrence, rest: seq<Occurrence>)
    ensures AggregateFrom(acc, [o] + rest) == AggregateFrom(Step(acc, o), rest)
  {
    assert ([o] + rest)[0] == o;
    assert ([o] + rest)[1..] == rest;
  }

  lemma {:induction false} AggregateAppend(acc: Acc, xs: seq<Occurrence>, ys: seq<Occurrence>)
    ensures AggregateFrom(acc, xs + ys) == AggregateFrom(AggregateFrom(acc, xs), ys)
    decreases |xs|
  {
    if |xs| == 0 {
      assert xs + ys == ys;
    } else {
      assert xs + ys == [xs[0]] + (xs[1..] + ys);
      AggregateCons(acc, xs[0], xs[1..] + ys);
      AggregateAppend(Step(acc, xs[0]), xs[1..], ys);
    }
  }

  /** The inner `while (idx !== -1)` loop of `mockAnalyze` for rule number
      `r`, over the state the outer loop carries. */
  method ScanRule(lower: string, item: Rule, r: nat, acc: Acc) returns (acc': Acc)
    requires |item.term| > 0
    ensures acc' == AggregateFrom(acc, RuleOccurrences(lower, item, r, 0))
  {
    var annotations, results, seenPhrases, counts := acc.annotations, acc.results, acc.seen, acc.counts;
    var idx := 0;
    var needle := LowerStr(item.term);
    var phraseKey := LowerStr(item.term);
    ghost var final := AggregateFrom(acc, RuleOccurrences(lower, item, r, 0));
    while idx != -1
      invariant -1 <= idx <= |lower|
      invariant idx != -1 ==>
        AggregateFrom(Acc(annotations, results, seenPhrases, counts), RuleOccurrences(lower, item, r, idx)) == final
      invariant idx == -1 ==> Acc(annotations, results, seenPhrases, counts) == final
      decreases if idx == -1 then 0 else |lower| + 1 - idx
    {
      ghost var cur := Acc(annotations, results, seenPhrases, counts);
      ghost var here := RuleOccurrences(lower, item, r, idx);
      idx := IndexOf(lower, needle, idx);
      if idx != -1 {
        var end := idx + |item.term|;
        ghost var o := Occurrence(idx, end, item, r);
        assert here == [o] + RuleOccurrences(lower, item, r, end);
        AggregateCons(cur, o, RuleOccurrences(lower, item, r, end));
        annotations := annotations + [Annotation(idx, end, item.severity, item.term, item.suggestion,
          Some(item.explanation), Some([ApaReference]))];
        if phraseKey !in seenPhrases {
          seenPhrases := seenPhrases + {phraseKey};
          results := results + [Result(item.term, item.severity, item.explanation, item.suggestion,
            Some([ApaReference]))];
        } else {
          assert seenPhrases + {phraseKey} == seenPhrases;
        }
        counts := counts.Bump(item.severity);
        assert Acc(annotations, results, seenPhrases, counts) == Step(cur, o);
        idx := end;
      } else {
        assert here == [];
      }
    }
    acc' := Acc(annotations, results, seenPhrases, counts);
  }

  /** The source's loops compute `Analyze`. */
  method MockAnalyze(text: string, rules: seq<Rule>) returns (analysis: Analysis)
    requires ValidRules(rules)
    ensures analysis == Analyze(text, rules)
  {
    var acc := Initial;
    var lower := LowerStr(text);
    ghost var final := AggregateFrom(Initial, Scan(lower, rules, 0));
    var r := 0;
    while r < |rules|
      invariant 0 <= r <= |rules|
      invariant AggregateFrom(acc, Scan(lower, rules, r)) == final
    {
      ghost var here := RuleOccurrences(lower, rules[r], r, 0);
      assert Scan(lower, rules, r) == here + Scan(lower, rules, r + 1);
      AggregateAppend(acc, here, Scan(lower, rules, r + 1));
      acc := ScanRule(lower, rules[r], r, acc);
      r := r + 1;
    }
    analysis := Analysis(acc.annotations, acc.results, acc.counts);
  }
}
