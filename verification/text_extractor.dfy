/** The three text cleaners of ml/data_collection/text_extractor.py and the
    order in which `extract_text` applies them. Each splits the text on
    '\n', works on the lines, and joins them again with '\n'. */
module TextExtractor {
  import opened Strings

  function Lines(text: string): seq<string> {
    Split(text, '\n')
  }

  function Unlines(lines: seq<string>): string {
    Join(lines, '\n')
  }

  /** A join of newline-free lines splits back into them; an empty list of
      lines joins to "", which is one (empty) line. */
  lemma LinesUnlines(lines: seq<string>)
    requires forall i :: 0 <= i < |lines| ==> '\n' !in lines[i]
    ensures |lines| > 0 ==> Lines(Unlines(lines)) == lines
    ensures |lines| == 0 ==> Lines(Unlines(lines)) == [""]
  {
    if |lines| > 0 {
      SplitJoin(lines, '\n');
    }
  }

  // ---------------------------------------------------------------------
  // `_remove_headers_footers`

  /** How many of `lines` strip to `s`; `line_counts[s]` for non-empty `s`. */
  function Occurrences(lines: seq<string>, s: string): nat
    decreases |lines|
  {
    if |lines| == 0 then 0
    else Occurrences(lines[..|lines| - 1], s) + (if Strip(lines[|lines| - 1]) == s then 1 else 0)
  }

  /** A non-blank line is dropped when its stripped form is a common line
      (more than three occurrences), a page number (all digits), or short
      (under 20 characters) and seen more than twice. */
  predicate Dropped(all: seq<string>, line: string) {
    var s := Strip(line);
    s != "" && (Occurrences(all, s) > 3 || AllDigits(s) || (|s| < 20 && Occurrences(all, s) > 2))
  }

  /** What the second loop keeps of `xs`, given the counts taken over
      `all`: blank lines become "", dropped lines vanish, the rest stay
      as they are. */
  function Kept(all: seq<string>, xs: seq<string>): seq<string>
    decreases |xs|
  {
    if |xs| == 0 then []
    else
      var line := xs[|xs| - 1];
      Kept(all, xs[..|xs| - 1])
      + (if Strip(line) == "" then [""] else if Dropped(all, line) then [] else [line])
  }

  function RemoveHeadersFooters(text: string): string {
    Unlines(Kept(Lines(text), Lines(text)))
  }

  /** `a` is `b` with some entries left out, order kept. */
  predicate IsSubsequence<T(==)>(a: seq<T>, b: seq<T>)
    decreases |b|
  {
    if |b| == 0 then |a| == 0
    else
      || (|a| > 0 && a[|a| - 1] == b[|b| - 1] && IsSubsequence(a[..|a| - 1], b[..|b| - 1]))
      || IsSubsequence(a, b[..|b| - 1])
  }

  /** A whitespace-only line shows up as "". */
  function Blanked(line: string): string {
    if Strip(line) == "" then "" else line
  }

  function BlankedAll(xs: seq<string>): (r: seq<string>)
    ensures |r| == |xs|
    ensures forall i :: 0 <= i < |xs| ==> r[i] == Blanked(xs[i])
  {
    seq(|xs|, i requires 0 <= i < |xs| => Blanked(xs[i]))
  }

  /** The surviving lines appear in their original order, with blank lines
      turned into "", and there are no more of them than input lines. */
  lemma {:induction false} KeptOrder(all: seq<string>, xs: seq<string>)
    ensures IsSubsequence(Kept(all, xs), BlankedAll(xs))
    ensures |Kept(all, xs)| <= |xs|
    decreases |xs|
  {
    if |xs| > 0 {
      var init := xs[..|xs| - 1];
      var line := xs[|xs| - 1];
      var k := Kept(all, init);
      KeptOrder(all, init);
      var b := BlankedAll(xs);
      assert b[..|b| - 1] == BlankedAll(init);
      assert b[|b| - 1] == Blanked(line);
      var r := Kept(all, xs);
      if Strip(line) == "" || !Dropped(all, line) {
        assert r == k + [Blanked(line)];
        assert r[..|r| - 1] == k;
      } else {
        assert r == k;
      }
    }
  }

  /** A non-blank input line is in the output exactly when it is not
      dropped; every output line is "" or such a line. */
  lemma {:induction false} KeptMembers(all: seq<string>, xs: seq<string>)
    ensures forall line :: line in xs && Strip(line) != "" ==>
      (line in Kept(all, xs) <==> !Dropped(all, line))
    ensures forall line :: line in Kept(all, xs) ==>
      line == "" || (line in xs && !Dropped(all, line))
    decreases |xs|
  {
    if |xs| > 0 {
      var init := xs[..|xs| - 1];
      KeptMembers(all, init);
      assert xs == init + [xs[|xs| - 1]];
    }
  }

  /** Every copy of a surviving line is kept: a non-blank line occurs in
      the output as often as in the input, or not at all when it is
      dropped. */
  lemma {:induction false} KeptCounts(all: seq<string>, xs: seq<string>)
    ensures forall line :: Strip(line) != "" ==>
      multiset(Kept(all, xs))[line] == (if Dropped(all, line) then 0 else multiset(xs)[line])
    decreases |xs|
  {
    if |xs| > 0 {
      var init := xs[..|xs| - 1];
      var last := xs[|xs| - 1];
      KeptCounts(all, init);
      assert xs == init + [last];
      var tail: seq<string> := if Strip(last) == "" then [""] else if Dropped(all, last) then [] else [last];
      assert Kept(all, xs) == Kept(all, init) + tail;
      assert Strip("") == "";
      forall line | Strip(line) != ""
        ensures multiset(Kept(all, xs))[line] == (if Dropped(all, line) then 0 else multiset(xs)[line])
      {
        assert multiset(Kept(all, xs))[line] == multiset(Kept(all, init))[line] + multiset(tail)[line];
        assert multiset(xs)[line] == multiset(init)[line] + multiset([last])[line];
      }
    }
  }

  /** Blank lines are kept as "": the output has exactly as many
      whitespace-only lines as the input. */
  lemma {:induction false} KeptBlanks(all: seq<string>, xs: seq<string>)
    ensures Occurrences(Kept(all, xs), "") == Occurrences(xs, "")
    decreases |xs|
  {
    if |xs| > 0 {
      var init := xs[..|xs| - 1];
      var line := xs[|xs| - 1];
      KeptBlanks(all, init);
      var k := Kept(all, init);
      var tail: seq<string> := if Strip(line) == "" then [""] else if Dropped(all, line) then [] else [line];
      OccurrencesAppend(k, tail, "");
      assert Strip("") == "";
    }
  }

  lemma {:induction false} OccurrencesAppend(a: seq<string>, b: seq<string>, s: string)
    ensures Occurrences(a + b, s) == Occurrences(a, s) + Occurrences(b, s)
    decreases |b|
  {
    if |b| == 0 {
      assert a + b == a;
    } else {
      assert (a + b)[..|a + b| - 1] == a + b[..|b| - 1];
      OccurrencesAppend(a, b[..|b| - 1], s);
    }
  }

  /** The lines of the output are the kept lines (one empty line when none
      is kept), so the line count never grows. */
  lemma RemoveHeadersFootersLines(text: string)
    ensures var kept := Kept(Lines(text), Lines(text));
      Lines(RemoveHeadersFooters(text)) == (if |kept| == 0 then [""] else kept)
    ensures |Lines(RemoveHeadersFooters(text))| <= |Lines(text)|
  {
    var lines := Lines(text);
    var kept := Kept(lines, lines);
    KeptOrder(lines, lines);
    KeptMembers(lines, lines);
    forall i | 0 <= i < |kept| ensures '\n' !in kept[i] {
      assert kept[i] in kept;
    }
    LinesUnlines(kept);
  }

  /** `line_counts.get(s, 0)`. */
  function Lookup(counts: map<string, nat>, s: string): nat {
    if s in counts then counts[s] else 0
  }

  lemma OccurrencesPrefix(lines: seq<string>, i: nat, s: string)
    requires i < |lines|
    ensures Occurrences(lines[..i + 1], s) == Occurrences(lines[..i], s) + (if Strip(lines[i]) == s then 1 else 0)
  {
    assert lines[..i + 1][..i] == lines[..i];
    assert lines[..i + 1][i] == lines[i];
  }

  /** The first loop: counts of the non-empty stripped lines. */
  method CountLines(lines: seq<string>) returns (counts: map<string, nat>)
    ensures forall s :: s != "" ==> Lookup(counts, s) == Occurrences(lines, s)
    ensures "" !in counts
  {
    counts := map[];
    var i := 0;
    while i < |lines|
      invariant 0 <= i <= |lines|
      invariant forall s :: s != "" ==> Lookup(counts, s) == Occurrences(lines[..i], s)
      invariant "" !in counts
    {
      var stripped := Strip(lines[i]);
      if stripped != "" {
        counts := counts[stripped := Lookup(counts, stripped) + 1];
      }
      forall s | s != "" ensures Lookup(counts, s) == Occurrences(lines[..i + 1], s) {
        OccurrencesPrefix(lines, i, s);
      }
      i := i + 1;
    }
    assert lines[..|lines|] == lines;
  }

  /** `_remove_headers_footers` with its two loops. */
  method RemoveHeadersFootersLoop(text: string) returns (r: string)
    ensures r == RemoveHeadersFooters(text)
  {
    var lines := Lines(text);
    var counts := CountLines(lines);
    var cleaned: seq<string> := [];
    var i := 0;
    while i < |lines|
      invariant 0 <= i <= |lines|
      invariant cleaned == Kept(lines, lines[..i])
    {
      var line := lines[i];
      var stripped := Strip(line);
      assert lines[..i + 1][..i] == lines[..i];
      if stripped == "" {
        cleaned := cleaned + [""];
      } else if Lookup(counts, stripped) > 3 {
      } else if AllDigits(stripped) {
      } else if |stripped| < 20 && Lookup(counts, stripped) > 2 {
      } else {
        cleaned := cleaned + [line];
      }
      i := i + 1;
    }
    assert lines[..|lines|] == lines;
    r := Unlines(cleaned);
  }

  // ---------------------------------------------------------------------
  // `_remove_references`

  /** `word\s+cited` and nothing else. */
  predicate CitedHeading(s: string, word: string) {
    && |s| > |word| + 5
    && s[..|word|] == word
    && s[|s| - 5..] == "cited"
    && AllSpace(s[|word|..|s| - 5])
  }

  /** The stripped, lower-cased line matches one of the four reference
      section patterns. Trailing `\s*` in the patterns can only match the
      empty string here, since the line is already stripped. */
  predicate IsHeading(line: string) {
    var s := LowerStr(Strip(line));
    s == "references" || s == "bibliography" || CitedHeading(s, "works") || CitedHeading(s, "literature")
  }

  /** The lines before the first reference heading. */
  function BeforeHeading(lines: seq<string>): seq<string>
    decreases |lines|
  {
    if |lines| == 0 then []
    else if IsHeading(lines[0]) then []
    else [lines[0]] + BeforeHeading(lines[1..])
  }

  /** The kept lines are a prefix without any heading, and the line after
      them, if any, is a heading. */
  lemma {:induction false} BeforeHeadingSpec(lines: seq<string>)
    ensures |BeforeHeading(lines)| <= |lines|
    ensures BeforeHeading(lines) == lines[..|BeforeHeading(lines)|]
    ensures forall i :: 0 <= i < |BeforeHeading(lines)| ==> !IsHeading(lines[i])
    ensures |BeforeHeading(lines)| < |lines| ==> IsHeading(lines[|BeforeHeading(lines)|])
    decreases |lines|
  {
    if |lines| > 0 && !IsHeading(lines[0]) {
      var rest := BeforeHeading(lines[1..]);
      BeforeHeadingSpec(lines[1..]);
      assert BeforeHeading(lines) == [lines[0]] + rest;
      assert lines[..|rest| + 1] == [lines[0]] + lines[1..][..|rest|];
      forall i | 0 <= i < |rest| + 1 ensures !IsHeading(lines[i]) {
        if i > 0 {
          assert lines[i] == lines[1..][i - 1];
        }
      }
      if |rest| + 1 < |lines| {
        assert lines[|rest| + 1] == lines[1..][|rest|];
      }
    }
  }

  function RemoveReferences(text: string): string {
    Unlines(BeforeHeading(Lines(text)))
  }

  /** Without a heading nothing is removed. */
  lemma NoHeadingKeepsAll(lines: seq<string>)
    requires forall i :: 0 <= i < |lines| ==> !IsHeading(lines[i])
    ensures BeforeHeading(lines) == lines
  {
    BeforeHeadingSpec(lines);
    assert lines[..|lines|] == lines;
  }

  /** The lines of the output are those before the first heading (one
      empty line when the text starts with one). */
  lemma RemoveReferencesLines(text: string)
    ensures var before := BeforeHeading(Lines(text));
      Lines(RemoveReferences(text)) == (if |before| == 0 then [""] else before)
    ensures |Lines(RemoveReferences(text))| <= |Lines(text)|
  {
    var lines := Lines(text);
    var before := BeforeHeading(lines);
    BeforeHeadingSpec(lines);
    forall i | 0 <= i < |before| ensures '\n' !in before[i] {
      assert before[i] == lines[i];
    }
    LinesUnlines(before);
  }

  /** Python's `str.isupper` over ASCII: some upper-case letter and no
      lower-case one. */
  predicate IsUpper(s: string) {
    (exists i :: 0 <= i < |s| && 'A' <= s[i] <= 'Z') && (forall i :: 0 <= i < |s| ==> !('a' <= s[i] <= 'z'))
  }

  /** A lower-cased string is never upper-case, so the all-caps branch of
      `_remove_references` is never taken. */
  lemma LoweredNotUpper(s: string)
    ensures !IsUpper(LowerStr(s))
  {
    var l := LowerStr(s);
    forall i | 0 <= i < |l| ensures !('A' <= l[i] <= 'Z') {
      assert l[i] == Lower(s[i]);
    }
  }

  /** The line at index `i` is a heading exactly when `i` is the cut
      point, as long as `i` is not past it. */
  lemma HeadingAt(lines: seq<string>, i: nat)
    requires i < |lines| && i <= |BeforeHeading(lines)|
    ensures IsHeading(lines[i]) <==> i == |BeforeHeading(lines)|
  {
    BeforeHeadingSpec(lines);
  }

  /** `_remove_references` with its `in_references` flag. */
  method RemoveReferencesLoop(text: string) returns (r: string)
    ensures r == RemoveReferences(text)
  {
    var lines := Lines(text);
    BeforeHeadingSpec(lines);
    ghost var h := |BeforeHeading(lines)|;
    var cleaned: seq<string> := [];
    var inReferences := false;
    var i := 0;
    while i < |lines|
      invariant 0 <= i <= |lines|
      invariant !inReferences ==> i <= h && cleaned == lines[..i]
      invariant inReferences ==> h < i && cleaned == lines[..h]
    {
      var line := lines[i];
      if !inReferences {
        HeadingAt(lines, i);
        if IsHeading(line) {
          inReferences := true;
        } else {
          assert lines[..i + 1] == lines[..i] + [line];
          cleaned := cleaned + [line];
        }
      } else {
        var stripped := LowerStr(Strip(line));
        if |stripped| > 0 && IsUpper(stripped) && |stripped| < 50 {
          // The source's `pass`: a heading in capitals changes nothing.
        }
      }
      i := i + 1;
    }
    assert cleaned == BeforeHeading(lines) by {
      assert lines[..|lines|] == lines;
    }
    r := Unlines(cleaned);
  }

  // ---------------------------------------------------------------------
  // `_normalize_whitespace`

  /** `re.sub(c + '{' + (k+1) + ',}' ...)`-style capping: every maximal run
      of `c` longer than `k` is cut to `k` characters. `run` is the number
      of `c`s immediately before `s` in the input. `Cap(s, ' ', 1, 0)` is
      `re.sub(r' +', ' ', s)` and `Cap(s, '\n', 2, 0)` is
      `re.sub(r'\n{3,}', '\n\n', s)`. */
  function Cap(s: string, c: char, k: nat, run: nat): string
    decreases |s|
  {
    if |s| == 0 then ""
    else if s[0] == c then
      var rest := Cap(s[1..], c, k, run + 1);
      if run < k then [c] + rest else rest
    else
      [s[0]] + Cap(s[1..], c, k, 0)
  }

  /** Capping only drops copies of `c`: every other character stays, in
      order, and a first character that is not dropped stays first. */
  lemma {:induction false} CapSpec(s: string, c: char, k: nat, run: nat)
    ensures |Cap(s, c, k, run)| <= |s|
    ensures Remove(Cap(s, c, k, run), c) == Remove(s, c)
    ensures CountChar(Cap(s, c, k, run), c) <= CountChar(s, c)
    ensures |s| > 0 && (s[0] != c || run < k) ==>
      |Cap(s, c, k, run)| > 0 && Cap(s, c, k, run)[0] == s[0]
    decreases |s|
  {
    if |s| > 0 {
      var next := if s[0] == c then run + 1 else 0;
      var rest := Cap(s[1..], c, k, next);
      CapSpec(s[1..], c, k, next);
      if s[0] != c || run < k {
        var r := [s[0]] + rest;
        assert r[0] == s[0] && r[1..] == rest;
      }
    }
  }

  /** `s` without any `c`. */
  function Remove(s: string, c: char): string
    decreases |s|
  {
    if |s| == 0 then "" else (if s[0] == c then "" else [s[0]]) + Remove(s[1..], c)
  }

  /** The number of `c`s `s` starts with. */
  function Lead(s: string, c: char): nat
    decreases |s|
  {
    if |s| > 0 && s[0] == c then 1 + Lead(s[1..], c) else 0
  }

  /** No run of `c` in `s` is longer than `k`. */
  predicate RunsAtMost(s: string, c: char, k: nat) {
    forall i :: 0 <= i <= |s| ==> Lead(s[i..], c) <= k
  }

  /** After capping, no run of `c` is longer than `k`, and the output
      starts with no more `c`s than the run before it leaves room for. */
  lemma {:induction false} CapRuns(s: string, c: char, k: nat, run: nat)
    ensures Lead(Cap(s, c, k, run), c) <= (if run >= k then 0 else k - run)
    ensures RunsAtMost(Cap(s, c, k, run), c, k)
    decreases |s|
  {
    var r := Cap(s, c, k, run);
    if |s| == 0 {
      assert r == "";
      assert forall i :: 0 <= i <= |r| ==> r[i..] == "";
    } else {
      var next := if s[0] == c then run + 1 else 0;
      var rest := Cap(s[1..], c, k, next);
      CapRuns(s[1..], c, k, next);
      var head: string := if s[0] == c then (if run < k then [c] else []) else [s[0]];
      assert r == head + rest;
      forall i | 0 <= i <= |r| ensures Lead(r[i..], c) <= k {
        if i >= |head| {
          assert r[i..] == rest[i - |head|..];
        } else {
          assert i == 0 && r[1..] == rest;
        }
      }
    }
  }

  /** Dropping the first character keeps the run bound. */
  lemma RunsAtMostTail(s: string, c: char, k: nat)
    requires |s| > 0 && RunsAtMost(s, c, k)
    ensures RunsAtMost(s[1..], c, k)
  {
    forall i | 0 <= i <= |s[1..]| ensures Lead(s[1..][i..], c) <= k {
      assert s[1..][i..] == s[i + 1..];
    }
  }

  /** Capping is the identity where no run is too long already. */
  lemma {:induction false} CapIdentity(s: string, c: char, k: nat, run: nat)
    requires RunsAtMost(s, c, k) && Lead(s, c) + run <= k
    ensures Cap(s, c, k, run) == s
    decreases |s|
  {
    if |s| > 0 {
      RunsAtMostTail(s, c, k);
      assert s[1..] == s[1..][0..];
      var next := if s[0] == c then run + 1 else 0;
      CapIdentity(s[1..], c, k, next);
      assert s == [s[0]] + s[1..];
    }
  }

  /** `n` copies of `c`. */
  function Rep(c: char, n: nat): (r: string)
    ensures |r| == n && forall i :: 0 <= i < n ==> r[i] == c
  {
    seq(n, i => c)
  }

  function Min(a: int, b: int): int {
    if a < b then a else b
  }

  /** `Lead` counts exactly the leading run: all of it is `c`, and the
      character after it is not. */
  lemma {:induction false} LeadSpec(s: string, c: char)
    ensures Lead(s, c) <= |s|
    ensures forall i :: 0 <= i < Lead(s, c) ==> s[i] == c
    ensures Lead(s, c) < |s| ==> s[Lead(s, c)] != c
    decreases |s|
  {
    if |s| > 0 && s[0] == c {
      LeadSpec(s[1..], c);
    }
  }

  /** The reference for `Cap`, run by run: each maximal run of `c` is
      shortened to `min(length, k)` characters and everything between runs
      is kept. */
  function Squeeze(s: string, c: char, k: nat): string
    decreases |s|
  {
    var n := Lead(s, c);
    Rep(c, Min(n, k)) + (if n >= |s| then "" else [s[n]] + Squeeze(s[n + 1..], c, k))
  }

  /** How many of a run of `n` that follows `run` earlier copies survive. */
  function Kept1(n: nat, run: nat, k: nat): nat {
    if run >= k then 0 else Min(n, k - run)
  }

  /** What follows the leading run of `c`, capped afresh. */
  function AfterRun(s: string, c: char, k: nat): string {
    if Lead(s, c) >= |s| then "" else [s[Lead(s, c)]] + Cap(s[Lead(s, c) + 1..], c, k, 0)
  }

  /** Dropping one copy of `c` from the front leaves what follows the
      run alone. */
  lemma AfterRunTail(s: string, c: char, k: nat)
    requires |s| > 0 && s[0] == c
    ensures AfterRun(s, c, k) == AfterRun(s[1..], c, k)
  {
    var m := Lead(s[1..], c);
    assert Lead(s, c) == m + 1;
    if m < |s| - 1 {
      assert s[1..][m] == s[m + 1] && s[1..][m + 1..] == s[m + 2..];
    }
  }

  /** `Cap` keeps `Kept1` copies of the leading run, then the character
      that ends the run, then caps the rest afresh. */
  lemma {:induction false} CapBlock(s: string, c: char, k: nat, run: nat)
    ensures Cap(s, c, k, run) == Rep(c, Kept1(Lead(s, c), run, k)) + AfterRun(s, c, k)
    decreases |s|
  {
    if |s| > 0 && s[0] == c {
      CapBlock(s[1..], c, k, run + 1);
      CapBlockStep(s, c, k, run);
    } else {
      assert Rep(c, 0) == "";
    }
  }

  /** One step of `CapBlock`: a leading `c` joins the run of the rest. */
  lemma CapBlockStep(s: string, c: char, k: nat, run: nat)
    requires |s| > 0 && s[0] == c
    requires Cap(s[1..], c, k, run + 1) == Rep(c, Kept1(Lead(s[1..], c), run + 1, k)) + AfterRun(s[1..], c, k)
    ensures Cap(s, c, k, run) == Rep(c, Kept1(Lead(s, c), run, k)) + AfterRun(s, c, k)
  {
    var m := Lead(s[1..], c);
    assert Lead(s, c) == m + 1;
    AfterRunTail(s, c, k);
    KeptRun(Cap(s[1..], c, k, run + 1), c, m, run, k, AfterRun(s, c, k));
  }

  /** The arithmetic of one step: a copy of `c` in front of the rest's
      run is kept exactly when the run so far leaves room. */
  lemma KeptRun(rest: string, c: char, m: nat, run: nat, k: nat, after: string)
    requires rest == Rep(c, Kept1(m, run + 1, k)) + after
    ensures (if run < k then [c] + rest else rest) == Rep(c, Kept1(m + 1, run, k)) + after
  {
    var x := Kept1(m, run + 1, k);
    if run < k {
      assert Kept1(m + 1, run, k) == x + 1;
      RepCons(c, x);
      assert [c] + (Rep(c, x) + after) == ([c] + Rep(c, x)) + after;
    } else {
      assert Kept1(m + 1, run, k) == 0 && x == 0;
    }
  }

  lemma RepCons(c: char, n: nat)
    ensures Rep(c, n + 1) == [c] + Rep(c, n)
  {
  }

  /** `Cap` from an empty run is the run-by-run reference. */
  lemma {:induction false} CapSqueeze(s: string, c: char, k: nat)
    ensures Cap(s, c, k, 0) == Squeeze(s, c, k)
    decreases |s|
  {
    CapBlock(s, c, k, 0);
    LeadSpec(s, c);
    var n := Lead(s, c);
    assert Kept1(n, 0, k) == Min(n, k);
    if n < |s| {
      CapSqueeze(s[n + 1..], c, k);
      assert AfterRun(s, c, k) == [s[n]] + Squeeze(s[n + 1..], c, k);
    } else {
      assert AfterRun(s, c, k) == "";
    }
  }

  lemma {:induction false} LeadRep(c: char, n: nat, t: string)
    ensures Lead(Rep(c, n) + t, c) == n + Lead(t, c)
    decreases n
  {
    if n > 0 {
      assert (Rep(c, n) + t)[1..] == Rep(c, n - 1) + t;
      LeadRep(c, n - 1, t);
    } else {
      assert Rep(c, n) + t == t;
    }
  }

  /** The leading run of the output is exactly the surviving part of the
      input's leading run: `min(length, k)` copies from an empty run. */
  lemma CapLead(s: string, c: char, k: nat, run: nat)
    ensures Lead(Cap(s, c, k, run), c) == Kept1(Lead(s, c), run, k)
  {
    CapBlock(s, c, k, run);
    LeadSpec(s, c);
    var n := Lead(s, c);
    LeadRep(c, Kept1(n, run, k), AfterRun(s, c, k));
  }

  /** Capping `c` leaves the count of any other character alone. */
  lemma {:induction false} CapCountOther(s: string, c: char, d: char, k: nat, run: nat)
    requires c != d
    ensures CountChar(Cap(s, c, k, run), d) == CountChar(s, d)
    decreases |s|
  {
    if |s| > 0 {
      var next := if s[0] == c then run + 1 else 0;
      CapCountOther(s[1..], c, d, k, next);
      var head: string := if s[0] == c then (if run < k then [c] else []) else [s[0]];
      CountCharAppend(head, Cap(s[1..], c, k, next), d);
    }
  }

  lemma {:induction false} CountCharAppend(a: string, b: string, d: char)
    ensures CountChar(a + b, d) == CountChar(a, d) + CountChar(b, d)
    decreases |a|
  {
    if |a| == 0 {
      assert a + b == b;
    } else {
      assert (a + b)[0] == a[0] && (a + b)[1..] == a[1..] + b;
      CountCharAppend(a[1..], b, d);
    }
  }

  /** No two consecutive `c`s. */
  predicate NoPair(s: string, c: char) {
    forall i :: 0 <= i < |s| - 1 ==> !(s[i] == c && s[i + 1] == c)
  }

  lemma RunsAtMostOne(s: string, c: char)
    requires RunsAtMost(s, c, 1)
    ensures NoPair(s, c)
  {
    forall i | 0 <= i < |s| - 1 ensures !(s[i] == c && s[i + 1] == c) {
      assert s[i..][1..] == s[i + 1..];
      assert s[i + 1..][1..] == s[i + 2..];
      assert Lead(s[i..], c) <= 1;
      assert s[i] == c ==> Lead(s[i..], c) == 1 + Lead(s[i + 1..], c);
      assert s[i + 1] == c ==> Lead(s[i + 1..], c) == 1 + Lead(s[i + 2..], c);
    }
  }

  /** Capping one character never makes two of another one adjacent,
      because a run is never removed completely. */
  lemma {:induction false} CapKeepsNoPair(s: string, c: char, d: char, k: nat, run: nat)
    requires c != d && k >= 1
    requires NoPair(s, d)
    ensures NoPair(Cap(s, c, k, run), d)
    decreases |s|
  {
    if |s| > 0 {
      var next := if s[0] == c then run + 1 else 0;
      assert NoPair(s[1..], d) by {
        forall i | 0 <= i < |s[1..]| - 1 ensures !(s[1..][i] == d && s[1..][i + 1] == d) {
          assert s[1..][i] == s[i + 1] && s[1..][i + 1] == s[i + 2];
        }
      }
      CapKeepsNoPair(s[1..], c, d, k, next);
      var rest := Cap(s[1..], c, k, next);
      var r := Cap(s, c, k, run);
      if s[0] == c {
        var head: string := if run < k then [c] else [];
        assert r == head + rest;
        forall i | 0 <= i < |r| - 1 ensures !(r[i] == d && r[i + 1] == d) {
          if i >= |head| {
            assert r[i] == rest[i - |head|] && r[i + 1] == rest[i + 1 - |head|];
          }
        }
      } else {
        assert r == [s[0]] + rest;
        forall i | 0 <= i < |r| - 1 ensures !(r[i] == d && r[i + 1] == d) {
          if i >= 1 {
            assert r[i] == rest[i - 1] && r[i + 1] == rest[i];
          } else {
            assert r[1] == rest[0] == s[1];
          }
        }
      }
    }
  }

  /** Every piece of a split has the no-pair property of the whole. */
  lemma {:induction false} SplitNoPair(s: string, sep: char, d: char)
    requires sep != d && NoPair(s, d)
    ensures forall i :: 0 <= i < |Split(s, sep)| ==> NoPair(Split(s, sep)[i], d)
    decreases |s|
  {
    if |s| > 0 {
      assert NoPair(s[1..], d) by {
        forall i | 0 <= i < |s[1..]| - 1 ensures !(s[1..][i] == d && s[1..][i + 1] == d) {
          assert s[1..][i] == s[i + 1] && s[1..][i + 1] == s[i + 2];
        }
      }
      SplitNoPair(s[1..], sep, d);
      var rest := Split(s[1..], sep);
      if s[0] != sep {
        var first := [s[0]] + rest[0];
        forall i | 0 <= i < |first| - 1 ensures !(first[i] == d && first[i + 1] == d) {
          if i >= 1 {
            assert first[i] == rest[0][i - 1] && first[i + 1] == rest[0][i];
          } else {
            assert first[1] == rest[0][0];
          }
        }
        var r := Split(s, sep);
        assert r == [first] + rest[1..];
        forall i | 0 <= i < |r| ensures NoPair(r[i], d) {
          if i > 0 {
            assert r[i] == rest[i];
          }
        }
      }
    }
  }

  /** Joining pieces without pairs by a different separator gives no
      pairs. */
  lemma {:induction false} JoinNoPair(lines: seq<string>, sep: char, d: char)
    requires sep != d
    requires forall i :: 0 <= i < |lines| ==> NoPair(lines[i], d)
    ensures NoPair(Join(lines, sep), d)
    decreases |lines|
  {
    if |lines| > 1 {
      JoinNoPair(lines[1..], sep, d);
      var a := lines[0];
      var b := Join(lines[1..], sep);
      var j := a + [sep] + b;
      assert j == Join(lines, sep);
      forall i | 0 <= i < |j| - 1 ensures !(j[i] == d && j[i + 1] == d) {
        if i < |a| - 1 {
          assert j[i] == a[i] && j[i + 1] == a[i + 1];
        } else if i > |a| {
          assert j[i] == b[i - |a| - 1] && j[i + 1] == b[i - |a|];
        } else if i == |a| {
          assert j[i] == sep;
        } else {
          assert j[i + 1] == sep;
        }
      }
    }
  }

  function RStripAll(lines: seq<string>): (r: seq<string>)
    ensures |r| == |lines|
    ensures forall i :: 0 <= i < |lines| ==> r[i] == RStrip(lines[i])
    decreases |lines|
  {
    if |lines| == 0 then [] else [RStrip(lines[0])] + RStripAll(lines[1..])
  }

  /** `_normalize_whitespace`: squeeze runs of spaces, cut runs of three or
      more newlines to two, then strip every line on the right. */
  function NormalizeWhitespace(text: string): string {
    var t := Cap(Cap(text, ' ', 1, 0), '\n', 2, 0);
    Unlines(RStripAll(Lines(t)))
  }

  /** After the two substitutions there are no two adjacent spaces and no
      run of three newlines. */
  lemma Substitutions(text: string)
    ensures var t := Cap(Cap(text, ' ', 1, 0), '\n', 2, 0);
      NoPair(t, ' ') && RunsAtMost(t, '\n', 2)
    ensures CountChar(Cap(Cap(text, ' ', 1, 0), '\n', 2, 0), '\n') <= CountChar(text, '\n')
  {
    var spaced := Cap(text, ' ', 1, 0);
    CapRuns(text, ' ', 1, 0);
    RunsAtMostOne(spaced, ' ');
    CapKeepsNoPair(spaced, '\n', ' ', 2, 0);
    CapRuns(spaced, '\n', 2, 0);
    CapCountOther(text, ' ', '\n', 1, 0);
    CapSpec(spaced, '\n', 2, 0);
  }

  /** A prefix keeps the no-pair property. */
  lemma NoPairPrefix(s: string, n: nat, d: char)
    requires n <= |s| && NoPair(s, d)
    ensures NoPair(s[..n], d)
  {
    assert forall j :: 0 <= j < n ==> s[..n][j] == s[j];
  }

  /** Right-stripping pair-free, newline-free lines keeps them so and
      leaves no whitespace at their ends. */
  lemma StrippedLines(pieces: seq<string>)
    requires forall i :: 0 <= i < |pieces| ==> NoPair(pieces[i], ' ') && '\n' !in pieces[i]
    ensures forall i :: 0 <= i < |pieces| ==>
      var line := RStripAll(pieces)[i];
      NoPair(line, ' ') && '\n' !in line && (line == "" || !IsSpace(line[|line| - 1]))
  {
    var stripped := RStripAll(pieces);
    forall i | 0 <= i < |pieces|
      ensures NoPair(stripped[i], ' ') && '\n' !in stripped[i]
      ensures stripped[i] == "" || !IsSpace(stripped[i][|stripped[i]| - 1])
    {
      RStripSpec(pieces[i]);
      NoPairPrefix(pieces[i], |stripped[i]|, ' ');
      assert stripped[i] == pieces[i][..|stripped[i]|];
    }
  }

  /** The last two stages on a text without two adjacent spaces. */
  lemma StripStage(t: string)
    requires NoPair(t, ' ')
    ensures NoPair(Unlines(RStripAll(Lines(t))), ' ')
    ensures Lines(Unlines(RStripAll(Lines(t)))) == RStripAll(Lines(t))
    ensures forall i :: 0 <= i < |Lines(t)| ==>
      var line := RStripAll(Lines(t))[i];
      line == "" || !IsSpace(line[|line| - 1])
  {
    var pieces := Lines(t);
    var stripped := RStripAll(pieces);
    SplitNoPair(t, '\n', ' ');
    StrippedLines(pieces);
    JoinNoPair(stripped, '\n', ' ');
    LinesUnlines(stripped);
  }

  /** `s` with all whitespace removed: the text's visible content. */
  function Ink(s: string): string
    decreases |s|
  {
    if |s| == 0 then "" else (if IsSpace(s[0]) then "" else [s[0]]) + Ink(s[1..])
  }

  lemma {:induction false} InkAppend(a: string, b: string)
    ensures Ink(a + b) == Ink(a) + Ink(b)
    decreases |a|
  {
    if |a| == 0 {
      assert a + b == b;
    } else {
      assert (a + b)[0] == a[0] && (a + b)[1..] == a[1..] + b;
      InkAppend(a[1..], b);
    }
  }

  /** Capping a whitespace character keeps the visible content. */
  lemma {:induction false} InkCap(s: string, c: char, k: nat, run: nat)
    requires IsSpace(c)
    ensures Ink(Cap(s, c, k, run)) == Ink(s)
    decreases |s|
  {
    if |s| > 0 {
      var next := if s[0] == c then run + 1 else 0;
      InkCap(s[1..], c, k, next);
      var head: string := if s[0] == c then (if run < k then [c] else []) else [s[0]];
      InkAppend(head, Cap(s[1..], c, k, next));
    }
  }

  lemma {:induction false} InkRStrip(s: string)
    ensures Ink(RStrip(s)) == Ink(s)
    decreases |s|
  {
    if |s| > 0 && IsSpace(s[|s| - 1]) {
      var init := s[..|s| - 1];
      InkRStrip(init);
      assert s == init + [s[|s| - 1]];
      InkAppend(init, [s[|s| - 1]]);
    }
  }

  /** Right-stripping every line and joining on a whitespace separator
      keeps the visible content of the join. */
  lemma {:induction false} InkStripJoin(lines: seq<string>, sep: char)
    requires IsSpace(sep)
    ensures Ink(Join(RStripAll(lines), sep)) == Ink(Join(lines, sep))
    decreases |lines|
  {
    var r := RStripAll(lines);
    if |lines| == 1 {
      InkRStrip(lines[0]);
    } else if |lines| > 1 {
      assert r[1..] == RStripAll(lines[1..]);
      InkStripJoin(lines[1..], sep);
      InkRStrip(lines[0]);
      InkAppend(r[0] + [sep], Join(r[1..], sep));
      InkAppend(r[0], [sep]);
      InkAppend(lines[0] + [sep], Join(lines[1..], sep));
      InkAppend(lines[0], [sep]);
    }
  }

  /** Every visible character survives normalisation, in order. */
  lemma NormalizeInk(text: string)
    ensures Ink(NormalizeWhitespace(text)) == Ink(text)
  {
    var spaced := Cap(text, ' ', 1, 0);
    var t := Cap(spaced, '\n', 2, 0);
    InkCap(text, ' ', 1, 0);
    InkCap(spaced, '\n', 2, 0);
    InkStripJoin(Lines(t), '\n');
    JoinSplit(t, '\n');
  }

  /** The output has no two consecutive spaces. */
  lemma NormalizeNoDoubleSpace(text: string)
    ensures NoPair(NormalizeWhitespace(text), ' ')
  {
    Substitutions(text);
    StripStage(Cap(Cap(text, ' ', 1, 0), '\n', 2, 0));
  }

  /** No line of the output ends in whitespace. */
  lemma NormalizeLineEnds(text: string)
    ensures forall i :: 0 <= i < |Lines(NormalizeWhitespace(text))| ==>
      var line := Lines(NormalizeWhitespace(text))[i];
      line == "" || !IsSpace(line[|line| - 1])
  {
    var t := Cap(Cap(text, ' ', 1, 0), '\n', 2, 0);
    var stripped := RStripAll(Lines(t));
    Substitutions(text);
    StripStage(t);
    assert Lines(NormalizeWhitespace(text)) == stripped;
    forall i | 0 <= i < |stripped|
      ensures stripped[i] == "" || !IsSpace(stripped[i][|stripped[i]| - 1])
    {
    }
  }

  /** The output has no more lines than the input. */
  lemma NormalizeLineCount(text: string)
    ensures |Lines(NormalizeWhitespace(text))| <= |Lines(text)|
  {
    var t := Cap(Cap(text, ' ', 1, 0), '\n', 2, 0);
    Substitutions(text);
    StripStage(t);
    SplitLength(t, '\n');
    SplitLength(text, '\n');
  }

  /** The output has no two consecutive spaces, no line of it ends in
      whitespace, and it has no more lines than the input. */
  lemma NormalizeWhitespaceSpec(text: string)
    ensures NoPair(NormalizeWhitespace(text), ' ')
    ensures forall i :: 0 <= i < |Lines(NormalizeWhitespace(text))| ==>
      var line := Lines(NormalizeWhitespace(text))[i];
      line == "" || !IsSpace(line[|line| - 1])
    ensures |Lines(NormalizeWhitespace(text))| <= |Lines(text)|
    ensures Ink(NormalizeWhitespace(text)) == Ink(text)
  {
    NormalizeNoDoubleSpace(text);
    NormalizeLineEnds(text);
    NormalizeLineCount(text);
    NormalizeInk(text);
  }

  /** Chains the three stages of `NormalizeWhitespace` on given values. */
  lemma NormalizeSteps(s: string, t: string, pieces: seq<string>, stripped: seq<string>)
    requires Cap(Cap(s, ' ', 1, 0), '\n', 2, 0) == t
    requires Lines(t) == pieces && RStripAll(pieces) == stripped
    ensures NormalizeWhitespace(s) == Unlines(stripped)
  {
  }

  lemma FirstPassCaps()
    ensures Cap(Cap("a\n\n \n\nb", ' ', 1, 0), '\n', 2, 0) == "a\n\n \n\nb"
  {
    var s := "a\n\n \n\nb";
    assert Cap(s, ' ', 1, 0) == s;
    assert Cap(s, '\n', 2, 0) == s;
  }

  lemma FirstPassLines()
    ensures Lines("a\n\n \n\nb") == ["a", "", " ", "", "b"]
  {
    var lines := ["a", "", " ", "", "b"];
    assert Unlines(lines) == "a\n\n \n\nb";
    LinesUnlines(lines);
  }

  lemma FirstPassStrip()
    ensures RStripAll(["a", "", " ", "", "b"]) == ["a", "", "", "", "b"]
  {
    assert " "[..0] == "";
    assert RStrip(" ") == "";
    assert RStrip("a") == "a";
    assert RStrip("b") == "b";
  }

  lemma FirstPassJoin()
    ensures Unlines(["a", "", "", "", "b"]) == "a\n\n\n\nb"
  {
  }

  lemma FirstPass()
    ensures NormalizeWhitespace("a\n\n \n\nb") == "a\n\n\n\nb"
  {
    FirstPassCaps();
    FirstPassLines();
    FirstPassStrip();
    FirstPassJoin();
    NormalizeSteps("a\n\n \n\nb", "a\n\n \n\nb", ["a", "", " ", "", "b"], ["a", "", "", "", "b"]);
  }

  lemma SecondPassCaps()
    ensures Cap(Cap("a\n\n\n\nb", ' ', 1, 0), '\n', 2, 0) == "a\n\nb"
  {
    var s := "a\n\n\n\nb";
    assert Cap(s, ' ', 1, 0) == s;
    assert Cap(s, '\n', 2, 0) == "a\n\nb";
  }

  lemma SecondPassLines()
    ensures Lines("a\n\nb") == ["a", "", "b"]
  {
    var lines := ["a", "", "b"];
    assert Unlines(lines) == "a\n\nb";
    LinesUnlines(lines);
  }

  lemma SecondPassStrip()
    ensures RStripAll(["a", "", "b"]) == ["a", "", "b"]
  {
    assert RStrip("a") == "a";
    assert RStrip("b") == "b";
  }

  lemma SecondPass()
    ensures NormalizeWhitespace("a\n\n\n\nb") == "a\n\nb"
  {
    SecondPassCaps();
    SecondPassLines();
    SecondPassStrip();
    NormalizeSteps("a\n\n\n\nb", "a\n\nb", ["a", "", "b"], ["a", "", "b"]);
    assert Unlines(["a", "", "b"]) == "a\n\nb";
  }

  /** The final `rstrip` can bring back the runs the substitution removed:
      a whitespace-only line between blank ones becomes empty, so the
      output may hold three newlines in a row and a second pass changes it
      again. */
  lemma NormalizeWhitespaceNotIdempotent()
    ensures NormalizeWhitespace("a\n\n \n\nb") == "a\n\n\n\nb"
    ensures NormalizeWhitespace(NormalizeWhitespace("a\n\n \n\nb")) != NormalizeWhitespace("a\n\n \n\nb")
  {
    FirstPass();
    SecondPass();
  }

  // ---------------------------------------------------------------------
  // `_normalize_whitespace` with the newline substitution after the strip.

  /** No whitespace other than `sep` stands right before a `sep` or at the
      end, so no piece of a split at `sep` ends in whitespace. */
  predicate TrimmedEnds(s: string, sep: char) {
    forall i :: 0 <= i < |s| && IsSpace(s[i]) && s[i] != sep ==> i + 1 < |s| && s[i + 1] != sep
  }

  lemma TrimmedEndsTail(s: string, sep: char)
    requires |s| > 0 && TrimmedEnds(s, sep)
    ensures TrimmedEnds(s[1..], sep)
  {
    forall i | 0 <= i < |s[1..]| && IsSpace(s[1..][i]) && s[1..][i] != sep
      ensures i + 1 < |s[1..]| && s[1..][i + 1] != sep
    {
      assert s[1..][i] == s[i + 1];
    }
  }

  /** A line without `sep` that does not end in whitespace. */
  lemma LineTrimmed(a: string, sep: char)
    requires sep !in a && (a == "" || !IsSpace(a[|a| - 1]))
    ensures TrimmedEnds(a, sep)
  {
    forall i | 0 <= i < |a| && IsSpace(a[i]) && a[i] != sep ensures i + 1 < |a| && a[i + 1] != sep {
      assert i != |a| - 1;
      assert a[i + 1] in a;
    }
  }

  /** Lines that do not end in whitespace, joined by `sep`. */
  lemma {:induction false} JoinTrimmed(lines: seq<string>, sep: char)
    requires forall i :: 0 <= i < |lines| ==>
      sep !in lines[i] && (lines[i] == "" || !IsSpace(lines[i][|lines[i]| - 1]))
    ensures TrimmedEnds(Join(lines, sep), sep)
    decreases |lines|
  {
    if |lines| == 1 {
      LineTrimmed(lines[0], sep);
    } else if |lines| > 1 {
      JoinTrimmed(lines[1..], sep);
      var a := lines[0];
      var b := Join(lines[1..], sep);
      var j := a + [sep] + b;
      assert j == Join(lines, sep);
      LineTrimmed(a, sep);
      forall i | 0 <= i < |j| && IsSpace(j[i]) && j[i] != sep ensures i + 1 < |j| && j[i + 1] != sep {
        if i < |a| {
          assert j[i] == a[i];
          assert i + 1 < |a| ==> j[i + 1] == a[i + 1];
        } else if i > |a| {
          assert j[i] == b[i - |a| - 1];
          assert i + 1 < |j| ==> j[i + 1] == b[i - |a|];
        }
      }
    }
  }

  /** Capping `c` keeps whitespace away from the `c`s, because a run is
      never removed completely. */
  lemma {:induction false} CapKeepsTrimmed(s: string, c: char, k: nat, run: nat)
    requires k >= 1 && TrimmedEnds(s, c)
    ensures TrimmedEnds(Cap(s, c, k, run), c)
    decreases |s|
  {
    if |s| > 0 {
      var next := if s[0] == c then run + 1 else 0;
      TrimmedEndsTail(s, c);
      CapKeepsTrimmed(s[1..], c, k, next);
      var rest := Cap(s[1..], c, k, next);
      var r := Cap(s, c, k, run);
      if s[0] == c {
        var head: string := if run < k then [c] else [];
        assert r == head + rest;
        forall i | 0 <= i < |r| && IsSpace(r[i]) && r[i] != c ensures i + 1 < |r| && r[i + 1] != c {
          if i >= |head| {
            assert r[i] == rest[i - |head|];
            assert i + 1 < |r| ==> r[i + 1] == rest[i + 1 - |head|];
          }
        }
      } else {
        assert r == [s[0]] + rest;
        CapSpec(s[1..], c, k, 0);
        forall i | 0 <= i < |r| && IsSpace(r[i]) && r[i] != c ensures i + 1 < |r| && r[i + 1] != c {
          if i >= 1 {
            assert r[i] == rest[i - 1];
            assert i + 1 < |r| ==> r[i + 1] == rest[i];
          } else {
            assert s[1..][0] == s[1];
            assert r[1] == rest[0];
          }
        }
      }
    }
  }

  /** No piece of a split ends in whitespace. */
  lemma {:induction false} SplitTrimmed(s: string, sep: char)
    requires TrimmedEnds(s, sep)
    ensures forall i :: 0 <= i < |Split(s, sep)| ==>
      var line := Split(s, sep)[i];
      line == "" || !IsSpace(line[|line| - 1])
    decreases |s|
  {
    if |s| > 0 {
      TrimmedEndsTail(s, sep);
      SplitTrimmed(s[1..], sep);
      var rest := Split(s[1..], sep);
      if s[0] != sep {
        var first := [s[0]] + rest[0];
        if IsSpace(s[0]) {
          assert s[1..][0] == s[1];
          assert |rest[0]| > 0;
        }
        assert first[|first| - 1] == (if rest[0] == "" then s[0] else rest[0][|rest[0]| - 1]);
        var r := Split(s, sep);
        assert r == [first] + rest[1..];
        forall i | 0 <= i < |r| ensures r[i] == "" || !IsSpace(r[i][|r[i]| - 1]) {
          if i > 0 {
            assert r[i] == rest[i];
          }
        }
      }
    }
  }

  /** Without two adjacent `c`s no run of `c` is longer than one. */
  lemma NoPairRuns(s: string, c: char)
    requires NoPair(s, c)
    ensures RunsAtMost(s, c, 1)
  {
    forall i | 0 <= i <= |s| ensures Lead(s[i..], c) <= 1 {
      if i < |s| && s[i] == c {
        assert s[i..][0] == s[i] && s[i..][1..] == s[i + 1..];
        if i + 1 < |s| {
          assert s[i + 1..][0] == s[i + 1];
        }
      }
    }
  }

  /** `_normalize_whitespace` with the newline substitution moved after the
      `rstrip`, so that lines the strip empties are collapsed as well. */
  function NormalizeWhitespaceCorrected(text: string): string {
    var spaced := Cap(text, ' ', 1, 0);
    Cap(Unlines(RStripAll(Lines(spaced))), '\n', 2, 0)
  }

  /** The corrected output has no two consecutive spaces. */
  lemma CorrectedNoDoubleSpace(text: string)
    ensures NoPair(NormalizeWhitespaceCorrected(text), ' ')
  {
    var spaced := Cap(text, ' ', 1, 0);
    CapRuns(text, ' ', 1, 0);
    RunsAtMostOne(spaced, ' ');
    StripStage(spaced);
    CapKeepsNoPair(Unlines(RStripAll(Lines(spaced))), '\n', ' ', 2, 0);
  }

  /** The corrected output never holds three newlines in a row. */
  lemma CorrectedParagraphs(text: string)
    ensures RunsAtMost(NormalizeWhitespaceCorrected(text), '\n', 2)
  {
    CapRuns(Unlines(RStripAll(Lines(Cap(text, ' ', 1, 0)))), '\n', 2, 0);
  }

  /** No whitespace stands before a newline or at the end of the corrected
      output. */
  lemma CorrectedTrimmed(text: string)
    ensures TrimmedEnds(NormalizeWhitespaceCorrected(text), '\n')
  {
    var spaced := Cap(text, ' ', 1, 0);
    CapRuns(text, ' ', 1, 0);
    RunsAtMostOne(spaced, ' ');
    StrippedJoinTrimmed(spaced);
    CapKeepsTrimmed(Unlines(RStripAll(Lines(spaced))), '\n', 2, 0);
  }

  /** Right-stripping every line and joining again leaves no whitespace
      before a newline or at the end. */
  lemma StrippedJoinTrimmed(t: string)
    requires NoPair(t, ' ')
    ensures TrimmedEnds(Unlines(RStripAll(Lines(t))), '\n')
  {
    SplitNoPair(t, '\n', ' ');
    StrippedLines(Lines(t));
    JoinTrimmed(RStripAll(Lines(t)), '\n');
  }

  /** No line of the corrected output ends in whitespace. */
  lemma CorrectedLineEnds(text: string)
    ensures forall i :: 0 <= i < |Lines(NormalizeWhitespaceCorrected(text))| ==>
      var line := Lines(NormalizeWhitespaceCorrected(text))[i];
      line == "" || !IsSpace(line[|line| - 1])
  {
    CorrectedTrimmed(text);
    SplitTrimmed(NormalizeWhitespaceCorrected(text), '\n');
  }

  /** The corrected output has no more lines than the input. */
  lemma CorrectedLineCount(text: string)
    ensures |Lines(NormalizeWhitespaceCorrected(text))| <= |Lines(text)|
  {
    var spaced := Cap(text, ' ', 1, 0);
    var joined := Unlines(RStripAll(Lines(spaced)));
    CapRuns(text, ' ', 1, 0);
    RunsAtMostOne(spaced, ' ');
    StripStage(spaced);
    CapCountOther(text, ' ', '\n', 1, 0);
    CapSpec(joined, '\n', 2, 0);
    SplitLength(NormalizeWhitespaceCorrected(text), '\n');
    SplitLength(joined, '\n');
    SplitLength(spaced, '\n');
    SplitLength(text, '\n');
  }

  /** Every visible character survives the corrected normalisation, in
      order. */
  lemma CorrectedInk(text: string)
    ensures Ink(NormalizeWhitespaceCorrected(text)) == Ink(text)
  {
    var spaced := Cap(text, ' ', 1, 0);
    var joined := Unlines(RStripAll(Lines(spaced)));
    InkCap(text, ' ', 1, 0);
    InkStripJoin(Lines(spaced), '\n');
    JoinSplit(spaced, '\n');
    InkCap(joined, '\n', 2, 0);
  }

  /** The corrected output has no two consecutive spaces, never three
      newlines in a row, no line ending in whitespace, and no more lines
      than the input. */
  lemma NormalizeWhitespaceCorrectedSpec(text: string)
    ensures NoPair(NormalizeWhitespaceCorrected(text), ' ')
    ensures RunsAtMost(NormalizeWhitespaceCorrected(text), '\n', 2)
    ensures forall i :: 0 <= i < |Lines(NormalizeWhitespaceCorrected(text))| ==>
      var line := Lines(NormalizeWhitespaceCorrected(text))[i];
      line == "" || !IsSpace(line[|line| - 1])
    ensures |Lines(NormalizeWhitespaceCorrected(text))| <= |Lines(text)|
    ensures Ink(NormalizeWhitespaceCorrected(text)) == Ink(text)
  {
    CorrectedNoDoubleSpace(text);
    CorrectedParagraphs(text);
    CorrectedLineEnds(text);
    CorrectedLineCount(text);
    CorrectedInk(text);
  }

  /** Right-stripping lines that do not end in whitespace changes nothing. */
  lemma RStripAllIdentity(lines: seq<string>)
    requires forall i :: 0 <= i < |lines| ==> lines[i] == "" || !IsSpace(lines[i][|lines[i]| - 1])
    ensures RStripAll(lines) == lines
  {
    assert forall i :: 0 <= i < |lines| ==> RStripAll(lines)[i] == lines[i];
  }

  /** A second pass of the corrected order changes nothing. */
  lemma CorrectedIdempotent(text: string)
    ensures NormalizeWhitespaceCorrected(NormalizeWhitespaceCorrected(text)) == NormalizeWhitespaceCorrected(text)
  {
    var r := NormalizeWhitespaceCorrected(text);
    CorrectedNoDoubleSpace(text);
    CorrectedParagraphs(text);
    CorrectedLineEnds(text);
    assert r[0..] == r;
    NoPairRuns(r, ' ');
    CapIdentity(r, ' ', 1, 0);
    RStripAllIdentity(Lines(r));
    JoinSplit(r, '\n');
    CapIdentity(r, '\n', 2, 0);
  }

  /** Chains the stages of `NormalizeWhitespaceCorrected` on given values. */
  lemma CorrectedSteps(s: string, spaced: string, stripped: seq<string>, joined: string)
    requires Cap(s, ' ', 1, 0) == spaced && RStripAll(Lines(spaced)) == stripped
    requires Unlines(stripped) == joined
    ensures NormalizeWhitespaceCorrected(s) == Cap(joined, '\n', 2, 0)
  {
  }

  lemma WitnessSpaces()
    ensures Cap("a\n\n \n\nb", ' ', 1, 0) == "a\n\n \n\nb"
  {
  }

  lemma WitnessCollapse()
    ensures Cap("a\n\n\n\nb", '\n', 2, 0) == "a\n\nb"
  {
  }

  /** On the input that defeats the order as written, the corrected order
      leaves one blank line between the paragraphs. */
  lemma CorrectedWitness()
    ensures NormalizeWhitespaceCorrected("a\n\n \n\nb") == "a\n\nb"
  {
    WitnessSpaces();
    FirstPassLines();
    FirstPassStrip();
    FirstPassJoin();
    CorrectedSteps("a\n\n \n\nb", "a\n\n \n\nb", ["a", "", "", "", "b"], "a\n\n\n\nb");
    WitnessCollapse();
  }

  // ---------------------------------------------------------------------
  // The composition in `extract_text`.

  function CleanText(rawText: string): string {
    NormalizeWhitespace(RemoveReferences(RemoveHeadersFooters(rawText)))
  }

  /** The cleaned text has no more lines than the raw text. */
  lemma CleanTextLineCount(rawText: string)
    ensures |Lines(CleanText(rawText))| <= |Lines(rawText)|
  {
    var a := RemoveHeadersFooters(rawText);
    var b := RemoveReferences(a);
    RemoveHeadersFootersLines(rawText);
    RemoveReferencesLines(a);
    NormalizeLineCount(b);
  }

  /** The cleaned text has no two consecutive spaces, no line ending in
      whitespace, and no more lines than the raw text. */
  lemma CleanTextSpec(rawText: string)
    ensures NoPair(CleanText(rawText), ' ')
    ensures forall i :: 0 <= i < |Lines(CleanText(rawText))| ==>
      var line := Lines(CleanText(rawText))[i];
      line == "" || !IsSpace(line[|line| - 1])
    ensures |Lines(CleanText(rawText))| <= |Lines(rawText)|
  {
    var b := RemoveReferences(RemoveHeadersFooters(rawText));
    NormalizeNoDoubleSpace(b);
    NormalizeLineEnds(b);
    CleanTextLineCount(rawText);
  }

  /** The composition with the corrected whitespace normalisation. */
  function CleanTextCorrected(rawText: string): string {
    NormalizeWhitespaceCorrected(RemoveReferences(RemoveHeadersFooters(rawText)))
  }

  /** The corrected cleaned text has no two consecutive spaces, never three
      newlines in a row, no line ending in whitespace, and no more lines
      than the raw text. */
  lemma CleanTextCorrectedSpec(rawText: string)
    ensures NoPair(CleanTextCorrected(rawText), ' ')
    ensures RunsAtMost(CleanTextCorrected(rawText), '\n', 2)
    ensures forall i :: 0 <= i < |Lines(CleanTextCorrected(rawText))| ==>
      var line := Lines(CleanTextCorrected(rawText))[i];
      line == "" || !IsSpace(line[|line| - 1])
    ensures |Lines(CleanTextCorrected(rawText))| <= |Lines(rawText)|
  {
    NormalizeWhitespaceCorrectedSpec(RemoveReferences(RemoveHeadersFooters(rawText)));
    CleanTextCorrectedLineCount(rawText);
  }

  lemma CleanTextCorrectedLineCount(rawText: string)
    ensures |Lines(CleanTextCorrected(rawText))| <= |Lines(rawText)|
  {
    var a := RemoveHeadersFooters(rawText);
    var b := RemoveReferences(a);
    RemoveHeadersFootersLines(rawText);
    RemoveReferencesLines(a);
    CorrectedLineCount(b);
  }
}
