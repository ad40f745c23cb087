/** Character and string primitives shared by the TypeScript and Python parts
    of the model. Characters are modelled over ASCII: case mapping affects
    only 'A'..'Z', whitespace is the ASCII subset of Python's `str.isspace`,
    and digits are '0'..'9'. */
module Strings {

  /** Python's `str.isspace` restricted to ASCII: space, \t \n \v \f \r and
      the four separator controls 0x1C..0x1F. */
  predicate IsSpace(c: char) {
    c == ' ' || 9 <= c as int <= 13 || 28 <= c as int <= 31
  }

  predicate IsDigit(c: char) {
    '0' <= c <= '9'
  }

  predicate AllSpace(s: string) {
    forall i :: 0 <= i < |s| ==> IsSpace(s[i])
  }

  predicate AllDigits(s: string) {
    forall i :: 0 <= i < |s| ==> IsDigit(s[i])
  }

  /** `toLowerCase` / `lower` on one character, length preserving. */
  function Lower(c: char): char {
    if 'A' <= c <= 'Z' then (c as int + 32) as char else c
  }

  function LowerStr(s: string): (r: string)
    ensures |r| == |s|
    ensures forall i :: 0 <= i < |s| ==> r[i] == Lower(s[i])
  {
    seq(|s|, i requires 0 <= i < |s| => Lower(s[i]))
  }

  /** Lower-casing commutes with slicing, so offsets found in the lower-cased
      text index the original text. */
  lemma LowerStrSlice(s: string, a: nat, b: nat)
    requires a <= b <= |s|
    ensures LowerStr(s)[a..b] == LowerStr(s[a..b])
  {
    assert forall i :: 0 <= i < b - a ==> LowerStr(s)[a..b][i] == Lower(s[a + i]);
  }

  predicate StartsWith(s: string, prefix: string) {
    |prefix| <= |s| && s[..|prefix|] == prefix
  }

  /** `needle` occurs in `s` at offset `k`. */
  predicate IsAt(s: string, needle: string, k: int) {
    0 <= k && k + |needle| <= |s| && s[k..k + |needle|] == needle
  }

  /** JavaScript `s.indexOf(needle, from)`: the first offset at or after
      `from` where `needle` occurs, or -1. */
  function IndexOf(s: string, needle: string, from: nat): (r: int)
    requires from <= |s|
    ensures r == -1 || (from <= r && IsAt(s, needle, r))
    decreases |s| - from
  {
    if from + |needle| > |s| then -1
    else if s[from..from + |needle|] == needle then from
    else IndexOf(s, needle, from + 1)
  }

  /** `IndexOf` fails exactly when there is no match at or after `from`,
      and otherwise finds the first one. */
  lemma {:induction false} IndexOfSpec(s: string, needle: string, from: nat)
    requires from <= |s|
    ensures IndexOf(s, needle, from) == -1 <==> forall k :: from <= k ==> !IsAt(s, needle, k)
    ensures IndexOf(s, needle, from) != -1 ==>
      forall k :: from <= k < IndexOf(s, needle, from) ==> !IsAt(s, needle, k)
    decreases |s| - from
  {
    if from + |needle| <= |s| && s[from..from + |needle|] != needle {
      IndexOfSpec(s, needle, from + 1);
    }
  }

  /** A match at `k` means the search from `from <= k` finds one no later
      than `k`. */
  lemma IndexOfFound(s: string, needle: string, from: nat, k: nat)
    requires from <= k && from <= |s| && IsAt(s, needle, k)
    ensures 0 <= IndexOf(s, needle, from) <= k
  {
    IndexOfSpec(s, needle, from);
  }

  /** No match at or after `from` when the needle's first character does
      not occur where a match could start. */
  lemma {:induction false} IndexOfNone(s: string, needle: string, from: nat)
    requires from <= |s| && |needle| > 0
    requires from + |needle| > |s| || needle[0] !in s[from..|s| - |needle| + 1]
    ensures IndexOf(s, needle, from) == -1
    decreases |s| - from
  {
    if from + |needle| <= |s| {
      assert s[from] in s[from..|s| - |needle| + 1];
      assert s[from..from + |needle|][0] == s[from];
      IndexOfNone(s, needle, from + 1);
    }
  }

  /** A match at `k` is the first one when the needle's first character
      does not occur in `s[from..k]`. */
  lemma {:induction false} IndexOfFirst(s: string, needle: string, from: nat, k: nat)
    requires from <= k && |needle| > 0 && IsAt(s, needle, k)
    requires needle[0] !in s[from..k]
    ensures IndexOf(s, needle, from) == k
    decreases k - from
  {
    if from < k {
      assert s[from] in s[from..k];
      assert s[from..from + |needle|][0] == s[from];
      assert s[from + 1..k] <= s[from..k][1..];
      IndexOfFirst(s, needle, from + 1, k);
    }
  }

  /** Python's `str.rstrip()`: drops trailing whitespace. */
  function RStrip(s: string): string
    decreases |s|
  {
    if |s| > 0 && IsSpace(s[|s| - 1]) then RStrip(s[..|s| - 1]) else s
  }

  /** `RStrip` keeps a prefix that does not end in whitespace, and drops
      only whitespace. */
  lemma {:induction false} RStripSpec(s: string)
    ensures |RStrip(s)| <= |s| && RStrip(s) == s[..|RStrip(s)|]
    ensures |RStrip(s)| == 0 || !IsSpace(RStrip(s)[|RStrip(s)| - 1])
    ensures forall i :: |RStrip(s)| <= i < |s| ==> IsSpace(s[i])
    decreases |s|
  {
    if |s| > 0 && IsSpace(s[|s| - 1]) {
      var t := s[..|s| - 1];
      RStripSpec(t);
      assert t[..|RStrip(t)|] == s[..|RStrip(t)|];
    }
  }

  /** Python's `str.lstrip()`: drops leading whitespace. */
  function LStrip(s: string): string
    decreases |s|
  {
    if |s| > 0 && IsSpace(s[0]) then LStrip(s[1..]) else s
  }

  /** `LStrip` keeps a suffix that does not start with whitespace, and
      drops only whitespace. */
  lemma {:induction false} LStripSpec(s: string)
    ensures |LStrip(s)| <= |s| && LStrip(s) == s[|s| - |LStrip(s)|..]
    ensures |LStrip(s)| == 0 || !IsSpace(LStrip(s)[0])
    ensures forall i :: 0 <= i < |s| - |LStrip(s)| ==> IsSpace(s[i])
    decreases |s|
  {
    if |s| > 0 && IsSpace(s[0]) {
      var t := s[1..];
      LStripSpec(t);
      assert t[|t| - |LStrip(t)|..] == s[|s| - |LStrip(t)|..];
    }
  }

  /** Python's `str.strip()`. */
  function Strip(s: string): string {
    LStrip(RStrip(s))
  }

  /** `Strip` is the slice of `s` left after dropping whitespace from both
      ends: it is empty exactly for whitespace-only strings, leaves no
      whitespace at either end, and is the identity on strings without
      any there. */
  lemma StripSpec(s: string)
    ensures exists i, j :: 0 <= i <= j <= |s| && Strip(s) == s[i..j] && AllSpace(s[..i]) && AllSpace(s[j..])
    ensures |Strip(s)| <= |s|
    ensures Strip(s) == "" <==> AllSpace(s)
    ensures Strip(s) == "" || (!IsSpace(Strip(s)[0]) && !IsSpace(Strip(s)[|Strip(s)| - 1]))
    ensures (|s| == 0 || (!IsSpace(s[0]) && !IsSpace(s[|s| - 1]))) ==> Strip(s) == s
  {
    var t := RStrip(s);
    var r := LStrip(t);
    RStripSpec(s);
    LStripSpec(t);
    assert r == "" ==> t == "";
    assert r != "" ==> r[|r| - 1] == t[|t| - 1];
    StripSlice(s);
  }

  /** The witnesses for `StripSpec`: `Strip(s)` starts where `LStrip`
      stopped and ends where `RStrip` stopped. */
  lemma StripSlice(s: string)
    ensures exists i, j :: 0 <= i <= j <= |s| && Strip(s) == s[i..j] && AllSpace(s[..i]) && AllSpace(s[j..])
  {
    var t := RStrip(s);
    RStripSpec(s);
    LStripSpec(t);
    var r := LStrip(t);
    var i, j := |t| - |r|, |t|;
    assert r == s[i..j];
    assert AllSpace(s[..i]) by {
      forall m | 0 <= m < i ensures IsSpace(s[..i][m]) {
        assert s[..i][m] == t[m];
      }
    }
    assert AllSpace(s[j..]) by {
      forall m | 0 <= m < |s| - j ensures IsSpace(s[j..][m]) {
        assert s[j..][m] == s[j + m];
      }
    }
  }

  /** Python's `s.split(sep)` for a one-character separator: always at least
      one piece, and no piece contains the separator. */
  function Split(s: string, sep: char): (r: seq<string>)
    ensures |r| >= 1
    ensures forall i :: 0 <= i < |r| ==> sep !in r[i]
    ensures |s| > 0 && s[0] != sep ==> |r[0]| > 0 && r[0][0] == s[0]
    decreases |s|
  {
    if |s| == 0 then [""]
    else
      var rest := Split(s[1..], sep);
      if s[0] == sep then [""] + rest
      else [[s[0]] + rest[0]] + rest[1..]
  }

  /** Python's `sep.join(lines)` for a one-character separator. */
  function Join(lines: seq<string>, sep: char): string
    decreases |lines|
  {
    if |lines| == 0 then ""
    else if |lines| == 1 then lines[0]
    else lines[0] + [sep] + Join(lines[1..], sep)
  }

  /** Joining the pieces of a split gives the original string back. */
  lemma {:induction false} JoinSplit(s: string, sep: char)
    ensures Join(Split(s, sep), sep) == s
    decreases |s|
  {
    if |s| > 0 {
      var rest := Split(s[1..], sep);
      JoinSplit(s[1..], sep);
      if s[0] == sep {
        assert Split(s, sep) == [""] + rest;
        assert ([""] + rest)[1..] == rest;
        assert s == [sep] + s[1..];
      } else {
        var r := Split(s, sep);
        assert r == [[s[0]] + rest[0]] + rest[1..];
        if |rest| == 1 {
          assert s == [s[0]] + s[1..];
        } else {
          assert r[1..] == rest[1..];
          assert Join(rest, sep) == rest[0] + [sep] + Join(rest[1..], sep);
          assert s == [s[0]] + s[1..];
        }
      }
    }
  }

  /** A separator-free prefix glues onto the first piece. */
  lemma {:induction false} SplitPrefix(a: string, t: string, sep: char)
    requires sep !in a
    ensures Split(a + t, sep) == [a + Split(t, sep)[0]] + Split(t, sep)[1..]
    decreases |a|
  {
    if |a| > 0 {
      var st := Split(t, sep);
      assert (a + t)[0] == a[0] && (a + t)[1..] == a[1..] + t;
      SplitPrefix(a[1..], t, sep);
      var rest := Split(a[1..] + t, sep);
      assert rest[0] == a[1..] + st[0] && rest[1..] == st[1..];
      assert [a[0]] + (a[1..] + st[0]) == a + st[0];
    } else {
      var st := Split(t, sep);
      assert a + t == t && a + st[0] == st[0];
      assert st == [st[0]] + st[1..];
    }
  }

  /** Splitting a join of separator-free lines gives the lines back. */
  lemma {:induction false} SplitJoin(lines: seq<string>, sep: char)
    requires |lines| >= 1
    requires forall i :: 0 <= i < |lines| ==> sep !in lines[i]
    ensures Split(Join(lines, sep), sep) == lines
    decreases |lines|
  {
    if |lines| == 1 {
      SplitPrefix(lines[0], "", sep);
      assert lines[0] + "" == lines[0];
    } else {
      var tail := Join(lines[1..], sep);
      assert Join(lines, sep) == lines[0] + ([sep] + tail);
      SplitJoin(lines[1..], sep);
      SplitPrefix(lines[0], [sep] + tail, sep);
      assert ([sep] + tail)[0] == sep && ([sep] + tail)[1..] == tail;
      var st := Split([sep] + tail, sep);
      assert st == [""] + lines[1..];
      assert st[0] == "" && st[1..] == lines[1..];
      assert lines[0] + "" == lines[0];
      assert lines == [lines[0]] + lines[1..];
    }
  }

  /** Number of occurrences of `c` in `s`. */
  function CountChar(s: string, c: char): nat
    decreases |s|
  {
    if |s| == 0 then 0 else (if s[0] == c then 1 else 0) + CountChar(s[1..], c)
  }

  /** A split has one more piece than the string has separators. */
  lemma {:induction false} SplitLength(s: string, sep: char)
    ensures |Split(s, sep)| == CountChar(s, sep) + 1
    decreases |s|
  {
    if |s| > 0 {
      SplitLength(s[1..], sep);
    }
  }
}
