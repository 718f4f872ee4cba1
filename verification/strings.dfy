/**
 The JavaScript string primitives the build script relies on, over `seq<char>`:
 searching (`indexOf`), splitting on a literal separator (`split`), joining,
 `trim`, `toLowerCase` on the characters that matter here, and the
 `split(/\r?\n/)` line splitter.
 */
module Strings {
  import opened Options

  /** `pat` occurs in `s` starting at index `k`. */
  predicate OccursAt(s: string, pat: string, k: int)
  {
    0 <= k && k + |pat| <= |s| && s[k..k + |pat|] == pat
  }

  /** The leftmost occurrence of `pat` in `s` at or after `from`. */
  function IndexOf(s: string, pat: string, from: nat): (r: Option<nat>)
    decreases |s| - from
    ensures r.Some? ==> from <= r.value && OccursAt(s, pat, r.value)
    ensures forall k :: from <= k && (r.None? || k < r.value) ==> !OccursAt(s, pat, k)
  {
    if from + |pat| > |s| then None
    else if s[from..from + |pat|] == pat then Some(from)
    else IndexOf(s, pat, from + 1)
  }

  predicate Contains(s: string, pat: string)
  {
    IndexOf(s, pat, 0).Some?
  }

  lemma ContainsIff(s: string, pat: string)
    ensures Contains(s, pat) <==> exists k :: OccursAt(s, pat, k)
  {
    if Contains(s, pat) {
      assert OccursAt(s, pat, IndexOf(s, pat, 0).value);
    }
  }

  /** A string none of whose characters is `pat[0]` holds no occurrence of `pat`. */
  lemma NoFirstCharNoOccurrence(s: string, pat: string)
    requires |pat| > 0
    requires forall i :: 0 <= i < |s| ==> s[i] != pat[0]
    ensures !Contains(s, pat)
  {
    forall k | 0 <= k && k + |pat| <= |s|
      ensures !OccursAt(s, pat, k)
    {
      assert s[k..k + |pat|][0] == s[k];
    }
    ContainsIff(s, pat);
  }

  // ---------------------------------------------------------------------
  // split / join with a literal separator
  // ---------------------------------------------------------------------

  /** `s.split(sep)` for a non-empty literal separator: the text before the
      leftmost occurrence of `sep`, then the pieces of the text after it. */
  function Split(s: string, sep: string): (parts: seq<string>)
    requires |sep| > 0
    decreases |s|
    ensures |parts| >= 1
  {
    match IndexOf(s, sep, 0)
    case None => [s]
    case Some(k) => [s[..k]] + Split(s[k + |sep|..], sep)
  }

  /** `parts.join(sep)`. */
  function Join(parts: seq<string>, sep: string): string
  {
    if |parts| == 0 then ""
    else if |parts| == 1 then parts[0]
    else parts[0] + sep + Join(parts[1..], sep)
  }

  /** Joining a piece in front of non-empty pieces puts the separator between. */
  lemma JoinCons(x: string, parts: seq<string>, sep: string)
    requires |parts| >= 1
    ensures Join([x] + parts, sep) == x + sep + Join(parts, sep)
  {
    assert ([x] + parts)[1..] == parts;
  }

  /** Splitting and joining back with the same separator restores the text. */
  lemma {:induction false} JoinSplit(s: string, sep: string)
    requires |sep| > 0
    decreases |s|
    ensures Join(Split(s, sep), sep) == s
  {
    match IndexOf(s, sep, 0)
    case None =>
    case Some(k) =>
      var rest := s[k + |sep|..];
      calc {
        Join(Split(s, sep), sep);
        Join([s[..k]] + Split(rest, sep), sep);
        { JoinCons(s[..k], Split(rest, sep), sep); }
        s[..k] + sep + Join(Split(rest, sep), sep);
        { JoinSplit(rest, sep); }
        s[..k] + sep + rest;
        { Around(s, k, k + |sep|); }
        s;
      }
  }

  /** A text is its prefix, a middle slice and its suffix. */
  lemma Around(s: string, a: nat, b: nat)
    requires a <= b <= |s|
    ensures s[..a] + s[a..b] + s[b..] == s
  {
  }

  /** No piece produced by `Split` contains the separator. */
  lemma {:induction false} SplitPiecesFree(s: string, sep: string)
    requires |sep| > 0
    decreases |s|
    ensures forall i :: 0 <= i < |Split(s, sep)| ==> !Contains(Split(s, sep)[i], sep)
  {
    match IndexOf(s, sep, 0)
    case None =>
    case Some(k) =>
      var rest := s[k + |sep|..];
      var parts := Split(s, sep);
      SplitPiecesFree(rest, sep);
      NoOccurrenceInSlice(s, sep, 0, k);
      assert s[0..k] == s[..k];
      forall i | 0 <= i < |parts|
        ensures !Contains(parts[i], sep)
      {
        if i > 0 {
          assert parts[i] == Split(rest, sep)[i - 1];
        }
      }
  }

  /** If `IndexOf` finds nothing from `a` up to `b`, the slice `s[a..b]` holds no occurrence. */
  lemma NoOccurrenceInSlice(s: string, pat: string, a: nat, b: nat)
    requires a <= b <= |s|
    requires forall k :: a <= k && k + |pat| <= b ==> !OccursAt(s, pat, k)
    ensures !Contains(s[a..b], pat)
  {
    forall j | 0 <= j && j + |pat| <= b - a
      ensures !OccursAt(s[a..b], pat, j)
    {
      SliceOfSlice(s, a, b, j, j + |pat|);
      assert !OccursAt(s, pat, a + j);
    }
    ContainsIff(s[a..b], pat);
  }

  lemma SliceOfSlice(s: string, a: nat, b: nat, i: nat, k: nat)
    requires a <= b <= |s| && i <= k <= b - a
    ensures s[a..b][i..k] == s[a + i..a + k]
  {
    var w := s[a..b];
    assert |w[i..k]| == k - i == |s[a + i..a + k]|;
    forall t | 0 <= t < k - i
      ensures w[i..k][t] == s[a + i..a + k][t]
    {
      assert w[i..k][t] == w[i + t] == s[a + i + t];
    }
  }

  /** Splitting at the leftmost occurrence of the separator. */
  lemma SplitAt(s: string, sep: string, k: nat)
    requires |sep| > 0
    requires OccursAt(s, sep, k)
    requires forall j :: 0 <= j < k ==> !OccursAt(s, sep, j)
    ensures Split(s, sep) == [s[..k]] + Split(s[k + |sep|..], sep)
  {
    IndexOfFinds(s, sep, 0, k);
  }

  /** The first occurrence at or after `from` is what `IndexOf` returns. */
  lemma IndexOfFinds(s: string, pat: string, from: nat, k: nat)
    requires from <= k && OccursAt(s, pat, k)
    requires forall j :: from <= j < k ==> !OccursAt(s, pat, j)
    ensures IndexOf(s, pat, from) == Some(k)
  {
  }

  /** A piece free of the separator's first character splits off cleanly. */
  lemma SplitCons(x: string, sep: string, y: string)
    requires |sep| > 0
    requires forall i :: 0 <= i < |x| ==> x[i] != sep[0]
    ensures Split(x + sep + y, sep) == [x] + Split(y, sep)
  {
    var s := x + sep + y;
    forall k | 0 <= k < |x|
      ensures !OccursAt(s, sep, k)
    {
      assert s[k..k + |sep|][0] == s[k] == x[k];
    }
    assert OccursAt(s, sep, |x|) by {
      assert s[|x|..|x| + |sep|] == sep;
    }
    SplitAt(s, sep, |x|);
    assert s[..|x|] == x;
    assert s[|x| + |sep|..] == y;
  }

  /** A string without the separator is a single piece. */
  lemma SplitNone(x: string, sep: string)
    requires |sep| > 0 && !Contains(x, sep)
    ensures Split(x, sep) == [x]
  {
  }

  /** A string free of the separator's first character is a single piece. */
  lemma SplitSingle(x: string, sep: string)
    requires |sep| > 0
    requires forall i :: 0 <= i < |x| ==> x[i] != sep[0]
    ensures Split(x, sep) == [x]
  {
    NoFirstCharNoOccurrence(x, sep);
    ContainsIff(x, sep);
    assert IndexOf(x, sep, 0).None?;
    assert x[0..] == x;
  }

  /** Joining with a one-character separator that no piece holds and splitting
      again gives back the pieces. */
  lemma {:induction false} SplitJoinChar(parts: seq<string>, c: char)
    requires |parts| >= 1
    requires forall i, j :: 0 <= i < |parts| && 0 <= j < |parts[i]| ==> parts[i][j] != c
    ensures Split(Join(parts, [c]), [c]) == parts
  {
    if |parts| == 1 {
      SplitSingle(parts[0], [c]);
    } else {
      SplitJoinChar(parts[1..], c);
      SplitCons(parts[0], [c], Join(parts[1..], [c]));
      assert parts == [parts[0]] + parts[1..];
    }
  }

  lemma NoLineTerminatorConcat(a: string, b: string)
    requires forall i :: 0 <= i < |a| ==> !IsLineTerminator(a[i])
    requires forall i :: 0 <= i < |b| ==> !IsLineTerminator(b[i])
    ensures forall i :: 0 <= i < |a + b| ==> !IsLineTerminator((a + b)[i])
  {
    forall i | 0 <= i < |a + b|
      ensures !IsLineTerminator((a + b)[i])
    {
      if i >= |a| {
        assert (a + b)[i] == b[i - |a|];
      }
    }
  }

  lemma Regroup(a: string, b: string, c: string, d: string, e: string)
    ensures a + b + (c + d) + e == (a + b + c) + (d + e)
  {
  }

  lemma Regroup5(a: string, b: string, c: string, d: string, e: string)
    ensures a + b + c + d + e == a + ((b + c) + (d + e))
  {
  }

  // ---------------------------------------------------------------------
  // trim
  // ---------------------------------------------------------------------

  /** The characters `String.prototype.trim` removes: ECMAScript WhiteSpace
      (tab, vertical tab, form feed, ZWNBSP and every space separator) and
      LineTerminator. */
  predicate IsTrimmable(c: char)
  {
    || c == '\t' || c == '\U{000B}' || c == '\U{000C}' || c == '\U{FEFF}'
    || c == ' ' || c == '\U{00A0}' || c == '\U{1680}' || ('\U{2000}' <= c <= '\U{200A}')
    || c == '\U{202F}' || c == '\U{205F}' || c == '\U{3000}'
    || IsLineTerminator(c)
  }

  /** ECMAScript LineTerminator; also the characters a regular expression `.`
      does not match without the `s` flag. */
  predicate IsLineTerminator(c: char)
  {
    c == '\n' || c == '\r' || c == '\U{2028}' || c == '\U{2029}'
  }

  function TrimStart(s: string): (r: string)
    ensures |r| <= |s|
    ensures r == s[|s| - |r|..]
    ensures forall i :: 0 <= i < |s| - |r| ==> IsTrimmable(s[i])
    ensures |r| == 0 || !IsTrimmable(r[0])
  {
    if |s| > 0 && IsTrimmable(s[0]) then
      var r := TrimStart(s[1..]);
      assert forall i :: 1 <= i < |s| ==> s[1..][i - 1] == s[i];
      r
    else s
  }

  function TrimEnd(s: string): (r: string)
    ensures |r| <= |s|
    ensures r == s[..|r|]
    ensures forall i :: |r| <= i < |s| ==> IsTrimmable(s[i])
    ensures |r| == 0 || !IsTrimmable(r[|r| - 1])
  {
    if |s| > 0 && IsTrimmable(s[|s| - 1]) then TrimEnd(s[..|s| - 1]) else s
  }

  function Trim(s: string): string
  {
    TrimEnd(TrimStart(s))
  }

  /** A string that neither starts nor ends with a trimmable character is its own trim. */
  lemma TrimNoop(s: string)
    requires |s| > 0 && !IsTrimmable(s[0]) && !IsTrimmable(s[|s| - 1])
    ensures Trim(s) == s
  {
  }

  // ---------------------------------------------------------------------
  // toLowerCase
  // ---------------------------------------------------------------------

  /** Lower-casing of one character: ASCII capitals and the Kelvin sign, the
      only non-ASCII character whose lower case is ASCII; other characters
      are kept. */
  function LowerChar(c: char): char
  {
    if 'A' <= c <= 'Z' then (c as int + 32) as char
    else if c == '\U{212A}' then 'k'
    else c
  }

  /** `toLowerCase` on the characters above: each capital letter becomes the
      small letter at the same place in the alphabet, the Kelvin sign becomes
      `k`, every other character is kept, and no capital is left. */
  function Lower(s: string): (r: string)
    ensures |r| == |s|
    ensures forall i :: 0 <= i < |s| && 'A' <= s[i] <= 'Z' ==>
              'a' <= r[i] <= 'z' && r[i] as int - 'a' as int == s[i] as int - 'A' as int
    ensures forall i :: 0 <= i < |s| && s[i] == '\U{212A}' ==> r[i] == 'k'
    ensures forall i :: 0 <= i < |s| && !('A' <= s[i] <= 'Z') && s[i] != '\U{212A}' ==> r[i] == s[i]
    ensures forall i :: 0 <= i < |r| ==> !('A' <= r[i] <= 'Z') && r[i] != '\U{212A}'
  {
    seq(|s|, i requires 0 <= i < |s| => LowerChar(s[i]))
  }

  /** Lower-casing twice is lower-casing once. */
  lemma LowerIdempotent(s: string)
    ensures Lower(Lower(s)) == Lower(s)
  {
  }

  // ---------------------------------------------------------------------
  // split(/\r?\n/)
  // ---------------------------------------------------------------------

  function DropCR(x: string): string
  {
    if |x| > 0 && x[|x| - 1] == '\r' then x[..|x| - 1] else x
  }

  /** `text.split(/\r?\n/)`: split at every `\n`, a `\r` right before it
      belonging to the separator. */
  function SplitLines(text: string): (lines: seq<string>)
    ensures |lines| >= 1
  {
    var parts := Split(text, "\n");
    seq(|parts|, i requires 0 <= i < |parts| => if i < |parts| - 1 then DropCR(parts[i]) else parts[i])
  }

  /** `lines.join('\n')`. */
  function JoinLines(lines: seq<string>): string
  {
    Join(lines, "\n")
  }

  /** No line produced by the splitter holds a line feed. */
  lemma SplitLinesNoLineFeed(text: string)
    ensures forall i, j :: 0 <= i < |SplitLines(text)| && 0 <= j < |SplitLines(text)[i]| ==>
              SplitLines(text)[i][j] != '\n'
  {
    var parts := Split(text, "\n");
    SplitPiecesFree(text, "\n");
    forall i, j | 0 <= i < |parts| && 0 <= j < |SplitLines(text)[i]|
      ensures SplitLines(text)[i][j] != '\n'
    {
      var line := SplitLines(text)[i];
      assert line[j] == parts[i][j];
      assert parts[i][j..j + 1] == [parts[i][j]];
      assert !OccursAt(parts[i], "\n", j);
    }
  }

  /** Joining lines with `\n` and splitting again gives back the lines, when
      no line holds a line feed and none but the last ends in a carriage return. */
  lemma SplitJoinLines(lines: seq<string>)
    requires |lines| >= 1
    requires forall i, j :: 0 <= i < |lines| && 0 <= j < |lines[i]| ==> lines[i][j] != '\n'
    requires forall i :: 0 <= i < |lines| - 1 ==> DropCR(lines[i]) == lines[i]
    ensures SplitLines(JoinLines(lines)) == lines
  {
    SplitJoinChar(lines, '\n');
  }

  /** An occurrence in `s[m..]` is an occurrence in `s`, `m` further on. */
  lemma OccursShift(s: string, m: nat, pat: string, j: nat)
    requires m <= |s|
    ensures OccursAt(s, pat, m + j) <==> OccursAt(s[m..], pat, j)
  {
    if m + j + |pat| <= |s| {
      assert s[m..][j..j + |pat|] == s[m + j..m + j + |pat|];
    }
  }

  /** When no occurrence of `pat` starts before `m`, splitting `s` at `pat`
      and joining again keeps `s[..m]` in front of what `s[m..]` gives. */
  lemma JoinSplitPrefix(s: string, m: nat, pat: string, sep: string)
    requires |pat| > 0 && m <= |s|
    requires forall k :: 0 <= k < m ==> !OccursAt(s, pat, k)
    ensures Join(Split(s, pat), sep) == s[..m] + Join(Split(s[m..], pat), sep)
  {
    match IndexOf(s[m..], pat, 0)
    case None =>
      PrefixNoOccurrence(s, m, pat);
      assert s[..m] + s[m..] == s;
    case Some(j) =>
      PrefixFirstOccurrence(s, m, pat, j);
      PrefixSplitStep(s, m, pat, sep, j);
  }

  /** Nothing found in `s[m..]` and nothing before `m`: both are one piece. */
  lemma PrefixNoOccurrence(s: string, m: nat, pat: string)
    requires |pat| > 0 && m <= |s| && IndexOf(s[m..], pat, 0).None?
    requires forall k :: 0 <= k < m ==> !OccursAt(s, pat, k)
    ensures Split(s, pat) == [s] && Split(s[m..], pat) == [s[m..]]
  {
    forall k | m <= k
      ensures !OccursAt(s, pat, k)
    {
      assert !OccursAt(s[m..], pat, k - m);
      OccursShift(s, m, pat, k - m);
    }
    NoOccurrenceNone(s, pat);
  }

  /** A text with no occurrence anywhere is not found. */
  lemma NoOccurrenceNone(s: string, pat: string)
    requires forall k :: 0 <= k ==> !OccursAt(s, pat, k)
    ensures IndexOf(s, pat, 0).None?
  {
    ContainsIff(s, pat);
  }

  /** The first occurrence in `s[m..]`, at `j`, is the first in `s`, at `m + j`. */
  lemma PrefixFirstOccurrence(s: string, m: nat, pat: string, j: nat)
    requires m <= |s|
    requires OccursAt(s[m..], pat, j) && forall k :: 0 <= k < j ==> !OccursAt(s[m..], pat, k)
    requires forall k :: 0 <= k < m ==> !OccursAt(s, pat, k)
    ensures OccursAt(s, pat, m + j) && forall k :: 0 <= k < m + j ==> !OccursAt(s, pat, k)
  {
    forall k | m <= k < m + j
      ensures !OccursAt(s, pat, k)
    {
      assert !OccursAt(s[m..], pat, k - m);
      OccursShift(s, m, pat, k - m);
    }
    OccursShift(s, m, pat, j);
  }

  /** Splitting at the first occurrence, at `k`, and joining again. */
  lemma JoinSplitAt(s: string, pat: string, sep: string, k: nat, after: string)
    requires |pat| > 0
    requires OccursAt(s, pat, k) && forall j :: 0 <= j < k ==> !OccursAt(s, pat, j)
    requires after == s[k + |pat|..]
    ensures Join(Split(s, pat), sep) == s[..k] + sep + Join(Split(after, pat), sep)
  {
    SplitAt(s, pat, k);
    JoinCons(s[..k], Split(after, pat), sep);
  }

  /** Both texts split at the same occurrence and share what follows it. */
  lemma PrefixSplitStep(s: string, m: nat, pat: string, sep: string, j: nat)
    requires |pat| > 0 && m <= |s|
    requires OccursAt(s[m..], pat, j) && forall k :: 0 <= k < j ==> !OccursAt(s[m..], pat, k)
    requires OccursAt(s, pat, m + j) && forall k :: 0 <= k < m + j ==> !OccursAt(s, pat, k)
    ensures Join(Split(s, pat), sep) == s[..m] + Join(Split(s[m..], pat), sep)
  {
    var y, after := s[m..], s[m + j + |pat|..];
    assert y[j + |pat|..] == after;
    JoinSplitAt(s, pat, sep, m + j, after);
    JoinSplitAt(y, pat, sep, j, after);
    PrefixRegroup(s, m, j, sep, Join(Split(after, pat), sep),
      Join(Split(s, pat), sep), Join(Split(y, pat), sep));
  }

  /** The string algebra of `PrefixSplitStep`. */
  lemma PrefixRegroup(s: string, m: nat, j: nat, sep: string, t: string, whole: string, part: string)
    requires m + j <= |s|
    requires whole == s[..m + j] + sep + t
    requires part == s[m..][..j] + sep + t
    ensures whole == s[..m] + part
  {
    assert s[..m + j] == s[..m] + s[m..][..j];
    Regroup4(s[..m], s[m..][..j], sep, t);
  }

  lemma Regroup4(a: string, b: string, c: string, d: string)
    ensures (a + b) + c + d == a + (b + c + d)
  {
  }

  /** The lines of a text whose first line feed is at `k`: the first line,
      without a carriage return before the line feed, then the lines after it. */
  lemma SplitLinesCons(s: string, k: nat)
    requires OccursAt(s, "\n", k) && forall j :: 0 <= j < k ==> !OccursAt(s, "\n", j)
    ensures SplitLines(s) == [DropCR(s[..k])] + SplitLines(s[k + 1..])
  {
    var y := s[k + 1..];
    SplitAt(s, "\n", k);
    var parts := Split(s, "\n");
    var rest := Split(y, "\n");
    assert parts == [s[..k]] + rest;
    var l, r := SplitLines(s), [DropCR(s[..k])] + SplitLines(y);
    assert |l| == |r|;
    forall i | 0 <= i < |l|
      ensures l[i] == r[i]
    {
      if i > 0 {
        assert parts[i] == rest[i - 1];
      }
    }
  }

  /** Splitting a text into lines and joining them with `\n` turns every
      `\r\n` into `\n`: it is the split at `\r\n` joined with `\n`. */
  lemma {:induction false} JoinSplitLines(s: string)
    decreases |s|
    ensures JoinLines(SplitLines(s)) == Join(Split(s, "\r\n"), "\n")
  {
    match IndexOf(s, "\n", 0)
    case None =>
      NoLineFeedNoCrLf(s);
      SplitNone(s, "\n");
      SplitNone(s, "\r\n");
    case Some(k) =>
      var x, y := s[..k], s[k + 1..];
      SplitLinesCons(s, k);
      JoinCons(DropCR(x), SplitLines(y), "\n");
      JoinSplitLines(y);
      CrLfStep(s, k);
  }

  /** Text without a line feed holds no `\r\n`. */
  lemma NoLineFeedNoCrLf(s: string)
    requires !Contains(s, "\n")
    ensures !Contains(s, "\r\n")
  {
    forall k | 0 <= k
      ensures !OccursAt(s, "\r\n", k)
    {
      NotAnywhereIn(s, "\n", k + 1);
      if k + 2 <= |s| {
        assert s[k..k + 2][1] == s[k + 1];
        assert k + 1 + 1 <= |s| ==> s[k + 1..k + 2][0] == s[k + 1];
      }
    }
    ContainsIff(s, "\r\n");
  }

  lemma NotAnywhereIn(s: string, pat: string, k: int)
    requires !Contains(s, pat)
    ensures !OccursAt(s, pat, k)
  {
    ContainsIff(s, pat);
  }

  /** The step of `JoinSplitLines` at the first line feed, at `k`. */
  lemma CrLfStep(s: string, k: nat)
    requires OccursAt(s, "\n", k) && forall j :: 0 <= j < k ==> !OccursAt(s, "\n", j)
    ensures Join(Split(s, "\r\n"), "\n") == DropCR(s[..k]) + "\n" + Join(Split(s[k + 1..], "\r\n"), "\n")
  {
    if k > 0 && s[k - 1] == '\r' {
      CrLfStepAfterCR(s, k);
    } else {
      CrLfStepBare(s, k);
    }
  }

  /** A line feed after a carriage return: the split at `\r\n` cuts there. */
  lemma CrLfStepAfterCR(s: string, k: nat)
    requires OccursAt(s, "\n", k) && forall j :: 0 <= j < k ==> !OccursAt(s, "\n", j)
    requires k > 0 && s[k - 1] == '\r'
    ensures Join(Split(s, "\r\n"), "\n") == DropCR(s[..k]) + "\n" + Join(Split(s[k + 1..], "\r\n"), "\n")
  {
    forall j | 0 <= j < k - 1
      ensures !OccursAt(s, "\r\n", j)
    {
      NoCrLfBefore(s, k, j);
    }
    assert OccursAt(s, "\r\n", k - 1) by {
      assert s[k - 1..k + 1][1] == s[k];
      assert s[k..k + 1][0] == s[k];
    }
    assert s[..k - 1] == DropCR(s[..k]);
    JoinSplitAt(s, "\r\n", "\n", k - 1, s[k + 1..]);
  }

  /** A line feed with no carriage return before it: no `\r\n` starts up
      to it, and the split at `\r\n` keeps it in the text. */
  lemma CrLfStepBare(s: string, k: nat)
    requires OccursAt(s, "\n", k) && forall j :: 0 <= j < k ==> !OccursAt(s, "\n", j)
    requires !(k > 0 && s[k - 1] == '\r')
    ensures Join(Split(s, "\r\n"), "\n") == DropCR(s[..k]) + "\n" + Join(Split(s[k + 1..], "\r\n"), "\n")
  {
    assert s[k..k + 1][0] == s[k];
    forall j | 0 <= j < k + 1
      ensures !OccursAt(s, "\r\n", j)
    {
      if j + 1 < k {
        NoCrLfBefore(s, k, j);
      } else if j + 2 <= |s| {
        assert s[j..j + 2][0] == s[j];
      }
    }
    JoinSplitPrefix(s, k + 1, "\r\n", "\n");
    assert s[..k + 1] == s[..k] + "\n";
  }

  /** Before the first line feed no `\r\n` ends. */
  lemma NoCrLfBefore(s: string, k: nat, j: nat)
    requires forall i :: 0 <= i < k ==> !OccursAt(s, "\n", i)
    requires j + 1 < k
    ensures !OccursAt(s, "\r\n", j)
  {
    assert !OccursAt(s, "\n", j + 1);
    if j + 2 <= |s| {
      assert s[j..j + 2][1] == s[j + 1];
      assert s[j + 1..j + 2][0] == s[j + 1];
    }
  }

  /** A text without a line feed is one line. */
  lemma SplitLinesSingle(text: string)
    requires forall i :: 0 <= i < |text| ==> text[i] != '\n'
    ensures SplitLines(text) == [text]
  {
    SplitSingle(text, "\n");
  }
}
