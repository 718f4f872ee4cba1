/**
 `text.replace(/PAT/g, replacement)` for a pattern that matches one literal
 string and has no capture groups: every leftmost non-overlapping occurrence
 of the pattern is replaced, and the replacement string's `$` patterns are
 expanded as ECMAScript's GetSubstitution prescribes.
 */
module JsReplace {
  import opened Options
  import opened Strings

  /** GetSubstitution with no capture groups and no named groups: `$$` is a
      dollar sign, `$&` the matched text, `` $` `` the text before the match,
      `$'` the text after it; any other `$` is kept literally. */
  function Expand(repl: string, matched: string, before: string, after: string): (r: string)
    decreases |repl|
    ensures '$' !in repl ==> r == repl
  {
    if |repl| == 0 then ""
    else if repl[0] == '$' && |repl| >= 2 && repl[1] in "$&`'" then
      (match repl[1]
       case '$' => "$"
       case '&' => matched
       case '`' => before
       case _ => after)
      + Expand(repl[2..], matched, before, after)
    else [repl[0]] + Expand(repl[1..], matched, before, after)
  }

  /** Replace every occurrence of `pat` in `s`, scanning left to right. */
  function ReplaceAll(s: string, pat: string, repl: string): (r: string)
    requires |pat| > 0
    ensures !Contains(s, pat) ==> r == s
  {
    ReplaceRest("", s, pat, repl)
  }

  /** The replacement of the text `rest` that follows the already scanned
      text `done`; `done` is what `` $` `` sees in front of a match. */
  function ReplaceRest(done: string, rest: string, pat: string, repl: string): (r: string)
    requires |pat| > 0
    decreases |rest|
  {
    match IndexOf(rest, pat, 0)
    case None => rest
    case Some(k) =>
      rest[..k] + Expand(repl, pat, done + rest[..k], rest[k + |pat|..])
      + ReplaceRest(done + rest[..k + |pat|], rest[k + |pat|..], pat, repl)
  }

  /** With a replacement free of `$`, replacing is splitting at the pattern and
      joining with the replacement: each occurrence becomes the replacement
      verbatim, and the inserted text is never scanned again. */
  lemma ReplaceIsSplitJoin(s: string, pat: string, repl: string)
    requires |pat| > 0
    requires '$' !in repl
    ensures ReplaceAll(s, pat, repl) == Join(Split(s, pat), repl)
  {
    ReplaceRestIsSplitJoin("", s, pat, repl);
  }

  lemma {:induction false} ReplaceRestIsSplitJoin(done: string, rest: string, pat: string, repl: string)
    requires |pat| > 0
    requires '$' !in repl
    decreases |rest|
    ensures ReplaceRest(done, rest, pat, repl) == Join(Split(rest, pat), repl)
  {
    match IndexOf(rest, pat, 0)
    case None =>
    case Some(k) =>
      var after := rest[k + |pat|..];
      ReplaceRestIsSplitJoin(done + rest[..k + |pat|], after, pat, repl);
      JoinCons(rest[..k], Split(after, pat), repl);
  }

  /** Replacing a pattern by itself (without `$`) changes nothing. */
  lemma ReplaceBySelf(s: string, pat: string)
    requires |pat| > 0
    requires '$' !in pat
    ensures ReplaceAll(s, pat, pat) == s
  {
    ReplaceIsSplitJoin(s, pat, pat);
    JoinSplit(s, pat);
  }

  /** A single-character pattern replaced by text without that character and
      without `$` leaves no occurrence of the character behind. */
  lemma ReplaceCharRemovesIt(s: string, c: char, repl: string)
    requires c !in repl && '$' !in repl
    ensures c !in ReplaceAll(s, [c], repl)
  {
    ReplaceIsSplitJoin(s, [c], repl);
    SplitPiecesAvoidChar(s, c);
    JoinAvoids(Split(s, [c]), repl, c);
  }

  /** Splitting at a single character leaves that character in no piece. */
  lemma SplitPiecesAvoidChar(s: string, c: char)
    ensures forall i :: 0 <= i < |Split(s, [c])| ==> c !in Split(s, [c])[i]
  {
    var parts := Split(s, [c]);
    SplitPiecesFree(s, [c]);
    forall i | 0 <= i < |parts|
      ensures c !in parts[i]
    {
      forall j | 0 <= j < |parts[i]|
        ensures parts[i][j] != c
      {
        assert parts[i][j..j + 1] == [parts[i][j]];
        assert !OccursAt(parts[i], [c], j);
      }
    }
  }

  /** Joining pieces and a separator that all avoid `c` gives text avoiding `c`. */
  lemma {:induction false} JoinAvoids(parts: seq<string>, sep: string, c: char)
    requires c !in sep
    requires forall i :: 0 <= i < |parts| ==> c !in parts[i]
    ensures c !in Join(parts, sep)
  {
    if |parts| > 1 {
      JoinAvoids(parts[1..], sep, c);
    }
  }

  /** A single occurrence, with text around it that cannot start another,
      is replaced by the expanded replacement, which sees the scanned text
      and the match in front and the rest of the line behind. */
  lemma ReplaceRestOnce(done: string, x: string, pat: string, repl: string, y: string)
    requires |pat| > 0
    requires forall i :: 0 <= i < |x| ==> x[i] != pat[0]
    requires forall i :: 0 <= i < |y| ==> y[i] != pat[0]
    ensures ReplaceRest(done, x + pat + y, pat, repl) == x + Expand(repl, pat, done + x, y) + y
  {
    var s := x + pat + y;
    forall j | 0 <= j < |x|
      ensures !OccursAt(s, pat, j)
    {
      assert s[j..j + |pat|][0] == x[j];
    }
    assert s[|x|..|x| + |pat|] == pat;
    IndexOfFinds(s, pat, 0, |x|);
    assert s[..|x|] == x;
    assert s[|x| + |pat|..] == y;
    NoFirstCharNoOccurrence(y, pat);
  }

  /** `$&` re-inserts the matched text, so the placeholder survives. */
  lemma DollarAmpersandKeepsMatch()
    ensures ReplaceAll("a:::K:::b", ":::K:::", "[$&]") == "a[:::K:::]b"
  {
    AmpersandSpelled();
    ReplaceRestOnce("", "a", ":::K:::", "[$&]", "b");
    ExpandAmpersand();
  }

  lemma AmpersandSpelled()
    ensures "a:::K:::b" == "a" + ":::K:::" + "b"
    ensures "a" + "[:::K:::]" + "b" == "a[:::K:::]b"
  {
  }

  lemma ExpandAmpersand()
    ensures Expand("[$&]", ":::K:::", "" + "a", "b") == "[:::K:::]"
  {
    assert Expand("]", ":::K:::", "a", "b") == "]";
    assert "[$&]"[1..] == "$&]";
    assert "$&]"[2..] == "]";
    assert "" + "a" == "a";
  }
}
