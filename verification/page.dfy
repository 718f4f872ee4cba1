/**
 The text `processHtmlFile` writes for one source page: the page split into
 lines, its directives resolved against the template tree, `BASE_URL`
 rewritten, and the lines joined with `\n`.
 */
module Page {
  import opened Options
  import opened Strings
  import opened TagParser
  import opened Locator
  import opened Resolver
  import opened BaseUrl
  import opened JsReplace

  /** The output text for the source text of a page. */
  function BuildPage(root: seq<Entry>, source: string, m: Mode): (out: string)
    ensures (forall i :: 0 <= i < |SplitLines(source)| ==> ParseTag(SplitLines(source)[i]).None? && !Contains(SplitLines(source)[i], Token))
            ==> out == JoinLines(SplitLines(source))
  {
    var lines := SplitLines(source);
    var resolved := ResolveTemplates(root, lines).lines;
    var finalLines := ReplaceBaseUrl(resolved, m);
    PlainLinesKept(root, lines, m);
    JoinLines(finalLines)
  }

  lemma PlainLinesKept(root: seq<Entry>, lines: seq<string>, m: Mode)
    ensures (forall i :: 0 <= i < |lines| ==> ParseTag(lines[i]).None? && !Contains(lines[i], Token))
            ==> ReplaceBaseUrl(ResolveTemplates(root, lines).lines, m) == lines
  {
    if forall i :: 0 <= i < |lines| ==> ParseTag(lines[i]).None? && !Contains(lines[i], Token) {
      NoDirectivesUnchanged(root, lines, {});
      NoTokenUnchanged(lines, m);
    }
  }

  /** A character absent from a joined text is absent from every piece. */
  lemma {:induction false} JoinedPiecesAvoid(parts: seq<string>, sep: string, c: char)
    requires c !in Join(parts, sep)
    ensures forall i :: 0 <= i < |parts| ==> c !in parts[i]
  {
    if |parts| > 1 {
      var rest := Join(parts[1..], sep);
      assert Join(parts, sep) == parts[0] + sep + rest;
      JoinedPiecesAvoid(parts[1..], sep, c);
      forall i | 1 <= i < |parts|
        ensures c !in parts[i]
      {
        assert parts[i] == parts[1..][i - 1];
      }
    }
  }

  /** Without carriage returns, the line split is the plain split at `\n`. */
  lemma SplitLinesWithoutCR(source: string)
    requires '\r' !in source
    ensures SplitLines(source) == Split(source, "\n")
  {
    var parts := Split(source, "\n");
    JoinSplit(source, "\n");
    JoinedPiecesAvoid(parts, "\n", '\r');
    forall i | 0 <= i < |parts|
      ensures DropCR(parts[i]) == parts[i]
    {
      if |parts[i]| > 0 {
        assert parts[i][|parts[i]| - 1] in parts[i];
      }
    }
  }

  /** A page with no directive and no `BASE_URL`, written with `\n` line
      ends, is written out exactly as it is. */
  lemma PlainPageUnchanged(root: seq<Entry>, source: string, m: Mode)
    requires '\r' !in source
    requires forall i :: 0 <= i < |SplitLines(source)| ==> ParseTag(SplitLines(source)[i]).None? && !Contains(SplitLines(source)[i], Token)
    ensures BuildPage(root, source, m) == source
  {
    SplitLinesWithoutCR(source);
    JoinSplit(source, "\n");
  }

  /** A short line that is not padded is never a directive. */
  lemma ShortLinePlain(t: string)
    requires 0 < |t| < |Open| + |Close|
    requires !IsTrimmable(t[0]) && !IsTrimmable(t[|t| - 1])
    ensures ParseTag(t) == None
  {
    TrimNoop(t);
    UnframedIsPlain(t);
  }

  lemma CrLfLines()
    ensures SplitLines("a\r\nb") == ["a", "b"]
  {
    assert "a\r\nb" == "a\r" + "\n" + "b";
    SplitCons("a\r", "\n", "b");
    SplitSingle("b", "\n");
    assert DropCR("a\r") == "a";
  }

  lemma TwoPlainLines(x: string, y: string)
    requires ParseTag(x).None? && ParseTag(y).None? && !Contains(x, Token) && !Contains(y, Token)
    ensures forall i :: 0 <= i < |[x, y]| ==> ParseTag([x, y][i]).None? && !Contains([x, y][i], Token)
  {
  }

  lemma LineAPlain()
    ensures ParseTag("a") == None
  {
    ShortLinePlain("a");
  }

  lemma LineBPlain()
    ensures ParseTag("b") == None
  {
    ShortLinePlain("b");
  }

  lemma NoTokenInAB()
    ensures !Contains("a", Token) && !Contains("b", Token)
  {
    TokenFirstChar();
    NoFirstCharNoOccurrence("a", Token);
    NoFirstCharNoOccurrence("b", Token);
  }

  /** A page with no directive and no `BASE_URL` comes out with every
      `\r\n` turned into `\n` and nothing else changed. */
  lemma CrLfPageBecomesLf(root: seq<Entry>, source: string, m: Mode)
    requires forall i :: 0 <= i < |SplitLines(source)| ==> ParseTag(SplitLines(source)[i]).None? && !Contains(SplitLines(source)[i], Token)
    ensures BuildPage(root, source, m) == ReplaceAll(source, "\r\n", "\n")
  {
    PlainLinesBuild(root, source, m, SplitLines(source));
    JoinSplitLines(source);
    ReplaceIsSplitJoin(source, "\r\n", "\n");
  }

  /** For example, the Windows line end in `a\r\nb` comes out as `\n`. */
  lemma CrLfBecomesLf(root: seq<Entry>, m: Mode)
    ensures BuildPage(root, "a\r\nb", m) == "a\nb"
  {
    CrLfLines();
    LineAPlain();
    LineBPlain();
    NoTokenInAB();
    TwoPlainLines("a", "b");
    PlainLinesBuild(root, "a\r\nb", m, ["a", "b"]);
    JoinAB();
  }

  /** A page whose lines are all plain is its lines joined with `\n`. */
  lemma PlainLinesBuild(root: seq<Entry>, source: string, m: Mode, lines: seq<string>)
    requires SplitLines(source) == lines
    requires forall i :: 0 <= i < |lines| ==> ParseTag(lines[i]).None? && !Contains(lines[i], Token)
    ensures BuildPage(root, source, m) == JoinLines(lines)
  {
  }

  lemma JoinAB()
    ensures JoinLines(["a", "b"]) == "a\nb"
  {
    assert ["a", "b"][1..] == ["b"];
  }
}
