/**
 `replaceBaseUrl`: every `BASE_URL` in every line becomes the base the
 build runs with. In development that is the relative path from the output
 file's directory to `dist`, with backslashes turned into slashes and `.`
 when the path is empty; otherwise it is the configured `BASE_URL`.
 */
module BaseUrl {
  import opened Options
  import opened Strings
  import opened JsReplace

  const Token: string := "BASE_URL"

  /** How the build runs. In development the relative path from the output
      file's directory to `dist` is given, as `path.relative` computes it;
      otherwise the `BASE_URL` environment variable, if it is set. */
  datatype Mode = Dev(relative: string) | Production(configured: Option<string>)

  /** The path with each backslash replaced by a slash, character by character. */
  function Slashed(s: string): (r: string)
    ensures |r| == |s|
  {
    seq(|s|, i requires 0 <= i < |s| => if s[i] == '\\' then '/' else s[i])
  }

  /** The base written in place of `BASE_URL`. */
  function ActualBase(m: Mode): (r: string)
    ensures m.Dev? ==> '\\' !in r && |r| > 0
    ensures m.Dev? && |m.relative| > 0 ==> r == Slashed(m.relative)
    ensures m.Dev? && |m.relative| == 0 ==> r == "."
    ensures m.Production? && m.configured.Some? ==> r == m.configured.value
    ensures m.Production? && m.configured.None? ==> r == ""
  {
    match m
    case Dev(rel) =>
      var s := ReplaceAll(rel, "\\", "/");
      ReplaceCharRemovesIt(rel, '\\', "/");
      BackslashesBecomeSlashes(rel);
      if |s| == 0 then "." else s
    case Production(configured) =>
      match configured
      case None => ""
      case Some(v) => v
  }

  /** Replacing the one-character pattern `\` by `/` is the character-wise
      substitution. */
  lemma BackslashesBecomeSlashes(s: string)
    ensures ReplaceAll(s, "\\", "/") == Slashed(s)
  {
    var parts := Split(s, "\\");
    ReplaceIsSplitJoin(s, "\\", "/");
    JoinSplit(s, "\\");
    SplitPiecesAvoidChar(s, '\\');
    SlashedJoin(parts);
  }

  /** Slashing text joined at backslashes joins the same pieces at slashes. */
  lemma {:induction false} SlashedJoin(parts: seq<string>)
    requires forall i :: 0 <= i < |parts| ==> '\\' !in parts[i]
    ensures Slashed(Join(parts, "\\")) == Join(parts, "/")
  {
    if |parts| == 1 {
      SlashedKeeps(parts[0]);
    } else if |parts| > 1 {
      var rest := parts[1..];
      assert forall i :: 0 <= i < |rest| ==> '\\' !in rest[i] by {
        forall i | 0 <= i < |rest|
          ensures '\\' !in rest[i]
        {
          assert rest[i] == parts[i + 1];
        }
      }
      SlashedJoin(rest);
      SlashedKeeps(parts[0]);
      SlashedConcat(parts[0] + "\\", Join(rest, "\\"));
      SlashedConcat(parts[0], "\\");
      assert Slashed("\\") == "/";
    }
  }

  lemma SlashedKeeps(s: string)
    requires forall i :: 0 <= i < |s| ==> s[i] != '\\'
    ensures Slashed(s) == s
  {
  }

  lemma SlashedConcat(a: string, b: string)
    ensures Slashed(a + b) == Slashed(a) + Slashed(b)
  {
    assert |Slashed(a + b)| == |Slashed(a) + Slashed(b)|;
    forall i | 0 <= i < |a + b|
      ensures Slashed(a + b)[i] == (Slashed(a) + Slashed(b))[i]
    {
      if i >= |a| {
        assert (a + b)[i] == b[i - |a|];
      }
    }
  }

  /** `replaceBaseUrl(lines, currentOutputPath)`. */
  function ReplaceBaseUrl(lines: seq<string>, m: Mode): (r: seq<string>)
    ensures |r| == |lines|
    ensures forall i :: 0 <= i < |lines| && !Contains(lines[i], Token) ==> r[i] == lines[i]
  {
    var base := ActualBase(m);
    seq(|lines|, i requires 0 <= i < |lines| => ReplaceAll(lines[i], Token, base))
  }

  /** Lines none of which holds the token are kept as they are. */
  lemma NoTokenUnchanged(lines: seq<string>, m: Mode)
    requires forall i :: 0 <= i < |lines| ==> !Contains(lines[i], Token)
    ensures ReplaceBaseUrl(lines, m) == lines
  {
  }

  /** With a base free of `$`, each line is cut at every `BASE_URL` found by
      a left-to-right scan and glued back with the base in between. */
  lemma EveryTokenReplaced(lines: seq<string>, m: Mode, i: nat)
    requires i < |lines|
    requires '$' !in ActualBase(m)
    ensures ReplaceBaseUrl(lines, m)[i] == Join(Split(lines[i], Token), ActualBase(m))
  {
    ReplaceIsSplitJoin(lines[i], Token, ActualBase(m));
  }

  // ---------------------------------------------------------------------
  // Examples
  // ---------------------------------------------------------------------

  lemma TokenFirstChar()
    ensures Token[0] == 'B' && |Token| == 8
  {
  }

  /** In development, a page one level below `dist` links up one level. */
  lemma DevLinksUp()
    ensures ReplaceBaseUrl(["Visit BASE_URL/about"], Dev("..")) == ["Visit ../about"]
  {
    DevParentBase();
    VisitSpelled();
    TokenFirstChar();
    ReplaceAfterPlain("Visit ", Token, "..", "/about");
  }

  lemma DevParentBase()
    ensures ActualBase(Dev("..")) == ".."
  {
    assert Slashed("..") == "..";
  }

  lemma VisitSpelled()
    ensures "Visit BASE_URL/about" == "Visit " + Token + "/about"
    ensures "Visit " + ".." + "/about" == "Visit ../about"
  {
  }

  /** The page written to `dist` itself gets `.` as its base. */
  lemma DevEmptyIsDot()
    ensures ActualBase(Dev("")) == "."
  {
  }

  /** Backslashes of a Windows relative path come out as slashes. */
  lemma DevBackslashes()
    ensures ActualBase(Dev("..\\..")) == "../.."
  {
    assert Slashed("..\\..") == "../..";
  }

  /** A token after text that cannot start one is replaced, and the rest of
      the line is scanned on from there. */
  lemma ReplaceAfterPlain(x: string, pat: string, v: string, y: string)
    requires |pat| > 0 && '$' !in v
    requires forall i :: 0 <= i < |x| ==> x[i] != pat[0]
    requires forall i :: 0 <= i < |y| ==> y[i] != pat[0]
    ensures ReplaceAll(x + pat + y, pat, v) == x + v + y
  {
    ReplaceIsSplitJoin(x + pat + y, pat, v);
    SplitCons(x, pat, y);
    SplitSingle(y, pat);
  }
}
