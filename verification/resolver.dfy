/**
 `resolveTemplates`: each line that is a directive is replaced by the
 resolved body of the template it names, once its parameters are filled in;
 any other line is kept. One set of visited template paths is threaded
 through the whole walk and only grows, so every template is expanded at
 most once per top-level call, which is also why the walk ends.
 */
module Resolver {
  import opened Options
  import opened Strings
  import opened ParamsObject
  import opened TagParser
  import opened Locator
  import opened Substitutor

  type Path = seq<string>

  /** The warning printed for a directive that is dropped: the path is absent
      when no template was found, present when it had been expanded before. */
  datatype Warning = Skipped(path: Option<Path>)

  /** The resolved lines, the visited set afterwards, the templates expanded
      (in order) and the warnings printed. */
  datatype Resolution = Resolution(lines: seq<string>, visited: set<Path>, expanded: seq<Path>, warnings: seq<Warning>)

  /** The facts every resolution keeps: `visited` only grows, and by exactly
      the expanded templates, which are reachable files, each expanded once
      and none visited before; no resolved line is a directive. */
  ghost predicate Keeps(root: seq<Entry>, visited: set<Path>, r: Resolution)
  {
    && visited <= r.visited
    && (forall p :: p in r.visited <==> p in visited || p in r.expanded)
    && (forall i :: 0 <= i < |r.expanded| ==> r.expanded[i] in AllFiles(root) && r.expanded[i] !in visited)
    && (forall i, j :: 0 <= i < j < |r.expanded| ==> r.expanded[i] != r.expanded[j])
    && (forall i :: 0 <= i < |r.lines| ==> ParseTag(r.lines[i]).None?)
  }

  lemma VisitShrinks(all: set<Path>, visited: set<Path>, p: Path)
    requires p in all && p !in visited
    ensures |all - (visited + {p})| < |all - visited|
  {
    assert all - (visited + {p}) == (all - visited) - {p};
  }

  lemma VisitGrows(all: set<Path>, v1: set<Path>, v2: set<Path>)
    requires v1 <= v2
    ensures |all - v2| <= |all - v1|
  {
    var small, big := all - v2, all - v1;
    assert big == small + (big - small);
    assert small * (big - small) == {};
  }

  /** Resolving one piece and then the next, from where the first left the
      visited set, keeps the facts for the whole. */
  lemma KeepsSequenced(root: seq<Entry>, visited: set<Path>, head: Resolution, tail: Resolution)
    requires Keeps(root, visited, head) && Keeps(root, head.visited, tail)
    ensures Keeps(root, visited, Sequenced(head, tail))
  {
    SequencedPlain(head, tail);
    SequencedFresh(root, visited, head, tail);
    SequencedDistinct(root, visited, head, tail);
    SequencedVisited(root, visited, head, tail);
  }

  lemma SequencedPlain(head: Resolution, tail: Resolution)
    requires forall i :: 0 <= i < |head.lines| ==> ParseTag(head.lines[i]).None?
    requires forall i :: 0 <= i < |tail.lines| ==> ParseTag(tail.lines[i]).None?
    ensures forall i :: 0 <= i < |Sequenced(head, tail).lines| ==> ParseTag(Sequenced(head, tail).lines[i]).None?
  {
    var r := Sequenced(head, tail);
    forall i | 0 <= i < |r.lines|
      ensures ParseTag(r.lines[i]).None?
    {
      if i >= |head.lines| {
        assert r.lines[i] == tail.lines[i - |head.lines|];
      }
    }
  }

  lemma SequencedFresh(root: seq<Entry>, visited: set<Path>, head: Resolution, tail: Resolution)
    requires Keeps(root, visited, head) && Keeps(root, head.visited, tail)
    ensures forall i :: 0 <= i < |Sequenced(head, tail).expanded| ==>
              Sequenced(head, tail).expanded[i] in AllFiles(root) && Sequenced(head, tail).expanded[i] !in visited
  {
    var r := Sequenced(head, tail);
    forall i | 0 <= i < |r.expanded|
      ensures r.expanded[i] in AllFiles(root) && r.expanded[i] !in visited
    {
      if i >= |head.expanded| {
        assert r.expanded[i] == tail.expanded[i - |head.expanded|];
      }
    }
  }

  lemma SequencedDistinct(root: seq<Entry>, visited: set<Path>, head: Resolution, tail: Resolution)
    requires Keeps(root, visited, head) && Keeps(root, head.visited, tail)
    ensures forall i, j :: 0 <= i < j < |Sequenced(head, tail).expanded| ==>
              Sequenced(head, tail).expanded[i] != Sequenced(head, tail).expanded[j]
  {
    var r := Sequenced(head, tail);
    forall i, j | 0 <= i < j < |r.expanded|
      ensures r.expanded[i] != r.expanded[j]
    {
      if j >= |head.expanded| {
        assert r.expanded[j] == tail.expanded[j - |head.expanded|];
        if i >= |head.expanded| {
          assert r.expanded[i] == tail.expanded[i - |head.expanded|];
        } else {
          assert r.expanded[i] in head.visited;
        }
      }
    }
  }

  lemma SequencedVisited(root: seq<Entry>, visited: set<Path>, head: Resolution, tail: Resolution)
    requires Keeps(root, visited, head) && Keeps(root, head.visited, tail)
    ensures visited <= Sequenced(head, tail).visited
    ensures forall p :: p in Sequenced(head, tail).visited <==> p in visited || p in Sequenced(head, tail).expanded
  {
    var r := Sequenced(head, tail);
    forall p
      ensures p in r.visited <==> p in visited || p in r.expanded
    {
      assert p in head.expanded ==> p in r.expanded;
      assert p in tail.expanded ==> p in r.expanded;
      assert p in r.expanded ==> p in head.expanded || p in tail.expanded;
    }
  }

  /** Expanding a reachable template not visited before, in front of the
      resolution of its body, keeps the facts. */
  lemma KeepsExpanded(root: seq<Entry>, visited: set<Path>, p: Path, inner: Resolution)
    requires p in AllFiles(root) && p !in visited
    requires Keeps(root, visited + {p}, inner)
    ensures Keeps(root, visited, Expanded(p, inner))
  {
    var r := Expanded(p, inner);
    forall i | 0 <= i < |r.expanded|
      ensures r.expanded[i] in AllFiles(root) && r.expanded[i] !in visited
    {
      if i > 0 {
        assert r.expanded[i] == inner.expanded[i - 1];
      }
    }
    forall i, j | 0 <= i < j < |r.expanded|
      ensures r.expanded[i] != r.expanded[j]
    {
      assert r.expanded[j] == inner.expanded[j - 1];
      if i > 0 {
        assert r.expanded[i] == inner.expanded[i - 1];
      }
    }
    forall q
      ensures q in r.visited <==> q in visited || q in r.expanded
    {
      assert q in inner.expanded ==> q in r.expanded;
      assert q in r.expanded ==> q == p || q in inner.expanded;
    }
  }

  function Sequenced(head: Resolution, tail: Resolution): Resolution
  {
    Resolution(head.lines + tail.lines, tail.visited, head.expanded + tail.expanded, head.warnings + tail.warnings)
  }

  function Expanded(p: Path, inner: Resolution): Resolution
  {
    Resolution(inner.lines, inner.visited, [p] + inner.expanded, inner.warnings)
  }

  function ResolveLines(root: seq<Entry>, lines: seq<string>, visited: set<Path>): (r: Resolution)
    decreases |AllFiles(root) - visited|, |lines|
    ensures visited <= r.visited
  {
    if |lines| == 0 then Resolution([], visited, [], [])
    else
      var head := ResolveLine(root, lines[0], visited);
      VisitGrows(AllFiles(root), visited, head.visited);
      var tail := ResolveLines(root, lines[1..], head.visited);
      Sequenced(head, tail)
  }

  function ResolveLine(root: seq<Entry>, line: string, visited: set<Path>): (r: Resolution)
    decreases |AllFiles(root) - visited|, 0
    ensures visited <= r.visited
  {
    match ParseTag(line)
    case None => Resolution([line], visited, [], [])
    case Some(tag) =>
      match FindIn(root, tag.templateName)
      case None => Resolution([], visited, [], [Skipped(None)])
      case Some(f) =>
        var p := PathOf(f);
        if p in visited then Resolution([], visited, [], [Skipped(Some(p))])
        else
          FoundIsReachable(root, tag.templateName);
          VisitShrinks(AllFiles(root), visited, p);
          var body := SplitLines(ApplyParams(f.contents, tag.params));
          var inner := ResolveLines(root, body, visited + {p});
          Expanded(p, inner)
  }

  /** `resolveTemplates(lines, baseDir)` with a fresh visited set. */
  function ResolveTemplates(root: seq<Entry>, lines: seq<string>): (r: Resolution)
    ensures Keeps(root, {}, r)
  {
    LinesKeep(root, lines, {});
    ResolveLines(root, lines, {})
  }

  /** Resolving lines keeps the facts of `Keeps`. */
  lemma {:induction false} LinesKeep(root: seq<Entry>, lines: seq<string>, visited: set<Path>)
    decreases |AllFiles(root) - visited|, |lines|
    ensures Keeps(root, visited, ResolveLines(root, lines, visited))
  {
    if |lines| > 0 {
      var head := ResolveLine(root, lines[0], visited);
      LineKeeps(root, lines[0], visited);
      VisitGrows(AllFiles(root), visited, head.visited);
      var tail := ResolveLines(root, lines[1..], head.visited);
      LinesKeep(root, lines[1..], head.visited);
      KeepsSequenced(root, visited, head, tail);
    }
  }

  /** Resolving one line keeps the facts of `Keeps`. */
  lemma {:induction false} LineKeeps(root: seq<Entry>, line: string, visited: set<Path>)
    decreases |AllFiles(root) - visited|, 0
    ensures Keeps(root, visited, ResolveLine(root, line, visited))
  {
    match ParseTag(line)
    case None =>
    case Some(tag) =>
      match FindIn(root, tag.templateName)
      case None =>
      case Some(f) =>
        var p := PathOf(f);
        if p !in visited {
          FoundIsReachable(root, tag.templateName);
          VisitShrinks(AllFiles(root), visited, p);
          var body := SplitLines(ApplyParams(f.contents, tag.params));
          LinesKeep(root, body, visited + {p});
          KeepsExpanded(root, visited, p, ResolveLines(root, body, visited + {p}));
        }
  }

  // ---------------------------------------------------------------------
  // Properties of the walk
  // ---------------------------------------------------------------------

  /** Lines none of which is a directive come back as they are, with nothing
      visited and nothing printed. */
  lemma {:induction false} NoDirectivesUnchanged(root: seq<Entry>, lines: seq<string>, visited: set<Path>)
    requires forall i :: 0 <= i < |lines| ==> ParseTag(lines[i]).None?
    decreases |lines|
    ensures ResolveLines(root, lines, visited) == Resolution(lines, visited, [], [])
  {
    if |lines| > 0 {
      TextLineKept(root, lines[0], visited);
      ResolveLinesUnfold(root, lines, visited);
      NoDirectivesUnchanged(root, lines[1..], visited);
      assert [lines[0]] + lines[1..] == lines;
    }
  }

  /** A line that is not a directive is kept, and nothing else happens. */
  lemma TextLineKept(root: seq<Entry>, line: string, visited: set<Path>)
    requires ParseTag(line).None?
    ensures ResolveLine(root, line, visited) == Resolution([line], visited, [], [])
  {
  }

  lemma ResolveLinesUnfold(root: seq<Entry>, lines: seq<string>, visited: set<Path>)
    requires |lines| > 0
    ensures ResolveLines(root, lines, visited)
            == Sequenced(ResolveLine(root, lines[0], visited),
                         ResolveLines(root, lines[1..], ResolveLine(root, lines[0], visited).visited))
  {
  }

  /** Resolving `a + b` is resolving `a`, then `b` from the visited set `a`
      left behind: the visited set is shared across the whole sequence. */
  lemma {:induction false} ResolveAppend(root: seq<Entry>, a: seq<string>, b: seq<string>, visited: set<Path>)
    decreases |a|
    ensures ResolveLines(root, a + b, visited)
            == Sequenced(ResolveLines(root, a, visited), ResolveLines(root, b, ResolveLines(root, a, visited).visited))
  {
    if |a| == 0 {
      ResolveAppendNothing(root, a, b, visited);
    } else {
      var head := ResolveLine(root, a[0], visited);
      ResolveAppend(root, a[1..], b, head.visited);
      ResolveAppendStep(root, a, b, visited);
    }
  }

  lemma ResolveAppendNothing(root: seq<Entry>, a: seq<string>, b: seq<string>, visited: set<Path>)
    requires |a| == 0
    ensures ResolveLines(root, a + b, visited)
            == Sequenced(ResolveLines(root, a, visited), ResolveLines(root, b, ResolveLines(root, a, visited).visited))
  {
    var rb := ResolveLines(root, b, visited);
    assert a + b == b;
    assert [] + rb.lines == rb.lines && [] + rb.expanded == rb.expanded && [] + rb.warnings == rb.warnings;
  }

  /** The inductive step of `ResolveAppend`: the first line of `a` is resolved
      first either way. */
  lemma ResolveAppendStep(root: seq<Entry>, a: seq<string>, b: seq<string>, visited: set<Path>)
    requires |a| > 0
    requires ResolveLines(root, a[1..] + b, ResolveLine(root, a[0], visited).visited)
             == Sequenced(ResolveLines(root, a[1..], ResolveLine(root, a[0], visited).visited),
                          ResolveLines(root, b, ResolveLines(root, a[1..], ResolveLine(root, a[0], visited).visited).visited))
    ensures ResolveLines(root, a + b, visited)
            == Sequenced(ResolveLines(root, a, visited), ResolveLines(root, b, ResolveLines(root, a, visited).visited))
  {
    var head := ResolveLine(root, a[0], visited);
    var mid := ResolveLines(root, a[1..], head.visited);
    var last := ResolveLines(root, b, mid.visited);
    AppendParts(a, b);
    ResolveLinesUnfold(root, a + b, visited);
    ResolveLinesUnfold(root, a, visited);
    SequencedAssociative(head, mid, last);
  }

  lemma AppendParts(a: seq<string>, b: seq<string>)
    requires |a| > 0
    ensures (a + b)[0] == a[0] && (a + b)[1..] == a[1..] + b
  {
  }

  lemma SequencedAssociative(x: Resolution, y: Resolution, z: Resolution)
    ensures Sequenced(x, Sequenced(y, z)) == Sequenced(Sequenced(x, y), z)
  {
    assert x.lines + (y.lines + z.lines) == x.lines + y.lines + z.lines;
    assert x.expanded + (y.expanded + z.expanded) == x.expanded + y.expanded + z.expanded;
    assert x.warnings + (y.warnings + z.warnings) == x.warnings + y.warnings + z.warnings;
  }

  /** The lines that are not directives, in order. */
  function TextLines(lines: seq<string>): (r: seq<string>)
    ensures |r| <= |lines|
    ensures forall i :: 0 <= i < |r| ==> r[i] in lines && ParseTag(r[i]).None?
  {
    if |lines| == 0 then []
    else (if ParseTag(lines[0]).None? then [lines[0]] else []) + TextLines(lines[1..])
  }

  /** `a` can be obtained from `b` by deleting elements. */
  predicate IsSubsequence(a: seq<string>, b: seq<string>)
  {
    |a| == 0 || (|b| > 0 && ((a[0] == b[0] && IsSubsequence(a[1..], b[1..])) || IsSubsequence(a, b[1..])))
  }

  lemma {:induction false} SubsequenceAfter(a: seq<string>, c: seq<string>, b: seq<string>)
    requires IsSubsequence(a, b)
    decreases |c|
    ensures IsSubsequence(a, c + b)
  {
    if |c| == 0 {
      assert c + b == b;
    } else if |a| > 0 {
      assert (c + b)[1..] == c[1..] + b;
      SubsequenceAfter(a, c[1..], b);
    }
  }

  /** Every line that is not a directive appears in the output unchanged,
      and those lines keep their relative order. */
  lemma {:induction false} TextLinesKept(root: seq<Entry>, lines: seq<string>, visited: set<Path>)
    decreases |lines|
    ensures IsSubsequence(TextLines(lines), ResolveLines(root, lines, visited).lines)
  {
    if |lines| > 0 {
      var head := ResolveLine(root, lines[0], visited);
      var tail := ResolveLines(root, lines[1..], head.visited);
      TextLinesKept(root, lines[1..], head.visited);
      var out := head.lines + tail.lines;
      if ParseTag(lines[0]).None? {
        assert head.lines == [lines[0]];
        assert TextLines(lines) == [lines[0]] + TextLines(lines[1..]);
        assert out[0] == lines[0] && out[1..] == tail.lines;
      } else {
        assert TextLines(lines) == TextLines(lines[1..]);
        SubsequenceAfter(TextLines(lines[1..]), head.lines, tail.lines);
      }
    }
  }

  /** No template is expanded more often than there are reachable files. */
  lemma ExpansionsBounded(root: seq<Entry>, lines: seq<string>)
    ensures |ResolveTemplates(root, lines).expanded| <= |AllFiles(root)|
  {
    var es := ResolveTemplates(root, lines).expanded;
    DistinctCard(es);
    assert (set i | 0 <= i < |es| :: es[i]) <= AllFiles(root);
    VisitGrows(set i | 0 <= i < |es| :: es[i], {}, AllFiles(root) - (set i | 0 <= i < |es| :: es[i]));
  }

  /** A sequence without repeats has as many distinct elements as entries. */
  lemma {:induction false} DistinctCard(es: seq<Path>)
    requires forall i, j :: 0 <= i < j < |es| ==> es[i] != es[j]
    ensures |set i | 0 <= i < |es| :: es[i]| == |es|
  {
    if |es| > 0 {
      var rest := es[1..];
      DistinctCard(rest);
      var s := set i | 0 <= i < |rest| :: rest[i];
      assert (set i | 0 <= i < |es| :: es[i]) == {es[0]} + s;
      assert es[0] !in s;
    }
  }

  // ---------------------------------------------------------------------
  // Examples
  // ---------------------------------------------------------------------

  lemma ResolveOne(root: seq<Entry>, line: string, visited: set<Path>)
    ensures ResolveLines(root, [line], visited) == ResolveLine(root, line, visited)
  {
    var head := ResolveLine(root, line, visited);
    assert [line][1..] == [];
    assert head.lines + [] == head.lines && head.expanded + [] == head.expanded && head.warnings + [] == head.warnings;
  }

  lemma ExpandsFound(root: seq<Entry>, line: string, visited: set<Path>, tag: Tag, f: Found)
    requires ParseTag(line) == Some(tag) && FindIn(root, tag.templateName) == Some(f)
    requires PathOf(f) !in visited
    ensures ResolveLine(root, line, visited)
            == Expanded(PathOf(f), ResolveLines(root, SplitLines(ApplyParams(f.contents, tag.params)), visited + {PathOf(f)}))
  {
  }

  lemma SkipsVisited(root: seq<Entry>, line: string, visited: set<Path>, tag: Tag, f: Found)
    requires ParseTag(line) == Some(tag) && FindIn(root, tag.templateName) == Some(f)
    requires PathOf(f) in visited
    ensures ResolveLine(root, line, visited) == Resolution([], visited, [], [Skipped(Some(PathOf(f)))])
  {
  }

  /** A directive whose template is not found leaves no line and one warning
      that carries no path. */
  lemma DropsNotFound(root: seq<Entry>, line: string, visited: set<Path>, tag: Tag)
    requires ParseTag(line) == Some(tag) && FindIn(root, tag.templateName) == None
    ensures ResolveLine(root, line, visited) == Resolution([], visited, [], [Skipped(None)])
  {
  }

  /** The directive naming template `a`. */
  lemma DirectiveA()
    ensures ParseTag("<!-->A<-->") == Some(Tag("a", []))
  {
    DirectiveARendered();
    ParseRendered("A", []);
  }

  lemma DirectiveARendered()
    ensures Render("A", []) == "<!-->A<-->"
    ensures Lower("A") == "a"
  {
  }

  /** A single file `a.html` is what the search for `a` finds. */
  lemma FindsA(c: string)
    ensures FindIn([File("a.html", c)], "a") == Some(Found([], "a.html", c))
    ensures PathOf(Found([], "a.html", c)) == ["a.html"]
  {
    assert Lower("a.html") == "a.html";
    assert Matches("a.html", "a");
  }

  lemma OneLine(text: string)
    requires '\n' !in text
    ensures SplitLines(ApplyParams(text, [])) == [text]
  {
    SplitLinesSingle(text);
  }

  lemma NoLineFeedInDirective()
    ensures '\n' !in "<!-->A<-->"
  {
  }

  lemma PlainX()
    ensures ParseTag("x") == None
  {
    XTrimmed();
    XUnframed();
    UnframedIsPlain("x");
  }

  lemma XTrimmed()
    ensures Trim("x") == "x"
  {
    TrimNoop("x");
  }

  lemma XUnframed()
    ensures !Framed("x")
  {
  }

  /** Resolving `a.html`'s directive again, once `a.html` is visited. */
  lemma InnerSkipped(c: string)
    ensures ResolveLines([File("a.html", c)], ["<!-->A<-->"], {["a.html"]})
            == Resolution([], {["a.html"]}, [], [Skipped(Some(["a.html"]))])
  {
    var root := [File("a.html", c)];
    DirectiveA();
    FindsA(c);
    ResolveOne(root, "<!-->A<-->", {["a.html"]});
    SkipsVisited(root, "<!-->A<-->", {["a.html"]}, Tag("a", []), Found([], "a.html", c));
  }

  /** The first directive for `a` expands the one-line file `a.html`. */
  lemma OuterExpands(c: string)
    requires '\n' !in c
    ensures ResolveLines([File("a.html", c)], ["<!-->A<-->"], {})
            == Expanded(["a.html"], ResolveLines([File("a.html", c)], [c], {["a.html"]}))
  {
    var root := [File("a.html", c)];
    var f := Found([], "a.html", c);
    calc {
      ResolveLines(root, ["<!-->A<-->"], {});
      { ResolveOne(root, "<!-->A<-->", {}); }
      ResolveLine(root, "<!-->A<-->", {});
      { DirectiveA(); FindsA(c); ExpandsFound(root, "<!-->A<-->", {}, Tag("a", []), f); }
      Expanded(PathOf(f), ResolveLines(root, SplitLines(ApplyParams(c, [])), {} + {PathOf(f)}));
      { FindsA(c); OneLine(c); assert {} + {["a.html"]} == {["a.html"]}; }
      Expanded(["a.html"], ResolveLines(root, [c], {["a.html"]}));
    }
  }

  /** A template that names itself is expanded once; the inner directive is
      dropped with one warning and leaves no line behind. */
  lemma SelfReference()
    ensures ResolveTemplates([File("a.html", "<!-->A<-->")], ["<!-->A<-->"])
            == Resolution([], {["a.html"]}, [["a.html"]], [Skipped(Some(["a.html"]))])
  {
    NoLineFeedInDirective();
    OuterExpands("<!-->A<-->");
    InnerSkipped("<!-->A<-->");
  }

  /** The plain file `a.html` resolves to its one line. */
  lemma InnerPlain()
    ensures ResolveLines([File("a.html", "x")], ["x"], {["a.html"]}) == Resolution(["x"], {["a.html"]}, [], [])
  {
    PlainX();
    NoDirectivesUnchanged([File("a.html", "x")], ["x"], {["a.html"]});
  }

  /** The first directive for the plain file `a.html` gives its line. */
  lemma FirstUse()
    ensures ResolveLines([File("a.html", "x")], ["<!-->A<-->"], {}) == Resolution(["x"], {["a.html"]}, [["a.html"]], [])
  {
    OuterExpands("x");
    InnerPlain();
  }

  /** The visited set is shared, not a stack: a template used twice on one
      page, with no cycle at all, is expanded only the first time. */
  lemma ReuseExpandedOnce()
    ensures ResolveTemplates([File("a.html", "x")], ["<!-->A<-->", "<!-->A<-->"])
            == Resolution(["x"], {["a.html"]}, [["a.html"]], [Skipped(Some(["a.html"]))])
  {
    var root := [File("a.html", "x")];
    var line := "<!-->A<-->";
    var p := ["a.html"];
    var first := Resolution(["x"], {p}, [p], []);
    var second := Resolution([], {p}, [], [Skipped(Some(p))]);
    calc {
      ResolveLines(root, [line, line], {});
      { assert [line, line] == [line] + [line]; }
      ResolveLines(root, [line] + [line], {});
      { ResolveAppend(root, [line], [line], {}); }
      Sequenced(ResolveLines(root, [line], {}), ResolveLines(root, [line], ResolveLines(root, [line], {}).visited));
      { FirstUse(); }
      Sequenced(first, ResolveLines(root, [line], {p}));
      { InnerSkipped("x"); }
      Sequenced(first, second);
      { SequencedOnce(first, second); }
      Resolution(["x"], {p}, [p], [Skipped(Some(p))]);
    }
  }

  lemma SequencedOnce(first: Resolution, second: Resolution)
    requires first == Resolution(["x"], {["a.html"]}, [["a.html"]], [])
    requires second == Resolution([], {["a.html"]}, [], [Skipped(Some(["a.html"]))])
    ensures Sequenced(first, second) == Resolution(["x"], {["a.html"]}, [["a.html"]], [Skipped(Some(["a.html"]))])
  {
    assert ["x"] + [] == ["x"];
    assert [["a.html"]] + [] == [["a.html"]];
    assert [] + [Skipped(Some(["a.html"]))] == [Skipped(Some(["a.html"]))];
  }
}
