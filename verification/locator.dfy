/**
 The template directory as a tree, and `findTemplatePath`: a depth-first
 search, in listing order, for the first file whose lowercased name is the
 template name plus `.html`, never entering a directory named `pages`.
 */
module Locator {
  import opened Options
  import opened Strings

  /** A directory entry as `readdirSync` lists it: a file with its text, or a
      sub-directory with its own entries in listing order. */
  datatype Entry = File(name: string, contents: string) | Dir(name: string, entries: seq<Entry>)

  /** Directories that hold pages, not templates; never searched. */
  const PagesDir: string := "pages"

  const Extension: string := ".html"

  /** A file reached from the search root: the directories walked through,
      the file's own name, and its text. Its path is `dirs + [name]`. */
  datatype Found = Found(dirs: seq<string>, name: string, contents: string)

  /** The file-name test: the lowercased name is the template name plus `.html`. */
  predicate Matches(fileName: string, templateName: string)
  {
    Lower(fileName) == templateName + Extension
  }

  /** The search itself: entries in order, a file is checked, a directory
      other than `pages` is searched before the entries after it. */
  function FindIn(entries: seq<Entry>, templateName: string): (r: Option<Found>)
    decreases entries
    ensures r.Some? ==> Matches(r.value.name, templateName)
    ensures r.Some? ==> PagesDir !in r.value.dirs
  {
    if |entries| == 0 then None
    else match entries[0]
      case File(n, c) =>
        if Matches(n, templateName) then Some(Found([], n, c)) else FindIn(entries[1..], templateName)
      case Dir(n, children) =>
        if n == PagesDir then FindIn(entries[1..], templateName)
        else match FindIn(children, templateName)
          case Some(f) => Some(Found([n] + f.dirs, f.name, f.contents))
          case None => FindIn(entries[1..], templateName)
  }

  // ---------------------------------------------------------------------
  // Reference: the depth-first listing and its first match
  // ---------------------------------------------------------------------

  /** The files found under directory `n`, with `n` put in front of their paths. */
  function Under(n: string, fs: seq<Found>): (r: seq<Found>)
    ensures |r| == |fs|
    ensures forall i :: 0 <= i < |r| ==> r[i] == Found([n] + fs[i].dirs, fs[i].name, fs[i].contents)
  {
    seq(|fs|, i requires 0 <= i < |fs| => Found([n] + fs[i].dirs, fs[i].name, fs[i].contents))
  }

  /** Every file outside `pages` directories, in depth-first listing order. */
  function Listing(entries: seq<Entry>): (r: seq<Found>)
    decreases entries
    ensures forall i :: 0 <= i < |r| ==> PagesDir !in r[i].dirs
  {
    if |entries| == 0 then []
    else
      (match entries[0]
       case File(n, c) => [Found([], n, c)]
       case Dir(n, children) => if n == PagesDir then [] else Under(n, Listing(children)))
      + Listing(entries[1..])
  }

  /** The first file of a listing whose name matches. */
  function FirstMatch(fs: seq<Found>, templateName: string): (r: Option<Found>)
    ensures r.None? <==> forall i :: 0 <= i < |fs| ==> !Matches(fs[i].name, templateName)
    ensures r.Some? ==> exists i :: 0 <= i < |fs| && fs[i] == r.value && Matches(fs[i].name, templateName)
                                    && forall j :: 0 <= j < i ==> !Matches(fs[j].name, templateName)
  {
    if |fs| == 0 then None
    else if Matches(fs[0].name, templateName) then Some(fs[0])
    else
      var r := FirstMatch(fs[1..], templateName);
      assert forall i :: 1 <= i < |fs| ==> fs[i] == fs[1..][i - 1];
      r
  }

  lemma {:induction false} FirstMatchAppend(a: seq<Found>, b: seq<Found>, t: string)
    ensures FirstMatch(a + b, t) == if FirstMatch(a, t).Some? then FirstMatch(a, t) else FirstMatch(b, t)
  {
    if |a| > 0 {
      assert (a + b)[1..] == a[1..] + b;
      FirstMatchAppend(a[1..], b, t);
    } else {
      assert a + b == b;
    }
  }

  lemma {:induction false} FirstMatchUnder(n: string, fs: seq<Found>, t: string)
    ensures FirstMatch(Under(n, fs), t) ==
            match FirstMatch(fs, t)
            case Some(f) => Some(Found([n] + f.dirs, f.name, f.contents))
            case None => None
  {
    if |fs| > 0 {
      assert Under(n, fs)[1..] == Under(n, fs[1..]);
      FirstMatchUnder(n, fs[1..], t);
    }
  }

  /** The search finds exactly the first matching file of the depth-first
      listing that leaves out `pages` directories. */
  lemma {:induction false} FindIsFirstMatch(entries: seq<Entry>, t: string)
    decreases entries
    ensures FindIn(entries, t) == FirstMatch(Listing(entries), t)
  {
    if |entries| > 0 {
      FindIsFirstMatch(entries[1..], t);
      var rest := Listing(entries[1..]);
      match entries[0]
      case File(n, c) =>
        FirstMatchAppend([Found([], n, c)], rest, t);
      case Dir(n, children) =>
        if n == PagesDir {
          assert Listing(entries) == rest by {
            assert Listing(entries) == [] + rest;
          }
        } else {
          FindIsFirstMatch(children, t);
          FirstMatchUnder(n, Listing(children), t);
          FirstMatchAppend(Under(n, Listing(children)), rest, t);
        }
    }
  }

  /** `findTemplatePath` returns null exactly when no file outside `pages`
      directories has the wanted name; otherwise it returns the first one. */
  lemma FindNoneIff(entries: seq<Entry>, t: string)
    ensures FindIn(entries, t).None? <==>
            forall i :: 0 <= i < |Listing(entries)| ==> !Matches(Listing(entries)[i].name, t)
    ensures FindIn(entries, t).Some? ==>
            exists i :: 0 <= i < |Listing(entries)| && Listing(entries)[i] == FindIn(entries, t).value
                        && forall j :: 0 <= j < i ==> !Matches(Listing(entries)[j].name, t)
  {
    FindIsFirstMatch(entries, t);
  }

  /** The path of a found file relative to the search root. */
  function PathOf(f: Found): seq<string>
  {
    f.dirs + [f.name]
  }

  /** The paths of all files the search can reach. */
  function AllFiles(entries: seq<Entry>): set<seq<string>>
  {
    set i | 0 <= i < |Listing(entries)| :: PathOf(Listing(entries)[i])
  }

  /** What the search returns is one of the reachable files. */
  lemma FoundIsReachable(entries: seq<Entry>, t: string)
    requires FindIn(entries, t).Some?
    ensures PathOf(FindIn(entries, t).value) in AllFiles(entries)
  {
    FindIsFirstMatch(entries, t);
  }

  // ---------------------------------------------------------------------
  // Reading a file back by its path
  // ---------------------------------------------------------------------

  /** A real directory: no two entries share a name, at any depth. */
  predicate WellFormed(entries: seq<Entry>)
    decreases entries
  {
    && (forall i, j :: 0 <= i < j < |entries| ==> entries[i].name != entries[j].name)
    && (forall i :: 0 <= i < |entries| ==> entries[i].Dir? ==> WellFormed(entries[i].entries))
  }

  /** `readFileSync` of `dirs + [name]` relative to the search root. */
  function ReadFile(entries: seq<Entry>, dirs: seq<string>, name: string): Option<string>
    decreases entries
  {
    if |entries| == 0 then None
    else match entries[0]
      case File(n, c) =>
        if |dirs| == 0 && n == name then Some(c) else ReadFile(entries[1..], dirs, name)
      case Dir(n, children) =>
        if |dirs| > 0 && n == dirs[0] then ReadFile(children, dirs[1..], name)
        else ReadFile(entries[1..], dirs, name)
  }

  /** The first component of a found file's path. */
  function Head(f: Found): string
  {
    if |f.dirs| == 0 then f.name else f.dirs[0]
  }

  /** A listed file's path starts at one of the listed entries. */
  lemma {:induction false} ListedHead(entries: seq<Entry>, k: nat)
    requires k < |Listing(entries)|
    decreases entries
    ensures exists i :: 0 <= i < |entries| && entries[i].name == Head(Listing(entries)[k])
  {
    var first := match entries[0]
      case File(n, c) => [Found([], n, c)]
      case Dir(n, children) => if n == PagesDir then [] else Under(n, Listing(children));
    assert Listing(entries) == first + Listing(entries[1..]);
    if k < |first| {
      assert entries[0].name == Head(Listing(entries)[k]);
    } else {
      ListedHead(entries[1..], k - |first|);
      var i :| 0 <= i < |entries[1..]| && entries[1..][i].name == Head(Listing(entries[1..])[k - |first|]);
      assert entries[i + 1].name == Head(Listing(entries)[k]);
    }
  }

  /** In a real directory, reading a listed file's path gives that file's text. */
  lemma {:induction false} ListedReadsBack(entries: seq<Entry>, k: nat)
    requires WellFormed(entries)
    requires k < |Listing(entries)|
    decreases entries
    ensures ReadFile(entries, Listing(entries)[k].dirs, Listing(entries)[k].name) == Some(Listing(entries)[k].contents)
  {
    var f := Listing(entries)[k];
    var first := match entries[0]
      case File(n, c) => [Found([], n, c)]
      case Dir(n, children) => if n == PagesDir then [] else Under(n, Listing(children));
    var rest := Listing(entries[1..]);
    assert Listing(entries) == first + rest;
    if k < |first| {
      match entries[0]
      case File(n, c) =>
      case Dir(n, children) =>
        var g := Listing(children)[k];
        assert f == Found([n] + g.dirs, g.name, g.contents);
        assert f.dirs[1..] == g.dirs;
        ListedReadsBack(children, k);
    } else {
      assert f == rest[k - |first|];
      ListedReadsBack(entries[1..], k - |first|);
      ListedHead(entries[1..], k - |first|);
      var i :| 0 <= i < |entries[1..]| && entries[1..][i].name == Head(f);
      assert entries[0].name != entries[i + 1].name;
    }
  }

  /** The path the search returns reads back as the file it found. */
  lemma FoundReadsBack(entries: seq<Entry>, t: string)
    requires WellFormed(entries)
    requires FindIn(entries, t).Some?
    ensures ReadFile(entries, FindIn(entries, t).value.dirs, FindIn(entries, t).value.name)
            == Some(FindIn(entries, t).value.contents)
  {
    FindIsFirstMatch(entries, t);
    var i :| 0 <= i < |Listing(entries)| && Listing(entries)[i] == FindIn(entries, t).value;
    ListedReadsBack(entries, i);
  }

  // ---------------------------------------------------------------------
  // Examples
  // ---------------------------------------------------------------------

  /** A template under `pages` is invisible; one elsewhere is found whatever
      the case of its name. */
  lemma SkipsPagesFindsAnyCase()
    ensures FindIn([Dir("pages", [File("card.html", "page")]),
                    Dir("parts", [File("Card.HTML", "part")])], "card")
            == Some(Found(["parts"], "Card.HTML", "part"))
  {
    var tree := [Dir("pages", [File("card.html", "page")]), Dir("parts", [File("Card.HTML", "part")])];
    assert Lower("Card.HTML") == "card.html";
    assert FindIn([File("Card.HTML", "part")], "card") == Some(Found([], "Card.HTML", "part"));
    assert ["parts"] + [] == ["parts"];
    assert FindIn(tree[1..], "card") == Some(Found(["parts"], "Card.HTML", "part"));
  }
}
