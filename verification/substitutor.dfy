/**
 `applyParams`: for each property of the parameter object, in the order
 `Object.entries` lists them, every `:::KEY:::` in the text so far is
 replaced by the property's value.
 */
module Substitutor {
  import opened Strings
  import opened JsReplace
  import opened ParamsObject

  /** The text a template writes where the value of `key` goes. */
  function Placeholder(key: string): (r: string)
    ensures |r| == |key| + 6
    ensures r[..3] == ":::" && r[|r| - 3..] == ":::" && r[3..|r| - 3] == key
  {
    ":::" + key + ":::"
  }

  /** One replacement pass per entry, each over the result of the one before. */
  function ApplyEntries(text: string, es: Params): (r: string)
    decreases |es|
    ensures (forall i :: 0 <= i < |es| ==> !Contains(text, Placeholder(es[i].key))) ==> r == text
  {
    if |es| == 0 then text
    else
      var next := ReplaceAll(text, Placeholder(es[0].key), es[0].value);
      assert forall i :: 1 <= i < |es| ==> es[1..][i - 1] == es[i];
      ApplyEntries(next, es[1..])
  }

  /** `applyParams(content, params)`. */
  function ApplyParams(text: string, ps: Params): (r: string)
    ensures (forall i :: 0 <= i < |ps| ==> !Contains(text, Placeholder(ps[i].key))) ==> r == text
  {
    EntriesFromParams(ps);
    ApplyEntries(text, Entries(ps))
  }

  /** Every listed entry is one of the object's properties. */
  lemma EntriesFromParams(ps: Params)
    ensures forall i :: 0 <= i < |Entries(ps)| ==> exists j :: 0 <= j < |ps| && ps[j] == Entries(ps)[i]
  {
    var es := Entries(ps);
    forall i | 0 <= i < |es|
      ensures exists j :: 0 <= j < |ps| && ps[j] == es[i]
    {
      assert es[i] in multiset(ps);
    }
  }

  /** Applying two lists of entries is applying the first, then the second
      to its result. */
  lemma {:induction false} ApplyEntriesAppend(text: string, a: Params, b: Params)
    decreases |a|
    ensures ApplyEntries(text, a + b) == ApplyEntries(ApplyEntries(text, a), b)
  {
    if |a| == 0 {
      assert a + b == b;
    } else {
      assert (a + b)[1..] == a[1..] + b;
      ApplyEntriesAppend(ReplaceAll(text, Placeholder(a[0].key), a[0].value), a[1..], b);
    }
  }

  /** One entry whose value has no `$` turns each placeholder occurrence found
      by a left-to-right scan into the value, verbatim. */
  lemma ApplyOneIsSplitJoin(text: string, p: Param)
    requires '$' !in p.value
    ensures ApplyEntries(text, [p]) == Join(Split(text, Placeholder(p.key)), p.value)
  {
    ReplaceIsSplitJoin(text, Placeholder(p.key), p.value);
  }

  /** With no array-index keys, the keys apply in creation order, and a key
      added last runs over the text the earlier keys produced. */
  lemma ApplyInCreationOrder(text: string, ps: Params, p: Param)
    requires forall i :: 0 <= i < |ps| ==> !IsArrayIndex(ps[i].key)
    requires !IsArrayIndex(p.key)
    ensures ApplyParams(text, ps) == ApplyEntries(text, ps)
    ensures ApplyParams(text, ps + [p]) == ReplaceAll(ApplyParams(text, ps), Placeholder(p.key), p.value)
  {
    PlainKeysApply(text, ps);
    NoIndexAppend(ps, p);
    PlainKeysApply(text, ps + [p]);
    ApplyEntriesAppend(text, ps, [p]);
    ApplySingle(ApplyEntries(text, ps), p);
  }

  /** Without array-index keys the entries are the properties as created. */
  lemma PlainKeysApply(text: string, ps: Params)
    requires forall i :: 0 <= i < |ps| ==> !IsArrayIndex(ps[i].key)
    ensures ApplyParams(text, ps) == ApplyEntries(text, ps)
  {
  }

  lemma NoIndexAppend(ps: Params, p: Param)
    requires forall i :: 0 <= i < |ps| ==> !IsArrayIndex(ps[i].key)
    requires !IsArrayIndex(p.key)
    ensures forall i :: 0 <= i < |ps + [p]| ==> !IsArrayIndex((ps + [p])[i].key)
  {
    forall i | 0 <= i < |ps + [p]|
      ensures !IsArrayIndex((ps + [p])[i].key)
    {
      if i < |ps| {
        assert (ps + [p])[i] == ps[i];
      }
    }
  }

  /** A single entry is a single replacement pass. */
  lemma ApplySingle(text: string, p: Param)
    ensures ApplyEntries(text, [p]) == ReplaceAll(text, Placeholder(p.key), p.value)
  {
    assert [p][1..] == [];
  }

  // ---------------------------------------------------------------------
  // Single-pass facts
  // ---------------------------------------------------------------------

  /** Text without the pattern's first character is left as it is. */
  lemma ReplaceNothing(s: string, pat: string, v: string)
    requires |pat| > 0
    requires forall i :: 0 <= i < |s| ==> s[i] != pat[0]
    ensures ReplaceAll(s, pat, v) == s
  {
    NoFirstCharNoOccurrence(s, pat);
  }

  /** A leading occurrence, after text free of the pattern's first character,
      becomes the value, and the scan goes on after it. */
  lemma ReplaceLeading(x: string, pat: string, v: string, y: string)
    requires |pat| > 0 && '$' !in v
    requires forall i :: 0 <= i < |x| ==> x[i] != pat[0]
    ensures ReplaceAll(x + pat + y, pat, v) == x + v + ReplaceAll(y, pat, v)
  {
    ReplaceIsSplitJoin(x + pat + y, pat, v);
    ReplaceIsSplitJoin(y, pat, v);
    SplitCons(x, pat, y);
    var rest := Split(y, pat);
    assert |rest| >= 1;
    assert Join([x] + rest, v) == x + v + Join(rest, v);
  }

  /** The first occurrence, wherever it is, becomes the value, and the
      scan goes on after it. */
  lemma ReplaceAt(s: string, pat: string, v: string, k: nat)
    requires |pat| > 0 && '$' !in v
    requires OccursAt(s, pat, k)
    requires forall j :: 0 <= j < k ==> !OccursAt(s, pat, j)
    ensures ReplaceAll(s, pat, v) == s[..k] + v + ReplaceAll(s[k + |pat|..], pat, v)
  {
    ReplaceIsSplitJoin(s, pat, v);
    ReplaceIsSplitJoin(s[k + |pat|..], pat, v);
    SplitAt(s, pat, k);
    var rest := Split(s[k + |pat|..], pat);
    assert Join([s[..k]] + rest, v) == s[..k] + v + Join(rest, v);
  }

  /** Entries applied one after the other. */
  lemma ApplyTwo(text: string, p: Param, q: Param)
    ensures ApplyEntries(text, [p, q])
            == ReplaceAll(ReplaceAll(text, Placeholder(p.key), p.value), Placeholder(q.key), q.value)
  {
    assert [p, q][1..] == [q];
    assert [q][1..] == [];
  }

  /** Text without a colon holds no placeholder. */
  lemma ReplaceNoColon(s: string, key: string, v: string)
    requires ':' !in s
    ensures ReplaceAll(s, Placeholder(key), v) == s
  {
    ReplaceNothing(s, Placeholder(key), v);
  }

  /** A placeholder preceded only by colon-free text is the first occurrence. */
  lemma ReplaceLeadingPlaceholder(x: string, key: string, v: string, y: string)
    requires ':' !in x && '$' !in v
    ensures ReplaceAll(x + Placeholder(key) + y, Placeholder(key), v) == x + v + ReplaceAll(y, Placeholder(key), v)
  {
    ReplaceLeading(x, Placeholder(key), v, y);
  }

  /** A value that spells the placeholder across its neighbours brings the
      placeholder back: the replaced text is not scanned again. */
  lemma NotRescanned()
    ensures ReplaceAll("::::::A::::::", Placeholder("A"), "A") == ":::A:::"
  {
    var s := "::::::A::::::";
    var pat := Placeholder("A");
    PlaceholderSpelled("A");
    ColonsAroundA();
    forall j | 0 <= j < 3
      ensures !OccursAt(s, pat, j)
    {
      assert s[j..j + 7][3] == s[j + 3] == ':';
    }
    ReplaceAt(s, pat, "A", 3);
    ColonsStay(pat);
  }

  lemma ColonsAroundA()
    ensures "::::::A::::::"[3..10] == ":::A:::"
    ensures "::::::A::::::"[..3] == ":::" && "::::::A::::::"[10..] == ":::"
    ensures ":::" + "A" + ":::" == ":::A:::"
  {
  }

  /** Text shorter than the pattern holds no occurrence of it. */
  lemma ColonsStay(pat: string)
    requires |pat| == 7
    ensures ReplaceAll(":::", pat, "A") == ":::"
  {
    ContainsIff(":::", pat);
  }

  lemma SpellsNext()
    ensures ReplaceAll(":::A:::", Placeholder("A"), ":::B:::") == ":::B:::"
  {
    PlaceholderA();
    NoDollarInB();
    ReplaceWhole(Placeholder("A"), ":::B:::");
  }

  lemma PlaceholderA()
    ensures Placeholder("A") == ":::A:::"
  {
  }

  lemma NoDollarInB()
    ensures '$' !in ":::B:::"
  {
  }

  lemma ReplacesLast()
    ensures ReplaceAll(":::B:::", Placeholder("B"), "x") == "x"
  {
    PlaceholderB();
    ReplaceWhole(Placeholder("B"), "x");
  }

  lemma PlaceholderB()
    ensures Placeholder("B") == ":::B:::"
  {
  }

  /** Text that is exactly the pattern becomes the value. */
  lemma ReplaceWhole(pat: string, v: string)
    requires |pat| > 0 && '$' !in v
    ensures ReplaceAll(pat, pat, v) == v
  {
    ReplaceLeading("", pat, v, "");
    assert "" + pat + "" == pat;
    ReplaceNothing("", pat, v);
  }

  /** An earlier value may introduce a later key's placeholder, which the
      later pass then replaces. */
  lemma EarlierValueFeedsLaterKey()
    ensures ApplyEntries(":::A:::", [Param("A", ":::B:::"), Param("B", "x")]) == "x"
  {
    ApplyTwo(":::A:::", Param("A", ":::B:::"), Param("B", "x"));
    SpellsNext();
    ReplacesLast();
  }

  // ---------------------------------------------------------------------
  // The test cases of applyParams
  // ---------------------------------------------------------------------

  /** Keys that start with a letter are listed in creation order. */
  lemma NamedKeysInOrder(ps: Params)
    requires forall i :: 0 <= i < |ps| ==> |ps[i].key| > 0 && !IsDigit(ps[i].key[0])
    ensures Entries(ps) == ps
  {
  }

  lemma ApplyNamedOne(text: string, p: Param)
    requires |p.key| > 0 && !IsDigit(p.key[0])
    ensures ApplyParams(text, [p]) == ReplaceAll(text, Placeholder(p.key), p.value)
  {
    NamedSingle(p);
    NamedKeysInOrder([p]);
    ApplySingle(text, p);
  }

  lemma NamedSingle(p: Param)
    requires |p.key| > 0 && !IsDigit(p.key[0])
    ensures forall i :: 0 <= i < |[p]| ==> |[p][i].key| > 0 && !IsDigit([p][i].key[0])
  {
  }

  lemma ApplyNamedTwo(text: string, p: Param, q: Param)
    requires |p.key| > 0 && !IsDigit(p.key[0])
    requires |q.key| > 0 && !IsDigit(q.key[0])
    ensures ApplyParams(text, [p, q])
            == ReplaceAll(ReplaceAll(text, Placeholder(p.key), p.value), Placeholder(q.key), q.value)
  {
    NamedPair(p, q);
    NamedKeysInOrder([p, q]);
    ApplyTwo(text, p, q);
  }

  lemma NamedPair(p: Param, q: Param)
    requires |p.key| > 0 && !IsDigit(p.key[0])
    requires |q.key| > 0 && !IsDigit(q.key[0])
    ensures forall i :: 0 <= i < |[p, q]| ==> |[p, q][i].key| > 0 && !IsDigit([p, q][i].key[0])
  {
  }

  lemma ReplacesSingle()
    ensures ApplyParams("<div>:::TITLE:::</div>", [Param("TITLE", "Hello")]) == "<div>Hello</div>"
  {
    ApplyNamedOne("<div>:::TITLE:::</div>", Param("TITLE", "Hello"));
    SinglePass();
  }

  lemma SinglePass()
    ensures ReplaceAll("<div>:::TITLE:::</div>", Placeholder("TITLE"), "Hello") == "<div>Hello</div>"
  {
    SingleSpelled();
    ReplaceLeadingPlaceholder("<div>", "TITLE", "Hello", "</div>");
    ReplaceNoColon("</div>", "TITLE", "Hello");
  }

  lemma SingleSpelled()
    ensures "<div>:::TITLE:::</div>" == "<div>" + Placeholder("TITLE") + "</div>"
    ensures "<div>" + "Hello" + "</div>" == "<div>Hello</div>"
  {
  }

  lemma ReplacesMultiple()
    ensures ApplyParams("<h1>:::TITLE:::</h1><p>:::BODY:::</p>", [Param("TITLE", "Hi"), Param("BODY", "Welcome")])
            == "<h1>Hi</h1><p>Welcome</p>"
  {
    ApplyNamedTwo("<h1>:::TITLE:::</h1><p>:::BODY:::</p>", Param("TITLE", "Hi"), Param("BODY", "Welcome"));
    MultipleFirstPass();
    MultipleSecondPass();
  }

  lemma MultipleFirstPass()
    ensures ReplaceAll("<h1>:::TITLE:::</h1><p>:::BODY:::</p>", Placeholder("TITLE"), "Hi")
            == "<h1>Hi</h1><p>:::BODY:::</p>"
  {
    var y := "</h1><p>:::BODY:::</p>";
    MultipleSpelled();
    ReplaceLeadingPlaceholder("<h1>", "TITLE", "Hi", y);
    TitleNotInRest();
  }

  lemma MultipleSpelled()
    ensures "<h1>:::TITLE:::</h1><p>:::BODY:::</p>" == "<h1>" + Placeholder("TITLE") + "</h1><p>:::BODY:::</p>"
    ensures "<h1>" + "Hi" + "</h1><p>:::BODY:::</p>" == "<h1>Hi</h1><p>:::BODY:::</p>"
    ensures "<h1>Hi</h1><p>:::BODY:::</p>" == "<h1>Hi</h1><p>" + Placeholder("BODY") + "</p>"
    ensures "<h1>Hi</h1><p>" + "Welcome" + "</p>" == "<h1>Hi</h1><p>Welcome</p>"
  {
    PlaceholderSpelled("TITLE");
    PlaceholderSpelled("BODY");
    MultipleLiterals();
  }

  lemma PlaceholderSpelled(key: string)
    ensures Placeholder(key) == ":::" + key + ":::"
  {
  }

  lemma MultipleLiterals()
    ensures "<h1>:::TITLE:::</h1><p>:::BODY:::</p>" == "<h1>" + (":::" + "TITLE" + ":::") + "</h1><p>:::BODY:::</p>"
    ensures "<h1>" + "Hi" + "</h1><p>:::BODY:::</p>" == "<h1>Hi</h1><p>:::BODY:::</p>"
    ensures "<h1>Hi</h1><p>:::BODY:::</p>" == "<h1>Hi</h1><p>" + (":::" + "BODY" + ":::") + "</p>"
    ensures "<h1>Hi</h1><p>" + "Welcome" + "</p>" == "<h1>Hi</h1><p>Welcome</p>"
  {
    MultipleLiteral1();
    MultipleLiteral2();
    MultipleLiteral3();
  }

  lemma MultipleLiteral1()
    ensures "<h1>:::TITLE:::</h1><p>:::BODY:::</p>" == "<h1>" + (":::" + "TITLE" + ":::") + "</h1><p>:::BODY:::</p>"
  {
  }

  lemma MultipleLiteral2()
    ensures "<h1>" + "Hi" + "</h1><p>:::BODY:::</p>" == "<h1>Hi</h1><p>:::BODY:::</p>"
  {
  }

  lemma MultipleLiteral3()
    ensures "<h1>Hi</h1><p>:::BODY:::</p>" == "<h1>Hi</h1><p>" + (":::" + "BODY" + ":::") + "</p>"
  {
  }

  /** The rest of the line holds another key's placeholder only. */
  lemma TitleNotInRest()
    ensures ReplaceAll("</h1><p>:::BODY:::</p>", Placeholder("TITLE"), "Hi") == "</h1><p>:::BODY:::</p>"
  {
    var y := "</h1><p>:::BODY:::</p>";
    var pat := Placeholder("TITLE");
    assert pat[3] == 'T';
    forall j | 0 <= j && j + |pat| <= |y|
      ensures !OccursAt(y, pat, j)
    {
      assert y[j..j + |pat|][3] == y[j + 3];
    }
    ContainsIff(y, pat);
  }

  lemma MultipleSecondPass()
    ensures ReplaceAll("<h1>Hi</h1><p>:::BODY:::</p>", Placeholder("BODY"), "Welcome") == "<h1>Hi</h1><p>Welcome</p>"
  {
    MultipleSpelled();
    ReplaceLeadingPlaceholder("<h1>Hi</h1><p>", "BODY", "Welcome", "</p>");
    ReplaceNoColon("</p>", "BODY", "Welcome");
  }

  lemma ReplacesEveryOccurrence()
    ensures ApplyParams(":::WORD::: :::WORD:::", [Param("WORD", "repeat")]) == "repeat repeat"
  {
    ApplyNamedOne(":::WORD::: :::WORD:::", Param("WORD", "repeat"));
    RepeatPass();
  }

  lemma RepeatPass()
    ensures ReplaceAll(":::WORD::: :::WORD:::", Placeholder("WORD"), "repeat") == "repeat repeat"
  {
    RepeatSpelled();
    ReplaceLeadingPlaceholder("", "WORD", "repeat", " :::WORD:::");
    ReplaceLeadingPlaceholder(" ", "WORD", "repeat", "");
    ReplaceNoColon("", "WORD", "repeat");
  }

  lemma RepeatSpelled()
    ensures ":::WORD::: :::WORD:::" == "" + Placeholder("WORD") + " :::WORD:::"
    ensures " :::WORD:::" == " " + Placeholder("WORD") + ""
    ensures "" + "repeat" + (" " + "repeat" + "") == "repeat repeat"
  {
    PlaceholderSpelled("WORD");
    RepeatLiterals();
  }

  lemma RepeatLiterals()
    ensures ":::WORD::: :::WORD:::" == "" + (":::" + "WORD" + ":::") + " :::WORD:::"
    ensures " :::WORD:::" == " " + (":::" + "WORD" + ":::") + ""
    ensures "" + "repeat" + (" " + "repeat" + "") == "repeat repeat"
  {
  }

  lemma LeavesTextWithoutPlaceholder()
    ensures ApplyParams("<div>No params here</div>", [Param("TITLE", "Hello")]) == "<div>No params here</div>"
  {
    ApplyNamedOne("<div>No params here</div>", Param("TITLE", "Hello"));
    NoColonInText();
    ReplaceNoColon("<div>No params here</div>", "TITLE", "Hello");
  }

  lemma NoColonInText()
    ensures ':' !in "<div>No params here</div>"
  {
  }
}
