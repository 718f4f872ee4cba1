/**
 The directive recognizer: a trimmed line of the form
 `<!-->NAME<-->` or `<!-->NAME:::KEY:::(((VALUE)))…<-->` becomes a tag with
 the lower-cased name and the parameters collected from the `:::` parts.

 `ParseTag` is the recognizer with `:::` separators throughout;
 `ParseTagAsWritten` follows the source's regular expression literally, whose
 repeated group begins with only two colons (see `AsWrittenAcceptsDoubleColon`).
 */
module TagParser {
  import opened Options
  import opened Strings
  import opened ParamsObject

  const Open: string := "<!-->"
  const Close: string := "<-->"
  const Sep: string := ":::"
  const ValueOpen: string := "((("
  const ValueClose: string := ")))"

  datatype Tag = Tag(templateName: string, params: Params)

  predicate IsNameChar(c: char)
  {
    ('A' <= c <= 'Z') || ('0' <= c <= '9') || c == '_'
  }

  /** A template name as the parser hands it on: `[a-z0-9_]+`. */
  predicate IsTemplateName(n: string)
  {
    |n| > 0 && forall i :: 0 <= i < |n| ==> ('a' <= n[i] <= 'z') || ('0' <= n[i] <= '9') || n[i] == '_'
  }

  /** The length of the longest prefix of `m` made of name characters. */
  function NameRun(m: string): (n: nat)
    ensures n <= |m|
    ensures forall i :: 0 <= i < n ==> IsNameChar(m[i])
    ensures n == |m| || !IsNameChar(m[n])
  {
    if |m| > 0 && IsNameChar(m[0]) then 1 + NameRun(m[1..]) else 0
  }

  predicate NoLineTerminator(t: string)
  {
    forall i :: 0 <= i < |t| ==> !IsLineTerminator(t[i])
  }

  /** What the capture group must match: a name, then nothing or a
      `:::KEY:::VALUE` tail (any number of such groups reduces to this). */
  predicate IsBody(m: string)
  {
    var n := NameRun(m);
    n > 0 && (n == |m| || (OccursAt(m, Sep, n) && Contains(m[n + 3..], Sep)))
  }

  /** The capture group of the regular expression as written: its repeated
      group `(?:::.*?:::.*?)` opens with `(?:` and so begins with two colons. */
  predicate IsBodyAsWritten(m: string)
  {
    var n := NameRun(m);
    n > 0 && (n == |m| || (OccursAt(m, "::", n) && Contains(m[n + 2..], Sep)))
  }

  predicate Framed(t: string)
  {
    && |t| >= |Open| + |Close|
    && t[..|Open|] == Open
    && t[|t| - |Close|..] == Close
    && NoLineTerminator(t)
  }

  function Inner(t: string): string
    requires |t| >= |Open| + |Close|
  {
    t[|Open|..|t| - |Close|]
  }

  /** The first `(((` of `part` starts at `i`. */
  predicate FirstOpenAt(part: string, i: nat)
  {
    OccursAt(part, ValueOpen, i) && forall j :: 0 <= j < i ==> !OccursAt(part, ValueOpen, j)
  }

  /** `v` follows the `(((` at `i`, and the first `)))` after that `(((` comes
      right after `v`. */
  predicate ClosedAfter(part: string, i: nat, v: string)
  {
    && i + 3 + |v| <= |part|
    && part[i + 3..i + 3 + |v|] == v
    && OccursAt(part, ValueClose, i + 3 + |v|)
    && forall j :: i + 3 <= j < i + 3 + |v| ==> !OccursAt(part, ValueClose, j)
  }

  /** `part.match(/\(\(\((.*?)\)\)\)/s)`: the text between the first `(((` and
      the first `)))` after it. */
  function FindValue(part: string): (r: Option<string>)
    ensures r.Some? ==> exists i :: FirstOpenAt(part, i) && ClosedAfter(part, i, r.value)
    ensures r.Some? ==> Contains(part, ValueOpen + r.value + ValueClose)
    ensures r.None? ==> forall i, j :: OccursAt(part, ValueOpen, i) && i + 3 <= j ==> !OccursAt(part, ValueClose, j)
  {
    match IndexOf(part, ValueOpen, 0)
    case None => None
    case Some(i) =>
      match IndexOf(part, ValueClose, i + 3)
      case None => None
      case Some(j) =>
        GroupContained(part, i, j);
        assert FirstOpenAt(part, i) && ClosedAfter(part, i, part[i + 3..j]);
        Some(part[i + 3..j])
  }

  /** An opening `(((` and a later `)))` enclose a group the part contains. */
  lemma GroupContained(part: string, i: nat, j: nat)
    requires OccursAt(part, ValueOpen, i) && i + 3 <= j && OccursAt(part, ValueClose, j)
    ensures Contains(part, ValueOpen + part[i + 3..j] + ValueClose)
  {
    var g := ValueOpen + part[i + 3..j] + ValueClose;
    assert part[i..j + 3] == part[i..i + 3] + part[i + 3..j] + part[j..j + 3];
    assert OccursAt(part, g, i);
    ContainsIff(part, g);
  }

  /** The loop over `parts[1..]` in pairs: a key is kept only when the part
      after it holds a `(((…)))` group; a trailing key is dropped. */
  function CollectParams(rest: seq<string>, acc: Params): Params
    decreases |rest|
  {
    if |rest| < 2 then acc else CollectParams(rest[2..], Assign(acc, rest[0], rest[1]))
  }

  /** One round of the loop: `params[key] = value` when `part` holds a group. */
  function Assign(acc: Params, key: string, part: string): Params
  {
    match FindValue(part)
    case Some(v) => Put(acc, key, v)
    case None => acc
  }

  /** Everything after a successful match: split the capture on `:::`,
      lower-case the first part and collect the parameters. */
  function Decode(m: string): Tag
  {
    var parts := Split(m, Sep);
    Tag(Lower(parts[0]), CollectParams(parts[1..], []))
  }

  /** `parseTemplateTag(line)`, `null` being `None`. */
  function ParseTag(line: string): (r: Option<Tag>)
    ensures r.Some? ==> IsTemplateName(r.value.templateName)
    ensures r.Some? ==> Framed(Trim(line))
  {
    var t := Trim(line);
    if Framed(t) && IsBody(Inner(t)) then
      FirstPartIsName(Inner(t));
      Some(Decode(Inner(t)))
    else None
  }

  /** `parseTemplateTag(line)` with the regular expression exactly as written. */
  function ParseTagAsWritten(line: string): (r: Option<Tag>)
    ensures r.Some? ==> Framed(Trim(line))
  {
    var t := Trim(line);
    if Framed(t) && IsBodyAsWritten(Inner(t)) then Some(Decode(Inner(t))) else None
  }

  /** In an accepted body the first `:::` part is exactly the name run, so the
      template name is the lower-cased name. */
  lemma FirstPartIsName(m: string)
    requires IsBody(m)
    ensures Split(m, Sep)[0] == m[..NameRun(m)]
    ensures IsTemplateName(Lower(Split(m, Sep)[0]))
  {
    FirstPartIsNameRun(m);
    NameLowers(m[..NameRun(m)]);
  }

  lemma FirstPartIsNameRun(m: string)
    requires IsBody(m)
    ensures Split(m, Sep)[0] == m[..NameRun(m)]
  {
    var n := NameRun(m);
    if n == |m| {
      SplitSingle(m, Sep);
      assert m[..n] == m;
    } else {
      assert m == m[..n] + Sep + m[n + 3..] by {
        assert m[n..n + 3] == Sep;
      }
      SplitCons(m[..n], Sep, m[n + 3..]);
    }
  }

  /** A name of `[A-Z0-9_]` lower-cases to a template name. */
  lemma NameLowers(name: string)
    requires |name| > 0 && forall i :: 0 <= i < |name| ==> IsNameChar(name[i])
    ensures IsTemplateName(Lower(name))
  {
    forall i | 0 <= i < |name|
      ensures ('a' <= Lower(name)[i] <= 'z') || ('0' <= Lower(name)[i] <= '9') || Lower(name)[i] == '_'
    {
      assert IsNameChar(name[i]);
    }
  }

  // ---------------------------------------------------------------------
  // The directive grammar as a generator, and the round trip
  // ---------------------------------------------------------------------

  /** Text after which a `:::` is split off exactly where it is placed: it
      holds no `:::` and does not end in a colon that would run into it. */
  predicate SepFree(s: string)
  {
    !Contains(s, Sep) && (|s| == 0 || s[|s| - 1] != ':')
  }

  /** A parameter the grammar can carry and the parser gives back: key and
      value on one line, a key without `:::` that does not end in a colon, a
      value without `:::`, a key other than `__proto__`, and a value that does
      not end the `(((…)))` group early. Single and double colons, as in a
      URL, are allowed. */
  predicate Carriable(p: Param)
  {
    && NoLineTerminator(p.key) && NoLineTerminator(p.value)
    && SepFree(p.key) && !Contains(p.value, Sep)
    && p.key != ProtoKey
    && !Contains(p.value + "))", ValueClose)
  }

  function Group(p: Param): string
  {
    ValueOpen + p.value + ValueClose
  }

  function RenderParams(ps: Params): string
  {
    if |ps| == 0 then "" else Sep + ps[0].key + Sep + Group(ps[0]) + RenderParams(ps[1..])
  }

  /** The directive line naming `name` with parameters `ps`. */
  function Render(name: string, ps: Params): string
  {
    Open + RenderBody(name, ps) + Close
  }

  function RenderBody(name: string, ps: Params): string
  {
    name + RenderParams(ps)
  }

  /** The parts `Split` yields after the name. */
  function Flat(ps: Params): seq<string>
  {
    if |ps| == 0 then [] else [ps[0].key, Group(ps[0])] + Flat(ps[1..])
  }

  lemma GroupOneLine(v: string)
    requires NoLineTerminator(v)
    ensures NoLineTerminator(ValueOpen + v + ValueClose)
  {
    NoLineTerminatorConcat(ValueOpen, v);
    NoLineTerminatorConcat(ValueOpen + v, ValueClose);
  }

  lemma {:induction false} RenderParamsNoTerminator(ps: Params)
    requires forall i :: 0 <= i < |ps| ==> Carriable(ps[i])
    ensures NoLineTerminator(RenderParams(ps))
  {
    if |ps| > 0 {
      CarriableTail(ps);
      RenderParamsNoTerminator(ps[1..]);
      GroupOneLine(ps[0].value);
      OneLineParam(ps[0].key, Group(ps[0]), RenderParams(ps[1..]));
    }
  }

  lemma OneLineParam(key: string, g: string, rest: string)
    requires NoLineTerminator(key) && NoLineTerminator(g) && NoLineTerminator(rest)
    ensures NoLineTerminator(Sep + key + Sep + g + rest)
  {
    NoLineTerminatorConcat(Sep, key);
    NoLineTerminatorConcat(Sep + key, Sep);
    NoLineTerminatorConcat(Sep + key + Sep, g);
    NoLineTerminatorConcat(Sep + key + Sep + g, rest);
  }

  /** A `:::` placed after separator-free text is the first one there. */
  lemma SepFreeSplits(x: string, y: string)
    requires SepFree(x)
    ensures Split(x + Sep + y, Sep) == [x] + Split(y, Sep)
  {
    var s := x + Sep + y;
    forall k | 0 <= k < |x|
      ensures !OccursAt(s, Sep, k)
    {
      NoSepBefore(x, y, k);
    }
    EndsWith(x, Sep);
    assert s[|x|..|x| + 3] == (x + Sep)[|x|..|x| + 3];
    SplitAt(s, Sep, |x|);
    assert s[..|x|] == x;
    assert s[|x| + 3..] == y;
  }

  lemma NoSepBefore(x: string, y: string, k: nat)
    requires SepFree(x) && k < |x|
    ensures !OccursAt(x + Sep + y, Sep, k)
  {
    var s := x + Sep + y;
    if k + 3 <= |x| {
      NotAnywhere(x, Sep, k);
      assert s[k..k + 3] == x[k..k + 3];
    } else {
      assert k + 3 <= |s| ==> s[k..k + 3][|x| - 1 - k] == x[|x| - 1];
    }
  }

  /** A group whose value holds no `:::` holds none either, and it ends in `)`. */
  lemma GroupSepFree(v: string)
    requires !Contains(v, Sep)
    ensures SepFree(ValueOpen + v + ValueClose)
  {
    var g := ValueOpen + v + ValueClose;
    forall k | 0 <= k && k + 3 <= |g|
      ensures !OccursAt(g, Sep, k)
    {
      GroupNoSepAt(v, k);
    }
    ContainsIff(g, Sep);
    assert g[|g| - 1] == ValueClose[2];
  }

  lemma GroupNoSepAt(v: string, k: nat)
    requires !Contains(v, Sep)
    requires k + 3 <= |ValueOpen + v + ValueClose|
    ensures !OccursAt(ValueOpen + v + ValueClose, Sep, k)
  {
    var g := ValueOpen + v + ValueClose;
    if k < 3 {
      assert g[k..k + 3][0] == g[k] == ValueOpen[k];
    } else if k <= |v| {
      NotAnywhere(v, Sep, k - 3);
      assert g[3..3 + |v|] == v;
      SliceOfSlice(g, 3, 3 + |v|, k - 3, k);
    } else {
      assert g[k..k + 3][2] == g[k + 2] == ValueClose[k + 2 - 3 - |v|];
    }
  }

  /** A template name holds no colon, so it is separator-free. */
  lemma NameSepFree(name: string)
    requires forall i :: 0 <= i < |name| ==> IsNameChar(name[i])
    ensures SepFree(name)
  {
    NoFirstCharNoOccurrence(name, Sep);
  }

  lemma {:induction false} SplitRendered(x: string, ps: Params)
    requires SepFree(x)
    requires forall i :: 0 <= i < |ps| ==> Carriable(ps[i])
    decreases |ps|
    ensures Split(x + RenderParams(ps), Sep) == [x] + Flat(ps)
  {
    if |ps| == 0 {
      SplitNone(x, Sep);
      assert x + RenderParams(ps) == x;
    } else {
      CarriableTail(ps);
      GroupSepFree(ps[0].value);
      SplitRendered(Group(ps[0]), ps[1..]);
      SplitRenderedStep(x, ps);
    }
  }

  lemma CarriableTail(ps: Params)
    requires |ps| > 0
    requires forall i :: 0 <= i < |ps| ==> Carriable(ps[i])
    ensures Carriable(ps[0])
    ensures forall i :: 0 <= i < |ps[1..]| ==> Carriable(ps[1..][i])
  {
    forall i | 0 <= i < |ps[1..]|
      ensures Carriable(ps[1..][i])
    {
      assert ps[1..][i] == ps[i + 1];
    }
  }

  /** One parameter in front of a text whose split is known. */
  lemma SplitRenderedStep(x: string, ps: Params)
    requires SepFree(x) && |ps| > 0 && Carriable(ps[0])
    requires Split(Group(ps[0]) + RenderParams(ps[1..]), Sep) == [Group(ps[0])] + Flat(ps[1..])
    ensures Split(x + RenderParams(ps), Sep) == [x] + Flat(ps)
  {
    var p := ps[0];
    var g := Group(p);
    var r' := RenderParams(ps[1..]);
    calc {
      Split(x + RenderParams(ps), Sep);
      { RenderParamsCons(x, ps); }
      Split(x + Sep + (p.key + Sep + (g + r')), Sep);
      { SplitTwoCons(x, p.key, g + r'); }
      [x, p.key] + Split(g + r', Sep);
      [x, p.key] + ([g] + Flat(ps[1..]));
      { FrontThree(x, p.key, g, Flat(ps[1..])); }
      [x] + ([p.key, g] + Flat(ps[1..]));
      { FlatDef(ps); }
      [x] + Flat(ps);
    }
  }

  lemma FlatDef(ps: Params)
    requires |ps| > 0
    ensures Flat(ps) == [ps[0].key, Group(ps[0])] + Flat(ps[1..])
  {
  }

  lemma FrontThree(a: string, b: string, c: string, rest: seq<string>)
    ensures [a, b] + ([c] + rest) == [a] + ([b, c] + rest)
  {
    assert [a, b] + ([c] + rest) == [a, b, c] + rest;
    assert [a] + ([b, c] + rest) == [a, b, c] + rest;
  }

  /** The text after a name, regrouped around its first two separators. */
  lemma RenderParamsCons(x: string, ps: Params)
    requires |ps| > 0
    ensures x + RenderParams(ps) == x + Sep + (ps[0].key + Sep + (Group(ps[0]) + RenderParams(ps[1..])))
  {
    Regroup5(Sep, ps[0].key, Sep, Group(ps[0]), RenderParams(ps[1..]));
  }

  /** Two plain pieces in front, each followed by the separator. */
  lemma SplitTwoCons(x: string, k: string, y: string)
    requires SepFree(x) && SepFree(k)
    ensures Split(x + Sep + (k + Sep + y), Sep) == [x, k] + Split(y, Sep)
  {
    SepFreeSplits(k, y);
    SepFreeSplits(x, k + Sep + y);
  }

  lemma ValueOfGroup(p: Param)
    requires Carriable(p)
    ensures FindValue(Group(p)) == Some(p.value)
  {
    var g := Group(p);
    GroupOpens(p.value);
    GroupCloses(p.value);
    assert g[3..3 + |p.value|] == p.value;
  }

  /** A group's first `(((` is its opening one. */
  lemma GroupOpens(v: string)
    ensures IndexOf(ValueOpen + v + ValueClose, ValueOpen, 0) == Some(0)
  {
    var g := ValueOpen + v + ValueClose;
    assert g[0..3] == ValueOpen;
    IndexOfFinds(g, ValueOpen, 0, 0);
  }

  /** After its `(((`, a group starts with the value and two parentheses. */
  lemma GroupHoldsValue(v: string)
    ensures (ValueOpen + v + ValueClose)[3..3 + |v| + 2] == v + "))"
  {
    var g := ValueOpen + v + ValueClose;
    forall t | 0 <= t < |v| + 2
      ensures g[3..3 + |v| + 2][t] == (v + "))")[t]
    {
      assert g[3..3 + |v| + 2][t] == g[3 + t];
    }
  }

  /** A value without `)))` that does not end in `)` is closed by the group's
      own `)))`. */
  lemma GroupCloses(v: string)
    requires !Contains(v + "))", ValueClose)
    ensures IndexOf(ValueOpen + v + ValueClose, ValueClose, 3) == Some(3 + |v|)
  {
    var g := ValueOpen + v + ValueClose;
    var j := 3 + |v|;
    EndsWith(ValueOpen + v, ValueClose);
    forall k | 3 <= k < j
      ensures !OccursAt(g, ValueClose, k)
    {
      NoEarlyClose(v, k);
    }
    IndexOfFinds(g, ValueClose, 3, j);
  }

  lemma NoEarlyClose(v: string, k: nat)
    requires !Contains(v + "))", ValueClose)
    requires 3 <= k < 3 + |v|
    ensures !OccursAt(ValueOpen + v + ValueClose, ValueClose, k)
  {
    var g := ValueOpen + v + ValueClose;
    var w := v + "))";
    GroupHoldsValue(v);
    NotAnywhere(w, ValueClose, k - 3);
    SliceOfSlice(g, 3, 3 + |w|, k - 3, k);
  }

  lemma EndsWith(a: string, b: string)
    ensures OccursAt(a + b, b, |a|)
  {
    assert (a + b)[|a|..|a| + |b|] == b;
  }

  lemma NotAnywhere(s: string, pat: string, k: int)
    requires !Contains(s, pat)
    ensures !OccursAt(s, pat, k)
  {
    ContainsIff(s, pat);
  }

  lemma {:induction false} CollectFlat(ps: Params, acc: Params)
    requires forall i :: 0 <= i < |ps| ==> Carriable(ps[i])
    requires UniqueKeys(acc + ps)
    ensures CollectParams(Flat(ps), acc) == acc + ps
  {
    if |ps| > 0 {
      var p := ps[0];
      var acc' := acc + [p];
      assert acc + ps == acc' + ps[1..];
      assert forall i :: 0 <= i < |ps[1..]| ==> Carriable(ps[1..][i]) by {
        forall i | 0 <= i < |ps[1..]|
          ensures Carriable(ps[1..][i])
        {
          assert ps[1..][i] == ps[i + 1];
        }
      }
      calc {
        CollectParams(Flat(ps), acc);
        { ValueOfGroup(p); FlatCons(ps); CollectStep(Flat(ps), acc, p.value); }
        CollectParams(Flat(ps[1..]), Put(acc, p.key, p.value));
        { FreshKey(acc, ps); }
        CollectParams(Flat(ps[1..]), acc');
        { CollectFlat(ps[1..], acc'); }
        acc' + ps[1..];
      }
    }
  }

  lemma FlatCons(ps: Params)
    requires |ps| > 0
    ensures |Flat(ps)| >= 2 && Flat(ps)[0] == ps[0].key && Flat(ps)[1] == Group(ps[0])
    ensures Flat(ps)[2..] == Flat(ps[1..])
  {
  }

  /** One round of the pair loop on a part that holds a value. */
  lemma CollectStep(rest: seq<string>, acc: Params, v: string)
    requires |rest| >= 2 && FindValue(rest[1]) == Some(v)
    ensures CollectParams(rest, acc) == CollectParams(rest[2..], Put(acc, rest[0], v))
  {
  }

  // ---------------------------------------------------------------------
  // The pair loop on any parts
  // ---------------------------------------------------------------------

  /** A key with no part after it is dropped. */
  lemma CollectTrailingKey(k: string, acc: Params)
    ensures CollectParams([k], acc) == acc
  {
  }

  /** A key left without a part after it, at the end of any list of pairs,
      is dropped. */
  lemma {:induction false} CollectDropsTrailing(rest: seq<string>, k: string, acc: Params)
    requires |rest| % 2 == 0
    decreases |rest|
    ensures CollectParams(rest + [k], acc) == CollectParams(rest, acc)
  {
    if |rest| == 0 {
      assert rest + [k] == [k];
    } else {
      var acc' := Assign(acc, rest[0], rest[1]);
      assert (rest + [k])[2..] == rest[2..] + [k];
      assert (rest + [k])[0] == rest[0] && (rest + [k])[1] == rest[1];
      CollectDropsTrailing(rest[2..], k, acc');
    }
  }

  /** A key whose next part holds no `(((…)))` group is dropped, and the loop
      carries on after that part. */
  lemma CollectSkipsNoGroup(k: string, part: string, rest: seq<string>, acc: Params)
    requires FindValue(part).None?
    ensures CollectParams([k, part] + rest, acc) == CollectParams(rest, acc)
  {
    assert ([k, part] + rest)[2..] == rest;
  }

  /** A key whose next part holds a group is assigned the group's value, and
      the loop carries on after that part. */
  lemma CollectAssignsGroup(k: string, part: string, rest: seq<string>, acc: Params, v: string)
    requires FindValue(part) == Some(v)
    ensures CollectParams([k, part] + rest, acc) == CollectParams(rest, Put(acc, k, v))
  {
    assert ([k, part] + rest)[2..] == rest;
  }

  /** Part `2 * i` is the key of `p`, and the part after it holds a group
      whose value is that of `p`. */
  predicate PairAt(rest: seq<string>, i: nat, p: Param)
  {
    2 * i + 1 < |rest| && rest[2 * i] == p.key && FindValue(rest[2 * i + 1]) == Some(p.value)
  }

  predicate HasKey(ps: Params, k: string)
  {
    KeyIndex(ps, k).Some?
  }

  lemma CollectUnfold(rest: seq<string>, acc: Params)
    requires |rest| >= 2
    ensures CollectParams(rest, acc) == CollectParams(rest[2..], Assign(acc, rest[0], rest[1]))
  {
  }

  /** A pair after the first two parts is a pair of the whole, one further on. */
  lemma PairShift(rest: seq<string>, i: nat, p: Param)
    requires |rest| >= 2 && PairAt(rest[2..], i, p)
    ensures PairAt(rest, i + 1, p)
  {
    assert rest[2..][2 * i] == rest[2 * (i + 1)];
    assert rest[2..][2 * i + 1] == rest[2 * (i + 1) + 1];
  }

  lemma AssignMember(acc: Params, key: string, part: string, p: Param)
    requires p in Assign(acc, key, part)
    ensures p in acc || (p.key == key && FindValue(part) == Some(p.value))
  {
    if FindValue(part).Some? {
      PutMember(acc, key, FindValue(part).value, p);
    }
  }

  /** Every collected parameter was already in the object or is a key whose
      next part holds a group with that value. */
  lemma {:induction false} CollectOnlyFromPairs(rest: seq<string>, acc: Params)
    decreases |rest|
    ensures forall p :: p in CollectParams(rest, acc) ==> p in acc || exists i :: PairAt(rest, i, p)
  {
    if |rest| >= 2 {
      CollectUnfold(rest, acc);
      CollectOnlyFromPairs(rest[2..], Assign(acc, rest[0], rest[1]));
      OnlyFromPairsStep(rest, acc, CollectParams(rest, acc));
    }
  }

  lemma OnlyFromPairsStep(rest: seq<string>, acc: Params, r: Params)
    requires |rest| >= 2
    requires forall p :: p in r ==> p in Assign(acc, rest[0], rest[1]) || exists i :: PairAt(rest[2..], i, p)
    ensures forall p :: p in r ==> p in acc || exists i :: PairAt(rest, i, p)
  {
    forall p | p in r
      ensures p in acc || exists i :: PairAt(rest, i, p)
    {
      OnlyFromPairsOne(rest, acc, p);
    }
  }

  lemma OnlyFromPairsOne(rest: seq<string>, acc: Params, p: Param)
    requires |rest| >= 2
    requires p in Assign(acc, rest[0], rest[1]) || exists i :: PairAt(rest[2..], i, p)
    ensures p in acc || exists i :: PairAt(rest, i, p)
  {
    if p in Assign(acc, rest[0], rest[1]) {
      AssignMember(acc, rest[0], rest[1], p);
      if p !in acc {
        assert PairAt(rest, 0, p);
      }
    } else {
      var i: nat :| PairAt(rest[2..], i, p);
      PairShift(rest, i, p);
    }
  }

  /** The parameters of a directive all come from key parts followed by a
      part holding a group, with that group's value. */
  lemma CollectedFromPairs(rest: seq<string>)
    ensures forall p :: p in CollectParams(rest, []) ==> exists i :: PairAt(rest, i, p)
  {
    CollectOnlyFromPairs(rest, []);
  }

  /** Every key already present stays present. */
  lemma {:induction false} CollectKeepsOld(rest: seq<string>, acc: Params)
    decreases |rest|
    ensures forall k :: HasKey(acc, k) ==> HasKey(CollectParams(rest, acc), k)
  {
    if |rest| >= 2 {
      CollectUnfold(rest, acc);
      CollectKeepsOld(rest[2..], Assign(acc, rest[0], rest[1]));
      AssignKeeps(acc, rest[0], rest[1]);
    }
  }

  lemma AssignKeeps(acc: Params, key: string, part: string)
    ensures forall k :: HasKey(acc, k) ==> HasKey(Assign(acc, key, part), k)
  {
    forall k | HasKey(acc, k)
      ensures HasKey(Assign(acc, key, part), k)
    {
      if FindValue(part).Some? {
        PutKeepsKey(acc, key, FindValue(part).value, k);
      }
    }
  }

  /** Every key other than `__proto__` whose next part holds a group is
      present in the collected parameters. */
  lemma {:induction false} CollectKeepsGrouped(rest: seq<string>, acc: Params)
    decreases |rest|
    ensures forall i :: 0 <= i && 2 * i + 1 < |rest| && FindValue(rest[2 * i + 1]).Some? && rest[2 * i] != ProtoKey ==>
              HasKey(CollectParams(rest, acc), rest[2 * i])
  {
    if |rest| >= 2 {
      var acc' := Assign(acc, rest[0], rest[1]);
      CollectUnfold(rest, acc);
      CollectKeepsGrouped(rest[2..], acc');
      if FindValue(rest[1]).Some? && rest[0] != ProtoKey {
        PutAddsKey(acc, rest[0], FindValue(rest[1]).value);
        CollectKeepsOld(rest[2..], acc');
      }
      KeepsGroupedStep(rest, CollectParams(rest[2..], acc'));
    }
  }

  lemma KeepsGroupedStep(rest: seq<string>, r: Params)
    requires |rest| >= 2
    requires FindValue(rest[1]).Some? && rest[0] != ProtoKey ==> HasKey(r, rest[0])
    requires forall i :: 0 <= i && 2 * i + 1 < |rest[2..]| && FindValue(rest[2..][2 * i + 1]).Some? && rest[2..][2 * i] != ProtoKey ==>
               HasKey(r, rest[2..][2 * i])
    ensures forall i :: 0 <= i && 2 * i + 1 < |rest| && FindValue(rest[2 * i + 1]).Some? && rest[2 * i] != ProtoKey ==>
              HasKey(r, rest[2 * i])
  {
    forall i | 0 <= i && 2 * i + 1 < |rest| && FindValue(rest[2 * i + 1]).Some? && rest[2 * i] != ProtoKey
      ensures HasKey(r, rest[2 * i])
    {
      if i > 0 {
        var j := i - 1;
        assert rest[2 * i] == rest[2..][2 * j];
        assert rest[2 * i + 1] == rest[2..][2 * j + 1];
      }
    }
  }

  /** Part `2 * i` is a key other than `__proto__` and the part after it
      holds a group. */
  predicate GroupedAt(rest: seq<string>, i: int)
  {
    0 <= i && 2 * i + 1 < |rest| && FindValue(rest[2 * i + 1]).Some? && rest[2 * i] != ProtoKey
  }

  /** Every parameter of a capture cut at `:::` comes from a key part
      followed by a part holding a group, with that group's value. */
  lemma DecodeOnlyPairs(m: string)
    ensures forall p :: p in Decode(m).params ==> exists i :: PairAt(Split(m, Sep)[1..], i, p)
  {
    DecodeParams(m);
    CollectedFromPairs(Split(m, Sep)[1..]);
  }

  /** The parameters of a capture are what the pair loop collects from the
      parts after the name. */
  lemma DecodeParams(m: string)
    ensures Decode(m).params == CollectParams(Split(m, Sep)[1..], [])
  {
  }

  /** Every key of a capture cut at `:::` that is followed by a part holding
      a group, `__proto__` aside, is a parameter. */
  lemma DecodeKeepsGrouped(m: string)
    ensures forall i :: GroupedAt(Split(m, Sep)[1..], i) ==> HasKey(Decode(m).params, Split(m, Sep)[1..][2 * i])
  {
    DecodeParams(m);
    CollectKeepsGrouped(Split(m, Sep)[1..], []);
  }

  /** The next key of a list with unique keys is not yet in the object. */
  lemma FreshKey(acc: Params, ps: Params)
    requires |ps| > 0 && ps[0].key != ProtoKey
    requires UniqueKeys(acc + ps)
    ensures Put(acc, ps[0].key, ps[0].value) == acc + [ps[0]]
  {
    var p := ps[0];
    assert KeyIndex(acc, p.key).None? by {
      forall j | 0 <= j < |acc|
        ensures acc[j].key != p.key
      {
        assert (acc + ps)[j] == acc[j];
        assert (acc + ps)[|acc|] == p;
      }
    }
  }

  lemma NameRunOfRendered(name: string, ps: Params)
    requires |name| > 0 && forall i :: 0 <= i < |name| ==> IsNameChar(name[i])
    ensures NameRun(name + RenderParams(ps)) == |name|
  {
    var m := name + RenderParams(ps);
    if |name| < |m| {
      assert m[|name|] == ':';
    }
    NameRunPrefix(name, RenderParams(ps));
  }

  lemma {:induction false} NameRunPrefix(name: string, rest: string)
    requires forall i :: 0 <= i < |name| ==> IsNameChar(name[i])
    requires |rest| == 0 || !IsNameChar(rest[0])
    ensures NameRun(name + rest) == |name|
  {
    if |name| > 0 {
      assert (name + rest)[1..] == name[1..] + rest;
      NameRunPrefix(name[1..], rest);
    } else {
      assert name + rest == rest;
    }
  }

  lemma FramedText(m: string)
    requires NoLineTerminator(m)
    ensures Trim(Open + m + Close) == Open + m + Close
    ensures Framed(Open + m + Close)
    ensures Inner(Open + m + Close) == m
  {
    var t := Open + m + Close;
    assert t[0] == '<' && t[|t| - 1] == '>';
    TrimNoop(t);
    assert t[..|Open|] == Open;
    assert t[|t| - |Close|..] == Close;
    NoLineTerminatorConcat(Open, m);
    NoLineTerminatorConcat(Open + m, Close);
  }

  lemma RenderedFramed(name: string, ps: Params)
    requires |name| > 0 && forall i :: 0 <= i < |name| ==> IsNameChar(name[i])
    requires forall i :: 0 <= i < |ps| ==> Carriable(ps[i])
    ensures Trim(Render(name, ps)) == Render(name, ps)
    ensures Framed(Render(name, ps))
    ensures Inner(Render(name, ps)) == RenderBody(name, ps)
  {
    RenderParamsNoTerminator(ps);
    assert NoLineTerminator(name) by {
      forall i | 0 <= i < |name|
        ensures !IsLineTerminator(name[i])
      {
        assert IsNameChar(name[i]);
      }
    }
    NoLineTerminatorConcat(name, RenderParams(ps));
    FramedText(RenderBody(name, ps));
  }

  lemma RenderedBody(name: string, ps: Params)
    requires |name| > 0 && forall i :: 0 <= i < |name| ==> IsNameChar(name[i])
    ensures IsBody(RenderBody(name, ps))
  {
    NameRunOfRendered(name, ps);
    if |ps| > 0 {
      var tail := ps[0].key + Sep + (Group(ps[0]) + RenderParams(ps[1..]));
      RenderParamsCons(name, ps);
      SepThenTail(name, tail);
      TailHoldsSep(ps[0].key, Group(ps[0]) + RenderParams(ps[1..]));
    }
  }

  /** The text right after the name opens with a separator. */
  lemma SepThenTail(name: string, tail: string)
    ensures OccursAt(name + Sep + tail, Sep, |name|) && (name + Sep + tail)[|name| + 3..] == tail
  {
    var m := name + Sep + tail;
    assert m[|name|..|name| + |Sep|] == Sep;
  }

  lemma TailHoldsSep(key: string, rest: string)
    ensures Contains(key + Sep + rest, Sep)
  {
    var t := key + Sep + rest;
    assert t[|key|..|key| + |Sep|] == Sep;
    assert OccursAt(t, Sep, |key|);
    ContainsIff(t, Sep);
  }

  lemma RenderedDecode(name: string, ps: Params)
    requires |name| > 0 && forall i :: 0 <= i < |name| ==> IsNameChar(name[i])
    requires forall i :: 0 <= i < |ps| ==> Carriable(ps[i])
    requires UniqueKeys(ps)
    ensures Decode(RenderBody(name, ps)) == Tag(Lower(name), ps)
  {
    NameSepFree(name);
    SplitRendered(name, ps);
    var parts := Split(name + RenderParams(ps), Sep);
    assert parts[0] == name;
    assert parts[1..] == Flat(ps);
    CollectFlat(ps, []);
    assert [] + ps == ps;
  }

  /** Parsing the directive the grammar generates gives back its name,
      lower-cased, and its parameters in order. */
  lemma ParseRendered(name: string, ps: Params)
    requires |name| > 0 && forall i :: 0 <= i < |name| ==> IsNameChar(name[i])
    requires forall i :: 0 <= i < |ps| ==> Carriable(ps[i])
    requires UniqueKeys(ps)
    ensures ParseTag(Render(name, ps)) == Some(Tag(Lower(name), ps))
  {
    RenderedFramed(name, ps);
    RenderedBody(name, ps);
    RenderedDecode(name, ps);
  }

  // ---------------------------------------------------------------------
  // What is rejected
  // ---------------------------------------------------------------------

  /** Leading and trailing white space never changes the outcome. */
  lemma ParseIgnoresSurroundingSpace(w: string, line: string)
    requires forall i :: 0 <= i < |w| ==> IsTrimmable(w[i])
    ensures ParseTag(w + line + w) == ParseTag(line)
  {
    TrimAround(w, line);
  }

  lemma {:induction false} TrimStartSkips(w: string, s: string)
    requires forall i :: 0 <= i < |w| ==> IsTrimmable(w[i])
    ensures TrimStart(w + s) == TrimStart(s)
  {
    if |w| > 0 {
      assert (w + s)[1..] == w[1..] + s;
      TrimStartSkips(w[1..], s);
    } else {
      assert w + s == s;
    }
  }

  lemma {:induction false} TrimEndSkips(s: string, w: string)
    requires forall i :: 0 <= i < |w| ==> IsTrimmable(w[i])
    ensures TrimEnd(s + w) == TrimEnd(s)
  {
    if |w| > 0 {
      assert (s + w)[..|s + w| - 1] == s + w[..|w| - 1];
      TrimEndSkips(s, w[..|w| - 1]);
    } else {
      assert s + w == s;
    }
  }

  lemma TrimAround(w: string, line: string)
    requires forall i :: 0 <= i < |w| ==> IsTrimmable(w[i])
    ensures Trim(w + line + w) == Trim(line)
  {
    assert w + line + w == w + (line + w);
    TrimStartSkips(w, line + w);
    TrimStartConcat(line, w);
    if |TrimStart(line)| > 0 {
      TrimEndSkips(TrimStart(line), w);
    } else {
      TrimStartSkips(w, "");
      assert w + "" == w;
    }
  }

  /** Trimming the start of a concatenation stops inside the first part
      unless that part is all white space. */
  lemma {:induction false} TrimStartConcat(a: string, b: string)
    ensures |TrimStart(a)| > 0 ==> TrimStart(a + b) == TrimStart(a) + b
    ensures |TrimStart(a)| == 0 ==> TrimStart(a + b) == TrimStart(b)
  {
    if |a| == 0 {
      assert a + b == b;
    } else if IsTrimmable(a[0]) {
      assert (a + b)[1..] == a[1..] + b;
      TrimStartConcat(a[1..], b);
    } else {
      assert (a + b)[0] == a[0];
    }
  }

  /** A line whose trimmed text opens with `<!-->` followed by anything but an
      upper-case letter, digit or underscore (a lower-case name, say) is no directive. */
  lemma RejectsNonNameStart(line: string)
    requires |Trim(line)| > |Open| && Trim(line)[..|Open|] == Open && !IsNameChar(Trim(line)[|Open|])
    ensures ParseTag(line) == None
  {
    var t := Trim(line);
    if |t| >= |Open| + |Close| {
      var m := Inner(t);
      if |m| > 0 {
        assert m[0] == t[|Open|];
      }
    }
  }

  /** A name followed by anything but a `:::` separator (a lower-case letter
      inside the name, or a single `:`, say) makes the line no directive. */
  lemma RejectsBrokenName(line: string)
    requires Framed(Trim(line))
    requires NameRun(Inner(Trim(line))) < |Inner(Trim(line))|
    requires !OccursAt(Inner(Trim(line)), Sep, NameRun(Inner(Trim(line))))
    ensures ParseTag(line) == None
  {
  }

  /** A character other than `:` starts no separator. */
  lemma NoSepAtNonColon(m: string, n: nat)
    requires n < |m| && m[n] != ':'
    ensures !OccursAt(m, Sep, n)
  {
    if n + 3 <= |m| {
      assert m[n..n + 3][0] == m[n];
    }
  }

  /** `<!-->Header<-->`: a mixed-case name is no directive. */
  lemma RejectsMixedCase()
    ensures ParseTag("<!-->Header<-->") == None
  {
    MixedCaseFramed();
    MixedCaseNameRun();
    NoSepAtNonColon("Header", 1);
    RejectsBrokenName("<!-->Header<-->");
  }

  lemma MixedCaseFramed()
    ensures Trim("<!-->Header<-->") == "<!-->Header<-->"
    ensures Framed("<!-->Header<-->") && Inner("<!-->Header<-->") == "Header"
  {
    MixedCaseSpelled();
    MixedCasePlain();
    FramedText("Header");
  }

  lemma MixedCaseSpelled()
    ensures Open + "Header" + Close == "<!-->Header<-->"
  {
  }

  lemma MixedCasePlain()
    ensures NoLineTerminator("Header")
  {
  }

  lemma MixedCaseNameRun()
    ensures NameRun("Header") == 1 && "Header"[1] == 'e'
  {
    assert !IsNameChar("Header"[1]);
    assert NameRun("Header"[1..]) == 0;
  }

  /** A line with a line terminator inside its trimmed text is no directive. */
  lemma RejectsLineTerminator(line: string, i: nat)
    requires i < |Trim(line)| && IsLineTerminator(Trim(line)[i])
    ensures ParseTag(line) == None
  {
  }

  // ---------------------------------------------------------------------
  // The regular expression as written
  // ---------------------------------------------------------------------

  /** Every line the `:::` recognizer accepts, the as-written one accepts too,
      with the same tag. */
  lemma AsWrittenAgrees(line: string)
    requires ParseTag(line).Some?
    ensures ParseTagAsWritten(line) == ParseTag(line)
  {
    BodyIsBodyAsWritten(Inner(Trim(line)));
  }

  /** A body with `:::` separators also matches the as-written capture group. */
  lemma BodyIsBodyAsWritten(m: string)
    requires IsBody(m)
    ensures IsBodyAsWritten(m)
  {
    var n := NameRun(m);
    if n < |m| {
      assert OccursAt(m, Sep, n) && Contains(m[n + 3..], Sep);
      SepStartsWithTwoColons(m, n);
      assert m[n + 3..] == m[n + 2..][1..];
      ContainsLater(m[n + 2..]);
    }
  }

  lemma SepStartsWithTwoColons(m: string, n: nat)
    requires OccursAt(m, Sep, n)
    ensures OccursAt(m, "::", n) && n + 3 <= |m|
  {
    var w := m[n..n + |Sep|];
    assert w == ":::";
    assert m[n..n + 2] == w[..2];
  }

  /** A separator found after the first character is found in the whole text. */
  lemma ContainsLater(u: string)
    requires |u| > 0 && Contains(u[1..], Sep)
    ensures Contains(u, Sep)
  {
    ContainsIff(u[1..], Sep);
    var k :| OccursAt(u[1..], Sep, k);
    assert u[k + 1..k + 4] == u[1..][k..k + 3];
    assert OccursAt(u, Sep, k + 1);
    ContainsIff(u, Sep);
  }

  /** The as-written pattern takes `<!-->A::B:::C<-->` for a directive naming
      template `a::b`; with `:::` separators the line is plain text. */
  lemma AsWrittenAcceptsDoubleColon()
    ensures ParseTag("<!-->A::B:::C<-->") == None
    ensures ParseTagAsWritten("<!-->A::B:::C<-->") == Some(Tag("a::b", []))
  {
    var line := "<!-->A::B:::C<-->";
    DoubleColonFramed();
    DoubleColonBody();
    DoubleColonDecode();
  }

  lemma DoubleColonFramed()
    ensures Trim("<!-->A::B:::C<-->") == "<!-->A::B:::C<-->"
    ensures Framed("<!-->A::B:::C<-->")
    ensures Inner("<!-->A::B:::C<-->") == "A::B:::C"
  {
    var m := "A::B:::C";
    FramedText(m);
    assert Open + m + Close == "<!-->A::B:::C<-->";
  }

  lemma DoubleColonBody()
    ensures !IsBody("A::B:::C") && IsBodyAsWritten("A::B:::C")
  {
    var m := "A::B:::C";
    assert NameRun(m) == 1 by {
      NameRunPrefix("A", m[1..]);
      assert "A" + m[1..] == m;
    }
    assert !OccursAt(m, Sep, 1) by {
      assert m[1..4][2] == 'B';
    }
    assert OccursAt(m, "::", 1) by {
      assert m[1..3] == "::";
    }
    assert OccursAt(m[3..], Sep, 1) by {
      assert m[3..][1..4] == Sep;
    }
    ContainsIff(m[3..], Sep);
  }

  lemma DoubleColonDecode()
    ensures Decode("A::B:::C") == Tag("a::b", [])
  {
    DoubleColonSplit();
    LowerDoubleColonName();
    assert ["A::B", "C"][1..] == ["C"];
    assert CollectParams(["C"], []) == [];
  }

  lemma DoubleColonSplit()
    ensures Split("A::B:::C", Sep) == ["A::B", "C"]
  {
    var m := "A::B:::C";
    assert OccursAt(m, Sep, 4) by {
      assert m[4..7] == Sep;
    }
    forall j | 0 <= j < 4
      ensures !OccursAt(m, Sep, j)
    {
      assert m[j..j + 3][0] == m[j] && m[j..j + 3][1] == m[j + 1] && m[j..j + 3][2] == m[j + 2];
    }
    SplitAt(m, Sep, 4);
    assert m[..4] == "A::B" && m[7..] == "C";
    SplitSingle("C", Sep);
  }

  lemma LowerDoubleColonName()
    ensures Lower("A::B") == "a::b"
  {
  }

  // ---------------------------------------------------------------------
  // The cases of the test suite
  // ---------------------------------------------------------------------

  /** A value without a closing parenthesis always ends where its group does. */
  lemma ValueWithoutParen(v: string)
    requires forall i :: 0 <= i < |v| ==> v[i] != ')'
    ensures !Contains(v + "))", ValueClose)
  {
    var w := v + "))";
    forall k | 0 <= k && k + 3 <= |w|
      ensures !OccursAt(w, ValueClose, k)
    {
      assert w[k..k + 3][0] == w[k] == v[k];
    }
    ContainsIff(w, ValueClose);
  }

  lemma ParsesHeader()
    ensures ParseTag("<!-->HEADER<-->") == Some(Tag("header", []))
  {
    HeaderRendered();
    ParseRendered("HEADER", []);
  }

  lemma HeaderRendered()
    ensures Render("HEADER", []) == "<!-->HEADER<-->"
    ensures Lower("HEADER") == "header"
  {
  }

  lemma ParsesFooter()
    ensures ParseTag("<!-->FOOTER:::COPYRIGHT:::" + "(((2024 MySite)))<-->")
            == Some(Tag("footer", [Param("COPYRIGHT", "2024 MySite")]))
  {
    FooterRendered();
    ParseOneParam("FOOTER", Param("COPYRIGHT", "2024 MySite"));
  }

  lemma FooterRendered()
    ensures Render("FOOTER", [Param("COPYRIGHT", "2024 MySite")]) == "<!-->FOOTER:::COPYRIGHT:::" + "(((2024 MySite)))<-->"
    ensures Lower("FOOTER") == "footer"
  {
    OneParamRendered("COPYRIGHT", "2024 MySite");
    ParamSpelled("COPYRIGHT", "2024 MySite");
    FooterParamText();
    RenderedAround("FOOTER", [Param("COPYRIGHT", "2024 MySite")], ":::COPYRIGHT:::" + "(((2024 MySite)))");
    FrameSpelled("FOOTER", ":::COPYRIGHT:::" + "(((2024 MySite)))");
    FooterText();
    LowerFooter();
  }

  lemma FooterParamText()
    ensures ":::" + "COPYRIGHT" + ":::" + "(((" + "2024 MySite" + ")))" == ":::COPYRIGHT:::" + "(((2024 MySite)))"
  {
  }

  lemma FooterText()
    ensures "<!-->" + "FOOTER" + (":::COPYRIGHT:::" + "(((2024 MySite)))") + "<-->"
            == "<!-->FOOTER:::COPYRIGHT:::" + "(((2024 MySite)))<-->"
  {
    Regroup("<!-->", "FOOTER", ":::COPYRIGHT:::", "(((2024 MySite)))", "<-->");
    FooterFront();
    FooterBack();
  }

  lemma FooterFront()
    ensures "<!-->" + "FOOTER" + ":::COPYRIGHT:::" == "<!-->FOOTER:::COPYRIGHT:::"
  {
  }

  lemma FooterBack()
    ensures "(((2024 MySite)))" + "<-->" == "(((2024 MySite)))<-->"
  {
  }

  /** The directive frame around a name and its parameter text, spelled out. */
  lemma FrameSpelled(name: string, text: string)
    ensures Open + name + text + Close == "<!-->" + name + text + "<-->"
  {
  }

  /** One parameter's text, spelled out. */
  lemma ParamSpelled(key: string, value: string)
    ensures Sep + key + Sep + ValueOpen + value + ValueClose == ":::" + key + ":::" + "(((" + value + ")))"
  {
  }

  lemma LowerFooter()
    ensures Lower("FOOTER") == "footer"
  {
  }

  /** Key and value hold no colon and no line terminator, the value holds no
      `)`, and the key is not `__proto__`. */
  predicate PlainParam(p: Param)
  {
    && (forall i :: 0 <= i < |p.key| ==> p.key[i] != ':' && !IsLineTerminator(p.key[i]))
    && (forall i :: 0 <= i < |p.value| ==> p.value[i] != ':' && p.value[i] != ')' && !IsLineTerminator(p.value[i]))
    && p.key != ProtoKey
  }

  /** A plain parameter is carried. */
  lemma PlainCarriable(p: Param)
    requires PlainParam(p)
    ensures Carriable(p)
  {
    NoFirstCharNoOccurrence(p.key, Sep);
    NoFirstCharNoOccurrence(p.value, Sep);
    ValueWithoutParen(p.value);
  }

  /** A rendered directive is its name and parameter text inside the frame. */
  lemma RenderedAround(name: string, ps: Params, text: string)
    requires RenderParams(ps) == text
    ensures Render(name, ps) == Open + name + text + Close
  {
  }

  /** The parameter text of one parameter. */
  lemma OneParamRendered(key: string, value: string)
    ensures RenderParams([Param(key, value)]) == Sep + key + Sep + ValueOpen + value + ValueClose
  {
    var ps := [Param(key, value)];
    assert RenderParams(ps[1..]) == "";
  }

  /** The parameter text of two parameters is the two texts in order. */
  lemma TwoParamsRendered(p: Param, q: Param)
    ensures RenderParams([p, q]) == RenderParams([p]) + RenderParams([q])
  {
    var ps := [p, q];
    assert ps[1..] == [q];
    assert [p][1..] == [];
  }

  lemma ParsesCard()
    ensures ParseTag("<!-->CARD:::TITLE:::(((Hello)))" + ":::DESC:::(((World)))<-->")
            == Some(Tag("card", [Param("TITLE", "Hello"), Param("DESC", "World")]))
  {
    CardRendered();
    ParseTwoParams("CARD", Param("TITLE", "Hello"), Param("DESC", "World"));
  }

  lemma CardRendered()
    ensures Render("CARD", [Param("TITLE", "Hello"), Param("DESC", "World")])
            == "<!-->CARD:::TITLE:::(((Hello)))" + ":::DESC:::(((World)))<-->"
    ensures Lower("CARD") == "card"
  {
    OneParamRendered("TITLE", "Hello");
    OneParamRendered("DESC", "World");
    ParamSpelled("TITLE", "Hello");
    ParamSpelled("DESC", "World");
    CardParamTexts();
    TwoParamsRendered(Param("TITLE", "Hello"), Param("DESC", "World"));
    RenderedAround("CARD", [Param("TITLE", "Hello"), Param("DESC", "World")],
                   ":::TITLE:::(((Hello)))" + ":::DESC:::(((World)))");
    FrameSpelled("CARD", ":::TITLE:::(((Hello)))" + ":::DESC:::(((World)))");
    CardText();
    LowerCard();
  }

  lemma CardParamTexts()
    ensures ":::" + "TITLE" + ":::" + "(((" + "Hello" + ")))" == ":::TITLE:::(((Hello)))"
    ensures ":::" + "DESC" + ":::" + "(((" + "World" + ")))" == ":::DESC:::(((World)))"
  {
    TitleText();
    DescText();
  }

  lemma TitleText()
    ensures ":::" + "TITLE" + ":::" + "(((" + "Hello" + ")))" == ":::TITLE:::(((Hello)))"
  {
  }

  lemma DescText()
    ensures ":::" + "DESC" + ":::" + "(((" + "World" + ")))" == ":::DESC:::(((World)))"
  {
  }

  lemma CardText()
    ensures "<!-->" + "CARD" + (":::TITLE:::(((Hello)))" + ":::DESC:::(((World)))") + "<-->"
            == "<!-->CARD:::TITLE:::(((Hello)))" + ":::DESC:::(((World)))<-->"
  {
    Regroup("<!-->", "CARD", ":::TITLE:::(((Hello)))", ":::DESC:::(((World)))", "<-->");
    CardFront();
    CardBack();
  }

  lemma CardFront()
    ensures "<!-->" + "CARD" + ":::TITLE:::(((Hello)))" == "<!-->CARD:::TITLE:::(((Hello)))"
  {
  }

  lemma CardBack()
    ensures ":::DESC:::(((World)))" + "<-->" == ":::DESC:::(((World)))<-->"
  {
  }

  lemma LowerCard()
    ensures Lower("CARD") == "card"
  {
  }


  /** The round trip for a directive with one plain parameter. */
  lemma ParseOneParam(name: string, p: Param)
    requires |name| > 0 && forall i :: 0 <= i < |name| ==> IsNameChar(name[i])
    requires PlainParam(p)
    ensures ParseTag(Render(name, [p])) == Some(Tag(Lower(name), [p]))
  {
    PlainCarriable(p);
    assert forall i :: 0 <= i < |[p]| ==> Carriable([p][i]);
    assert UniqueKeys([p]);
    ParseRendered(name, [p]);
  }

  /** The round trip for a directive with two plain parameters of different keys. */
  lemma ParseTwoParams(name: string, p: Param, q: Param)
    requires |name| > 0 && forall i :: 0 <= i < |name| ==> IsNameChar(name[i])
    requires PlainParam(p) && PlainParam(q) && p.key != q.key
    ensures ParseTag(Render(name, [p, q])) == Some(Tag(Lower(name), [p, q]))
  {
    PlainCarriable(p);
    PlainCarriable(q);
    assert forall i :: 0 <= i < |[p, q]| ==> Carriable([p, q][i]);
    assert UniqueKeys([p, q]);
    ParseRendered(name, [p, q]);
  }

  /** A value whose colons never come in pairs holds no `:::`. */
  lemma ColonsApart(v: string)
    requires forall i :: 0 <= i < |v| - 1 ==> v[i] != ':' || v[i + 1] != ':'
    ensures !Contains(v, Sep)
  {
    forall k | 0 <= k && k + 3 <= |v|
      ensures !OccursAt(v, Sep, k)
    {
      assert v[k..k + 3][0] == v[k] && v[k..k + 3][1] == v[k + 1];
    }
    ContainsIff(v, Sep);
  }

  /** Text without colons, closing parentheses and line terminators. */
  predicate UrlPart(s: string)
  {
    forall i :: 0 <= i < |s| ==> s[i] != ':' && s[i] != ')' && !IsLineTerminator(s[i])
  }

  /** A parameter whose value is a URL `scheme://host` is given back whole:
      the single colon of the URL does not split the directive. */
  lemma ParsesUrlValue(name: string, key: string, scheme: string, host: string)
    requires |name| > 0 && forall i :: 0 <= i < |name| ==> IsNameChar(name[i])
    requires UrlPart(key) && key != ProtoKey && UrlPart(scheme) && UrlPart(host)
    ensures ParseTag(Render(name, [Param(key, scheme + "://" + host)]))
            == Some(Tag(Lower(name), [Param(key, scheme + "://" + host)]))
  {
    UrlCarriable(key, scheme, host);
    ParseRendered(name, [Param(key, scheme + "://" + host)]);
  }

  lemma UrlCarriable(key: string, scheme: string, host: string)
    requires UrlPart(key) && key != ProtoKey && UrlPart(scheme) && UrlPart(host)
    ensures Carriable(Param(key, scheme + "://" + host))
  {
    var v := scheme + "://" + host;
    forall i | 0 <= i < |v|
      ensures v[i] != ')' && !IsLineTerminator(v[i]) && (v[i] == ':' ==> i == |scheme|)
    {
      if i < |scheme| {
        assert v[i] == scheme[i];
      } else if i >= |scheme| + 3 {
        assert v[i] == host[i - |scheme| - 3];
      }
    }
    ColonsApart(v);
    ValueWithoutParen(v);
    NoFirstCharNoOccurrence(key, Sep);
  }

  /** A trimmed line without the directive frame is plain text. */
  lemma UnframedIsPlain(line: string)
    requires Trim(line) == line && !Framed(line)
    ensures ParseTag(line) == None
  {
  }

  lemma RejectsComment()
    ensures ParseTag("<!-- Not a tag -->") == None
  {
    CommentTrimmed();
    CommentUnframed();
    UnframedIsPlain("<!-- Not a tag -->");
  }

  lemma CommentTrimmed()
    ensures Trim("<!-- Not a tag -->") == "<!-- Not a tag -->"
  {
    TrimNoop("<!-- Not a tag -->");
  }

  lemma CommentUnframed()
    ensures !Framed("<!-- Not a tag -->")
  {
    var t := "<!-- Not a tag -->";
    assert t[4] == ' ';
  }

  lemma RejectsText()
    ensures ParseTag("Some random text") == None
  {
    TextTrimmed();
    TextUnframed();
    UnframedIsPlain("Some random text");
  }

  lemma TextTrimmed()
    ensures Trim("Some random text") == "Some random text"
  {
    TrimNoop("Some random text");
  }

  lemma TextUnframed()
    ensures !Framed("Some random text")
  {
    var t := "Some random text";
    assert t[0] == 'S';
  }

  /** A key whose part holds no `(((…)))` group is dropped without complaint. */
  lemma DropsKeyWithoutGroup()
    ensures ParseTag("<!-->X:::K:::V<-->") == Some(Tag("x", []))
  {
    var m := "X:::K:::V";
    KeyWithoutGroupFramed();
    KeyWithoutGroupBody();
    KeyWithoutGroupDecode();
    AcceptedBody("<!-->X:::K:::V<-->", m);
  }

  /** A framed, trimmed line whose capture is an accepted body decodes it. */
  lemma AcceptedBody(line: string, m: string)
    requires Trim(line) == line && Framed(line) && Inner(line) == m && IsBody(m)
    ensures ParseTag(line) == Some(Decode(m))
  {
  }

  lemma KeyWithoutGroupFramed()
    ensures Trim("<!-->X:::K:::V<-->") == "<!-->X:::K:::V<-->"
    ensures Framed("<!-->X:::K:::V<-->") && Inner("<!-->X:::K:::V<-->") == "X:::K:::V"
  {
    var m := "X:::K:::V";
    assert NoLineTerminator(m);
    FramedText(m);
    assert Open + m + Close == "<!-->X:::K:::V<-->";
  }

  lemma KeyWithoutGroupBody()
    ensures IsBody("X:::K:::V")
  {
    var m := "X:::K:::V";
    assert NameRun(m) == 1 by {
      NameRunPrefix("X", m[1..]);
      assert "X" + m[1..] == m;
    }
    assert m[1..4] == Sep;
    assert OccursAt(m[4..], Sep, 1) by {
      assert m[4..][1..4] == Sep;
    }
    ContainsIff(m[4..], Sep);
  }

  lemma KeyWithoutGroupDecode()
    ensures Decode("X:::K:::V") == Tag("x", [])
  {
    KeyWithoutGroupSplit();
    NoGroupInV();
    assert Lower("X") == "x";
    assert ["X", "K", "V"][1..] == ["K", "V"];
    assert ["K", "V"][2..] == [];
    assert CollectParams(["K", "V"], []) == [];
  }

  lemma KeyWithoutGroupSplit()
    ensures Split("X:::K:::V", Sep) == ["X", "K", "V"]
  {
    KeyWithoutGroupSpelled();
    SplitCons("X", Sep, "K:::V");
    KeyValueSplit();
    assert ["X"] + ["K", "V"] == ["X", "K", "V"];
  }

  lemma KeyValueSplit()
    ensures Split("K:::V", Sep) == ["K", "V"]
  {
    KeyValueSpelled();
    SplitCons("K", Sep, "V");
    SplitSingle("V", Sep);
  }

  lemma KeyWithoutGroupSpelled()
    ensures "X" + Sep + "K:::V" == "X:::K:::V"
  {
  }

  lemma KeyValueSpelled()
    ensures "K" + Sep + "V" == "K:::V"
  {
  }

  lemma NoGroupInV()
    ensures FindValue("V") == None
  {
  }
}
