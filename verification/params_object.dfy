/**
 The plain JavaScript object a directive's parameters are collected into:
 its own properties in creation order, assignment that overwrites in place,
 the `__proto__` setter that ignores a string, and the order in which
 `Object.entries` lists the properties (array-index keys first, ascending,
 then the other keys in creation order).
 */
module ParamsObject {
  import opened Options

  datatype Param = Param(key: string, value: string)

  /** Own properties in creation order. */
  type Params = seq<Param>

  /** Assigning a string to `obj["__proto__"]` goes to the prototype setter,
      which ignores values that are not objects. */
  const ProtoKey: string := "__proto__"

  predicate UniqueKeys(ps: Params)
  {
    forall i, j :: 0 <= i < j < |ps| ==> ps[i].key != ps[j].key
  }

  /** The position of the property named `key`, if there is one. */
  function KeyIndex(ps: Params, key: string): (r: Option<nat>)
    ensures r.Some? ==> r.value < |ps| && ps[r.value].key == key
    ensures r.Some? ==> forall j :: 0 <= j < r.value ==> ps[j].key != key
    ensures r.None? ==> forall j :: 0 <= j < |ps| ==> ps[j].key != key
  {
    if |ps| == 0 then None
    else if ps[0].key == key then Some(0)
    else match KeyIndex(ps[1..], key)
      case None => None
      case Some(i) => Some(i + 1)
  }

  /** `obj[key]`, `undefined` being `None`. */
  function Get(ps: Params, key: string): Option<string>
  {
    match KeyIndex(ps, key)
    case None => None
    case Some(i) => Some(ps[i].value)
  }

  /** `obj[key] = value`. */
  function Put(ps: Params, key: string, value: string): (r: Params)
    ensures key == ProtoKey ==> r == ps
    ensures forall i :: 0 <= i < |ps| ==> i < |r| && r[i].key == ps[i].key
    ensures |r| <= |ps| + 1
    ensures UniqueKeys(ps) ==> UniqueKeys(r)
  {
    if key == ProtoKey then ps
    else match KeyIndex(ps, key)
      case Some(i) => ps[i := Param(key, value)]
      case None => ps + [Param(key, value)]
  }

  /** An assignment leaves every existing key in place. */
  lemma PutKeepsKey(ps: Params, key: string, value: string, k: string)
    requires KeyIndex(ps, k).Some?
    ensures KeyIndex(Put(ps, key, value), k).Some?
  {
    var i := KeyIndex(ps, k).value;
    assert Put(ps, key, value)[i].key == k;
  }

  /** An assignment to a key other than `__proto__` makes the key present. */
  lemma PutAddsKey(ps: Params, key: string, value: string)
    requires key != ProtoKey
    ensures KeyIndex(Put(ps, key, value), key).Some?
  {
    match KeyIndex(ps, key)
    case Some(i) =>
      assert Put(ps, key, value)[i].key == key;
    case None =>
      assert Put(ps, key, value)[|ps|].key == key;
  }

  /** Every property after an assignment was there before or is the one assigned. */
  lemma PutMember(ps: Params, key: string, value: string, p: Param)
    requires p in Put(ps, key, value)
    ensures p in ps || p == Param(key, value)
  {
    var r := Put(ps, key, value);
    var j :| 0 <= j < |r| && r[j] == p;
    if key != ProtoKey {
      match KeyIndex(ps, key)
      case Some(i) =>
        if j != i {
          assert p == ps[j];
        }
      case None =>
        if j < |ps| {
          assert p == ps[j];
        }
    }
  }

  lemma GetFirst(ps: Params, k: string, i: nat)
    requires i < |ps| && ps[i].key == k
    requires forall j :: 0 <= j < i ==> ps[j].key != k
    ensures Get(ps, k) == Some(ps[i].value)
  {
  }

  lemma GetAbsent(ps: Params, k: string)
    requires forall j :: 0 <= j < |ps| ==> ps[j].key != k
    ensures Get(ps, k) == None
  {
  }

  /** After `obj[key] = value`, reading `key` gives `value` (unless the key is
      `__proto__`), and every other key reads as before. */
  lemma PutThenGet(ps: Params, key: string, value: string, k: string)
    ensures Get(Put(ps, key, value), k) == if k == key && key != ProtoKey then Some(value) else Get(ps, k)
  {
    var r := Put(ps, key, value);
    if key != ProtoKey {
      match KeyIndex(ps, k)
      case Some(i) =>
        if k == key {
          GetFirst(r, k, i);
        } else {
          GetFirst(r, k, i);
        }
      case None =>
        if k == key {
          GetFirst(r, k, |ps|);
        } else {
          GetAbsent(r, k);
        }
    }
  }

  // ---------------------------------------------------------------------
  // Object.entries order
  // ---------------------------------------------------------------------

  predicate IsDigit(c: char)
  {
    '0' <= c <= '9'
  }

  function DecimalValue(s: string): nat
  {
    if |s| == 0 then 0
    else DecimalValue(s[..|s| - 1]) * 10 + ((s[|s| - 1] as int - '0' as int) % 10)
  }

  /** A key that is the canonical decimal form of an integer below 2^32 - 1. */
  predicate IsArrayIndex(key: string)
  {
    && |key| > 0
    && (forall i :: 0 <= i < |key| ==> IsDigit(key[i]))
    && (key[0] != '0' || |key| == 1)
    && DecimalValue(key) < 0xFFFF_FFFF
  }

  function IndexKeyed(ps: Params): (r: Params)
    ensures forall i :: 0 <= i < |r| ==> IsArrayIndex(r[i].key)
  {
    if |ps| == 0 then []
    else (if IsArrayIndex(ps[0].key) then [ps[0]] else []) + IndexKeyed(ps[1..])
  }

  function OtherKeyed(ps: Params): (r: Params)
    ensures forall i :: 0 <= i < |r| ==> !IsArrayIndex(r[i].key)
  {
    if |ps| == 0 then []
    else (if IsArrayIndex(ps[0].key) then [] else [ps[0]]) + OtherKeyed(ps[1..])
  }

  predicate SortedByIndex(ps: Params)
  {
    forall i, j :: 0 <= i < j < |ps| ==> DecimalValue(ps[i].key) <= DecimalValue(ps[j].key)
  }

  function InsertByIndex(p: Param, sorted: Params): (r: Params)
    ensures multiset(r) == multiset(sorted) + multiset{p}
  {
    if |sorted| == 0 then [p]
    else if DecimalValue(p.key) <= DecimalValue(sorted[0].key) then [p] + sorted
    else
      assert sorted == [sorted[0]] + sorted[1..];
      [sorted[0]] + InsertByIndex(p, sorted[1..])
  }

  lemma {:induction false} InsertKeepsSorted(p: Param, sorted: Params)
    requires SortedByIndex(sorted)
    ensures SortedByIndex(InsertByIndex(p, sorted))
  {
    if |sorted| > 0 && DecimalValue(p.key) > DecimalValue(sorted[0].key) {
      var head, tail := sorted[0], sorted[1..];
      InsertKeepsSorted(p, tail);
      AboveTail(sorted, DecimalValue(head.key));
      InsertAbove(p, tail, DecimalValue(head.key));
      InsertPassing(p, sorted);
      SortedCons(head, InsertByIndex(p, tail));
    }
  }

  /** Every key of `ps` is at least `lo`. */
  predicate Above(ps: Params, lo: nat)
  {
    forall i :: 0 <= i < |ps| ==> lo <= DecimalValue(ps[i].key)
  }

  lemma AboveTail(ps: Params, lo: nat)
    requires |ps| > 0
    requires SortedByIndex(ps) && lo == DecimalValue(ps[0].key)
    ensures Above(ps[1..], lo)
  {
    forall i | 0 <= i < |ps[1..]|
      ensures lo <= DecimalValue(ps[1..][i].key)
    {
      assert ps[1..][i] == ps[i + 1];
    }
  }

  lemma AboveCons(p: Param, ps: Params, lo: nat)
    requires lo <= DecimalValue(p.key) && Above(ps, lo)
    ensures Above([p] + ps, lo)
  {
    forall i | 1 <= i < |[p] + ps|
      ensures lo <= DecimalValue(([p] + ps)[i].key)
    {
      assert ([p] + ps)[i] == ps[i - 1];
    }
  }

  /** Inserting past the first property keeps it in front. */
  lemma InsertPassing(p: Param, ps: Params)
    requires |ps| > 0 && DecimalValue(p.key) > DecimalValue(ps[0].key)
    ensures InsertByIndex(p, ps) == [ps[0]] + InsertByIndex(p, ps[1..])
  {
  }

  /** A lower bound of the inserted property and of the list bounds the result. */
  lemma {:induction false} InsertAbove(p: Param, ps: Params, lo: nat)
    requires lo <= DecimalValue(p.key) && Above(ps, lo)
    ensures Above(InsertByIndex(p, ps), lo)
  {
    if |ps| == 0 {
      AboveCons(p, [], lo);
      assert [p] + [] == [p];
    } else if DecimalValue(p.key) <= DecimalValue(ps[0].key) {
      AboveCons(p, ps, lo);
    } else {
      assert Above(ps[1..], lo) by {
        forall i | 0 <= i < |ps[1..]|
          ensures lo <= DecimalValue(ps[1..][i].key)
        {
          assert ps[1..][i] == ps[i + 1];
        }
      }
      InsertAbove(p, ps[1..], lo);
      InsertPassing(p, ps);
      AboveCons(ps[0], InsertByIndex(p, ps[1..]), lo);
    }
  }

  /** A property at most every key of a sorted list, put in front, keeps it sorted. */
  lemma SortedCons(head: Param, rest: Params)
    requires SortedByIndex(rest) && Above(rest, DecimalValue(head.key))
    ensures SortedByIndex([head] + rest)
  {
    var r := [head] + rest;
    forall i, j | 0 <= i < j < |r|
      ensures DecimalValue(r[i].key) <= DecimalValue(r[j].key)
    {
      assert r[j] == rest[j - 1];
      if i > 0 {
        assert r[i] == rest[i - 1];
      }
    }
  }

  function SortByIndex(ps: Params): (r: Params)
    ensures multiset(r) == multiset(ps)
  {
    if |ps| == 0 then []
    else
      assert ps == [ps[0]] + ps[1..];
      InsertByIndex(ps[0], SortByIndex(ps[1..]))
  }

  lemma {:induction false} SortIsSorted(ps: Params)
    ensures SortedByIndex(SortByIndex(ps))
  {
    if |ps| > 0 {
      SortIsSorted(ps[1..]);
      InsertKeepsSorted(ps[0], SortByIndex(ps[1..]));
    }
  }

  lemma {:induction false} PartitionKeepsElements(ps: Params)
    ensures multiset(IndexKeyed(ps)) + multiset(OtherKeyed(ps)) == multiset(ps)
  {
    if |ps| > 0 {
      var x, t := ps[0], ps[1..];
      calc {
        multiset(IndexKeyed(ps)) + multiset(OtherKeyed(ps));
        { PartitionCons(ps); }
        multiset{x} + multiset(IndexKeyed(t)) + multiset(OtherKeyed(t));
        multiset{x} + (multiset(IndexKeyed(t)) + multiset(OtherKeyed(t)));
        { PartitionKeepsElements(t); }
        multiset{x} + multiset(t);
        { MultisetCons(ps); }
        multiset(ps);
      }
    }
  }

  lemma MultisetCons(ps: Params)
    requires |ps| > 0
    ensures multiset(ps) == multiset{ps[0]} + multiset(ps[1..])
  {
    assert ps == [ps[0]] + ps[1..];
  }

  /** One step of the partition: the first property goes to exactly one side. */
  lemma PartitionCons(ps: Params)
    requires |ps| > 0
    ensures multiset(IndexKeyed(ps)) + multiset(OtherKeyed(ps))
            == multiset{ps[0]} + multiset(IndexKeyed(ps[1..])) + multiset(OtherKeyed(ps[1..]))
  {
    var x, t := ps[0], ps[1..];
    if IsArrayIndex(x.key) {
      assert IndexKeyed(ps) == [x] + IndexKeyed(t);
      assert OtherKeyed(ps) == OtherKeyed(t);
    } else {
      assert IndexKeyed(ps) == IndexKeyed(t);
      assert OtherKeyed(ps) == [x] + OtherKeyed(t);
    }
  }

  lemma {:induction false} NoIndexKeys(ps: Params)
    ensures (forall i :: 0 <= i < |ps| ==> !IsArrayIndex(ps[i].key)) ==> IndexKeyed(ps) == [] && OtherKeyed(ps) == ps
  {
    if |ps| > 0 {
      NoIndexKeys(ps[1..]);
    }
  }

  lemma AllIndexKeyed(sorted: Params, ps: Params)
    requires multiset(sorted) == multiset(IndexKeyed(ps))
    ensures forall i :: 0 <= i < |sorted| ==> IsArrayIndex(sorted[i].key)
  {
    forall i | 0 <= i < |sorted|
      ensures IsArrayIndex(sorted[i].key)
    {
      assert sorted[i] in multiset(IndexKeyed(ps));
    }
  }

  /** `Object.entries(obj)`: the same properties, array-index keys first in
      ascending numeric order, then the rest; the creation order itself when
      no key is an array index. */
  function Entries(ps: Params): (es: Params)
    ensures multiset(es) == multiset(ps)
    ensures (forall i :: 0 <= i < |ps| ==> !IsArrayIndex(ps[i].key)) ==> es == ps
    ensures forall i, j :: 0 <= i < j < |es| && IsArrayIndex(es[j].key) ==>
              IsArrayIndex(es[i].key) && DecimalValue(es[i].key) <= DecimalValue(es[j].key)
  {
    var sorted := SortByIndex(IndexKeyed(ps));
    PartitionKeepsElements(ps);
    SortIsSorted(IndexKeyed(ps));
    NoIndexKeys(ps);
    AllIndexKeyed(sorted, ps);
    sorted + OtherKeyed(ps)
  }

  /** The properties `Object.entries` lists after the array-index keys are
      the other properties in creation order. */
  lemma EntriesKeepOtherOrder(ps: Params)
    ensures OtherKeyed(Entries(ps)) == OtherKeyed(ps)
  {
    var sorted := SortByIndex(IndexKeyed(ps));
    PartitionKeepsElements(ps);
    AllIndexKeyed(sorted, ps);
    OtherKeyedAppend(sorted, OtherKeyed(ps));
    OnlyIndexKeys(sorted);
    NoIndexKeys(OtherKeyed(ps));
    assert [] + OtherKeyed(ps) == OtherKeyed(ps);
  }

  lemma {:induction false} OtherKeyedAppend(a: Params, b: Params)
    ensures OtherKeyed(a + b) == OtherKeyed(a) + OtherKeyed(b)
  {
    if |a| == 0 {
      assert a + b == b;
    } else {
      assert (a + b)[0] == a[0] && (a + b)[1..] == a[1..] + b;
      OtherKeyedAppend(a[1..], b);
    }
  }

  lemma {:induction false} OnlyIndexKeys(ps: Params)
    requires forall i :: 0 <= i < |ps| ==> IsArrayIndex(ps[i].key)
    ensures OtherKeyed(ps) == []
  {
    if |ps| > 0 {
      assert IsArrayIndex(ps[0].key);
      assert forall i :: 0 <= i < |ps[1..]| ==> IsArrayIndex(ps[1..][i].key) by {
        forall i | 0 <= i < |ps[1..]|
          ensures IsArrayIndex(ps[1..][i].key)
        {
          assert ps[1..][i] == ps[i + 1];
        }
      }
      OnlyIndexKeys(ps[1..]);
    }
  }
}
