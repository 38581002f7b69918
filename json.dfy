/** The optional-value wrapper used across the model. */
module Wrappers {
  datatype Option<+T> = None | Some(value: T)
}

/**
 * The Python values the bot passes around as JSON: what `json.loads` returns
 * and what the solvers hand to the formatters. A Python `dict` keeps its keys
 * in insertion order, so an object is a sequence of (key, value) pairs.
 * Floating-point numbers are not part of this model.
 */
module Json {
  import opened Wrappers
  import opened Text

  datatype Json =
    | JNull
    | JBool(b: bool)
    | JInt(n: int)
    | JStr(s: string)
    | JArr(items: seq<Json>)
    | JObj(fields: seq<(string, Json)>)

  /** A Python dict: (key, value) pairs in insertion order. */
  type Dict = seq<(string, Json)>

  /** The keys of a dict, in order. */
  function Keys(d: Dict): (ks: seq<string>)
    ensures |ks| == |d|
    ensures forall i :: 0 <= i < |d| ==> ks[i] == d[i].0
  {
    if d == [] then [] else [d[0].0] + Keys(d[1..])
  }

  /** Python's `k in d`. */
  predicate HasKey(d: Dict, k: string) {
    k in Keys(d)
  }

  /** No key occurs twice, as in every real Python dict. */
  predicate DistinctKeys(d: Dict) {
    forall i, j :: 0 <= i < j < |d| ==> d[i].0 != d[j].0
  }

  /** Python's `d.get(k)`: the value stored under `k`, if any. */
  function Get(d: Dict, k: string): (r: Option<Json>)
    ensures r.None? <==> !HasKey(d, k)
    ensures r.Some? ==> exists i :: 0 <= i < |d| && d[i] == (k, r.value)
  {
    if d == [] then None
    else if d[0].0 == k then Some(d[0].1)
    else
      var r := Get(d[1..], k);
      assert r.Some? ==> exists i :: 1 <= i < |d| && d[i] == (k, r.value) by {
        if r.Some? {
          var i :| 0 <= i < |d[1..]| && d[1..][i] == (k, r.value);
          assert d[i + 1] == (k, r.value);
        }
      }
      r
  }

  /** The value under a key is the one at the key's first position. */
  lemma {:induction false} GetAt(d: Dict, k: string, i: nat)
    requires i < |d| && d[i].0 == k
    requires forall j :: 0 <= j < i ==> d[j].0 != k
    ensures Get(d, k) == Some(d[i].1)
  {
    if i > 0 {
      GetAt(d[1..], k, i - 1);
    }
  }

  /** In a dict without repeated keys, every stored pair reads back under its key. */
  lemma DistinctGet(d: Dict, i: nat)
    requires DistinctKeys(d) && i < |d|
    ensures Get(d, d[i].0) == Some(d[i].1)
  {
    GetAt(d, d[i].0, i);
  }

  /** A key absent from the first part is looked up in the second. */
  lemma {:induction false} GetAfterAbsent(a: Dict, b: Dict, k: string)
    requires !HasKey(a, k)
    ensures Get(a + b, k) == Get(b, k)
  {
    if a == [] {
      assert a + b == b;
    } else {
      assert Keys(a) == [a[0].0] + Keys(a[1..]);
      assert (a + b)[0] == a[0] && (a + b)[1..] == a[1..] + b;
      GetAfterAbsent(a[1..], b, k);
    }
  }

  /** A field put in front of a dict with distinct keys keeps them distinct when its key is new. */
  lemma DistinctCons(field: (string, Json), d: Dict)
    requires DistinctKeys(d) && !HasKey(d, field.0)
    ensures DistinctKeys([field] + d)
  {
    var r := [field] + d;
    forall i, j | 0 <= i < j < |r| ensures r[i].0 != r[j].0 {
      if i == 0 {
        assert r[j].0 == Keys(d)[j - 1];
      } else {
        assert r[i] == d[i - 1] && r[j] == d[j - 1];
      }
    }
  }

  /** Python's `d[k] = v`. */
  function Set(d: Dict, k: string, v: Json): (r: Dict)
    ensures |r| >= |d|
  {
    if d == [] then [(k, v)]
    else if d[0].0 == k then [(k, v)] + d[1..]
    else [d[0]] + Set(d[1..], k, v)
  }

  /**
   * After `d[k] = v`: an existing key keeps its place and takes the new
   * value, a new key goes at the end, every other key keeps its value.
   */
  lemma {:induction false} SetKeys(d: Dict, k: string, v: Json)
    ensures Keys(Set(d, k, v)) == if HasKey(d, k) then Keys(d) else Keys(d) + [k]
  {
    if d != [] && d[0].0 != k {
      SetKeys(d[1..], k, v);
      assert Keys(d) == [d[0].0] + Keys(d[1..]);
      assert HasKey(d, k) <==> HasKey(d[1..], k);
    }
  }

  lemma {:induction false} SetGet(d: Dict, k: string, v: Json)
    ensures Get(Set(d, k, v), k) == Some(v)
    ensures forall k' :: k' != k ==> Get(Set(d, k, v), k') == Get(d, k')
  {
    if d != [] && d[0].0 != k {
      SetGet(d[1..], k, v);
    }
  }

  lemma SetDistinct(d: Dict, k: string, v: Json)
    requires DistinctKeys(d)
    ensures DistinctKeys(Set(d, k, v))
  {
    var r := Set(d, k, v);
    SetKeys(d, k, v);
    var ks := Keys(r);
    forall i, j | 0 <= i < j < |r| ensures r[i].0 != r[j].0 {
      assert ks[i] == r[i].0 && ks[j] == r[j].0;
      if j == |d| {
        assert ks[j] == k && !HasKey(d, k);
        assert ks[i] == Keys(d)[i];
      } else {
        assert ks[i] == Keys(d)[i] == d[i].0 && ks[j] == Keys(d)[j] == d[j].0;
      }
    }
  }

  /** Python's truth value of a JSON value. */
  predicate Truthy(j: Json) {
    match j
    case JNull => false
    case JBool(b) => b
    case JInt(n) => n != 0
    case JStr(s) => s != []
    case JArr(items) => items != []
    case JObj(fields) => fields != []
  }

  /**
   * What `for x in j` walks over: the items of a list, the one-character
   * strings of a string, the keys of a dict; None where Python raises
   * TypeError (null, booleans, numbers).
   */
  function Iterate(j: Json): (r: Option<seq<Json>>)
    ensures r.Some? <==> (j.JArr? || j.JStr? || j.JObj?)
    ensures j.JArr? ==> r == Some(j.items)
  {
    match j
    case JArr(items) => Some(items)
    case JStr(s) => Some(seq(|s|, i requires 0 <= i < |s| => JStr([s[i]])))
    case JObj(fields) => Some(seq(|fields|, i requires 0 <= i < |fields| => JStr(fields[i].0)))
    case _ => None
  }

  /** A value that can be iterated is truthy exactly when iterating it yields something. */
  lemma TruthyIffNonEmptyIteration(j: Json)
    requires Iterate(j).Some?
    ensures Truthy(j) <==> Iterate(j).value != []
  {
  }

  /** Python's `repr()` (string escapes are not modelled). */
  function Repr(j: Json): string
    decreases j
  {
    match j
    case JNull => "None"
    case JBool(b) => if b then "True" else "False"
    case JInt(n) => IntToString(n)
    case JStr(s) => "'" + s + "'"
    case JArr(items) =>
      "[" + Join(", ", seq(|items|, i requires 0 <= i < |items| => Repr(items[i]))) + "]"
    case JObj(fields) =>
      "{" + Join(", ", seq(|fields|, i requires 0 <= i < |fields| => FieldRepr(j, fields[i]))) + "}"
  }

  function FieldRepr(parent: Json, field: (string, Json)): string
    requires parent.JObj? && field in parent.fields
    decreases parent, 0
  {
    "'" + field.0 + "': " + Repr(field.1)
  }

  /** Python's `str()`: a string is itself, everything else its repr. */
  function Str(j: Json): (r: string)
    ensures r == [] <==> j == JStr([])
    ensures j.JArr? ==> r[0] == '[' && r[|r| - 1] == ']'
    ensures j.JObj? ==> r[0] == '{' && r[|r| - 1] == '}'
  {
    if j.JStr? then j.s else Repr(j)
  }
}
