/** Python's insertion-ordered `dict`, as an association list, and the JSON-like
    document that the namespace tree renders to.

    Assigning to a key already present replaces its value in place; a new key is
    appended. `pop` removes a key and hands back its value.
 */
module Dicts {
  import opened Wrappers

  type Dict<V> = seq<(string, V)>

  function Keys<V>(d: Dict<V>): (ks: seq<string>)
    ensures |ks| == |d|
    ensures forall i :: 0 <= i < |d| ==> ks[i] == d[i].0
  {
    if |d| == 0 then [] else [d[0].0] + Keys(d[1..])
  }

  /** No string occurs twice in `s`. */
  predicate Distinct(s: seq<string>) {
    forall i, j :: 0 <= i < j < |s| ==> s[i] != s[j]
  }

  /** No key occurs twice: every dict the model builds keeps this. */
  predicate UniqueKeys<V>(d: Dict<V>) {
    |d| == 0 || (d[0].0 !in Keys(d[1..]) && UniqueKeys(d[1..]))
  }

  function Get<V>(d: Dict<V>, k: string): (r: Option<V>)
    ensures r.Some? <==> k in Keys(d)
    ensures r.Some? ==> (k, r.value) in d
  {
    if |d| == 0 then None
    else if d[0].0 == k then Some(d[0].1)
    else Get(d[1..], k)
  }

  /** `d[k] = v`. */
  function Put<V>(d: Dict<V>, k: string, v: V): (r: Dict<V>)
    ensures Get(r, k) == Some(v)
    ensures forall k' :: k' != k ==> Get(r, k') == Get(d, k')
    ensures k in Keys(d) ==> Keys(r) == Keys(d)
    ensures k !in Keys(d) ==> Keys(r) == Keys(d) + [k]
    ensures UniqueKeys(d) ==> UniqueKeys(r)
  {
    if |d| == 0 then [(k, v)]
    else if d[0].0 == k then
      var r := [(k, v)] + d[1..];
      assert r[1..] == d[1..];
      r
    else
      var rest := Put(d[1..], k, v);
      PutCons(d, k, v, rest);
      [d[0]] + rest
  }

  /** `Put` past a first entry with another key keeps that entry in front. */
  lemma PutCons<V>(d: Dict<V>, k: string, v: V, rest: Dict<V>)
    requires |d| > 0 && d[0].0 != k
    requires Get(rest, k) == Some(v)
    requires forall k' :: k' != k ==> Get(rest, k') == Get(d[1..], k')
    requires k in Keys(d[1..]) ==> Keys(rest) == Keys(d[1..])
    requires k !in Keys(d[1..]) ==> Keys(rest) == Keys(d[1..]) + [k]
    requires UniqueKeys(d[1..]) ==> UniqueKeys(rest)
    ensures Get([d[0]] + rest, k) == Some(v)
    ensures forall k' :: k' != k ==> Get([d[0]] + rest, k') == Get(d, k')
    ensures k in Keys(d) ==> Keys([d[0]] + rest) == Keys(d)
    ensures k !in Keys(d) ==> Keys([d[0]] + rest) == Keys(d) + [k]
    ensures UniqueKeys(d) ==> UniqueKeys([d[0]] + rest)
  {
    var r := [d[0]] + rest;
    assert r[1..] == rest;
    PutConsKeys(d, k, rest);
  }

  lemma PutConsKeys<V>(d: Dict<V>, k: string, rest: Dict<V>)
    requires |d| > 0 && d[0].0 != k
    requires k in Keys(d[1..]) ==> Keys(rest) == Keys(d[1..])
    requires k !in Keys(d[1..]) ==> Keys(rest) == Keys(d[1..]) + [k]
    requires UniqueKeys(d[1..]) ==> UniqueKeys(rest)
    ensures k in Keys(d) ==> Keys([d[0]] + rest) == Keys(d)
    ensures k !in Keys(d) ==> Keys([d[0]] + rest) == Keys(d) + [k]
    ensures UniqueKeys(d) ==> UniqueKeys([d[0]] + rest)
  {
    var r := [d[0]] + rest;
    assert r[1..] == rest;
    var kr := Keys(r);
    assert kr == [d[0].0] + Keys(rest);
    assert Keys(d) == [d[0].0] + Keys(d[1..]);
    assert k in Keys(d) <==> k in Keys(d[1..]);
    if UniqueKeys(d) {
      assert d[0].0 !in Keys(d[1..]);
      assert d[0].0 !in Keys(rest);
    }
  }

  /** `d[k] = v` brings in no entry other than `(k, v)`. */
  lemma {:induction false} PutEntries<V>(d: Dict<V>, k: string, v: V)
    ensures forall p :: p in Put(d, k, v) ==> p == (k, v) || p in d
  {
    if |d| > 0 && d[0].0 != k {
      PutEntries(d[1..], k, v);
    }
  }

  /** `d.pop(k, None)` with the popped value dropped: the dict without `k`. */
  function Remove<V>(d: Dict<V>, k: string): (r: Dict<V>)
    ensures Get(r, k) == None
    ensures forall k' :: k' != k ==> Get(r, k') == Get(d, k')
    ensures UniqueKeys(d) ==> UniqueKeys(r)
    ensures forall x :: x in Keys(r) <==> x in Keys(d) && x != k
    ensures k !in Keys(d) ==> r == d
    ensures forall i :: 0 <= i < |d| && d[i].0 == k && UniqueKeys(d) ==> r == d[..i] + d[i + 1..]
  {
    if |d| == 0 then []
    else if d[0].0 == k then
      var rest := Remove(d[1..], k);
      RemoveHead(d, k, rest);
      rest
    else
      var rest := Remove(d[1..], k);
      assert ([d[0]] + rest)[1..] == rest;
      RemoveCons(d, k, rest);
      [d[0]] + rest
  }

  /** With unique keys, a first entry of key `k` is its only one. */
  lemma RemoveHead<V>(d: Dict<V>, k: string, rest: Dict<V>)
    requires |d| > 0 && d[0].0 == k
    requires k !in Keys(d[1..]) ==> rest == d[1..]
    ensures forall i :: 0 <= i < |d| && d[i].0 == k && UniqueKeys(d) ==> rest == d[..i] + d[i + 1..]
  {
    forall i | 0 <= i < |d| && d[i].0 == k && UniqueKeys(d) ensures rest == d[..i] + d[i + 1..] {
      assert i == 0;
    }
  }

  /** Keeping a first entry of another key: the removal happens in the tail. */
  lemma RemoveCons<V>(d: Dict<V>, k: string, rest: Dict<V>)
    requires |d| > 0 && d[0].0 != k
    requires k !in Keys(d[1..]) ==> rest == d[1..]
    requires forall i :: 0 <= i < |d[1..]| && d[1..][i].0 == k && UniqueKeys(d[1..]) ==> rest == d[1..][..i] + d[1..][i + 1..]
    ensures k !in Keys(d) ==> [d[0]] + rest == d
    ensures forall i :: 0 <= i < |d| && d[i].0 == k && UniqueKeys(d) ==> [d[0]] + rest == d[..i] + d[i + 1..]
  {
    assert Keys(d) == [d[0].0] + Keys(d[1..]);
    forall i | 0 <= i < |d| && d[i].0 == k && UniqueKeys(d) ensures [d[0]] + rest == d[..i] + d[i + 1..] {
      assert d[1..][i - 1] == d[i];
      ConsSlices(d, i, rest);
    }
  }

  lemma ConsSlices<V>(d: Dict<V>, i: nat, rest: Dict<V>)
    requires 0 < i < |d| && rest == d[1..][..i - 1] + d[1..][i..]
    ensures [d[0]] + rest == d[..i] + d[i + 1..]
  {
    assert d[..i] == [d[0]] + d[1..][..i - 1];
    assert d[i + 1..] == d[1..][i..];
  }

  /** The document a namespace renders to: the value space of `json.dumps`. */
  datatype Json =
    | JStr(s: string)
    | JBool(b: bool)
    | JArr(items: seq<Json>)
    | JObj(fields: Dict<Json>)

  /** Python truthiness of a document value. */
  predicate Truthy(j: Json) {
    match j
    case JStr(s) => s != ""
    case JBool(b) => b
    case JArr(xs) => xs != []
    case JObj(fs) => fs != []
  }

  /** `{"$ref": path}`. */
  function RefDoc(path: string): Json {
    JObj([("$ref", JStr(path))])
  }

  /** Value of key `k` in a document object; None for a missing key or a non-object. */
  function Field(j: Json, k: string): Option<Json> {
    if j.JObj? then Get(j.fields, k) else None
  }

  /** `j[k] = v` for an object document; any other document is left as it is. */
  function WithField(j: Json, k: string, v: Json): (r: Json)
    requires j.JObj?
    ensures r.JObj? && Field(r, k) == Some(v)
    ensures forall k' :: k' != k ==> Field(r, k') == Field(j, k')
  {
    JObj(Put(j.fields, k, v))
  }
}
