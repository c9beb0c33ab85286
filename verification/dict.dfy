/** A JavaScript object used as a string-keyed record (`Record<string, V>`):
    an association list in property-insertion order. Overwriting an existing
    property keeps its position, a new property goes to the end, and `delete`
    removes it. `Object.keys`, `Object.values` and `Object.entries` read the
    list in this order; JavaScript would list integer-like keys first, which
    this model does not.
 */
module Dict {
  import opened Prelude

  type Dict<V> = seq<(string, V)>

  /** `Object.keys(d)`. */
  function Keys<V>(d: Dict<V>): (ks: seq<string>)
    ensures |ks| == |d|
    ensures forall i :: 0 <= i < |d| ==> ks[i] == d[i].0
    decreases |d|
  {
    if |d| == 0 then [] else [d[0].0] + Keys(d[1..])
  }

  /** `Object.values(d)`. */
  function Values<V>(d: Dict<V>): (vs: seq<V>)
    ensures |vs| == |d|
    ensures forall i :: 0 <= i < |d| ==> vs[i] == d[i].1
  {
    seq(|d|, i requires 0 <= i < |d| => d[i].1)
  }

  /** Property names are unique, as in every JavaScript object. */
  predicate Valid<V>(d: Dict<V>)
    decreases |d|
  {
    |d| == 0 || (d[0].0 !in Keys(d[1..]) && Valid(d[1..]))
  }

  /** `d[k]`, with None for a missing property. */
  function Get<V>(d: Dict<V>, k: string): (r: Option<V>)
    ensures r.None? <==> k !in Keys(d)
    decreases |d|
  {
    if |d| == 0 then None
    else if d[0].0 == k then Some(d[0].1)
    else Get(d[1..], k)
  }

  /** `d[k] = v`: an existing property is overwritten in place, a new one
      is appended. */
  function Put<V>(d: Dict<V>, k: string, v: V): (r: Dict<V>)
    ensures Get(r, k) == Some(v)
    ensures forall j :: j != k ==> Get(r, j) == Get(d, j)
    ensures k in Keys(d) ==> Keys(r) == Keys(d)
    ensures k !in Keys(d) ==> Keys(r) == Keys(d) + [k]
    ensures Valid(d) ==> Valid(r)
  {
    if k in Keys(d) then Overwrite(d, k, v)
    else
      Append(d, (k, v));
      d + [(k, v)]
  }

  /** Overwriting a property that exists keeps every key where it is. */
  function Overwrite<V>(d: Dict<V>, k: string, v: V): (r: Dict<V>)
    requires k in Keys(d)
    ensures Get(r, k) == Some(v)
    ensures forall j :: j != k ==> Get(r, j) == Get(d, j)
    ensures Keys(r) == Keys(d)
    ensures Valid(d) ==> Valid(r)
    decreases |d|
  {
    if d[0].0 == k then
      Cons((k, v), d[1..]);
      Cons(d[0], d[1..]);
      assert [d[0]] + d[1..] == d;
      [(k, v)] + d[1..]
    else
      var rest := Overwrite(d[1..], k, v);
      Cons(d[0], rest);
      Cons(d[0], d[1..]);
      assert [d[0]] + d[1..] == d;
      [d[0]] + rest
  }

  /** A property appended at the end: the keys grow by one, lookups of
      other keys are unchanged, and a new key keeps the record valid. */
  lemma Append<V>(d: Dict<V>, e: (string, V))
    ensures Keys(d + [e]) == Keys(d) + [e.0]
    ensures forall j :: Get(d + [e], j) == if j in Keys(d) then Get(d, j) else if j == e.0 then Some(e.1) else None
    ensures Valid(d) && e.0 !in Keys(d) ==> Valid(d + [e])
  {
    AppendKeys(d, e);
    forall j ensures Get(d + [e], j) == if j in Keys(d) then Get(d, j) else if j == e.0 then Some(e.1) else None {
      AppendGet(d, e, j);
    }
    if Valid(d) && e.0 !in Keys(d) {
      AppendValid(d, e);
    }
  }

  /** The keys of an appended record. */
  lemma {:induction false} AppendKeys<V>(d: Dict<V>, e: (string, V))
    ensures Keys(d + [e]) == Keys(d) + [e.0]
    decreases |d|
  {
    if |d| > 0 {
      AppendKeys(d[1..], e);
      assert (d + [e])[1..] == d[1..] + [e];
    }
  }

  /** A lookup in an appended record. */
  lemma {:induction false} AppendGet<V>(d: Dict<V>, e: (string, V), j: string)
    ensures Get(d + [e], j) == if j in Keys(d) then Get(d, j) else if j == e.0 then Some(e.1) else None
    decreases |d|
  {
    if |d| > 0 {
      AppendGet(d[1..], e, j);
      assert (d + [e])[1..] == d[1..] + [e];
      assert Keys(d) == [d[0].0] + Keys(d[1..]);
    }
  }

  /** Appending a new key keeps the keys unique. */
  lemma {:induction false} AppendValid<V>(d: Dict<V>, e: (string, V))
    requires Valid(d) && e.0 !in Keys(d)
    ensures Valid(d + [e])
    decreases |d|
  {
    if |d| > 0 {
      assert Keys(d) == [d[0].0] + Keys(d[1..]);
      AppendValid(d[1..], e);
      AppendKeys(d[1..], e);
      assert (d + [e])[1..] == d[1..] + [e];
    }
  }

  /** `delete d[k]`. */
  function Delete<V>(d: Dict<V>, k: string): (r: Dict<V>)
    ensures Get(r, k) == None
    ensures forall j :: j != k ==> Get(r, j) == Get(d, j)
    ensures forall j :: j in Keys(r) <==> j in Keys(d) && j != k
    ensures Valid(d) ==> Valid(r)
    ensures Valid(d) && k in Keys(d) ==> |r| == |d| - 1
    ensures k !in Keys(d) ==> r == d
    ensures Valid(d) ==> forall i :: 0 <= i < |d| && d[i].0 == k ==> r == d[..i] + d[i + 1..]
    decreases |d|
  {
    if |d| == 0 then []
    else if d[0].0 == k then
      assert d[..0] + d[1..] == d[1..];
      Delete(d[1..], k)
    else
      var rest := Delete(d[1..], k);
      assert ([d[0]] + rest)[1..] == rest;
      DeleteTail(d, k, rest);
      [d[0]] + rest
  }

  /** Deleting past a different first key: the entry's position is one
      further into the whole record than into its tail. */
  lemma DeleteTail<V>(d: Dict<V>, k: string, rest: Dict<V>)
    requires |d| > 0 && d[0].0 != k
    requires Valid(d[1..]) ==> forall i :: 0 <= i < |d[1..]| && d[1..][i].0 == k ==> rest == d[1..][..i] + d[1..][i + 1..]
    ensures Valid(d) ==> forall i :: 0 <= i < |d| && d[i].0 == k ==> [d[0]] + rest == d[..i] + d[i + 1..]
  {
    if Valid(d) {
      forall i | 0 <= i < |d| && d[i].0 == k
        ensures [d[0]] + rest == d[..i] + d[i + 1..]
      {
        assert d[1..][i - 1] == d[i];
        assert d[..i] == [d[0]] + d[1..][..i - 1];
        assert d[i + 1..] == d[1..][i..];
      }
    }
  }

  /** How the three readings of a record see one more entry in front. */
  lemma Cons<V>(e: (string, V), d: Dict<V>)
    ensures Keys([e] + d) == [e.0] + Keys(d)
    ensures Valid([e] + d) <==> e.0 !in Keys(d) && Valid(d)
    ensures forall j :: Get([e] + d, j) == if j == e.0 then Some(e.1) else Get(d, j)
  {
    assert ([e] + d)[1..] == d;
  }

  /** In a valid record every listed entry is what `Get` returns for its key. */
  lemma {:induction false} GetEntry<V>(d: Dict<V>, i: int)
    requires Valid(d) && 0 <= i < |d|
    ensures Get(d, d[i].0) == Some(d[i].1)
    decreases |d|
  {
    if i > 0 {
      GetEntry(d[1..], i - 1);
      assert Keys(d[1..])[i - 1] == d[i].0;
    }
  }

  /** In a valid record no two entries share a key. */
  lemma {:induction false} ValidDistinct<V>(d: Dict<V>, a: int, b: int)
    requires Valid(d) && 0 <= a < b < |d|
    ensures d[a].0 != d[b].0
    decreases |d|
  {
    if a == 0 {
      assert Keys(d[1..])[b - 1] == d[b].0;
    } else {
      ValidDistinct(d[1..], a - 1, b - 1);
    }
  }
}
