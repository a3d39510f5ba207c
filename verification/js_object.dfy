/**
 A JavaScript object's own enumerable properties, as the `for ... in`
 loop of the configuration script visits them, and the `invert` helper
 that swaps its keys and values.
 */
module JsObject {
  import opened Wrappers

  /**
   The (key, value) pairs of an object's own properties in enumeration
   order. An object never has one key twice (DistinctKeys).
   */
  predicate DistinctKeys<V>(obj: seq<(string, V)>) {
    forall i, j :: 0 <= i < j < |obj| ==> obj[i].0 != obj[j].0
  }

  /** No two properties hold the same value. */
  predicate DistinctValues<V(==)>(obj: seq<(string, V)>) {
    forall i, j :: 0 <= i < j < |obj| ==> obj[i].1 != obj[j].1
  }

  function KeySet<V(==)>(obj: seq<(string, V)>): set<string> {
    set e | e in obj :: e.0
  }

  function ValueSet<V(==)>(obj: seq<(string, V)>): set<V> {
    set e | e in obj :: e.1
  }

  /** Property access `obj[k]`: the value of the own property `k`, if there is one. */
  function Get<V(==)>(obj: seq<(string, V)>, k: string): (r: Option<V>)
    ensures r.Some? <==> k in KeySet(obj)
    ensures r.Some? ==> (k, r.value) in obj
  {
    if |obj| == 0 then None
    else if obj[0].0 == k then Some(obj[0].1)
    else
      var rest := Get(obj[1..], k);
      assert forall e :: e in obj[1..] ==> e in obj;
      assert k in KeySet(obj) ==> k == obj[0].0 || k in KeySet(obj[1..]) by {
        if k in KeySet(obj) {
          var e :| e in obj && e.0 == k;
          var i :| 0 <= i < |obj| && obj[i] == e;
          if i > 0 {
            assert obj[1..][i - 1] == e;
          }
        }
      }
      rest
  }

  /**
   invert: for every own property `p`, sets `result[obj[p]] = p`, in
   enumeration order, so for a value held by several properties the last
   one enumerated wins. Its keys are exactly the object's values, and each
   maps back to a property holding that value.
   */
  function Invert(obj: seq<(string, string)>): (inv: map<string, string>)
    ensures inv.Keys == ValueSet(obj)
    ensures forall v :: v in inv ==> (inv[v], v) in obj
    decreases |obj|
  {
    if |obj| == 0 then map[]
    else
      var init := obj[..|obj| - 1];
      var last := obj[|obj| - 1];
      assert obj == init + [last];
      assert forall e :: e in init ==> e in obj;
      assert ValueSet(obj) == ValueSet(init) + {last.1};
      Invert(init)[last.1 := last.0]
  }

  /** Round trip: reading the object at the inverted key gives back the value. */
  lemma InvertRoundTrip(obj: seq<(string, string)>, v: string)
    requires DistinctKeys(obj) && v in Invert(obj)
    ensures Get(obj, Invert(obj)[v]) == Some(v)
  {}

  /** With distinct values, inverting then reading a property's value gives back the property. */
  lemma InvertOfValueIsKey(obj: seq<(string, string)>, k: string)
    requires DistinctKeys(obj) && DistinctValues(obj) && k in KeySet(obj)
    ensures Get(obj, k).Some? && Invert(obj)[Get(obj, k).value] == k
  {}

  /**
   For a value held by several properties, the inverted map keeps the one
   enumerated last.
   */
  lemma {:induction false} InvertLastWins(obj: seq<(string, string)>, i: int)
    requires 0 <= i < |obj|
    requires forall j :: i < j < |obj| ==> obj[j].1 != obj[i].1
    ensures obj[i].1 in Invert(obj) && Invert(obj)[obj[i].1] == obj[i].0
  {
    var init := obj[..|obj| - 1];
    assert obj == init + [obj[|obj| - 1]];
    if i < |obj| - 1 {
      assert init[i] == obj[i];
      InvertLastWins(init, i);
    }
  }
}
