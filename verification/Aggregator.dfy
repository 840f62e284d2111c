/** The aggregation of end-node results: one, all, the first few, or merged key by key. */
module Aggregator {
  import opened Wrappers
  import opened Collections
  import opened Text
  import J = Json
  import P = PortableAggregation

  /** `merge`, `merge_all` and every unknown strategy merge. */
  datatype Strategy = First | All | FastestK | Merging

  /** The key under which a result that is no object is merged. */
  function OwnKey(i: nat): string {
    "_result_" + Decimal(i)
  }

  function AsObject(value: J.Json, i: nat): P.Object {
    if value.Object? then value.fields else map[OwnKey(i) := value]
  }

  function AsObjects(values: seq<J.Json>): seq<J.Json> {
    seq(|values|, i requires 0 <= i < |values| => J.Object(AsObject(values[i], i)))
  }

  function Merged(values: seq<J.Json>): P.Object {
    P.MergeAllOf(P.Merge, AsObjects(values))
  }

  function Aggregate(strategy: Strategy, values: seq<J.Json>, minRequired: nat): J.Json {
    if values == [] then J.Object(map[])
    else
      match strategy
      case First => values[0]
      case All => J.Array(values)
      case FastestK => J.Array(if 0 < minRequired < |values| then values[..minRequired] else values)
      case Merging => J.Object(Merged(values))
  }

  lemma MergeStep(values: seq<J.Json>, i: nat, merged: P.Object)
    requires i < |values| && merged == P.MergeAllOf(P.Merge, AsObjects(values)[..i])
    ensures P.MergeOne(P.Merge, merged, AsObject(values[i], i)) == P.MergeAllOf(P.Merge, AsObjects(values)[..i + 1])
  {
    assert AsObjects(values)[..i + 1][..i] == AsObjects(values)[..i];
  }

  method Merge(values: seq<J.Json>) returns (merged: P.Object)
    ensures merged == Merged(values)
  {
    merged := map[];
    for i := 0 to |values|
      invariant merged == P.MergeAllOf(P.Merge, AsObjects(values)[..i])
    {
      MergeStep(values, i, merged);
      match values[i]
      case Object(fields) => merged := P.MergeInto(P.Merge, merged, fields);
      case other => merged := P.MergeInto(P.Merge, merged, map[OwnKey(i) := other]);
    }
    assert AsObjects(values)[..|values|] == AsObjects(values);
  }

  method AggregateResults(strategy: Strategy, values: seq<J.Json>, minRequired: nat) returns (r: J.Json)
    ensures r == Aggregate(strategy, values, minRequired)
  {
    if values == [] {
      return J.Object(map[]);
    }
    match strategy
    case First => r := values[0];
    case All => r := J.Array(values);
    case FastestK =>
      var take := if minRequired > 0 then minRequired else |values|;
      take := if take < |values| then take else |values|;
      assert values[..|values|] == values;
      r := J.Array(values[..take]);
    case Merging =>
      var merged := Merge(values);
      r := J.Object(merged);
  }

  /** The fastest `k` are the first ones: `k` of them, or all when there are no more or `k` is zero. */
  lemma FastestKAreTheFirst(values: seq<J.Json>, k: nat)
    requires values != []
    ensures var r := Aggregate(FastestK, values, k);
            r.Array? && r.items <= values && |r.items| == if k == 0 || k > |values| then |values| else k
  {
  }

  /** The `i`-th result gives the key this value: as its member, or as a whole under its own key. */
  predicate Gives(values: seq<J.Json>, i: nat, key: string, value: J.Json) {
    i < |values| &&
    if values[i].Object? then key in values[i].fields && values[i].fields[key] == value
    else key == "_result_" + Decimal(i) && values[i] == value
  }

  /** The merge holds exactly the keys some result gives, each with the value of the last one that does. */
  lemma MergedIsTheLast(values: seq<J.Json>, key: string)
    ensures key in Merged(values) <==> exists i: nat, v :: Gives(values, i, key, v)
    ensures forall i: nat, v ::
              Gives(values, i, key, v) && (forall j: nat, w :: Gives(values, j, key, w) ==> j <= i) ==>
                P.Held(Merged(values), key) == Some(v)
  {
    var objects := AsObjects(values);
    P.MergedKeys(P.Merge, objects, key);
    if key in Merged(values) {
      var i :| 0 <= i < |objects| && P.Holds(objects[i], key);
      assert Gives(values, i, key, objects[i].fields[key]);
    }
    forall i: nat, v | Gives(values, i, key, v)
      ensures P.Holds(objects[i], key) && objects[i].fields[key] == v
    {
    }
    forall i: nat, v | Gives(values, i, key, v) && (forall j: nat, w :: Gives(values, j, key, w) ==> j <= i)
      ensures P.Held(Merged(values), key) == Some(v)
    {
      forall j | i < j < |objects| ensures !P.Holds(objects[j], key) {
        if P.Holds(objects[j], key) {
          assert Gives(values, j, key, objects[j].fields[key]);
        }
      }
      P.LastOneWins(objects, key, i);
    }
  }

  /** The results of the listed nodes that have one. */
  function ResultsOf(listed: seq<string>, results: map<string, J.Json>): seq<J.Json> {
    if listed == [] then []
    else (if listed[0] in results then [results[listed[0]]] else []) + ResultsOf(listed[1..], results)
  }

  method AggregateEndNodes(listed: seq<string>, results: map<string, J.Json>, strategy: Strategy) returns (r: J.Json)
    ensures r == Aggregate(strategy, ResultsOf(listed, results), 0)
  {
    var values: seq<J.Json> := [];
    for i := 0 to |listed|
      invariant values + ResultsOf(listed[i..], results) == ResultsOf(listed, results)
    {
      assert listed[i..][0] == listed[i] && listed[i..][1..] == listed[i + 1..];
      if listed[i] in results {
        Regroup(values, [results[listed[i]]], ResultsOf(listed[i + 1..], results));
        values := values + [results[listed[i]]];
      }
    }
    assert listed[|listed|..] == [] && values + [] == values;
    r := AggregateResults(strategy, values, 0);
  }

  // ---- when the order of the results matters -------------------------------

  predicate AllObjects(values: seq<J.Json>) {
    forall i :: 0 <= i < |values| ==> values[i].Object?
  }

  /** Results that share a key hold the same value there. */
  ghost predicate Agreeing(values: seq<J.Json>) {
    forall i, j, key ::
      0 <= i < |values| && 0 <= j < |values| && P.Holds(values[i], key) && P.Holds(values[j], key) ==>
        values[i].fields[key] == values[j].fields[key]
  }

  ghost predicate Shuffles(values: seq<J.Json>, other: seq<J.Json>) {
    multiset(values) == multiset(other)
  }

  lemma ObjectsAsTheyAre(values: seq<J.Json>)
    requires AllObjects(values)
    ensures Merged(values) == P.MergeAllOf(P.Merge, values)
  {
    assert AsObjects(values) == values;
  }

  /** Some result holds the key last. */
  lemma {:induction false} LastHolder(values: seq<J.Json>, key: string, k: nat) returns (i: nat)
    requires k < |values| && P.Holds(values[k], key)
    ensures k <= i < |values| && P.Holds(values[i], key) && forall j :: i < j < |values| ==> !P.Holds(values[j], key)
    decreases |values| - k
  {
    if j :| k < j < |values| && P.Holds(values[j], key) {
      i := LastHolder(values, key, j);
    } else {
      i := k;
    }
  }

  lemma MergedHolds(values: seq<J.Json>, key: string, k: nat)
    requires AllObjects(values) && Agreeing(values) && k < |values| && P.Holds(values[k], key)
    ensures P.Held(Merged(values), key) == Some(values[k].fields[key])
  {
    ObjectsAsTheyAre(values);
    var i := LastHolder(values, key, k);
    P.LastOneWins(values, key, i);
  }

  lemma SameElements(values: seq<J.Json>, other: seq<J.Json>, k: nat) returns (i: nat)
    requires Shuffles(values, other) && k < |values|
    ensures i < |other| && other[i] == values[k]
  {
    assert values[k] in multiset(other);
    i :| 0 <= i < |other| && other[i] == values[k];
  }

  lemma ShuffledAgree(values: seq<J.Json>, other: seq<J.Json>)
    requires AllObjects(values) && Agreeing(values) && Shuffles(values, other)
    ensures AllObjects(other) && Agreeing(other)
  {
    forall i | 0 <= i < |other| ensures other[i].Object? {
      var k := SameElements(other, values, i);
    }
    forall i, j, key | 0 <= i < |other| && 0 <= j < |other| && P.Holds(other[i], key) && P.Holds(other[j], key)
      ensures other[i].fields[key] == other[j].fields[key]
    {
      var k := SameElements(other, values, i);
      var l := SameElements(other, values, j);
      assert P.Holds(values[k], key) && P.Holds(values[l], key);
    }
  }

  lemma ShuffledMergeAlike(values: seq<J.Json>, other: seq<J.Json>)
    requires AllObjects(values) && Agreeing(values) && Shuffles(values, other)
    ensures Merged(other) == Merged(values)
  {
    ShuffledAgree(values, other);
    ObjectsAsTheyAre(values);
    ObjectsAsTheyAre(other);
    forall key ensures P.Held(Merged(other), key) == P.Held(Merged(values), key) {
      P.MergedKeys(P.Merge, values, key);
      P.MergedKeys(P.Merge, other, key);
      if k :| 0 <= k < |values| && P.Holds(values[k], key) {
        var i := SameElements(values, other, k);
        MergedHolds(values, key, k);
        MergedHolds(other, key, i);
      } else if i :| 0 <= i < |other| && P.Holds(other[i], key) {
        var k := SameElements(other, values, i);
      }
    }
    HeldDecides(Merged(values), Merged(other));
  }

  lemma HeldDecides(a: P.Object, b: P.Object)
    requires forall key :: P.Held(a, key) == P.Held(b, key)
    ensures a == b
  {
    forall key ensures key in a <==> key in b {
      assert P.Held(a, key) == P.Held(b, key);
    }
    forall key | key in a ensures a[key] == b[key] {
      assert P.Held(a, key) == P.Held(b, key);
    }
  }

  function MovedLast(values: seq<J.Json>, i: nat): seq<J.Json>
    requires i < |values|
  {
    values[..i] + values[i + 1..] + [values[i]]
  }

  lemma MovedLastWins(values: seq<J.Json>, i: nat, key: string)
    requires AllObjects(values) && i < |values| && P.Holds(values[i], key)
    ensures Shuffles(values, MovedLast(values, i))
    ensures P.Held(Merged(MovedLast(values, i)), key) == Some(values[i].fields[key])
  {
    var moved := MovedLast(values, i);
    assert values == values[..i] + [values[i]] + values[i + 1..];
    assert AllObjects(moved) && moved[|moved| - 1] == values[i];
    ObjectsAsTheyAre(moved);
    P.LastOneWins(moved, key, |moved| - 1);
  }

  /** Merging objects gives the same in every order exactly when they agree on the keys they share. */
  lemma MergeOrderIsIrrelevantWhen(values: seq<J.Json>)
    requires AllObjects(values)
    ensures (forall other :: Shuffles(values, other) ==> Merged(other) == Merged(values)) <==> Agreeing(values)
  {
    if Agreeing(values) {
      forall other | Shuffles(values, other) ensures Merged(other) == Merged(values) {
        ShuffledMergeAlike(values, other);
      }
    }
    if forall other :: Shuffles(values, other) ==> Merged(other) == Merged(values) {
      forall i, j, key |
        0 <= i < |values| && 0 <= j < |values| && P.Holds(values[i], key) && P.Holds(values[j], key)
        ensures values[i].fields[key] == values[j].fields[key]
      {
        MovedLastWins(values, i, key);
        MovedLastWins(values, j, key);
      }
    }
  }
}
