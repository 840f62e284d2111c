/** The merging half of `aggregate_results`: a list of results, listed or merged key by key. */
module PortableAggregation {
  import opened Wrappers
  import J = Json

  datatype Mode = All | MergeAll | Merge

  type Object = map<string, J.Json>

  /** One key of the merged object, given what it held before. */
  function Joined(mode: Mode, before: Option<J.Json>, incoming: J.Json): J.Json {
    if mode.MergeAll? && before.Some? && before.value.Array? && incoming.Array?
    then J.Array(before.value.items + incoming.items)
    else incoming
  }

  function Held(o: Object, key: string): Option<J.Json> {
    if key in o then Some(o[key]) else None
  }

  function MergeOne(mode: Mode, o: Object, incoming: Object): Object {
    map key | key in o.Keys + incoming.Keys ::
      if key in incoming then Joined(mode, Held(o, key), incoming[key]) else o[key]
  }

  /** Values that are not objects are passed over. */
  function MergeAllOf(mode: Mode, values: seq<J.Json>): Object {
    if values == [] then map[]
    else
      var n := |values| - 1;
      var sofar := MergeAllOf(mode, values[..n]);
      if values[n].Object? then MergeOne(mode, sofar, values[n].fields) else sofar
  }

  function Aggregate(mode: Mode, values: seq<J.Json>): J.Json {
    if values == [] then J.Null
    else if mode.All? then J.Array(values)
    else J.Object(MergeAllOf(mode, values))
  }

  method MergeInto(mode: Mode, output: Object, incoming: Object) returns (merged: Object)
    ensures merged == MergeOne(mode, output, incoming)
  {
    merged := output;
    var left := incoming.Keys;
    while left != {}
      invariant left <= incoming.Keys
      invariant merged.Keys == output.Keys + (incoming.Keys - left)
      invariant forall key :: key in merged ==>
        merged[key] == if key in incoming && key !in left then Joined(mode, Held(output, key), incoming[key]) else output[key]
      decreases left
    {
      var key :| key in left;
      var value := incoming[key];
      if mode.MergeAll? && key in merged && merged[key].Array? && value.Array? {
        merged := merged[key := J.Array(merged[key].items + value.items)];
      } else {
        merged := merged[key := value];
      }
      left := left - {key};
    }
  }

  method AggregateValues(mode: Mode, values: seq<J.Json>) returns (r: J.Json)
    ensures r == Aggregate(mode, values)
  {
    if values == [] {
      return J.Null;
    }
    if mode.All? {
      return J.Array(values);
    }
    var output: Object := map[];
    var k := 0;
    while k < |values|
      invariant 0 <= k <= |values| && output == MergeAllOf(mode, values[..k])
    {
      assert values[..k + 1][..k] == values[..k];
      if values[k].Object? {
        output := MergeInto(mode, output, values[k].fields);
      }
      k := k + 1;
    }
    assert values[..k] == values;
    r := J.Object(output);
  }

  // ---- what a merge holds --------------------------------------------------

  predicate Holds(v: J.Json, key: string) {
    v.Object? && key in v.fields
  }

  /** The merged object has exactly the keys of the merged values. */
  lemma {:induction false} MergedKeys(mode: Mode, values: seq<J.Json>, key: string)
    ensures key in MergeAllOf(mode, values) <==> exists i :: 0 <= i < |values| && Holds(values[i], key)
  {
    if values != [] {
      var n := |values| - 1;
      MergedKeys(mode, values[..n], key);
      if i :| 0 <= i < n && Holds(values[..n][i], key) {
        assert Holds(values[i], key);
      }
      if i :| 0 <= i < |values| && Holds(values[i], key) {
        assert i < n ==> Holds(values[..n][i], key);
      }
    }
  }

  /** Plain merging keeps the value of the last result that has the key. */
  lemma {:induction false} LastOneWins(values: seq<J.Json>, key: string, i: nat)
    requires i < |values| && Holds(values[i], key)
    requires forall j :: i < j < |values| ==> !Holds(values[j], key)
    ensures Held(MergeAllOf(Merge, values), key) == Some(values[i].fields[key])
  {
    var n := |values| - 1;
    if i < n {
      assert !Holds(values[n], key);
      assert values[..n][i] == values[i];
      LastOneWins(values[..n], key, i);
    }
  }

  /** The arrays at this key, one after another. */
  function Arrays(values: seq<J.Json>, key: string): seq<J.Json> {
    if values == [] then []
    else
      var n := |values| - 1;
      Arrays(values[..n], key) + if HoldsArray(values[n], key) then values[n].fields[key].items else []
  }

  predicate HoldsArray(v: J.Json, key: string) {
    Holds(v, key) && v.fields[key].Array?
  }

  /** From here on the key holds nothing but arrays, and just before it, if at all, something else. */
  ghost predicate ArraysFrom(values: seq<J.Json>, key: string, from: nat) {
    && from <= |values|
    && (forall j :: from <= j < |values| && Holds(values[j], key) ==> HoldsArray(values[j], key))
    && (from > 0 ==> Holds(values[from - 1], key) && !HoldsArray(values[from - 1], key))
  }

  lemma {:induction false} SomeArraysFrom(values: seq<J.Json>, key: string) returns (from: nat)
    ensures ArraysFrom(values, key, from)
  {
    if values == [] {
      from := 0;
    } else {
      var n := |values| - 1;
      if Holds(values[n], key) && !HoldsArray(values[n], key) {
        from := n + 1;
      } else {
        from := SomeArraysFrom(values[..n], key);
        assert forall j :: 0 <= j < n ==> values[..n][j] == values[j];
      }
    }
  }

  ghost predicate HeldFrom(values: seq<J.Json>, key: string, from: nat) {
    exists j :: from <= j < |values| && Holds(values[j], key)
  }

  /** What the key holds: the joined arrays, or the value before them, or nothing. */
  ghost function Expected(values: seq<J.Json>, key: string, from: nat): Option<J.Json>
    requires ArraysFrom(values, key, from)
  {
    if HeldFrom(values, key, from) then Some(J.Array(Arrays(values[from..], key)))
    else if from > 0 then Some(values[from - 1].fields[key])
    else None
  }

  lemma MergeStep(mode: Mode, values: seq<J.Json>, key: string)
    requires values != []
    ensures var n := |values| - 1;
            var before := Held(MergeAllOf(mode, values[..n]), key);
            Held(MergeAllOf(mode, values), key) ==
            if Holds(values[n], key) then Some(Joined(mode, before, values[n].fields[key])) else before
  {
  }

  /** One value less: the same place, and what changes. */
  lemma ExpectedStep(values: seq<J.Json>, key: string, from: nat)
    requires ArraysFrom(values, key, from) && from < |values|
    ensures var n := |values| - 1;
            && ArraysFrom(values[..n], key, from)
            && (HeldFrom(values, key, from) <==> HeldFrom(values[..n], key, from) || Holds(values[n], key))
            && Arrays(values[from..], key) ==
               Arrays(values[..n][from..], key) + if HoldsArray(values[n], key) then values[n].fields[key].items else []
  {
    var n := |values| - 1;
    assert forall j :: 0 <= j < n ==> values[..n][j] == values[j];
    if j :| from <= j < n && Holds(values[..n][j], key) {
      assert Holds(values[j], key);
    }
    if j :| from <= j < |values| && Holds(values[j], key) {
      assert j < n ==> Holds(values[..n][j], key);
    }
    assert values[from..][..n - from] == values[..n][from..];
  }

  lemma {:induction false} NoArraysNothingJoined(values: seq<J.Json>, key: string)
    requires forall j :: 0 <= j < |values| ==> !Holds(values[j], key)
    ensures Arrays(values, key) == []
  {
    if values != [] {
      NoArraysNothingJoined(values[..|values| - 1], key);
    }
  }

  /**
   Merging everything joins, in order, the arrays that follow the last value of the key that is no
   array; with none following, that value stays.
   */
  lemma {:induction false} ArraysAreJoined(values: seq<J.Json>, key: string, from: nat)
    requires ArraysFrom(values, key, from)
    ensures Held(MergeAllOf(MergeAll, values), key) == Expected(values, key, from)
    decreases |values|
  {
    if values != [] {
      MergeStep(MergeAll, values, key);
    }
    if from < |values| {
      var n := |values| - 1;
      ExpectedStep(values, key, from);
      ArraysAreJoined(values[..n], key, from);
      var earlier := Arrays(values[..n][from..], key);
      if !HeldFrom(values[..n], key, from) {
        forall j | 0 <= j < n - from ensures !Holds(values[..n][from..][j], key) {
          assert values[..n][from..][j] == values[..n][from + j];
        }
        NoArraysNothingJoined(values[..n][from..], key);
      }
      assert earlier + [] == earlier;
      if Holds(values[n], key) {
        assert HoldsArray(values[n], key);
        var items := values[n].fields[key].items;
        assert values[n].fields[key] == J.Array(items) && [] + items == items;
      }
    }
  }
}
