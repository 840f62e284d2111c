/** Sizes of sets and maps, and sequences. */
module Collections {
  lemma SubsetSize<T>(small: set<T>, big: set<T>)
    requires small <= big
    ensures |small| <= |big|
  {
    assert big == small + (big - small);
  }

  lemma SubsetOfSameSize<T>(a: set<T>, b: set<T>)
    requires a <= b && |a| == |b|
    ensures a == b
  {
    assert b == a + (b - a);
    assert |b - a| == 0;
  }

  lemma SubmapSize<K, V>(small: map<K, V>, big: map<K, V>)
    requires small.Keys <= big.Keys
    ensures |small| <= |big|
  {
    SubsetSize(small.Keys, big.Keys);
    assert |small.Keys| == |small| && |big.Keys| == |big|;
  }

  lemma Regroup<T>(a: seq<T>, b: seq<T>, c: seq<T>)
    ensures (a + b) + c == a + (b + c)
  {
  }

  lemma FirstAndRest<T>(s: seq<T>)
    requires s != []
    ensures s == [s[0]] + s[1..]
  {
  }

  lemma TakeDrop<T>(s: seq<T>, k: nat)
    requires k <= |s|
    ensures s == s[..k] + s[k..]
  {
  }

  lemma SuffixAfter<T>(b: seq<T>, pos: nat, first: seq<T>, rest: seq<T>)
    requires pos <= |b| && b[pos..] == first + rest
    ensures pos + |first| <= |b| && b[pos + |first|..] == rest && b[pos..pos + |first|] == first
  {
    assert b[pos + |first|..] == b[pos..][|first|..];
    assert b[pos..pos + |first|] == b[pos..][..|first|];
  }

  lemma Cuts<T>(a: seq<T>, b: seq<T>, c: seq<T>)
    ensures var s := (a + b) + c;
            s[..|a|] == a && s[|a|..] == b + c && s[|a| + |b|..] == c
  {
  }

  predicate Distinct<T(==)>(s: seq<T>) {
    forall i, j :: 0 <= i < j < |s| ==> s[i] != s[j]
  }

  lemma DistinctInsert<T>(a: seq<T>, x: T, b: seq<T>)
    requires Distinct(a + b) && x !in a + b
    ensures Distinct(a + [x] + b)
    ensures forall y :: y in a + [x] + b <==> y in a + b || y == x
  {
    var old', new' := a + b, a + [x] + b;
    forall i, j | 0 <= i < j < |new'| ensures new'[i] != new'[j] {
      assert i != |a| ==> new'[i] == old'[if i < |a| then i else i - 1];
      assert j != |a| ==> new'[j] == old'[if j < |a| then j else j - 1];
    }
  }
}
