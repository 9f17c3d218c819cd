/** Sequence helpers: flattening, as Python's repeated `list.extend` does. */
module Seqs {
  import opened Sets

  function Flatten<T>(ss: seq<seq<T>>): seq<T> {
    if ss == [] then [] else ss[0] + Flatten(ss[1..])
  }

  /** An element is in the flattened list exactly when it is in one of the pieces. */
  lemma {:induction false} FlattenMembership<T>(ss: seq<seq<T>>, x: T)
    ensures x in Flatten(ss) <==> exists i :: 0 <= i < |ss| && x in ss[i]
  {
    if ss != [] {
      FlattenMembership(ss[1..], x);
      if x in Flatten(ss[1..]) {
        var i :| 0 <= i < |ss[1..]| && x in ss[1..][i];
        assert x in ss[i + 1];
      }
      if exists i :: 0 <= i < |ss| && x in ss[i] {
        var i :| 0 <= i < |ss| && x in ss[i];
        if i > 0 {
          assert x in ss[1..][i - 1];
        }
      }
    }
  }

  /** The flattened list is as long as all the pieces together. */
  function TotalLength<T>(ss: seq<seq<T>>): nat {
    if ss == [] then 0 else |ss[0]| + TotalLength(ss[1..])
  }

  lemma {:induction false} FlattenLength<T>(ss: seq<seq<T>>)
    ensures |Flatten(ss)| == TotalLength(ss)
  {
    if ss != [] {
      FlattenLength(ss[1..]);
    }
  }

  /** The set of elements of a sequence. */
  function Elems<T>(xs: seq<T>): set<T> {
    set x | x in xs
  }

  predicate Distinct<T(==)>(s: seq<T>) {
    forall i, j :: 0 <= i < j < |s| ==> s[i] != s[j]
  }

  lemma ElemsCons<T>(x: T, s: seq<T>)
    ensures Elems([x] + s) == {x} + Elems(s)
  {
    assert forall y :: y in [x] + s <==> y == x || y in s;
  }

  /** Putting in front an element the rest does not hold keeps a sequence free of repeats. */
  lemma DistinctCons<T>(x: T, s: seq<T>)
    requires Distinct(s) && x !in Elems(s)
    ensures Distinct([x] + s)
  {
    forall i, j | 0 <= i < j < |[x] + s| ensures ([x] + s)[i] != ([x] + s)[j] {
      if i == 0 {
        assert ([x] + s)[j] == s[j - 1];
      } else {
        assert ([x] + s)[i] == s[i - 1] && ([x] + s)[j] == s[j - 1];
      }
    }
  }

  /** Both halves of a split hold only elements of the whole. */
  lemma ElemsSlices<T>(s: seq<T>, k: nat)
    requires k <= |s|
    ensures Elems(s[..k]) <= Elems(s) && Elems(s[k..]) <= Elems(s)
  {
    forall x | x in Elems(s[k..]) ensures x in Elems(s) {
      var j :| 0 <= j < |s| - k && s[k..][j] == x;
      assert s[k + j] == x;
    }
    forall x | x in Elems(s[..k]) ensures x in Elems(s) {
      var j :| 0 <= j < k && s[..k][j] == x;
      assert s[j] == x;
    }
  }

  /** In a sequence without repeats, the elements before `k` are exactly those not found from `k` on. */
  lemma DistinctSplit<T>(s: seq<T>, k: nat)
    requires Distinct(s) && k <= |s|
    ensures Elems(s) - Elems(s[k..]) == Elems(s[..k])
  {
    ElemsSlices(s, k);
    forall x | x in Elems(s[..k]) ensures x !in Elems(s[k..]) {
      var i :| 0 <= i < k && s[..k][i] == x;
      assert forall j :: 0 <= j < |s| - k ==> s[k..][j] == s[k + j] && s[k + j] != s[i];
    }
    forall x | x in Elems(s) ensures x in Elems(s[k..]) || x in Elems(s[..k]) {
      var i :| 0 <= i < |s| && s[i] == x;
      if i >= k {
        assert s[k..][i - k] == x;
      } else {
        assert s[..k][i] == x;
      }
    }
  }

  /** A prefix of a sequence without repeats has none. */
  lemma DistinctPrefix<T>(s: seq<T>, k: nat)
    requires Distinct(s) && k <= |s|
    ensures Distinct(s[..k])
  {
    assert forall i :: 0 <= i < k ==> s[..k][i] == s[i];
  }

  /** A sequence that repeats nothing has as many elements as its length. */
  lemma {:induction false} DistinctCard<T>(s: seq<T>)
    requires Distinct(s)
    ensures |Elems(s)| == |s|
  {
    if s != [] {
      assert Elems(s) == {s[0]} + Elems(s[1..]);
      assert s[0] !in Elems(s[1..]);
      DistinctCard(s[1..]);
    }
  }

  /** The elements of a set in the order Python happens to iterate it. */
  ghost function Enumerate<T>(s: set<T>): seq<T>
    decreases |s|
  {
    if s == {} then [] else var x := Pick(s); [x] + Enumerate(s - {x})
  }

  /** Every element once. */
  lemma {:induction false} EnumerateSpec<T>(s: set<T>)
    ensures Elems(Enumerate(s)) == s && Distinct(Enumerate(s)) && |Enumerate(s)| == |s|
    decreases |s|
  {
    if s != {} {
      var x := Pick(s);
      EnumerateSpec(s - {x});
      ElemsCons(x, Enumerate(s - {x}));
      DistinctCons(x, Enumerate(s - {x}));
    }
  }
}
