/**
 * Finite sets: the element a loop over an unordered collection takes next,
 * and the cardinality facts the proofs about counters rely on.
 */
module Sets {

  /** The element a loop over an unordered set reaches next: some element, fixed once and for all. */
  ghost function Pick<N>(todo: set<N>): (w: N)
    requires todo != {}
    ensures w in todo
  {
    var w :| w in todo; w
  }

  lemma SubsetCard<N>(a: set<N>, b: set<N>)
    requires a <= b
    ensures |a| <= |b|
  {
    if a != {} {
      var x :| x in a;
      SubsetCard(a - {x}, b - {x});
    }
  }

  /** Leaving out one element of the superset makes a subset strictly smaller. */
  lemma StrictSubsetCard<N>(a: set<N>, b: set<N>, x: N)
    requires a <= b && x in b && x !in a
    ensures |a| < |b|
  {
    SubsetCard(a, b - {x});
  }

  /** A subset as large as its superset is the whole superset. */
  lemma SubsetFull<N>(a: set<N>, b: set<N>)
    requires a <= b && |b| <= |a|
    ensures a == b
  {
    if a != b {
      var x :| x in b && x !in a;
      SubsetCard(a, b - {x});
    }
  }

  /** Adding one fresh element to `e` adds at most that element to `a * e`. */
  lemma InterAdd<N>(a: set<N>, e: set<N>, x: N)
    requires x !in e
    ensures |a * (e + {x})| == |a * e| + (if x in a then 1 else 0)
  {
    if x in a {
      assert a * (e + {x}) == (a * e) + {x};
    } else {
      assert a * (e + {x}) == a * e;
    }
  }

  /** `{f(a) for a in A}`. */
  function Image<T, U>(A: set<T>, f: T -> U): set<U> {
    set a | a in A :: f(a)
  }

  predicate Injective<T, U(==)>(A: set<T>, f: T -> U) {
    forall a, b :: a in A && b in A && f(a) == f(b) ==> a == b
  }

  /** An image is no larger than the set it comes from, and as large exactly when no two elements collide. */
  lemma {:induction false} ImageCard<T, U>(A: set<T>, f: T -> U)
    ensures |Image(A, f)| <= |A|
    ensures |Image(A, f)| == |A| <==> Injective(A, f)
    decreases |A|
  {
    if A != {} {
      var x :| x in A;
      var A' := A - {x};
      ImageCard(A', f);
      assert Image(A, f) == Image(A', f) + {f(x)};
      if f(x) in Image(A', f) {
        var a :| a in A' && f(a) == f(x);
        assert !Injective(A, f);
      } else {
        if Injective(A', f) {
          forall a, b | a in A && b in A && f(a) == f(b)
            ensures a == b
          {
            if a != x && b != x {
              assert a in A' && b in A';
            }
          }
        }
      }
    }
  }

  /**
   * An element of largest key: the element that sorts first under a
   * descending sort on the key (`key=lambda c: -cp[c]`), ties broken by the
   * unordered iteration.
   */
  ghost function MaxOf<C>(s: set<C>, cp: map<C, int>): (m: C)
    requires s != {} && s <= cp.Keys
    ensures m in s && forall c :: c in s ==> cp[c] <= cp[m]
  {
    var x := Pick(s);
    if s == {x} then x
    else
      var m := MaxOf(s - {x}, cp);
      if cp[m] < cp[x] then x else m
  }

  /** Maps with the same keys and the same value at every key are equal. */
  lemma MapExt<K, V>(a: map<K, V>, b: map<K, V>)
    requires a.Keys == b.Keys && forall k :: k in a ==> a[k] == b[k]
    ensures a == b
  {
  }
}
