/** Finite sets. */
module Sets {

  /** The n numbers from a on. */
  ghost function Range(a: nat, n: nat): (r: set<nat>)
    ensures forall u :: u in r <==> a <= u < a + n
  {
    if n == 0 then {} else Range(a, n - 1) + {a + n - 1}
  }

  lemma {:induction false} RangeSize(a: nat, n: nat)
    ensures |Range(a, n)| == n
  {
    if n > 0 {
      RangeSize(a, n - 1);
    }
  }

  /** A subset is no larger. */
  lemma {:induction false} SubsetSize<T>(a: set<T>, b: set<T>)
    requires a <= b
    ensures |a| <= |b|
    decreases a
  {
    if a != {} {
      var x :| x in a;
      SubsetSize(a - {x}, b - {x});
    }
  }

  /** A one-to-one map into a set has no more keys than the set has elements. */
  lemma {:induction false} InjectionSize<K, V>(m: map<K, V>, target: set<V>)
    requires forall k :: k in m ==> m[k] in target
    requires forall k, l :: k in m && l in m && k != l ==> m[k] != m[l]
    ensures |m| <= |target|
    decreases |m|
  {
    if m != map[] {
      var k :| k in m;
      InjectionSize(m - {k}, target - {m[k]});
    }
  }

  /** A set of numbers below n that lacks one of them has fewer than n elements. */
  lemma OneMissing(s: set<nat>, n: nat, c: nat)
    requires c < n && c !in s && forall x :: x in s ==> x < n
    ensures |s| < n
  {
    RangeSize(0, n);
    hide Range;
    SubsetSize(s, Range(0, n) - {c});
  }

  lemma RangeAdds(s: set<nat>, a: nat, n: nat)
    requires forall u :: a <= u < a + n ==> u !in s
    ensures |s + Range(a, n)| == |s| + n
  {
    RangeSize(a, n);
    hide Range;
    assert s !! Range(a, n);
  }
}
