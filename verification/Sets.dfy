/** Sizes of finite sets. */
module Sets {
  lemma {:induction false} SubsetSize<T>(a: set<T>, b: set<T>)
    requires a <= b
    ensures |a| <= |b|
    decreases |a|
  {
    if x :| x in a {
      SubsetSize(a - {x}, b - {x});
    }
  }

  /** The naturals below n. */
  function Below(n: nat): (r: set<nat>)
    ensures |r| == n && forall k :: k in r <==> 0 <= k < n
  {
    if n == 0 then {} else Below(n - 1) + {n - 1}
  }

  ghost predicate Simple<T>(s: seq<T>) {
    forall j, k | 0 <= j < k < |s| :: s[j] != s[k]
  }

  function Elements<T(!new)>(s: seq<T>): (r: set<T>)
    ensures forall x :: x in r <==> x in s
  {
    if s == [] then {} else Elements(s[..|s| - 1]) + {s[|s| - 1]}
  }

  lemma {:induction false} SimpleSize<T(!new)>(s: seq<T>)
    requires Simple(s)
    ensures |Elements(s)| == |s|
    decreases |s|
  {
    if s != [] {
      SimpleSize(s[..|s| - 1]);
    }
  }

  /** A sequence without repeats over the first n naturals is no longer than n. */
  lemma SimpleFits(s: seq<nat>, n: nat)
    requires Simple(s) && forall k | 0 <= k < |s| :: s[k] < n
    ensures |s| <= n
  {
    SimpleSize(s);
    SubsetSize(Elements(s), Below(n));
  }
}
