/** Sequence and set helpers shared by the pipeline: filtering a listing the way a
    list comprehension does, and enumerating a finite set in an order of the
    system's choosing (the order `os.listdir` and `os.walk` report). */
module Collections {

  /** No element occurs twice. */
  predicate Distinct<T(==)>(s: seq<T>) {
    forall i, j :: 0 <= i < j < |s| ==> s[i] != s[j]
  }

  /** `q` lists every element of `s` exactly once, in some order. */
  predicate IsEnumeration<T(==, !new)>(q: seq<T>, s: set<T>) {
    && Distinct(q)
    && (forall x :: x in q ==> x in s)
    && (forall x :: x in s ==> x in q)
  }

  /** `[x for x in s if keep(x)]`: the elements of `s` that `keep` accepts, in
      their original order. */
  function Filter<T(==, !new)>(s: seq<T>, keep: T -> bool): (r: seq<T>)
    ensures |r| <= |s|
    ensures forall x :: x in r <==> x in s && keep(x)
  {
    if s == [] then []
    else
      var rest := Filter(s[1..], keep);
      assert forall x :: x in s <==> x == s[0] || x in s[1..];
      if keep(s[0]) then [s[0]] + rest else rest
  }

  /** Filtering keeps each accepted element as often as it occurs and drops
      every other one. */
  lemma {:induction false} FilterCounts<T(!new)>(s: seq<T>, keep: T -> bool)
    ensures forall x :: multiset(Filter(s, keep))[x] == if keep(x) then multiset(s)[x] else 0
  {
    if s != [] {
      FilterCounts(s[1..], keep);
      assert s == [s[0]] + s[1..];
      assert multiset(s) == multiset{s[0]} + multiset(s[1..]);
    }
  }

  /** Filtering distributes over concatenation, so the accepted elements keep
      their relative order. */
  lemma {:induction false} FilterAppend<T(!new)>(s: seq<T>, t: seq<T>, keep: T -> bool)
    ensures Filter(s + t, keep) == Filter(s, keep) + Filter(t, keep)
  {
    if s != [] {
      assert (s + t)[1..] == s[1..] + t;
      FilterAppend(s[1..], t, keep);
    } else {
      assert s + t == t;
    }
  }

  /** A listing whose every element is accepted passes through unchanged. */
  lemma {:induction false} FilterAll<T(!new)>(s: seq<T>, keep: T -> bool)
    requires forall k :: 0 <= k < |s| ==> keep(s[k])
    ensures Filter(s, keep) == s
  {
    if s != [] {
      FilterAll(s[1..], keep);
    }
  }

  /** Filtering a listing without repetitions gives one without repetitions. */
  lemma {:induction false} FilterDistinct<T(!new)>(s: seq<T>, keep: T -> bool)
    ensures Distinct(s) ==> Distinct(Filter(s, keep))
  {
    if s != [] && Distinct(s) {
      FilterDistinct(s[1..], keep);
      assert s[0] !in s[1..];
    }
  }

  /** Lists the elements of a finite set, one at a time, in whatever order the
      choice operator picks; callers see only that every element is listed once. */
  method Enumerate<T(==, !new)>(s: set<T>) returns (q: seq<T>)
    ensures IsEnumeration(q, s)
  {
    q := [];
    var rest := s;
    while rest != {}
      invariant rest <= s
      invariant Distinct(q)
      invariant forall x :: x in q <==> x in s && x !in rest
      decreases rest
    {
      var x :| x in rest;
      q := q + [x];
      rest := rest - {x};
    }
  }
}
