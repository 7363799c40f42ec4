/** Small shared vocabulary: an optional value (Python's `None`) and the
    list-comprehension shapes `[x for x in s if p(x)]` and
    `[f(x) for x in s if p(x)]`, with the facts the rest of the model needs
    about them. */
module Common {

  datatype Option<+T> = None | Some(value: T) {
    function GetOr(default: T): T {
      match this
      case Some(v) => v
      case None => default
    }
  }

  /** `[f(x) for x in s]` */
  function Map<T, U>(s: seq<T>, f: T -> U): (r: seq<U>)
    ensures |r| == |s|
    ensures forall i :: 0 <= i < |s| ==> r[i] == f(s[i])
  {
    seq(|s|, i requires 0 <= i < |s| => f(s[i]))
  }

  /** `[f(x) for x in s if p(x)]` */
  function FilterMap<T, U>(s: seq<T>, p: T -> bool, f: T -> U): (r: seq<U>)
    ensures |r| <= |s|
  {
    if s == [] then []
    else (if p(s[0]) then [f(s[0])] else []) + FilterMap(s[1..], p, f)
  }

  /** What the comprehension holds: the images of exactly the elements that
      pass the condition. */
  lemma {:induction false} FilterMapMembers<T, U>(s: seq<T>, p: T -> bool, f: T -> U)
    ensures forall y :: y in FilterMap(s, p, f) ==> exists x :: x in s && p(x) && y == f(x)
    ensures forall x :: x in s && p(x) ==> f(x) in FilterMap(s, p, f)
    decreases |s|
  {
    if s != [] {
      FilterMapMembers(s[1..], p, f);
    }
  }

  /** `[x for x in s if p(x)]` */
  function Filter<T>(s: seq<T>, p: T -> bool): (r: seq<T>)
    ensures |r| <= |s|
    ensures forall x :: x in r ==> x in s && p(x)
    ensures forall x :: x in s && p(x) ==> x in r
  {
    if s == [] then []
    else (if p(s[0]) then [s[0]] else []) + Filter(s[1..], p)
  }

  /** `a` is `b` with some elements left out, the rest in their order. */
  predicate IsSubsequence<T(==)>(a: seq<T>, b: seq<T>)
    decreases |b|
  {
    if a == [] then true
    else if b == [] then false
    else (a[0] == b[0] && IsSubsequence(a[1..], b[1..])) || IsSubsequence(a, b[1..])
  }

  lemma AppendAssociative<T>(a: seq<T>, b: seq<T>, c: seq<T>)
    ensures a + (b + c) == (a + b) + c
  {
  }

  lemma {:induction false} FilterMapAppend<T, U>(a: seq<T>, b: seq<T>, p: T -> bool, f: T -> U)
    ensures FilterMap(a + b, p, f) == FilterMap(a, p, f) + FilterMap(b, p, f)
    decreases |a|
  {
    if a == [] {
      assert a + b == b;
    } else {
      assert (a + b)[0] == a[0];
      assert (a + b)[1..] == a[1..] + b;
      FilterMapAppend(a[1..], b, p, f);
      var head := if p(a[0]) then [f(a[0])] else [];
      assert FilterMap(a + b, p, f) == head + FilterMap(a[1..] + b, p, f);
      AppendAssociative(head, FilterMap(a[1..], p, f), FilterMap(b, p, f));
    }
  }

  lemma {:induction false} FilterAppend<T>(a: seq<T>, b: seq<T>, p: T -> bool)
    ensures Filter(a + b, p) == Filter(a, p) + Filter(b, p)
    decreases |a|
  {
    if a == [] {
      assert a + b == b;
    } else {
      assert (a + b)[0] == a[0];
      assert (a + b)[1..] == a[1..] + b;
      FilterAppend(a[1..], b, p);
      var head := if p(a[0]) then [a[0]] else [];
      assert Filter(a + b, p) == head + Filter(a[1..] + b, p);
      AppendAssociative(head, Filter(a[1..], p), Filter(b, p));
    }
  }

  /** One more element of `s` seen by a loop that filters it. */
  lemma FilterSnoc<T>(s: seq<T>, i: nat, p: T -> bool)
    requires i < |s|
    ensures Filter(s[..i + 1], p) == Filter(s[..i], p) + (if p(s[i]) then [s[i]] else [])
  {
    assert s[..i + 1] == s[..i] + [s[i]];
    FilterAppend(s[..i], [s[i]], p);
    assert [s[i]][1..] == [];
  }

  /** The comprehension keeps input order: its result is a subsequence of
      `[f(x) for x in s]`. */
  lemma {:induction false} FilterMapIsSubsequence<T, U>(s: seq<T>, p: T -> bool, f: T -> U)
    ensures IsSubsequence(FilterMap(s, p, f), Map(s, f))
    decreases |s|
  {
    if s != [] {
      FilterMapIsSubsequence(s[1..], p, f);
      assert Map(s, f)[1..] == Map(s[1..], f);
      var rest := FilterMap(s[1..], p, f);
      if p(s[0]) {
        assert FilterMap(s, p, f) == [f(s[0])] + rest;
        assert ([f(s[0])] + rest)[1..] == rest;
      } else {
        assert FilterMap(s, p, f) == rest;
        SkipHead(rest, Map(s, f));
      }
    }
  }

  /** Dropping the first element of the longer sequence keeps a subsequence
      that did not use it. */
  lemma SkipHead<T>(a: seq<T>, b: seq<T>)
    requires b != [] && IsSubsequence(a, b[1..])
    ensures IsSubsequence(a, b)
  {
  }

  /** Filtering then mapping by a second filter is one comprehension with
      both conditions. */
  lemma {:induction false} FilterOfFilterMap<T, U>(s: seq<T>, p: T -> bool, f: T -> U, q: U -> bool, pq: T -> bool)
    requires forall x :: pq(x) == (p(x) && q(f(x)))
    ensures Filter(FilterMap(s, p, f), q) == FilterMap(s, pq, f)
    decreases |s|
  {
    if s != [] {
      FilterOfFilterMap(s[1..], p, f, q, pq);
      var head := if p(s[0]) then [f(s[0])] else [];
      FilterAppend(head, FilterMap(s[1..], p, f), q);
      if p(s[0]) {
        assert Filter(head, q) == (if q(f(s[0])) then [f(s[0])] else []) + Filter([], q);
      }
    }
  }
}
