/** Sequence helpers used by several models: Python's indexing, order-preserving
    filtering, counting and removal, and absence of duplicates. */
module Seqs {

  import opened Wrappers

  /** How Python lists and numpy arrays read the index `i` into a dimension of
      length `n`: negative indices count from the end, anything else outside
      the length is an IndexError (`None`). */
  function PyIndex(i: int, n: nat): (r: Option<nat>)
    ensures r.Some? <==> -(n as int) <= i < n
    ensures r.Some? ==> r.value < n && (r.value == i || r.value == i + n)
    ensures 0 <= i < n ==> r == Some(i)
  {
    if 0 <= i < n then Some(i)
    else if -(n as int) <= i < 0 then Some(i + n)
    else None
  }

  /** The elements of `s` that satisfy `keep`, in their original order. */
  function Filter<T>(keep: T -> bool, s: seq<T>): (r: seq<T>)
    ensures |r| <= |s|
  {
    if s == [] then []
    else Filter(keep, s[..|s| - 1]) + (if keep(s[|s| - 1]) then [s[|s| - 1]] else [])
  }

  /** No element occurs twice. */
  predicate Distinct<T(==)>(s: seq<T>) {
    forall i, j :: 0 <= i < j < |s| ==> s[i] != s[j]
  }

  /** The only element that may occur more than once is `v`. */
  predicate DistinctExcept<T(==)>(s: seq<T>, v: T) {
    forall i, j :: 0 <= i < j < |s| && s[i] == s[j] ==> s[i] == v
  }

  lemma FilterSnoc<T>(keep: T -> bool, s: seq<T>, x: T)
    ensures Filter(keep, s + [x]) == Filter(keep, s) + (if keep(x) then [x] else [])
  {
    assert (s + [x])[..|s|] == s;
  }

  /** Filtering also peels off the front element. */
  lemma {:induction false} FilterCons<T>(keep: T -> bool, x: T, s: seq<T>)
    ensures Filter(keep, [x] + s) == (if keep(x) then [x] else []) + Filter(keep, s)
    decreases |s|
  {
    if s == [] {
      assert [x] + s == [] + [x];
      FilterSnoc(keep, [], x);
    } else {
      var init := s[..|s| - 1];
      var last := s[|s| - 1];
      assert s == init + [last];
      assert [x] + s == ([x] + init) + [last];
      FilterSnoc(keep, [x] + init, last);
      FilterCons(keep, x, init);
      FilterSnoc(keep, init, last);
    }
  }

  /** Filtering keeps exactly the members that pass the test. */
  lemma {:induction false} FilterMembers<T>(keep: T -> bool, s: seq<T>)
    ensures forall x :: x in Filter(keep, s) <==> x in s && keep(x)
  {
    if s != [] {
      var init := s[..|s| - 1];
      FilterMembers(keep, init);
      assert s == init + [s[|s| - 1]];
    }
  }

  /** A filter that drops every value that repeats leaves a duplicate-free sequence. */
  lemma {:induction false} FilterDistinct<T>(keep: T -> bool, s: seq<T>)
    requires forall i, j :: 0 <= i < j < |s| && s[i] == s[j] ==> !keep(s[i])
    ensures Distinct(Filter(keep, s))
  {
    if s != [] {
      var init := s[..|s| - 1];
      assert forall i, j :: 0 <= i < j < |init| && init[i] == init[j] ==> !keep(init[i]) by {
        forall i, j | 0 <= i < j < |init| && init[i] == init[j] ensures !keep(init[i]) {
          assert s[i] == init[i] && s[j] == init[j];
        }
      }
      FilterDistinct(keep, init);
      FilterMembers(keep, init);
    }
  }

  lemma DistinctExceptSnoc<T>(s: seq<T>, v: T, x: T)
    requires DistinctExcept(s, v) && (x in s ==> x == v)
    ensures DistinctExcept(s + [x], v)
  {
  }

  /** Dropping the copies of a single value shortens the sequence by its count. */
  lemma {:induction false} FilterDropsCount<T>(keep: T -> bool, s: seq<T>, v: T)
    requires forall x :: keep(x) <==> x != v
    ensures |Filter(keep, s)| == |s| - multiset(s)[v]
  {
    if s != [] {
      var init := s[..|s| - 1];
      FilterDropsCount(keep, init, v);
      assert s == init + [s[|s| - 1]];
    }
  }

  /** How many times `x` occurs in `s`, as Python's `list.count(x)`. */
  function Count<T(==)>(s: seq<T>, x: T): (c: nat)
    ensures c <= |s|
    ensures c == 0 <==> x !in s
    decreases |s|
  {
    if s == [] then 0 else Count(s[..|s| - 1], x) + (if s[|s| - 1] == x then 1 else 0)
  }

  lemma CountSnoc<T>(s: seq<T>, y: T, x: T)
    ensures Count(s + [y], x) == Count(s, x) + (if y == x then 1 else 0)
  {
    assert (s + [y])[..|s|] == s;
  }

  lemma CountPrefix<T>(s: seq<T>, k: int, x: T)
    requires 0 <= k < |s|
    ensures Count(s[..k + 1], x) == Count(s[..k], x) + (if s[k] == x then 1 else 0)
  {
    assert s[..k + 1][..k] == s[..k];
  }

  lemma {:induction false} CountAppend<T>(a: seq<T>, b: seq<T>, x: T)
    ensures Count(a + b, x) == Count(a, x) + Count(b, x)
    decreases |b|
  {
    if b == [] {
      assert a + b == a;
    } else {
      var init, last := b[..|b| - 1], b[|b| - 1];
      assert b == init + [last];
      assert a + b == (a + init) + [last];
      CountSnoc(a + init, last, x);
      CountSnoc(init, last, x);
      CountAppend(a, init, x);
    }
  }

  /** Taking one element out of the middle lowers its count by one. */
  lemma CountRemoveAt<T>(a: seq<T>, v: T, b: seq<T>, x: T)
    ensures Count(a + [v] + b, x) == Count(a + b, x) + (if v == x then 1 else 0)
  {
    CountAppend(a + [v], b, x);
    CountAppend(a, [v], x);
    CountAppend(a, b, x);
    assert Count([v], x) == Count([], x) + (if v == x then 1 else 0);
  }

  /** Filtering keeps every copy of a value that passes and none of one that fails. */
  lemma {:induction false} FilterCount<T>(keep: T -> bool, s: seq<T>, x: T)
    ensures Count(Filter(keep, s), x) == if keep(x) then Count(s, x) else 0
    decreases |s|
  {
    if s != [] {
      var init, last := s[..|s| - 1], s[|s| - 1];
      FilterCount(keep, init, x);
      if keep(last) {
        assert Filter(keep, s) == Filter(keep, init) + [last];
        CountSnoc(Filter(keep, init), last, x);
      } else {
        assert Filter(keep, s) == Filter(keep, init) + [];
        assert Filter(keep, init) + [] == Filter(keep, init);
      }
    }
  }

  /** Python's `list.remove(v)`: drop the first copy of `v`; `None` stands for
      the ValueError raised when there is none. */
  function RemoveFirst<T(==)>(s: seq<T>, v: T): (r: Option<seq<T>>)
    ensures r.None? <==> v !in s
  {
    if s == [] then None
    else if s[0] == v then Some(s[1..])
    else
      match RemoveFirst(s[1..], v)
      case None => None
      case Some(t) => Some([s[0]] + t)
  }

  /** A successful removal takes away exactly one copy of `v`. */
  lemma {:induction false} RemoveFirstCounts<T>(s: seq<T>, v: T)
    requires v in s
    ensures multiset(RemoveFirst(s, v).value) == multiset(s) - multiset{v}
  {
    assert s == [s[0]] + s[1..];
    if s[0] != v {
      RemoveFirstCounts(s[1..], v);
    }
  }

  /** When `v` does not occur before a given copy, that copy is the one removed. */
  lemma {:induction false} RemoveFirstAt<T>(a: seq<T>, v: T, b: seq<T>)
    requires v !in a
    ensures RemoveFirst(a + [v] + b, v) == Some(a + b)
  {
    var t := a + [v] + b;
    if a == [] {
      assert t == [v] + b && t[1..] == b && t[0] == v;
      assert a + b == b;
    } else {
      assert t[0] == a[0] && a[0] != v;
      assert t[1..] == a[1..] + [v] + b;
      RemoveFirstAt(a[1..], v, b);
      assert RemoveFirst(t[1..], v) == Some(a[1..] + b);
      assert a + b == [a[0]] + (a[1..] + b);
    }
  }
}
