/** Values shared by every part of the model: optional values, colours, the
    float-to-int truncation of Python's int() and C's static_cast<int>, and
    the list operations the source performs on Python lists and C++ vectors. */
module Basics {

  datatype Option<T> = None | Some(value: T)

  /** An RGB (or BGR) colour triple as the sources write them. */
  datatype Rgb = Rgb(r: int, g: int, b: int)

  const White: Rgb := Rgb(255, 255, 255)
  const Black: Rgb := Rgb(0, 0, 0)

  function Abs(r: real): real
  {
    if r < 0.0 then -r else r
  }

  function IntAbs(n: int): nat
  {
    if n < 0 then -n else n
  }

  /** int(f) in Python and static_cast<int>(f) in C++: truncation toward zero. */
  function Trunc(r: real): (n: int)
    ensures 0.0 <= r ==> n as real <= r < n as real + 1.0
    ensures r < 0.0 ==> n as real - 1.0 < r <= n as real
    ensures IntAbs(n) as real <= Abs(r)
  {
    if r >= 0.0 then r.Floor else -((-r).Floor)
  }

  /** No element occurs twice: a list of distinct objects. */
  predicate Distinct<T(==)>(s: seq<T>)
  {
    forall i, j :: 0 <= i < j < |s| ==> s[i] != s[j]
  }

  /** list.index(x): the position of the first occurrence of x, or |s| when
      x does not occur. */
  function FirstIndex<T(==)>(s: seq<T>, x: T): (i: nat)
    ensures i <= |s| && x !in s[..i]
    ensures i < |s| <==> x in s
    ensures i < |s| ==> s[i] == x
  {
    if s == [] then 0
    else if s[0] == x then 0
    else
      var i' := FirstIndex(s[1..], x);
      assert s[..i' + 1] == [s[0]] + s[1..][..i'];
      assert s == [s[0]] + s[1..];
      i' + 1
  }

  /** Python's list.remove(x): drops the FIRST occurrence of x (when x is absent
      the source would raise; here s is returned unchanged). */
  function Without<T(==)>(s: seq<T>, x: T): (r: seq<T>)
    ensures x !in s ==> r == s
    ensures x in s ==> |r| == |s| - 1
  {
    var i := FirstIndex(s, x);
    if i == |s| then s else s[..i] + s[i + 1..]
  }

  /** The elements of s that do not occur in r, in their order in s. */
  function FilterOut<T(==)>(s: seq<T>, r: seq<T>): (t: seq<T>)
    ensures |t| <= |s|
  {
    if s == [] then []
    else FilterOut(s[..|s| - 1], r) + (if s[|s| - 1] in r then [] else [s[|s| - 1]])
  }

  /** What FilterOut keeps: elements of s that r does not name, and all of them. */
  lemma {:induction false} FilterOutMembers<T>(s: seq<T>, r: seq<T>)
    ensures forall x | x in FilterOut(s, r) :: x in s && x !in r
    ensures forall x | x in s && x !in r :: x in FilterOut(s, r)
  {
    if s != [] {
      var init, last := s[..|s| - 1], s[|s| - 1];
      assert s == init + [last];
      FilterOutMembers(init, r);
    }
  }

  lemma {:induction false} FilterOutDistinct<T>(s: seq<T>, r: seq<T>)
    requires Distinct(s)
    ensures Distinct(FilterOut(s, r))
  {
    if s != [] {
      var init := s[..|s| - 1];
      assert Distinct(init);
      FilterOutDistinct(init, r);
      FilterOutMembers(init, r);
    }
  }

  /** Removing elements that are not there changes nothing. */
  lemma {:induction false} FilterOutAbsent<T>(s: seq<T>, r: seq<T>, extra: seq<T>)
    requires forall x | x in extra :: x !in s
    ensures FilterOut(s, r + extra) == FilterOut(s, r)
  {
    if s != [] {
      FilterOutAbsent(s[..|s| - 1], r, extra);
    }
  }

  lemma {:induction false} FilterOutNothing<T>(s: seq<T>, r: seq<T>)
    requires forall x | x in s :: x !in r
    ensures FilterOut(s, r) == s
  {
    if s != [] {
      FilterOutNothing(s[..|s| - 1], r);
    }
  }

  /** FilterOut processes s from its end: appending one element. */
  lemma FilterOutSnoc<T>(s: seq<T>, x: T, r: seq<T>)
    ensures FilterOut(s + [x], r) == FilterOut(s, r) + (if x in r then [] else [x])
  {
    assert (s + [x])[..|s|] == s;
  }

  lemma {:induction false} FilterOutTwice<T>(s: seq<T>, a: seq<T>, b: seq<T>)
    ensures FilterOut(FilterOut(s, a), b) == FilterOut(s, a + b)
  {
    if s != [] {
      var init, last := s[..|s| - 1], s[|s| - 1];
      assert s == init + [last];
      FilterOutTwice(init, a, b);
      FilterOutSnoc(init, last, a);
      FilterOutSnoc(init, last, a + b);
      var tail := if last in b then [] else [last];
      if last !in a {
        calc {
          FilterOut(FilterOut(s, a), b);
          FilterOut(FilterOut(init, a) + [last], b);
          { FilterOutSnoc(FilterOut(init, a), last, b); }
          FilterOut(FilterOut(init, a), b) + tail;
          FilterOut(init, a + b) + tail;
          { assert (last in a + b) == (last in b); }
          FilterOut(s, a + b);
        }
      } else {
        assert last in a + b;
        assert FilterOut(s, a) == FilterOut(init, a);
        assert FilterOut(s, a + b) == FilterOut(init, a + b);
      }
    }
  }

  /** On a list without repeats, list.remove(x) is filtering x out. */
  lemma WithoutIsFilterOut<T>(s: seq<T>, x: T)
    requires Distinct(s)
    ensures Without(s, x) == FilterOut(s, [x])
  {
    if x !in s {
      FilterOutNothing(s, [x]);
    } else {
      OrderKept(s, x, FirstIndex(s, x));
    }
  }

  lemma {:induction false} OrderKept<T>(s: seq<T>, x: T, i: int)
    requires Distinct(s) && 0 <= i < |s| && s[i] == x
    ensures FilterOut(s, [x]) == s[..i] + s[i + 1..]
  {
    var init, last := s[..|s| - 1], s[|s| - 1];
    assert s == init + [last];
    FilterOutSnoc(init, last, [x]);
    DistinctInit(s, i);
    if i == |s| - 1 {
      FilterOutNothing(init, [x]);
    } else {
      OrderKept(init, x, i);
      assert init[..i] == s[..i];
      assert s[i + 1..] == init[i + 1..] + [last];
    }
  }

  /** Dropping the last element of a list without repeats leaves a list
      without repeats, and the last element occurs nowhere before it. */
  lemma DistinctInit<T>(s: seq<T>, i: int)
    requires Distinct(s) && 0 <= i < |s|
    ensures Distinct(s[..|s| - 1])
    ensures i == |s| - 1 ==> s[i] !in s[..|s| - 1]
    ensures i < |s| - 1 ==> s[i] != s[|s| - 1]
  {
  }

  /** One more removal, on a list without repeats, filters one more element out. */
  lemma FilterOutStep<T>(s: seq<T>, r: seq<T>, x: T)
    requires Distinct(s)
    ensures Without(FilterOut(s, r), x) == FilterOut(s, r + [x])
  {
    var t := FilterOut(s, r);
    FilterOutDistinct(s, r);
    WithoutIsFilterOut(t, x);
    FilterOutTwice(s, r, [x]);
  }

  /** Filtering r out of a list without repeats drops at most |r| elements. */
  lemma {:induction false} FilterOutDropsAtMost<T>(s: seq<T>, r: seq<T>)
    requires Distinct(s)
    ensures |FilterOut(s, r)| >= |s| - |r|
  {
    if r == [] {
      FilterOutNothing(s, r);
    } else {
      var init, last := r[..|r| - 1], r[|r| - 1];
      assert r == init + [last];
      FilterOutDropsAtMost(s, init);
      FilterOutTwice(s, init, [last]);
      FilterOutDistinct(s, init);
      var t := FilterOut(s, init);
      if last in t {
        var i :| 0 <= i < |t| && t[i] == last;
        OrderKept(t, last, i);
      } else {
        FilterOutNothing(t, [last]);
      }
    }
  }

  /** Python's `for x in r: if x in s: s.remove(x)` on a list without repeats:
      the result keeps, in order, exactly the elements of s that r does not name. */
  method RemoveEach<T(==)>(s: seq<T>, r: seq<T>) returns (t: seq<T>)
    requires Distinct(s)
    ensures t == FilterOut(s, r) && Distinct(t)
  {
    t := s;
    FilterOutNothing(s, []);
    assert r[..0] == [];
    var i := 0;
    while i < |r|
      invariant 0 <= i <= |r|
      invariant t == FilterOut(s, r[..i])
    {
      FilterOutStep(s, r[..i], r[i]);
      if r[i] in t {
        t := Without(t, r[i]);
      }
      assert r[..i + 1] == r[..i] + [r[i]];
      i := i + 1;
    }
    assert r[..i] == r;
    FilterOutDistinct(s, r);
  }

  lemma PresentStep<T>(s: seq<T>, r: seq<T>, i: nat)
    requires Distinct(s) && Distinct(r) && i < |r| && r[i] in s
    ensures Without(FilterOut(s, r[..i]), r[i]) == FilterOut(s, r[..i + 1])
    ensures |FilterOut(s, r[..i + 1])| == |FilterOut(s, r[..i])| - 1
  {
    var done, x := r[..i], r[i];
    assert r[..i + 1] == done + [x];
    FilterOutStep(s, done, x);
    assert forall j | 0 <= j < i :: done[j] != x;
    FilterOutMembers(s, done);
    assert x in FilterOut(s, done);
  }

  /** Python's `for x in r: s.remove(x)` with no membership guard: list.remove
      raises unless x is still present, so r must name distinct elements of s.
      Exactly |r| elements go. */
  method RemoveEachPresent<T(==)>(s: seq<T>, r: seq<T>) returns (t: seq<T>)
    requires Distinct(s) && Distinct(r)
    requires forall x | x in r :: x in s
    ensures t == FilterOut(s, r) && Distinct(t)
    ensures |t| == |s| - |r|
  {
    t := s;
    FilterOutNothing(s, []);
    assert r[..0] == [];
    var i := 0;
    while i < |r|
      invariant 0 <= i <= |r|
      invariant t == FilterOut(s, r[..i])
      invariant |t| == |s| - i
    {
      PresentStep(s, r, i);
      t := Without(t, r[i]);
      i := i + 1;
    }
    assert r[..i] == r;
    FilterOutDistinct(s, r);
  }
}
