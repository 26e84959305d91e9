/**
 * Generic sequence operations shared by the catalog: `Array.prototype.filter`
 * and `Array.prototype.findIndex`, each with a characterisation that does not
 * mention its own body.
 */
module Seqs {

  /** The elements of `s` that satisfy `p`, in their order in `s`. */
  function Filter<T(!new)>(p: T -> bool, s: seq<T>): (r: seq<T>)
    ensures |r| <= |s|
    ensures forall x :: x in r <==> x in s && p(x)
  {
    if |s| == 0 then []
    else (if p(s[0]) then [s[0]] else []) + Filter(p, s[1..])
  }

  /** Filter keeps every occurrence of what passes and no occurrence of anything else. */
  lemma {:induction false} FilterCount<T(!new)>(p: T -> bool, s: seq<T>, x: T)
    ensures multiset(Filter(p, s))[x] == if p(x) then multiset(s)[x] else 0
    decreases |s|
  {
    if |s| > 0 {
      FilterCount(p, s[1..], x);
      assert s == [s[0]] + s[1..];
    }
  }

  /** One step of Filter, on a sequence written as head and tail. */
  lemma FilterCons<T(!new)>(p: T -> bool, x: T, s: seq<T>)
    ensures Filter(p, [x] + s) == (if p(x) then [x] else []) + Filter(p, s)
  {
    assert ([x] + s)[0] == x && ([x] + s)[1..] == s;
  }

  /**
   * Filter is a homomorphism from `++` to `++`. Together with its value on
   * one-element sequences this fixes it completely, so it is the statement
   * that Filter keeps the relative order of what it keeps.
   */
  lemma {:induction false} FilterConcat<T(!new)>(p: T -> bool, a: seq<T>, b: seq<T>)
    ensures Filter(p, a + b) == Filter(p, a) + Filter(p, b)
    decreases |a|
  {
    if |a| == 0 {
      assert a + b == b;
    } else {
      var h := if p(a[0]) then [a[0]] else [];
      assert (a + b)[0] == a[0];
      assert (a + b)[1..] == a[1..] + b;
      calc {
        Filter(p, a + b);
        h + Filter(p, a[1..] + b);
        { FilterConcat(p, a[1..], b); }
        h + (Filter(p, a[1..]) + Filter(p, b));
        (h + Filter(p, a[1..])) + Filter(p, b);
      }
    }
  }

  /** Filter on a sequence whose every element passes returns it unchanged. */
  lemma {:induction false} FilterAll<T(!new)>(p: T -> bool, s: seq<T>)
    requires forall i :: 0 <= i < |s| ==> p(s[i])
    ensures Filter(p, s) == s
    decreases |s|
  {
    if |s| > 0 {
      FilterAll(p, s[1..]);
    }
  }

  /** Filter on a sequence where nothing passes returns the empty sequence. */
  lemma {:induction false} FilterNone<T(!new)>(p: T -> bool, s: seq<T>)
    requires forall i :: 0 <= i < |s| ==> !p(s[i])
    ensures Filter(p, s) == []
    decreases |s|
  {
    if |s| > 0 {
      FilterNone(p, s[1..]);
    }
  }

  /** Filtering twice by the same predicate is filtering once. */
  lemma FilterIdempotent<T(!new)>(p: T -> bool, s: seq<T>)
    ensures Filter(p, Filter(p, s)) == Filter(p, s)
  {
    var r := Filter(p, s);
    forall i | 0 <= i < |r|
      ensures p(r[i])
    {
      assert r[i] in r;
    }
    FilterAll(p, r);
  }

  /** Two predicates that agree everywhere filter alike. */
  lemma {:induction false} FilterCongruent<T(!new)>(p: T -> bool, q: T -> bool, s: seq<T>)
    requires forall x :: p(x) == q(x)
    ensures Filter(p, s) == Filter(q, s)
    decreases |s|
  {
    if |s| > 0 {
      FilterCongruent(p, q, s[1..]);
    }
  }

  /** Two different positions that pass leave at least two elements. */
  lemma {:induction false} TwoMatchesTwoElements<T(!new)>(p: T -> bool, s: seq<T>, i: int, j: int)
    requires 0 <= i < |s| && 0 <= j < |s| && i != j
    requires p(s[i]) && p(s[j])
    ensures |Filter(p, s)| >= 2
    decreases |s|
  {
    if i == 0 {
      assert s[j] == s[1..][j - 1];
      assert s[j] in Filter(p, s[1..]);
    } else if j == 0 {
      assert s[i] == s[1..][i - 1];
      assert s[i] in Filter(p, s[1..]);
    } else {
      TwoMatchesTwoElements(p, s[1..], i - 1, j - 1);
    }
  }

  /**
   * The position of the first element of `s` that satisfies `p`, or -1 when
   * there is none, as `findIndex` returns it.
   */
  function FirstIndex<T>(p: T -> bool, s: seq<T>): (r: int)
    ensures -1 <= r < |s|
    ensures r == -1 <==> forall i :: 0 <= i < |s| ==> !p(s[i])
    ensures r >= 0 ==> p(s[r]) && forall j :: 0 <= j < r ==> !p(s[j])
  {
    if |s| == 0 then -1
    else if p(s[0]) then 0
    else
      var k := FirstIndex(p, s[1..]);
      if k == -1 then -1 else k + 1
  }

  /** The first match in `a + b` is the first match in `a`, else the first in `b`. */
  lemma {:induction false} FirstIndexConcat<T>(p: T -> bool, a: seq<T>, b: seq<T>)
    ensures FirstIndex(p, a) >= 0 ==> FirstIndex(p, a + b) == FirstIndex(p, a)
    ensures FirstIndex(p, a) == -1 ==>
              FirstIndex(p, a + b) == if FirstIndex(p, b) == -1 then -1 else |a| + FirstIndex(p, b)
    decreases |a|
  {
    if |a| == 0 {
      assert a + b == b;
    } else {
      assert (a + b)[0] == a[0];
      assert (a + b)[1..] == a[1..] + b;
      FirstIndexConcat(p, a[1..], b);
    }
  }

  /** `s.filter((_, i) => i !== index)`: an index outside `s` removes nothing. */
  function DropAt<T>(s: seq<T>, index: int): (r: seq<T>)
    ensures 0 <= index < |s| ==> r == s[..index] + s[index + 1..]
    ensures !(0 <= index < |s|) ==> r == s
  {
    if |s| == 0 then []
    else if index == 0 then s[1..]
    else
      assert s == [s[0]] + s[1..];
      [s[0]] + DropAt(s[1..], index - 1)
  }
}
