/**
 * `sortDutiesById`: `duties.sort((a, b) => a.id - b.id)`. ECMA-262 (section
 * 23.1.3.30 of the 2023 edition) requires `Array.prototype.sort` to be stable,
 * so the specification is `IsStableSortOf`; `StableSortUnique` shows that it
 * has exactly one solution, so the insertion sort below is as good a model as
 * any other stable sort.
 */
module Sorting {
  import opened Seqs
  import opened Duties

  /** Ids never decrease along the sequence. */
  predicate SortedById(s: seq<Duty>) {
    forall i, j :: 0 <= i < j < |s| ==> s[i].id <= s[j].id
  }

  /** Records with the same id appear in `r` in the same order as in `s`. */
  ghost predicate SameOrderPerId(r: seq<Duty>, s: seq<Duty>) {
    forall k :: Filter(HasId(k), r) == Filter(HasId(k), s)
  }

  /** `r` is the result of a stable ascending sort of `s` by id. */
  ghost predicate IsStableSortOf(r: seq<Duty>, s: seq<Duty>) {
    SortedById(r) && SameOrderPerId(r, s)
  }

  /** Place `d` before the first record whose id is not smaller than its own. */
  function InsertById(d: Duty, s: seq<Duty>): (r: seq<Duty>)
    ensures |r| == |s| + 1
    ensures multiset(r) == multiset(s) + multiset{d}
    ensures forall x :: x in r <==> x == d || x in s
  {
    if |s| == 0 then [d]
    else if d.id <= s[0].id then [d] + s
    else
      assert s == [s[0]] + s[1..];
      [s[0]] + InsertById(d, s[1..])
  }

  /** Inserting into a sorted sequence keeps it sorted. */
  lemma {:induction false} InsertSorted(d: Duty, s: seq<Duty>)
    requires SortedById(s)
    ensures SortedById(InsertById(d, s))
    decreases |s|
  {
    if |s| > 0 && d.id > s[0].id {
      InsertSorted(d, s[1..]);
      var t := InsertById(d, s[1..]);
      forall j | 0 <= j < |t| ensures s[0].id <= t[j].id {
        assert t[j] in t;
        if t[j] != d {
          var i :| 0 <= i < |s[1..]| && s[1..][i] == t[j];
          assert s[i + 1] == t[j];
        }
      }
      var r := InsertById(d, s);
      assert r == [s[0]] + t;
      forall i, j | 0 <= i < j < |r| ensures r[i].id <= r[j].id {
        assert r[j] == t[j - 1];
        if i > 0 { assert r[i] == t[i - 1]; }
      }
    }
  }

  /** `sortDutiesById` (src/app/edit/page.tsx), also the inline sorts of the browse page and `loadDuties`. */
  function SortDutiesById(s: seq<Duty>): (r: seq<Duty>)
    ensures |r| == |s|
    ensures multiset(r) == multiset(s)
    ensures SortedById(r)
  {
    if |s| == 0 then []
    else
      assert s == [s[0]] + s[1..];
      InsertSorted(s[0], SortDutiesById(s[1..]));
      InsertById(s[0], SortDutiesById(s[1..]))
  }

  /** Inserting `d` puts it ahead of every record already there with the same id. */
  lemma {:induction false} InsertKeepsIdOrder(d: Duty, s: seq<Duty>, k: int)
    ensures Filter(HasId(k), InsertById(d, s)) == (if d.id == k then [d] else []) + Filter(HasId(k), s)
    decreases |s|
  {
    var p := HasId(k);
    if |s| == 0 {
      assert InsertById(d, s) == [d] + s;
      FilterCons(p, d, s);
    } else if d.id <= s[0].id {
      assert InsertById(d, s) == [d] + s;
      FilterCons(p, d, s);
    } else {
      InsertKeepsIdOrder(d, s[1..], k);
      var t := InsertById(d, s[1..]);
      assert InsertById(d, s) == [s[0]] + t;
      FilterCons(p, s[0], t);
      FilterCons(p, s[0], s[1..]);
      assert [s[0]] + s[1..] == s;
      if d.id == k {
        assert !p(s[0]);
      }
    }
  }

  /** Sorting keeps records with equal ids in their input order. */
  lemma {:induction false} SortKeepsIdOrder(s: seq<Duty>, k: int)
    ensures Filter(HasId(k), SortDutiesById(s)) == Filter(HasId(k), s)
    decreases |s|
  {
    if |s| > 0 {
      SortKeepsIdOrder(s[1..], k);
      InsertKeepsIdOrder(s[0], SortDutiesById(s[1..]), k);
    }
  }

  /** The model meets the specification of a stable sort. */
  lemma SortIsStable(s: seq<Duty>)
    ensures IsStableSortOf(SortDutiesById(s), s)
  {
    forall k ensures Filter(HasId(k), SortDutiesById(s)) == Filter(HasId(k), s) {
      SortKeepsIdOrder(s, k);
    }
  }

  /** Keeping every id's records in order keeps every record: a permutation. */
  lemma SameOrderPerIdPermutes(r: seq<Duty>, s: seq<Duty>)
    requires SameOrderPerId(r, s)
    ensures multiset(r) == multiset(s)
  {
    forall x ensures multiset(r)[x] == multiset(s)[x] {
      FilterCount(HasId(x.id), r, x);
      FilterCount(HasId(x.id), s, x);
    }
  }

  /** Two sorted non-empty sequences that agree on each id's records start with the same id. */
  lemma SortedSameOrderHeadId(a: seq<Duty>, b: seq<Duty>)
    requires |a| > 0 && |b| > 0
    requires SortedById(a) && SortedById(b)
    requires SameOrderPerId(a, b)
    ensures a[0].id == b[0].id
  {
    assert a[0] in Filter(HasId(a[0].id), b);
    assert b[0] in Filter(HasId(b[0].id), a);
  }

  /** Equal head ids and equal per-id order give equal heads and tails that still agree. */
  lemma SameOrderTails(a: seq<Duty>, b: seq<Duty>)
    requires |a| > 0 && |b| > 0 && a[0].id == b[0].id
    requires SameOrderPerId(a, b)
    ensures a[0] == b[0]
    ensures SameOrderPerId(a[1..], b[1..])
  {
    var k := a[0].id;
    assert Filter(HasId(k), a) == [a[0]] + Filter(HasId(k), a[1..]);
    assert Filter(HasId(k), b) == [b[0]] + Filter(HasId(k), b[1..]);
    assert a[0] == Filter(HasId(k), a)[0] == Filter(HasId(k), b)[0] == b[0];
    forall k' ensures Filter(HasId(k'), a[1..]) == Filter(HasId(k'), b[1..]) {
      var h := if a[0].id == k' then [a[0]] else [];
      var x, y := Filter(HasId(k'), a[1..]), Filter(HasId(k'), b[1..]);
      assert Filter(HasId(k'), a) == h + x;
      assert Filter(HasId(k'), b) == h + y;
      assert (h + x)[|h|..] == x && (h + y)[|h|..] == y;
    }
  }

  /** Two sorted sequences that agree on the order of every id's records are equal. */
  lemma {:induction false} SortedSameOrderEqual(a: seq<Duty>, b: seq<Duty>)
    requires SortedById(a) && SortedById(b)
    requires SameOrderPerId(a, b)
    ensures a == b
    decreases |a|
  {
    SameOrderPerIdPermutes(a, b);
    assert |a| == |multiset(a)| == |multiset(b)| == |b|;
    if |a| > 0 {
      SortedSameOrderHeadId(a, b);
      SameOrderTails(a, b);
      SortedSameOrderEqual(a[1..], b[1..]);
      assert a == [a[0]] + a[1..] && b == [b[0]] + b[1..];
    }
  }

  /** A stable sort has exactly one result, so every stable sort agrees with `SortDutiesById`. */
  lemma StableSortUnique(r: seq<Duty>, s: seq<Duty>)
    requires IsStableSortOf(r, s)
    ensures r == SortDutiesById(s)
  {
    SortIsStable(s);
    SortedSameOrderEqual(r, SortDutiesById(s));
  }

  /** Sorting a sorted sequence changes nothing. */
  lemma SortSorted(s: seq<Duty>)
    requires SortedById(s)
    ensures SortDutiesById(s) == s
  {
    StableSortUnique(s, s);
  }

  /** Sorting twice is sorting once. */
  lemma SortIdempotent(s: seq<Duty>)
    ensures SortDutiesById(SortDutiesById(s)) == SortDutiesById(s)
  {
    SortSorted(SortDutiesById(s));
  }

  /** Appending a record with a greater id than all others keeps a sequence sorted. */
  lemma AppendGreatestSorted(t: seq<Duty>, d: Duty)
    requires SortedById(t)
    requires forall i :: 0 <= i < |t| ==> t[i].id < d.id
    ensures SortedById(t + [d])
  {
    var r := t + [d];
    forall i, j | 0 <= i < j < |r| ensures r[i].id <= r[j].id {
      assert r[i] == t[i];
      if j < |t| { assert r[j] == t[j]; }
    }
  }

  /** A record whose id exceeds every other id ends up last, after the others in sorted order. */
  lemma SortAppendGreatest(s: seq<Duty>, d: Duty)
    requires forall i :: 0 <= i < |s| ==> s[i].id < d.id
    ensures SortDutiesById(s + [d]) == SortDutiesById(s) + [d]
  {
    var t := SortDutiesById(s);
    var r := t + [d];
    forall i | 0 <= i < |t| ensures t[i].id < d.id {
      assert t[i] in multiset(s);
      var j :| 0 <= j < |s| && s[j] == t[i];
    }
    AppendGreatestSorted(t, d);
    forall k ensures Filter(HasId(k), r) == Filter(HasId(k), s + [d]) {
      FilterConcat(HasId(k), t, [d]);
      FilterConcat(HasId(k), s, [d]);
      SortKeepsIdOrder(s, k);
    }
    StableSortUnique(r, s + [d]);
  }
}
