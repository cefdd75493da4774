/**
 * The chronological sorter of SalemFinance.py: a recursive merge sort of the
 * daily quotes on their Date key, overwriting the list in place.
 */
module MergeSort {

  /**
   * One daily quote as read from the CSV file. The date is a day ordinal and
   * the prices are in cents; only `date` takes part in the sort.
   */
  datatype Quote = Quote(date: int, last: int, volume: int, open: int, high: int, low: int)

  /** Dates never decrease from left to right. */
  predicate SortedByDate(s: seq<Quote>) {
    forall i, j :: 0 <= i < j < |s| ==> s[i].date <= s[j].date
  }

  /**
   * The merge step, from the heads i and j of the two halves: the left head is
   * taken only when its date is strictly earlier than the right head's, so on
   * equal dates the right head goes first.
   */
  function MergeFrom(l: seq<Quote>, r: seq<Quote>, i: nat, j: nat): (m: seq<Quote>)
    requires i <= |l| && j <= |r|
    ensures |m| == (|l| - i) + (|r| - j)
    decreases |l| - i + |r| - j
  {
    if i == |l| then r[j..]
    else if j == |r| then l[i..]
    else if l[i].date < r[j].date then [l[i]] + MergeFrom(l, r, i + 1, j)
    else [r[j]] + MergeFrom(l, r, i, j + 1)
  }

  /** What the sort produces: split at |s| / 2, sort both halves, merge them. */
  function MergeSorted(s: seq<Quote>): (t: seq<Quote>)
    ensures |t| == |s|
    decreases |s|
  {
    if |s| <= 1 then s
    else MergeFrom(MergeSorted(s[..|s| / 2]), MergeSorted(s[|s| / 2..]), 0, 0)
  }

  /** Merging drops and duplicates nothing. */
  lemma {:induction false} MergePermutes(l: seq<Quote>, r: seq<Quote>, i: nat, j: nat)
    requires i <= |l| && j <= |r|
    ensures multiset(MergeFrom(l, r, i, j)) == multiset(l[i..]) + multiset(r[j..])
    decreases |l| - i + |r| - j
  {
    if i == |l| || j == |r| {
    } else if l[i].date < r[j].date {
      MergePermutes(l, r, i + 1, j);
      SliceHead(l, i);
    } else {
      MergePermutes(l, r, i, j + 1);
      SliceHead(r, j);
    }
  }

  /** A suffix is its first quote followed by the rest. */
  lemma SliceHead(s: seq<Quote>, i: nat)
    requires i < |s|
    ensures multiset(s[i..]) == multiset{s[i]} + multiset(s[i + 1..])
  {
    assert s[i..] == [s[i]] + s[i + 1..];
  }

  /** A lower bound on the dates still to be merged bounds every merged date. */
  lemma {:induction false} MergeBounded(l: seq<Quote>, r: seq<Quote>, i: nat, j: nat, b: int)
    requires i <= |l| && j <= |r|
    requires forall t :: i <= t < |l| ==> b <= l[t].date
    requires forall t :: j <= t < |r| ==> b <= r[t].date
    ensures forall n :: 0 <= n < |MergeFrom(l, r, i, j)| ==> b <= MergeFrom(l, r, i, j)[n].date
    decreases |l| - i + |r| - j
  {
    if i == |l| || j == |r| {
    } else if l[i].date < r[j].date {
      MergeBounded(l, r, i + 1, j, b);
    } else {
      MergeBounded(l, r, i, j + 1, b);
    }
  }

  /** Merging two date-sorted sequences gives a date-sorted sequence. */
  lemma {:induction false} MergeKeepsOrder(l: seq<Quote>, r: seq<Quote>, i: nat, j: nat)
    requires i <= |l| && j <= |r|
    requires SortedByDate(l) && SortedByDate(r)
    ensures SortedByDate(MergeFrom(l, r, i, j))
    decreases |l| - i + |r| - j
  {
    if i == |l| || j == |r| {
    } else if l[i].date < r[j].date {
      MergeKeepsOrder(l, r, i + 1, j);
      MergeBounded(l, r, i + 1, j, l[i].date);
      SortedCons(l[i], MergeFrom(l, r, i + 1, j));
    } else {
      MergeKeepsOrder(l, r, i, j + 1);
      MergeBounded(l, r, i, j + 1, r[j].date);
      SortedCons(r[j], MergeFrom(l, r, i, j + 1));
    }
  }

  /** A quote dated no later than a sorted sequence can go in front of it. */
  lemma SortedCons(x: Quote, rest: seq<Quote>)
    requires SortedByDate(rest)
    requires forall n :: 0 <= n < |rest| ==> x.date <= rest[n].date
    ensures SortedByDate([x] + rest)
  {
  }

  /** On equal head dates the merge emits the right head first. */
  lemma MergeTieTakesRight(l: seq<Quote>, r: seq<Quote>, i: nat, j: nat)
    requires i < |l| && j < |r| && l[i].date == r[j].date
    ensures MergeFrom(l, r, i, j) == [r[j]] + MergeFrom(l, r, i, j + 1)
  {
  }

  /** The sort drops and duplicates nothing. */
  lemma {:induction false} MergeSortedPermutes(s: seq<Quote>)
    ensures multiset(MergeSorted(s)) == multiset(s)
    ensures |MergeSorted(s)| == |s|
    decreases |s|
  {
    if |s| > 1 {
      var l, r := s[..|s| / 2], s[|s| / 2..];
      MergeSortedPermutes(l);
      MergeSortedPermutes(r);
      MergePermutes(MergeSorted(l), MergeSorted(r), 0, 0);
      assert s == l + r;
      assert MergeSorted(l)[0..] == MergeSorted(l) && MergeSorted(r)[0..] == MergeSorted(r);
    }
    assert |MergeSorted(s)| == |multiset(MergeSorted(s))|;
  }

  /** The sort leaves the dates non-decreasing. */
  lemma {:induction false} MergeSortedIsSorted(s: seq<Quote>)
    ensures SortedByDate(MergeSorted(s))
    decreases |s|
  {
    if |s| > 1 {
      var l, r := s[..|s| / 2], s[|s| / 2..];
      MergeSortedIsSorted(l);
      MergeSortedIsSorted(r);
      MergeKeepsOrder(MergeSorted(l), MergeSorted(r), 0, 0);
    }
  }

  /** Sequences of length 0 or 1 come back unchanged. */
  lemma MergeSortedShort(s: seq<Quote>)
    requires |s| <= 1
    ensures MergeSorted(s) == s
  {
  }

  /**
   * The sort is not stable: two quotes of the same date, given in input
   * order, come back swapped.
   */
  lemma MergeSortedSwapsEqualDates(a: Quote, b: Quote)
    requires a.date == b.date
    ensures MergeSorted([a, b]) == [b, a]
  {
    assert [a, b][..1] == [a] && [a, b][1..] == [b];
    assert MergeSorted([a]) == [a] && MergeSorted([b]) == [b];
    assert MergeFrom([a], [b], 0, 0) == [b] + MergeFrom([a], [b], 0, 1);
  }

  /** The quotes of s in reverse order. */
  function Reverse(s: seq<Quote>): (t: seq<Quote>)
    ensures |t| == |s|
    ensures forall k :: 0 <= k < |s| ==> t[k] == s[|s| - 1 - k]
  {
    if s == [] then [] else Reverse(s[1..]) + [s[0]]
  }

  /** Every quote of s is dated `date`. */
  predicate AllOnDate(s: seq<Quote>, date: int) {
    forall k :: 0 <= k < |s| ==> s[k].date == date
  }

  /** Merging quotes that all share one date puts the whole right rest first. */
  lemma {:induction false} MergeSameDate(l: seq<Quote>, r: seq<Quote>, i: nat, j: nat, date: int)
    requires i <= |l| && j <= |r| && AllOnDate(l, date) && AllOnDate(r, date)
    ensures MergeFrom(l, r, i, j) == r[j..] + l[i..]
    decreases |r| - j
  {
    if i == |l| {
      assert l[i..] == [];
    } else if j == |r| {
      assert r[j..] == [];
    } else {
      MergeSameDate(l, r, i, j + 1, date);
      assert r[j..] == [r[j]] + r[j + 1..];
    }
  }

  /**
   * The tie rule of the sort on a list whose quotes all share one date: the
   * whole list comes back in reverse input order.
   */
  lemma {:induction false} MergeSortedReversesSameDate(s: seq<Quote>, date: int)
    requires AllOnDate(s, date)
    ensures MergeSorted(s) == Reverse(s)
    decreases |s|
  {
    if |s| > 1 {
      var l, r := s[..|s| / 2], s[|s| / 2..];
      assert s == l + r;
      assert AllOnDate(l, date) && AllOnDate(r, date);
      MergeSortedReversesSameDate(l, date);
      MergeSortedReversesSameDate(r, date);
      var rl, rr := Reverse(l), Reverse(r);
      assert AllOnDate(rl, date) && AllOnDate(rr, date);
      MergeSameDate(rl, rr, 0, 0, date);
      assert rl[0..] == rl && rr[0..] == rr;
      assert MergeSorted(s) == MergeFrom(rl, rr, 0, 0);
      ReverseAppend(l, r);
    }
  }

  /** Reversing a concatenation reverses and swaps the parts. */
  lemma ReverseAppend(a: seq<Quote>, b: seq<Quote>)
    ensures Reverse(a + b) == Reverse(b) + Reverse(a)
  {
    var lhs, rhs := Reverse(a + b), Reverse(b) + Reverse(a);
    forall k | 0 <= k < |lhs| ensures lhs[k] == rhs[k] {
      if k < |b| {
        assert rhs[k] == Reverse(b)[k];
      } else {
        assert rhs[k] == Reverse(a)[k - |b|];
      }
    }
  }

  /** The quotes of s dated `date`, in their order in s. */
  function WithDate(s: seq<Quote>, date: int): (t: seq<Quote>)
    ensures forall n :: 0 <= n < |t| ==> t[n].date == date
  {
    if s == [] then [] else (if s[0].date == date then [s[0]] else []) + WithDate(s[1..], date)
  }

  /** The quotes of a given date in x followed by t. */
  lemma WithDateCons(x: Quote, t: seq<Quote>, date: int)
    ensures WithDate([x] + t, date) == (if x.date == date then [x] else []) + WithDate(t, date)
  {
    assert ([x] + t)[0] == x && ([x] + t)[1..] == t;
  }

  /** A sequence dated after `date` throughout has no quote of that date. */
  lemma {:induction false} WithDateNone(s: seq<Quote>, date: int)
    requires forall n :: 0 <= n < |s| ==> date < s[n].date
    ensures WithDate(s, date) == []
  {
    if s != [] {
      WithDateNone(s[1..], date);
    }
  }

  /** Filtering by date distributes over concatenation. */
  lemma {:induction false} WithDateAppend(a: seq<Quote>, b: seq<Quote>, date: int)
    ensures WithDate(a + b, date) == WithDate(a, date) + WithDate(b, date)
  {
    if a == [] {
      assert a + b == b;
    } else {
      WithDateAppend(a[1..], b, date);
      assert a + b == [a[0]] + (a[1..] + b);
      WithDateCons(a[0], a[1..] + b, date);
      WithDateCons(a[0], a[1..], date);
      assert a == [a[0]] + a[1..];
    }
  }

  /** One step of the merge taking the left head x ahead of the right rest rs. */
  lemma TakeLeft(x: Quote, rest: seq<Quote>, rs: seq<Quote>, ls: seq<Quote>, date: int)
    requires WithDate(rest, date) == WithDate(rs, date) + WithDate(ls, date)
    requires x.date == date ==> WithDate(rs, date) == []
    ensures WithDate([x] + rest, date) == WithDate(rs, date) + WithDate([x] + ls, date)
  {
    WithDateCons(x, rest, date);
    WithDateCons(x, ls, date);
    if x.date == date {
      assert [x] + (WithDate(rs, date) + WithDate(ls, date)) == WithDate(rs, date) + ([x] + WithDate(ls, date));
    } else {
      assert [] + (WithDate(rs, date) + WithDate(ls, date)) == WithDate(rs, date) + ([] + WithDate(ls, date));
    }
  }

  /** One step of the merge taking the right head x. */
  lemma TakeRight(x: Quote, rest: seq<Quote>, rs: seq<Quote>, ls: seq<Quote>, date: int)
    requires WithDate(rest, date) == WithDate(rs, date) + WithDate(ls, date)
    ensures WithDate([x] + rest, date) == WithDate([x] + rs, date) + WithDate(ls, date)
  {
    WithDateCons(x, rest, date);
    WithDateCons(x, rs, date);
    var h := if x.date == date then [x] else [];
    assert h + (WithDate(rs, date) + WithDate(ls, date)) == (h + WithDate(rs, date)) + WithDate(ls, date);
  }

  /**
   * Merging two date-sorted halves puts the quotes of each date of the right
   * half before those of the left half: on equal dates the right head goes
   * first.
   */
  lemma {:induction false} MergeWithDate(l: seq<Quote>, r: seq<Quote>, i: nat, j: nat, date: int)
    requires i <= |l| && j <= |r| && SortedByDate(l) && SortedByDate(r)
    ensures WithDate(MergeFrom(l, r, i, j), date) == WithDate(r[j..], date) + WithDate(l[i..], date)
    decreases |l| - i + |r| - j
  {
    if i == |l| {
      assert l[i..] == [];
      assert WithDate(r[j..], date) + [] == WithDate(r[j..], date);
    } else if j == |r| {
      assert r[j..] == [];
      assert [] + WithDate(l[i..], date) == WithDate(l[i..], date);
    } else if l[i].date < r[j].date {
      MergeWithDate(l, r, i + 1, j, date);
      if l[i].date == date {
        assert forall n :: 0 <= n < |r[j..]| ==> date < r[j..][n].date by {
          forall n | 0 <= n < |r[j..]| ensures date < r[j..][n].date {
            assert r[j..][n] == r[j + n];
          }
        }
        WithDateNone(r[j..], date);
      }
      TakeLeft(l[i], MergeFrom(l, r, i + 1, j), r[j..], l[i + 1..], date);
      assert l[i..] == [l[i]] + l[i + 1..];
    } else {
      MergeWithDate(l, r, i, j + 1, date);
      TakeRight(r[j], MergeFrom(l, r, i, j + 1), r[j + 1..], l[i..], date);
      assert r[j..] == [r[j]] + r[j + 1..];
    }
  }

  /**
   * The tie rule of the sort in general: for every date, the quotes of that
   * date come out in reverse input order.
   */
  lemma {:induction false} MergeSortedReversesEachDate(s: seq<Quote>, date: int)
    ensures WithDate(MergeSorted(s), date) == Reverse(WithDate(s, date))
    decreases |s|
  {
    if |s| <= 1 {
      if s != [] {
        WithDateCons(s[0], [], date);
        assert [s[0]] + [] == s;
      }
    } else {
      var l, r := s[..|s| / 2], s[|s| / 2..];
      assert s == l + r;
      MergeSortedReversesEachDate(l, date);
      MergeSortedReversesEachDate(r, date);
      var ml, mr := MergeSorted(l), MergeSorted(r);
      MergeSortedIsSorted(l);
      MergeSortedIsSorted(r);
      MergeWithDate(ml, mr, 0, 0, date);
      assert ml[0..] == ml && mr[0..] == mr;
      WithDateAppend(l, r, date);
      ReverseAppend(WithDate(l, date), WithDate(r, date));
    }
  }

  /** No two quotes of s (at distinct positions) share a date. */
  ghost predicate DistinctDates(s: seq<Quote>) {
    forall a, b :: TwoQuotes(a, b, s) ==> a.date != b.date
  }

  /** a and b sit at two distinct positions of s. */
  predicate TwoQuotes(a: Quote, b: Quote, s: seq<Quote>) {
    multiset{a, b} <= multiset(s)
  }

  /** Distinct dates are a property of the collection, kept by any rearrangement. */
  lemma DistinctDatesPermute(s: seq<Quote>, t: seq<Quote>)
    requires multiset(s) == multiset(t) && DistinctDates(s)
    ensures DistinctDates(t)
  {
    forall a, b | TwoQuotes(a, b, t) ensures a.date != b.date {
      assert TwoQuotes(a, b, s);
    }
  }

  /** Dropping the first quote keeps the dates distinct. */
  lemma DistinctDatesTail(s: seq<Quote>)
    requires s != [] && DistinctDates(s)
    ensures DistinctDates(s[1..])
  {
    assert s == [s[0]] + s[1..];
    forall a, b | TwoQuotes(a, b, s[1..]) ensures a.date != b.date {
      assert multiset(s) == multiset{s[0]} + multiset(s[1..]);
      assert TwoQuotes(a, b, s);
    }
  }

  /**
   * Two date-sorted arrangements of the same quotes, with distinct dates,
   * start with the same quote: the one of the earliest date.
   */
  lemma SortedHeads(t1: seq<Quote>, t2: seq<Quote>)
    requires t1 != [] && t2 != []
    requires SortedByDate(t1) && SortedByDate(t2)
    requires multiset(t1) == multiset(t2) && DistinctDates(t1)
    ensures t1[0] == t2[0]
  {
    var x, y := t1[0], t2[0];
    assert y in multiset(t1) && x in multiset(t2);
    var k :| 0 <= k < |t1| && t1[k] == y;
    var m :| 0 <= m < |t2| && t2[m] == x;
    assert x.date <= y.date && y.date <= x.date;
    if x != y {
      assert TwoQuotes(x, y, t1);
      assert false;
    }
  }

  /** Equal collections with the same first quote have equal rests. */
  lemma SameTails(t1: seq<Quote>, t2: seq<Quote>)
    requires t1 != [] && t2 != [] && t1[0] == t2[0] && multiset(t1) == multiset(t2)
    ensures multiset(t1[1..]) == multiset(t2[1..])
  {
    assert t1 == [t1[0]] + t1[1..] && t2 == [t2[0]] + t2[1..];
    SliceHead(t1, 0);
    SliceHead(t2, 0);
    assert multiset(t1[1..]) == multiset(t1) - multiset{t1[0]};
    assert multiset(t2[1..]) == multiset(t2) - multiset{t2[0]};
  }

  /**
   * With distinct dates there is only one date-sorted arrangement of a
   * collection of quotes.
   */
  lemma {:induction false} SortedUnique(t1: seq<Quote>, t2: seq<Quote>)
    requires SortedByDate(t1) && SortedByDate(t2)
    requires multiset(t1) == multiset(t2) && DistinctDates(t1)
    ensures t1 == t2
    decreases |t1|
  {
    assert |t2| == |multiset(t2)| == |multiset(t1)| == |t1|;
    if t1 != [] {
      SortedHeads(t1, t2);
      DistinctDatesTail(t1);
      assert t1 == [t1[0]] + t1[1..] && t2 == [t1[0]] + t2[1..];
      SameTails(t1, t2);
      SortedUnique(t1[1..], t2[1..]);
    }
  }

  /** When no two quotes share a date, sorting a date-sorted sequence changes nothing. */
  lemma MergeSortedOfSortedIsNoOp(s: seq<Quote>)
    requires SortedByDate(s) && DistinctDates(s)
    ensures MergeSorted(s) == s
  {
    MergeSortedPermutes(s);
    MergeSortedIsSorted(s);
    SortedUnique(s, MergeSorted(s));
  }

  /**
   * When no two quotes share a date, the sorted result depends only on which
   * quotes there are, not on their input order.
   */
  lemma MergeSortedIgnoresOrder(s1: seq<Quote>, s2: seq<Quote>)
    requires multiset(s1) == multiset(s2) && DistinctDates(s1)
    ensures MergeSorted(s1) == MergeSorted(s2)
  {
    MergeSortedPermutes(s1);
    MergeSortedPermutes(s2);
    MergeSortedIsSorted(s1);
    MergeSortedIsSorted(s2);
    DistinctDatesPermute(s1, MergeSorted(s1));
    SortedUnique(MergeSorted(s1), MergeSorted(s2));
  }

  /**
   * One step of the merge loop: if what remains of `merged` from k on is the
   * merge from heads i and j, and the prefix before k is already written,
   * then writing the head chosen by the date comparison at k keeps both true
   * one position further on.
   */
  lemma MergeStep(before: seq<Quote>, after: seq<Quote>, merged: seq<Quote>,
                  l: seq<Quote>, r: seq<Quote>, i: nat, j: nat, k: nat)
    requires i < |l| && j < |r| && k < |before| && k <= |merged|
    requires merged[k..] == MergeFrom(l, r, i, j) && before[..k] == merged[..k]
    requires after == before[k := if l[i].date < r[j].date then l[i] else r[j]]
    ensures k < |merged| && after[..k + 1] == merged[..k + 1]
    ensures l[i].date < r[j].date ==> merged[k + 1..] == MergeFrom(l, r, i + 1, j)
    ensures r[j].date <= l[i].date ==> merged[k + 1..] == MergeFrom(l, r, i, j + 1)
  {
    assert merged[k + 1..] == merged[k..][1..];
    assert after[..k + 1] == before[..k] + [merged[k]];
  }

  /**
   * Once one of the two halves is used up, what is left to merge is the rest
   * of the other one.
   */
  lemma MergeExhausted(l: seq<Quote>, r: seq<Quote>, i: nat, j: nat)
    requires i <= |l| && j <= |r| && (i == |l| || j == |r|)
    ensures MergeFrom(l, r, i, j) == l[i..] + r[j..]
  {
    if i == |l| {
      assert l[i..] == [];
    } else {
      assert r[j..] == [];
    }
  }

  /**
   * The copy loops of merge_sort: the rest src[from..] of one half goes to
   * `a` from the write index k on; the new write index is returned.
   */
  method CopyRest(a: array<Quote>, k: nat, src: array<Quote>, from: nat) returns (k': nat)
    requires a != src && from <= src.Length && k + (src.Length - from) <= a.Length
    modifies a
    ensures k' == k + (src.Length - from)
    ensures a[..k] == old(a[..k]) && a[k..k'] == src[from..] && a[k'..] == old(a[k'..])
  {
    var i := from;
    k' := k;
    while i < src.Length
      invariant from <= i <= src.Length && k' == k + (i - from)
      invariant a[..k] == old(a[..k]) && a[k..k'] == src[from..i] && a[k'..] == old(a[k'..])
    {
      a[k'] := src[i];
      i := i + 1;
      k' := k' + 1;
    }
  }

  /**
   * The first merge loop of merge_sort: `a` is overwritten through the write
   * index k = i + j from the heads i and j of the two sorted copies, until one
   * of them is used up. What is written, followed by what is left of both
   * copies, is the whole merge.
   */
  method MergeHeads(a: array<Quote>, left: array<Quote>, right: array<Quote>) returns (i: nat, j: nat)
    requires a != left && a != right
    requires a.Length == left.Length + right.Length
    modifies a
    ensures i <= left.Length && j <= right.Length && (i == left.Length || j == right.Length)
    ensures a[..i + j] + left[i..] + right[j..] == MergeFrom(left[..], right[..], 0, 0)
  {
    ghost var l, r := left[..], right[..];
    ghost var merged := MergeFrom(l, r, 0, 0);
    var k := 0;
    i, j := 0, 0;
    while i < left.Length && j < right.Length
      invariant 0 <= i <= |l| && 0 <= j <= |r| && k == i + j
      invariant k <= |merged| && merged[k..] == MergeFrom(l, r, i, j)
      invariant a[..k] == merged[..k]
    {
      ghost var before, i0, j0 := a[..], i, j;
      if left[i].date < right[j].date {
        a[k] := left[i];
        i := i + 1;
      } else {
        a[k] := right[j];
        j := j + 1;
      }
      MergeStep(before, a[..], merged, l, r, i0, j0, k);
      k := k + 1;
    }
    MergeExhausted(l, r, i, j);
    HeadsDone(a[..k], l[i..], r[j..], merged);
    assert left[i..] == l[i..] && right[j..] == r[j..];
  }

  /** When the first merge loop stops, the copies' rests complete the merge. */
  lemma HeadsDone(written: seq<Quote>, restL: seq<Quote>, restR: seq<Quote>, merged: seq<Quote>)
    requires |written| <= |merged| && written == merged[..|written|]
    requires merged[|written|..] == restL + restR
    ensures written + restL + restR == merged
  {
    var n := |written|;
    assert merged == merged[..n] + merged[n..];
    assert written + restL + restR == written + (restL + restR);
  }

  /**
   * The merge loops of merge_sort: the first loop merges the heads of the two
   * sorted copies into `a`; then whatever is left of either copy is appended.
   */
  method MergeInto(a: array<Quote>, left: array<Quote>, right: array<Quote>)
    requires a != left && a != right
    requires a.Length == left.Length + right.Length
    modifies a
    ensures a[..] == MergeFrom(left[..], right[..], 0, 0)
  {
    ghost var l, r := left[..], right[..];
    var i, j := MergeHeads(a, left, right);
    var k := i + j;
    ghost var k0, a0 := k, a[..];
    k := CopyRest(a, k, left, i);
    ghost var k1, a1 := k, a[..];
    k := CopyRest(a, k, right, j);
    Assemble(a[..], a1, a0, k0, k1, l[i..], r[j..]);
  }

  /**
   * The three writes of the merge loops put together: a prefix kept from
   * a0, then restL, then restR.
   */
  lemma Assemble(fin: seq<Quote>, a1: seq<Quote>, a0: seq<Quote>, k0: nat, k1: nat,
                 restL: seq<Quote>, restR: seq<Quote>)
    requires k0 <= k1 <= |a1| && k0 <= |a0| && k1 <= |fin|
    requires a1[..k0] == a0[..k0] && a1[k0..k1] == restL
    requires fin[..k1] == a1[..k1] && fin[k1..] == restR
    ensures fin == a0[..k0] + restL + restR
  {
    assert a1[..k1] == a1[..k0] + a1[k0..k1];
    assert fin == fin[..k1] + fin[k1..];
  }

  /**
   * merge_sort: sorts copies of both halves recursively, then merges them back
   * into `a`.
   */
  method MergeSort(a: array<Quote>)
    modifies a
    ensures a[..] == MergeSorted(old(a[..]))
    ensures SortedByDate(a[..]) && multiset(a[..]) == multiset(old(a[..]))
    decreases a.Length
  {
    ghost var input := a[..];
    if a.Length > 1 {
      var mid := a.Length / 2;
      var left := new Quote[mid](n requires 0 <= n < mid reads a => a[n]);
      var right := new Quote[a.Length - mid](n requires 0 <= n < a.Length - mid reads a => a[mid + n]);
      assert left[..] == input[..mid];
      assert right[..] == input[mid..];
      MergeSort(left);
      MergeSort(right);
      MergeInto(a, left, right);
    }
    MergeSortedPermutes(input);
    MergeSortedIsSorted(input);
  }
}
