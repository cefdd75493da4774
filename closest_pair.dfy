/**
 * The nearest-pair finder of SalemFinance.py: divide-and-conquer closest pair
 * of points, with a brute-force base case and a strip scan.
 *
 * Coordinates are integers and every distance is kept SQUARED. The source
 * compares Euclidean distances, and square roots only with each other or with
 * a coordinate offset; each such comparison is restated exactly on squares
 * (`Distance.Less`, `OffsetBelow`).
 */
module ClosestPair {

  /**
   * A point in the plane. The report's points are (closing price, volume);
   * to make them integers both coordinates are scaled by one common factor,
   * which keeps every comparison of distances, and so the closest pair.
   */
  datatype Point = Point(x: int, y: int)

  /** The squared Euclidean distance between two points. */
  function SqDist(p: Point, q: Point): (d: nat) {
    (p.x - q.x) * (p.x - q.x) + (p.y - q.y) * (p.y - q.y)
  }

  /** A distance, kept squared; `Infinite` is the source's float('inf'). */
  datatype Distance = Infinite | Finite(sq: nat) {

    /** This distance is strictly smaller than `other`. */
    predicate Less(other: Distance) {
      match (this, other)
      case (Finite(a), Finite(b)) => a < b
      case (Finite(_), Infinite) => true
      case (Infinite, _) => false
    }

    /** This distance is finite and at most the distance whose square is `s`. */
    predicate AtMost(s: nat) {
      Finite? && sq <= s
    }
  }

  /**
   * A signed offset is strictly smaller than the distance `d`: for a finite d
   * of square s, off < sqrt(s) holds exactly when off is negative or
   * off * off < s.
   */
  predicate OffsetBelow(off: int, d: Distance) {
    d.Infinite? || off < 0 || off * off < d.sq
  }

  /**
   * OffsetBelow is the source's test `off < d` on the Euclidean distance d,
   * whose square is s: it holds exactly when off is below the real square
   * root of s.
   */
  lemma OffsetBelowIsRootTest(off: int, s: nat, root: real)
    requires 0.0 <= root && root * root == s as real
    ensures OffsetBelow(off, Finite(s)) <==> (off as real) < root
  {
    if 0 <= off {
      var o := off as real;
      assert (off * off) as real == o * o;
      LessIsRootTest(off * off, s, o, root);
    }
  }

  /**
   * Comparing squared distances is comparing the Euclidean distances, their
   * real square roots.
   */
  lemma LessIsRootTest(a: nat, b: nat, ra: real, rb: real)
    requires 0.0 <= ra && ra * ra == a as real
    requires 0.0 <= rb && rb * rb == b as real
    ensures Finite(a).Less(Finite(b)) <==> ra < rb
  {
    if ra < rb {
      SquareMonotone(ra, rb);
    } else if rb < ra {
      SquareMonotone(rb, ra);
    }
  }

  /** Squaring is strictly increasing on the non-negative reals. */
  lemma SquareMonotone(x: real, y: real)
    requires 0.0 <= x < y
    ensures x * x < y * y
  {
    var d := y - x;
    assert y * y == x * x + (x + y) * d;
    assert 0.0 < (x + y) * d;
  }

  /** The absolute value of n, the source's abs. */
  function Abs(n: int): (m: nat) {
    if n < 0 then -n else n
  }

  /** The two points of an answer, or none (the source's None, None). */
  datatype MaybePair = NoPair | Pair(p: Point, q: Point)

  /** An answer (distance, p1, p2) of the search functions. */
  datatype Closest = Closest(dist: Distance, pair: MaybePair)

  /** What the search returns when it finds no pair: infinite distance, no points. */
  const NotFound := Closest(Infinite, NoPair)

  // ---------------------------------------------------------------------
  // Pairs of points taken from distinct positions

  /** p and q sit at two distinct positions of pts (p == q needs two copies). */
  predicate TwoOf(p: Point, q: Point, pts: seq<Point>) {
    multiset{p, q} <= multiset(pts)
  }

  /** The answer names a pair of pts and its distance is that pair's distance. */
  predicate Witnessed(r: Closest, pts: seq<Point>) {
    && r.pair.Pair?
    && r.dist == Finite(SqDist(r.pair.p, r.pair.q))
    && TwoOf(r.pair.p, r.pair.q, pts)
  }

  /** d is finite and no two points of pts are closer than d. */
  ghost predicate LowerBound(d: Distance, pts: seq<Point>) {
    forall p, q :: TwoOf(p, q, pts) ==> d.AtMost(SqDist(p, q))
  }

  /** The distance from p to q is the distance from q to p. */
  lemma SqDistSymmetric(p: Point, q: Point)
    ensures SqDist(p, q) == SqDist(q, p)
  {
  }

  /** The points at two distinct indices are a pair of the sequence. */
  lemma TwoPositions(pts: seq<Point>, a: int, b: int)
    requires 0 <= a < |pts| && 0 <= b < |pts| && a != b
    ensures TwoOf(pts[a], pts[b], pts)
  {
    var lo, hi := if a < b then a else b, if a < b then b else a;
    var front, back := pts[..hi], pts[hi..];
    assert pts == front + back;
    assert front[lo] == pts[lo] && back[0] == pts[hi];
    assert multiset{pts[lo]} <= multiset(front) && multiset{pts[hi]} <= multiset(back);
    assert multiset{pts[a], pts[b]} == multiset{pts[lo]} + multiset{pts[hi]};
  }

  /** Conversely, a pair of the sequence sits at two distinct indices. */
  lemma PositionsOf(p: Point, q: Point, pts: seq<Point>) returns (a: int, b: int)
    requires TwoOf(p, q, pts)
    ensures 0 <= a < |pts| && 0 <= b < |pts| && a != b
    ensures pts[a] == p && pts[b] == q
  {
    assert p in multiset(pts);
    a :| 0 <= a < |pts| && pts[a] == p;
    var rest := pts[..a] + pts[a + 1..];
    assert pts == pts[..a] + [p] + pts[a + 1..];
    assert multiset(rest) == multiset(pts) - multiset{p};
    assert q in multiset(rest);
    var c :| 0 <= c < |rest| && rest[c] == q;
    b := if c < a then c else c + 1;
  }

  /** An index-wise bound on all pairs is a bound on all pairs of points. */
  lemma IndexBoundIsLowerBound(d: Distance, pts: seq<Point>)
    requires forall a, b :: 0 <= a < b < |pts| ==> d.AtMost(SqDist(pts[a], pts[b]))
    ensures LowerBound(d, pts)
  {
    forall p, q | TwoOf(p, q, pts) ensures d.AtMost(SqDist(p, q)) {
      var a, b := PositionsOf(p, q, pts);
      if b < a {
        SqDistSymmetric(p, q);
      }
    }
  }

  /** A pair of a concatenation lies in one part or straddles both. */
  lemma TwoOfSplit(p: Point, q: Point, l: seq<Point>, r: seq<Point>)
    requires TwoOf(p, q, l + r)
    ensures TwoOf(p, q, l) || TwoOf(p, q, r) || (p in l && q in r) || (q in l && p in r)
  {
    var ml, mr := multiset(l), multiset(r);
    assert multiset(l + r) == ml + mr;
    if p == q {
      assert (ml + mr)[p] >= 2;
      if ml[p] >= 2 {
        assert TwoOf(p, q, l);
      } else if mr[p] >= 2 {
        assert TwoOf(p, q, r);
      } else {
        assert p in ml && p in mr;
      }
    } else {
      assert p in ml + mr && q in ml + mr;
      if p in ml && q in ml {
        assert TwoOf(p, q, l);
      } else if p in mr && q in mr {
        assert TwoOf(p, q, r);
      }
    }
  }

  // ---------------------------------------------------------------------
  // Python's sorted(points, key=...): a stable sort on one coordinate

  /** The coordinate a sort is keyed on. */
  datatype Axis = X | Y

  /** The sort key of p: its x or its y coordinate. */
  function Key(p: Point, axis: Axis): (k: int) {
    match axis
    case X => p.x
    case Y => p.y
  }

  /** The keys of s never decrease from left to right. */
  predicate SortedOn(s: seq<Point>, axis: Axis) {
    forall a, b :: 0 <= a < b < |s| ==> Key(s[a], axis) <= Key(s[b], axis)
  }

  /** Inserts p before the first element whose key is not smaller. */
  function Insert(p: Point, s: seq<Point>, axis: Axis): (t: seq<Point>) {
    if s == [] || Key(p, axis) <= Key(s[0], axis) then [p] + s
    else [s[0]] + Insert(p, s[1..], axis)
  }

  /**
   * A stable insertion sort: points of equal key keep their input order. A
   * stable sort has only one possible output, so this is the list Python's
   * sorted returns.
   */
  function SortBy(s: seq<Point>, axis: Axis): (t: seq<Point>) {
    if s == [] then [] else Insert(s[0], SortBy(s[1..], axis), axis)
  }

  lemma {:induction false} InsertPermutes(p: Point, s: seq<Point>, axis: Axis)
    ensures multiset(Insert(p, s, axis)) == multiset{p} + multiset(s)
  {
    if s != [] && Key(s[0], axis) < Key(p, axis) {
      InsertPermutes(p, s[1..], axis);
      assert s == [s[0]] + s[1..];
    }
  }

  /** A lower bound on the keys of p and s bounds the keys after insertion. */
  lemma {:induction false} InsertBounded(p: Point, s: seq<Point>, axis: Axis, b: int)
    requires b <= Key(p, axis)
    requires forall k :: 0 <= k < |s| ==> b <= Key(s[k], axis)
    ensures forall k :: 0 <= k < |Insert(p, s, axis)| ==> b <= Key(Insert(p, s, axis)[k], axis)
  {
    if s != [] && Key(s[0], axis) < Key(p, axis) {
      InsertBounded(p, s[1..], axis, b);
    }
  }

  lemma {:induction false} InsertSorted(p: Point, s: seq<Point>, axis: Axis)
    requires SortedOn(s, axis)
    ensures SortedOn(Insert(p, s, axis), axis)
  {
    if s != [] && Key(s[0], axis) < Key(p, axis) {
      InsertSorted(p, s[1..], axis);
      InsertBounded(p, s[1..], axis, Key(s[0], axis));
    }
  }

  /** The sort returns a sorted permutation of its input. */
  lemma {:induction false} SortBySpec(s: seq<Point>, axis: Axis)
    ensures multiset(SortBy(s, axis)) == multiset(s)
    ensures |SortBy(s, axis)| == |s|
    ensures SortedOn(SortBy(s, axis), axis)
  {
    if s != [] {
      SortBySpec(s[1..], axis);
      InsertPermutes(s[0], SortBy(s[1..], axis), axis);
      InsertSorted(s[0], SortBy(s[1..], axis), axis);
      assert s == [s[0]] + s[1..];
    }
    assert |SortBy(s, axis)| == |multiset(SortBy(s, axis))|;
  }

  /** The points of s whose key is k, in their order in s. */
  function WithKey(s: seq<Point>, axis: Axis, k: int): (t: seq<Point>)
    ensures forall n :: 0 <= n < |t| ==> t[n] in s && Key(t[n], axis) == k
  {
    if s == [] then []
    else (if Key(s[0], axis) == k then [s[0]] else []) + WithKey(s[1..], axis, k)
  }

  /**
   * Inserting p adds p in front of the points of its own key and changes the
   * order of no other key: p goes before every point of equal key.
   */
  lemma {:induction false} InsertWithKey(p: Point, s: seq<Point>, axis: Axis, k: int)
    ensures WithKey(Insert(p, s, axis), axis, k) == (if Key(p, axis) == k then [p] else []) + WithKey(s, axis, k)
  {
    if s == [] || Key(p, axis) <= Key(s[0], axis) {
      WithKeyCons(p, s, axis, k);
    } else {
      var rest := Insert(p, s[1..], axis);
      assert Insert(p, s, axis) == [s[0]] + rest;
      InsertWithKey(p, s[1..], axis, k);
      WithKeyCons(s[0], rest, axis, k);
      assert WithKey(s, axis, k) == (if Key(s[0], axis) == k then [s[0]] else []) + WithKey(s[1..], axis, k);
      var head := if Key(s[0], axis) == k then [s[0]] else [];
      if Key(p, axis) == k {
        assert head == [];
        assert WithKey(Insert(p, s, axis), axis, k) == [p] + WithKey(s[1..], axis, k);
        assert WithKey(s, axis, k) == WithKey(s[1..], axis, k);
      } else {
        assert WithKey(rest, axis, k) == WithKey(s[1..], axis, k);
        assert WithKey(Insert(p, s, axis), axis, k) == head + WithKey(s[1..], axis, k);
        assert [] + WithKey(s, axis, k) == WithKey(s, axis, k);
      }
    }
  }

  /** The points of key k in x followed by t. */
  lemma WithKeyCons(x: Point, t: seq<Point>, axis: Axis, k: int)
    ensures WithKey([x] + t, axis, k) == (if Key(x, axis) == k then [x] else []) + WithKey(t, axis, k)
  {
    assert ([x] + t)[0] == x && ([x] + t)[1..] == t;
  }

  /** The sort is stable: the points of each key keep their input order. */
  lemma {:induction false} SortByStable(s: seq<Point>, axis: Axis, k: int)
    ensures WithKey(SortBy(s, axis), axis, k) == WithKey(s, axis, k)
  {
    if s != [] {
      SortByStable(s[1..], axis, k);
      InsertWithKey(s[0], SortBy(s[1..], axis), axis, k);
    }
  }

  /**
   * Two sequences sorted on a key, whose points of each key come in the same
   * order, are equal: a stable sort has one possible result.
   */
  lemma {:induction false} StableSortUnique(a: seq<Point>, b: seq<Point>, axis: Axis)
    requires SortedOn(a, axis) && SortedOn(b, axis)
    requires forall k :: WithKey(a, axis, k) == WithKey(b, axis, k)
    ensures a == b
    decreases |a|
  {
    if a == [] || b == [] {
      if a != [] {
        WithKeyOfHead(a, axis);
      } else if b != [] {
        WithKeyOfHead(b, axis);
      }
    } else {
      StableHeads(a, b, axis);
      StableTails(a, b, axis);
      StableSortUnique(a[1..], b[1..], axis);
      assert a == [a[0]] + a[1..] && b == [b[0]] + b[1..];
    }
  }

  /** The first point of s is the first point of its key. */
  lemma WithKeyOfHead(s: seq<Point>, axis: Axis)
    requires s != []
    ensures WithKey(s, axis, Key(s[0], axis)) == [s[0]] + WithKey(s[1..], axis, Key(s[0], axis))
  {
  }

  /** Sorted sequences with the same points of each key start alike. */
  lemma StableHeads(a: seq<Point>, b: seq<Point>, axis: Axis)
    requires a != [] && b != [] && SortedOn(a, axis) && SortedOn(b, axis)
    requires forall k :: WithKey(a, axis, k) == WithKey(b, axis, k)
    ensures a[0] == b[0]
  {
    var ka, kb := Key(a[0], axis), Key(b[0], axis);
    var wa, wb := WithKey(a, axis, ka), WithKey(b, axis, kb);
    assert wa == [a[0]] + WithKey(a[1..], axis, ka);
    assert wb == [b[0]] + WithKey(b[1..], axis, kb);
    assert WithKey(b, axis, ka) == wa && WithKey(a, axis, kb) == wb;
    var m :| 0 <= m < |b| && b[m] == wa[0];
    var n :| 0 <= n < |a| && a[n] == wb[0];
    assert kb <= ka && ka <= kb;
  }

  /** Dropping the same first point keeps the points of each key alike. */
  lemma StableTails(a: seq<Point>, b: seq<Point>, axis: Axis)
    requires a != [] && b != [] && a[0] == b[0]
    requires forall k :: WithKey(a, axis, k) == WithKey(b, axis, k)
    ensures forall k :: WithKey(a[1..], axis, k) == WithKey(b[1..], axis, k)
  {
    forall k ensures WithKey(a[1..], axis, k) == WithKey(b[1..], axis, k) {
      var head := if Key(a[0], axis) == k then [a[0]] else [];
      assert WithKey(a, axis, k) == head + WithKey(a[1..], axis, k);
      assert WithKey(b, axis, k) == head + WithKey(b[1..], axis, k);
      assert WithKey(a, axis, k) == WithKey(b, axis, k);
      assert (head + WithKey(a[1..], axis, k))[|head|..] == WithKey(a[1..], axis, k);
      assert (head + WithKey(b[1..], axis, k))[|head|..] == WithKey(b[1..], axis, k);
    }
  }

  /**
   * Any arrangement of s that is sorted on the key and keeps the input order
   * of each key, which is what Python's sorted returns, is SortBy(s).
   */
  lemma SortByIsStableSort(s: seq<Point>, t: seq<Point>, axis: Axis)
    requires SortedOn(t, axis)
    requires forall k :: WithKey(t, axis, k) == WithKey(s, axis, k)
    ensures t == SortBy(s, axis)
  {
    SortBySpec(s, axis);
    forall k ensures WithKey(t, axis, k) == WithKey(SortBy(s, axis), axis, k) {
      SortByStable(s, axis, k);
    }
    StableSortUnique(t, SortBy(s, axis), axis);
  }

  // ---------------------------------------------------------------------
  // The all-pairs scan shared by brute_force_closest_pair and closest_strip

  /** One comparison: the pair replaces the answer only when strictly closer. */
  function Consider(acc: Closest, p: Point, q: Point): (r: Closest)
    ensures !acc.dist.Less(r.dist) && r.dist.AtMost(SqDist(p, q))
    ensures r == acc || (r.dist.Less(acc.dist) && r == Closest(Finite(SqDist(p, q)), Pair(p, q)))
  {
    if Finite(SqDist(p, q)).Less(acc.dist) then Closest(Finite(SqDist(p, q)), Pair(p, q))
    else acc
  }

  /** The inner loop: pts[i] against pts[j], pts[j + 1], ... */
  function ScanRow(acc: Closest, pts: seq<Point>, i: nat, j: nat): (r: Closest)
    requires i < |pts| && j <= |pts|
    ensures !acc.dist.Less(r.dist)
    decreases |pts| - j
  {
    if j == |pts| then acc else ScanRow(Consider(acc, pts[i], pts[j]), pts, i, j + 1)
  }

  /** The outer loop, from row i on. */
  function ScanFrom(acc: Closest, pts: seq<Point>, i: nat): (r: Closest)
    requires i <= |pts|
    ensures !acc.dist.Less(r.dist)
    decreases |pts| - i
  {
    if i == |pts| then acc else ScanFrom(ScanRow(acc, pts, i, i + 1), pts, i + 1)
  }

  /** Every pair (i, j) with i < j, in the order of the two nested loops. */
  function Scan(acc: Closest, pts: seq<Point>): (r: Closest) {
    ScanFrom(acc, pts, 0)
  }

  lemma {:induction false} ScanRowSpec(acc: Closest, pts: seq<Point>, i: nat, j: nat)
    requires i < j <= |pts|
    ensures !acc.dist.Less(ScanRow(acc, pts, i, j).dist)
    ensures forall b :: j <= b < |pts| ==> ScanRow(acc, pts, i, j).dist.AtMost(SqDist(pts[i], pts[b]))
    ensures ScanRow(acc, pts, i, j) == acc ||
            (ScanRow(acc, pts, i, j).dist.Less(acc.dist) && Witnessed(ScanRow(acc, pts, i, j), pts))
    decreases |pts| - j
  {
    if j < |pts| {
      var c := Consider(acc, pts[i], pts[j]);
      ScanRowSpec(c, pts, i, j + 1);
      if c != acc {
        TwoPositions(pts, i, j);
      }
    }
  }

  lemma {:induction false} ScanFromSpec(acc: Closest, pts: seq<Point>, i: nat)
    requires i <= |pts|
    ensures !acc.dist.Less(ScanFrom(acc, pts, i).dist)
    ensures forall a, b :: i <= a < b < |pts| ==> ScanFrom(acc, pts, i).dist.AtMost(SqDist(pts[a], pts[b]))
    ensures ScanFrom(acc, pts, i) == acc ||
            (ScanFrom(acc, pts, i).dist.Less(acc.dist) && Witnessed(ScanFrom(acc, pts, i), pts))
    decreases |pts| - i
  {
    if i < |pts| {
      var c := ScanRow(acc, pts, i, i + 1);
      ScanRowSpec(acc, pts, i, i + 1);
      ScanFromSpec(c, pts, i + 1);
    }
  }

  /**
   * The scan never ends above its starting distance, bounds every pair of
   * the sequence, and either keeps its start or names a strictly closer pair.
   */
  lemma ScanSpec(acc: Closest, pts: seq<Point>)
    ensures !acc.dist.Less(Scan(acc, pts).dist)
    ensures LowerBound(Scan(acc, pts).dist, pts)
    ensures Scan(acc, pts) == acc || (Scan(acc, pts).dist.Less(acc.dist) && Witnessed(Scan(acc, pts), pts))
  {
    ScanFromSpec(acc, pts, 0);
    IndexBoundIsLowerBound(Scan(acc, pts).dist, pts);
  }

  /**
   * brute_force_closest_pair as a function: with fewer than two points it
   * finds nothing; otherwise it names the closest pair.
   */
  lemma BruteForceSpec(pts: seq<Point>)
    ensures |pts| < 2 ==> Scan(NotFound, pts) == NotFound
    ensures |pts| >= 2 ==> Witnessed(Scan(NotFound, pts), pts) && LowerBound(Scan(NotFound, pts).dist, pts)
  {
    ScanSpec(NotFound, pts);
    if |pts| >= 2 {
      ScanFromSpec(NotFound, pts, 0);
      assert Scan(NotFound, pts).dist.AtMost(SqDist(pts[0], pts[1]));
    } else {
      assert ScanFrom(NotFound, pts, 0) == NotFound;
    }
  }

  /**
   * closest_strip(strip, d) as a function: it never returns more than d, it
   * bounds every pair of the strip, and it names a pair exactly when it found
   * one strictly closer than d.
   */
  lemma StripSpec(strip: seq<Point>, d: Distance)
    ensures var r := Scan(Closest(d, NoPair), SortBy(strip, Y));
      && !d.Less(r.dist)
      && LowerBound(r.dist, strip)
      && (r.pair.Pair? <==> r.dist.Less(d))
      && (r.pair.Pair? ==> Witnessed(r, strip))
      && (r.pair.NoPair? ==> r.dist == d)
  {
    var sorted := SortBy(strip, Y);
    SortBySpec(strip, Y);
    ScanSpec(Closest(d, NoPair), sorted);
  }

  // ---------------------------------------------------------------------
  // The strip and the divide-and-conquer recursion

  /**
   * The strip of closest_pair_recursive: the points, in order, whose x is
   * strictly less than d away from midX.
   */
  function StripOf(pts: seq<Point>, midX: int, d: Distance): (strip: seq<Point>)
    ensures |strip| <= |pts|
    ensures forall n :: 0 <= n < |strip| ==> OffsetBelow(Abs(strip[n].x - midX), d)
  {
    if pts == [] then []
    else (if OffsetBelow(Abs(pts[0].x - midX), d) then [pts[0]] else []) + StripOf(pts[1..], midX, d)
  }

  /** The strip drops points but adds none. */
  lemma {:induction false} StripIsSubset(pts: seq<Point>, midX: int, d: Distance)
    ensures multiset(StripOf(pts, midX, d)) <= multiset(pts)
  {
    if pts != [] {
      var rest := pts[1..];
      StripIsSubset(rest, midX, d);
      var head := if OffsetBelow(Abs(pts[0].x - midX), d) then [pts[0]] else [];
      assert [pts[0]] + rest == pts;
      SubsetCons(pts[0], head, StripOf(rest, midX, d), rest);
    }
  }

  /** Keeping at most the first point, and a sub-multiset of the rest, keeps a sub-multiset. */
  lemma SubsetCons(x: Point, head: seq<Point>, kept: seq<Point>, rest: seq<Point>)
    requires multiset(head) <= multiset{x} && multiset(kept) <= multiset(rest)
    ensures multiset(head + kept) <= multiset([x] + rest)
  {
  }

  /** Every point that passes the test is in the strip. */
  lemma {:induction false} InStrip(pts: seq<Point>, midX: int, d: Distance, p: Point)
    requires p in pts && OffsetBelow(Abs(p.x - midX), d)
    ensures p in StripOf(pts, midX, d)
  {
    if pts[0] != p {
      InStrip(pts[1..], midX, d, p);
    }
  }

  /** The strip of a concatenation is the concatenation of the strips. */
  lemma {:induction false} StripOfAppend(l: seq<Point>, r: seq<Point>, midX: int, d: Distance)
    ensures StripOf(l + r, midX, d) == StripOf(l, midX, d) + StripOf(r, midX, d)
  {
    if l != [] {
      StripOfAppend(l[1..], r, midX, d);
      var head := if OffsetBelow(Abs(l[0].x - midX), d) then [l[0]] else [];
      assert (l + r)[0] == l[0] && (l + r)[1..] == l[1..] + r;
      assert StripOf(l + r, midX, d) == head + StripOf(l[1..] + r, midX, d);
      assert StripOf(l, midX, d) == head + StripOf(l[1..], midX, d);
    } else {
      assert l + r == r;
    }
  }

  /**
   * closest_pair_recursive on points sorted by x: up to three points go to the
   * brute force; otherwise the halves at the index midpoint are solved, d is
   * the smaller answer (the left one on a tie), and the strip scan around the
   * middle point's x replaces it only with a strictly closer pair.
   */
  function ClosestPairRec(pts: seq<Point>): (r: Closest)
    ensures |pts| < 2 ==> r == NotFound
    ensures |pts| >= 2 ==> Witnessed(r, pts)
    decreases |pts|
  {
    if |pts| <= 3 then
      BruteForceSpec(pts);
      Scan(NotFound, pts)
    else
      var mid := |pts| / 2;
      var midPoint := pts[mid];
      var left, right := pts[..mid], pts[mid..];
      assert pts == left + right;
      var resLeft := ClosestPairRec(left);
      var resRight := ClosestPairRec(right);
      var d := if resRight.dist.Less(resLeft.dist) then resRight.dist else resLeft.dist;
      var minPair := if d == resLeft.dist then resLeft.pair else resRight.pair;
      var strip := StripOf(pts, midPoint.x, d);
      var resStrip := Scan(Closest(d, NoPair), SortBy(strip, Y));
      StripSpec(strip, d);
      StripIsSubset(pts, midPoint.x, d);
      if resStrip.dist.Less(d) then resStrip else Closest(d, minPair)
  }

  /** With x sorted, every point of the left half lies at or left of the middle point. */
  lemma SplitByX(pts: seq<Point>, mid: int, p: Point, q: Point)
    requires SortedOn(pts, X) && 0 <= mid < |pts|
    requires p in pts[..mid] && q in pts[mid..]
    ensures p.x <= pts[mid].x <= q.x
  {
    var a :| 0 <= a < mid && pts[a] == p;
    var b :| mid <= b < |pts| && pts[b] == q;
    assert Key(pts[a], X) <= Key(pts[mid], X);
    assert mid < b ==> Key(pts[mid], X) <= Key(pts[b], X);
  }

  /** A coordinate offset never exceeds the distance: (dx)^2 <= SqDist. */
  lemma OffsetWithinDistance(p: Point, q: Point, m: int)
    requires p.x <= m <= q.x
    ensures (m - p.x) * (m - p.x) <= SqDist(p, q) && (q.x - m) * (q.x - m) <= SqDist(p, q)
  {
    var u, v, w := m - p.x, q.x - m, q.x - p.x;
    assert u * u <= w * w by {
      assert 0 <= u <= w;
      assert u * u <= u * w <= w * w;
    }
    assert v * v <= w * w by {
      assert 0 <= v <= w;
      assert v * v <= v * w <= w * w;
    }
    assert (p.y - q.y) * (p.y - q.y) >= 0;
    assert w * w == (p.x - q.x) * (p.x - q.x);
  }

  /**
   * If the middle line's x lies between p and q and their distance is below d,
   * both pass the strip test.
   */
  lemma CrossPairOffsets(p: Point, q: Point, m: int, d: Distance)
    requires p.x <= m <= q.x && !d.AtMost(SqDist(p, q))
    ensures OffsetBelow(Abs(p.x - m), d) && OffsetBelow(Abs(q.x - m), d)
  {
    OffsetWithinDistance(p, q, m);
    assert Abs(p.x - m) == m - p.x && Abs(q.x - m) == q.x - m;
  }

  /** One point from each part of a concatenation makes a pair of it. */
  lemma TwoOfAppend(p: Point, q: Point, l: seq<Point>, r: seq<Point>)
    requires p in l && q in r
    ensures TwoOf(p, q, l + r)
  {
    assert multiset(l + r) == multiset(l) + multiset(r);
    assert p in multiset(l) && q in multiset(r);
  }

  /**
   * A pair split by the middle point and closer than d has both points in
   * the strip.
   */
  lemma CrossPairInStrip(pts: seq<Point>, mid: int, d: Distance, p: Point, q: Point)
    requires SortedOn(pts, X) && 0 <= mid < |pts|
    requires p in pts[..mid] && q in pts[mid..]
    requires !d.AtMost(SqDist(p, q))
    ensures TwoOf(p, q, StripOf(pts, pts[mid].x, d))
  {
    var m := pts[mid].x;
    var l, r := pts[..mid], pts[mid..];
    SplitByX(pts, mid, p, q);
    CrossPairOffsets(p, q, m, d);
    assert pts == l + r;
    StripOfAppend(l, r, m, d);
    InStrip(l, m, d, p);
    InStrip(r, m, d, q);
    TwoOfAppend(p, q, StripOf(l, m, d), StripOf(r, m, d));
  }

  /** A bound on all pairs still holds for any smaller distance. */
  lemma LowerBoundWeaken(e: Distance, d: Distance, pts: seq<Point>)
    requires LowerBound(e, pts) && !e.Less(d)
    ensures LowerBound(d, pts)
  {
  }

  /**
   * A pair split by the middle point is bounded by e, the strip scan's answer
   * with d: either d already bounds it, or it is in the strip.
   */
  lemma CrossPairBound(pts: seq<Point>, mid: int, d: Distance, e: Distance, p: Point, q: Point)
    requires SortedOn(pts, X) && 0 <= mid < |pts|
    requires p in pts[..mid] && q in pts[mid..]
    requires LowerBound(e, StripOf(pts, pts[mid].x, d)) && !d.Less(e)
    ensures e.AtMost(SqDist(p, q))
  {
    if !d.AtMost(SqDist(p, q)) {
      CrossPairInStrip(pts, mid, d, p, q);
    }
  }

  /**
   * The combine step: if d bounds the pairs of each half and e, not above d,
   * bounds the pairs of the strip built with d, then e bounds every pair.
   */
  lemma CombineBound(pts: seq<Point>, mid: int, d: Distance, e: Distance)
    requires SortedOn(pts, X) && 0 <= mid < |pts|
    requires LowerBound(d, pts[..mid]) && LowerBound(d, pts[mid..])
    requires LowerBound(e, StripOf(pts, pts[mid].x, d)) && !d.Less(e)
    ensures LowerBound(e, pts)
  {
    var left, right := pts[..mid], pts[mid..];
    assert pts == left + right;
    forall p, q | TwoOf(p, q, pts) ensures e.AtMost(SqDist(p, q)) {
      TwoOfSplit(p, q, left, right);
      if TwoOf(p, q, left) || TwoOf(p, q, right) {
        assert d.AtMost(SqDist(p, q));
      } else if p in left && q in right {
        CrossPairBound(pts, mid, d, e, p, q);
      } else {
        CrossPairBound(pts, mid, d, e, q, p);
        SqDistSymmetric(p, q);
      }
    }
  }

  /**
   * closest_pair_recursive on points sorted by x returns a distance no
   * greater than that of any two points at distinct positions.
   */
  lemma {:induction false} ClosestPairRecIsMinimal(pts: seq<Point>)
    requires |pts| >= 2 && SortedOn(pts, X)
    ensures LowerBound(ClosestPairRec(pts).dist, pts)
    decreases |pts|
  {
    if |pts| <= 3 {
      BruteForceSpec(pts);
    } else {
      var mid := |pts| / 2;
      var left, right := pts[..mid], pts[mid..];
      var resLeft, resRight := ClosestPairRec(left), ClosestPairRec(right);
      ClosestPairRecIsMinimal(left);
      ClosestPairRecIsMinimal(right);
      var d := if resRight.dist.Less(resLeft.dist) then resRight.dist else resLeft.dist;
      LowerBoundWeaken(resLeft.dist, d, left);
      LowerBoundWeaken(resRight.dist, d, right);
      var strip := StripOf(pts, pts[mid].x, d);
      StripSpec(strip, d);
      var resStrip := Scan(Closest(d, NoPair), SortBy(strip, Y));
      assert ClosestPairRec(pts).dist == resStrip.dist;
      CombineBound(pts, mid, d, resStrip.dist);
    }
  }

  /**
   * closest_pair: with at most one point there is no pair and the distance is
   * infinite; otherwise the points are sorted by x and the recursion returns
   * the true closest pair of two distinct positions of the input.
   */
  function ClosestPairOf(points: seq<Point>): (r: Closest)
    ensures |points| <= 1 ==> r == NotFound
    ensures |points| >= 2 ==> Witnessed(r, points) && LowerBound(r.dist, points)
  {
    if |points| <= 1 then NotFound
    else
      var sorted := SortBy(points, X);
      SortBySpec(points, X);
      ClosestPairRecIsMinimal(sorted);
      ClosestPairRec(sorted)
  }

  /** The corners of a unit square: the closest pair is a side, of length 1. */
  lemma UnitSquareExample(x: int, y: int)
    ensures ClosestPairOf([Point(x, y), Point(x, y + 1), Point(x + 1, y), Point(x + 1, y + 1)]).dist == Finite(1)
  {
    var pts := [Point(x, y), Point(x, y + 1), Point(x + 1, y), Point(x + 1, y + 1)];
    UnitSquareMinimum(pts, ClosestPairOf(pts));
  }

  /** A witnessed lower bound on the corners of a unit square is 1. */
  lemma UnitSquareMinimum(pts: seq<Point>, r: Closest)
    requires |pts| == 4 && pts[0].x == pts[1].x && pts[2].x == pts[3].x == pts[0].x + 1
    requires pts[0].y == pts[2].y && pts[1].y == pts[3].y == pts[0].y + 1
    requires Witnessed(r, pts) && LowerBound(r.dist, pts)
    ensures r.dist == Finite(1)
  {
    TwoPositions(pts, 0, 1);
    assert r.dist.AtMost(SqDist(pts[0], pts[1]));
    var a, b := PositionsOf(r.pair.p, r.pair.q, pts);
    assert SqDist(pts[a], pts[b]) >= 1;
  }

  // ---------------------------------------------------------------------
  // The two nested loops

  /**
   * brute_force_closest_pair: every pair (i, j) with i < j in loop order; a
   * pair replaces the answer only when strictly closer.
   */
  method BruteForceClosestPair(points: seq<Point>) returns (minDistance: Distance, pair: MaybePair)
    ensures Closest(minDistance, pair) == Scan(NotFound, points)
    ensures |points| < 2 ==> minDistance == Infinite && pair == NoPair
    ensures |points| >= 2 ==> Witnessed(Closest(minDistance, pair), points) && LowerBound(minDistance, points)
  {
    minDistance, pair := Infinite, NoPair;
    for i := 0 to |points|
      invariant ScanFrom(Closest(minDistance, pair), points, i) == Scan(NotFound, points)
    {
      for j := i + 1 to |points|
        invariant ScanFrom(ScanRow(Closest(minDistance, pair), points, i, j), points, i + 1) == Scan(NotFound, points)
      {
        var dist := SqDist(points[i], points[j]);
        if Finite(dist).Less(minDistance) {
          minDistance := Finite(dist);
          pair := Pair(points[i], points[j]);
        }
      }
    }
    BruteForceSpec(points);
  }

  /** Pruning a pair whose y-offset is not below the current distance loses nothing. */
  lemma PruneIsSafe(acc: Closest, p: Point, q: Point)
    requires !OffsetBelow(q.y - p.y, acc.dist)
    ensures Consider(acc, p, q) == acc
  {
    var dy := q.y - p.y;
    assert (p.x - q.x) * (p.x - q.x) >= 0;
    assert (p.y - q.y) * (p.y - q.y) == dy * dy;
  }

  /**
   * closest_strip: sorts the strip by y, then checks each pair (i, j) with
   * i < j whose y-offset is below the current distance; the answer starts at
   * (d, None, None) and is replaced only by a strictly closer pair.
   */
  method ClosestStrip(strip: seq<Point>, d: Distance) returns (minDistance: Distance, pair: MaybePair)
    ensures Closest(minDistance, pair) == Scan(Closest(d, NoPair), SortBy(strip, Y))
    ensures !d.Less(minDistance) && LowerBound(minDistance, strip)
    ensures pair.Pair? <==> minDistance.Less(d)
    ensures pair.Pair? ==> Witnessed(Closest(minDistance, pair), strip)
    ensures pair.NoPair? ==> minDistance == d
  {
    minDistance, pair := d, NoPair;
    var sorted := SortBy(strip, Y);
    for i := 0 to |sorted|
      invariant ScanFrom(Closest(minDistance, pair), sorted, i) == Scan(Closest(d, NoPair), sorted)
    {
      for j := i + 1 to |sorted|
        invariant ScanFrom(ScanRow(Closest(minDistance, pair), sorted, i, j), sorted, i + 1)
                  == Scan(Closest(d, NoPair), sorted)
      {
        if OffsetBelow(sorted[j].y - sorted[i].y, minDistance) {
          var dist := SqDist(sorted[i], sorted[j]);
          if Finite(dist).Less(minDistance) {
            minDistance := Finite(dist);
            pair := Pair(sorted[i], sorted[j]);
          }
        } else {
          PruneIsSafe(Closest(minDistance, pair), sorted[i], sorted[j]);
        }
      }
    }
    StripSpec(strip, d);
  }
}
