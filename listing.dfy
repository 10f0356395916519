/** The listing arithmetic of `getNews`: the row order of
    `ORDER BY date DESC, id DESC`, the `LIMIT ? OFFSET ?` window and the
    page count. */
module Listing {

  /** `a` is listed before `b`: a later date first, and on the same date the
      larger id first. `rank` is the database's ordering of the `date`
      column of the row with that id. */
  predicate Before(rank: int -> int, a: int, b: int) {
    rank(a) > rank(b) || (rank(a) == rank(b) && a > b)
  }

  /** `m` comes before every other candidate. */
  predicate IsFirst(ids: set<int>, rank: int -> int, m: int) {
    m in ids && forall b :: b in ids && b != m ==> Before(rank, m, b)
  }

  /** Every non-empty set of candidates has a first one. */
  lemma {:induction false} FirstExists(ids: set<int>, rank: int -> int)
    requires exists y :: y in ids
    ensures exists m :: IsFirst(ids, rank, m)
    decreases |ids|
  {
    var x :| x in ids;
    if forall y :: y in ids ==> y == x {
      assert IsFirst(ids, rank, x);
    } else {
      var y :| y in ids && y != x;
      var rest := ids - {x};
      assert y in rest;
      FirstExists(rest, rank);
      var m :| IsFirst(rest, rank, m);
      if Before(rank, x, m) {
        forall b | b in ids && b != x ensures Before(rank, x, b) {
          if b != m {
            assert Before(rank, m, b);
          }
        }
        assert IsFirst(ids, rank, x);
      } else {
        assert IsFirst(ids, rank, m);
      }
    }
  }

  /** The candidate that is listed first. */
  function First(ids: set<int>, rank: int -> int): (m: int)
    requires exists y :: y in ids
    ensures IsFirst(ids, rank, m)
  {
    FirstExists(ids, rank);
    var m :| IsFirst(ids, rank, m);
    m
  }

  /** All candidates in listing order: the first, then the rest in listing
      order. */
  function Ordered(ids: set<int>, rank: int -> int): (r: seq<int>)
    ensures |r| == |ids|
    ensures forall i :: 0 <= i < |r| ==> r[i] in ids
    decreases |ids|
  {
    if forall y :: y !in ids then
      assert ids == {};
      []
    else
      var m := First(ids, rank);
      var tail := Ordered(ids - {m}, rank);
      assert forall i :: 1 <= i < |[m] + tail| ==> ([m] + tail)[i] == tail[i - 1];
      [m] + tail
  }

  /** The listing holds every candidate. */
  lemma {:induction false} OrderedComplete(ids: set<int>, rank: int -> int)
    ensures forall x :: x in ids ==> x in Ordered(ids, rank)
    decreases |ids|
  {
    if !forall y :: y !in ids {
      var m := First(ids, rank);
      var rest := ids - {m};
      OrderedComplete(rest, rank);
      var r := Ordered(ids, rank);
      assert r == [m] + Ordered(rest, rank);
      forall x | x in ids ensures x in r {
        if x != m {
          assert x in rest;
        }
      }
    }
  }

  /** Every id in `r` comes before all that follow it. */
  predicate Sorted(rank: int -> int, r: seq<int>) {
    forall i, j :: 0 <= i < j < |r| ==> Before(rank, r[i], r[j])
  }

  /** Each candidate in the listing comes before all that follow it. */
  lemma {:induction false} OrderedSorted(ids: set<int>, rank: int -> int)
    ensures Sorted(rank, Ordered(ids, rank))
    decreases |ids|
  {
    if !forall y :: y !in ids {
      var m := First(ids, rank);
      var rest := ids - {m};
      var tail := Ordered(rest, rank);
      OrderedSorted(rest, rank);
      var r := Ordered(ids, rank);
      assert r == [m] + tail;
      forall i, j | 0 <= i < j < |r| ensures Before(rank, r[i], r[j]) {
        var b := tail[j - 1];
        assert r[j] == b;
        if i > 0 {
          assert r[i] == tail[i - 1];
        } else {
          assert b in rest;
        }
      }
    }
  }

  /** Listing order has no repeats. */
  lemma OrderedDistinct(ids: set<int>, rank: int -> int, i: int, j: int)
    requires 0 <= i < j < |Ordered(ids, rank)|
    ensures Ordered(ids, rank)[i] != Ordered(ids, rank)[j]
  {
    OrderedSorted(ids, rank);
  }

  function Min(a: int, b: int): int {
    if a <= b then a else b
  }

  /** `LIMIT limit OFFSET offset` applied to a listing. */
  function Window(xs: seq<int>, offset: nat, limit: nat): (r: seq<int>)
    ensures |r| <= limit
    ensures |r| == Min(limit, |xs| - Min(offset, |xs|))
    ensures forall i :: 0 <= i < |r| ==> r[i] == xs[offset + i]
  {
    xs[Min(offset, |xs|)..Min(offset + limit, |xs|)]
  }

  /** `offset = (page - 1) * limit`: the rows of the `page - 1` whole pages
      before this one are skipped. */
  function Offset(page: int, limit: int): (r: nat)
    requires page >= 1 && limit >= 1
    ensures r % limit == 0 && r / limit == page - 1
  {
    MulNonNegative(page - 1, limit);
    WholePages(page - 1, limit);
    (page - 1) * limit
  }

  /** `q` whole pages of `limit` rows divide evenly into `q` pages. */
  lemma WholePages(q: nat, limit: int)
    requires limit >= 1
    ensures (q * limit) % limit == 0 && (q * limit) / limit == q
  {
    var r := q * limit;
    var d, m := r / limit, r % limit;
    assert r == d * limit + m && 0 <= m < limit;
    if d < q {
      MulMonotone(d + 1, q, limit);
      assert false;
    }
    if d > q {
      MulMonotone(q + 1, d, limit);
      assert false;
    }
  }

  lemma MulNonNegative(a: int, b: int)
    requires a >= 0 && b >= 0
    ensures a * b >= 0
  {
  }

  lemma MulMonotone(a: int, b: int, c: int)
    requires a <= b && c >= 0
    ensures a * c <= b * c
  {
  }

  /** `Math.ceil(total / limit)`: the fewest pages of `limit` rows that hold
      `total` rows. */
  function CeilDiv(total: nat, limit: int): (r: nat)
    requires limit >= 1
    ensures r * limit >= total
    ensures r == 0 || (r - 1) * limit < total
  {
    var q := total / limit;
    assert total == q * limit + total % limit;
    if total % limit == 0 then q
    else
      assert (q + 1) * limit == q * limit + limit;
      q + 1
  }

  /** The ids on page `page`. */
  function PageIds(ids: set<int>, rank: int -> int, page: int, limit: int): (r: seq<int>)
    requires page >= 1 && limit >= 1
  {
    Window(Ordered(ids, rank), Offset(page, limit), limit)
  }

  /** A page lists its rows in listing order. */
  lemma PageSorted(ids: set<int>, rank: int -> int, page: int, limit: int)
    requires page >= 1 && limit >= 1
    ensures Sorted(rank, PageIds(ids, rank, page, limit))
  {
    var xs := Ordered(ids, rank);
    var offset := Offset(page, limit);
    var w := PageIds(ids, rank, page, limit);
    OrderedSorted(ids, rank);
    forall i, j | 0 <= i < j < |w| ensures Before(rank, w[i], w[j]) {
      assert w[i] == xs[offset + i] && w[j] == xs[offset + j];
    }
  }

  /** Position `i` of a listing of `n` rows falls in the window of page
      `i / limit + 1`, and that page is within `ceil(n / limit)`. */
  lemma PageOfPosition(i: int, limit: int, n: nat)
    requires limit >= 1 && 0 <= i < n
    ensures var page := i / limit + 1;
      && 1 <= page <= CeilDiv(n, limit)
      && Offset(page, limit) <= i < Offset(page, limit) + limit
  {
    var q := i / limit;
    assert q * limit <= i < q * limit + limit;
    assert Offset(q + 1, limit) == q * limit;
    var total := CeilDiv(n, limit);
    if total <= q {
      MulMonotone(total, q, limit);
    }
  }

  /** The windows of two different pages do not overlap. */
  lemma PageWindowsDisjoint(p: int, q: int, limit: int, a: int, b: int)
    requires limit >= 1 && 1 <= p < q
    requires Offset(p, limit) <= a < Offset(p, limit) + limit
    requires Offset(q, limit) <= b
    ensures a < b
  {
    assert Offset(p, limit) + limit == p * limit;
    MulMonotone(p, q - 1, limit);
  }

  /** Position `i` of a listing is inside the window of page
      `i / limit + 1`. */
  lemma PositionInWindow(xs: seq<int>, limit: int, i: int)
    requires limit >= 1 && 0 <= i < |xs|
    ensures xs[i] in Window(xs, Offset(i / limit + 1, limit), limit)
  {
    PageOfPosition(i, limit, |xs|);
    var offset := Offset(i / limit + 1, limit);
    var w := Window(xs, offset, limit);
    assert w[i - offset] == xs[i];
  }

  /** The row at listing position `i` is on page `i / limit + 1`, and that
      page is within `totalPages`. */
  lemma EveryRowOnAPage(ids: set<int>, rank: int -> int, limit: int, i: int)
    requires limit >= 1 && 0 <= i < |ids|
    ensures 1 <= i / limit + 1 <= CeilDiv(|ids|, limit)
    ensures Ordered(ids, rank)[i] in PageIds(ids, rank, i / limit + 1, limit)
  {
    PageOfPosition(i, limit, |ids|);
    PositionInWindow(Ordered(ids, rank), limit, i);
  }

  /** In a listing without repeats, two different pages share no entry. */
  lemma WindowsShareNothing(xs: seq<int>, limit: int, p: int, q: int, x: int)
    requires limit >= 1 && 1 <= p < q
    requires forall i, j :: 0 <= i < j < |xs| ==> xs[i] != xs[j]
    requires x in Window(xs, Offset(p, limit), limit)
    ensures x !in Window(xs, Offset(q, limit), limit)
  {
    var wp, wq := Window(xs, Offset(p, limit), limit), Window(xs, Offset(q, limit), limit);
    var i :| 0 <= i < |wp| && wp[i] == x;
    if x in wq {
      var j :| 0 <= j < |wq| && wq[j] == x;
      var a, b := Offset(p, limit) + i, Offset(q, limit) + j;
      PageWindowsDisjoint(p, q, limit, a, b);
      assert false;
    }
  }

  /** Two different pages share no row. */
  lemma PagesDisjoint(ids: set<int>, rank: int -> int, limit: int, p: int, q: int, x: int)
    requires limit >= 1 && 1 <= p < q
    requires x in PageIds(ids, rank, p, limit)
    ensures x !in PageIds(ids, rank, q, limit)
  {
    var xs := Ordered(ids, rank);
    forall i, j | 0 <= i < j < |xs| ensures xs[i] != xs[j] {
      OrderedDistinct(ids, rank, i, j);
    }
    WindowsShareNothing(xs, limit, p, q, x);
  }
}
