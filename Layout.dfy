/** The catalog grid of the shop app: `update_products` lays the products out
    in order, opening a new horizontal row at every even index, so that each
    row holds two cards and only the last one may hold a single card. */
module Layout {

  /** `xs` in order, two per row: ceil(n/2) rows. */
  function Rows<T>(xs: seq<T>): (rows: seq<seq<T>>)
    ensures |rows| == (|xs| + 1) / 2
  {
    if |xs| <= 2 then (if xs == [] then [] else [xs])
    else [xs[..2]] + Rows(xs[2..])
  }

  /** The rows read left to right, top to bottom. */
  function Flatten<T>(rows: seq<seq<T>>): seq<T> {
    if rows == [] then [] else rows[0] + Flatten(rows[1..])
  }

  function Min(x: int, y: int): int {
    if x <= y then x else y
  }

  /** Row k holds items 2k and 2k+1; every row holds one or two items, and
      every row but the last exactly two. */
  lemma {:induction false} RowsShape<T>(xs: seq<T>)
    ensures forall k :: 0 <= k < |Rows(xs)| ==> Rows(xs)[k] == xs[2 * k .. Min(2 * k + 2, |xs|)]
    ensures forall k :: 0 <= k < |Rows(xs)| ==> 1 <= |Rows(xs)[k]| <= 2
    ensures forall k :: 0 <= k < |Rows(xs)| - 1 ==> |Rows(xs)[k]| == 2
  {
    if |xs| > 2 {
      var tail := xs[2..];
      RowsShape(tail);
      var r := Rows(xs);
      assert r == [xs[..2]] + Rows(tail);
      forall k | 1 <= k < |r|
        ensures r[k] == xs[2 * k .. Min(2 * k + 2, |xs|)]
      {
        assert r[k] == Rows(tail)[k - 1];
        var lo, hi := 2 * (k - 1), Min(2 * (k - 1) + 2, |tail|);
        assert Min(2 * k + 2, |xs|) == hi + 2;
        DropThenSlice(xs, 2, lo, hi);
      }
    }
  }

  /** Slicing what is left after dropping `d` items is slicing `d` further on. */
  lemma DropThenSlice<T>(xs: seq<T>, d: nat, lo: nat, hi: nat)
    requires d <= |xs| && lo <= hi <= |xs| - d
    ensures xs[d..][lo..hi] == xs[lo + d .. hi + d]
  {
    forall j | 0 <= j < hi - lo
      ensures xs[d..][lo..hi][j] == xs[lo + d .. hi + d][j]
    {
    }
  }

  /** Grouping keeps every item, in order. */
  lemma {:induction false} RowsFlatten<T>(xs: seq<T>)
    ensures Flatten(Rows(xs)) == xs
  {
    if |xs| > 2 {
      RowsFlatten(xs[2..]);
      assert ([xs[..2]] + Rows(xs[2..]))[1..] == Rows(xs[2..]);
      assert xs[..2] + xs[2..] == xs;
    } else if xs != [] {
      assert Flatten([xs]) == xs + Flatten([]);
    }
  }

  /** Every item of every row is one of the items laid out. */
  lemma {:induction false} RowsMembers<T>(xs: seq<T>)
    ensures forall row, x | row in Rows(xs) && x in row :: x in xs
  {
    if |xs| > 2 {
      RowsMembers(xs[2..]);
      forall row, x | row in Rows(xs) && x in row
        ensures x in xs
      {
        if row != xs[..2] {
          assert row in Rows(xs[2..]);
          assert x in xs[2..];
        }
      }
    }
  }

  /** One more item either opens a new row (after an even count) or completes the last row. */
  lemma {:induction false} RowsSnoc<T>(xs: seq<T>, x: T)
    ensures |xs| % 2 == 0 ==> Rows(xs + [x]) == Rows(xs) + [[x]]
    ensures |xs| % 2 == 1 ==> (|Rows(xs)| >= 1 &&
      Rows(xs + [x]) == Rows(xs)[..|Rows(xs)| - 1] + [Rows(xs)[|Rows(xs)| - 1] + [x]])
  {
    if |xs| == 0 {
      assert xs + [x] == [x];
    } else if |xs| == 1 {
      assert Rows(xs) == [xs];
    } else if |xs| == 2 {
      var ys := xs + [x];
      assert ys[..2] == xs && ys[2..] == [x];
    } else {
      var ys := xs + [x];
      assert ys[..2] == xs[..2] && ys[2..] == xs[2..] + [x];
      RowsSnoc(xs[2..], x);
      var r := Rows(xs[2..]);
      assert Rows(xs) == [xs[..2]] + r;
      assert Rows(ys) == [xs[..2]] + Rows(xs[2..] + [x]);
      if |xs| % 2 == 1 {
        assert |r| >= 1;
        assert ([xs[..2]] + r)[..|r|] == [xs[..2]] + r[..|r| - 1];
      }
    }
  }
}
