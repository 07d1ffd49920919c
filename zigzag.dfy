/** The zig-zag order both serpentine functions set out to produce: the
    anti-diagonals of the grid in turn, alternately walked down-left and
    up-right, so that every cell is visited exactly once. */
module ZigZag {
  import opened Grid

  function Min(a: int, b: int): int { if a <= b then a else b }

  function Max(a: int, b: int): int { if a <= b then b else a }

  /** A cell of an `n` by `m` grid, 1-based. */
  predicate InGrid(c: Cell, n: int, m: int)
  {
    1 <= c.0 <= n && 1 <= c.1 <= m
  }

  /** No cell occurs twice. */
  ghost predicate Distinct(s: seq<Cell>)
  {
    forall p, q :: 0 <= p < q < |s| ==> s[p] != s[q]
  }

  /** The cells with `i + j == d`, by increasing row when `d` is odd
      (down-left) and by decreasing row when `d` is even (up-right). */
  function Diagonal(n: int, m: int, d: int): seq<Cell>
  {
    var lo, hi := Max(1, d - m), Min(n, d - 1);
    if lo > hi then []
    else if d % 2 == 1 then seq(hi - lo + 1, k requires 0 <= k <= hi - lo => (lo + k, d - lo - k))
    else seq(hi - lo + 1, k requires 0 <= k <= hi - lo => (hi - k, d - hi + k))
  }

  /** The anti-diagonals from `d` to the last one, in turn. */
  function Diagonals(n: int, m: int, d: int): seq<Cell>
    decreases n + m - d
  {
    if d > n + m then [] else Diagonal(n, m, d) + Diagonals(n, m, d + 1)
  }

  /** The zig-zag order of an `n` by `m` grid, starting at `(1, 1)`. */
  function ZigZagOrder(n: nat, m: nat): seq<Cell>
  {
    Diagonals(n, m, 2)
  }

  /** Diagonal `d` holds exactly the grid's cells with `i + j == d`, each
      once. */
  lemma DiagonalCells(n: int, m: int, d: int)
    ensures forall k :: 0 <= k < |Diagonal(n, m, d)| ==>
              InGrid(Diagonal(n, m, d)[k], n, m) && Diagonal(n, m, d)[k].0 + Diagonal(n, m, d)[k].1 == d
    ensures forall c :: InGrid(c, n, m) && c.0 + c.1 == d ==> c in Diagonal(n, m, d)
    ensures Distinct(Diagonal(n, m, d))
  {
    var lo, hi := Max(1, d - m), Min(n, d - 1);
    var s := Diagonal(n, m, d);
    forall c | InGrid(c, n, m) && c.0 + c.1 == d
      ensures c in s
    {
      var k := if d % 2 == 1 then c.0 - lo else hi - c.0;
      assert s[k] == c;
    }
  }

  /** From diagonal `d` on, the order holds only grid cells with
      `i + j >= d`. */
  lemma {:induction false} DiagonalsInGrid(n: int, m: int, d: int)
    ensures forall k :: 0 <= k < |Diagonals(n, m, d)| ==>
              InGrid(Diagonals(n, m, d)[k], n, m) && Diagonals(n, m, d)[k].0 + Diagonals(n, m, d)[k].1 >= d
    decreases n + m - d
  {
    if d <= n + m {
      DiagonalCells(n, m, d);
      DiagonalsInGrid(n, m, d + 1);
      var a, b := Diagonal(n, m, d), Diagonals(n, m, d + 1);
      var s := a + b;
      forall k | 0 <= k < |s|
        ensures InGrid(s[k], n, m) && s[k].0 + s[k].1 >= d
      {
        if k >= |a| {
          assert s[k] == b[k - |a|];
        }
      }
    }
  }

  /** From diagonal `d` on, the order holds every grid cell with
      `i + j >= d`. */
  lemma {:induction false} DiagonalsCover(n: int, m: int, d: int)
    ensures forall c :: InGrid(c, n, m) && c.0 + c.1 >= d ==> c in Diagonals(n, m, d)
    decreases n + m - d
  {
    if d <= n + m {
      DiagonalCells(n, m, d);
      DiagonalsCover(n, m, d + 1);
      var a, b := Diagonal(n, m, d), Diagonals(n, m, d + 1);
      forall c | InGrid(c, n, m) && c.0 + c.1 >= d
        ensures c in a + b
      {
        if c.0 + c.1 == d {
          assert c in a;
        } else {
          assert c in b;
        }
      }
    }
  }

  /** From diagonal `d` on, no cell occurs twice. */
  lemma {:induction false} DiagonalsDistinct(n: int, m: int, d: int)
    ensures Distinct(Diagonals(n, m, d))
    decreases n + m - d
  {
    if d <= n + m {
      DiagonalCells(n, m, d);
      DiagonalsInGrid(n, m, d + 1);
      DiagonalsDistinct(n, m, d + 1);
      var a, b := Diagonal(n, m, d), Diagonals(n, m, d + 1);
      var s := a + b;
      forall p, q | 0 <= p < q < |s|
        ensures s[p] != s[q]
      {
        if q < |a| {
          assert s[p] == a[p] && s[q] == a[q];
        } else if p >= |a| {
          assert s[p] == b[p - |a|] && s[q] == b[q - |a|];
        } else {
          assert s[p] == a[p] && s[q] == b[q - |a|];
        }
      }
    }
  }

  /** The zig-zag order visits every cell of the grid exactly once and
      nothing outside it. */
  lemma ZigZagVisitsEachCellOnce(n: nat, m: nat)
    ensures forall k :: 0 <= k < |ZigZagOrder(n, m)| ==> InGrid(ZigZagOrder(n, m)[k], n, m)
    ensures forall c :: InGrid(c, n, m) ==> c in ZigZagOrder(n, m)
    ensures Distinct(ZigZagOrder(n, m))
  {
    DiagonalsInGrid(n, m, 2);
    DiagonalsCover(n, m, 2);
    DiagonalsDistinct(n, m, 2);
  }

  /** Scanning a rectangular matrix in zig-zag order reads every element,
      each once, and never leaves the matrix. */
  lemma ZigZagScan(matrix: seq<seq<int>>, m: nat)
    requires Rectangular(matrix, m)
    ensures forall k :: 0 <= k < |ZigZagOrder(|matrix|, m)| ==> InGrid(ZigZagOrder(|matrix|, m)[k], |matrix|, m)
    ensures Collect(matrix, ZigZagOrder(|matrix|, m), [])
         == Trace(seq(|ZigZagOrder(|matrix|, m)|,
                      k requires 0 <= k < |ZigZagOrder(|matrix|, m)| && InGrid(ZigZagOrder(|matrix|, m)[k], |matrix|, m) =>
                        matrix[ZigZagOrder(|matrix|, m)[k].0 - 1][ZigZagOrder(|matrix|, m)[k].1 - 1]), false)
  {
    var order := ZigZagOrder(|matrix|, m);
    ZigZagVisitsEachCellOnce(|matrix|, m);
    forall k | 0 <= k < |order|
      ensures 1 <= order[k].0 <= |matrix| && 1 <= order[k].1 <= |matrix[order[k].0 - 1]|
    {
      assert InGrid(order[k], |matrix|, m);
    }
    CollectInside(matrix, order, []);
    assert [] + seq(|order|, k requires 0 <= k < |order| => matrix[order[k].0 - 1][order[k].1 - 1])
        == seq(|order|, k requires 0 <= k < |order| => matrix[order[k].0 - 1][order[k].1 - 1]);
  }
}
