/** Reading a matrix (a Python list of lists) at 1-based positions, the way
    both serpentine variants index it: `m[i - 1][j - 1]`. */
module Grid {
  import opened Common

  type Cell = (int, int)

  /** `m[i - 1][j - 1]` in Python: None when either index raises IndexError. */
  function At(m: seq<seq<int>>, i: int, j: int): Option<int>
  {
    match PyIndex(m, i - 1)
    case None => None
    case Some(row) => PyIndex(row, j - 1)
  }

  /** What reading a series of cells leaves behind: the values emitted so far,
      and whether a read raised IndexError (which stops everything). */
  datatype Trace = Trace(emitted: seq<int>, crashed: bool)

  /** A 1-based position inside the matrix reads its element; a row index
      past either end of the matrix, counting from the back too, raises
      IndexError. */
  lemma AtRange(m: seq<seq<int>>, i: int, j: int)
    ensures 1 <= i <= |m| && 1 <= j <= |m[i - 1]| ==> At(m, i, j) == Some(m[i - 1][j - 1])
    ensures i > |m| || i < 1 - |m| ==> At(m, i, j) == None
  {
  }

  /** Reads `cells` in order after the values `acc` were already emitted;
      the first out-of-range read stops the run. */
  function Collect(m: seq<seq<int>>, cells: seq<Cell>, acc: seq<int>): (t: Trace)
    decreases |cells|
  {
    if cells == [] then Trace(acc, false)
    else match At(m, cells[0].0, cells[0].1)
      case None => Trace(acc, true)
      case Some(v) => Collect(m, cells[1..], acc + [v])
  }

  /** A matrix whose `n` rows all have length `cols`. */
  predicate Rectangular(m: seq<seq<int>>, cols: nat)
  {
    forall r :: 0 <= r < |m| ==> |m[r]| == cols
  }

  /** On cells that are all inside the matrix, the run never crashes and
      emits exactly the cells' values, in order. */
  lemma {:induction false} CollectInside(m: seq<seq<int>>, cells: seq<Cell>, acc: seq<int>)
    requires forall k :: 0 <= k < |cells| ==> 1 <= cells[k].0 <= |m| && 1 <= cells[k].1 <= |m[cells[k].0 - 1]|
    ensures Collect(m, cells, acc)
         == Trace(acc + seq(|cells|, k requires 0 <= k < |cells| => m[cells[k].0 - 1][cells[k].1 - 1]), false)
  {
    if cells != [] {
      CollectInside(m, cells[1..], acc + [m[cells[0].0 - 1][cells[0].1 - 1]]);
      var f := seq(|cells|, k requires 0 <= k < |cells| => m[cells[k].0 - 1][cells[k].1 - 1]);
      var g := seq(|cells| - 1, k requires 0 <= k < |cells| - 1 => m[cells[1..][k].0 - 1][cells[1..][k].1 - 1]);
      assert acc + [f[0]] + g == acc + f;
    }
  }
}
