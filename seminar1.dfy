/** The first seminar's `Translator`: a serpentine that prints cells instead
    of returning them (two per boundary step), and a run-length encoder that
    keeps an extra counter and cannot take an empty series. */
module Seminar1 {
  import opened Common
  import opened Grid
  import opened RunLength
  import opened ZigZag

  /** One pass of the loop body from `(i, j)` with direction `up`: the
      positions it reads (a boundary branch reads a second cell after its
      first move) and the position and direction it leaves behind. */
  datatype Step = Step(visits: seq<Cell>, i: int, j: int, up: bool)

  function Next(n: int, m: int, i: int, j: int, up: bool): (s: Step)
    ensures s.i + s.j > i + j || (s.i + s.j == i + j && s.up == up && (if up then s.j > j else s.i > i))
  {
    if i == n then Step([(i, j), (i, j + 1)], i - 1, j + 2, true)
    else if j == m then Step([(i, j), (i + 1, j)], i + 2, j - 1, false)
    else if i == 1 then Step([(i, j), (i, j + 1)], i + 1, j, false)
    else if j == 1 then Step([(i, j), (i + 1, j)], i, j + 1, true)
    else if up then Step([(i, j)], i - 1, j + 1, up)
    else Step([(i, j)], i + 1, j - 1, up)
  }

  /** The positions the printing loop reads, in order, while `i <= N` and
      `j <= M`. Positions may leave the matrix, including row or column 0,
      which Python reads from the end. */
  function Walk(n: int, m: int, i: int, j: int, up: bool): seq<Cell>
    decreases n + m - i - j, if up then m - j else n - i
  {
    if !(i <= n && j <= m) then []
    else
      var s := Next(n, m, i, j, up);
      s.visits + Walk(n, m, s.i, s.j, s.up)
  }

  /** Reading a cell that holds `v` extends the trace by `v`. */
  lemma ReadOk(mat: seq<seq<int>>, c: Cell, rest: seq<Cell>, acc: seq<int>, v: int)
    requires At(mat, c.0, c.1) == Some(v)
    ensures Collect(mat, [c] + rest, acc) == Collect(mat, rest, acc + [v])
  {
    assert ([c] + rest)[1..] == rest;
  }

  /** Reading a cell out of range stops the trace where it is. */
  lemma ReadFails(mat: seq<seq<int>>, c: Cell, rest: seq<Cell>, acc: seq<int>)
    requires At(mat, c.0, c.1) == None
    ensures Collect(mat, [c] + rest, acc) == Trace(acc, true)
  {
  }

  /** A boundary pass from `(i, j)` whose first read yields `v`: when its
      second read, at `c`, fails the run stops there; otherwise the run goes
      on from `(ni, nj)` with both values printed. */
  lemma BoundaryStep(mat: seq<seq<int>>, n: int, m: int, i: int, j: int, up: bool, out: seq<int>, v: int,
                     c: Cell, ni: int, nj: int, nup: bool)
    requires i <= n && j <= m
    requires Next(n, m, i, j, up) == Step([(i, j), c], ni, nj, nup)
    requires At(mat, i, j) == Some(v)
    ensures At(mat, c.0, c.1).None? ==> Collect(mat, Walk(n, m, i, j, up), out) == Trace(out + [v], true)
    ensures At(mat, c.0, c.1).Some? ==>
              Collect(mat, Walk(n, m, i, j, up), out) == Collect(mat, Walk(n, m, ni, nj, nup), out + [v] + [At(mat, c.0, c.1).value])
  {
    var rest := Walk(n, m, ni, nj, nup);
    assert Walk(n, m, i, j, up) == [(i, j)] + ([c] + rest);
    ReadOk(mat, (i, j), [c] + rest, out, v);
    if At(mat, c.0, c.1).Some? {
      ReadOk(mat, c, rest, out + [v], At(mat, c.0, c.1).value);
    }
  }

  /** A diagonal pass from `(i, j)` prints one value and moves on. */
  lemma DiagonalStep(mat: seq<seq<int>>, n: int, m: int, i: int, j: int, up: bool, out: seq<int>, v: int,
                     ni: int, nj: int)
    requires i <= n && j <= m
    requires Next(n, m, i, j, up) == Step([(i, j)], ni, nj, up)
    requires At(mat, i, j) == Some(v)
    ensures Collect(mat, Walk(n, m, i, j, up), out) == Collect(mat, Walk(n, m, ni, nj, up), out + [v])
  {
    ReadOk(mat, (i, j), Walk(n, m, ni, nj, up), out, v);
  }

  /** A run whose first read fails stops at once. */
  lemma FirstReadFails(mat: seq<seq<int>>, n: int, m: int, i: int, j: int, up: bool, out: seq<int>)
    requires i <= n && j <= m
    requires At(mat, i, j) == None
    ensures Collect(mat, Walk(n, m, i, j, up), out) == Trace(out, true)
  {
    var s := Next(n, m, i, j, up);
    var rest := s.visits[1..] + Walk(n, m, s.i, s.j, s.up);
    assert Walk(n, m, i, j, up) == [(i, j)] + rest;
    ReadFails(mat, (i, j), rest, out);
  }

  /** What the loop prints from position `(i, j)` with direction `up`, after
      printing `out`, branch by branch as the loop body is written: a
      boundary branch prints a second cell after its first move, and any
      out-of-range read ends the run. */
  ghost function Printing(mat: seq<seq<int>>, n: int, m: int, i: int, j: int, up: bool, out: seq<int>): Trace
    decreases n + m - i - j, if up then m - j else n - i
  {
    if !(i <= n && j <= m) then Trace(out, false)
    else match At(mat, i, j)
      case None => Trace(out, true)
      case Some(v) =>
        if i == n then
          match At(mat, i, j + 1)
          case None => Trace(out + [v], true)
          case Some(w) => Printing(mat, n, m, i - 1, j + 1 + 1, true, out + [v] + [w])
        else if j == m then
          match At(mat, i + 1, j)
          case None => Trace(out + [v], true)
          case Some(w) => Printing(mat, n, m, i + 1 + 1, j - 1, false, out + [v] + [w])
        else if i == 1 then
          match At(mat, i, j + 1)
          case None => Trace(out + [v], true)
          case Some(w) => Printing(mat, n, m, i + 1, j + 1 - 1, false, out + [v] + [w])
        else if j == 1 then
          match At(mat, i + 1, j)
          case None => Trace(out + [v], true)
          case Some(w) => Printing(mat, n, m, i + 1 - 1, j + 1, true, out + [v] + [w])
        else if up then Printing(mat, n, m, i - 1, j + 1, up, out + [v])
        else Printing(mat, n, m, i + 1, j - 1, up, out + [v])
  }

  /** One pass of the loop, from a position whose read yields `v`, as the
      pass `Next` describes. */
  lemma PrintingStep(mat: seq<seq<int>>, n: int, m: int, i: int, j: int, up: bool, out: seq<int>, v: int)
    requires i <= n && j <= m && At(mat, i, j) == Some(v)
    ensures var s := Next(n, m, i, j, up);
            |s.visits| == 1 ==> Printing(mat, n, m, i, j, up, out) == Printing(mat, n, m, s.i, s.j, s.up, out + [v])
    ensures var s := Next(n, m, i, j, up);
            |s.visits| == 2 && At(mat, s.visits[1].0, s.visits[1].1).None? ==>
              Printing(mat, n, m, i, j, up, out) == Trace(out + [v], true)
    ensures var s := Next(n, m, i, j, up);
            |s.visits| == 2 && At(mat, s.visits[1].0, s.visits[1].1).Some? ==>
              Printing(mat, n, m, i, j, up, out)
              == Printing(mat, n, m, s.i, s.j, s.up, out + [v] + [At(mat, s.visits[1].0, s.visits[1].1).value])
  {
  }

  /** The loop's printing is the position walk read cell by cell: the same
      values, and a crash exactly at the walk's first out-of-range cell. */
  lemma {:induction false} PrintingReadsWalk(mat: seq<seq<int>>, n: int, m: int, i: int, j: int, up: bool, out: seq<int>)
    ensures Printing(mat, n, m, i, j, up, out) == Collect(mat, Walk(n, m, i, j, up), out)
    decreases n + m - i - j, if up then m - j else n - i
  {
    if i <= n && j <= m {
      var s := Next(n, m, i, j, up);
      match At(mat, i, j)
      case None =>
        FirstReadFails(mat, n, m, i, j, up, out);
      case Some(v) =>
        PrintingStep(mat, n, m, i, j, up, out, v);
        if |s.visits| == 1 {
          DiagonalStep(mat, n, m, i, j, up, out, v, s.i, s.j);
          PrintingReadsWalk(mat, n, m, s.i, s.j, s.up, out + [v]);
        } else {
          var c := s.visits[1];
          BoundaryStep(mat, n, m, i, j, up, out, v, c, s.i, s.j, s.up);
          if At(mat, c.0, c.1).Some? {
            PrintingReadsWalk(mat, n, m, s.i, s.j, s.up, out + [v] + [At(mat, c.0, c.1).value]);
          }
        }
    }
  }

  /** `Translator.serpentine(m, N, M)` as written: the printed cells, in
      order, and whether a read raised IndexError. */
  method Serpentine(mat: seq<seq<int>>, n: nat, m: nat) returns (printed: Trace)
    ensures printed == Collect(mat, Walk(n, m, 1, 1, false), [])
  {
    var i, j := 1, 1;
    var up := false;
    var out: seq<int> := [];
    ghost var total := Printing(mat, n, m, i, j, up, out);
    PrintingReadsWalk(mat, n, m, i, j, up, out);
    while i <= n && j <= m
      invariant total == Printing(mat, n, m, i, j, up, out)
      decreases n + m - i - j, if up then m - j else n - i
    {
      var c := At(mat, i, j);
      if c.None? {
        return Trace(out, true);
      }
      out := out + [c.value];
      if i == n {
        j := j + 1;
        var d := At(mat, i, j);
        if d.None? {
          return Trace(out, true);
        }
        out := out + [d.value];
        up := true;
        i := i - 1;
        j := j + 1;
      } else if j == m {
        i := i + 1;
        var d := At(mat, i, j);
        if d.None? {
          return Trace(out, true);
        }
        out := out + [d.value];
        up := false;
        i := i + 1;
        j := j - 1;
      } else if i == 1 {
        j := j + 1;
        var d := At(mat, i, j);
        if d.None? {
          return Trace(out, true);
        }
        out := out + [d.value];
        up := false;
        i := i + 1;
        j := j - 1;
      } else if j == 1 {
        i := i + 1;
        var d := At(mat, i, j);
        if d.None? {
          return Trace(out, true);
        }
        out := out + [d.value];
        up := true;
        i := i - 1;
        j := j + 1;
      } else {
        if up {
          i := i - 1;
          j := j + 1;
        } else {
          i := i + 1;
          j := j - 1;
        }
      }
    }
    printed := Trace(out, false);
  }

  /** The 4 by 3 shape the seminar script runs: twelve reads, each cell of
      the matrix exactly once, in zig-zag order. */
  lemma WalkFourByThree()
    ensures Walk(4, 3, 1, 1, false)
         == [(1, 1), (1, 2), (2, 1), (3, 1), (2, 2), (1, 3), (2, 3), (3, 2), (4, 1), (4, 2), (3, 3), (4, 3)]
  {
  }

  /** On the 4 by 3 shape the walk is the zig-zag order. */
  lemma WalkIsZigZagFourByThree()
    ensures Walk(4, 3, 1, 1, false) == ZigZagOrder(4, 3)
  {
    WalkFourByThree();
  }

  /** Reading the `k`-th cell, known to hold `vals[k]`, moves the trace from
      the first `k` values to the first `k + 1`. */
  lemma ReadNth(mat: seq<seq<int>>, cells: seq<Cell>, vals: seq<int>, k: nat)
    requires k < |cells| && |cells| <= |vals|
    requires At(mat, cells[k].0, cells[k].1) == Some(vals[k])
          || (1 <= cells[k].0 <= |mat| && 1 <= cells[k].1 <= |mat[cells[k].0 - 1]|
              && vals[k] == mat[cells[k].0 - 1][cells[k].1 - 1])
    ensures Collect(mat, cells[k..], vals[..k]) == Collect(mat, cells[k + 1..], vals[..k + 1])
  {
    assert At(mat, cells[k].0, cells[k].1) == Some(vals[k]);
    assert cells[k..][1..] == cells[k + 1..];
    assert vals[..k] + [vals[k]] == vals[..k + 1];
  }

  /** On any 4 by 3 matrix the loop prints the cells in that order and never
      reads out of range. */
  lemma SerpentineFourByThree(mat: seq<seq<int>>)
    requires |mat| == 4 && Rectangular(mat, 3)
    ensures Collect(mat, Walk(4, 3, 1, 1, false), [])
         == Trace([mat[0][0], mat[0][1], mat[1][0], mat[2][0], mat[1][1], mat[0][2],
                   mat[1][2], mat[2][1], mat[3][0], mat[3][1], mat[2][2], mat[3][2]], false)
  {
    WalkFourByThree();
    ReadFourByThree(mat, [(1, 1), (1, 2), (2, 1), (3, 1), (2, 2), (1, 3), (2, 3), (3, 2), (4, 1), (4, 2), (3, 3), (4, 3)]);
  }

  lemma ReadFourByThree(mat: seq<seq<int>>, w: seq<Cell>)
    requires |mat| == 4 && Rectangular(mat, 3)
    requires w == [(1, 1), (1, 2), (2, 1), (3, 1), (2, 2), (1, 3), (2, 3), (3, 2), (4, 1), (4, 2), (3, 3), (4, 3)]
    ensures Collect(mat, w, [])
         == Trace([mat[0][0], mat[0][1], mat[1][0], mat[2][0], mat[1][1], mat[0][2],
                   mat[1][2], mat[2][1], mat[3][0], mat[3][1], mat[2][2], mat[3][2]], false)
  {
    assert |mat[0]| == 3 && |mat[1]| == 3 && |mat[2]| == 3 && |mat[3]| == 3;
    CollectInside(mat, w, []);
  }

  /** On a 1 by 1 matrix the last-row branch reads `m[0][1]`: one cell is
      printed and then IndexError is raised. */
  lemma SerpentineOneByOne(mat: seq<seq<int>>)
    requires |mat| == 1 && Rectangular(mat, 1)
    ensures Collect(mat, Walk(1, 1, 1, 1, false), []) == Trace([mat[0][0]], true)
  {
    var w := Walk(1, 1, 1, 1, false);
    assert w == [(1, 1), (1, 2)];
    assert |mat[0]| == 1;
    ReadOk(mat, (1, 1), [(1, 2)], [], mat[0][0]);
    assert [(1, 1)] + [(1, 2)] == w;
  }

  /** On a 1 by 3 matrix the walk steps to row 0, which Python reads as the
      last row: four cells are printed for three, the last cell twice. */
  lemma SerpentineOneByThree(mat: seq<seq<int>>)
    requires |mat| == 1 && Rectangular(mat, 3)
    ensures Walk(1, 3, 1, 1, false) == [(1, 1), (1, 2), (0, 3), (1, 3)]
    ensures Collect(mat, Walk(1, 3, 1, 1, false), []) == Trace([mat[0][0], mat[0][1], mat[0][2], mat[0][2]], false)
  {
    var w := Walk(1, 3, 1, 1, false);
    assert w == [(1, 1), (1, 2), (0, 3), (1, 3)];
    var vals := [mat[0][0], mat[0][1], mat[0][2], mat[0][2]];
    assert |mat[0]| == 3;
    assert At(mat, 0, 3) == Some(mat[0][2]);
    assert w[0..] == w && vals[..0] == [] && vals[..4] == vals;
    ReadNth(mat, w, vals, 0);
    ReadNth(mat, w, vals, 1);
    ReadNth(mat, w, vals, 2);
    ReadNth(mat, w, vals, 3);
  }

  /** `Translator.run_length_encoding(serie)` as written. The first iteration
      binds `encoded_serie`; on an empty series the loop never runs and the
      final append reads it unbound. */
  method RunLengthEncoding(serie: seq<int>) returns (r: Result<seq<Run>>)
    ensures serie == [] <==> r.Err?
    ensures r.Err? ==> r.failure == UnboundLocal("encoded_serie")
    ensures r.Ok? ==> Expand(r.value) == serie && Maximal(r.value)
  {
    var encoded: seq<Run> := [];
    var value: int := 0;
    var sum: nat := 0;
    var count: nat := 0;
    for i := 0 to |serie|
      invariant i > 0 ==> value == serie[i - 1] && Pending(encoded, value, sum, serie[..i])
      invariant i == 0 ==> encoded == []
      invariant count == |encoded|
    {
      if i == 0 {
        encoded := [];
        value := serie[i];
        count := 0;
        sum := 1;
        PendingStart(value);
      } else if value == serie[i] {
        PendingSame(encoded, value, sum, serie[..i]);
        sum := sum + 1;
      } else {
        PendingNew(encoded, value, sum, serie[..i], serie[i]);
        encoded := encoded + [Run(value, sum)];
        value := serie[i];
        count := count + 1;
        sum := 1;
      }
      PrefixSnoc(serie, i);
    }
    if serie == [] {
      return Err(UnboundLocal("encoded_serie"));
    }
    assert serie[..|serie|] == serie;
    PendingClose(encoded, value, sum, serie);
    encoded := encoded + [Run(value, sum)];
    r := Ok(encoded);
  }

  /** The series the seminar script encodes has exactly one maximal encoding,
      `[[1,3],[4,2],[2,1],[5,1],[4,1],[5,2]]`; any encoder meeting the
      contracts above returns it. */
  lemma ScriptSeries(runs: seq<Run>)
    requires Maximal(runs) && Expand(runs) == [1, 1, 1, 4, 4, 2, 5, 4, 5, 5]
    ensures runs == [Run(1, 3), Run(4, 2), Run(2, 1), Run(5, 1), Run(4, 1), Run(5, 2)]
  {
    var want := [Run(1, 3), Run(4, 2), Run(2, 1), Run(5, 1), Run(4, 1), Run(5, 2)];
    ScriptRunsDecode(want);
    MaximalRunsUnique(runs, want);
  }

  lemma ScriptRunsDecode(want: seq<Run>)
    requires want == [Run(1, 3), Run(4, 2), Run(2, 1), Run(5, 1), Run(4, 1), Run(5, 2)]
    ensures Maximal(want) && Expand(want) == [1, 1, 1, 4, 4, 2, 5, 4, 5, 5]
  {
    assert Expand(want[5..]) == [5, 5] by {
      assert Repeat(5, 2) == [5, 5];
    }
    assert Expand(want[4..]) == [4, 5, 5] by {
      assert want[4..][1..] == want[5..];
      assert Repeat(4, 1) == [4];
    }
    assert Expand(want[3..]) == [5, 4, 5, 5] by {
      assert want[3..][1..] == want[4..];
      assert Repeat(5, 1) == [5];
    }
    assert Expand(want[2..]) == [2, 5, 4, 5, 5] by {
      assert want[2..][1..] == want[3..];
      assert Repeat(2, 1) == [2];
    }
    assert Expand(want[1..]) == [4, 4, 2, 5, 4, 5, 5] by {
      assert want[1..][1..] == want[2..];
      assert Repeat(4, 2) == [4, 4];
    }
    assert Repeat(1, 3) == [1, 1, 1];
  }
}
