/** The first practice's `Translator`: the serpentine scan that, because of
    the order of its boundary checks, reads the first row and then the rest
    of the last column; and the run-length encoder with its empty-input
    guard. */
module Practice1 {
  import opened Common
  import opened Grid
  import opened RunLength
  import opened ZigZag

  /** The cells the scan visits for an `n` by `m` shape: row 1 left to right,
      then column `m` from row 2 down to row `n`. */
  function ScanPath(n: nat, m: nat): seq<Cell>
  {
    if n == 0 || m == 0 then []
    else seq(m, k => (1, k + 1)) + seq(n - 1, k => (k + 2, m))
  }

  function AsResult(t: Trace): Result<seq<int>>
  {
    if t.crashed then Err(IndexError) else Ok(t.emitted)
  }

  /** `Translator.serpentine(matrix, N, M)`: the loop as written. Only the
      last-row, last-column and first-row branches can run; the first-column
      and diagonal branches are dead, because `i == 1 || j == M` holds at
      every loop head. */
  method Serpentine(matrix: seq<seq<int>>, n: nat, m: nat) returns (r: Result<seq<int>>)
    ensures r == AsResult(Collect(matrix, ScanPath(n, m), []))
  {
    var i, j := 1, 1;
    var up := false;
    var result: seq<int> := [];
    ghost var path := ScanPath(n, m);
    while i <= n && j <= m
      invariant 1 <= i && 1 <= j
      invariant i <= n && j <= m ==> i == 1 || j == m
      invariant i + j - 2 <= |path|
      invariant i <= n && j <= m ==> i + j - 2 < |path| && path[i + j - 2] == (i, j)
      invariant !(i <= n && j <= m) ==> i + j - 2 == |path|
      invariant Collect(matrix, path, []) == Collect(matrix, path[i + j - 2..], result)
      decreases n + m - i - j
    {
      var cell := At(matrix, i, j);
      if cell.None? {
        return Err(IndexError);
      }
      result := result + [cell.value];
      if i == n {
        j := j + 1;
        up := true;
      } else if j == m {
        i := i + 1;
        up := false;
      } else if i == 1 {
        j := j + 1;
        up := false;
      } else {
        // the first-column branch and the diagonal step of the source
        assert false;
      }
    }
    r := Ok(result);
  }

  /** The `/serpentine/` endpoint: N is the number of rows and M the length
      of the first row (0 for an empty matrix). */
  method SerpentineEndpoint(matrix: seq<seq<int>>) returns (r: Result<seq<int>>)
    ensures r == AsResult(Collect(matrix, ScanPath(|matrix|, if matrix == [] then 0 else |matrix[0]|), []))
    ensures matrix == [] || |matrix[0]| == 0 ==> r == Ok([])
    ensures matrix != [] && Rectangular(matrix, |matrix[0]|) && |matrix[0]| > 0 ==>
              r == Ok(matrix[0] + seq(|matrix| - 1, k requires 0 <= k < |matrix| - 1 => matrix[k + 1][|matrix[0]| - 1]))
  {
    var n := |matrix|;
    var m := if matrix != [] then |matrix[0]| else 0;
    r := Serpentine(matrix, n, m);
    if matrix != [] && Rectangular(matrix, m) && m > 0 {
      ScanOfRectangle(matrix, m);
    }
  }

  /** On an N by M matrix (N, M >= 1) the scan yields the first row followed
      by the last cell of every other row: N + M - 1 values, and no
      out-of-range read. */
  lemma ScanOfRectangle(matrix: seq<seq<int>>, m: nat)
    requires |matrix| >= 1 && m >= 1 && Rectangular(matrix, m)
    ensures |ScanPath(|matrix|, m)| == |matrix| + m - 1
    ensures Collect(matrix, ScanPath(|matrix|, m), [])
         == Trace(matrix[0] + seq(|matrix| - 1, k requires 0 <= k < |matrix| - 1 => matrix[k + 1][m - 1]), false)
  {
    var n := |matrix|;
    var path := ScanPath(n, m);
    CollectInside(matrix, path, []);
    var vals := seq(|path|, k requires 0 <= k < |path| => matrix[path[k].0 - 1][path[k].1 - 1]);
    var want := matrix[0] + seq(n - 1, k requires 0 <= k < n - 1 => matrix[k + 1][m - 1]);
    assert |vals| == |want|;
    forall k | 0 <= k < |vals| ensures vals[k] == want[k] {
      if k < m {
        assert path[k] == (1, k + 1);
      } else {
        assert path[k] == (k - m + 2, m);
      }
    }
    assert [] + vals == want;
  }

  /** On any grid of at least two rows and two columns the scan never reads
      cell `(2, 1)`, which the zig-zag order visits third. */
  lemma ScanMissesCells(n: nat, m: nat)
    requires n >= 2 && m >= 2
    ensures InGrid((2, 1), n, m) && (2, 1) !in ScanPath(n, m)
    ensures |ZigZagOrder(n, m)| >= 3 && ZigZagOrder(n, m)[2] == (2, 1)
  {
    var d3 := Diagonal(n, m, 3);
    assert Diagonal(n, m, 2) == [(1, 1)];
    assert d3 == [(1, 2), (2, 1)];
    assert Diagonals(n, m, 2) == [(1, 1)] + (d3 + Diagonals(n, m, 4));
  }

  /** `Translator.run_length_encoding(serie)`: the maximal runs of `serie`,
      which decode back to it. */
  method RunLengthEncoding(serie: seq<int>) returns (encoded: seq<Run>)
    ensures Expand(encoded) == serie
    ensures Maximal(encoded)
    ensures TotalCount(encoded) == |serie|
    ensures serie == [] <==> encoded == []
    ensures serie != [] ==> encoded[0].value == serie[0]
  {
    if serie == [] {
      return [];
    }
    encoded := [];
    var current := serie[0];
    var count := 1;
    PendingStart(current);
    for i := 1 to |serie|
      invariant current == serie[i - 1]
      invariant Pending(encoded, current, count, serie[..i])
    {
      PrefixSnoc(serie, i);
      if serie[i] == current {
        PendingSame(encoded, current, count, serie[..i]);
        count := count + 1;
      } else {
        PendingNew(encoded, current, count, serie[..i], serie[i]);
        encoded := encoded + [Run(current, count)];
        current := serie[i];
        count := 1;
      }
    }
    assert serie[..|serie|] == serie;
    PendingClose(encoded, current, count, serie);
    encoded := encoded + [Run(current, count)];
    ExpandLength(encoded);
    ExpandHead(encoded);
  }
}
