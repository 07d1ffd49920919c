/** Runs of equal values: the decoding that both run-length encoders are
    proved against, and the fact that a series has exactly one maximal
    run list. */
module RunLength {

  /** One `[value, count]` pair of the encoded series. */
  datatype Run = Run(value: int, count: nat)

  function Repeat(v: int, n: nat): (r: seq<int>)
  {
    seq(n, _ => v)
  }

  /** Decoding: each pair stands for `count` copies of `value`, in order. */
  function Expand(runs: seq<Run>): (r: seq<int>)
  {
    if runs == [] then [] else Repeat(runs[0].value, runs[0].count) + Expand(runs[1..])
  }

  function TotalCount(runs: seq<Run>): nat
  {
    if runs == [] then 0 else runs[0].count + TotalCount(runs[1..])
  }

  /** Every run is non-empty and neighbouring runs hold different values,
      so no run could be extended or merged. */
  ghost predicate Maximal(runs: seq<Run>)
  {
    && (forall k :: 0 <= k < |runs| ==> runs[k].count >= 1)
    && (forall k :: 0 <= k < |runs| - 1 ==> runs[k].value != runs[k + 1].value)
  }

  /** Appending a non-empty run whose value differs from the last one keeps
      a run list maximal. */
  lemma MaximalSnoc(runs: seq<Run>, last: Run)
    requires Maximal(runs) && last.count >= 1
    requires runs != [] ==> runs[|runs| - 1].value != last.value
    ensures Maximal(runs + [last])
  {
  }

  lemma {:induction false} ExpandAppend(runs: seq<Run>, last: Run)
    ensures Expand(runs + [last]) == Expand(runs) + Repeat(last.value, last.count)
    decreases |runs|
  {
    if runs == [] {
      assert runs + [last] == [last];
    } else {
      assert (runs + [last])[1..] == runs[1..] + [last];
      ExpandAppend(runs[1..], last);
    }
  }

  /** The state of an encoder part-way through a series: the closed runs
      `runs` and an open run of `count` copies of `value` together decode to
      `prefix`, and closing the open run would keep the list maximal. */
  ghost predicate Pending(runs: seq<Run>, value: int, count: nat, prefix: seq<int>)
  {
    && count >= 1
    && Maximal(runs)
    && (runs != [] ==> runs[|runs| - 1].value != value)
    && Expand(runs) + Repeat(value, count) == prefix
  }

  /** The first element opens the first run. */
  lemma PendingStart(v: int)
    ensures Pending([], v, 1, [v])
  {
    assert Repeat(v, 1) == [v];
  }

  /** An element equal to the open run's value extends it. */
  lemma PendingSame(runs: seq<Run>, value: int, count: nat, prefix: seq<int>)
    requires Pending(runs, value, count, prefix)
    ensures Pending(runs, value, count + 1, prefix + [value])
  {
    assert Repeat(value, count + 1) == Repeat(value, count) + [value];
  }

  /** A different element closes the open run and opens a new one. */
  lemma PendingNew(runs: seq<Run>, value: int, count: nat, prefix: seq<int>, next: int)
    requires Pending(runs, value, count, prefix) && next != value
    ensures Pending(runs + [Run(value, count)], next, 1, prefix + [next])
  {
    ExpandAppend(runs, Run(value, count));
    MaximalSnoc(runs, Run(value, count));
    assert Repeat(next, 1) == [next];
  }

  /** At the end of the series, closing the open run gives a maximal run list
      that decodes to the whole series. */
  lemma PendingClose(runs: seq<Run>, value: int, count: nat, prefix: seq<int>)
    requires Pending(runs, value, count, prefix)
    ensures Maximal(runs + [Run(value, count)]) && Expand(runs + [Run(value, count)]) == prefix
  {
    ExpandAppend(runs, Run(value, count));
    MaximalSnoc(runs, Run(value, count));
  }

  /** The counts of a run list add up to the length of what it decodes to. */
  lemma {:induction false} ExpandLength(runs: seq<Run>)
    ensures |Expand(runs)| == TotalCount(runs)
    decreases |runs|
  {
    if runs != [] {
      ExpandLength(runs[1..]);
    }
  }

  /** A decoded maximal run list starts with the value of its first run. */
  lemma ExpandHead(runs: seq<Run>)
    requires Maximal(runs) && runs != []
    ensures Expand(runs) != [] && Expand(runs)[0] == runs[0].value
  {
    assert Repeat(runs[0].value, runs[0].count)[0] == runs[0].value;
  }

  /** Two maximal run lists that decode to the same series are equal: a
      series has exactly one maximal run-length encoding. */
  lemma {:induction false} MaximalRunsUnique(a: seq<Run>, b: seq<Run>)
    requires Maximal(a) && Maximal(b)
    requires Expand(a) == Expand(b)
    ensures a == b
    decreases |a|
  {
    if a == [] || b == [] {
      if a != [] { ExpandHead(a); }
      if b != [] { ExpandHead(b); }
    } else {
      ExpandHead(a);
      ExpandHead(b);
      var s := Expand(a);
      var x, n, m := a[0].value, a[0].count, b[0].count;
      assert s == Repeat(x, n) + Expand(a[1..]);
      assert s == Repeat(x, m) + Expand(b[1..]);
      if n < m {
        assert s[n] == x;
        NextValueDiffers(a);
      } else if m < n {
        assert s[m] == x;
        NextValueDiffers(b);
      }
      assert n == m;
      assert Expand(a[1..]) == s[n..] == Expand(b[1..]);
      MaximalRunsUnique(a[1..], b[1..]);
    }
  }

  /** In a maximal run list the value right after the first run differs
      from it, when the decoded series goes on. */
  lemma NextValueDiffers(runs: seq<Run>)
    requires Maximal(runs) && runs != []
    requires |Expand(runs)| > runs[0].count
    ensures Expand(runs)[runs[0].count] != runs[0].value
  {
    var rest := runs[1..];
    assert Expand(runs) == Repeat(runs[0].value, runs[0].count) + Expand(rest);
    assert rest != [];
    assert Maximal(rest);
    ExpandHead(rest);
  }
}
