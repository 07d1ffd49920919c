/** Values shared by every exercise: Python exceptions as data, optional values,
    and Python's list indexing. */
module Common {

  datatype Option<T> = None | Some(value: T)

  /** The Python exceptions the modelled code can raise. `Http` is FastAPI's
      `HTTPException(status_code, detail)`; the others escape uncaught. */
  datatype Failure =
    | IndexError
    | UnboundLocal(name: string)
    | Http(status: nat, detail: string)

  datatype Result<T> = Ok(value: T) | Err(failure: Failure)

  /** Python's `s[k]` on a list: negative indices count from the end, and
      anything outside `-len(s) <= k < len(s)` raises IndexError. */
  function PyIndex<T>(s: seq<T>, k: int): Option<T>
  {
    if 0 <= k < |s| then Some(s[k])
    else if -|s| <= k < 0 then Some(s[|s| + k])
    else None
  }

  /** Python's index rule in one line: `s[k]` succeeds exactly for
      `-len(s) <= k < len(s)`, and then gives the element at `k` modulo the
      length. */
  lemma PyIndexModulo<T>(s: seq<T>, k: int)
    ensures PyIndex(s, k).Some? <==> -|s| <= k < |s|
    ensures PyIndex(s, k).Some? ==> PyIndex(s, k).value == s[k % |s|]
  {
    if -|s| <= k < 0 {
      assert k % |s| == |s| + k;
    }
  }

  /** The last position of `x` in `s`: the entry a Python dict keeps when
      `d[s[k]] = ...` runs for every `k` in order. */
  function LastIndex<T(==)>(s: seq<T>, x: T): (r: nat)
    requires x in s
    ensures r < |s| && s[r] == x
    ensures forall p :: r < p < |s| ==> s[p] != x
  {
    if s[|s| - 1] == x then |s| - 1 else LastIndex(s[..|s| - 1], x)
  }

  /** Appending `y` makes it the last occurrence of itself and leaves the
      last occurrence of every other value where it was. */
  lemma LastIndexSnoc<T>(s: seq<T>, y: T, x: T)
    requires x in s + [y]
    ensures x == y ==> LastIndex(s + [y], x) == |s|
    ensures x != y ==> x in s && LastIndex(s + [y], x) == LastIndex(s, x)
  {
    assert (s + [y])[..|s|] == s;
  }

  /** `d` is the dictionary a loop leaves behind when it runs
      `d[keys[k]] = values[k]` for every `k` in order, starting empty: its
      keys are the keys assigned, and each holds the value of its last
      assignment. */
  ghost predicate Tabulates<K, V>(d: map<K, V>, keys: seq<K>, values: seq<V>)
  {
    && |values| == |keys|
    && d.Keys == (set c | c in keys)
    && forall c :: c in d ==> d[c] == values[LastIndex(keys, c)]
  }

  /** One more assignment extends the tabulation by one entry. */
  lemma TabulatesSnoc<K, V>(d: map<K, V>, keys: seq<K>, values: seq<V>, key: K, value: V)
    requires Tabulates(d, keys, values)
    ensures Tabulates(d[key := value], keys + [key], values + [value])
  {
    var d', keys', values' := d[key := value], keys + [key], values + [value];
    forall c | c in d'
      ensures d'[c] == values'[LastIndex(keys', c)]
    {
      LastIndexSnoc(keys, key, c);
    }
  }

  /** The prefix one longer is the prefix followed by the next element. */
  lemma PrefixSnoc<T>(s: seq<T>, k: nat)
    requires k < |s|
    ensures s[..k + 1] == s[..k] + [s[k]]
  {
  }
}
