/** POSIX path handling as `os.path` does it, for the two calls the handlers
    make: `splitext` (to take a file name's stem) and `join` (to place an
    output file under a directory). */
module Paths {

  /** `s.rfind(c)`: the last index of `c` in `s`, or -1 when there is none. */
  function RFind(s: string, c: char): (r: int)
    ensures -1 <= r < |s|
    ensures r >= 0 ==> s[r] == c
    ensures forall k :: r < k < |s| ==> s[k] != c
  {
    if s == [] then -1
    else if s[|s| - 1] == c then |s| - 1
    else RFind(s[..|s| - 1], c)
  }

  /** `os.path.splitext(p)`: the extension is everything from the last dot
      on, provided that dot comes after the last slash and something other
      than a dot stands between them (so `.bashrc` has no extension). */
  function SplitExt(p: string): (r: (string, string))
    ensures r.0 + r.1 == p
    ensures r.1 != [] ==> r.1[0] == '.' && '.' !in r.1[1..] && '/' !in r.1
  {
    var sepIndex := RFind(p, '/');
    var dotIndex := RFind(p, '.');
    if dotIndex > sepIndex && exists k :: sepIndex < k < dotIndex && p[k] != '.' then
      assert p[..dotIndex] + p[dotIndex..] == p;
      (p[..dotIndex], p[dotIndex..])
    else (p, "")
  }

  /** `os.path.join(a, b)`: an absolute `b` replaces `a`; otherwise a slash
      is put between them unless `a` is empty or already ends in one. */
  function PathJoin(a: string, b: string): (r: string)
    ensures |b| > 0 && b[0] == '/' ==> r == b
    ensures !(|b| > 0 && b[0] == '/') ==> |r| >= |a| + |b| && r[..|a|] == a && r[|r| - |b|..] == b
  {
    if |b| > 0 && b[0] == '/' then b
    else if a == "" || a[|a| - 1] == '/' then a + b
    else a + "/" + b
  }

  /** Where `c` occurs in `b`, its last occurrence in `a + b` is in `b`. */
  lemma RFindAppend(a: string, b: string, c: char)
    ensures c in b ==> RFind(a + b, c) == |a| + RFind(b, c)
    ensures c !in b ==> RFind(a + b, c) == RFind(a, c)
  {
    var r, q, p := RFind(a + b, c), RFind(b, c), RFind(a, c);
    if q >= 0 {
      assert (a + b)[|a| + q] == c;
    } else if p >= 0 {
      assert (a + b)[p] == c;
    }
    if r >= |a| {
      assert b[r - |a|] == c;
    } else if r >= 0 {
      assert a[r] == c;
    }
  }

  /** A name whose last dot, at `d`, follows its last slash and a character
      other than a dot splits at that dot. */
  lemma SplitExtAt(p: string, d: int)
    requires 1 <= d < |p| && RFind(p, '.') == d
    requires RFind(p, '/') < d - 1 && p[d - 1] != '.'
    ensures SplitExt(p) == (p[..d], p[d..])
  {
    assert RFind(p, '/') < d - 1 < d && p[d - 1] != '.';
  }

  /** A name ending in `.` + `word` + `.` + `ext`, with neither `word` nor
      `ext` holding a dot or a slash and `word` non-empty, has extension
      `.` + `ext` and stem the rest. */
  lemma SplitExtOfSuffix(stem: string, word: string, ext: string)
    requires word != [] && '.' !in word && '/' !in word
    requires '.' !in ext && '/' !in ext
    ensures SplitExt(stem + "." + word + "." + ext) == (stem + "." + word, "." + ext)
  {
    var front := stem + "." + word;
    var back := "." + ext;
    var p := front + back;
    assert p == stem + "." + word + "." + ext;
    assert back[0] == '.' && '/' !in back;
    RFindAppend(front, back, '.');
    RFindAppend(front, back, '/');
    RFindAppend(stem, "." + word, '/');
    assert '/' !in "." + word;
    assert RFind(back, '.') == 0;
    assert p[|front| - 1] == word[|word| - 1];
    SplitExtAt(p, |front|);
    assert p[..|front|] == front && p[|front|..] == back;
  }
}
