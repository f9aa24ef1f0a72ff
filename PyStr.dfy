/** The Python 3 `str` builtins the helper relies on, as functions on `seq<char>`. */
module PyStr {

  /** `p` occurs in `s` starting at index `i`. */
  predicate OccursAt(s: string, p: string, i: int) {
    0 <= i && i + |p| <= |s| && s[i..i + |p|] == p
  }

  /** `s.find(p, start)`: the least index at or after `start` where `p` occurs, or -1. */
  function Find(s: string, p: string, start: nat): (r: int)
    ensures r == -1 || (start <= r && OccursAt(s, p, r))
    ensures forall k :: start <= k && (r == -1 || k < r) ==> !OccursAt(s, p, k)
    decreases |s| - start
  {
    if start + |p| > |s| then -1
    else if s[start..start + |p|] == p then start
    else Find(s, p, start + 1)
  }

  /** `Find` moves past a position where `p` does not occur. */
  lemma FindSkip(s: string, p: string, start: nat)
    requires !OccursAt(s, p, start)
    ensures Find(s, p, start) == Find(s, p, start + 1)
  {
  }

  /** `Find` stops at a position where `p` occurs. */
  lemma FindHere(s: string, p: string, start: nat)
    requires OccursAt(s, p, start)
    ensures Find(s, p, start) == start
  {
  }

  /** One differing character rules an occurrence out. */
  lemma MismatchAt(s: string, p: string, k: nat, d: nat)
    requires d < |p| && k + d < |s| && s[k + d] != p[d]
    ensures !OccursAt(s, p, k)
  {
    if k + |p| <= |s| {
      assert s[k..k + |p|][d] == s[k + d];
    }
  }

  /** An occurrence beyond the first `|a|` characters of `a + b` is an occurrence in `b`. */
  lemma OccursInSuffix(a: string, b: string, p: string, k: int)
    requires k >= |a|
    ensures OccursAt(a + b, p, k) <==> OccursAt(b, p, k - |a|)
  {
    if k + |p| <= |a + b| {
      assert (a + b)[k..k + |p|] == b[k - |a|..k - |a| + |p|];
    }
  }

  /** `s.rfind(p, lo, hi)` for `hi <= |s|`: the greatest index `i` with `lo <= i` and
      `i + |p| <= hi` where `p` occurs, or -1. */
  function RFind(s: string, p: string, lo: nat, hi: nat): (r: int)
    requires hi <= |s|
    ensures r == -1 || (lo <= r && r + |p| <= hi && OccursAt(s, p, r))
    ensures forall k :: lo <= k && k + |p| <= hi && r < k ==> !OccursAt(s, p, k)
    decreases hi
  {
    if hi < lo + |p| then -1
    else if s[hi - |p|..hi] == p then hi - |p|
    else RFind(s, p, lo, hi - 1)
  }

  /** `p in s`. */
  function Contains(s: string, p: string): (b: bool)
    ensures b <==> exists k :: OccursAt(s, p, k)
  {
    Find(s, p, 0) != -1
  }

  /** `s.replace(pat, rep)`: scans left to right and replaces every non-overlapping
      occurrence of `pat` by `rep`. */
  function Replace(s: string, pat: string, rep: string): (r: string)
    requires pat != []
    ensures (forall k :: !OccursAt(s, pat, k)) ==> r == s
    decreases |s|
  {
    if |s| < |pat| then s
    else if s[..|pat|] == pat then
      assert OccursAt(s, pat, 0);
      rep + Replace(s[|pat|..], pat, rep)
    else
      assert forall k :: OccursAt(s[1..], pat, k) ==> OccursAt(s, pat, k + 1);
      [s[0]] + Replace(s[1..], pat, rep)
  }

  /** `replace` copies a prefix that holds no occurrence unchanged. */
  lemma {:induction false} ReplaceSkips(s: string, pat: string, rep: string, n: nat)
    requires pat != [] && n <= |s|
    requires forall k :: 0 <= k < n ==> !OccursAt(s, pat, k)
    ensures Replace(s, pat, rep) == s[..n] + Replace(s[n..], pat, rep)
    decreases n
  {
    if n == 0 {
      assert s[..0] + Replace(s[0..], pat, rep) == Replace(s, pat, rep);
    } else if |s| < |pat| {
      assert s == s[..n] + s[n..];
    } else {
      NoMatchBelowShift(s, pat, n);
      ReplaceSkips(s[1..], pat, rep, n - 1);
      assert s[1..][n - 1..] == s[n..];
      ReplaceCons(s, pat, rep, n, Replace(s[n..], pat, rep));
    }
  }

  /** One character that starts no occurrence is copied ahead of the rest. */
  lemma ReplaceCons(s: string, pat: string, rep: string, n: nat, tail: string)
    requires pat != [] && 0 < n <= |s| && |pat| <= |s| && !OccursAt(s, pat, 0)
    requires Replace(s[1..], pat, rep) == s[1..][..n - 1] + tail
    ensures Replace(s, pat, rep) == s[..n] + tail
  {
    var t := s[1..];
    assert s[..|pat|] != pat by {
      assert s[0..|pat|] == s[..|pat|];
    }
    assert Replace(s, pat, rep) == [s[0]] + Replace(t, pat, rep);
    assert s[..n] == [s[0]] + t[..n - 1];
    Chain(Replace(s, pat, rep), Replace(t, pat, rep), [s[0]], t[..n - 1], tail);
  }

  /** No occurrence below `n` in `s` means none below `n - 1` in `s[1..]`. */
  lemma NoMatchBelowShift(s: string, pat: string, n: nat)
    requires 0 < n <= |s| && forall k :: 0 <= k < n ==> !OccursAt(s, pat, k)
    ensures forall k :: 0 <= k < n - 1 ==> !OccursAt(s[1..], pat, k)
  {
    forall k | 0 <= k < n - 1
      ensures !OccursAt(s[1..], pat, k)
    {
      assert [s[0]] + s[1..] == s;
      OccursInSuffix([s[0]], s[1..], pat, k + 1);
    }
  }

  /** `replace` works left to right without overlap: the first occurrence becomes `rep`,
      the text before it is kept, and the search goes on after the whole occurrence. */
  lemma ReplaceFirst(s: string, pat: string, rep: string) returns (k: int)
    requires pat != []
    ensures k == Find(s, pat, 0)
    ensures k == -1 ==> Replace(s, pat, rep) == s
    ensures k >= 0 ==> k + |pat| <= |s|
    ensures k >= 0 ==> Replace(s, pat, rep) == s[..k] + rep + Replace(s[k + |pat|..], pat, rep)
  {
    k := Find(s, pat, 0);
    if k >= 0 {
      ReplaceSkips(s, pat, rep, k);
      var u := s[k..];
      var r := Replace(s[k + |pat|..], pat, rep);
      assert u[..|pat|] == s[k..k + |pat|] == pat;
      assert u[|pat|..] == s[k + |pat|..];
      assert Replace(u, pat, rep) == rep + r;
      Chain(Replace(s, pat, rep), Replace(u, pat, rep), s[..k], rep, r);
    }
  }

  /** Substituting one split into another. */
  lemma Chain(a: string, b: string, x: string, y: string, z: string)
    requires a == x + b && b == y + z
    ensures a == x + y + z
  {
  }

  /** `s.rsplit(sep, 1)`: `[s]` when `sep` does not occur, otherwise the text before and
      after the last occurrence of `sep`. */
  function RSplit1(s: string, sep: string): (r: seq<string>)
    requires sep != []
    ensures |r| == 1 || |r| == 2
    ensures |r| == 1 <==> !Contains(s, sep)
    ensures |r| == 1 ==> r[0] == s
    ensures |r| == 2 ==> s == r[0] + sep + r[1] && !Contains(r[1], sep)
    ensures |r| == 2 ==> forall k :: |r[0]| < k ==> !OccursAt(s, sep, k)
  {
    var i := RFind(s, sep, 0, |s|);
    if i < 0 then [s]
    else
      var tail := s[i + |sep|..];
      assert forall k :: OccursAt(tail, sep, k) ==> OccursAt(s, sep, i + |sep| + k);
      assert s == s[..i] + sep + tail;
      [s[..i], tail]
  }

  /** `c.isspace()` for Python 3 strings: the characters `str.split()` treats as whitespace. */
  predicate IsSpace(c: char) {
    var n := c as int;
    (9 <= n <= 13) || (28 <= n <= 32) || n == 0x85 || n == 0xA0 || n == 0x1680
    || (0x2000 <= n <= 0x200A) || n == 0x2028 || n == 0x2029 || n == 0x202F
    || n == 0x205F || n == 0x3000
  }

  /** Every character of `w` is whitespace (`w` may be empty). */
  predicate AllSpace(w: string) {
    forall k :: 0 <= k < |w| ==> IsSpace(w[k])
  }

  /** `w` is a non-empty run of non-whitespace characters. */
  predicate IsWord(w: string) {
    w != [] && forall k :: 0 <= k < |w| ==> !IsSpace(w[k])
  }

  /** The end of the whitespace run of `t` that starts at `i`. */
  function SkipSpace(t: string, i: nat): (j: nat)
    requires i <= |t|
    ensures i <= j <= |t| && AllSpace(t[i..j]) && (j < |t| ==> !IsSpace(t[j]))
    decreases |t| - i
  {
    if i == |t| || !IsSpace(t[i]) then i
    else
      var j := SkipSpace(t, i + 1);
      assert t[i..j] == [t[i]] + t[i + 1..j];
      j
  }

  /** The end of the non-whitespace run of `t` that starts at `i`. */
  function SkipWord(t: string, i: nat): (j: nat)
    requires i <= |t|
    ensures i <= j <= |t| && (forall k :: i <= k < j ==> !IsSpace(t[k]))
    ensures j < |t| ==> IsSpace(t[j])
    decreases |t| - i
  {
    if i == |t| || IsSpace(t[i]) then i else SkipWord(t, i + 1)
  }

  /** `t.split(None, 1)`: leading whitespace is dropped, the first word is split off at the
      whitespace run that follows it, and the rest (if any text remains) is the second part. */
  function Split1(t: string): (r: seq<string>)
    ensures |r| <= 2
  {
    var a := SkipSpace(t, 0);
    if a == |t| then []
    else
      var b := SkipWord(t, a);
      var c := SkipSpace(t, b);
      if c == |t| then [t[a..b]]
      else [t[a..b], t[c..]]
  }

  /** What `split(None, 1)` returns: nothing for an all-whitespace text; otherwise the
      first word, and, when anything but whitespace follows it, everything after the
      whitespace run that ends that word. */
  lemma Split1Parts(t: string)
    ensures var r := Split1(t);
      && (|r| == 0 ==> AllSpace(t))
      && (|r| == 1 ==> exists lead, trail ::
            t == lead + r[0] + trail && AllSpace(lead) && IsWord(r[0]) && AllSpace(trail))
      && (|r| == 2 ==> exists lead, gap ::
            t == lead + r[0] + gap + r[1] && AllSpace(lead) && IsWord(r[0])
            && gap != [] && AllSpace(gap) && r[1] != [] && !IsSpace(r[1][0]))
  {
    var a := SkipSpace(t, 0);
    if a == |t| {
      assert t[0..a] == t;
    } else {
      var b := SkipWord(t, a);
      var c := SkipSpace(t, b);
      assert t == t[..a] + t[a..b] + t[b..c] + t[c..];
      assert IsWord(t[a..b]);
    }
  }
}
