/** The few Python `str` built-ins the feed parser relies on: `sep in s`,
    `s.split(sep)` with a non-empty separator, `s.strip()` with no argument
    and `s.splitlines()`, each over sequences of Unicode code points. */
module PyStr {
  import opened Wrappers

  type String = seq<char>

  /** `c.isspace()`: the characters Python's argument-less `strip()` removes. */
  predicate IsSpace(c: char) {
    c == '\t' || c == '\n' || c == '\U{0B}' || c == '\U{0C}' || c == '\r' || c == '\U{1C}'
    || c == '\U{1D}' || c == '\U{1E}' || c == '\U{1F}' || c == ' ' || c == '\U{85}' || c == '\U{A0}'
    || c == '\U{1680}' || c == '\U{2000}' || c == '\U{2001}' || c == '\U{2002}' || c == '\U{2003}' || c == '\U{2004}'
    || c == '\U{2005}' || c == '\U{2006}' || c == '\U{2007}' || c == '\U{2008}' || c == '\U{2009}' || c == '\U{200A}'
    || c == '\U{2028}' || c == '\U{2029}' || c == '\U{202F}' || c == '\U{205F}' || c == '\U{3000}'
  }

  /** The line boundaries `splitlines()` recognises (`\r\n` counts as one). */
  predicate IsLineBreak(c: char) {
    c == '\n' || c == '\r' || c == '\U{0B}' || c == '\U{0C}'
    || c == '\U{1C}' || c == '\U{1D}' || c == '\U{1E}'
    || c == '\U{85}' || c == '\U{2028}' || c == '\U{2029}'
  }

  predicate AllSpace(s: String) {
    forall k :: 0 <= k < |s| ==> IsSpace(s[k])
  }

  predicate NoLineBreak(s: String) {
    forall k :: 0 <= k < |s| ==> !IsLineBreak(s[k])
  }

  /** Neither end of `s` is whitespace: what `strip()` returns. */
  predicate Trimmed(s: String) {
    s == [] || (!IsSpace(s[0]) && !IsSpace(s[|s| - 1]))
  }

  // ---------------------------------------------------------------------------
  // strip()
  // ---------------------------------------------------------------------------

  /** Where `strip()` starts: the number of leading whitespace characters. */
  function LeftMargin(s: String): (i: nat)
    ensures i <= |s|
    ensures forall k :: 0 <= k < i ==> IsSpace(s[k])
    ensures i < |s| ==> !IsSpace(s[i])
    decreases |s|
  {
    if s != [] && IsSpace(s[0]) then 1 + LeftMargin(s[1..]) else 0
  }

  /** Where `strip()` ends: the length of `s` without its trailing whitespace. */
  function RightMargin(s: String): (j: nat)
    ensures j <= |s|
    ensures forall k :: j <= k < |s| ==> IsSpace(s[k])
    ensures 0 < j ==> !IsSpace(s[j - 1])
    decreases |s|
  {
    if s != [] && IsSpace(s[|s| - 1]) then RightMargin(s[..|s| - 1]) else |s|
  }

  /** `s.strip()`: the slice between the leading and the trailing whitespace. */
  function Strip(s: String): (r: String)
    ensures |r| <= |s| && Trimmed(r)
    ensures r == [] <==> AllSpace(s)
  {
    var i, j := LeftMargin(s), RightMargin(s);
    if i == |s| then []
    else
      assert i < j by {
        assert !IsSpace(s[i]);
      }
      s[i..j]
  }

  /** `strip()` removes only whitespace, and only at the two ends: its result
      is the slice of `s` between a whitespace prefix and a whitespace suffix. */
  lemma StripSlice(s: String)
    ensures var i := LeftMargin(s);
            i + |Strip(s)| <= |s| && Strip(s) == s[i..i + |Strip(s)|]
            && AllSpace(s[..i]) && AllSpace(s[i + |Strip(s)|..])
  {
    var i := LeftMargin(s);
    if i == |s| {
      assert AllSpace(s[..i]) by { assert s[..i] == s; }
    } else {
      assert s[i] == s[i..][0];
    }
  }

  /** A string with no whitespace at either end is its own `strip()`;
      in particular `strip()` is idempotent. */
  lemma StripTrimmed(s: String)
    requires Trimmed(s)
    ensures Strip(s) == s
  {
    if s != [] {
      assert s[..|s|] == s;
    }
  }

  lemma {:induction false} LeftMarginSkipsSpace(a: String, x: String)
    requires AllSpace(a)
    ensures LeftMargin(a + x) == |a| + LeftMargin(x)
    decreases |a|
  {
    if a != [] {
      assert (a + x)[0] == a[0];
      assert (a + x)[1..] == a[1..] + x;
      LeftMarginSkipsSpace(a[1..], x);
    } else {
      assert a + x == x;
    }
  }

  lemma {:induction false} RightMarginSkipsSpace(x: String, b: String)
    requires AllSpace(b)
    ensures RightMargin(x + b) == RightMargin(x)
    decreases |b|
  {
    if b != [] {
      var n := |b| - 1;
      assert (x + b)[|x + b| - 1] == b[n];
      assert (x + b)[..|x + b| - 1] == x + b[..n];
      RightMarginSkipsSpace(x, b[..n]);
    } else {
      assert x + b == x;
    }
  }

  /** Whitespace on both sides of a non-empty trimmed string is exactly what
      `strip()` takes away. */
  lemma StripPadded(a: String, x: String, b: String)
    requires AllSpace(a) && AllSpace(b) && x != [] && Trimmed(x)
    ensures Strip(a + x + b) == x
  {
    var s := a + x + b;
    assert LeftMargin(s) == |a| by {
      assert s == a + (x + b);
      LeftMarginSkipsSpace(a, x + b);
      assert (x + b)[0] == x[0];
    }
    assert RightMargin(s) == |a| + |x| by {
      RightMarginSkipsSpace(a + x, b);
      assert (a + x)[|a + x| - 1] == x[|x| - 1];
    }
    assert s[|a|..|a| + |x|] == x;
  }

  // ---------------------------------------------------------------------------
  // `sep in s` and s.split(sep)
  // ---------------------------------------------------------------------------

  /** `sep` occurs in `s` starting at index `k`. */
  predicate OccursAt(s: String, sep: String, k: int) {
    0 <= k && k + |sep| <= |s| && s[k..k + |sep|] == sep
  }

  /** `s.find(sep)`: the leftmost occurrence of `sep` in `s`, if any. */
  function Find(s: String, sep: String): (r: Option<nat>)
    requires sep != []
    ensures r.Some? ==> OccursAt(s, sep, r.value)
    ensures r.Some? ==> forall k :: 0 <= k < r.value ==> !OccursAt(s, sep, k)
    ensures r.None? ==> forall k :: !OccursAt(s, sep, k)
    decreases |s|
  {
    if |s| < |sep| then None
    else if s[..|sep|] == sep then Some(0)
    else
      OccursShift(s, sep);
      match Find(s[1..], sep)
      case None => None
      case Some(i) => Some(i + 1)
  }

  /** Past its first character, the occurrences in `s` are those in `s[1..]`,
      shifted by one. */
  lemma OccursShift(s: String, sep: String)
    requires sep != [] && |s| >= |sep| && s[..|sep|] != sep
    ensures !OccursAt(s, sep, 0)
    ensures forall k :: 1 <= k ==> (OccursAt(s, sep, k) <==> OccursAt(s[1..], sep, k - 1))
  {
    assert s[0..|sep|] == s[..|sep|];
  }

  /** `sep in s`. */
  predicate Contains(s: String, sep: String)
    requires sep != []
  {
    Find(s, sep).Some?
  }

  /** `sep in s` holds exactly when the separator occurs somewhere in `s`.
      Kept apart from `Contains` so that its quantifier does not follow
      every use of the predicate. */
  lemma ContainsIff(s: String, sep: String)
    requires sep != []
    ensures Contains(s, sep) <==> exists k :: OccursAt(s, sep, k)
  {
  }

  /** An occurrence inside a slice of `s` is an occurrence in `s`. */
  lemma OccursInSlice(s: String, sep: String, lo: int, hi: int, k: int)
    requires 0 <= lo <= hi <= |s|
    requires OccursAt(s[lo..hi], sep, k)
    ensures OccursAt(s, sep, lo + k)
  {
    forall j | 0 <= j < |sep| ensures s[lo + k..lo + k + |sep|][j] == sep[j] {
      assert s[lo..hi][k..k + |sep|][j] == sep[j];
    }
    assert s[lo + k..lo + k + |sep|] == sep;
  }

  /** The inverse of `split`: the pieces glued back with the separator. */
  function Join(pieces: seq<String>, sep: String): String {
    if |pieces| == 0 then []
    else if |pieces| == 1 then pieces[0]
    else pieces[0] + sep + Join(pieces[1..], sep)
  }

  /** `s.split(sep)`: cut at every leftmost non-overlapping occurrence. */
  function Split(s: String, sep: String): (r: seq<String>)
    requires sep != []
    ensures |r| >= 1
    ensures |r| >= 2 <==> Contains(s, sep)
    decreases |s|
  {
    match Find(s, sep)
    case None => [s]
    case Some(i) => [s[..i]] + Split(s[i + |sep|..], sep)
  }

  /** `split` loses nothing: joining its pieces with the separator gives the
      string back, and no piece still holds the separator. */
  lemma {:induction false} SplitJoin(s: String, sep: String)
    requires sep != []
    ensures Join(Split(s, sep), sep) == s
    ensures forall k :: 0 <= k < |Split(s, sep)| ==> !Contains(Split(s, sep)[k], sep)
    decreases |s|
  {
    match Find(s, sep)
    case None =>
    case Some(i) =>
      var rest := Split(s[i + |sep|..], sep);
      SplitJoin(s[i + |sep|..], sep);
      assert !Contains(s[..i], sep) by {
        if Contains(s[..i], sep) {
          var k := Find(s[..i], sep).value;
          OccursInSlice(s, sep, 0, i, k);
        }
      }
      var r := [s[..i]] + rest;
      assert r[1..] == rest;
      assert s == s[..i] + sep + s[i + |sep|..];
  }

  /** The first piece of `s.split(sep)` is everything before the leftmost
      occurrence of `sep`. */
  lemma SplitHead(s: String, sep: String)
    requires sep != [] && Contains(s, sep)
    ensures Split(s, sep)[0] == s[..Find(s, sep).value]
  {
  }

  /** The leftmost occurrence is the one with no occurrence before it. */
  lemma FindIs(s: String, sep: String, i: nat)
    requires sep != [] && OccursAt(s, sep, i)
    requires forall k :: 0 <= k < i ==> !OccursAt(s, sep, k)
    ensures Find(s, sep) == Some(i)
  {
  }

  /** Text appended after an occurrence of `sep` does not move the leftmost
      occurrence. */
  lemma FindExtend(s: String, sep: String, t: String)
    requires sep != [] && Contains(s, sep)
    ensures Find(s + t, sep) == Find(s, sep)
  {
    var i := Find(s, sep).value;
    assert (s + t)[i..i + |sep|] == s[i..i + |sep|];
    forall k | 0 <= k < i ensures !OccursAt(s + t, sep, k) {
      assert !OccursAt(s, sep, k);
      assert (s + t)[k..k + |sep|] == s[k..k + |sep|];
    }
    FindIs(s + t, sep, i);
  }

  /** When the text before an occurrence of `sep` holds no occurrence and
      ends in a character `sep` lacks (or is empty), that occurrence is the
      leftmost one. */
  lemma FindAfter(a: String, sep: String, b: String)
    requires sep != [] && !Contains(a, sep)
    requires a != [] ==> a[|a| - 1] !in sep
    ensures Find(a + sep + b, sep) == Some(|a|)
  {
    var s := a + sep + b;
    assert s[|a|..|a| + |sep|] == sep;
    forall k | 0 <= k < |a| ensures !OccursAt(s, sep, k) {
      if k + |sep| <= |a| {
        assert !OccursAt(a, sep, k);
        assert s[k..k + |sep|] == a[k..k + |sep|];
      } else {
        var w := s[k..k + |sep|];
        assert w[|a| - 1 - k] == a[|a| - 1];
        assert w[|a| - 1 - k] !in sep;
        assert w != sep;
      }
    }
    FindIs(s, sep, |a|);
  }

  /** Two pieces free of `sep`, joined by a character `sep` lacks, are free
      of `sep`. */
  lemma NoneAcross(a: String, c: char, b: String, sep: String)
    requires sep != [] && c !in sep
    requires !Contains(a, sep) && !Contains(b, sep)
    ensures !Contains(a + [c] + b, sep)
  {
    var s := a + [c] + b;
    forall k | 0 <= k && k + |sep| <= |s| ensures !OccursAt(s, sep, k) {
      if k + |sep| <= |a| {
        assert !OccursAt(a, sep, k);
        assert s[k..k + |sep|] == a[k..k + |sep|];
      } else if k > |a| {
        assert !OccursAt(b, sep, k - |a| - 1);
        assert s[k..k + |sep|] == b[k - |a| - 1..k - |a| - 1 + |sep|];
      } else {
        var w := s[k..k + |sep|];
        assert w[|a| - k] == c;
        assert w[|a| - k] !in sep;
        assert w != sep;
      }
    }
  }

  /** A string shorter than `sep` cannot contain it. */
  lemma ShorterNotContains(s: String, sep: String)
    requires sep != [] && |s| < |sep|
    ensures !Contains(s, sep)
  {
  }

  /** Splitting `a + sep + b` where `a` is as in FindAfter yields `a` and then
      the pieces of `b`. */
  lemma SplitAfter(a: String, sep: String, b: String)
    requires sep != [] && !Contains(a, sep)
    requires a != [] ==> a[|a| - 1] !in sep
    ensures Split(a + sep + b, sep) == [a] + Split(b, sep)
  {
    var s := a + sep + b;
    FindAfter(a, sep, b);
    assert s[..|a|] == a;
    assert s[|a| + |sep|..] == b;
  }

  /** A string free of `sep` splits into itself. */
  lemma SplitNone(s: String, sep: String)
    requires sep != [] && !Contains(s, sep)
    ensures Split(s, sep) == [s]
  {
  }

  // ---------------------------------------------------------------------------
  // splitlines()
  // ---------------------------------------------------------------------------

  /** Index of the first line boundary in `s`, or `|s|` when there is none. */
  function LineEnd(s: String): (j: nat)
    ensures j <= |s|
    ensures j < |s| ==> IsLineBreak(s[j])
    ensures forall k :: 0 <= k < j ==> !IsLineBreak(s[k])
    decreases |s|
  {
    if s == [] || IsLineBreak(s[0]) then 0 else 1 + LineEnd(s[1..])
  }

  /** `s.splitlines()`: the lines of `s` without their boundaries; a final
      boundary does not start an extra empty line. */
  function SplitLines(s: String): (r: seq<String>)
    ensures forall k :: 0 <= k < |r| ==> NoLineBreak(r[k])
    ensures r == [] <==> s == []
    decreases |s|
  {
    if s == [] then []
    else
      var j := LineEnd(s);
      if j == |s| then [s]
      else
        var next := if s[j] == '\r' && j + 1 < |s| && s[j + 1] == '\n' then j + 2 else j + 1;
        [s[..j]] + SplitLines(s[next..])
  }

  /** The first boundary of `s` is the one at `j` when none comes before. */
  lemma {:induction false} LineEndAt(s: String, j: nat)
    requires j < |s| && IsLineBreak(s[j])
    requires forall k :: 0 <= k < j ==> !IsLineBreak(s[k])
    ensures LineEnd(s) == j
    decreases j
  {
    if j > 0 {
      assert !IsLineBreak(s[0]);
      LineEndAt(s[1..], j - 1);
    }
  }

  /** A boundary-free line followed by a boundary `c` is split off as one
      line. A `\r` counts alone only when no `\n` follows it. */
  lemma SplitLinesCons(a: String, c: char, b: String)
    requires NoLineBreak(a) && IsLineBreak(c)
    requires c == '\r' ==> b == [] || b[0] != '\n'
    ensures SplitLines(a + [c] + b) == [a] + SplitLines(b)
  {
    var s := a + [c] + b;
    assert s[|a|] == c;
    forall k | 0 <= k < |a| ensures !IsLineBreak(s[k]) {
      assert s[k] == a[k];
    }
    LineEndAt(s, |a|);
    assert s[..|a|] == a;
    assert s[|a| + 1..] == b;
  }

  /** `\r\n` ends a line as one boundary, not two. */
  lemma SplitLinesCrLf(a: String, b: String)
    requires NoLineBreak(a)
    ensures SplitLines(a + "\r\n" + b) == [a] + SplitLines(b)
  {
    var s := a + "\r\n" + b;
    assert s[|a|] == '\r' && s[|a| + 1] == '\n';
    forall k | 0 <= k < |a| ensures !IsLineBreak(s[k]) {
      assert s[k] == a[k];
    }
    LineEndAt(s, |a|);
    assert s[..|a|] == a;
    assert s[|a| + 2..] == b;
  }

  /** A non-empty boundary-free string is one line. */
  lemma SplitLinesOne(a: String)
    requires a != [] && NoLineBreak(a)
    ensures SplitLines(a) == [a]
  {
  }
}
