/**
 * The few Python `str` operations the task list relies on, written as
 * functions over `seq<char>` (a Python `str` is a sequence of code points):
 * `find`, `split(sep)`, `strip()` and the `<=` order.
 */
module PyStr {
  import opened Wrappers

  /** Python's `str.isspace()` for one code point. */
  predicate IsSpace(c: char) {
    ('\U{0009}' <= c <= '\U{000D}') || ('\U{001C}' <= c <= '\U{0020}')
    || c == '\U{0085}' || c == '\U{00A0}' || c == '\U{1680}'
    || ('\U{2000}' <= c <= '\U{200A}') || c == '\U{2028}' || c == '\U{2029}'
    || c == '\U{202F}' || c == '\U{205F}' || c == '\U{3000}'
  }

  /** Every character of `s` is whitespace. */
  predicate AllSpace(s: string) {
    forall k :: 0 <= k < |s| ==> IsSpace(s[k])
  }

  /** `s` has no whitespace at either end (what `strip()` leaves). */
  predicate Stripped(s: string) {
    s == [] || (!IsSpace(s[0]) && !IsSpace(s[|s| - 1]))
  }

  /** An occurrence of `sep` starts at index `i` of `s`. */
  predicate MatchAt(s: string, sep: string, i: nat) {
    i + |sep| <= |s| && s[i..i + |sep|] == sep
  }

  /** `s.find(sep, i)`: the first index at or after `i` where `sep` occurs. */
  function Find(s: string, sep: string, i: nat): (r: Option<nat>)
    decreases |s| - i
    ensures r.Some? ==> i <= r.value && MatchAt(s, sep, r.value)
    ensures r.Some? ==> forall j :: i <= j < r.value ==> !MatchAt(s, sep, j)
    ensures r.None? ==> forall j :: i <= j ==> !MatchAt(s, sep, j)
  {
    if i + |sep| > |s| then None
    else if MatchAt(s, sep, i) then Some(i)
    else Find(s, sep, i + 1)
  }

  /** `sep.join(parts)`, the inverse of `Split`. */
  function Join(parts: seq<string>, sep: string): string {
    if parts == [] then []
    else if |parts| == 1 then parts[0]
    else parts[0] + sep + Join(parts[1..], sep)
  }

  /**
   * `s.split(sep)` for a non-empty separator: scanning left to right, cut at
   * every occurrence of `sep` that does not overlap an earlier cut.
   */
  function Split(s: string, sep: string): (parts: seq<string>)
    requires sep != []
    decreases |s|
    ensures |parts| >= 1
    ensures Join(parts, sep) == s
    ensures forall k, j :: 0 <= k < |parts| ==> !MatchAt(parts[k], sep, j)
  {
    match Find(s, sep, 0)
    case None => [s]
    case Some(i) =>
      var rest := Split(s[i + |sep|..], sep);
      assert forall j :: !MatchAt(s[..i], sep, j) by {
        forall j: nat | MatchAt(s[..i], sep, j) ensures false {
          assert s[..i][j..j + |sep|] == s[j..j + |sep|];
          assert MatchAt(s, sep, j);
        }
      }
      assert s == s[..i] + sep + s[i + |sep|..];
      [s[..i]] + rest
  }

  /**
   * The cuts of `parts` are where `split` makes them: the separator after
   * each part is its first occurrence from the start of that part, and no
   * part holds the separator.
   */
  ghost predicate FirstCuts(parts: seq<string>, sep: string) {
    (forall k, j: nat :: 0 <= k < |parts| - 1 && j < |parts[k]| ==> !MatchAt(parts[k] + sep, sep, j))
    && (forall k, j: nat :: 0 <= k < |parts| ==> !MatchAt(parts[k], sep, j))
  }

  /** `Split` cuts at the first occurrence of the separator each time. */
  lemma {:induction false} SplitCutsFirst(s: string, sep: string)
    requires sep != []
    ensures FirstCuts(Split(s, sep), sep)
    decreases |s|
  {
    match Find(s, sep, 0)
    case None =>
    case Some(i) =>
      var rest := Split(s[i + |sep|..], sep);
      var parts := [s[..i]] + rest;
      assert Split(s, sep) == parts;
      SplitCutsFirst(s[i + |sep|..], sep);
      assert s[..i] + sep == s[..i + |sep|];
      forall j: nat | j < i ensures !MatchAt(s[..i] + sep, sep, j) {
        assert s[..i + |sep|][j..j + |sep|] == s[j..j + |sep|];
        assert !MatchAt(s, sep, j);
      }
      forall k, j: nat | 0 <= k < |parts| - 1 && j < |parts[k]| ensures !MatchAt(parts[k] + sep, sep, j) {
        if k > 0 {
          assert parts[k] == rest[k - 1];
        }
      }
  }

  /**
   * `Split` inverts `Join` on parts cut where `split` cuts, so the split of a
   * string is the one sequence of parts with these cuts that joins to it.
   */
  lemma {:induction false} SplitJoin(parts: seq<string>, sep: string)
    requires sep != [] && |parts| >= 1 && FirstCuts(parts, sep)
    ensures Split(Join(parts, sep), sep) == parts
    decreases |parts|
  {
    if |parts| == 1 {
      SplitNoMatch(parts[0], sep);
    } else {
      var tail := parts[1..];
      FirstCutsTail(parts, sep);
      SplitJoin(tail, sep);
      assert Join(parts, sep) == parts[0] + sep + Join(tail, sep);
      SplitFirstCut(parts[0], sep, Join(tail, sep));
      assert parts == [parts[0]] + tail;
    }
  }

  /** Text that holds no separator is not cut. */
  lemma SplitNoMatch(s: string, sep: string)
    requires sep != [] && forall j: nat :: !MatchAt(s, sep, j)
    ensures Split(s, sep) == [s]
  {
    match Find(s, sep, 0)
    case None =>
    case Some(i) =>
      assert false;
  }

  /** Dropping the first part keeps the cuts where `split` makes them. */
  lemma FirstCutsTail(parts: seq<string>, sep: string)
    requires |parts| >= 1 && FirstCuts(parts, sep)
    ensures FirstCuts(parts[1..], sep)
  {
    var tail := parts[1..];
    forall k, j: nat | 0 <= k < |tail| - 1 && j < |tail[k]| ensures !MatchAt(tail[k] + sep, sep, j) {
      assert tail[k] == parts[k + 1];
    }
    forall k, j: nat | 0 <= k < |tail| ensures !MatchAt(tail[k], sep, j) {
      assert tail[k] == parts[k + 1];
    }
  }

  /** When the separator after `a` is its first occurrence, the first cut is right after `a`. */
  lemma SplitFirstCut(a: string, sep: string, b: string)
    requires sep != [] && forall j: nat :: j < |a| ==> !MatchAt(a + sep, sep, j)
    ensures Split(a + sep + b, sep) == [a] + Split(b, sep)
  {
    var s := a + sep + b;
    assert s[|a|..|a| + |sep|] == sep;
    assert MatchAt(s, sep, |a|);
    forall j: nat | j < |a| ensures !MatchAt(s, sep, j) {
      assert !MatchAt(a + sep, sep, j);
      assert (a + sep)[j..j + |sep|] == s[j..j + |sep|];
    }
    match Find(s, sep, 0)
    case None =>
      assert false;
    case Some(i) =>
      assert i == |a|;
      assert s[..i] == a;
      assert s[i + |sep|..] == b;
  }

  /**
   * When some character of the separator (the `k`-th) occurs neither in `a`
   * nor earlier in the separator, the first cut of `a + sep + b` is right
   * after `a`.
   */
  lemma SplitAt(a: string, sep: string, b: string, k: nat)
    requires k < |sep| && sep[k] !in a && sep[k] !in sep[..k]
    ensures Split(a + sep + b, sep) == [a] + Split(b, sep)
  {
    var s := a + sep + b;
    assert s[|a|..|a| + |sep|] == sep;
    assert MatchAt(s, sep, |a|);
    forall j: nat | j < |a| ensures !MatchAt(s, sep, j) {
      if j + k < |a| {
        assert s[j + k] == a[j + k];
      } else {
        assert s[j + k] == sep[..k][j + k - |a|];
      }
    }
    assert s[|a| + |sep|..] == b;
  }

  /** Text in which some character of the separator never occurs is not cut. */
  lemma SplitWhole(s: string, sep: string, k: nat)
    requires k < |sep| && sep[k] !in s
    ensures Split(s, sep) == [s]
  {
    forall j: nat ensures !MatchAt(s, sep, j) {
      if j + k < |s| { assert s[j + k] in s; }
    }
  }

  /** The last part of a split on one character is the text after the last occurrence of it. */
  lemma {:induction false} SplitLast(s: string, c: char, t: string)
    requires c !in t
    ensures var parts := Split(s + [c] + t, [c]); parts[|parts| - 1] == t
    decreases |s|
  {
    var u := s + [c] + t;
    assert u[|s|..|s| + 1] == [c];
    assert MatchAt(u, [c], |s|);
    match Find(u, [c], 0)
    case None =>
      assert false;
    case Some(i) =>
      var rest := Split(u[i + 1..], [c]);
      assert Split(u, [c]) == [u[..i]] + rest;
      if i < |s| {
        assert u[i + 1..] == s[i + 1..] + [c] + t;
        SplitLast(s[i + 1..], c, t);
      } else {
        assert i == |s|;
        assert u[i + 1..] == t;
        SplitWhole(t, [c], 0);
      }
      assert rest[|rest| - 1] == t;
      assert ([u[..i]] + rest)[|rest|] == rest[|rest| - 1];
  }

  /** Drops leading whitespace. */
  function TrimStart(s: string): string {
    if s != [] && IsSpace(s[0]) then TrimStart(s[1..]) else s
  }

  /** Drops trailing whitespace. */
  function TrimEnd(s: string): string {
    if s != [] && IsSpace(s[|s| - 1]) then TrimEnd(s[..|s| - 1]) else s
  }

  /** `s.strip()`: what is left after removing whitespace from both ends. */
  function Strip(s: string): string {
    TrimEnd(TrimStart(s))
  }

  /** `TrimStart` removes a whitespace prefix and leaves a suffix that does not start with whitespace. */
  lemma {:induction false} TrimStartSpec(s: string)
    ensures var r := TrimStart(s);
      |r| <= |s| && r == s[|s| - |r|..] && AllSpace(s[..|s| - |r|])
      && (r != [] ==> !IsSpace(r[0]))
  {
    if s != [] && IsSpace(s[0]) {
      TrimStartSpec(s[1..]);
      var r := TrimStart(s[1..]);
      assert s[1..][|s| - 1 - |r|..] == s[|s| - |r|..];
      assert s[..|s| - |r|] == [s[0]] + s[1..][..|s| - 1 - |r|];
    }
  }

  /** `TrimEnd` removes a whitespace suffix and leaves a prefix that does not end with whitespace. */
  lemma {:induction false} TrimEndSpec(s: string)
    ensures var r := TrimEnd(s);
      |r| <= |s| && r == s[..|r|] && AllSpace(s[|r|..])
      && (r != [] ==> !IsSpace(r[|r| - 1]))
  {
    if s != [] && IsSpace(s[|s| - 1]) {
      TrimEndSpec(s[..|s| - 1]);
      var r := TrimEnd(s[..|s| - 1]);
      assert s[..|s| - 1][..|r|] == s[..|r|];
      assert s[|r|..] == s[..|s| - 1][|r|..] + [s[|s| - 1]];
    }
  }

  /**
   * What `strip()` leaves has no whitespace at either end, and it is empty
   * exactly when `s` is all whitespace.
   */
  lemma StripSpec(s: string)
    ensures Stripped(Strip(s))
    ensures Strip(s) == [] <==> AllSpace(s)
  {
    var t := TrimStart(s);
    var r := TrimEnd(t);
    TrimStartSpec(s);
    TrimEndSpec(t);
    assert r != [] ==> r[0] == t[0];
    assert r == [] ==> t[|r|..] == t;
    assert t != [] ==> t[0] == s[|s| - |t|];
    assert t == [] ==> s[..|s| - |t|] == s;
  }

  /** `strip()` leaves text without whitespace at its ends as it is. */
  lemma StripStripped(s: string)
    requires Stripped(s)
    ensures Strip(s) == s
  {
    assert TrimStart(s) == s;
    assert TrimEnd(s) == s;
  }

  /** Whitespace padding on either side of a stripped text is exactly what `strip()` removes. */
  lemma {:induction false} StripPadded(left: string, x: string, right: string)
    requires AllSpace(left) && AllSpace(right) && Stripped(x)
    ensures Strip(left + x + right) == x
  {
    if x == [] {
      assert left + x + right == left + right;
      StripSpec(left + right);
      if right != [] {
        assert AllSpace(left + right) by {
          forall k | 0 <= k < |left + right| ensures IsSpace((left + right)[k]) {
            if k < |left| { assert (left + right)[k] == left[k]; }
            else { assert (left + right)[k] == right[k - |left|]; }
          }
        }
      }
    } else {
      assert left + x + right == left + (x + right);
      TrimStartPadded(left, x + right);
      TrimEndPadded(x, right);
    }
  }

  lemma {:induction false} TrimStartPadded(left: string, y: string)
    requires AllSpace(left) && (y == [] || !IsSpace(y[0]))
    ensures TrimStart(left + y) == y
  {
    if left != [] {
      assert (left + y)[1..] == left[1..] + y;
      TrimStartPadded(left[1..], y);
    }
  }

  lemma {:induction false} TrimEndPadded(x: string, right: string)
    requires AllSpace(right) && (x == [] || !IsSpace(x[|x| - 1]))
    ensures TrimEnd(x + right) == x
  {
    if right != [] {
      var n := |right| - 1;
      assert (x + right)[..|x + right| - 1] == x + right[..n];
      TrimEndPadded(x, right[..n]);
    } else {
      assert x + right == x;
    }
  }

  /** Python's `a <= b` on strings: lexicographic by code point. */
  predicate StrLe(a: string, b: string) {
    a == [] || (b != [] && (a[0] < b[0] || (a[0] == b[0] && StrLe(a[1..], b[1..]))))
  }

  /** A common prefix does not change how two strings compare. */
  lemma {:induction false} StrLeCommonPrefix(p: string, a: string, b: string)
    ensures StrLe(p + a, p + b) == StrLe(a, b)
  {
    if p != [] {
      assert (p + a)[1..] == p[1..] + a;
      assert (p + b)[1..] == p[1..] + b;
      assert (p + a)[0] == p[0] == (p + b)[0];
      StrLeCommonPrefix(p[1..], a, b);
    } else {
      assert p + a == a && p + b == b;
    }
  }

  lemma {:induction false} StrLeReflexive(a: string)
    ensures StrLe(a, a)
    decreases |a|
  {
    if a != [] { StrLeReflexive(a[1..]); }
  }

  lemma {:induction false} StrLeTransitive(a: string, b: string, c: string)
    requires StrLe(a, b) && StrLe(b, c)
    ensures StrLe(a, c)
    decreases |a|
  {
    if a != [] && a[0] == b[0] && b[0] == c[0] {
      StrLeTransitive(a[1..], b[1..], c[1..]);
    }
  }

  lemma {:induction false} StrLeTotal(a: string, b: string)
    ensures StrLe(a, b) || StrLe(b, a)
    decreases |a|
  {
    if a != [] && b != [] && a[0] == b[0] {
      StrLeTotal(a[1..], b[1..]);
    }
  }

  lemma {:induction false} StrLeAntisymmetric(a: string, b: string)
    requires StrLe(a, b) && StrLe(b, a)
    ensures a == b
    decreases |a|
  {
    if a != [] && b != [] {
      StrLeAntisymmetric(a[1..], b[1..]);
      assert a == [a[0]] + a[1..] && b == [b[0]] + b[1..];
    }
  }
}
