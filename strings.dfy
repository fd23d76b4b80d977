/**
 * The few Python `str` operations the scripts rely on, with the semantics CPython
 * gives them: `strip()`, `strip(chars)`, `find`, `in`, `startswith`, `lower()`,
 * `replace(old, "")`, `split(sep)` and `sep.join(parts)`.
 */
module Strings {

  /** Python's `str.isspace()` (also the set `\s` matches in a `str` regex). */
  predicate IsSpace(c: char) {
    ('\t' <= c <= '\r') || ('\U{1C}' <= c <= ' ') || c == '\U{85}' || c == '\U{A0}'
    || c == '\U{1680}' || ('\U{2000}' <= c <= '\U{200A}') || c == '\U{2028}' || c == '\U{2029}'
    || c == '\U{202F}' || c == '\U{205F}' || c == '\U{3000}'
  }

  /** The regex class `\d`, restricted to ASCII. */
  predicate IsDigit(c: char) {
    '0' <= c <= '9'
  }

  /** The regex class `\w`, restricted to ASCII. */
  predicate IsWordChar(c: char) {
    IsDigit(c) || ('a' <= c <= 'z') || ('A' <= c <= 'Z') || c == '_'
  }

  function ToLower(c: char): char {
    if 'A' <= c <= 'Z' then (c as int + 32) as char else c
  }

  /** `s.lower()`, restricted to ASCII letters: it keeps the length, so indices carry over. */
  function Lower(s: string): (r: string)
    ensures |r| == |s|
    ensures forall i :: 0 <= i < |s| ==> r[i] == ToLower(s[i])
  {
    seq(|s|, i requires 0 <= i < |s| => ToLower(s[i]))
  }

  lemma LowerIdempotent(s: string)
    ensures Lower(Lower(s)) == Lower(s)
  {
  }

  lemma LowerAppend(a: string, b: string)
    ensures Lower(a + b) == Lower(a) + Lower(b)
  {
    assert Lower(a + b) == Lower(a) + Lower(b);
  }

  // ---------------------------------------------------------------- strip

  /** Removes the leading characters satisfying `drop`. */
  function TrimLeft(s: string, drop: char -> bool): (r: string)
    ensures |r| <= |s| && r == s[|s| - |r|..]
    ensures forall i :: 0 <= i < |s| - |r| ==> drop(s[i])
    ensures r != [] ==> !drop(r[0])
    decreases |s|
  {
    if |s| > 0 && drop(s[0]) then TrimLeft(s[1..], drop) else s
  }

  /** Removes the trailing characters satisfying `drop`. */
  function TrimRight(s: string, drop: char -> bool): (r: string)
    ensures |r| <= |s| && r == s[..|r|]
    ensures forall i :: |r| <= i < |s| ==> drop(s[i])
    ensures r != [] ==> !drop(r[|r| - 1])
    decreases |s|
  {
    if |s| > 0 && drop(s[|s| - 1]) then TrimRight(s[..|s| - 1], drop) else s
  }

  /** Python's `s.strip(chars)` where `drop` says which characters are in `chars`. */
  function Trim(s: string, drop: char -> bool): (r: string)
    ensures r == [] || (!drop(r[0]) && !drop(r[|r| - 1]))
    ensures r == [] ==> forall i :: 0 <= i < |s| ==> drop(s[i])
  {
    TrimRight(TrimLeft(s, drop), drop)
  }

  /** The trimmed string is a slice of the original whose outside is made of dropped characters. */
  lemma TrimSlice(s: string, drop: char -> bool) returns (a: nat, b: nat)
    ensures a <= b <= |s| && Trim(s, drop) == s[a..b]
    ensures forall i :: 0 <= i < a ==> drop(s[i])
    ensures forall i :: b <= i < |s| ==> drop(s[i])
  {
    var l := TrimLeft(s, drop);
    var r := TrimRight(l, drop);
    a := |s| - |l|;
    b := a + |r|;
    assert Trim(s, drop) == r;
    SliceOfSuffix(s, a, l, r);
    SuffixDropped(s, a, l, |r|, drop);
  }

  /** A prefix of a suffix is a slice. */
  lemma SliceOfSuffix(s: string, a: nat, l: string, r: string)
    requires a <= |s| && l == s[a..] && |r| <= |l| && r == l[..|r|]
    ensures a + |r| <= |s| && s[a..a + |r|] == r
  {
  }

  /** What is dropped from the end of a suffix is dropped from the end of the whole. */
  lemma SuffixDropped(s: string, a: nat, l: string, n: nat, drop: char -> bool)
    requires a <= |s| && l == s[a..] && n <= |l|
    requires forall i :: n <= i < |l| ==> drop(l[i])
    ensures forall i :: a + n <= i < |s| ==> drop(s[i])
  {
    forall i | a + n <= i < |s| ensures drop(s[i]) {
      assert s[i] == l[i - a];
    }
  }

  lemma {:induction false} TrimLeftIdempotent(s: string, drop: char -> bool)
    ensures TrimLeft(TrimLeft(s, drop), drop) == TrimLeft(s, drop)
  {
  }

  lemma TrimIdempotent(s: string, drop: char -> bool)
    ensures Trim(Trim(s, drop), drop) == Trim(s, drop)
  {
    var t := Trim(s, drop);
    if t != [] {
      assert TrimLeft(t, drop) == t;
      assert TrimRight(t, drop) == t;
    }
  }

  /** Python's `s.strip()`. */
  function Strip(s: string): (r: string)
    ensures r == [] || (!IsSpace(r[0]) && !IsSpace(r[|r| - 1]))
  {
    Trim(s, IsSpace)
  }

  lemma StripIdempotent(s: string)
    ensures Strip(Strip(s)) == Strip(s)
  {
    TrimIdempotent(s, IsSpace);
  }

  /** Python's `s.strip()` is empty exactly for empty or whitespace-only strings. */
  lemma StripEmpty(s: string)
    ensures Strip(s) == [] <==> forall i :: 0 <= i < |s| ==> IsSpace(s[i])
  {
    var a, b := TrimSlice(s, IsSpace);
    if Strip(s) != [] {
      assert !IsSpace(s[a]);
    }
  }

  // ------------------------------------------------------ find, in, startswith

  /** `s[k] == c`, false when `k` is out of range. */
  predicate CharAt(s: string, k: nat, c: char) {
    k < |s| && s[k] == c
  }

  predicate OccursAt(s: string, pat: string, i: nat) {
    i + |pat| <= |s| && s[i..i + |pat|] == pat
  }

  /** A string occurs in any concatenation it is the middle of. */
  lemma OccursInMiddle(x: string, pat: string, z: string)
    ensures OccursAt(x + pat + z, pat, |x|)
  {
    assert (x + pat + z)[|x|..|x| + |pat|] == pat;
  }

  /** A character inside an occurrence of `pat` is the matching character of `pat`. */
  lemma OccursAtChar(s: string, pat: string, i: nat, k: nat)
    ensures OccursAt(s, pat, i) && i <= k < i + |pat| ==> s[k] == pat[k - i]
  {
    if OccursAt(s, pat, i) && i <= k < i + |pat| {
      assert s[k] == s[i..i + |pat|][k - i];
    }
  }

  /** Python's `s.find(pat, i)`, with `None` for -1. */
  function FindFrom(s: string, pat: string, i: nat): (r: Option<nat>)
    ensures r.Some? ==> i <= r.value && OccursAt(s, pat, r.value)
    ensures r.Some? ==> forall k: nat :: i <= k < r.value ==> !OccursAt(s, pat, k)
    ensures r.None? ==> forall k: nat :: i <= k ==> !OccursAt(s, pat, k)
    decreases |s| - i
  {
    if i + |pat| > |s| then None
    else if OccursAt(s, pat, i) then Some(i)
    else FindFrom(s, pat, i + 1)
  }

  /** Python's `s.find(pat)`: the first occurrence. */
  function Find(s: string, pat: string): (r: Option<nat>)
    ensures r.Some? ==> OccursAt(s, pat, r.value) && forall k: nat :: k < r.value ==> !OccursAt(s, pat, k)
    ensures r.None? ==> forall k: nat :: !OccursAt(s, pat, k)
  {
    FindFrom(s, pat, 0)
  }

  /** Python's `pat in s`. */
  predicate Contains(s: string, pat: string) {
    Find(s, pat).Some?
  }

  lemma ContainsAt(s: string, pat: string, i: nat)
    requires OccursAt(s, pat, i)
    ensures Contains(s, pat)
  {
  }

  /** Python's `s.startswith(p)`. */
  predicate StartsWith(s: string, p: string) {
    |p| <= |s| && s[..|p|] == p
  }

  // ------------------------------------------------------------ replace

  /** Python's `s.replace(pat, "")`: one left-to-right pass removing non-overlapping occurrences. */
  function RemoveAll(s: string, pat: string): (r: string)
    requires pat != []
    ensures |r| <= |s|
    decreases |s|
  {
    if |s| < |pat| then s
    else if s[..|pat|] == pat then RemoveAll(s[|pat|..], pat)
    else [s[0]] + RemoveAll(s[1..], pat)
  }

  /** A string without the pattern is left unchanged. */
  lemma {:induction false} RemoveAllAbsent(s: string, pat: string)
    requires pat != []
    requires forall k: nat :: !OccursAt(s, pat, k)
    ensures RemoveAll(s, pat) == s
    decreases |s|
  {
    if |s| >= |pat| {
      assert !OccursAt(s, pat, 0);
      forall k: nat ensures !OccursAt(s[1..], pat, k) {
        if OccursAt(s[1..], pat, k) {
          assert s[1..][k..k + |pat|] == s[k + 1..k + 1 + |pat|];
          assert OccursAt(s, pat, k + 1);
        }
      }
      RemoveAllAbsent(s[1..], pat);
    }
  }

  /** An occurrence in `s[1..]` is an occurrence in `s` one place later. */
  lemma OccursAtTail(s: string, pat: string, k: nat)
    requires |s| >= 1
    requires OccursAt(s[1..], pat, k)
    ensures OccursAt(s, pat, k + 1)
  {
    assert s[1..][k..k + |pat|] == s[k + 1..k + 1 + |pat|];
  }

  /** The removal is not anchored: text before the first occurrence is kept, that occurrence
      goes, and the removal carries on after it. */
  lemma {:induction false} RemoveAllInner(x: string, pat: string, y: string)
    requires pat != []
    requires forall k: nat :: k < |x| ==> !OccursAt(x + pat + y, pat, k)
    ensures RemoveAll(x + pat + y, pat) == x + RemoveAll(y, pat)
    decreases |x|
  {
    var s := x + pat + y;
    if x == [] {
      assert s == pat + y;
      assert s[..|pat|] == pat && s[|pat|..] == y;
    } else {
      var t := x[1..] + pat + y;
      assert s[1..] == t;
      assert !OccursAt(s, pat, 0);
      assert RemoveAll(s, pat) == [s[0]] + RemoveAll(t, pat);
      forall k: nat | k < |x[1..]| ensures !OccursAt(t, pat, k) {
        if OccursAt(t, pat, k) {
          OccursAtTail(s, pat, k);
        }
      }
      RemoveAllInner(x[1..], pat, y);
      assert [x[0]] + x[1..] == x;
    }
  }

  /** Removing a single character leaves no occurrence of it (`s.replace('\n', '')`). */
  lemma {:induction false} RemoveCharGone(s: string, c: char)
    ensures c !in RemoveAll(s, [c])
    decreases |s|
  {
    if |s| >= 1 {
      RemoveCharGone(s[1..], c);
    }
  }

  // ------------------------------------------------------------ join, split

  /** Python's `sep.join(parts)`. */
  function Join(parts: seq<string>, sep: string): string
    decreases |parts|
  {
    if parts == [] then ""
    else if |parts| == 1 then parts[0]
    else parts[0] + sep + Join(parts[1..], sep)
  }

  /** Number of occurrences of `c` in `s`. */
  function CountChar(s: string, c: char): nat
    decreases |s|
  {
    if s == [] then 0 else (if s[0] == c then 1 else 0) + CountChar(s[1..], c)
  }

  lemma {:induction false} CountCharAppend(a: string, b: string, c: char)
    ensures CountChar(a + b, c) == CountChar(a, c) + CountChar(b, c)
    decreases |a|
  {
    if a != [] {
      assert (a + b)[1..] == a[1..] + b;
      CountCharAppend(a[1..], b, c);
    } else {
      assert a + b == b;
    }
  }

  /** A string without `c` counts none. */
  lemma {:induction false} CountCharAbsent(s: string, c: char)
    requires c !in s
    ensures CountChar(s, c) == 0
    decreases |s|
  {
    if s != [] {
      CountCharAbsent(s[1..], c);
    }
  }

  /** Python's `s.split(sep)` for a one-character separator: never empty, no piece holds `sep`. */
  function Split(s: string, sep: char): (r: seq<string>)
    ensures |r| >= 1
    ensures forall k :: 0 <= k < |r| ==> sep !in r[k]
  {
    SplitFrom(s, sep, 0)
  }

  /** The pieces of `s[i..]`, scanning by index. */
  function SplitFrom(s: string, sep: char, i: nat): (r: seq<string>)
    requires i <= |s|
    ensures |r| >= 1
    ensures forall k :: 0 <= k < |r| ==> sep !in r[k]
    decreases |s| - i
  {
    if i == |s| then [""]
    else
      var rest := SplitFrom(s, sep, i + 1);
      if s[i] == sep then [""] + rest
      else [[s[i]] + rest[0]] + rest[1..]
  }

  /** `sep.join(parts)` is empty exactly when there is no part, or one empty part. */
  lemma {:induction false} JoinEmpty(parts: seq<string>, sep: string)
    requires sep != []
    ensures Join(parts, sep) == [] <==> parts == [] || (|parts| == 1 && parts[0] == [])
    decreases |parts|
  {
    if |parts| > 1 {
      JoinEmpty(parts[1..], sep);
    }
  }

  /** `sep.join(parts)` holds `c` only through its separators when no part holds it. */
  lemma {:induction false} JoinCount(parts: seq<string>, sep: string, c: char)
    requires parts != []
    requires forall k :: 0 <= k < |parts| ==> c !in parts[k]
    ensures CountChar(Join(parts, sep), c) == (|parts| - 1) * CountChar(sep, c)
    decreases |parts|
  {
    CountCharAbsent(parts[0], c);
    if |parts| > 1 {
      JoinCount(parts[1..], sep, c);
      CountCharAppend(parts[0], sep, c);
      CountCharAppend(parts[0] + sep, Join(parts[1..], sep), c);
    }
  }

  /** `s.split(sep)` has one more piece than `s` has separators. */
  lemma SplitCount(s: string, sep: char)
    ensures |Split(s, sep)| == CountChar(s, sep) + 1
  {
    SplitFromCount(s, sep, 0);
    assert s[0..] == s;
  }

  lemma {:induction false} SplitFromCount(s: string, sep: char, i: nat)
    requires i <= |s|
    ensures |SplitFrom(s, sep, i)| == CountChar(s[i..], sep) + 1
    decreases |s| - i
  {
    if i < |s| {
      SplitFromCount(s, sep, i + 1);
      assert s[i..][1..] == s[i + 1..];
    }
  }

  /** Joining the pieces of `s.split(sep)` with `sep` gives back `s`. */
  lemma SplitJoin(s: string, sep: char)
    ensures Join(Split(s, sep), [sep]) == s
  {
    SplitFromJoin(s, sep, 0);
    assert s[0..] == s;
  }

  lemma {:induction false} SplitFromJoin(s: string, sep: char, i: nat)
    requires i <= |s|
    ensures Join(SplitFrom(s, sep, i), [sep]) == s[i..]
    decreases |s| - i
  {
    if i < |s| {
      var rest := SplitFrom(s, sep, i + 1);
      SplitFromJoin(s, sep, i + 1);
      assert s[i..] == [s[i]] + s[i + 1..];
      if s[i] == sep {
        assert SplitFrom(s, sep, i) == [""] + rest;
        assert Join([""] + rest, [sep]) == "" + [sep] + Join(rest, [sep]);
      } else {
        var r := SplitFrom(s, sep, i);
        assert r == [[s[i]] + rest[0]] + rest[1..];
        if |rest| == 1 {
          assert Join(r, [sep]) == [s[i]] + rest[0];
        } else {
          assert Join(rest, [sep]) == rest[0] + [sep] + Join(rest[1..], [sep]);
          assert r[1..] == rest[1..];
          assert Join(r, [sep]) == [s[i]] + rest[0] + [sep] + Join(rest[1..], [sep]);
        }
      }
    }
  }

  import opened Wrappers
}
