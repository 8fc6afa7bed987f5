/** The few Python string operations the core uses: `in`, `lower`, `split` and `strip`.
    Characters are compared as they are; lower-casing covers ASCII letters only and
    stripping covers the six ASCII whitespace characters. */
module Strings {
  import opened Wrappers

  /** `p` occurs in `s` starting at index `k`. */
  predicate OccursAt(s: string, p: string, k: nat) {
    k + |p| <= |s| && s[k..k + |p|] == p
  }

  /** The first index at or after `k` where `p` occurs in `s`, if any. */
  function IndexFrom(s: string, p: string, k: nat): (r: Option<nat>)
    ensures r.Some? ==> k <= r.value && OccursAt(s, p, r.value)
    ensures r.Some? ==> forall j :: k <= j < r.value ==> !OccursAt(s, p, j)
    ensures r.None? ==> forall j :: k <= j ==> !OccursAt(s, p, j)
    decreases |s| - k
  {
    if k + |p| > |s| then None
    else if s[k..k + |p|] == p then Some(k)
    else IndexFrom(s, p, k + 1)
  }

  /** Python's `s.find(p)`, with "not found" as `None`. */
  function IndexOf(s: string, p: string): Option<nat> {
    IndexFrom(s, p, 0)
  }

  /** Python's `p in s`. */
  predicate Contains(s: string, p: string) {
    IndexOf(s, p).Some?
  }

  /** `IndexOf` returns exactly the first occurrence. */
  lemma FirstOccurrence(s: string, p: string, i: nat)
    requires OccursAt(s, p, i)
    requires forall j :: 0 <= j < i ==> !OccursAt(s, p, j)
    ensures IndexOf(s, p) == Some(i)
  {
  }

  /** `Contains` holds exactly when some occurrence exists. */
  lemma ContainsIff(s: string, p: string)
    ensures Contains(s, p) <==> exists k: nat :: OccursAt(s, p, k)
  {
    if k: nat :| OccursAt(s, p, k) {
      assert IndexOf(s, p).Some?;
    }
  }

  /** A string that does not contain `p` has no occurrence of it at any position. */
  lemma NoOccurrence(s: string, p: string, k: nat)
    requires !Contains(s, p)
    ensures !OccursAt(s, p, k)
  {
    ContainsIff(s, p);
  }

  /** A slice of a string that does not contain `p` does not contain it either. */
  lemma SliceKeepsAbsence(s: string, p: string, lo: nat, n: nat)
    requires |p| > 0 && !Contains(s, p) && lo + n <= |s|
    ensures !Contains(s[lo..lo + n], p)
  {
    var r := s[lo..lo + n];
    ContainsIff(r, p);
    forall k: nat
      ensures !OccursAt(r, p, k)
    {
      if k + |p| <= n {
        var inner, outer := r[k..k + |p|], s[lo + k..lo + k + |p|];
        forall j | 0 <= j < |p|
          ensures inner[j] == outer[j]
        {
          assert r[k + j] == s[lo + k + j];
        }
        assert inner == outer;
        NoOccurrence(s, p, lo + k);
      }
    }
  }

  /** A string without any backtick: the separators the core looks for all start with one. */
  predicate NoBacktick(s: string) {
    forall i :: 0 <= i < |s| ==> s[i] != '`'
  }

  /** When `s` holds no backtick and `p` starts with one, the first `p` in `s + p + rest` is the one right after `s`. */
  lemma FirstAfterBacktickFree(s: string, p: string, rest: string)
    requires |p| > 0 && p[0] == '`' && NoBacktick(s)
    ensures IndexOf(s + p + rest, p) == Some(|s|)
  {
    var t := s + p + rest;
    assert t[|s|..|s| + |p|] == p;
    forall j | 0 <= j < |s|
      ensures !OccursAt(t, p, j)
    {
      assert t[j] == s[j] != p[0];
    }
    FirstOccurrence(t, p, |s|);
  }

  /** Python's `s.split(sep)`: the fields between successive non-overlapping occurrences of `sep`,
      scanning from the left. */
  function Split(s: string, sep: string): (r: seq<string>)
    requires |sep| > 0
    ensures |r| >= 1
    ensures |r| >= 2 <==> Contains(s, sep)
    ensures !Contains(s, sep) ==> r == [s]
    ensures Contains(s, sep) ==> IndexOf(s, sep) == Some(|r[0]|) && r[0] == s[..|r[0]|]
    ensures forall i :: 0 <= i < |r| ==> !Contains(r[i], sep)
    decreases |s|
  {
    match IndexOf(s, sep)
    case None => [s]
    case Some(i) =>
      PrefixBeforeFirstHasNone(s, sep, i);
      [s[..i]] + Split(s[i + |sep|..], sep)
  }

  /** The text before the first occurrence of `sep` holds no occurrence of it. */
  lemma PrefixBeforeFirstHasNone(s: string, sep: string, i: nat)
    requires |sep| > 0 && IndexOf(s, sep) == Some(i)
    ensures !Contains(s[..i], sep)
  {
    forall k: nat
      ensures !OccursAt(s[..i], sep, k)
    {
      if k + |sep| <= i {
        assert !OccursAt(s, sep, k);
        assert s[..i][k..k + |sep|] == s[k..k + |sep|];
      }
    }
  }

  /** Python's `sep.join(parts)`. */
  function Join(parts: seq<string>, sep: string): string
    requires |parts| >= 1
  {
    if |parts| == 1 then parts[0] else parts[0] + sep + Join(parts[1..], sep)
  }

  /** Splitting and joining back with the same separator gives the original text. */
  lemma {:induction false} SplitJoin(s: string, sep: string)
    requires |sep| > 0
    ensures Join(Split(s, sep), sep) == s
    decreases |s|
  {
    match IndexOf(s, sep)
    case None =>
    case Some(i) =>
      var rest := s[i + |sep|..];
      SplitJoin(rest, sep);
      assert Split(s, sep) == [s[..i]] + Split(rest, sep);
      assert Split(s, sep)[1..] == Split(rest, sep);
      assert s == s[..i] + sep + rest;
  }

  /** Python's `str.lower()` on ASCII letters; every other character is kept. */
  function LowerChar(c: char): char {
    if 'A' <= c <= 'Z' then (c as int - 'A' as int + 'a' as int) as char else c
  }

  function Lower(s: string): (r: string)
    ensures |r| == |s|
    ensures forall i :: 0 <= i < |s| ==> r[i] == LowerChar(s[i])
  {
    seq(|s|, i requires 0 <= i < |s| => LowerChar(s[i]))
  }

  /** The characters `str.strip()` removes in this model: space, tab, line feed,
      carriage return, vertical tab and form feed. */
  predicate IsSpace(c: char) {
    c == ' ' || c == '\t' || c == '\n' || c == '\r' || c == '\U{000B}' || c == '\U{000C}'
  }

  /** The index of the first non-whitespace character at or after `i`, or `|s|`. */
  function SkipSpaceFrom(s: string, i: nat): (lo: nat)
    requires i <= |s|
    ensures i <= lo <= |s|
    ensures forall k :: i <= k < lo ==> IsSpace(s[k])
    ensures lo == |s| || !IsSpace(s[lo])
    decreases |s| - i
  {
    if i < |s| && IsSpace(s[i]) then SkipSpaceFrom(s, i + 1) else i
  }

  /** One past the last non-whitespace character before `j` and at or after `lo`, or `lo`. */
  function SkipSpaceBack(s: string, lo: nat, j: nat): (hi: nat)
    requires lo <= j <= |s|
    ensures lo <= hi <= j
    ensures forall k :: hi <= k < j ==> IsSpace(s[k])
    ensures hi == lo || !IsSpace(s[hi - 1])
    decreases j
  {
    if lo < j && IsSpace(s[j - 1]) then SkipSpaceBack(s, lo, j - 1) else j
  }

  /** `r` is `s[lo..lo + |r|]` and everything outside that slice is whitespace. */
  predicate StrippedAt(s: string, r: string, lo: nat) {
    lo + |r| <= |s| && s[lo..lo + |r|] == r
    && (forall i :: 0 <= i < lo ==> IsSpace(s[i]))
    && (forall i :: lo + |r| <= i < |s| ==> IsSpace(s[i]))
  }

  /** Python's `str.strip()`: `r` is the slice `s[lo..lo + |r|]` that remains once the
      whitespace on both sides is removed, and it neither starts nor ends with whitespace. */
  function Strip(s: string): (r: string)
    ensures |r| <= |s|
    ensures r == [] || (!IsSpace(r[0]) && !IsSpace(r[|r| - 1]))
    ensures exists lo: nat :: StrippedAt(s, r, lo)
  {
    var lo := SkipSpaceFrom(s, 0);
    var hi := SkipSpaceBack(s, lo, |s|);
    assert StrippedAt(s, s[lo..hi], lo);
    s[lo..hi]
  }

  /** Stripping removes exactly the surrounding whitespace: text that neither starts nor ends
      with whitespace comes back unchanged from between any two runs of whitespace. */
  lemma StripFramed(a: string, x: string, b: string)
    requires forall i :: 0 <= i < |a| ==> IsSpace(a[i])
    requires forall i :: 0 <= i < |b| ==> IsSpace(b[i])
    requires x == [] || (!IsSpace(x[0]) && !IsSpace(x[|x| - 1]))
    ensures Strip(a + x + b) == x
  {
    var s := a + x + b;
    forall i | 0 <= i < |a| ensures IsSpace(s[i]) { assert s[i] == a[i]; }
    forall i | |a| + |x| <= i < |s| ensures IsSpace(s[i]) { assert s[i] == b[i - |a| - |x|]; }
    var lo := SkipSpaceFrom(s, 0);
    if x == [] {
      assert lo == |s|;
      assert SkipSpaceBack(s, lo, |s|) == |s|;
    } else {
      assert s[|a|] == x[0];
      assert lo == |a|;
      assert s[|a| + |x| - 1] == x[|x| - 1];
      assert SkipSpaceBack(s, lo, |s|) == |a| + |x|;
      assert s[|a|..|a| + |x|] == x;
    }
  }
}
