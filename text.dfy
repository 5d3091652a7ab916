/**
 * The few Python string builtins the conversation manager relies on:
 * `str.strip()`, `str.lower()`, the substring test `sub in s` and
 * `str.split(sep)`, stated over `string` (a sequence of Unicode scalar values).
 */
module Text {

  datatype Option<T> = None | Some(value: T)

  // ---------------------------------------------------------------------------
  // Whitespace and strip()
  // ---------------------------------------------------------------------------

  /** The characters Python's `str.isspace()` accepts, which are the ones
      `str.strip()` with no argument removes from both ends. */
  predicate IsSpace(c: char) {
    ('\t' <= c <= '\r') || ('\U{1C}' <= c <= '\U{1F}') || c == ' '
    || c == '\U{85}' || c == '\U{A0}' || c == '\U{1680}'
    || ('\U{2000}' <= c <= '\U{200A}') || c == '\U{2028}' || c == '\U{2029}'
    || c == '\U{202F}' || c == '\U{205F}' || c == '\U{3000}'
  }

  /** True when `s` neither starts nor ends with whitespace. */
  predicate Trimmed(s: string) {
    s == [] || (!IsSpace(s[0]) && !IsSpace(s[|s| - 1]))
  }

  /** The first position at or after `i` that does not hold whitespace. */
  function SkipSpace(s: string, i: nat): (j: nat)
    requires i <= |s|
    ensures i <= j <= |s|
    ensures forall k :: i <= k < j ==> IsSpace(s[k])
    ensures j < |s| ==> !IsSpace(s[j])
    decreases |s| - i
  {
    if i < |s| && IsSpace(s[i]) then SkipSpace(s, i + 1) else i
  }

  /** The position just after the last character of `s[lo..j]` that is not
      whitespace, or `lo` when there is none. */
  function SkipSpaceBack(s: string, lo: nat, j: nat): (i: nat)
    requires lo <= j <= |s|
    ensures lo <= i <= j
    ensures forall k :: i <= k < j ==> IsSpace(s[k])
    ensures lo < i ==> !IsSpace(s[i - 1])
    decreases j
  {
    if lo < j && IsSpace(s[j - 1]) then SkipSpaceBack(s, lo, j - 1) else j
  }

  /** `s[lo..hi]` is what `strip()` keeps: only whitespace lies outside it,
      and it neither starts nor ends with whitespace. */
  ghost predicate StripBounds(s: string, lo: nat, hi: nat) {
    lo <= hi <= |s|
    && (forall k :: 0 <= k < lo ==> IsSpace(s[k]))
    && (forall k :: hi <= k < |s| ==> IsSpace(s[k]))
    && (lo < hi ==> !IsSpace(s[lo]) && !IsSpace(s[hi - 1]))
  }

  /** Python's `s.strip()`: `s` is the result with only whitespace around it,
      and the result has no whitespace at either end. */
  function Strip(s: string): (r: string)
    ensures Trimmed(r)
    ensures exists lo: nat, hi: nat :: StripBounds(s, lo, hi) && r == s[lo..hi]
  {
    var lo := SkipSpace(s, 0);
    var hi := SkipSpaceBack(s, lo, |s|);
    assert StripBounds(s, lo, hi);
    s[lo..hi]
  }

  /** Bounds that `Strip` keeps. Several bounds can satisfy `StripBounds` for
      an all-whitespace string, but the slice `s[lo..hi]` they cut is the same. */
  lemma StripAt(s: string) returns (lo: nat, hi: nat)
    ensures StripBounds(s, lo, hi) && Strip(s) == s[lo..hi]
  {
    lo := SkipSpace(s, 0);
    hi := SkipSpaceBack(s, lo, |s|);
  }

  /** Stripping a string that is already trimmed changes nothing. */
  lemma StripTrimmed(s: string)
    requires Trimmed(s)
    ensures Strip(s) == s
  {
    assert SkipSpace(s, 0) == 0;
    assert SkipSpaceBack(s, 0, |s|) == |s|;
    assert s[0..|s|] == s;
  }

  lemma StripIdempotent(s: string)
    ensures Strip(Strip(s)) == Strip(s)
  {
    StripTrimmed(Strip(s));
  }

  // ---------------------------------------------------------------------------
  // lower()
  // ---------------------------------------------------------------------------

  /** Lower-casing of one character; only the ASCII letters are mapped. */
  function Lower(c: char): char {
    if 'A' <= c <= 'Z' then (c as int + 32) as char else c
  }

  /** `s.lower()`, character by character. */
  function LowerStr(s: string): string {
    seq(|s|, i requires 0 <= i < |s| => Lower(s[i]))
  }

  /** Lower-casing commutes with slicing. */
  lemma LowerSlice(s: string, lo: nat, hi: nat)
    requires lo <= hi <= |s|
    ensures LowerStr(s)[lo..hi] == LowerStr(s[lo..hi])
  {
  }

  // ---------------------------------------------------------------------------
  // Substring test: `sub in s`
  // ---------------------------------------------------------------------------

  predicate OccursAt(s: string, sub: string, i: nat) {
    i + |sub| <= |s| && s[i..i + |sub|] == sub
  }

  /** `sub` occurs at `i` and at no later position. */
  predicate LastOccurrence(s: string, sub: string, i: nat) {
    OccursAt(s, sub, i) && forall j :: i < j <= |s| ==> !OccursAt(s, sub, j)
  }

  /** Python's `sub in s`; the empty string occurs in every string. */
  predicate Contains(s: string, sub: string) {
    exists i :: 0 <= i <= |s| - |sub| && OccursAt(s, sub, i)
  }

  /** A substring stays a substring once both are lower-cased, so the
      test on lower-cased strings, with the character-wise `Lower` of this
      model, never misses a verbatim occurrence. */
  lemma LowerContains(s: string, sub: string)
    requires Contains(s, sub)
    ensures Contains(LowerStr(s), LowerStr(sub))
  {
    var i :| 0 <= i <= |s| - |sub| && OccursAt(s, sub, i);
    LowerSlice(s, i, i + |sub|);
    assert OccursAt(LowerStr(s), LowerStr(sub), i);
  }

  /** A string without an occurrence of `sub` has none in any of its slices. */
  lemma ContainsSlice(s: string, sub: string, lo: nat, hi: nat)
    requires lo <= hi <= |s|
    requires Contains(s[lo..hi], sub)
    ensures Contains(s, sub)
  {
    var t := s[lo..hi];
    var k :| 0 <= k <= |t| - |sub| && OccursAt(t, sub, k);
    SliceOfSlice(s, lo, hi, k, k + |sub|);
    assert OccursAt(s, sub, lo + k);
  }

  /** When `sub` occurs nowhere from `p` on, the rest of `s` does not contain it. */
  lemma NoneFrom(s: string, sub: string, p: nat)
    requires p <= |s|
    requires forall j :: p <= j <= |s| ==> !OccursAt(s, sub, j)
    ensures !Contains(s[p..], sub)
  {
    forall k | 0 <= k <= |s| - p - |sub|
      ensures !OccursAt(s[p..], sub, k)
    {
      SliceOfSlice(s, p, |s|, k, k + |sub|);
      assert s[p..] == s[p..|s|];
      assert !OccursAt(s, sub, p + k);
    }
  }

  /** Every slice of `s` occurs in `s`. */
  lemma SliceContained(s: string, lo: nat, hi: nat)
    requires lo <= hi <= |s|
    ensures Contains(s, s[lo..hi])
  {
    assert OccursAt(s, s[lo..hi], lo);
  }

  /** Occurring in is transitive. */
  lemma ContainsTrans(a: string, b: string, c: string)
    requires Contains(a, b) && Contains(b, c)
    ensures Contains(a, c)
  {
    var i :| 0 <= i <= |a| - |b| && OccursAt(a, b, i);
    var j :| 0 <= j <= |b| - |c| && OccursAt(b, c, j);
    SliceOfSlice(a, i, i + |b|, j, j + |c|);
    assert OccursAt(a, c, i + j);
  }

  /** The result of `strip()` occurs in the string stripped. */
  lemma StripContained(s: string)
    ensures Contains(s, Strip(s))
  {
    var lo, hi := StripAt(s);
    SliceContained(s, lo, hi);
  }

  /** The stripped tail of a string occurs in it. */
  lemma StripTailContained(s: string, p: nat)
    requires p <= |s|
    ensures Contains(s, Strip(s[p..]))
  {
    SliceContained(s, p, |s|);
    assert s[p..|s|] == s[p..];
    StripContained(s[p..]);
    ContainsTrans(s, s[p..], Strip(s[p..]));
  }

  /** Stripping adds no occurrence of a substring. */
  lemma StripKeepsAbsent(s: string, sub: string)
    requires !Contains(s, sub)
    ensures !Contains(Strip(s), sub)
  {
    var lo, hi := StripAt(s);
    if Contains(Strip(s), sub) {
      ContainsSlice(s, sub, lo, hi);
    }
  }

  /** A slice of a slice of `s` is a slice of `s`. */
  lemma SliceOfSlice(s: string, lo: nat, hi: nat, lo': nat, hi': nat)
    requires lo <= hi <= |s| && lo' <= hi' <= hi - lo
    ensures s[lo..hi][lo'..hi'] == s[lo + lo'..lo + hi']
  {
    var t := s[lo..hi];
    assert |t[lo'..hi']| == |s[lo + lo'..lo + hi']|;
    forall j | 0 <= j < hi' - lo'
      ensures t[lo'..hi'][j] == s[lo + lo'..lo + hi'][j]
    {
      assert t[lo'..hi'][j] == t[lo' + j] == s[lo + lo' + j];
    }
  }

  // ---------------------------------------------------------------------------
  // split(sep) and its inverse, sep.join(parts)
  // ---------------------------------------------------------------------------

  /** The first position at or after `k` where `sep` occurs in `s`. */
  function FindFrom(s: string, sep: string, k: nat): (r: Option<nat>)
    requires k <= |s|
    ensures r.Some? ==> k <= r.value && OccursAt(s, sep, r.value)
    ensures r.Some? ==> forall j :: k <= j < r.value ==> !OccursAt(s, sep, j)
    ensures r.None? ==> forall j :: k <= j <= |s| ==> !OccursAt(s, sep, j)
    decreases |s| - k
  {
    if OccursAt(s, sep, k) then Some(k)
    else if k == |s| then None
    else FindFrom(s, sep, k + 1)
  }

  /** The pieces of `s[k..].split(sep)`, for a non-empty separator: the text
      between the occurrences of `sep` found scanning left to right. */
  function SplitFrom(s: string, sep: string, k: nat): (parts: seq<string>)
    requires |sep| > 0 && k <= |s|
    ensures |parts| >= 1
    decreases |s| - k
  {
    match FindFrom(s, sep, k)
    case None => [s[k..]]
    case Some(i) => [s[k..i]] + SplitFrom(s, sep, i + |sep|)
  }

  /** Python's `s.split(sep)`. */
  function Split(s: string, sep: string): (parts: seq<string>)
    requires |sep| > 0
    ensures |parts| >= 1
  {
    SplitFrom(s, sep, 0)
  }

  /** Python's `sep.join(parts)`. */
  function Join(parts: seq<string>, sep: string): string
    requires |parts| >= 1
  {
    if |parts| == 1 then parts[0] else parts[0] + sep + Join(parts[1..], sep)
  }

  /** `a` is a suffix of `b`. */
  predicate IsSuffix<T(==)>(a: seq<T>, b: seq<T>) {
    |a| <= |b| && b[|b| - |a|..] == a
  }

  function Last<T>(s: seq<T>): T
    requires |s| >= 1
  {
    s[|s| - 1]
  }

  lemma LastOfCons<T>(x: T, t: seq<T>)
    requires |t| >= 1
    ensures Last([x] + t) == Last(t)
  {
  }

  /** Where the last piece of `SplitFrom(s, sep, k)` starts: no separator
      occurs from there on, and when one occurs at all the piece starts right
      after one. */
  function LastPieceStart(s: string, sep: string, k: nat): (p: nat)
    requires |sep| > 0 && k <= |s|
    ensures k <= p <= |s|
    ensures forall j :: p <= j <= |s| ==> !OccursAt(s, sep, j)
    ensures FindFrom(s, sep, k).Some? ==> k + |sep| <= p && OccursAt(s, sep, p - |sep|)
    decreases |s| - k
  {
    match FindFrom(s, sep, k)
    case None => k
    case Some(i) => LastPieceStart(s, sep, i + |sep|)
  }

  /** Joining the pieces of a split with the same separator gives back the
      text split. */
  lemma {:induction false} SplitJoin(s: string, sep: string, k: nat)
    requires |sep| > 0 && k <= |s|
    ensures Join(SplitFrom(s, sep, k), sep) == s[k..]
    decreases |s| - k
  {
    match FindFrom(s, sep, k)
    case None =>
    case Some(i) =>
      var tail := SplitFrom(s, sep, i + |sep|);
      SplitJoin(s, sep, i + |sep|);
      var parts := SplitFrom(s, sep, k);
      assert parts == [s[k..i]] + tail;
      assert parts[1..] == tail;
      assert Join(parts, sep) == s[k..i] + sep + s[i + |sep|..];
      assert s[i..i + |sep|] == sep;
      assert s[k..] == s[k..i] + s[i..i + |sep|] + s[i + |sep|..];
  }

  /** The last piece of a split is the text from `LastPieceStart` on. */
  lemma {:induction false} SplitLast(s: string, sep: string, k: nat)
    requires |sep| > 0 && k <= |s|
    ensures Last(SplitFrom(s, sep, k)) == s[LastPieceStart(s, sep, k)..]
    decreases |s| - k
  {
    match FindFrom(s, sep, k)
    case None =>
    case Some(i) =>
      var tail := SplitFrom(s, sep, i + |sep|);
      SplitLast(s, sep, i + |sep|);
      LastOfCons(s[k..i], tail);
  }

  /** The last piece of a split holds no separator. */
  lemma SplitLastFree(s: string, sep: string)
    requires |sep| > 0
    ensures !Contains(Last(Split(s, sep)), sep)
  {
    var p := LastPieceStart(s, sep, 0);
    SplitLast(s, sep, 0);
    NoneFrom(s, sep, p);
  }

  /** A separator that occurs is found by the scan from the start. */
  lemma FoundFirst(s: string, sep: string)
    requires Contains(s, sep)
    ensures FindFrom(s, sep, 0).Some?
  {
  }

  /** Where `split(sep)[-1]` starts, with what `LastPieceStart` says of it. */
  lemma LastPiece(s: string, sep: string) returns (p: nat)
    requires |sep| > 0 && Contains(s, sep)
    ensures |sep| <= p <= |s| && OccursAt(s, sep, p - |sep|)
    ensures forall j :: p <= j <= |s| ==> !OccursAt(s, sep, j)
    ensures Last(Split(s, sep)) == s[p..]
  {
    FoundFirst(s, sep);
    p := LastPieceStart(s, sep, 0);
    SplitLast(s, sep, 0);
  }

  /** When the separator occurs, the last piece of a split starts right
      after an occurrence of it, and none occurs from there on. */
  lemma SplitLastAfterSep(s: string, sep: string) returns (i: nat)
    requires |sep| > 0 && Contains(s, sep)
    ensures i + |sep| <= |s| && OccursAt(s, sep, i)
    ensures forall j :: i + |sep| <= j <= |s| ==> !OccursAt(s, sep, j)
    ensures Last(Split(s, sep)) == s[i + |sep|..]
  {
    var p := LastPiece(s, sep);
    i := p - |sep|;
  }

  /** A string without the separator splits into itself alone. */
  lemma SplitWithout(s: string, sep: string)
    requires |sep| > 0 && !Contains(s, sep)
    ensures Split(s, sep) == [s]
  {
    assert s[0..] == s;
  }
}
