/**
 * The parts of Rust's `str` API the scraper relies on, over `seq<char>`:
 * `split` on a string pattern, `trim`, and the character classes they use.
 */
module Text {
  import opened Wrappers

  /** `sep` occurs in `s` starting at index `i`. */
  predicate OccursAt(s: string, i: int, sep: string)
  {
    0 <= i && i + |sep| <= |s| && s[i..i + |sep|] == sep
  }

  /** `sep` occurs nowhere in `s`. */
  predicate Free(s: string, sep: string)
  {
    forall i :: 0 <= i <= |s| ==> !OccursAt(s, i, sep)
  }

  /** The leftmost occurrence of `sep` in `s` at index `from` or later. */
  function FindFrom(s: string, sep: string, from: nat): (r: Option<nat>)
    requires |sep| > 0
    ensures r.Some? ==> from <= r.value && OccursAt(s, r.value, sep)
    ensures forall i :: from <= i && (r.None? || i < r.value) ==> !OccursAt(s, i, sep)
    decreases |s| - from
  {
    if from + |sep| > |s| then None
    else if OccursAt(s, from, sep) then Some(from)
    else FindFrom(s, sep, from + 1)
  }

  /**
   * `s.split(sep)`: the pieces between successive leftmost, non-overlapping
   * occurrences of `sep`, scanning left to right. There is always at least
   * one piece.
   */
  function Split(s: string, sep: string): (parts: seq<string>)
    requires |sep| > 0
    ensures |parts| >= 1
    decreases |s|
  {
    match FindFrom(s, sep, 0)
    case None => [s]
    case Some(k) => [s[..k]] + Split(s[k + |sep|..], sep)
  }

  /** The pieces glued back together with `sep` between neighbours. */
  function Join(parts: seq<string>, sep: string): string
    requires |parts| >= 1
  {
    if |parts| == 1 then parts[0] else parts[0] + sep + Join(parts[1..], sep)
  }

  /** `Iterator::last` on a sequence that is known to be non-empty. */
  function Last<T>(xs: seq<T>): T
    requires |xs| > 0
  {
    xs[|xs| - 1]
  }

  lemma LastOfCons<T>(x: T, xs: seq<T>)
    requires |xs| > 0
    ensures Last([x] + xs) == Last(xs)
  {
  }

  /** The number of (possibly overlapping) occurrences of `sep` at index `from` or later. */
  function CountFrom(s: string, sep: string, from: nat): nat
    decreases |s| - from
  {
    if from + |sep| > |s| then 0
    else (if OccursAt(s, from, sep) then 1 else 0) + CountFrom(s, sep, from + 1)
  }

  /** The number of indices of `s` at which `sep` occurs. */
  function Occurrences(s: string, sep: string): nat
  {
    CountFrom(s, sep, 0)
  }

  /** Splitting and joining again gives back the original text. */
  lemma {:induction false} SplitJoin(s: string, sep: string)
    requires |sep| > 0
    ensures Join(Split(s, sep), sep) == s
    decreases |s|
  {
    match FindFrom(s, sep, 0)
    case None =>
    case Some(k) =>
      var rest := s[k + |sep|..];
      SplitJoin(rest, sep);
      SplitCons(s, sep, k);
      JoinCons(s[..k], Split(rest, sep), sep);
      assert s == s[..k] + s[k..k + |sep|] + rest;
  }

  /** Where `sep` first occurs at `k`, the split is the text before `k` followed by the split of the rest. */
  lemma SplitCons(s: string, sep: string, k: nat)
    requires |sep| > 0 && FindFrom(s, sep, 0) == Some(k)
    ensures Split(s, sep) == [s[..k]] + Split(s[k + |sep|..], sep)
  {
  }

  lemma JoinCons(p: string, parts: seq<string>, sep: string)
    requires |parts| >= 1
    ensures Join([p] + parts, sep) == p + sep + Join(parts, sep)
  {
    assert ([p] + parts)[1..] == parts;
  }

  /** No piece of a split contains the separator. */
  lemma {:induction false} SplitPiecesFree(s: string, sep: string)
    requires |sep| > 0
    ensures forall t :: 0 <= t < |Split(s, sep)| ==> Free(Split(s, sep)[t], sep)
    decreases |s|
  {
    match FindFrom(s, sep, 0)
    case None =>
    case Some(k) =>
      var rest := s[k + |sep|..];
      SplitPiecesFree(rest, sep);
      forall i | OccursAt(s[..k], i, sep)
        ensures false
      {
        assert s[..k][i..i + |sep|] == s[i..i + |sep|];
        assert OccursAt(s, i, sep);
      }
      assert Split(s, sep) == [s[..k]] + Split(rest, sep);
  }

  /** A text in which the separator does not occur splits into itself alone. */
  lemma SplitFree(s: string, sep: string)
    requires |sep| > 0 && Free(s, sep)
    ensures Split(s, sep) == [s]
  {
    match FindFrom(s, sep, 0)
    case None =>
    case Some(k) =>
      assert false;
  }

  /** Occurrences counted from a later index are never more. */
  lemma {:induction false} CountFromMonotone(s: string, sep: string, a: nat, b: nat)
    requires a <= b
    ensures CountFrom(s, sep, b) <= CountFrom(s, sep, a)
    decreases b - a
  {
    if a < b && a + |sep| <= |s| {
      CountFromMonotone(s, sep, a + 1, b);
    }
  }

  /** Counting in a suffix is counting in the whole text from the suffix's start. */
  lemma {:induction false} CountFromSuffix(s: string, sep: string, d: nat, from: nat)
    requires d <= from && d <= |s|
    ensures CountFrom(s[d..], sep, from - d) == CountFrom(s, sep, from)
    decreases |s| - from
  {
    if from + |sep| <= |s| {
      assert s[d..][from - d..from - d + |sep|] == s[from..from + |sep|];
      CountFromSuffix(s, sep, d, from + 1);
    }
  }

  /** A split yields at most one more piece than there are occurrences of the separator. */
  lemma {:induction false} SplitLength(s: string, sep: string)
    requires |sep| > 0
    ensures |Split(s, sep)| <= Occurrences(s, sep) + 1
    decreases |s|
  {
    match FindFrom(s, sep, 0)
    case None =>
    case Some(k) =>
      var rest := s[k + |sep|..];
      SplitLength(rest, sep);
      SplitCons(s, sep, k);
      OccurrencesAfter(s, sep, k);
  }

  /** An occurrence at `k` counts once more than the occurrences after it. */
  lemma OccurrencesAfter(s: string, sep: string, k: nat)
    requires |sep| > 0 && OccursAt(s, k, sep)
    ensures Occurrences(s[k + |sep|..], sep) + 1 <= Occurrences(s, sep)
  {
    CountFromSuffix(s, sep, k + |sep|, k + |sep|);
    CountFromMonotone(s, sep, k + 1, k + |sep|);
    CountFromMonotone(s, sep, 0, k);
    assert CountFrom(s, sep, k) == 1 + CountFrom(s, sep, k + 1);
  }

  /**
   * The last piece of a split is the text after the last separator: a suffix
   * of `s`, free of `sep`, which is all of `s` when `sep` does not occur and
   * otherwise directly follows an occurrence of `sep`.
   */
  lemma LastPiece(s: string, sep: string)
    requires |sep| > 0
    ensures var t := Last(Split(s, sep));
      |t| <= |s| && t == s[|s| - |t|..] && Free(t, sep) &&
      (Free(s, sep) ==> t == s) &&
      (!Free(s, sep) ==> |t| + |sep| <= |s| && OccursAt(s, |s| - |t| - |sep|, sep))
  {
    var t := Last(Split(s, sep));
    LastPieceShape(s, sep);
    SplitPiecesFree(s, sep);
    assert Free(t, sep);
    if |t| == |s| {
      assert t == s;
    }
    if Free(s, sep) {
      SplitFree(s, sep);
    }
  }

  /**
   * `t` is a suffix of `s` that is either all of `s` or directly follows an
   * occurrence of `sep`.
   */
  predicate SuffixAfterSep(s: string, t: string, sep: string)
  {
    |t| <= |s| && t == s[|s| - |t|..] &&
    (|t| == |s| || (|t| + |sep| <= |s| && OccursAt(s, |s| - |t| - |sep|, sep)))
  }

  /** The shape part of LastPiece, by induction on the split. */
  lemma {:induction false} LastPieceShape(s: string, sep: string)
    requires |sep| > 0
    ensures SuffixAfterSep(s, Last(Split(s, sep)), sep)
    decreases |s|
  {
    match FindFrom(s, sep, 0)
    case None =>
      assert Split(s, sep) == [s];
      assert s[|s| - |s|..] == s;
    case Some(k) =>
      var rest := s[k + |sep|..];
      LastPieceShape(rest, sep);
      LastPieceCons(s, sep, k);
      LastPieceStep(s, sep, k, Last(Split(rest, sep)));
  }

  /** The last piece of `s` is the last piece of what follows its first separator. */
  lemma LastPieceCons(s: string, sep: string, k: nat)
    requires |sep| > 0 && FindFrom(s, sep, 0) == Some(k)
    ensures Last(Split(s, sep)) == Last(Split(s[k + |sep|..], sep))
  {
    var ps := Split(s[k + |sep|..], sep);
    assert Split(s, sep) == [s[..k]] + ps;
    LastOfCons(s[..k], ps);
  }

  /**
   * One step of LastPiece: a suffix `t` of the text after an occurrence of
   * `sep` at `k` that directly follows an occurrence of `sep` (or is that
   * whole text) is a suffix of `s` that directly follows an occurrence.
   */
  lemma LastPieceStep(s: string, sep: string, k: nat, t: string)
    requires OccursAt(s, k, sep) && SuffixAfterSep(s[k + |sep|..], t, sep)
    ensures SuffixAfterSep(s, t, sep)
  {
    var rest := s[k + |sep|..];
    assert rest[|rest| - |t|..] == s[|s| - |t|..];
    var p := |s| - |t| - |sep|;
    if |t| == |rest| {
      assert p == k;
    } else {
      var j := |rest| - |t| - |sep|;
      assert p == k + |sep| + j;
      assert rest[j..j + |sep|] == s[p..p + |sep|];
    }
  }

  /** Unicode `White_Space`, the set `char::is_whitespace` and `str::trim` use. */
  predicate IsWhitespace(c: char)
  {
    c == '\t' || c == '\n' || c == '\U{000B}' || c == '\U{000C}' || c == '\r' || c == ' ' ||
    c == '\U{0085}' || c == '\U{00A0}' || c == '\U{1680}' || ('\U{2000}' <= c <= '\U{200A}') ||
    c == '\U{2028}' || c == '\U{2029}' || c == '\U{202F}' || c == '\U{205F}' || c == '\U{3000}'
  }

  /** An ASCII decimal digit. */
  predicate IsDigit(c: char)
  {
    '0' <= c <= '9'
  }

  predicate AllDigits(s: string)
  {
    forall i :: 0 <= i < |s| ==> IsDigit(s[i])
  }

  /** `s` with its leading whitespace removed. */
  function TrimStart(s: string): (r: string)
    ensures |r| <= |s| && r == s[|s| - |r|..]
    ensures forall i :: 0 <= i < |s| - |r| ==> IsWhitespace(s[i])
    ensures r == [] || !IsWhitespace(r[0])
  {
    if |s| > 0 && IsWhitespace(s[0]) then TrimStart(s[1..]) else s
  }

  /** `s` with its trailing whitespace removed. */
  function TrimEnd(s: string): (r: string)
    ensures |r| <= |s| && r == s[..|r|]
    ensures forall i :: |r| <= i < |s| ==> IsWhitespace(s[i])
    ensures r == [] || !IsWhitespace(r[|r| - 1])
  {
    if |s| > 0 && IsWhitespace(s[|s| - 1]) then TrimEnd(s[..|s| - 1]) else s
  }

  /** `str::trim`: leading and trailing whitespace removed. */
  function Trim(s: string): (r: string)
    ensures |r| <= |s|
    ensures r == [] || (!IsWhitespace(r[0]) && !IsWhitespace(r[|r| - 1]))
  {
    TrimEnd(TrimStart(s))
  }
}
