/**
 * The two regular expressions of the head-to-head scraper (src/lib.rs:14-16),
 * written as scanners over `seq<char>` with the regex engine's
 * leftmost-first, greedy semantics:
 *
 *   player:   title='([^']+)'
 *   win/loss: \t(\d+) - (\d+)[\t\n]     (\d taken as ASCII 0-9)
 *
 * Each scanner is paired with a declarative predicate saying what a match
 * at a given position is, and its contract ties the two together.
 */
module Patterns {
  import opened Wrappers
  import opened Text

  const TITLE_OPEN: string := "title='"
  const DASH: string := " - "

  // ---------------------------------------------------------------------
  // title='([^']+)'
  // ---------------------------------------------------------------------

  /**
   * The player pattern matches `s[i..j + 1]`: `title='` at `i`, then one or
   * more non-quote characters, then the quote at `j`. The capture is
   * `s[i + 7..j]`.
   */
  predicate NameMatchAt(s: string, i: int, j: int)
  {
    OccursAt(s, i, TITLE_OPEN) && i + |TITLE_OPEN| < j < |s| && s[j] == '\'' &&
    forall k :: i + |TITLE_OPEN| <= k < j ==> s[k] != '\''
  }

  /** The first quote at index `p` or later. */
  function QuoteFrom(s: string, p: nat): (r: Option<nat>)
    ensures r.Some? ==> p <= r.value < |s| && s[r.value] == '\''
    ensures forall k :: p <= k < |s| && (r.None? || k < r.value) ==> s[k] != '\''
    decreases |s| - p
  {
    if p >= |s| then None
    else if s[p] == '\'' then Some(p)
    else QuoteFrom(s, p + 1)
  }

  /**
   * The player pattern tried at index `i` only: the index of its closing
   * quote when it matches there. The greedy `[^']+` runs up to the first
   * quote, so the match fails at `i` when that quote comes straight after
   * `title='` or there is none.
   */
  function NameAt(s: string, i: nat): (r: Option<nat>)
    ensures r.Some? ==> NameMatchAt(s, i, r.value)
    ensures r.None? ==> forall j :: !NameMatchAt(s, i, j)
  {
    if !OccursAt(s, i, TITLE_OPEN) then None
    else
      match QuoteFrom(s, i + |TITLE_OPEN|)
      case None => None
      case Some(j) => if j > i + |TITLE_OPEN| then Some(j) else None
  }

  /**
   * `Regex::captures` for the player pattern, searching from `from`: the
   * leftmost position where it matches, with its closing quote.
   */
  function FindName(s: string, from: nat): (r: Option<(nat, nat)>)
    ensures r.Some? ==> from <= r.value.0 && NameMatchAt(s, r.value.0, r.value.1)
    ensures forall i, j :: from <= i && (r.None? || i < r.value.0) ==> !NameMatchAt(s, i, j)
    decreases |s| - from
  {
    if from >= |s| then None
    else
      match NameAt(s, from)
      case Some(j) => Some((from, j))
      case None => FindName(s, from + 1)
  }

  /** Capture group 1 of the leftmost player match, if there is one. */
  function PlayerName(s: string): (r: Option<string>)
    ensures r.Some? ==> |r.value| > 0 && forall k :: 0 <= k < |r.value| ==> r.value[k] != '\''
  {
    match FindName(s, 0)
    case None => None
    case Some((i, j)) => Some(s[i + |TITLE_OPEN|..j])
  }

  /** A player match is determined by where it starts. */
  lemma NameMatchUnique(s: string, i: int, j1: int, j2: int)
    requires NameMatchAt(s, i, j1) && NameMatchAt(s, i, j2)
    ensures j1 == j2
  {
  }

  /**
   * The captured name is that of the leftmost player match: for a match at
   * `(i, j)` with none starting earlier, `PlayerName` is `s[i + 7..j]`; and
   * there is no name exactly when the pattern matches nowhere.
   */
  lemma PlayerNameLeftmost(s: string, i: int, j: int)
    requires NameMatchAt(s, i, j)
    requires forall i', j' :: 0 <= i' < i ==> !NameMatchAt(s, i', j')
    ensures PlayerName(s) == Some(s[i + |TITLE_OPEN|..j])
  {
    match FindName(s, 0)
    case None =>
    case Some((i', j')) =>
      assert i' == i;
      NameMatchUnique(s, i, j, j');
  }

  /** There is no name exactly when the player pattern matches nowhere. */
  lemma PlayerNameNone(s: string)
    ensures PlayerName(s).None? <==> forall i, j :: !NameMatchAt(s, i, j)
  {
    match FindName(s, 0)
    case None =>
      forall i, j ensures !NameMatchAt(s, i, j) {
        if i < 0 {
          assert !OccursAt(s, i, TITLE_OPEN);
        }
      }
    case Some((i, j)) =>
  }

  /** An earlier `title=''` with nothing between the quotes is passed over. */
  lemma EmptyTitleSkipped()
    ensures PlayerName("title=''title='Bob'") == Some("Bob")
  {
    var s := "title=''title='Bob'";
    assert s[8..15] == TITLE_OPEN;
    assert QuoteFrom(s, 18) == Some(18);
    assert QuoteFrom(s, 15) == Some(18);
    assert NameAt(s, 8) == Some(18);
    assert FindName(s, 8) == Some((8, 18));
    NoNameAt(s, 7, 0);
    NoNameAt(s, 6, 0);
    NoNameAt(s, 5, 0);
    NoNameAt(s, 4, 0);
    NoNameAt(s, 3, 0);
    NoNameAt(s, 2, 1);
    NoNameAt(s, 1, 0);
    assert s[0..7] == TITLE_OPEN;
    assert QuoteFrom(s, 7) == Some(7);
    assert NameAt(s, 0) == None;
    assert FindName(s, 0) == Some((8, 18));
    assert s[15..18] == "Bob";
  }

  /**
   * No player match can start at `i` when the character at `i + k` differs
   * from the `k`-th character of `title='`; the search moves on.
   */
  lemma NoNameAt(s: string, i: nat, k: nat)
    requires k < |TITLE_OPEN| && i + |TITLE_OPEN| <= |s| && s[i + k] != TITLE_OPEN[k]
    ensures FindName(s, i) == FindName(s, i + 1)
  {
    assert s[i..i + |TITLE_OPEN|][k] == s[i + k];
    assert NameAt(s, i) == None;
  }

  // ---------------------------------------------------------------------
  // \t(\d+) - (\d+)[\t\n]
  // ---------------------------------------------------------------------

  /**
   * A win/loss match: the tab at `start`, the ` - ` at `dash`, and `end` one
   * past the closing tab or newline.
   */
  datatype RecordMatch = RecordMatch(start: nat, dash: nat, end: nat)

  /**
   * The win/loss pattern matches `s[m.start..m.end]`: a tab, one or more
   * digits, ` - `, one or more digits, and a tab or newline.
   */
  predicate RecordMatchAt(s: string, m: RecordMatch)
  {
    m.start + 1 < m.dash && m.dash + |DASH| < m.end - 1 && m.end <= |s| &&
    s[m.start] == '\t' && AllDigits(s[m.start + 1..m.dash]) &&
    OccursAt(s, m.dash, DASH) && AllDigits(s[m.dash + |DASH|..m.end - 1]) &&
    (s[m.end - 1] == '\t' || s[m.end - 1] == '\n')
  }

  /** Capture group 1: the wins digits. */
  function WinsDigits(s: string, m: RecordMatch): string
    requires RecordMatchAt(s, m)
  {
    s[m.start + 1..m.dash]
  }

  /** Capture group 2: the losses digits. */
  function LossesDigits(s: string, m: RecordMatch): string
    requires RecordMatchAt(s, m)
  {
    s[m.dash + |DASH|..m.end - 1]
  }

  /** The end of the run of ASCII digits that starts at `p`. */
  function DigitsEnd(s: string, p: nat): (q: nat)
    requires p <= |s|
    ensures p <= q <= |s| && AllDigits(s[p..q]) && (q == |s| || !IsDigit(s[q]))
    decreases |s| - p
  {
    if p < |s| && IsDigit(s[p]) then
      var q := DigitsEnd(s, p + 1);
      assert s[p..q] == [s[p]] + s[p + 1..q];
      q
    else p
  }

  /** A digit run that stops before a non-digit ends where `DigitsEnd` says. */
  lemma {:induction false} DigitsEndAt(s: string, p: nat, q: nat)
    requires p <= q < |s| && AllDigits(s[p..q]) && !IsDigit(s[q])
    ensures DigitsEnd(s, p) == q
    decreases q - p
  {
    if p < q {
      assert IsDigit(s[p..q][0]);
      assert s[p + 1..q] == s[p..q][1..];
      DigitsEndAt(s, p + 1, q);
    }
  }

  /**
   * In a win/loss match the two digit groups are whole digit runs: each ends
   * where `DigitsEnd` says.
   */
  lemma RecordShape(s: string, m: RecordMatch)
    requires RecordMatchAt(s, m)
    ensures m.dash == DigitsEnd(s, m.start + 1) && m.end - 1 == DigitsEnd(s, m.dash + |DASH|)
  {
    assert s[m.dash..m.dash + |DASH|][0] == s[m.dash];
    DigitsEndAt(s, m.start + 1, m.dash);
    DigitsEndAt(s, m.dash + |DASH|, m.end - 1);
  }

  /**
   * The win/loss pattern tried at index `i` only. The greedy `\d+` groups
   * take whole digit runs, so the match there, if any, is unique.
   */
  function RecordAt(s: string, i: nat): (r: Option<RecordMatch>)
    ensures r.Some? ==> r.value.start == i && RecordMatchAt(s, r.value)
    ensures r.None? ==> forall m: RecordMatch {:trigger RecordMatchAt(s, m)} :: m.start == i ==> !RecordMatchAt(s, m)
  {
    if i >= |s| || s[i] != '\t' then None
    else
      var dash := DigitsEnd(s, i + 1);
      if dash == i + 1 || !OccursAt(s, dash, DASH) then
        NoRecordAt(s, i);
        None
      else
        var last := DigitsEnd(s, dash + |DASH|);
        if last == dash + |DASH| || last >= |s| || (s[last] != '\t' && s[last] != '\n') then
          NoRecordAt(s, i);
          None
        else Some(RecordMatch(i, dash, last + 1))
  }

  /**
   * When the digit runs after the tab at `i` do not have the shape of a
   * record, no win/loss match starts at `i`.
   */
  lemma NoRecordAt(s: string, i: nat)
    requires i < |s|
    requires var dash := DigitsEnd(s, i + 1);
      dash == i + 1 || !OccursAt(s, dash, DASH) ||
      (var last := DigitsEnd(s, dash + |DASH|);
       last == dash + |DASH| || last >= |s| || (s[last] != '\t' && s[last] != '\n'))
    ensures forall m: RecordMatch {:trigger RecordMatchAt(s, m)} :: m.start == i ==> !RecordMatchAt(s, m)
  {
    forall m: RecordMatch | m.start == i
      ensures !RecordMatchAt(s, m)
    {
      if RecordMatchAt(s, m) {
        RecordShape(s, m);
      }
    }
  }

  /** A win/loss match is determined by where it starts. */
  lemma RecordMatchUnique(s: string, m1: RecordMatch, m2: RecordMatch)
    requires RecordMatchAt(s, m1) && RecordMatchAt(s, m2) && m1.start == m2.start
    ensures m1 == m2
  {
    RecordShape(s, m1);
    RecordShape(s, m2);
  }

  /** `Regex::find` for the win/loss pattern from `from`: its leftmost match there or later. */
  function NextRecord(s: string, from: nat): (r: Option<RecordMatch>)
    ensures r.Some? ==> from <= r.value.start && RecordMatchAt(s, r.value)
    ensures forall m: RecordMatch {:trigger RecordMatchAt(s, m)} :: from <= m.start && (r.None? || m.start < r.value.start) ==> !RecordMatchAt(s, m)
    decreases |s| - from
  {
    if from >= |s| then None
    else
      match RecordAt(s, from)
      case Some(m) => Some(m)
      case None => NextRecord(s, from + 1)
  }

  /**
   * `Regex::captures_iter` for the win/loss pattern from `from`: the
   * leftmost match, then the matches from where it ended, and so on.
   */
  function RecordMatches(s: string, from: nat): (ms: seq<RecordMatch>)
    ensures forall t :: 0 <= t < |ms| ==> from <= ms[t].start && RecordMatchAt(s, ms[t])
    decreases |s| - from
  {
    match NextRecord(s, from)
    case None => []
    case Some(m) => [m] + RecordMatches(s, m.end)
  }

  /**
   * `ms` are matches of the win/loss pattern in `s`, each starting at `from`
   * or later, in order of position and without overlap.
   */
  predicate MatchesInOrder(s: string, ms: seq<RecordMatch>, from: nat)
  {
    (forall t :: 0 <= t < |ms| ==> RecordMatchAt(s, ms[t]) && from <= ms[t].start) &&
    (forall t, u :: 0 <= t < u < |ms| ==> ms[t].end <= ms[u].start)
  }

  lemma MatchesInOrderCons(s: string, m: RecordMatch, ms: seq<RecordMatch>, from: nat)
    requires RecordMatchAt(s, m) && from <= m.start && MatchesInOrder(s, ms, m.end)
    ensures MatchesInOrder(s, [m] + ms, from)
  {
    var all := [m] + ms;
    forall t | 0 < t < |all|
      ensures all[t] == ms[t - 1]
    {
    }
  }

  /**
   * `RecordMatches` lists matches of the win/loss pattern, starting at `from`
   * or later, in order of position and without overlap.
   */
  lemma {:induction false} RecordMatchesOrdered(s: string, from: nat)
    ensures MatchesInOrder(s, RecordMatches(s, from), from)
    decreases |s| - from
  {
    match NextRecord(s, from)
    case None =>
    case Some(m0) =>
      var rest := RecordMatches(s, m0.end);
      RecordMatchesOrdered(s, m0.end);
      assert RecordMatches(s, from) == [m0] + rest;
      MatchesInOrderCons(s, m0, rest, from);
  }

  /**
   * No match is skipped: every match of the win/loss pattern starting at
   * `from` or later is listed by `RecordMatches` or starts inside a listed one.
   */
  lemma {:induction false} RecordMatchesCover(s: string, from: nat, m: RecordMatch)
    requires from <= m.start && RecordMatchAt(s, m)
    ensures var ms := RecordMatches(s, from);
      exists t :: 0 <= t < |ms| && ms[t].start <= m.start < ms[t].end
    decreases |s| - from
  {
    match NextRecord(s, from)
    case None =>
    case Some(m0) =>
      var rest := RecordMatches(s, m0.end);
      var ms := [m0] + rest;
      assert RecordMatches(s, from) == ms;
      if m.start < m0.end {
        assert ms[0].start <= m.start < ms[0].end;
      } else {
        RecordMatchesCover(s, m0.end, m);
        var t :| 0 <= t < |rest| && rest[t].start <= m.start < rest[t].end;
        assert ms[t + 1] == rest[t];
      }
  }

  /**
   * Matches do not overlap: in "\t1 - 2\t3 - 4\n" the tab that closes the
   * first record cannot also open a second, so only one record is found.
   */
  lemma SharedTabNotReused()
    ensures RecordMatches("\t1 - 2\t3 - 4\n", 0) == [RecordMatch(0, 2, 7)]
  {
    var s := "\t1 - 2\t3 - 4\n";
    assert DigitsEnd(s, 2) == 2;
    assert DigitsEnd(s, 1) == 2;
    assert s[2..5] == DASH;
    assert DigitsEnd(s, 6) == 6;
    assert DigitsEnd(s, 5) == 6;
    assert RecordAt(s, 0) == Some(RecordMatch(0, 2, 7));
    assert NextRecord(s, 0) == Some(RecordMatch(0, 2, 7));
    assert NextRecord(s, 13) == None;
    NoTabAt(s, 12);
    NoTabAt(s, 11);
    NoTabAt(s, 10);
    NoTabAt(s, 9);
    NoTabAt(s, 8);
    NoTabAt(s, 7);
    assert RecordMatches(s, 7) == [];
  }

  /** No win/loss match can start where there is no tab; the search moves on. */
  lemma NoTabAt(s: string, i: nat)
    requires i < |s| && s[i] != '\t'
    ensures NextRecord(s, i) == NextRecord(s, i + 1)
  {
    assert RecordAt(s, i) == None;
  }
}
