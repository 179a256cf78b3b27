/**
 * The head-to-head scraper of src/lib.rs. One HTML chunk (the markup of one
 * player's row) becomes the player's name and the ordered list of
 * (wins, losses) records on that row; a whole response is cut into chunks
 * after its last `<tbody>`, and the chunks that parse are kept in order.
 */
module HeadToHead {
  import opened Wrappers
  import opened Text
  import opened ParseInt
  import opened Patterns

  /** `PlayerH2H`: a player and their records, one per opponent column, in column order. */
  datatype PlayerH2H = PlayerH2H(playerName: string, orderedHeadToHeads: seq<(uint16, uint16)>)

  /** Why `from_html_chunk` gives no player. */
  datatype ChunkError =
    | NoPlayerName                     // the player pattern matches nowhere in the chunk
    | BadRecord(cause: ParseIntError)  // a side of a win/loss record is not a u16

  const TBODY: string := "<tbody>"
  const ANCHOR: string := "<a href="

  // ---------------------------------------------------------------------
  // One win/loss record
  // ---------------------------------------------------------------------

  /**
   * Splitting a record's matched text on " - " gives exactly two parts, and
   * trimming them gives the two digit groups, so the indexing `[0]` and `[1]`
   * is always in bounds.
   */
  lemma RecordTextParts(s: string, m: RecordMatch)
    requires RecordMatchAt(s, m)
    ensures var parts := Split(s[m.start..m.end], DASH);
      |parts| == 2 && Trim(parts[0]) == WinsDigits(s, m) && Trim(parts[1]) == LossesDigits(s, m)
  {
    var wins, losses, close := WinsDigits(s, m), LossesDigits(s, m), s[m.end - 1];
    RecordText(s, m);
    SplitRecordText(wins, losses, close);
    TrimRecordSides(wins, losses, close);
  }

  /** A record's matched text is a tab, the wins, " - ", the losses and the closing character. */
  lemma RecordText(s: string, m: RecordMatch)
    requires RecordMatchAt(s, m)
    ensures s[m.start..m.end] == ['\t'] + WinsDigits(s, m) + DASH + LossesDigits(s, m) + [s[m.end - 1]]
  {
    var b, c, d, e := m.start + 1, m.dash, m.dash + |DASH|, m.end - 1;
    assert s[m.start..b] == ['\t'];
    assert s[c..d] == DASH;
    assert s[e..m.end] == [s[e]];
    SliceFive(s, m.start, b, c, d, e, m.end);
  }

  /** Cutting a slice at four inner points and gluing the pieces back gives the slice. */
  lemma SliceFive(s: string, a: nat, b: nat, c: nat, d: nat, e: nat, f: nat)
    requires a <= b <= c <= d <= e <= f <= |s|
    ensures s[a..f] == s[a..b] + s[b..c] + s[c..d] + s[d..e] + s[e..f]
  {
    assert s[a..f] == s[a..b] + s[b..f];
    assert s[b..f] == s[b..c] + s[c..f];
    assert s[c..f] == s[c..d] + s[d..f];
    assert s[d..f] == s[d..e] + s[e..f];
  }

  /** No space character in `s`, so no " - " can start inside it. */
  predicate NoSpace(s: string)
  {
    forall i :: 0 <= i < |s| ==> s[i] != ' '
  }

  /** The text of a record splits at its " - " into the two sides. */
  lemma SplitRecordText(wins: string, losses: string, close: char)
    requires |wins| > 0 && AllDigits(wins) && AllDigits(losses) && (close == '\t' || close == '\n')
    ensures Split(['\t'] + wins + DASH + losses + [close], DASH) == [['\t'] + wins, losses + [close]]
  {
    var head, rest := ['\t'] + wins, losses + [close];
    assert NoSpace(head) by {
      forall i | 0 < i < |head|
        ensures head[i] != ' '
      {
        assert head[i] == wins[i - 1];
      }
    }
    assert NoSpace(rest) by {
      forall i | 0 <= i < |losses|
        ensures rest[i] != ' '
      {
        assert rest[i] == losses[i];
      }
    }
    assert ['\t'] + wins + DASH + losses + [close] == head + DASH + rest;
    SplitAtFirstDash(head, rest);
    NoSpaceFree(rest);
    SplitFree(rest, DASH);
  }

  /** When `head` has no space, the first " - " of `head + " - " + rest` is the one after `head`. */
  lemma SplitAtFirstDash(head: string, rest: string)
    requires NoSpace(head)
    ensures Split(head + DASH + rest, DASH) == [head] + Split(rest, DASH)
  {
    var text := head + DASH + rest;
    var d := |head|;
    assert text[d..d + |DASH|] == DASH;
    assert OccursAt(text, d, DASH);
    forall i | 0 <= i < d
      ensures !OccursAt(text, i, DASH)
    {
      assert text[i] == head[i];
      if i + |DASH| <= |text| {
        assert text[i..i + |DASH|][0] == text[i];
      }
    }
    assert FindFrom(text, DASH, 0) == Some(d);
    assert text[..d] == head;
    assert text[d + |DASH|..] == rest;
  }

  /** A text without spaces contains no " - ". */
  lemma NoSpaceFree(s: string)
    requires NoSpace(s)
    ensures Free(s, DASH)
  {
    forall i | 0 <= i <= |s|
      ensures !OccursAt(s, i, DASH)
    {
      if i + |DASH| <= |s| {
        assert s[i..i + |DASH|][0] == s[i];
      }
    }
  }

  /** Trimming the two sides of a record leaves exactly the digits. */
  lemma TrimRecordSides(wins: string, losses: string, close: char)
    requires |wins| > 0 && AllDigits(wins) && |losses| > 0 && AllDigits(losses) && (close == '\t' || close == '\n')
    ensures Trim(['\t'] + wins) == wins && Trim(losses + [close]) == losses
  {
    TrimLeadingTab(wins);
    TrimTrailingClose(losses, close);
  }

  lemma TrimLeadingTab(ds: string)
    requires |ds| > 0 && AllDigits(ds)
    ensures Trim(['\t'] + ds) == ds
  {
    assert (['\t'] + ds)[1..] == ds;
    assert TrimStart(['\t'] + ds) == TrimStart(ds);
    DigitsUntrimmed(ds);
  }

  lemma TrimTrailingClose(ds: string, close: char)
    requires |ds| > 0 && AllDigits(ds) && (close == '\t' || close == '\n')
    ensures Trim(ds + [close]) == ds
  {
    var side := ds + [close];
    assert side[..|side| - 1] == ds;
    assert side[0] == ds[0];
    assert TrimStart(side) == side;
    assert TrimEnd(side) == TrimEnd(ds);
    DigitsUntrimmed(ds);
  }

  /** A non-empty digit string has no whitespace to trim at either end. */
  lemma DigitsUntrimmed(ds: string)
    requires |ds| > 0 && AllDigits(ds)
    ensures TrimStart(ds) == ds && TrimEnd(ds) == ds
  {
    assert !IsWhitespace(ds[0]) && !IsWhitespace(ds[|ds| - 1]);
  }

  /**
   * One iteration of the record loop: split the matched text on " - ", trim
   * both sides and parse each as a u16, wins first.
   */
  function ParseRecord(s: string, m: RecordMatch): (r: Result<(uint16, uint16), ParseIntError>)
    requires RecordMatchAt(s, m)
    ensures r.Err? ==> r.error == PosOverflow
  {
    RecordSidesOverflow(s, m);
    var parts := Split(s[m.start..m.end], DASH);
    match ParseU16(Trim(parts[0]))
    case Err(e) => Err(e)
    case Ok(wins) =>
      match ParseU16(Trim(parts[1]))
      case Err(e) => Err(e)
      case Ok(losses) => Ok((wins, losses))
  }

  /** Either side of a matched record can fail to parse only by overflowing. */
  lemma RecordSidesOverflow(s: string, m: RecordMatch)
    requires RecordMatchAt(s, m)
    ensures var parts := Split(s[m.start..m.end], DASH);
      |parts| == 2 &&
      (ParseU16(Trim(parts[0])).Err? ==> ParseU16(Trim(parts[0])).error == PosOverflow) &&
      (ParseU16(Trim(parts[1])).Err? ==> ParseU16(Trim(parts[1])).error == PosOverflow)
  {
    RecordTextParts(s, m);
    ParseDigits(WinsDigits(s, m));
    ParseDigits(LossesDigits(s, m));
  }

  /** Both digit groups of a record fit in 16 bits. */
  predicate InRange(s: string, m: RecordMatch)
    requires RecordMatchAt(s, m)
  {
    DecimalValue(WinsDigits(s, m)) < U16_LIMIT && DecimalValue(LossesDigits(s, m)) < U16_LIMIT
  }

  /**
   * A record parses to the decimal values of its two digit groups when both
   * fit in 16 bits, and otherwise fails with `PosOverflow`: it is never
   * truncated.
   */
  lemma ParseRecordValue(s: string, m: RecordMatch)
    requires RecordMatchAt(s, m)
    ensures ParseRecord(s, m).Ok? <==> InRange(s, m)
    ensures ParseRecord(s, m).Ok? ==>
      ParseRecord(s, m).value.0 as int == DecimalValue(WinsDigits(s, m)) &&
      ParseRecord(s, m).value.1 as int == DecimalValue(LossesDigits(s, m))
    ensures ParseRecord(s, m).Err? ==> ParseRecord(s, m).error == PosOverflow
  {
    RecordTextParts(s, m);
    ParseDigits(WinsDigits(s, m));
    ParseDigits(LossesDigits(s, m));
  }

  // ---------------------------------------------------------------------
  // One chunk
  // ---------------------------------------------------------------------

  /**
   * The record loop from `from` on: each successive win/loss match parsed in
   * turn, the first failure ending the loop.
   */
  function ParseRecordsFrom(s: string, from: nat): (r: Result<seq<(uint16, uint16)>, ParseIntError>)
    ensures r.Err? ==> r.error == PosOverflow
    ensures r.Ok? ==> |r.value| == |RecordMatches(s, from)|
    decreases |s| - from
  {
    match NextRecord(s, from)
    case None => Ok([])
    case Some(m) =>
      match ParseRecord(s, m)
      case Err(e) => Err(e)
      case Ok(record) =>
        match ParseRecordsFrom(s, m.end)
        case Err(e) => Err(e)
        case Ok(records) => Ok([record] + records)
  }

  /** `r` with `done` put in front of its records. */
  function Prefixed(done: seq<(uint16, uint16)>, r: Result<seq<(uint16, uint16)>, ParseIntError>): Result<seq<(uint16, uint16)>, ParseIntError>
  {
    match r
    case Err(e) => Err(e)
    case Ok(records) => Ok(done + records)
  }

  /** `PlayerH2H::from_html_chunk`, as a function of the chunk. */
  function ParseChunk(chunk: string): (r: Result<PlayerH2H, ChunkError>)
    ensures r == Err(NoPlayerName) <==> PlayerName(chunk).None?
    ensures r.Err? ==> r == Err(NoPlayerName) || r == Err(BadRecord(PosOverflow))
    ensures r.Ok? ==> Some(r.value.playerName) == PlayerName(chunk)
    ensures r.Ok? ==> |r.value.orderedHeadToHeads| == |RecordMatches(chunk, 0)|
  {
    match PlayerName(chunk)
    case None => Err(NoPlayerName)
    case Some(name) =>
      match ParseRecordsFrom(chunk, 0)
      case Err(e) => Err(BadRecord(e))
      case Ok(records) => Ok(PlayerH2H(name, records))
  }

  /**
   * `PlayerH2H::from_html_chunk`: find the name, then walk the win/loss
   * matches left to right, pushing each parsed record and giving up on the
   * first side that is not a u16.
   */
  method FromHtmlChunk(chunk: string) returns (r: Result<PlayerH2H, ChunkError>)
    ensures r == ParseChunk(chunk)
  {
    var name := PlayerName(chunk);
    if name.None? {
      return Err(NoPlayerName);
    }
    var orderedHeadToHeads: seq<(uint16, uint16)> := [];
    var pos := 0;
    var next := NextRecord(chunk, pos);
    PrefixedNothing(ParseRecordsFrom(chunk, 0));
    while next.Some?
      invariant next == NextRecord(chunk, pos)
      invariant ParseRecordsFrom(chunk, 0) == Prefixed(orderedHeadToHeads, ParseRecordsFrom(chunk, pos))
      decreases |chunk| - pos
    {
      var m := next.value;
      var record := ParseRecord(chunk, m);
      RecordLoopStep(chunk, pos, orderedHeadToHeads);
      if record.Err? {
        return Err(BadRecord(record.error));
      }
      orderedHeadToHeads := orderedHeadToHeads + [record.value];
      pos := m.end;
      next := NextRecord(chunk, pos);
    }
    RecordLoopEnd(chunk, pos, orderedHeadToHeads);
    return Ok(PlayerH2H(name.value, orderedHeadToHeads));
  }

  lemma PrefixedNothing(r: Result<seq<(uint16, uint16)>, ParseIntError>)
    ensures Prefixed([], r) == r
  {
    if r.Ok? {
      assert [] + r.value == r.value;
    }
  }

  /**
   * One turn of the record loop: with `done` already pushed, the outcome is
   * the error of the next record, or that record pushed as well and the loop
   * resumed after its match.
   */
  lemma RecordLoopStep(s: string, pos: nat, done: seq<(uint16, uint16)>)
    requires NextRecord(s, pos).Some?
    ensures var m := NextRecord(s, pos).value;
      Prefixed(done, ParseRecordsFrom(s, pos)) ==
        match ParseRecord(s, m)
        case Err(e) => Err(e)
        case Ok(record) => Prefixed(done + [record], ParseRecordsFrom(s, m.end))
  {
    var m := NextRecord(s, pos).value;
    var rest := ParseRecordsFrom(s, m.end);
    match ParseRecord(s, m)
    case Err(e) =>
      assert ParseRecordsFrom(s, pos) == Err(e);
    case Ok(record) =>
      assert ParseRecordsFrom(s, pos) == Prefixed([record], rest);
      PrefixedTwice(done, [record], rest);
  }

  lemma PrefixedTwice(done: seq<(uint16, uint16)>, more: seq<(uint16, uint16)>, r: Result<seq<(uint16, uint16)>, ParseIntError>)
    ensures Prefixed(done, Prefixed(more, r)) == Prefixed(done + more, r)
  {
    if r.Ok? {
      assert done + (more + r.value) == (done + more) + r.value;
    }
  }

  /** When no win/loss match is left, the loop ends with exactly the records pushed so far. */
  lemma RecordLoopEnd(s: string, pos: nat, done: seq<(uint16, uint16)>)
    requires NextRecord(s, pos).None?
    ensures Prefixed(done, ParseRecordsFrom(s, pos)) == Ok(done)
  {
    assert done + [] == done;
  }

  /** Every match in `ms` is a win/loss match with both groups in 16 bits. */
  predicate AllInRange(s: string, ms: seq<RecordMatch>)
  {
    forall t :: 0 <= t < |ms| ==> RecordMatchAt(s, ms[t]) && InRange(s, ms[t])
  }

  lemma AllInRangeCons(s: string, m: RecordMatch, rest: seq<RecordMatch>)
    ensures AllInRange(s, [m] + rest) <==> RecordMatchAt(s, m) && InRange(s, m) && AllInRange(s, rest)
  {
    var ms := [m] + rest;
    assert ms[0] == m;
    assert forall t :: 0 < t < |ms| ==> ms[t] == rest[t - 1];
    if RecordMatchAt(s, m) && InRange(s, m) && AllInRange(s, rest) {
      forall t | 0 <= t < |ms|
        ensures RecordMatchAt(s, ms[t]) && InRange(s, ms[t])
      {
        if t > 0 {
          assert ms[t] == rest[t - 1];
        }
      }
    }
    if AllInRange(s, ms) {
      forall t | 0 <= t < |rest|
        ensures RecordMatchAt(s, rest[t]) && InRange(s, rest[t])
      {
        assert rest[t] == ms[t + 1];
      }
    }
  }

  /**
   * The reference reading of a row: the decimal values of each win/loss match
   * in `ms`, wins first, one record per match and in the same order.
   */
  function RecordValues(s: string, ms: seq<RecordMatch>): (records: seq<(uint16, uint16)>)
    requires AllInRange(s, ms)
    ensures |records| == |ms|
  {
    if ms == [] then []
    else
      AllInRangeCons(s, ms[0], ms[1..]);
      assert ms == [ms[0]] + ms[1..];
      var m := ms[0];
      [(DecimalValue(WinsDigits(s, m)) as uint16, DecimalValue(LossesDigits(s, m)) as uint16)] + RecordValues(s, ms[1..])
  }

  /** `record` holds the decimal values of the win/loss match `m`, wins first. */
  predicate RecordOf(s: string, m: RecordMatch, record: (uint16, uint16))
  {
    RecordMatchAt(s, m) &&
    record.0 as int == DecimalValue(WinsDigits(s, m)) && record.1 as int == DecimalValue(LossesDigits(s, m))
  }

  /** The `t`-th reference record holds the values of the `t`-th match. */
  lemma {:induction false} RecordValuesAt(s: string, ms: seq<RecordMatch>, t: nat)
    requires AllInRange(s, ms) && t < |ms|
    ensures RecordOf(s, ms[t], RecordValues(s, ms)[t])
    decreases |ms|
  {
    AllInRangeCons(s, ms[0], ms[1..]);
    assert ms == [ms[0]] + ms[1..];
    if t > 0 {
      RecordValuesAt(s, ms[1..], t - 1);
      assert ms[t] == ms[1..][t - 1];
    }
  }

  /**
   * The record loop from `from` agrees with the reference reading: when every
   * win/loss match from there on is in range it yields their values in order,
   * and otherwise it fails with `PosOverflow`.
   */
  lemma {:induction false} ParseRecordsFromValues(s: string, from: nat)
    ensures var ms := RecordMatches(s, from);
      ParseRecordsFrom(s, from) == if AllInRange(s, ms) then Ok(RecordValues(s, ms)) else Err(PosOverflow)
    decreases |s| - from
  {
    match NextRecord(s, from)
    case None =>
      assert RecordMatches(s, from) == [];
    case Some(m) =>
      var rest := RecordMatches(s, m.end);
      var ms := [m] + rest;
      assert RecordMatches(s, from) == ms;
      ParseRecordValue(s, m);
      ParseRecordsFromValues(s, m.end);
      AllInRangeCons(s, m, rest);
      if AllInRange(s, ms) {
        assert ms[0] == m && ms[1..] == rest;
      }
  }

  /** The chunk yields no player because of the name exactly when the player pattern matches nowhere. */
  lemma ChunkWithoutName(chunk: string)
    ensures ParseChunk(chunk) == Err(NoPlayerName) <==> forall i, j :: !NameMatchAt(chunk, i, j)
  {
    PlayerNameNone(chunk);
  }

  /**
   * The player's name is the capture of the leftmost player match; an earlier
   * `title=''` does not count as a match.
   */
  lemma ChunkPlayerName(chunk: string, i: int, j: int)
    requires NameMatchAt(chunk, i, j)
    requires forall i', j' :: 0 <= i' < i ==> !NameMatchAt(chunk, i', j')
    ensures ParseChunk(chunk) != Err(NoPlayerName)
    ensures ParseChunk(chunk).Ok? ==> ParseChunk(chunk).value.playerName == chunk[i + |TITLE_OPEN|..j]
  {
    PlayerNameLeftmost(chunk, i, j);
  }

  /**
   * For a chunk with a name, parsing succeeds exactly when every win/loss
   * match is in range, and then yields the name with one record per match,
   * in order of appearance, holding its decimal values (none when there are
   * no matches); a single digit group above 65535 makes the whole chunk fail
   * with `PosOverflow`.
   */
  lemma ChunkRecords(chunk: string)
    requires PlayerName(chunk).Some?
    ensures var ms := RecordMatches(chunk, 0);
      ParseChunk(chunk) ==
        if AllInRange(chunk, ms) then Ok(PlayerH2H(PlayerName(chunk).value, RecordValues(chunk, ms)))
        else Err(BadRecord(PosOverflow))
  {
    ParseRecordsFromValues(chunk, 0);
  }

  /** A chunk with a name and no win/loss match succeeds with no records; it is not dropped. */
  lemma ChunkWithoutRecords(chunk: string)
    requires PlayerName(chunk).Some?
    requires forall m: RecordMatch {:trigger RecordMatchAt(chunk, m)} :: !RecordMatchAt(chunk, m)
    ensures ParseChunk(chunk) == Ok(PlayerH2H(PlayerName(chunk).value, []))
  {
    assert NextRecord(chunk, 0) == None;
  }

  // ---------------------------------------------------------------------
  // A whole response
  // ---------------------------------------------------------------------

  /** The text after the last `<tbody>`, or all of it when there is none. */
  function TableHtml(html: string): (t: string)
    ensures |t| <= |html| && t == html[|html| - |t|..] && Free(t, TBODY)
  {
    LastPiece(html, TBODY);
    Last(Split(html, TBODY))
  }

  /** The chunks parsed one by one (the `map` over `from_html_chunk`). */
  function ParseChunks(chunks: seq<string>): (rs: seq<Result<PlayerH2H, ChunkError>>)
    ensures |rs| == |chunks|
  {
    seq(|chunks|, i requires 0 <= i < |chunks| => ParseChunk(chunks[i]))
  }

  /** The `.ok()` / `filter_map` step: the successful values, in order, errors dropped. */
  function Oks<T, E>(rs: seq<Result<T, E>>): (kept: seq<T>)
    ensures |kept| <= |rs|
  {
    if rs == [] then []
    else (if rs[0].Ok? then [rs[0].value] else []) + Oks(rs[1..])
  }

  /** `read_html_response_to_player_h2h`. */
  function ReadHtmlResponse(html: string): (players: seq<PlayerH2H>)
    ensures |players| <= Occurrences(TableHtml(html), ANCHOR) + 1
  {
    SplitLength(TableHtml(html), ANCHOR);
    Oks(ParseChunks(Split(TableHtml(html), ANCHOR)))
  }

  /**
   * The section searched is the text after the last `<tbody>`: a suffix of
   * the response containing no `<tbody>`, right after one, or the whole
   * response when it has none (so `last()` always has a value).
   */
  lemma TableHtmlSpec(html: string)
    ensures var t := TableHtml(html);
      |t| <= |html| && t == html[|html| - |t|..] && Free(t, TBODY) &&
      (Free(html, TBODY) ==> t == html) &&
      (!Free(html, TBODY) ==> |t| + |TBODY| <= |html| && OccursAt(html, |html| - |t| - |TBODY|, TBODY))
  {
    LastPiece(html, TBODY);
  }

  /**
   * Keeping the successes is done element by element: over a concatenation
   * it is the concatenation of the results, so order is kept.
   */
  lemma {:induction false} OksAppend<T, E>(a: seq<Result<T, E>>, b: seq<Result<T, E>>)
    ensures Oks(a + b) == Oks(a) + Oks(b)
    decreases |a|
  {
    if a == [] {
      assert a + b == b;
    } else {
      assert (a + b)[0] == a[0];
      assert (a + b)[1..] == a[1..] + b;
      OksAppend(a[1..], b);
    }
  }

  /** A single result is kept exactly when it is a success. */
  lemma OksOne<T, E>(r: Result<T, E>)
    ensures Oks([r]) == if r.Ok? then [r.value] else []
  {
    assert [r][1..] == [];
  }

  /** Every kept value is the value of some success. */
  lemma {:induction false} OksSound<T, E>(rs: seq<Result<T, E>>, x: T)
    requires x in Oks(rs)
    ensures exists i :: 0 <= i < |rs| && rs[i] == Ok(x)
    decreases |rs|
  {
    if !(rs[0].Ok? && x == rs[0].value) {
      OksSound(rs[1..], x);
      var i :| 0 <= i < |rs[1..]| && rs[1..][i] == Ok(x);
      assert rs[i + 1] == rs[1..][i];
    }
  }

  /** Every success is kept, in its place among the others. */
  lemma OksComplete<T, E>(rs: seq<Result<T, E>>, i: nat)
    requires i < |rs| && rs[i].Ok?
    ensures Oks(rs) == Oks(rs[..i]) + [rs[i].value] + Oks(rs[i + 1..])
  {
    assert rs == rs[..i] + ([rs[i]] + rs[i + 1..]);
    OksAppend(rs[..i], [rs[i]] + rs[i + 1..]);
    OksAppend([rs[i]], rs[i + 1..]);
    OksOne(rs[i]);
  }

  /**
   * The players of a response are those of the chunks after the last
   * `<tbody>` that parse: each player comes from a chunk, each chunk that
   * parses contributes its player, and there are at most as many players as
   * chunks, which is at most one more than the `<a href=` occurrences.
   */
  lemma ReadHtmlResponsePlayers(html: string)
    ensures var chunks := Split(TableHtml(html), ANCHOR);
      forall p :: p in ReadHtmlResponse(html) ==> exists i :: 0 <= i < |chunks| && ParseChunk(chunks[i]) == Ok(p)
    ensures var chunks := Split(TableHtml(html), ANCHOR);
      forall i :: 0 <= i < |chunks| && ParseChunk(chunks[i]).Ok? ==> ParseChunk(chunks[i]).value in ReadHtmlResponse(html)
    ensures var chunks := Split(TableHtml(html), ANCHOR);
      var rs := ParseChunks(chunks);
      forall i :: 0 <= i < |chunks| && ParseChunk(chunks[i]).Ok? ==>
        ReadHtmlResponse(html) == Oks(rs[..i]) + [ParseChunk(chunks[i]).value] + Oks(rs[i + 1..])
    ensures |ReadHtmlResponse(html)| <= |Split(TableHtml(html), ANCHOR)| <= Occurrences(TableHtml(html), ANCHOR) + 1
  {
    var chunks := Split(TableHtml(html), ANCHOR);
    var rs := ParseChunks(chunks);
    SplitLength(TableHtml(html), ANCHOR);
    forall p | p in ReadHtmlResponse(html)
      ensures exists i :: 0 <= i < |chunks| && ParseChunk(chunks[i]) == Ok(p)
    {
      OksSound(rs, p);
    }
    forall i | 0 <= i < |chunks| && ParseChunk(chunks[i]).Ok?
      ensures ReadHtmlResponse(html) == Oks(rs[..i]) + [ParseChunk(chunks[i]).value] + Oks(rs[i + 1..])
      ensures ParseChunk(chunks[i]).value in ReadHtmlResponse(html)
    {
      OksComplete(rs, i);
    }
  }
}
