# Head-to-head table scraper, modelled in Dafny

This project models the scraping core of a tool that reads pairwise
("head-to-head") win/loss records between players from a league's HTML
results table (src/lib.rs). There are two operations:

- `PlayerH2H::from_html_chunk` takes the markup of one table row. It finds
  the player's name with the pattern `title='([^']+)'`. It then walks the
  matches of `\t(\d+) - (\d+)[\t\n]` from left to right. For each match it
  splits the text on `" - "`, trims both sides, parses each side as a `u16`
  and pushes the pair.
- `read_html_response_to_player_h2h` keeps the part of a response after its
  last `<tbody>` and cuts that part at every `<a href=`. It returns, in order,
  the players of the chunks that parse.

The files are:

- `wrappers.dfy` holds `Option` and `Result`.
- `text.dfy` holds the parts of Rust's `str` API the scraper uses: `split`
  with a string pattern, `trim` with Unicode `White_Space`, and occurrence
  counting.
- `parse_int.dfy` holds `u16::from_str`. An optional `+` is accepted. The
  value is accumulated digit by digit with a checked multiply and a checked
  add. An empty string is `Empty`, a non-digit is `InvalidDigit`, and leaving
  16 bits is `PosOverflow`.
- `patterns.dfy` holds the two regular expressions, written as scanners with
  the engine's leftmost-first, greedy semantics. Each scanner is paired with
  a declarative "the pattern matches here" predicate.
- `head_to_head.dfy` holds `PlayerH2H` and the chunk parser. The parser is a
  specification function (`ParseChunk`) plus the imperative loop of the
  source (`FromHtmlChunk`, a method pushing onto a sequence), proved equal.
  This file also holds the whole-response pipeline.

A parsed row is a `PlayerH2H` (src/lib.rs:7-10): the player's name and the
ordered list of `(wins, losses)` pairs, both `u16`. The name is taken from
the leftmost `title='…'` in the row, and a single record above 65535 makes
the whole row fail.

## Model

| member | source | states |
|---|---|---|
| Text.FindFrom | src/lib.rs:24 | the result is the leftmost occurrence of the separator at or after the start index, and no occurrence lies before it |
| Text.Split | src/lib.rs:45-48 | `split` always yields at least one piece, so `.last()` never fails and the `expect` can never fire |
| Text.SplitJoin | src/lib.rs:45-49 | joining the pieces of a split with the separator gives back the original text |
| Text.SplitPiecesFree | src/lib.rs:45-49 | no piece of a split contains the separator |
| Text.SplitFree | src/lib.rs:45-48 | a text in which the separator never occurs splits into just itself |
| Text.SplitLength | src/lib.rs:49 | a split has at most one more piece than the separator has occurrences |
| Text.LastPiece | src/lib.rs:45-48 | the last piece is a suffix free of the separator; it is the whole text when the separator is absent, and otherwise it directly follows an occurrence |
| Text.LastPieceShape | src/lib.rs:45-48 | the last piece is a suffix that is either the whole text or directly follows an occurrence of the separator (the inductive part of LastPiece) |
| Text.Trim | src/lib.rs:25-26 | `trim`: the result is no longer than the text and neither starts nor ends with whitespace (TrimStart and TrimEnd state which characters are dropped) |
| Text.TrimStart | src/lib.rs:25-26 | the result is a suffix; every dropped character is whitespace; the result does not start with whitespace |
| Text.TrimEnd | src/lib.rs:25-26 | the result is a prefix; every dropped character is whitespace; the result does not end with whitespace |
| ParseInt.AccumulateDigits | src/lib.rs:25-26 | the checked digit loop of `from_str` succeeds only on a string of ASCII digits and never reports `Empty`; AccumulateDigitsValue gives its value |
| ParseInt.ParseU16 | src/lib.rs:25-26 | `parse::<u16>` is `Empty` exactly on the empty string and succeeds only on an optional `+` followed by a non-empty digit string; ParseU16Ok gives the exact success condition and the value |
| ParseInt.AccumulateDigitsValue | src/lib.rs:25-26 | on a digit string, the checked digit loop gives `acc·10^n + value` when that fits in 16 bits, and otherwise `PosOverflow` |
| ParseInt.ParseDigits | src/lib.rs:25-26 | a non-empty ASCII digit string parses to its decimal value when it is below 65536, and is `PosOverflow` otherwise; it is never truncated |
| ParseInt.ParseU16Ok | src/lib.rs:25-26 | `parse::<u16>` succeeds exactly on an optional `+` followed by a non-empty digit string whose value is below 65536, and then yields that value |
| ParseInt.NotAllDigitsInvalid | src/lib.rs:25-26 | a non-digit anywhere makes the digit loop fail |
| ParseInt.DecimalValueSnoc | src/lib.rs:25-26 | appending a digit multiplies the value by ten and adds the digit |
| ParseInt.ToDecimal | src/lib.rs:25-26 | the decimal spelling of a number is a non-empty digit string |
| ParseInt.ToDecimalValue | src/lib.rs:25-26 | the decimal spelling of `n` has value `n` |
| ParseInt.ParseToDecimal | src/lib.rs:25-26 | every `u16` written in decimal parses back to itself (round trip) |
| Patterns.QuoteFrom | src/lib.rs:14 | the result is the first `'` at or after the start index |
| Patterns.NameAt | src/lib.rs:14 | the player pattern tried at one index gives a closing quote exactly when the pattern matches there, and that quote is the match's |
| Patterns.FindName | src/lib.rs:14-17 | `captures` for the player pattern: its result is a match, and no match starts earlier |
| Patterns.NameMatchUnique | src/lib.rs:14 | a player match is determined by where it starts (greedy `[^']+` stops at the first quote) |
| Patterns.PlayerName | src/lib.rs:17-19 | the captured name is non-empty and contains no `'`; PlayerNameLeftmost and PlayerNameNone say which match it comes from |
| Patterns.PlayerNameLeftmost | src/lib.rs:17-19 | the captured name is `s[i+7..j]` for the leftmost match `(i, j)` |
| Patterns.PlayerNameNone | src/lib.rs:37-38 | there is no name exactly when the player pattern matches nowhere |
| Patterns.EmptyTitleSkipped | src/lib.rs:14-19 | in `title=''title='Bob'` the empty `title=''` is passed over and the name is `Bob` |
| Patterns.NoNameAt | src/lib.rs:14 | where the text differs from `title='`, the name search moves on to the next index |
| Patterns.DigitsEnd | src/lib.rs:16 | the result is the end of the maximal run of ASCII digits starting at the index |
| Patterns.DigitsEndAt | src/lib.rs:16 | a digit run that stops before a non-digit ends where `DigitsEnd` says |
| Patterns.RecordShape | src/lib.rs:16 | in a win/loss match each `\d+` group is a whole digit run |
| Patterns.RecordAt | src/lib.rs:16 | the win/loss pattern tried at one index gives a match starting there exactly when one exists |
| Patterns.NoRecordAt | src/lib.rs:16 | when the digit runs after a tab do not have a record's shape, no match starts there |
| Patterns.RecordMatchUnique | src/lib.rs:16 | a win/loss match is determined by where it starts |
| Patterns.NextRecord | src/lib.rs:16-22 | the next match of `captures_iter` is a match at or after the start index, and no match starts earlier |
| Patterns.RecordMatches | src/lib.rs:22 | `captures_iter` from an index: every item listed is a win/loss match starting at or after that index; RecordMatchesOrdered and RecordMatchesCover give order and completeness |
| Patterns.RecordMatchesOrdered | src/lib.rs:16-22 | the listed matches are win/loss matches in order of position and do not overlap |
| Patterns.RecordMatchesCover | src/lib.rs:16-22 | no match is skipped: every match starts inside one of the listed matches |
| Patterns.SharedTabNotReused | src/lib.rs:16-22 | in `"\t1 - 2\t3 - 4\n"` the tab closing the first record cannot open a second, so only one match is found |
| Patterns.NoTabAt | src/lib.rs:16-22 | no win/loss match starts where there is no tab; the search moves on |
| HeadToHead.RecordTextParts | src/lib.rs:23-26 | splitting a match's text on `" - "` gives exactly two parts, whose trims are the two digit groups, so `[0]` and `[1]` are always in bounds |
| HeadToHead.RecordText | src/lib.rs:16 | the text of a win/loss match is a tab, the wins digits, `" - "`, the losses digits and the closing tab or newline |
| HeadToHead.SplitRecordText | src/lib.rs:23-24 | the text of a record splits at its `" - "` into the tab-and-wins side and the losses-and-closer side |
| HeadToHead.SplitAtFirstDash | src/lib.rs:24 | when the head has no space, the first `" - "` is the one after it |
| HeadToHead.NoSpaceFree | src/lib.rs:24 | a text without spaces contains no `" - "` |
| HeadToHead.TrimRecordSides | src/lib.rs:25-26 | trimming the two sides of a record leaves exactly the digits |
| HeadToHead.TrimLeadingTab | src/lib.rs:25 | trimming the tab-and-wins side leaves the wins digits |
| HeadToHead.TrimTrailingClose | src/lib.rs:26 | trimming the losses side with its closing tab or newline leaves the losses digits |
| HeadToHead.DigitsUntrimmed | src/lib.rs:25-26 | a non-empty digit string has nothing to trim |
| HeadToHead.ParseRecord | src/lib.rs:23-26 | one record (split, trim, parse wins then losses) can fail only with `PosOverflow`; ParseRecordValue gives the exact condition and the values |
| HeadToHead.RecordSidesOverflow | src/lib.rs:25-26 | both trimmed sides of a matched record are digit strings, so parsing either can fail only with `PosOverflow` |
| HeadToHead.ParseRecordValue | src/lib.rs:23-27 | a record parses exactly when both groups are below 65536, to their decimal values, wins first; otherwise it fails with `PosOverflow` |
| HeadToHead.ParseRecordsFrom | src/lib.rs:21-28 | the record loop fails only with `PosOverflow` and otherwise yields one record per match; ParseRecordsFromValues gives the records |
| HeadToHead.ParseChunk | src/lib.rs:13-41 | `from_html_chunk`: it fails with `NoPlayerName` exactly when there is no name, its only other failure is `BadRecord(PosOverflow)`, and a parsed player carries the captured name and one record per match; ChunkRecords gives the records |
| HeadToHead.FromHtmlChunk | src/lib.rs:13-41 | the imperative loop (pushing each parsed record and returning on the first failure) gives exactly `ParseChunk` |
| HeadToHead.RecordLoopStep | src/lib.rs:22-27 | one turn of the loop: the next record's error ends it, or that record is pushed and the walk resumes after its match |
| HeadToHead.RecordLoopEnd | src/lib.rs:28-35 | with no match left, the result is the records pushed so far |
| HeadToHead.PrefixedTwice | src/lib.rs:27 | pushing records in two steps is pushing them in one |
| HeadToHead.AllInRangeCons | src/lib.rs:25-26 | all matches of a list are in range exactly when the head and the tail are |
| HeadToHead.RecordValues | src/lib.rs:21-28 | the reference reading of a row has exactly one record per match |
| HeadToHead.RecordValuesAt | src/lib.rs:21-28 | the `t`-th reference record holds the decimal values of the `t`-th match, wins first |
| HeadToHead.ParseRecordsFromValues | src/lib.rs:21-28 | the record loop yields the reference reading when every match is in range, and `PosOverflow` otherwise |
| HeadToHead.ChunkWithoutName | src/lib.rs:37-38 | a chunk fails for lack of a name exactly when the player pattern matches nowhere |
| HeadToHead.ChunkPlayerName | src/lib.rs:17-19 | for a leftmost player match `(i, j)`, the chunk does not fail for lack of a name, and a parsed player is named `chunk[i+7..j]` |
| HeadToHead.ChunkRecords | src/lib.rs:17-35 | a named chunk parses exactly when every match is in range, to the name and one record per match in order; one group above 65535 fails the whole chunk with `PosOverflow` |
| HeadToHead.ChunkWithoutRecords | src/lib.rs:21-35 | a named chunk with no win/loss match succeeds with no records; it is not dropped |
| HeadToHead.TableHtml | src/lib.rs:45-48 | the section searched is a suffix of the response containing no `<tbody>`; TableHtmlSpec says where it starts |
| HeadToHead.ParseChunks | src/lib.rs:51-53 | the `map` gives one result per chunk |
| HeadToHead.ReadHtmlResponse | src/lib.rs:44-61 | there are at most one more players than `<a href=` occurrences in the section; ReadHtmlResponsePlayers says which players, in which order |
| HeadToHead.Oks | src/lib.rs:54-60 | `filter_map` keeps no more values than it is given |
| HeadToHead.OksAppend | src/lib.rs:51-60 | keeping the successes of a concatenation concatenates the kept values, so order is kept |
| HeadToHead.OksOne | src/lib.rs:54-59 | a single result is kept exactly when it is a success |
| HeadToHead.OksSound | src/lib.rs:54-59 | every kept value is the value of some success |
| HeadToHead.OksComplete | src/lib.rs:54-60 | every success is kept, between the kept values before it and those after it |
| HeadToHead.TableHtmlSpec | src/lib.rs:45-48 | the section searched is a suffix of the response with no `<tbody>` in it; it is the whole response when there is no `<tbody>`, and otherwise it directly follows the last one |
| HeadToHead.ReadHtmlResponsePlayers | src/lib.rs:44-61 | each player returned comes from a chunk, each chunk that parses contributes its player at its own position (after the players of the chunks before it and before those of the chunks after it), and there are at most as many players as chunks, at most one more than the `<a href=` occurrences |

## Left out

- The `expect` on `Regex::new` (src/lib.rs:14-16) is left out: the patterns are constants and are written directly as scanners.
- Unicode `\d` is left out: the model's `\d` is ASCII `0`-`9` only. Rust's `\d` also matches other decimal digits, which `parse::<u16>` then rejects with `InvalidDigit`. That error is therefore absent from the model, and `ChunkRecords` names `PosOverflow` as the only record failure. Non-ASCII digits also change which text matches: in `"\t١ - 2\n"` (an Arabic-Indic one) Rust finds a match and the chunk fails with `InvalidDigit`, while the model finds no match there, so the chunk can succeed with fewer records.
- The `ok_or` error arms for a missing capture group (src/lib.rs:19, 24) are left out: group 1 of a successful player match and group 0 of any match always exist.
- The rayon `par_iter` (src/lib.rs:52) is modelled as a sequential map and filter, since `collect` keeps the input order.
- The `println!` diagnostic for a dropped chunk (src/lib.rs:57) is output only and is left out; only its filtering effect is modelled.
- `anyhow` error messages are left out; `ChunkError` keeps only which failure happened and, for a record, the `ParseIntError` kind.
- `process_html_to_internal` (src/lib.rs:65-76) is network I/O and is not part of this model.
- `make_colley_ranking` (src/lib.rs:78-99) is async fan-out, wall-clock timing and printing, and is not part of this model.
- Pagination, merging pages and the ranking itself are not implemented in the source (TODOs at src/lib.rs:6 and 70), so there is nothing to model.
- `ParseInt.ToDecimal` stands for `u16`'s decimal display. It is not called by the core and serves only as the inverse in the `parse` round trip.
