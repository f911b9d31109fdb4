# Lottery claim resolver and winner checker, modelled in Dafny

Players of a number lottery reply to a social-network post with a number
from 00 to 99. `api/server.js` fetches the replies and then resolves the
claims. The model covers what happens after the fetch:

1. Replies are sorted by timestamp, keeping fetched order among equal
   timestamps.
2. Each reply's number is read with `extractNumberFromText`.
3. Claims are accepted first come, first served, with one number per
   participant and one participant per number.
4. Replies asking for a number that is already taken are counted in
   `skippedDuplicates`.
5. The scan stops once 100 numbers are taken.
6. The accepted entries are listed in number order, 00 to 99, and the result
   record is built.

`check-winner.js` then counts, for a list of winning numbers, how many hits
each participant has.

The project has one module per concern:

- `Wrappers` (wrappers.dfy): `Option`, for JavaScript's `null`/`undefined`.
- `Records` (records.dfy): a fetched `Reply` and an accepted `Entry`.
- `Claims` (claims.dfy): `extractNumberFromText` as a hand-written scan for
  `/\b\d{1,2}\b/`, plus the built-ins it uses: `trim`, `parseInt`,
  `toString` and `padStart`.
- `TimeSort` (timesort.dfy):
  - `StableSort`, the specification of the timestamp sort;
  - `SortByTimestamp`, an in-place insertion sort on an array, proved to
    compute it;
  - the proof that the stable sorted permutation is unique. So any stable
    sort, including `Array.prototype.sort`, gives the same order.
- `Resolver` (resolver.dfy):
  - `Run`/`Before`, the specification of the resolution loop, and the table
    invariant it keeps;
  - exact characterisations of which replies are accepted and which are
    counted as duplicates;
  - the 00–99 listing and the result record;
  - the loops of `getPlayersData`, proved against these functions.
- `Winners` (winners.dfy):
  - `Tally`, the specification of the nested `forEach`;
  - the invariant `TallyOf` that it keeps;
  - the loops `FindWinner`, `CountWinners` and `CheckWinners`, proved to
    compute it.

The code has no cutoff time and no log of rejected replies, so the model has
neither.

## Model

| member | source | states |
|---|---|---|
| Claims.ExtractNumber | api/server.js:30-36 | The result is `null` exactly when the text has no standalone one- or two-digit run. Otherwise it is a two-character digit string whose value is at most 99. |
| Claims.ExtractFirstRun | api/server.js:31-35 | If the leftmost standalone run starts at i and has length 1 or 2, the result is that run, zero-padded to two characters ("7" gives "07"). |
| Claims.ExtractSomeIff | api/server.js:31-32 | A number is found exactly when some one- or two-digit run has word boundaries on both sides. |
| Claims.LongRunNeverMatches | api/server.js:31 | No digit inside a run of three or more digits is part of a match. |
| Claims.WordNeighbourNeverMatches | api/server.js:31 | No match starts right after a letter, a digit or an underscore. |
| Claims.WordAfterNeverMatches | api/server.js:31 | No match ends right before a letter, a digit or an underscore. |
| Claims.ShortRunBelowHundred | api/server.js:33-34 | One or two digits always parse to a value below 100, so the range check on line 34 never rejects. |
| Claims.ExtractSingleDigit | api/server.js:30-36 | "7" yields "07". |
| Claims.ExtractThreeDigits | api/server.js:30-36 | "123" yields no number. |
| Claims.ExtractAfterLetter | api/server.js:30-36 | "a5" yields no number. |
| Claims.ExtractBeforeLetter | api/server.js:30-36 | "5a" yields no number. |
| Claims.ExtractBeforeUnderscore | api/server.js:30-36 | "12_" yields no number. |
| Claims.ExtractInSentence | api/server.js:30-36 | "my pick is 7" yields "07". |
| Claims.ExtractLongRunInSentence | api/server.js:30-36 | "number 123 please" yields no number. |
| Claims.ExtractFirstOfTwo | api/server.js:30-36 | "5 and 17" yields "05": the leftmost run wins. |
| Claims.TrimIsInnerSlice | api/server.js:69 | `trim` keeps one contiguous slice of the text. Only white space is removed on either side, and an all-white-space text trims to "". |
| Claims.TrimIdempotent | api/server.js:69 | Trimming a trimmed text changes nothing. |
| Claims.LabelRoundTrip | api/server.js:92 | For 0 ≤ i ≤ 99, `i.toString().padStart(2, '0')` is two digits that read back as i. |
| Claims.LabelOfValue | api/server.js:92 | Every two-digit string is the label of the number it spells. |
| Claims.LabelInjective | api/server.js:92 | Distinct numbers 0–99 have distinct labels. |
| TimeSort.SortByTimestamp | api/server.js:62 | Sorting the array in place leaves exactly `StableSort` of its old contents. |
| TimeSort.StableSortSorted | api/server.js:62 | The sorted replies ascend by timestamp. |
| TimeSort.StableSortPermutes | api/server.js:62 | The sort is a permutation: same multiset of replies. |
| TimeSort.StableSortStable | api/server.js:62 | For every timestamp, the replies with that timestamp keep their fetched order. |
| TimeSort.TiedKeepOrder | api/server.js:62 | Two replies with equal timestamps, the first fetched before the second, are sorted in the same order. |
| TimeSort.SortedStableUnique | api/server.js:62 | Two sequences that are sorted by timestamp and agree on the order within each timestamp are equal. |
| TimeSort.StableSortCharacterised | api/server.js:62 | Any sorted, stable rearrangement of the replies is `StableSort`, so the stable built-in sort yields this order. |
| Resolver.ResolveClaims | api/server.js:57-88 | The loop, with its early `break` at 100 numbers and its `continue`s, ends with `seenFids`, `numberMap` and `skippedDuplicates` equal to `Run` of the sorted replies. The final table satisfies the table invariant. |
| Resolver.StepWellFormed | api/server.js:73-87 | One iteration keeps the table invariant and adds at most one to `skippedDuplicates` + `numberMap.size`. |
| Resolver.FileWellFormed | api/server.js:80-87 | Filing a new participant's entry under a free number keeps the table invariant. |
| Resolver.BeforeWellFormed | api/server.js:57-88 | At every point of the scan, the table invariant holds and `skippedDuplicates` + `numberMap.size` ≤ replies scanned. The invariant: every entry is filed under its own number, `seenFids` are exactly the fids of the entries, no two numbers share a participant, and at most 100 numbers are taken. |
| Resolver.SeenAreAccepted | api/server.js:73-87 | `seenFids` is exactly the set of fids of the replies accepted so far. |
| Resolver.KeysAreTaken | api/server.js:75-86 | The keys of `numberMap` are exactly the numbers of the replies accepted so far. |
| Resolver.SkippedAreCounted | api/server.js:73-77 | `skippedDuplicates` is exactly the number of replies turned away because their number was taken. Replies without a number, or from an already accepted fid, are not counted. |
| Resolver.EntryKept | api/server.js:80-86 | An accepted reply's entry stays filed under its number for the rest of the scan, with its fields unchanged. |
| Resolver.FinalEntryOrigin | api/server.js:80-86 | Every entry of the final table is the entry of one scanned reply that claimed that number. |
| Resolver.AcceptedIff | api/server.js:64-87 | A reply is accepted exactly when all of these hold: the scan has not stopped; it has a number; its fid was not accepted before; its number was not taken before. |
| Resolver.SkippedIff | api/server.js:64-77 | A reply is counted as a duplicate exactly when all of these hold: the scan has not stopped; it has a number; its fid was not accepted before; its number was already taken. |
| Resolver.NumberGoesToFirstClaimant | api/server.js:75-78 | Once a reply is accepted for a number, no later reply is accepted for that number. |
| Resolver.ParticipantAcceptedOnce | api/server.js:73 | Once a participant is accepted, none of their later replies is accepted. |
| Resolver.FullIsFinal | api/server.js:65 | Once 100 numbers are taken, the table never changes again. |
| Resolver.SortedTableFacts | api/server.js:62-88 | The table built from the sorted replies keeps the invariant and is keyed by two-digit numbers. Each of its entries comes from a fetched reply: same fields, comment = trimmed text, number = `extractNumberFromText(comment)`. |
| Resolver.ListPlayers | api/server.js:90-95 | The 00–99 loop builds `Listing(numberMap, 100)`. For a table keyed by number, that list has one element per entry, holds exactly the table's entries, and is strictly ascending by number. |
| Resolver.FullListFacts | api/server.js:90-95 | `fullList` has `numberMap.size` elements, holds exactly the entries of the table, and is strictly ascending by number. |
| Resolver.TieGoesToFirstFetched | api/server.js:62-87 | Take two replies with equal timestamps, from different participants, claiming the same number. The one fetched first gets the number and is the only listed entry; the other is counted in `skippedDuplicates`. |
| Resolver.TieGoesToEarlierFetched | api/server.js:62-87 | Among any number of fetched replies, two with equal timestamps are scanned in fetched order. If the earlier one is accepted, the later one is not accepted when it asks for the same number or comes from the same participant. |
| Resolver.PlayersDataGood | api/server.js:57-106 | The result record satisfies all of these: `totalReplies` is the number fetched; `totalPlayers` is the list length, at most 100; `isFull` holds exactly when it is 100; `skippedDuplicates + totalPlayers ≤ totalReplies`; every listed entry is a well-formed claim of a fetched reply; numbers are strictly ascending (so none repeats); no fid repeats. |
| Resolver.GetPlayersData | api/server.js:57-106 | Sorting the replies in an array, running the loop and listing yields `PlayersData` of the fetched replies, which satisfies all of the above. |
| Resolver.GetPlayersDataTwice | api/server.js:57-106 | Running the post-fetch part twice on the same replies gives identical results. |
| Winners.Find | check-winner.js:16 | `find` yields the first winner with the fid, or nothing when no winner has it. |
| Winners.FindWinner | check-winner.js:16 | The search loop computes `Find`. |
| Winners.HitsMembers | check-winner.js:13-15 | A match is exactly a player whose number is one of the winning numbers. |
| Winners.HitsCount | check-winner.js:13-15 | There are as many matches as (winning number, player) pairs with `player.number === num`. |
| Winners.BumpExisting | check-winner.js:16-18 | On a repeat match, only `hits` of the existing record increases. Its other fields stay those of the first match, and the tally invariant holds for the longer run of matches. |
| Winners.BumpNew | check-winner.js:19-23 | On a participant's first match, a copy of the player with one hit is appended after the others, and the tally invariant holds for the longer run of matches. |
| Winners.BumpAllIsTally | check-winner.js:13-27 | After the loops, the winners satisfy all of these: fids are distinct; each winner is the record of its participant's first match; it has one hit per match; winners are in order of first match; every matched participant is a winner. |
| Winners.CountWinners | check-winner.js:11-27 | The nested loops leave `winners` equal to `Tally` of the winning numbers and the players. |
| Winners.WinnersWellFormed | check-winner.js:13-24 | No two winners share a fid. Every winner has at least one hit, is one of the players, and has a number that occurs among the winning numbers. |
| Winners.WinnersHitsSum | check-winner.js:13-27 | The sum of `hits` over all winners equals the number of (winning number, player) pairs with `player.number === num`. |
| Winners.WinnersFirstHitOrder | check-winner.js:13-24 | The winners are in order of first match, outer loop over winning numbers, inner over players. Each carries the record copied at its first match and one hit per match. |
| Winners.WinnersEmptyIff | check-winner.js:13-29 | There are no winners exactly when no player's number occurs among the winning numbers. |
| Winners.CheckWinners | check-winner.js:11-29 | The tally, and the empty test on line 29: there is a winner exactly when some player's number is a winning number. |

## Left out

- Fetching the replies (`fetchConversation` and the pagination loop, api/server.js:18-28 and 44-55): network I/O. The fetched replies are the input sequence, so the `{ error }` result of a failed fetch is not modelled.
- Writing `players.json` (api/server.js:98) and reading it with `require` (check-winner.js:8): file I/O. The list is an output value and an input value instead.
- The Express routes, the HTML page, `app.listen` and the environment configuration (api/server.js:1-16 and 109-169): web plumbing.
- Parsing ISO timestamps with `new Date` (api/server.js:62): timestamps are integers ordered as the parsed dates are. An entry's `timestamp` is that integer, not the original string.
- The reward `(1.1 * w.hits).toFixed(2)`, the console reports and `process.exit` (check-winner.js:29-49): floating point and console output. The empty test on line 29 is modelled as the `anyWinner` result of `CheckWinners`.
- Regular expressions in general: only the fixed pattern `\b\d{1,2}\b` is modelled, as a hand-written scan.
- Strings are sequences of Unicode scalar values, not UTF-16 code units. The difference affects only characters outside the Basic Multilingual Plane, and none of those is a digit, a word character or white space.
- Winners.CountWinners: the winner objects are values in a sequence, and `existing.hits += 1` is a replacement at the found index. Each record is a fresh copy referenced only from `winners`, so no aliasing is lost.
- TimeSort.SortByTimestamp: `Array.prototype.sort`'s own algorithm is not modelled. The model sorts by insertion and proves that every stable sort by timestamp gives the same order.
