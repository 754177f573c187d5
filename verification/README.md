# Station Status Tool: ordering and status reconciliation

The Station Status Tool is a browser page (`sst-doc.js`). It shows the
stations of a warehouse department as sliders with three positions: up, down
and issues. Most of the file builds the page. Three pieces of logic sit inside
the page code, and this project models them in Dafny and proves what they do.

- **`sortLines`**: the in-place sort the page applies to the stations of a line
  and to the lines of a department. It runs three passes:
  - A swap pass moves every row whose label `parseInt` reads as NaN or 0 to the front.
  - A selection sort orders the remaining rows by their parsed number.
  - A bubble sort orders the front block by the captures of
    `/\s*([a-zA-Z]+)\s*(\d+)\s*/`: the letters as a string, then the digits as a number.
- **The label click handler** of `createSliderInput`, together with
  `createIssue` and `updateStation`. When a user moves a slider, the handler:
  - reads the station's persisted status, its ticket id and the ticket's lifecycle;
  - then writes the new status, or opens a ticket and then writes the status,
    or puts the slider back where it was.
- **The identifiers** the page derives from a station:
  - the station key `whid-dept-line-stid`;
  - the line id `updateStation` cuts from the key at its last `-`;
  - the element ids built with `clearwhitespace`.

## Modules

| file | module | contents |
|---|---|---|
| `wrappers.dfy` | `Wrappers` | `Option` |
| `js_text.dfy` | `JsText` | The JavaScript white-space class, decimal `parseInt`, and string `<` |
| `label_key.dfy` | `LabelKey` | The label regular expression as a leftmost greedy match, and the swap test of the bubble pass |
| `sort_passes.dfy` | `SortPasses` | The three passes of `sortLines`, generic in how a row is read |
| `sort_lines.dfy` | `SortLines` | `sortLines` itself, on rows whose first cell is the label |
| `station_ids.dfy` | `StationIds` | The station key, line-id derivation and `clearwhitespace` |
| `reconcile.dfy` | `Reconcile` | The click-handler decision, `createIssue`, and the trace of writes a click produces |

### How the model represents the source

- **Sorting.** The source sorts one array in place. Each pass here takes a
  sequence and returns the rearranged one, so that every contract speaks of
  values.
  - A `ghost` sequence `perm` records where each letter-block row came from.
    The stability statement is made through it.
  - When the source throws, the sort returns `ok == false`. The rows are then
    left as the failing comparison found them.
- **Replies and writes.** The handler's reads become a `Replies` value, in
  which `None` stands for a call that threw. Its writes become a list of
  `Call`s in the order they are issued. A click ends in one of three ways:
  - `Persisted`: a status was written;
  - `Reverted(shown)`: the slider was moved back to the input of the persisted
    status `shown` (white space removed), which is one of "up", "down" and "issues";
  - `Aborted`: an exception stopped the handler before any status was written.
    This includes a revert to a persisted status the slider has no input for:
    the note lookup at sst-doc.js:629 then yields `null`, and reading its
    style throws.

### Where the code decides

The model follows the code in these places. A plain reading of the page's
intended behaviour suggests otherwise in each of them.

- **The numeric block is not stable.** The first pass swaps rows across it, and
  the selection pass swaps the minimum forward. Only the letter block keeps
  equal keys in order, because the bubble pass swaps on a strict `>` only.
  `SortLines` therefore states stability for the letter block alone.
- **Labels "0" and "-0" go to the letter block.** `parseInt` reads them as 0,
  which is falsy.
- **An unparseable label can throw.** When the letter block holds two rows or
  more and one label does not match the pattern, `match` returns `null`. The
  comparison then throws instead of falling back to another order. A label
  with no ASCII letter, such as "0", is one such label (`NoLetterNoMatch`).
- **A failed status write is not reported.** After a ticket has been created,
  the result of the status write is ignored (sst-doc.js:192, 230). A failed
  ticket-creation request makes `fetchData` return `null`, and reading its
  `body` throws before any status is written.
- **Branches that write a literal status.** The open-ticket branches write the
  literal status of their branch ("down" or "issues"). The ticket-creation
  branches write the clicked label's status `str` as it is.

## Model

| member | source | states |
|---|---|---|
| SortLines.SortLines | sst-doc.js:390-439 | The output is a permutation of the input. The letter rows come first, in number equal to the input's non-numeric rows, and every numeric row follows. The numeric block is nondecreasing by parsed value. The sort succeeds exactly when the letter block has fewer than two rows or every letter label matches; on success the whole output is ordered. Each letter row comes from the input's letter rows, and rows with the same key keep their input order. An already ordered input comes back unchanged. |
| SortPasses.MoveLettersToFront | sst-doc.js:392-405 | The result is a permutation of the input. Its first `num` rows are exactly the input's non-numeric rows, in their input order, and every later row is numeric. An input with no numeric row before a non-numeric one is returned unchanged. |
| SortPasses.SortNumberBlock | sst-doc.js:406-428 | The letter block is untouched, and the numeric block is a permutation of itself, sorted nondecreasing by number. An already sorted block, including an empty one, does not move. |
| SortPasses.IndexOfMin | sst-doc.js:415-424 | The chosen index holds the smallest number of the suffix, and is the first index that does. |
| SortPasses.SortLetterBlock | sst-doc.js:430-438 | The letter block is rearranged through a permutation, and the numeric block is untouched. Rows with the same key keep their order. `ok` holds exactly when the block has fewer than two rows or every row has a key; on success the block is sorted by key. An already sorted block does not move. |
| SortPasses.LetterRound | sst-doc.js:430-437 | Pass `x + 1` rearranges the first `num - x` rows and leaves the rest alone. It succeeds exactly when fewer than two rows are compared or every compared row has a key. On success one more row is in its final place, and the rows keep their origins and the order of equal keys. |
| SortPasses.BubblePass | sst-doc.js:431-437 | The pass permutes `arr[..hi]` and keeps equal-key rows in order. It succeeds exactly when fewer than two rows are compared or every compared row has a key; on success the last row is not smaller than any other. A sorted range does not move. |
| SortPasses.FrontRowsOfSplit | sst-doc.js:397-405 | In a sequence already split at `num`, the rows the first pass collects are exactly the first `num`. |
| JsText.ParseIntFormatInt | sst-doc.js:399 | `parseInt` reads back every integer as JavaScript's `String` writes it below 10^21 in magnitude (`FormatInt` is the decimal spelling; the exponent form from 10^21 on is not modelled), past leading blanks and before text that does not start with a digit. |
| JsText.LetterLeadIsNaN | sst-doc.js:399 | A label whose first non-blank character is a letter reads as NaN, so it joins the letter block. |
| JsText.ParseIntOfParts | sst-doc.js:399 | On blanks, an optional sign, a digit run and anything not starting with a digit, `parseInt` returns the signed value of the digit run, and the label is truthy exactly when that value is not 0. |
| JsText.ParseIntNaN | sst-doc.js:399 | Without a digit right after the blanks and the optional sign, `parseInt` is NaN, so the label is falsy. |
| LabelKey.MatchOfShape | sst-doc.js:432-433 | A label made of blanks, letters, blanks, digits and then no further digit captures exactly those letters and those digits. |
| LabelKey.MatchAtIsGreedy | sst-doc.js:432-433 | Whenever the pattern can match at a start position, however the text is split, the greedy attempt there succeeds with the same letter group and a digit group extending the fitted one. |
| LabelKey.MatchAtFits | sst-doc.js:432-433 | A successful greedy attempt is a fit of the pattern whose digit run cannot be extended. |
| LabelKey.NoMatchFromNoAttempt | sst-doc.js:432-433 | When `match` finds nothing from a position on, the attempt at every later start fails. |
| LabelKey.AttemptGivesMatchFrom | sst-doc.js:432-433 | When the attempt at some start succeeds, `match` from any earlier position finds a match. |
| LabelKey.MatchFromIsLeftmost | sst-doc.js:432-433 | The match found is the attempt at the first start position that succeeds. |
| LabelKey.MatchFromGroups | sst-doc.js:432-433 | Every match captures a non-empty run of ASCII letters and a non-empty run of digits. |
| LabelKey.NoLetterNoMatch | sst-doc.js:432-434 | A label without an ASCII letter never matches, so in a letter block of two rows or more it makes the comparison throw. |
| LabelKey.GreaterAsymmetric | sst-doc.js:434 | The swap test never holds both ways. |
| LabelKey.GreaterTotal | sst-doc.js:434 | Two keys the swap test leaves in place both ways are equal. |
| LabelKey.GreaterTransitive | sst-doc.js:434 | The swap test is transitive. |
| LabelKey.NotGreaterTransitive | sst-doc.js:434 | "Not swapped" is transitive, so adjacent swaps sort the block. |
| StationIds.LineIdOf | sst-doc.js:181-188 | Without a '-' the line id is the whole key. Otherwise it is the prefix that ends just before a '-' with no '-' after it. |
| StationIds.DeriveLineId | sst-doc.js:181-188 | The backward scan for '-' computes the same line id. |
| StationIds.LineIdOfSplit | sst-doc.js:181-188 | Cutting at the last '-' undoes appending '-' and a tail without '-'. |
| StationIds.LineIdOfStationKey | sst-doc.js:605 | For a station id without '-', the line id of the key `whid-dept-line-stid` is `whid-dept-line`. |
| StationIds.StationKeyInjective | sst-doc.js:605 | When warehouse, department and line ids have no '-', two stations with the same key agree in all four parts. |
| StationIds.DashInStationIdMovesCut | sst-doc.js:605 | When the station id contains a '-', the line id of the key is `whid-dept-line-` followed by the station id's own line id: the cut moves into the station id. |
| StationIds.ClearWhitespace | sst-doc.js:507-509 | The result has no white-space character and is no longer than the input. |
| StationIds.ClearWhitespaceKeepsOthers | sst-doc.js:507-509 | Every character outside the white-space class survives, as many times as it occurs. |
| StationIds.ClearWhitespaceAppend | sst-doc.js:507-509 | Removal works piece by piece, so the remaining characters keep their order. |
| StationIds.ClearWhitespaceIdempotent | sst-doc.js:507-509 | Removing white space twice is removing it once. |
| StationIds.RevertFindsInputOf | sst-doc.js:628 | The input selector the handler builds from the persisted status finds the input of slider status `s` (id given at sst-doc.js:676) exactly when the persisted status, white space removed, is `s`. |
| StationIds.RevertFindsNoteOf | sst-doc.js:629 | The note selector the handler builds from the persisted status finds the note of slider status `s` (id given at sst-doc.js:577) exactly when the persisted status, white space removed, is `s`. |
| StationIds.SliderIdsDistinct | sst-doc.js:676 | The input ids (and the note ids of sst-doc.js:577) of the three slider statuses are pairwise distinct, and no input id equals a note id, for every station text. |
| Reconcile.StatusName | sst-doc.js:617-672 | Each literal status a branch writes selects that same branch again. |
| Reconcile.IncludesIffOccurs | sst-doc.js:617 | `includes` (here and at sst-doc.js:216, 634) holds exactly when the substring occurs at some position. |
| Reconcile.BranchOfOccurs | sst-doc.js:617-634 | A label in which "up" occurs takes the "up" branch; one in which "down" occurs and "up" does not takes the "down" branch; every other label takes the "issues" branch. |
| Reconcile.ResolvedIsExact | sst-doc.js:618 | Only the exact values "Closed" and "Resolved" count as resolved; other spellings count as an open ticket. |
| Reconcile.Decide | sst-doc.js:617-672 | The slider is reverted exactly when the label selects "up" and the ticket is open. A ticket is created exactly when the label does not select "up" and the ticket is resolved. A direct write carries the branch's own status ("up", "down" or "issues") and the existing ticket id. A creation writes `str`, and a revert shows `cstatus`. |
| Reconcile.ObserveTicket | sst-doc.js:609-616 | The ticket id is whatever the lookup produced. The lifecycle is the reply when both reads succeed, and a resolved value when either throws. |
| Reconcile.FailedLookupReadsClosed | sst-doc.js:609-616 | A click whose ticket lookup throws goes exactly as it would with lifecycle "Closed". |
| Reconcile.Update | sst-doc.js:176-193 | The write carries the key as station id, with the status and ticket id it was given. Its line id is the prefix of the key before the key's last '-', or the whole key when there is none. |
| Reconcile.NewTicket | sst-doc.js:207-227 | The ticket carries the warehouse and the fixed requester, type and item. The title says "station down" exactly when `str` includes "down", and it ends with the department and the station's text. |
| Reconcile.DescriptionQuotesStatus | sst-doc.js:216-223 | The ticket's description contains the requested status. |
| Reconcile.CreateIssue | sst-doc.js:205-232 | There is exactly one ticket-creation request, and it comes first. If the reply arrived, exactly one write of `str` follows, carrying the new ticket id. Otherwise the click aborts with no write. |
| Reconcile.Perform | sst-doc.js:617-672 | At most one ticket and one write, the ticket first; `Persisted` exactly when a write is made; every write names the station's key and line. It reverts exactly for a revert effect whose status, white space removed, is a slider status, showing that status with no call. |
| Reconcile.HandleClick | sst-doc.js:599-673 | A failed status read aborts the click with no calls. Every click makes at most one ticket and at most one write, and a ticket request always comes first. The click ends `Persisted` exactly when a write is made, and every write names the clicked station and its line. A click that reverts makes no call and shows a slider status. |
| Reconcile.UpOverResolvedTicket | sst-doc.js:617-625 | "up" over a resolved ticket writes "up" with the existing ticket id and opens no ticket. |
| Reconcile.UpOverOpenTicket | sst-doc.js:626-632 | "up" over an open ticket writes nothing. It moves the slider back to the persisted status when that status, white space removed, is "up", "down" or "issues", and aborts otherwise. |
| Reconcile.DegradeOverResolvedTicket | sst-doc.js:634-665 | "down" or "issues" over a resolved ticket opens one ticket, then writes the requested status once with the new ticket id. |
| Reconcile.DegradeOverOpenTicket | sst-doc.js:647-672 | "down" or "issues" over an open ticket opens no ticket and writes the branch's status with the existing ticket id. |
| Reconcile.FailedCreateWritesNothing | sst-doc.js:227-230 | A failed ticket-creation request ends the click with one creation request and no status written. |
| Reconcile.SliderStatusesSelectTheirBranch | sst-doc.js:617-634 | The three statuses a slider offers ("up", "down", "issues") each select their own branch. |
| Reconcile.WritesNameTheLine | sst-doc.js:605 | With a station id without '-', every write a click makes names the station's own line. |

## Left out

- Page construction and styling: slider layout, colours, note visibility, ticket links, and the warehouse and department menus. These only display data.
- `fetchData` and the API wrappers (`getStationStatus`, `getTicketID`, `checkTicketStatus`, the `populate*` and `parse*` functions). They are network calls. Their results enter the model as a `Replies` value, and a call that throws is `None`.
- A reply field that is missing (JavaScript `undefined`) is not modelled separately. As a lifecycle it behaves like any value other than "Closed" or "Resolved", which the model covers. As a persisted status it reaches the revert selectors as the string "undefined", which is not a slider status and so aborts. As a ticket id it is modelled as a string.
- Reconcile.HandleClick: the selectors of sst-doc.js:600-602 are assumed to be valid CSS ids that find this station's elements. A station text that is not a valid id (for example one starting with a digit, such as "0") makes `querySelector` throw there, which aborts the click before any read; the model does not state this.
- Reconcile.UpOverOpenTicket: the revert selectors are assumed to find only this station's elements. Two stations with the same text share their ids, and `querySelector` returns the first in page order. Other texts can also make the ids coincide: persisted status "up-A" on station "B" selects the note of a station "-AB" and the input of a station "A-B". In such pages the source moves another station's slider, and the model does not state this.
- Reconcile.HandleClick: the un-awaited `updateStation` calls (sst-doc.js:651, 668) are treated as the final effect of the click. Their timing relative to other clicks is asynchronous scheduling, which is not modelled.
- The result of `updateStation` (sst-doc.js:192) is ignored by the source, so the model has no failed-write outcome.
- The `selectedStationID` global is read by `updateStation` and written by the handler. In the model the station key is passed to `Update` directly. Interleaving of two clicks that share the global is concurrency, which is not modelled.
- JsText.ParseInt: models decimal labels only. The `0x` prefix and the radix argument are not modelled. Values beyond 2^53 lose precision in JavaScript but are exact here. `String(n)` switches to exponent form ("1e+21") from 10^21 on, which `FormatInt` does not model, so `ParseIntFormatInt` speaks of the decimal spelling only.
- SortLines.SortLines: labels must be strings. A number or other non-string in `arr[i][0]` makes `.match` throw in the source, and the model cannot express such a row.
- `dir.sort()` on arrays of objects (sst-doc.js:301, 335) is not modelled. It orders by the default string conversion of objects.
- URL query-string deep-linking, the five-minute reload timer and the `dataProccessing` flag are not modelled. They concern the page's lifecycle.
