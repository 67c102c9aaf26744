# UmbrellaAdBlocker in Dafny

A model of the deterministic core of `UmbrellaAdBlocker.py`, a script that
pulls the Steven Black hosts file, extracts its domains, drops the ones the
Cisco Umbrella Enforcement API already blocks, turns the rest into block
events, writes them to `events.json` and posts them to the API in slices of
5000. The network, the clock, the file system and `json` are replaced by
inputs and parameters:

- `HostsFeed` — `getDomainList`: the lines of the hosts file go in, the list
  of domains comes out. The regular expression `([a-z0-9]+\.)+[a-z]+` is
  stated as a language (`DomainPattern.IsDomain`) and `re.search` as a
  matcher (`DomainPattern.Search`) proved to return the leftmost match, the
  longest one at that start, and nothing when the line holds no match.
- `Events` — `createEvent` as a record builder and `createEvents` as a loop.
- `Delta` — `deltaDomains`, which removes from the list it iterates over;
  the model keeps the list as a shared object (`DomainList`) and the Python
  list iterator as an explicit index.
- `EventFile` — `writeEventsToFile`: the text written to the file; the
  serialization of one event (`json.dumps`) is a function parameter.
- `Submitter` — `postEvents`: the slices posted, the sleeps requested and
  the final `DELAY`; the outcome of the i-th POST is the parameter `reply`.
- `BlockedDomains` — `getBlockedDomains` and `countBlockedDomains`: the
  pagination loops over a finite sequence of GET replies.

Behaviour of the code that is easy to misread:

- `postEvents` does not abort on an exception: the `except` is inside the
  `for` loop, so the session is closed, the exception printed, and the next
  slice is posted. The model's `Raised` outcome only skips the sleep.
- A status outside 200..209 and 429 is silently ignored: `raise_for_status`
  is referenced, not called.
- In the pagination loops a non-200 status retries at once; only an
  exception sleeps (2 s in `getBlockedDomains`, 1 s in `countBlockedDomains`).
- `deltaDomains` is not a set difference (see Findings), and no step removes
  duplicate domains from the feed.
- The loops stop on any falsy `meta.next`: `None` or the empty string.

## Model

| member | source | states |
|---|---|---|
| `DomainPattern.GreedyFrom` | UmbrellaAdBlocker.py:17 | what the backtracking search for the pattern finds at a position is a match of the pattern there |
| `DomainPattern.GreedyLongest` | UmbrellaAdBlocker.py:17 | whenever some match starts at a position, the search finds one there and none ends later |
| `DomainPattern.SearchFrom` | UmbrellaAdBlocker.py:27 | a reported span lies inside the line, at or after the first position tried, and is a match |
| `DomainPattern.Search` | UmbrellaAdBlocker.py:27 | `re.search` reports a span of the line that matches the pattern |
| `DomainPattern.SearchIsFirstMatch` | UmbrellaAdBlocker.py:27 | the search reports nothing exactly when no substring matches, and otherwise the leftmost match, longest at its start |
| `HostsFeed.LineDomain` | UmbrellaAdBlocker.py:26-35 | a line contributes at most its first match, only if it has no `#` and the match is not `localhost.localdomain` |
| `HostsFeed.CommentLineContributesNothing` | UmbrellaAdBlocker.py:26-29 | a line containing `#` contributes nothing even when it holds a domain |
| `HostsFeed.UnmatchedLineContributesNothing` | UmbrellaAdBlocker.py:27-29 | a line without any match contributes nothing |
| `HostsFeed.MatchedLineContribution` | UmbrellaAdBlocker.py:31-35 | given a line's first match, the line contributes exactly that match unless it has `#` or the match is allow-listed |
| `HostsFeed.ContributionsAppend` | UmbrellaAdBlocker.py:25 | the domains of two consecutive blocks of lines are those of the first block followed by those of the second |
| `HostsFeed.ContributionsAreBlockable` | UmbrellaAdBlocker.py:32-35 | every reported domain matches the pattern and is not allow-listed, at most one per line |
| `HostsFeed.GetDomainList` | UmbrellaAdBlocker.py:22-37 | the result is the per-line contributions in line order; its domains all match and none is `localhost.localdomain` |
| `Events.UrlDomain` | UmbrellaAdBlocker.py:47 | a URL the parser accepts is `http://` followed by the domain it returns |
| `Events.CreateEvent` | UmbrellaAdBlocker.py:39-51 | the event blocks `dn`: `dstDomain` is `dn`, `dstUrl` parses back to `dn`, both times are `time`, the other four fields are the constants |
| `Events.BlocksDomainUnique` | UmbrellaAdBlocker.py:42-51 | an event that blocks `dn` at `time` is the one `createEvent` builds |
| `Events.CreateEventInjective` | UmbrellaAdBlocker.py:42-51 | two events of one run are equal exactly when their domains are |
| `Events.CreateEvents` | UmbrellaAdBlocker.py:53-61 | one event per domain, in order, the i-th blocking the i-th domain at `time` |
| `Events.DistinctDomainsDistinctEvents` | UmbrellaAdBlocker.py:53-61 | two events of the list are equal exactly when their domains are |
| `EventFile.WriteEventsToFile` | UmbrellaAdBlocker.py:63-76 | the text is the as-written layout, starts with `[` and a newline, ends with `]` and a newline, and is `[\n]\n` for no events |
| `EventFile.WrittenEntriesLength` | UmbrellaAdBlocker.py:69-73 | the written entries are one character shorter than the intended ones per early copy of the last event (an entry before the last position equal to it); with no early copy they are the intended entries |
| `EventFile.WrittenIsIntendedIff` | UmbrellaAdBlocker.py:70-73 | the written file has a comma after every entry but the last exactly when no earlier event equals the last one |
| `EventFile.DistinctEventsWrittenAsIntended` | UmbrellaAdBlocker.py:70-73 | with pairwise-distinct events only the last entry lacks a comma |
| `EventFile.DistinctDomainsWrittenAsIntended` | UmbrellaAdBlocker.py:70-73 | the events built from pairwise-distinct domains are written with a comma after every entry but the last |
| `EventFile.DuplicateEventLosesComma` | UmbrellaAdBlocker.py:70-71 | a list holding one event twice is written without a comma between the two entries |
| `EventFile.IntendedTextIsJsonArray` | UmbrellaAdBlocker.py:67-74 | the corrected layout is `[`, the tab-indented entries separated by a comma and a newline, then `]`; `[\n]\n` for no events |
| `Submitter.SliceCountIsCeiling` | UmbrellaAdBlocker.py:98 | the number of slices is the ceiling of n / 5000, zero exactly for zero events |
| `Submitter.Backoff` | UmbrellaAdBlocker.py:108-116 | after the outcomes DELAY is 10 plus 5 per 429 reply, and one sleep is requested per success or 429 reply |
| `Submitter.SleepsNondecreasing` | UmbrellaAdBlocker.py:100-116 | every requested sleep is at least 10 s and at most the final DELAY, and no sleep is shorter than an earlier one |
| `Submitter.DelayGrowsBy` | UmbrellaAdBlocker.py:113-116 | later outcomes raise DELAY by 5 per 429 among them and never lower it |
| `Submitter.SliceStep` | UmbrellaAdBlocker.py:101-105 | each slice continues the events where the previous one stopped; all but the last hold 5000, the last 1 to 5000 |
| `Submitter.BackoffStep` | UmbrellaAdBlocker.py:106-121 | one POST changes the sleeps and DELAY only as its outcome says: a success sleeps DELAY, a 429 sleeps DELAY then adds 5, the rest do nothing |
| `Submitter.PostEvents` | UmbrellaAdBlocker.py:96-123 | ceil(n/5000) slices that concatenate to the events, 5000 each but the last which has 1 to 5000; sleeps and DELAY as `Backoff` of the replies; DELAY is 10 plus 5 per 429 |
| `BlockedDomains.FailedRepliesAddNoNames` | UmbrellaAdBlocker.py:146-147 | dropping every non-200 reply and exception leaves the listed names unchanged |
| `BlockedDomains.FailedRepliesAddNoCount` | UmbrellaAdBlocker.py:183-184 | dropping every non-200 reply and exception leaves the count unchanged |
| `BlockedDomains.FailedRepliesKeepCursor` | UmbrellaAdBlocker.py:146-150 | dropping every non-200 reply and exception leaves the cursor unchanged |
| `BlockedDomains.OkNamesAppend` | UmbrellaAdBlocker.py:149-153 | the names of consecutive runs of replies are those of each run, in page order |
| `BlockedDomains.CountOfPageChain` | UmbrellaAdBlocker.py:186-191 | for 200 pages each but the last having a next page, the count is 200 × (pages − 1) + the length of the last page's data |
| `BlockedDomains.FullPagesCount` | UmbrellaAdBlocker.py:188-189 | 200 pages that all have a next page count 200 each |
| `BlockedDomains.CountAgreesWithList` | UmbrellaAdBlocker.py:176-191 | when every page with a next page holds 200 entries, the count equals the number of names the listing collects |
| `BlockedDomains.GetBlockedDomains` | UmbrellaAdBlocker.py:140-161 | the names of the 200 pages consumed, in order; the cursor is the latest 200 page's `next`; it stops right after the first 200 page without a next page, or when the replies run out |
| `BlockedDomains.CountBlockedDomains` | UmbrellaAdBlocker.py:175-199 | the count adds 200 per consumed 200 page with a next page and the data length of the final one; same cursor and stopping rule |
| `Delta.IndexOf` | UmbrellaAdBlocker.py:207 | `list.remove` finds the first occurrence: an index holding x with no x before it |
| `Delta.DeltaDomains` | UmbrellaAdBlocker.py:201-211 | returns the same list object it updated; its new contents are `Delta` of the old contents |
| `Delta.RemoveFirstKeepsUnblocked` | UmbrellaAdBlocker.py:207 | removing a blocked domain leaves the unblocked ones and their order unchanged |
| `Delta.RemoveFirstMultiset` | UmbrellaAdBlocker.py:207 | removing takes exactly one copy of the domain away |
| `Delta.DeltaFromKeepsUnblocked` | UmbrellaAdBlocker.py:205-207 | from any iterator position on, the unblocked domains survive in order |
| `Delta.DeltaFromRemovesOnlyBlocked` | UmbrellaAdBlocker.py:205-207 | from any iterator position on, only blocked domains are removed |
| `Delta.DeltaKeepsUnblocked` | UmbrellaAdBlocker.py:201-211 | only blocked domains are removed, every unblocked one survives with its multiplicity and relative order, and the list never grows |
| `Delta.NothingBlockedNothingRemoved` | UmbrellaAdBlocker.py:205-207 | with an empty blocked list the list is unchanged |
| `Delta.DistinctDeltaFrom` | UmbrellaAdBlocker.py:205-207 | on a list without repetitions, the loop from position i keeps the prefix and skips the element after each removal |
| `Delta.DistinctDelta` | UmbrellaAdBlocker.py:205-207 | on a list without repetitions, a blocked domain is removed and the one right after it survives unexamined |
| `Delta.SecondOfTwoBlockedSurvives` | UmbrellaAdBlocker.py:205-207 | two blocked domains in a row: the result keeps the second, while the difference is empty |
| `Delta.DifferenceExact` | UmbrellaAdBlocker.py:202-203 | the intended result holds exactly the unblocked domains, each as often as in the feed |

## Findings

| source | as written | input that shows it | evidently intended | confidence | as-written member | corrected member |
|---|---|---|---|---|---|---|
| UmbrellaAdBlocker.py:205-207 | `new_dn.remove(dn)` inside `for dn in new_dn`: the list iterator's index moves on while the list shifts left, so the domain after a removed one is never examined | `new_dn = ["ads.example.com", "tracker.test.org"]`, `old_dn` the same: the result is `["tracker.test.org"]` | every domain of `new_dn` that is not in `old_dn`, in order: `[]` | not executed; follows from the list iterator's index semantics | `Delta.SecondOfTwoBlockedSurvives` | `Delta.DifferenceExact` |
| UmbrellaAdBlocker.py:70-73 | the comma is left out for every event EQUAL to `events[-1]`, not only for the last position | two equal events (one domain listed twice in the feed): the file is `[`, two entries with no comma between them, `]`, which is not a JSON array | a comma after every entry but the last | not executed | `EventFile.DuplicateEventLosesComma` | `EventFile.IntendedTextIsJsonArray` |

## Left out

- HTTP: the `requests` calls, sessions, headers, the hosts and customer key of the URLs (the first listing page is stood in for by its path, `BlockedDomains.DomainsUrl`), and status reporting; the replies are inputs (`Submitter.PostOutcome`, `BlockedDomains.Reply`).
- The download of the hosts file and its split into lines: `GetDomainList` takes the lines.
- Python's `re` engine itself: `DomainPattern.Search` is the backtracking result worked out for this one pattern; other patterns are not modelled.
- `datetime.now()`: the timestamp is a parameter of `CreateEvents`.
- `json.dumps` (a parameter of `WriteEventsToFile`), the file write, and reading the file back with `json.load` in `postEvents`: `PostEvents` takes the events list itself, so the write-then-read round trip is not modelled.
- The requested sleeps of the pagination loops (2 s and 1 s after an exception) are not recorded; those of `postEvents` are.
- `print` logging, including the "Added 5000 records" message that names `SLICE_SIZE` for every slice.
- BlockedDomains.GetBlockedDomains, BlockedDomains.CountBlockedDomains: a 200 body missing `data` raises after `URL` was already advanced (when listing, always; when counting, only with a falsy `next`, which ends the loop with that page uncounted); when listing, an entry missing `name` raises after the page's earlier names were appended; `Reply` only expresses well-formed bodies, so these partial steps are not modelled.
- BlockedDomains.GetBlockedDomains and BlockedDomains.CountBlockedDomains: the source retries forever; the model stops when the given replies run out and reports it through the final cursor, so non-termination under a failing upstream is not modelled.
- Submitter.PostEvents: the outcome of a POST depends only on the slice's index; `math.ceil` on a float is modelled as exact integer ceiling (the two agree below 2^53 events).
- `__main__`: the once-per-run composition of the pieces above, with no logic of its own.
