# UFCStats scraper and loader, modelled in Dafny

This project models the core of a small pipeline that scrapes fight data from ufcstats.com
and loads it into a relational database:

- `scripts/scrape_ufcstats.py` collects the event URLs of the completed-events listing
  (`get_completed_event_urls`). It reads an event page into fighters, fight records and
  per-fighter stats rows (`parse_event`). It reads the "Totals" table of a fight page
  (`parse_fight_stats`). It also decodes small pieces of text: a clock `M:SS`, an
  `X of Y` count, and the id at the end of a details URL.
- `scripts/etl_ufcstats.py` truncates the three tables (`fighters`, `fights`,
  `fighter_stats`) and then appends event after event (`load_recent_events`,
  `_insert_event_data`, `load_single_event`). A fighter already inserted during the run is
  never inserted again.

Files and modules, in import order:

| file | module | models |
|---|---|---|
| common.dfy | Common | `Option`, `Result` and the failures: a fetch that raises, an `IndexError` |
| text.dfy | Text | the `str` operations the scripts use: `strip`, `split`, `find`/`in`, `lower`, `isdigit`, `int()`, `str()` |
| html.dfy | Html | the parsed pages as values, `find_all(href=re.compile(...))`, `get_text(sep, strip=True)` |
| codecs.dfy | Codecs | `parse_time_to_seconds`, `parse_x_of_y` and the href-to-id idiom |
| event_list.dfy | EventList | `get_completed_event_urls` |
| fight_stats.dfy | FightStats | `parse_fight_stats` |
| event_parser.dfy | EventParser | `parse_event` |
| etl.dfy | Etl | the database as a class of three append-only tables, `_insert_event_data`, `load_recent_events`, `load_single_event` |

The Python is a chain of loops that build lists, dictionaries and sets. Each loop is a
`method` proved equal to a specification function of the input prefix. The
properties the scripts rely on are lemmas about those functions. The database is a `class`
whose methods append to, or empty, its three tables.

Where the scripts touch the outside world, the model takes a parameter instead:

- Fetched pages are `Result` values, or functions from URL to `Result`. A failed fetch is
  the exception `requests` raises.
- `urljoin(UFCSTATS_BASE, ·)` is a function parameter `join`.
- `datetime.strptime(·, "%B %d, %Y")` is a function parameter `parseDate`.
- `datetime.today()` is an input date `today`.

An exception inside `parse_fight_stats` is swallowed by `parse_event`, so those stats rows
are lost. An exception inside `parse_event`, or in fetching the listing, ends
`load_recent_events` with that failure.

Three behaviours of the code are easy to misread, and the model keeps them as written:

- Column mapping: a later header label overwrites an earlier one for the same category
  (`FightStats.ColumnsOfLastMatch`); the first matching label does not win.
- `parse_x_of_y`: the word `of` is matched case-sensitively (`Codecs.ParseXOfYCaseSensitive`).
- A fight whose two fighter links carry the same id is kept. Nothing in the code rejects it.

## Model

| member | source | states |
|---|---|---|
| Text.SplitOnJoin | scripts/scrape_ufcstats.py:63 | `split(":")` loses nothing: joining the pieces with the separator gives the string back |
| Text.SplitOnPiece | scripts/scrape_ufcstats.py:63 | a separator-free piece followed by the separator splits off as exactly one piece |
| Text.SplitOnNone | scripts/scrape_ufcstats.py:63 | a string without the separator splits into itself alone |
| Text.SplitLast | scripts/scrape_ufcstats.py:165 | `s.split(sep)[-1]` is a suffix of `s` with no separator in it, and unless it is all of `s` a separator ends right before it |
| Text.FirstWord | scripts/scrape_ufcstats.py:306 | `split()[0]` of text that starts with a non-blank is its longest whitespace-free prefix |
| Text.ContainsIff | scripts/scrape_ufcstats.py:38 | Python's `p in s` holds exactly when `p` occurs at some position of `s` |
| Text.ParseIntDigits | scripts/scrape_ufcstats.py:193 | `int()` of a digit string is its decimal value |
| Text.ParseIntShow | scripts/scrape_ufcstats.py:64 | `int(str(n)) == n` |
| Text.ShowRoundTrip | scripts/scrape_ufcstats.py:81 | the decimal value of `str(n)` is `n` |
| Html.LinksMatching | scripts/scrape_ufcstats.py:159 | an anchor is kept by `find_all("a", href=re.compile(p))` exactly when its href contains `p` |
| Html.LinksMatchingOne | scripts/scrape_ufcstats.py:159 | a single anchor comes back once when its href contains the pattern, and otherwise not at all |
| Html.LinksMatchingAppend | scripts/scrape_ufcstats.py:159 | `find_all` keeps document order: the anchors kept from two runs of links are those kept from the first followed by those kept from the second |
| Html.GetText | scripts/scrape_ufcstats.py:156 | `get_text(sep, strip=True)` is empty exactly when every text node is blank, and otherwise starts and ends with a non-blank |
| Codecs.ParseTimeMissing | scripts/scrape_ufcstats.py:55-56 | missing or empty clock text gives `None` |
| Codecs.ParseTimePlaceholders | scripts/scrape_ufcstats.py:58-60 | `--` and `0:00`, with any surrounding whitespace, give 0 |
| Codecs.ParseTimeSplit | scripts/scrape_ufcstats.py:62-64 | text that splits at its one colon into two integers gives `minutes * 60 + seconds` |
| Codecs.ParseTimeOneColon | scripts/scrape_ufcstats.py:58-64 | two colon-free integer parts around one colon give `minutes * 60 + seconds`, whitespace beside the colon included |
| Codecs.ParseTimeRoundTrip | scripts/scrape_ufcstats.py:50-66 | the clock `str(m) + ":" + str(s)` reads back as `m * 60 + s` seconds |
| Codecs.ParseTimeOuterWhitespace | scripts/scrape_ufcstats.py:58 | whitespace around the clock text never changes the result |
| Codecs.ParseTimeToSeconds | scripts/scrape_ufcstats.py:50-66 | a number comes back only for present text that is not blank once stripped |
| Codecs.ParseTimeOnlyClocks | scripts/scrape_ufcstats.py:58-66 | a number comes back only for `--`, `0:00`, or text that splits at exactly one colon into two integers; any other text ends in the `except` branch and gives `None` |
| Codecs.ParseTimeGarbage | scripts/scrape_ufcstats.py:62-66 | the malformed clock `garbage` gives `None` |
| Codecs.FirstMatch | scripts/scrape_ufcstats.py:77 | `re.search` finds the leftmost position where `(\d+)\s*of\s*(\d+)` matches, or reports that none does |
| Codecs.ParseXOfY | scripts/scrape_ufcstats.py:69-81 | both numbers are present or neither is, and present ones are never negative |
| Codecs.ParseXOfYMissing | scripts/scrape_ufcstats.py:74-75 | missing or empty text gives `(None, None)` |
| Codecs.ParseXOfYLeftmost | scripts/scrape_ufcstats.py:77-81 | a result comes from a position that matches with exactly those numbers, and no earlier position matches |
| Codecs.ParseXOfYNoMatch | scripts/scrape_ufcstats.py:77-79 | text with no match anywhere gives `(None, None)` |
| Codecs.ParseXOfYRoundTrip | scripts/scrape_ufcstats.py:77-81 | `str(L) + " of " + str(A)` reads back as `(L, A)` |
| Codecs.ParseXOfYCaseSensitive | scripts/scrape_ufcstats.py:77-79 | `str(L) + " OF " + str(A)` gives `(None, None)` |
| Codecs.IdFromUrlSuffix | scripts/scrape_ufcstats.py:165 | `(x + marker + id).split(marker)[-1].strip("/")` is `id` for any slash-free `id` and any `x` |
| Codecs.IdFromUrl | scripts/scrape_ufcstats.py:165 | the id never starts or ends with a slash |
| Codecs.IdFromUrlTrailingSlash | scripts/scrape_ufcstats.py:165 | `(x + marker + id + "/").split(marker)[-1].strip("/")` is `id` when `id` has no slash and no hyphen and the marker holds a hyphen and ends in its only slash |
| EventList.Slice | scripts/scrape_ufcstats.py:43-44 | `urls[:limit]` is a prefix of `urls`, of length `min(limit, len)` for a non-negative limit and `max(len + limit, 0)` for a negative one |
| EventList.CompletedEventUrls | scripts/scrape_ufcstats.py:26-47 | a failed fetch of the listing raises that failure, and a fetched listing gives a list whenever `urljoin` returns for every event href |
| EventList.GetCompletedEventUrls | scripts/scrape_ufcstats.py:26-47 | the listing loop with its membership-checked appends, then the slice, computes `CompletedEventUrls` |
| EventList.CollectedIsFirstSeen | scripts/scrape_ufcstats.py:36-41 | the collected list has no repeats, holds exactly the candidate URLs, and keeps the order in which each first occurs |
| EventList.CandidatesFromEventHrefs | scripts/scrape_ufcstats.py:38-39 | every candidate is the joined href of an anchor whose href contains "event-details" |
| EventList.EventHrefsAreCandidates | scripts/scrape_ufcstats.py:36-41 | every such anchor's joined href is a candidate |
| EventList.CompletedEventUrlsProperties | scripts/scrape_ufcstats.py:26-47 | the result is a repeat-free prefix of the first-seen event URLs, at most `limit` long; without a limit it holds every event anchor's URL |
| FightStats.FirstTotalsFrom | scripts/scrape_ufcstats.py:100-114 | the chosen table has both markers and every required label, and no earlier table qualifies; `None` when none does |
| FightStats.FindTotalsTable | scripts/scrape_ufcstats.py:100-118 | the table-search loop stops at the first totals table, or finds none when no table qualifies |
| FightStats.CategoryOfFirstMatching | scripts/scrape_ufcstats.py:130-142 | the `if`/`elif` chain gives a label the earliest category whose test it passes, and none when it passes no test |
| FightStats.CategoryOf | scripts/scrape_ufcstats.py:130-142 | a label gets a category only when it starts with that category's prefix |
| FightStats.MapColumns | scripts/scrape_ufcstats.py:129-143 | the column-mapping loop computes `ColumnsOf(labels)` |
| FightStats.ColumnsOf | scripts/scrape_ufcstats.py:129-143 | every column it records is the position of one of the labels |
| FightStats.ColumnsOfLastMatch | scripts/scrape_ufcstats.py:129-146 | a category's column is the last label the chain assigns to it; a category is unmapped exactly when no label is assigned to it |
| FightStats.ColumnsDistinct | scripts/scrape_ufcstats.py:130-142 | two categories never share a column, and the strike and takedown columns never carry "%" |
| FightStats.CellText | scripts/scrape_ufcstats.py:149-156 | `get_cell_text` gives `None` exactly when the column or the paragraph index is out of range, and otherwise that paragraph's text |
| FightStats.CountOrZero | scripts/scrape_ufcstats.py:193-197 | a non-zero count comes only from a present cell made of digits |
| FightStats.ControlSeconds | scripts/scrape_ufcstats.py:198 | a control time comes only from a present, non-empty cell |
| FightStats.Duration | scripts/scrape_ufcstats.py:171-177 | a duration comes only with a round and an end time that parses as a clock |
| FightStats.CountOrZeroIsInt | scripts/scrape_ufcstats.py:193 | a digit-only cell reads as `int()` of it, and any other cell reads as 0 |
| FightStats.CountOrZeroShow | scripts/scrape_ufcstats.py:197 | a count written by `str` reads back as itself |
| FightStats.ControlSecondsIsParseTime | scripts/scrape_ufcstats.py:198 | the `if ctrl_text` guard changes nothing: the result is `parse_time_to_seconds(ctrl_text)` |
| FightStats.IsWinner | scripts/scrape_ufcstats.py:200 | the flag is `None` exactly when there is no winner, and otherwise tells whether this fighter is the winner |
| FightStats.DurationValue | scripts/scrape_ufcstats.py:171-177 | with a round `r` and an end time of `t` seconds, the fight lasted `(r - 1) * 300 + t` seconds |
| FightStats.DurationMissing | scripts/scrape_ufcstats.py:171-177 | without a round, or with a time that does not parse, the duration is `None` |
| FightStats.BuildIdOrder | scripts/scrape_ufcstats.py:158-166 | the `id_order` loop computes `IdOrder(links)` |
| FightStats.LinkId | scripts/scrape_ufcstats.py:163-165 | a link yields an id exactly when its stripped href is not blank |
| FightStats.IdOrderSnoc | scripts/scrape_ufcstats.py:162-166 | one more link adds its id at the end of `id_order`, unless its href is blank |
| FightStats.IdOrderMember | scripts/scrape_ufcstats.py:158-166 | an id is in `id_order` exactly when one of the fighter links yields it |
| FightStats.IdOrderAppend | scripts/scrape_ufcstats.py:161-166 | `id_order` keeps link order: the ids of two runs of links are those of the first followed by those of the second |
| FightStats.IndexForId | scripts/scrape_ufcstats.py:168 | the dict comprehension maps an id to its last position in `id_order`, and has no entry for an absent id |
| FightStats.CollectStatRows | scripts/scrape_ufcstats.py:180-218 | the fighter loop computes `StatRows(fids, ...)` |
| FightStats.StatRows | scripts/scrape_ufcstats.py:180-218 | the loop adds at most one row per fighter id it is given |
| FightStats.ParseFightStats | scripts/scrape_ufcstats.py:83-220 | `parse_fight_stats`, statement by statement, computes `FightStatsOf` |
| FightStats.FightStatsOf | scripts/scrape_ufcstats.py:83-220 | a failed fetch raises that failure, and the only other exception is `IndexError` |
| FightStats.StatRowsPair | scripts/scrape_ufcstats.py:180 | the rows for `[f1, f2]` are f1's row, if any, then f2's |
| FightStats.RowForShape | scripts/scrape_ufcstats.py:181-218 | a fighter gets a row exactly when its id is in `id_order`; the row is read at the id's last position and carries the fight id, the winner flag and the duration |
| FightStats.StatRowsShape | scripts/scrape_ufcstats.py:179-220 | one row per fighter whose id is in `id_order`, f1's first, each with the fight id, the winner flag and the shared duration |
| FightStats.FightStatsEmptyOrError | scripts/scrape_ufcstats.py:97-158 | a failed fetch raises; a missing table, an empty body or an unmapped column gives `[]`; an empty totals row raises `IndexError` |
| FightStats.StatsFromCellsRows | scripts/scrape_ufcstats.py:158-220 | the rows built from a non-empty totals row belong to the fight and its two fighters |
| FightStats.FightStatsRows | scripts/scrape_ufcstats.py:83-220 | any rows returned are at most two, f1 before f2, each for f1 or f2, with the given fight id, the fight's duration and the right winner flag |
| FightStats.FightStatsFromLinks | scripts/scrape_ufcstats.py:158-220 | once the first cell of the totals row is reached, f1 gets a row exactly when one of that cell's fighter links yields f1's id, f2 likewise, f1's row first, and no other row is returned |
| EventParser.EventName | scripts/scrape_ufcstats.py:234-235 | the title text, or "Unknown Event" without a title span |
| EventParser.FindEventDate | scripts/scrape_ufcstats.py:237-246 | the date loop computes `DateFrom(texts, parseDate, 0)` |
| EventParser.DateFromFirstMarked | scripts/scrape_ufcstats.py:238-246 | only the first item containing "Date:" is consulted; later items never matter |
| EventParser.DateFromUnmarked | scripts/scrape_ufcstats.py:238-248 | without an item containing "Date:" no date is found |
| EventParser.FirstMarked | scripts/scrape_ufcstats.py:238-246 | the item the date loop stops at contains "Date:" |
| EventParser.EventDateChoice | scripts/scrape_ufcstats.py:237-250 | the event date is the first marked item's date when it parses, and `today` otherwise |
| EventParser.ColumnFromEnd | scripts/scrape_ufcstats.py:304-308 | `cols[-k]` text is present exactly when there are at least `k` columns |
| EventParser.VictoryMethod | scripts/scrape_ufcstats.py:305-306 | the method is the first whitespace-free token, present exactly when the text is non-empty |
| EventParser.RoundEnded | scripts/scrape_ufcstats.py:307-310 | the round is `int(round_text)` exactly when the text is all digits, and otherwise `None` |
| EventParser.WinnerOf | scripts/scrape_ufcstats.py:313-315 | the winner is f1 exactly when the lower-cased first column contains "win", and otherwise nobody |
| EventParser.RowFactsOf | scripts/scrape_ufcstats.py:271-289 | a row is kept exactly when it has cells, a fight-details link and exactly two fighter-details links |
| EventParser.Kept | scripts/scrape_ufcstats.py:271-289 | at most one kept fight per table row |
| EventParser.KeptSnoc | scripts/scrape_ufcstats.py:271-289 | one more row adds its facts at the end, unless it is skipped |
| EventParser.KeptMember | scripts/scrape_ufcstats.py:271-289 | the kept facts are exactly the facts of the rows that pass the three checks |
| EventParser.Upsert | scripts/scrape_ufcstats.py:300-301 | `fighters_dict[id] = f` keeps ids unique and keeps only `f` and the entries with other ids |
| EventParser.UpsertContents | scripts/scrape_ufcstats.py:300-301 | after the upsert the map holds `f`, keeps every entry with another id, and gains exactly `f`'s id |
| EventParser.Assemble | scripts/scrape_ufcstats.py:255-301 | the fighter map built by the row loop never holds an id twice |
| EventParser.AssembleStep | scripts/scrape_ufcstats.py:271-346 | one more row either is skipped or adds its fighters, its fight and its stats |
| EventParser.CollectRows | scripts/scrape_ufcstats.py:271-346 | the row loop computes `Assemble(Kept(rows), ...)` |
| EventParser.ParseEvent | scripts/scrape_ufcstats.py:223-353 | `parse_event`, statement by statement, computes `EventOf` |
| EventParser.EventOf | scripts/scrape_ufcstats.py:223-353 | when `urljoin` returns for every href it is given, `parse_event` raises exactly when the event page cannot be fetched, and raises that failure |
| EventParser.EventWithoutTable | scripts/scrape_ufcstats.py:259-268 | a page without a fights table, or without its body, gives three empty collections |
| EventParser.AssembleFights | scripts/scrape_ufcstats.py:317-332 | exactly one fight record per kept row, in table order |
| EventParser.AssembleIgnoresStats | scripts/scrape_ufcstats.py:334-346 | the fighters and fight records do not depend on what the stats step returns, so a fight page that fails to parse costs only stats rows |
| EventParser.AssembleFighters | scripts/scrape_ufcstats.py:299-301 | one fighter per distinct id among the fights' fighters, each being the last mention of its id |
| EventParser.StatsOfBelong | scripts/scrape_ufcstats.py:334-346 | the stats a fight contributes are rows of that fight, for one of its two fighters, each carrying the fight's duration and the winner flag of its winner |
| EventParser.StatsStepBelongs | scripts/scrape_ufcstats.py:335-344 | the stats step of the row loop only yields rows of the fight it is given |
| EventParser.StatAgreesWithRecord | scripts/scrape_ufcstats.py:317-346 | each stats row a kept row contributes has its fight record's id, one of its two fighters, the duration computed from its round and end time, and the winner flag of its winner |
| EventParser.AssembleStatsAgree | scripts/scrape_ufcstats.py:271-346 | every stats row the row loop gathers agrees in that way with a fight record of the same result |
| EventParser.EventStatsAgree | scripts/scrape_ufcstats.py:223-353 | with a fights table, every stats row `parse_event` returns agrees with one of the fight records it returns |
| EventParser.AssembleReferences | scripts/scrape_ufcstats.py:271-346 | every fight names fighters in the fighter map, and every stats row belongs to a fight, for one of its fighters |
| EventParser.WinnerIsFirstFighter | scripts/scrape_ufcstats.py:313-315 | a fight's winner is its first fighter or nobody, and a winner is set exactly when the first column says "win" |
| EventParser.EventIntegrity | scripts/scrape_ufcstats.py:223-353 | with a fights table: one fight per kept row in order, unique fighter ids covering exactly the fights' fighters, no dangling reference |
| Etl.NotSeen | scripts/etl_ufcstats.py:74-75 | `df[~df.fighter_id.isin(seen)]` keeps exactly the rows whose id is not in `seen` |
| Etl.NotSeenIds | scripts/etl_ufcstats.py:74-77 | the ids that pass the filter are the frame's ids outside `seen` |
| Etl.DropDuplicateIdsIds | scripts/etl_ufcstats.py:12 | `drop_duplicates(subset=["fighter_id"])` loses no id |
| Etl.DropDuplicateIdsUnique | scripts/etl_ufcstats.py:12 | after `drop_duplicates` no id occurs twice |
| Etl.DropDuplicateIdsFirst | scripts/etl_ufcstats.py:12 | `drop_duplicates` keeps the first row of each id |
| Etl.DropDuplicateIdsAppend | scripts/etl_ufcstats.py:12 | deduplicating two frames in a row is deduplicating the first, then the rows of the second whose ids the first lacks |
| Etl.Insert | scripts/etl_ufcstats.py:6-22 | `_insert_event_data` only appends: the old rows of each table stay in front, and at most the given fighters are added |
| Etl.Database.Truncate | scripts/etl_ufcstats.py:52-54 | `TRUNCATE` empties all three tables |
| Etl.Database.AppendFighters | scripts/etl_ufcstats.py:13 | `to_sql(..., if_exists="append")` appends the rows to `fighters` and changes nothing else |
| Etl.Database.AppendFights | scripts/etl_ufcstats.py:17 | the rows are appended to `fights` and nothing else changes |
| Etl.Database.AppendStats | scripts/etl_ufcstats.py:21 | the rows are appended to `fighter_stats` and nothing else changes |
| Etl.InsertEventData | scripts/etl_ufcstats.py:6-22 | `_insert_event_data` appends the deduplicated fighters, the fights and the stats, and never truncates |
| Etl.Outcomes | scripts/etl_ufcstats.py:60-63 | the outcome for each URL is what `parse_event` returns for its page |
| Etl.Step | scripts/etl_ufcstats.py:63-82 | one turn fails exactly when `parse_event` raised, and then leaves the tables alone; otherwise the tables and the seen set only grow |
| Etl.AllOkEvery | scripts/etl_ufcstats.py:60-63 | "no event raised" holds exactly when every outcome is a success |
| Etl.Load | scripts/etl_ufcstats.py:56-82 | the run ends without a failure exactly when no event raises |
| Etl.FirstFailure | scripts/etl_ufcstats.py:60-63 | the index of the first event whose parsing raises: every earlier one parses |
| Etl.LoadSnoc | scripts/etl_ufcstats.py:60-82 | one more event leaves the state alone after a failure, and otherwise takes one loop step |
| Etl.LoadAfterFailure | scripts/etl_ufcstats.py:63 | once an event raises, the later events change nothing |
| Etl.LoadEvents | scripts/etl_ufcstats.py:56-82 | the event loop, run on truncated tables, leaves `Load(outcomes)` in the database and raises the first failure |
| Etl.LoadRecentEvents | scripts/etl_ufcstats.py:43-82 | an unfetchable listing raises its failure and leaves the tables as they were, and a run that raises nothing had its listing fetched |
| Etl.LoadRecentEventsInto | scripts/etl_ufcstats.py:43-82 | `load_recent_events` computes `LoadRecentEvents` and, when `urljoin` returns for every listing href, truncates exactly once when the listing is fetched, never otherwise |
| Etl.LoadSingleEvent | scripts/etl_ufcstats.py:25-40 | a parse failure raises before anything is touched; otherwise the tables are truncated and hold exactly the one event |
| Etl.ReferenceStep | scripts/etl_ufcstats.py:68-82 | inserting the next accepted event into the reference tables of the earlier ones gives the reference tables of all of them |
| Etl.LoadWithoutFailure | scripts/etl_ufcstats.py:56-82 | without failures the run leaves the reference tables, and the seen set is exactly the ids in `fighters` |
| Etl.LoadOutcome | scripts/etl_ufcstats.py:56-82 | a run leaves the reference tables of the accepted events before the first failure, and raises that failure |
| Etl.AcceptedFrom | scripts/etl_ufcstats.py:68-71 | every inserted event is the parsed result of some listed event |
| Etl.ReferenceConsistent | scripts/etl_ufcstats.py:6-22 | appending consistent events gives tables with unique fighter ids and no dangling reference |
| Etl.EventOfConsistent | scripts/etl_ufcstats.py:63 | every event `parse_event` returns is consistent |
| Etl.AcceptedConsistent | scripts/etl_ufcstats.py:68-82 | every inserted event of consistent outcomes is consistent |
| Etl.LoadConsistent | scripts/etl_ufcstats.py:56-82 | when every parsed event is consistent, so are the tables a run leaves |
| Etl.LoadRecentEventsProperties | scripts/etl_ufcstats.py:43-82 | an unfetchable listing leaves the tables as they were; otherwise, when `urljoin` returns throughout, at most `num_events` events load in order up to the first that raises, the fighters table holds each id once, and no row refers to a missing row |

## Left out

- HTTP and HTML parsing (`requests`, BeautifulSoup) are not modelled: pages are values
  that already hold what each lookup returns, and a failed fetch is a `Failure`.
- `urljoin` is the parameter `join`, and `datetime.strptime` is the parameter `parseDate`.
  Their own behaviour is not modelled.
- EventList.CompletedEventUrls, EventParser.EventOf: `join` is total, but `urljoin` raises
  `ValueError` on a malformed bracketed host (an href such as `http://[x/event-details/a`),
  and none of its calls sits inside a `try`. At `scripts/scrape_ufcstats.py:39` that error
  would escape `get_completed_event_urls` and end `load_recent_events` before its TRUNCATE,
  leaving the tables as they were. At lines 282 and 294-295 it would escape `parse_event` on
  a fetched page and end the run like a failed fetch. The model does not produce this error,
  so every contract about these two members, and about `Etl.Outcomes`, `Etl.LoadRecentEvents`,
  `Etl.LoadRecentEventsInto`, `Etl.LoadSingleEvent` and `Etl.LoadRecentEventsProperties`,
  holds only for runs in which `urljoin` returns.
- `datetime.today()` is one input date for a whole run; the script reads the clock once per
  event page that lacks a parsable date.
- Text handling is ASCII: whitespace is the ASCII whitespace that `str.strip`, `str.split`
  and `\s` accept, including 0x1C–0x1F. Digits for `isdigit`, `int()` and `\d` are `0`–`9`,
  and `lower()` changes only `A`–`Z`. Unicode whitespace, digits and case mappings are left out.
- `int()` is modelled without underscores between digits.
- Logging, pandas data frames beyond their rows, and the SQL transaction (`engine.begin()`)
  are left out. A database error during an insert is not modelled.
- The two odds columns of a fight record, always `None`, are not kept.
- `scripts/compute_features.py`, `scripts/compute_matchups.py`, `scripts/predict_upcoming.py`,
  `scripts/train_baseline_model.py`, `scripts/config.py` and `scripts/db.py` are not part of
  this model. They are downstream consumers or configuration.
- The `__main__` entry point of the loader is not part of this model.
- Etl.DropDuplicateIds: its own contract only bounds the length; what it keeps is stated by
  `DropDuplicateIdsIds`, `DropDuplicateIdsUnique` and `DropDuplicateIdsFirst`.
- EventParser.ItemTexts, EventList.Candidates and EventList.Collected: their own contracts
  only bound lengths. Their meaning is stated by `FindEventDate`, `CollectedIsFirstSeen`,
  `CandidatesFromEventHrefs` and `EventHrefsAreCandidates`.
- FightStats.IdOrder: its own contract only bounds the length. Which ids it holds and in
  which order is stated by `IdOrderMember`, `IdOrderAppend` and `IdOrderSnoc`.
- Text.ParseInt: CPython refuses `int()` of a string of more than 4300 digits with
  `ValueError`, and the model reads a digit string of any length. At
  `scripts/scrape_ufcstats.py:310` that error would escape `parse_event` and end the run.
  At lines 81, 193 and 197 it would escape `parse_fight_stats`, and that fight's stats rows
  would be lost. Inside the `try` of line 64 the clock would read as `None`.
