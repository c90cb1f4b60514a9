/**
 * `parse_event` of scripts/scrape_ufcstats.py: read an event-details page into the
 * fighters of the event, one fight record per well-formed row of the fights table,
 * and the stats rows of every fight whose details page could be parsed.
 */
module EventParser {
  import opened Common
  import opened Text
  import opened Html
  import opened Codecs
  import opened FightStats

  /** A calendar date, as `datetime.date` holds it. */
  datatype Date = Date(year: int, month: int, day: int)

  /** An entry of `fighters_dict`. */
  datatype Fighter = Fighter(fighterId: string, name: string)

  /** A row of the `fights` table (the two odds columns, always `None`, are not kept). */
  datatype FightRecord = FightRecord(
    fightId: string,
    eventName: string,
    eventDate: Date,
    weightClass: Option<string>,
    fighter1Id: string,
    fighter2Id: string,
    winnerId: Option<string>,
    victoryMethod: Option<string>,
    roundEnded: Option<int>,
    timeEnded: Option<string>)

  /** The three collections `parse_event` returns as data frames. */
  datatype EventData = EventData(fighters: seq<Fighter>, fights: seq<FightRecord>, stats: seq<StatRow>)

  const NoEventData := EventData([], [], [])

  // ---------------------------------------------------------------------------
  // event name and date

  /** `title_span.get_text(strip=True) if title_span else "Unknown Event"`. */
  function EventName(title: Option<seq<string>>): (name: string)
    ensures title.None? ==> name == "Unknown Event"
    ensures title.Some? ==> name == GetText(title.value, "")
  {
    if title.None? then "Unknown Event" else GetText(title.value, "")
  }

  /** `li.get_text(" ", strip=True)` of every list item. */
  function ItemTexts(items: seq<seq<string>>): (texts: seq<string>)
    ensures |texts| == |items|
  {
    seq(|items|, i requires 0 <= i < |items| => GetText(items[i], " "))
  }

  /** The date an item carrying the marker gives: the stripped text after its last "Date:",
      parsed by `strptime` (the parameter `parseDate`). */
  function MarkedDate(text: string, parseDate: string -> Option<Date>): Option<Date> {
    parseDate(Strip(SplitLast(text, "Date:"), Whitespace))
  }

  /** The first item from `k` on whose text contains "Date:", if any. */
  function FirstMarked(texts: seq<string>, k: nat): (r: Option<nat>)
    requires k <= |texts|
    ensures r.Some? ==> k <= r.value < |texts| && Contains(texts[r.value], "Date:")
    decreases |texts| - k
  {
    if k == |texts| then None
    else if Contains(texts[k], "Date:") then Some(k)
    else FirstMarked(texts, k + 1)
  }

  /** What the date loop finds from item `k` on: the first item whose text contains "Date:"
      decides; `None` when no item has the marker or when its date does not parse. */
  function DateFrom(texts: seq<string>, parseDate: string -> Option<Date>, k: nat): Option<Date>
    requires k <= |texts|
  {
    match FirstMarked(texts, k)
    case None => None
    case Some(m) => MarkedDate(texts[m], parseDate)
  }

  /** The date the event is filed under: the parsed date, or `today` as the fallback. */
  function EventDate(items: seq<seq<string>>, parseDate: string -> Option<Date>, today: Date): Date {
    match DateFrom(ItemTexts(items), parseDate, 0)
    case Some(d) => d
    case None => today
  }

  /** Only the first item with the marker is consulted: the items after it never matter. */
  lemma DateFromFirstMarked(texts: seq<string>, parseDate: string -> Option<Date>, k: nat, m: nat)
    requires k <= m < |texts| && Contains(texts[m], "Date:")
    requires forall j :: k <= j < m ==> !Contains(texts[j], "Date:")
    ensures DateFrom(texts, parseDate, k) == MarkedDate(texts[m], parseDate)
  {
    FirstMarkedIs(texts, k, m);
  }

  lemma {:induction false} FirstMarkedIs(texts: seq<string>, k: nat, m: nat)
    requires k <= m < |texts| && Contains(texts[m], "Date:")
    requires forall j :: k <= j < m ==> !Contains(texts[j], "Date:")
    ensures FirstMarked(texts, k) == Some(m)
    decreases m - k
  {
    if k < m {
      FirstMarkedIs(texts, k + 1, m);
    }
  }

  /** Without any item carrying the marker, the event is filed under `today`. */
  lemma DateFromUnmarked(texts: seq<string>, parseDate: string -> Option<Date>, k: nat)
    requires k <= |texts|
    requires forall j :: k <= j < |texts| ==> !Contains(texts[j], "Date:")
    ensures DateFrom(texts, parseDate, k) == None
  {
    FirstMarkedNone(texts, k);
  }

  lemma {:induction false} FirstMarkedNone(texts: seq<string>, k: nat)
    requires k <= |texts|
    requires forall j :: k <= j < |texts| ==> !Contains(texts[j], "Date:")
    ensures FirstMarked(texts, k) == None
    decreases |texts| - k
  {
    if k < |texts| {
      FirstMarkedNone(texts, k + 1);
    }
  }

  /** The event date: the first marked item's date when it parses, else `today`. */
  lemma EventDateChoice(items: seq<seq<string>>, parseDate: string -> Option<Date>, today: Date)
    ensures var texts := ItemTexts(items);
      && ((forall j :: 0 <= j < |texts| ==> !Contains(texts[j], "Date:")) ==> EventDate(items, parseDate, today) == today)
      && (forall m :: 0 <= m < |texts| && Contains(texts[m], "Date:") && (forall j :: 0 <= j < m ==> !Contains(texts[j], "Date:")) ==>
            EventDate(items, parseDate, today) == if MarkedDate(texts[m], parseDate).Some? then MarkedDate(texts[m], parseDate).value else today)
  {
    var texts := ItemTexts(items);
    if forall j :: 0 <= j < |texts| ==> !Contains(texts[j], "Date:") {
      DateFromUnmarked(texts, parseDate, 0);
    }
    forall m | 0 <= m < |texts| && Contains(texts[m], "Date:") && (forall j :: 0 <= j < m ==> !Contains(texts[j], "Date:"))
      ensures EventDate(items, parseDate, today) == if MarkedDate(texts[m], parseDate).Some? then MarkedDate(texts[m], parseDate).value else today
    {
      DateFromFirstMarked(texts, parseDate, 0, m);
    }
  }

  // ---------------------------------------------------------------------------
  // one row of the fights table

  /** What a kept row contributes. */
  datatype RowFacts = RowFacts(
    fightUrl: string,
    fightId: string,
    f1: Fighter,
    f2: Fighter,
    weightClass: Option<string>,
    victoryMethod: Option<string>,
    roundEnded: Option<int>,
    timeEnded: Option<string>,
    winnerId: Option<string>)

  /** `urljoin(UFCSTATS_BASE, href.strip())` of an anchor. */
  function LinkUrl(l: Link, join: string -> string): string {
    join(Strip(l.href, Whitespace))
  }

  /** A fighter anchor: the id after its last "fighter-details/", and its stripped text. */
  function FighterOf(l: Link, join: string -> string): Fighter {
    Fighter(IdFromUrl(LinkUrl(l, join), FighterMarker), GetText(l.fragments, ""))
  }

  /** The text of the column `back` places from the end, or `None` when there are fewer columns. */
  function ColumnFromEnd(cols: seq<Cell>, back: nat, sep: string): (r: Option<string>)
    requires back > 0
    ensures r.Some? <==> |cols| >= back
    ensures r.Some? ==> r.value == GetText(cols[|cols| - back].fragments, sep)
  {
    if |cols| >= back then Some(GetText(cols[|cols| - back].fragments, sep)) else None
  }

  /** `method_text.split()[0] if method_text else None`: the first whitespace-free token. */
  function VictoryMethod(methodText: Option<string>): (r: Option<string>)
    requires methodText.Some? ==> methodText.value == [] || methodText.value[0] !in Whitespace
    ensures r.Some? <==> methodText.Some? && methodText.value != []
    ensures r.Some? ==> var t := methodText.value; var w := r.value;
      && w != [] && |w| <= |t| && w == t[..|w|]
      && (forall i :: 0 <= i < |w| ==> w[i] !in Whitespace)
      && (|w| == |t| || t[|w|] in Whitespace)
  {
    if methodText.Some? && methodText.value != [] then Some(FirstWord(methodText.value)) else None
  }

  /** `int(round_text) if round_text and round_text.isdigit() else None`. */
  function RoundEnded(roundText: Option<string>): (r: Option<int>)
    ensures r.Some? <==> roundText.Some? && IsDigits(roundText.value)
    ensures r.Some? ==> r == ParseInt(roundText.value) && r.value >= 0
  {
    if roundText.Some? && IsDigits(roundText.value) then
      assert ParseInt(roundText.value) == Some(DigitsValue(roundText.value) as int) by {
        ParseIntDigits(roundText.value);
      }
      Some(DigitsValue(roundText.value))
    else None
  }

  /** `f1_id if "win" in wl_text else None`, where `wl_text` is the lower-cased first column. */
  function WinnerOf(firstCol: Cell, f1Id: string): (r: Option<string>)
    ensures r.Some? <==> Contains(ToLower(GetText(firstCol.fragments, " ")), "win")
    ensures r.Some? ==> r.value == f1Id
  {
    if Contains(ToLower(GetText(firstCol.fragments, " ")), "win") then Some(f1Id) else None
  }

  /** The facts of a row, or `None` for a row that the loop skips: one without cells, without
      a fight-details link, or with other than two fighter-details links. */
  function RowFactsOf(row: Row, join: string -> string): (r: Option<RowFacts>)
    ensures r.Some? <==> row.cells != [] && LinksMatching(row.links, "fight-details") != []
                          && |LinksMatching(row.links, "fighter-details")| == 2
  {
    var cols := row.cells;
    var fightLinks := LinksMatching(row.links, "fight-details");
    var fighterLinks := LinksMatching(row.links, "fighter-details");
    if cols == [] || fightLinks == [] || |fighterLinks| != 2 then None
    else
      var fightUrl := LinkUrl(fightLinks[0], join);
      var f1, f2 := FighterOf(fighterLinks[0], join), FighterOf(fighterLinks[1], join);
      Some(RowFacts(
        fightUrl, IdFromUrl(fightUrl, FightMarker), f1, f2,
        ColumnFromEnd(cols, 4, ""),
        VictoryMethod(ColumnFromEnd(cols, 3, " ")),
        RoundEnded(ColumnFromEnd(cols, 2, "")),
        ColumnFromEnd(cols, 1, ""),
        WinnerOf(cols[0], f1.fighterId)))
  }

  /** The fight record of a kept row. */
  function Record(f: RowFacts, eventName: string, eventDate: Date): FightRecord {
    FightRecord(f.fightId, eventName, eventDate, f.weightClass, f.f1.fighterId, f.f2.fighterId,
      f.winnerId, f.victoryMethod, f.roundEnded, f.timeEnded)
  }

  /** The stats rows of a kept row's fight, or none when `parse_fight_stats` raises. */
  function StatsOf(f: RowFacts, fetch: string -> Result<FightPage, Failure>): seq<StatRow> {
    match FightStatsOf(fetch(f.fightUrl), f.fightId, f.f1.fighterId, f.f2.fighterId, f.winnerId, f.roundEnded, f.timeEnded)
    case Ok(rows) => rows
    case Err(_) => []
  }

  // ---------------------------------------------------------------------------
  // the fighter map

  function IdSet(fs: seq<Fighter>): set<string> {
    set g | g in fs :: g.fighterId
  }

  predicate UniqueIds(fs: seq<Fighter>) {
    forall i, j :: 0 <= i < j < |fs| ==> fs[i].fighterId != fs[j].fighterId
  }

  /** `fighters_dict[f.fighterId] = f`: replaces the entry with that id in place, or appends. */
  function Upsert(fs: seq<Fighter>, f: Fighter): (r: seq<Fighter>)
    requires UniqueIds(fs)
    ensures UniqueIds(r)
    ensures forall g :: g in r ==> g == f || (g in fs && g.fighterId != f.fighterId)
    decreases |fs|
  {
    if fs == [] then [f]
    else if fs[0].fighterId == f.fighterId then [f] + fs[1..]
    else [fs[0]] + Upsert(fs[1..], f)
  }

  /** After `Upsert` the map holds `f`, keeps every entry with another id, and its ids are
      the old ones plus `f`'s. */
  lemma {:induction false} UpsertContents(fs: seq<Fighter>, f: Fighter)
    requires UniqueIds(fs)
    ensures f in Upsert(fs, f)
    ensures forall g :: g in fs && g.fighterId != f.fighterId ==> g in Upsert(fs, f)
    ensures IdSet(Upsert(fs, f)) == IdSet(fs) + {f.fighterId}
    decreases |fs|
  {
    if fs != [] && fs[0].fighterId != f.fighterId {
      UpsertContents(fs[1..], f);
      assert fs == [fs[0]] + fs[1..];
    }
  }

  // ---------------------------------------------------------------------------
  // the row loop

  /** What each row yields, in table order. */
  function FactsOf(rows: seq<Row>, join: string -> string): (r: seq<Option<RowFacts>>)
    ensures |r| == |rows| && forall i :: 0 <= i < |rows| ==> r[i] == RowFactsOf(rows[i], join)
  {
    seq(|rows|, i requires 0 <= i < |rows| => RowFactsOf(rows[i], join))
  }

  /** The facts of the kept rows, in table order. */
  function Kept(rows: seq<Row>, join: string -> string): (kept: seq<RowFacts>)
    ensures |kept| <= |rows|
  {
    Somes(FactsOf(rows, join))
  }

  /** One more row extends the kept facts by that row's facts, unless it is skipped. */
  lemma KeptSnoc(rows: seq<Row>, i: nat, join: string -> string)
    requires i < |rows|
    ensures Kept(rows[..i + 1], join) ==
      Kept(rows[..i], join) + (if RowFactsOf(rows[i], join).Some? then [RowFactsOf(rows[i], join).value] else [])
  {
    var xs := FactsOf(rows[..i + 1], join);
    assert xs[..i] == FactsOf(rows[..i], join);
    assert xs[i] == RowFactsOf(rows[i], join);
  }

  /** The kept facts are exactly the facts of the rows that pass the filter. */
  lemma KeptMember(rows: seq<Row>, join: string -> string, f: RowFacts)
    ensures f in Kept(rows, join) <==> exists i :: 0 <= i < |rows| && RowFactsOf(rows[i], join) == Some(f)
  {
    var xs := FactsOf(rows, join);
    SomesMember(xs, f);
    assert Some(f) in xs <==> exists i :: 0 <= i < |xs| && xs[i] == Some(f);
  }

  /** What the loop has built after the kept rows `kept`: both fighters upserted, the fight
      appended, and the fight's stats rows appended (`statsOf` stands for the stats step). */
  function Assemble(kept: seq<RowFacts>, eventName: string, eventDate: Date,
                    statsOf: RowFacts -> seq<StatRow>): (d: EventData)
    ensures UniqueIds(d.fighters)
    decreases |kept|
  {
    if kept == [] then NoEventData
    else
      var d := Assemble(kept[..|kept| - 1], eventName, eventDate, statsOf);
      var f := kept[|kept| - 1];
      EventData(Upsert(Upsert(d.fighters, f.f1), f.f2),
        d.fights + [Record(f, eventName, eventDate)],
        d.stats + statsOf(f))
  }

  /** `parse_event(event_url)`, given the fetched event page or the failure of the fetch,
      the fetch of fight pages, `strptime` and today's date. `join` is total: the `ValueError`
      that `urljoin` raises on a malformed host is not modelled. */
  function EventOf(page: Result<EventPage, Failure>, join: string -> string,
                   fetch: string -> Result<FightPage, Failure>,
                   parseDate: string -> Option<Date>, today: Date): (r: Result<EventData, Failure>)
    ensures r.Err? <==> page.Err?
    ensures r.Err? ==> r.error == page.error
  {
    match page
    case Err(e) => Err(e)
    case Ok(p) =>
      if p.fightTable.None? || p.fightTable.value.body.None? then Ok(NoEventData)
      else
        Ok(Assemble(Kept(p.fightTable.value.body.value, join), EventName(p.title),
          EventDate(p.listItems, parseDate, today), StatsStep(fetch)))
  }

  /** The date loop of `parse_event`: the first list item whose text contains "Date:" decides. */
  method FindEventDate(items: seq<seq<string>>, parseDate: string -> Option<Date>) returns (eventDate: Option<Date>)
    ensures eventDate == DateFrom(ItemTexts(items), parseDate, 0)
  {
    ghost var texts := ItemTexts(items);
    eventDate := None;
    var k := 0;
    while k < |items|
      invariant 0 <= k <= |items|
      invariant FirstMarked(texts, 0) == FirstMarked(texts, k)
    {
      var text := GetText(items[k], " ");
      assert text == texts[k];
      if Contains(text, "Date:") {
        eventDate := parseDate(Strip(SplitLast(text, "Date:"), Whitespace));
        return;
      }
      k := k + 1;
    }
  }

  /** Going one row further either keeps what was built (a skipped row) or adds that row's fighters,
      fight and stats. */
  lemma AssembleStep(rows: seq<Row>, i: nat, join: string -> string, eventName: string, eventDate: Date,
                     statsOf: RowFacts -> seq<StatRow>)
    requires i < |rows|
    ensures var d0 := Assemble(Kept(rows[..i], join), eventName, eventDate, statsOf);
      Assemble(Kept(rows[..i + 1], join), eventName, eventDate, statsOf) ==
        match RowFactsOf(rows[i], join)
        case None => d0
        case Some(f) => EventData(Upsert(Upsert(d0.fighters, f.f1), f.f2),
                                  d0.fights + [Record(f, eventName, eventDate)], d0.stats + statsOf(f))
  {
    KeptSnoc(rows, i, join);
    AssembleSnoc(Kept(rows[..i], join), RowFactsOf(rows[i], join), eventName, eventDate, statsOf);
  }

  /** Assembling one more kept row, or a skipped one. */
  lemma AssembleSnoc(kept: seq<RowFacts>, o: Option<RowFacts>, eventName: string, eventDate: Date,
                     statsOf: RowFacts -> seq<StatRow>)
    ensures var d0 := Assemble(kept, eventName, eventDate, statsOf);
      Assemble(kept + (if o.Some? then [o.value] else []), eventName, eventDate, statsOf) ==
        match o
        case None => d0
        case Some(f) => EventData(Upsert(Upsert(d0.fighters, f.f1), f.f2),
                                  d0.fights + [Record(f, eventName, eventDate)], d0.stats + statsOf(f))
  {
    if o.Some? {
      var k1 := kept + [o.value];
      assert k1[..|k1| - 1] == kept;
    } else {
      assert kept + [] == kept;
    }
  }

  /** The row loop of `parse_event`: rows without cells, without a fight link, or without exactly
      two fighter links are skipped; every other row upserts both fighters, appends its fight and
      appends the stats of its fight page unless parsing that page raises. */
  method CollectRows(rows: seq<Row>, join: string -> string, fetch: string -> Result<FightPage, Failure>,
                     eventName: string, eventDate: Date) returns (d: EventData)
    ensures d == Assemble(Kept(rows, join), eventName, eventDate, StatsStep(fetch))
  {
    var fighters: seq<Fighter> := [];
    var fights: seq<FightRecord> := [];
    var stats: seq<StatRow> := [];
    for i := 0 to |rows|
      invariant EventData(fighters, fights, stats) == Assemble(Kept(rows[..i], join), eventName, eventDate, StatsStep(fetch))
    {
      AssembleStep(rows, i, join, eventName, eventDate, StatsStep(fetch));
      var row := rows[i];
      var cols := row.cells;
      if cols == [] {
        continue;
      }
      var fightLinks := LinksMatching(row.links, "fight-details");
      if fightLinks == [] {
        continue;
      }
      var fightUrl := LinkUrl(fightLinks[0], join);
      var fightId := IdFromUrl(fightUrl, FightMarker);
      var fighterLinks := LinksMatching(row.links, "fighter-details");
      if |fighterLinks| != 2 {
        continue;
      }
      var f1, f2 := FighterOf(fighterLinks[0], join), FighterOf(fighterLinks[1], join);
      fighters := Upsert(fighters, f1);
      fighters := Upsert(fighters, f2);
      var weightClass := ColumnFromEnd(cols, 4, "");
      var victoryMethod := VictoryMethod(ColumnFromEnd(cols, 3, " "));
      var roundEnded := RoundEnded(ColumnFromEnd(cols, 2, ""));
      var timeEnded := ColumnFromEnd(cols, 1, "");
      var winnerId := WinnerOf(cols[0], f1.fighterId);
      var facts := RowFacts(fightUrl, fightId, f1, f2, weightClass, victoryMethod, roundEnded, timeEnded, winnerId);
      assert RowFactsOf(row, join) == Some(facts);
      fights := fights + [Record(facts, eventName, eventDate)];
      var fightStats := FightStatsOf(fetch(fightUrl), fightId, f1.fighterId, f2.fighterId, winnerId, roundEnded, timeEnded);
      if fightStats.Ok? {
        stats := stats + fightStats.value;
      }
      assert StatsStep(fetch)(facts) == StatsOf(facts, fetch);
    }
    assert rows[..|rows|] == rows;
    d := EventData(fighters, fights, stats);
  }

  /** `parse_event`: the event name, the date loop with `today` as the fallback, and the row loop
      when the page has a fights table with a body. */
  method ParseEvent(page: Result<EventPage, Failure>, join: string -> string,
                    fetch: string -> Result<FightPage, Failure>,
                    parseDate: string -> Option<Date>, today: Date)
    returns (r: Result<EventData, Failure>)
    ensures r == EventOf(page, join, fetch, parseDate, today)
  {
    if page.Err? {
      return Err(page.error);
    }
    var p := page.value;
    var eventName := EventName(p.title);
    var eventDate := FindEventDate(p.listItems, parseDate);
    if eventDate.None? {
      eventDate := Some(today);
    }
    if p.fightTable.None? || p.fightTable.value.body.None? {
      return Ok(NoEventData);
    }
    var d := CollectRows(p.fightTable.value.body.value, join, fetch, eventName, eventDate.value);
    return Ok(d);
  }

  // ---------------------------------------------------------------------------
  // what an event yields

  /** A missing fights table or a table without a body gives three empty collections. */
  lemma EventWithoutTable(p: EventPage, join: string -> string, fetch: string -> Result<FightPage, Failure>,
                          parseDate: string -> Option<Date>, today: Date)
    requires p.fightTable.None? || p.fightTable.value.body.None?
    ensures EventOf(Ok(p), join, fetch, parseDate, today) == Ok(EventData([], [], []))
  {
  }

  /** Exactly one fight record per kept row, in table order, whatever happens to the stats. */
  lemma {:induction false} AssembleFights(kept: seq<RowFacts>, eventName: string, eventDate: Date,
                                          statsOf: RowFacts -> seq<StatRow>)
    ensures var d := Assemble(kept, eventName, eventDate, statsOf);
      |d.fights| == |kept| && forall k :: 0 <= k < |kept| ==> d.fights[k] == Record(kept[k], eventName, eventDate)
    decreases |kept|
  {
    if kept != [] {
      AssembleFights(kept[..|kept| - 1], eventName, eventDate, statsOf);
    }
  }

  /** The fighters and the fights do not depend on the fight pages at all: a stats step
      that raises only loses that fight's stats rows. */
  lemma {:induction false} AssembleIgnoresStats(kept: seq<RowFacts>, eventName: string, eventDate: Date,
                                               statsOf1: RowFacts -> seq<StatRow>,
                                               statsOf2: RowFacts -> seq<StatRow>)
    ensures Assemble(kept, eventName, eventDate, statsOf1).fighters == Assemble(kept, eventName, eventDate, statsOf2).fighters
    ensures Assemble(kept, eventName, eventDate, statsOf1).fights == Assemble(kept, eventName, eventDate, statsOf2).fights
    decreases |kept|
  {
    if kept != [] {
      AssembleIgnoresStats(kept[..|kept| - 1], eventName, eventDate, statsOf1, statsOf2);
    }
  }

  /** The ids of a concatenation are the ids of its parts. */
  lemma IdSetAppend(a: seq<Fighter>, b: seq<Fighter>)
    ensures IdSet(a + b) == IdSet(a) + IdSet(b)
  {
    assert forall g :: g in a + b <==> g in a || g in b;
  }

  /** The two fighters of each kept row, f1 before f2, in table order. */
  function Mentions(kept: seq<RowFacts>): (ms: seq<Fighter>)
    ensures |ms| == 2 * |kept|
    decreases |kept|
  {
    if kept == [] then [] else Mentions(kept[..|kept| - 1]) + [kept[|kept| - 1].f1, kept[|kept| - 1].f2]
  }

  /** `g` is the last mention of its id: it occurs at some position and no later mention has its id. */
  predicate IsLastMention(ms: seq<Fighter>, g: Fighter) {
    exists j :: 0 <= j < |ms| && ms[j] == g && forall j' :: j < j' < |ms| ==> ms[j'].fighterId != g.fighterId
  }

  /** Mentions of other ids after the last one do not change that it is the last. */
  lemma LastMentionExtend(ms: seq<Fighter>, tail: seq<Fighter>, g: Fighter)
    requires IsLastMention(ms, g)
    requires forall t :: t in tail ==> t.fighterId != g.fighterId
    ensures IsLastMention(ms + tail, g)
  {
    var j :| 0 <= j < |ms| && ms[j] == g && forall j' :: j < j' < |ms| ==> ms[j'].fighterId != g.fighterId;
    var all := ms + tail;
    assert all[j] == g;
    forall j' | j < j' < |all| ensures all[j'].fighterId != g.fighterId {
      if j' >= |ms| {
        assert all[j'] == tail[j' - |ms|];
      }
    }
  }

  /** The fighter map: one entry per distinct id among the mentions, and each entry is the
      LAST mention of its id (the name seen last wins). */
  lemma {:induction false} AssembleFighters(kept: seq<RowFacts>, eventName: string, eventDate: Date,
                                            statsOf: RowFacts -> seq<StatRow>)
    ensures var fs, ms := Assemble(kept, eventName, eventDate, statsOf).fighters, Mentions(kept);
      && UniqueIds(fs)
      && IdSet(fs) == IdSet(ms)
      && (forall g :: g in fs ==> IsLastMention(ms, g))
    decreases |kept|
  {
    if kept != [] {
      var pre := kept[..|kept| - 1];
      var f := kept[|kept| - 1];
      AssembleFighters(pre, eventName, eventDate, statsOf);
      var fs0, ms0 := Assemble(pre, eventName, eventDate, statsOf).fighters, Mentions(pre);
      assert Assemble(kept, eventName, eventDate, statsOf).fighters == Upsert(Upsert(fs0, f.f1), f.f2);
      assert Mentions(kept) == ms0 + [f.f1, f.f2];
      UpsertPair(fs0, ms0, f.f1, f.f2);
    }
  }

  /** Upserting the two fighters of one more row keeps the map one entry per mentioned id,
      each entry the last mention of its id. */
  lemma UpsertPair(fs0: seq<Fighter>, ms0: seq<Fighter>, a: Fighter, b: Fighter)
    requires UniqueIds(fs0) && IdSet(fs0) == IdSet(ms0)
    requires forall g :: g in fs0 ==> IsLastMention(ms0, g)
    ensures var fs, ms := Upsert(Upsert(fs0, a), b), ms0 + [a, b];
      && UniqueIds(fs)
      && IdSet(fs) == IdSet(ms)
      && (forall g :: g in fs ==> IsLastMention(ms, g))
  {
    var fs, ms := Upsert(Upsert(fs0, a), b), ms0 + [a, b];
    var n := |ms0|;
    UpsertContents(fs0, a);
    UpsertContents(Upsert(fs0, a), b);
    IdSetAppend(ms0, [a, b]);
    forall g | g in fs ensures IsLastMention(ms, g) {
      if g == b {
        assert ms[n + 1] == g;
      } else if g == a {
        assert g.fighterId != b.fighterId;
        assert ms[n] == g;
      } else {
        assert g in fs0 && g.fighterId != a.fighterId && g.fighterId != b.fighterId;
        LastMentionExtend(ms0, [a, b], g);
      }
    }
  }


  /** Stats rows that all belong to the fight `f`, each for one of its two fighters. */
  predicate RowsBelong(f: RowFacts, rows: seq<StatRow>) {
    forall s :: s in rows ==> s.fightId == f.fightId && (s.fighterId == f.f1.fighterId || s.fighterId == f.f2.fighterId)
  }

  /** A stats step that only returns rows of the fight it was given. */
  ghost predicate StatsBelong(statsOf: RowFacts -> seq<StatRow>) {
    forall f :: RowsBelong(f, statsOf(f))
  }

  /** The stats step of the event loop: `parse_fight_stats` on the fight page, with a
      raised exception swallowed. */
  function StatsStep(fetch: string -> Result<FightPage, Failure>): RowFacts -> seq<StatRow> {
    f => StatsOf(f, fetch)
  }

  /** `parse_fight_stats`, as the event loop calls it, is such a stats step. */
  lemma StatsStepBelongs(fetch: string -> Result<FightPage, Failure>)
    ensures StatsBelong(StatsStep(fetch))
  {
    forall f: RowFacts ensures RowsBelong(f, StatsStep(fetch)(f)) {
      StatsOfBelong(f, fetch);
    }
  }

  /** The stats rows of one fight: rows of that fight, at most one per fighter, f1's first,
      all with the fight's duration and the winner flag of their fighter. */
  lemma StatsOfBelong(f: RowFacts, fetch: string -> Result<FightPage, Failure>)
    ensures RowsBelong(f, StatsOf(f, fetch))
    ensures RowsOfFight(StatsOf(f, fetch), f.fightId, f.f1.fighterId, f.f2.fighterId, f.winnerId,
                        Duration(f.roundEnded, f.timeEnded))
  {
    var r := FightStatsOf(fetch(f.fightUrl), f.fightId, f.f1.fighterId, f.f2.fighterId, f.winnerId, f.roundEnded, f.timeEnded);
    FightStatsRows(fetch(f.fightUrl), f.fightId, f.f1.fighterId, f.f2.fighterId, f.winnerId, f.roundEnded, f.timeEnded);
    forall s | s in StatsOf(f, fetch)
      ensures s.fightId == f.fightId && (s.fighterId == f.f1.fighterId || s.fighterId == f.f2.fighterId)
    {
      var k :| 0 <= k < |r.value| && r.value[k] == s;
    }
  }

  /** Every stats row comes from the stats step of some kept row. */
  lemma {:induction false} AssembleStatsFrom(kept: seq<RowFacts>, eventName: string, eventDate: Date,
                                             statsOf: RowFacts -> seq<StatRow>)
    ensures forall s :: s in Assemble(kept, eventName, eventDate, statsOf).stats ==>
              exists k :: 0 <= k < |kept| && s in statsOf(kept[k])
    decreases |kept|
  {
    if kept != [] {
      var pre := kept[..|kept| - 1];
      AssembleStatsFrom(pre, eventName, eventDate, statsOf);
      forall s | s in Assemble(kept, eventName, eventDate, statsOf).stats
        ensures exists k :: 0 <= k < |kept| && s in statsOf(kept[k])
      {
        if s in Assemble(pre, eventName, eventDate, statsOf).stats {
          var k :| 0 <= k < |pre| && s in statsOf(pre[k]);
          assert pre[k] == kept[k];
        } else {
          assert s in statsOf(kept[|kept| - 1]);
        }
      }
    }
  }

  /** The stats row `s` agrees with some fight of `d`: same fight id, one of its two fighters,
      the duration its round and end time give, and the winner flag its winner gives (so `None`
      for both fighters of a fight without a winner). */
  predicate StatAgreesWithFight(d: EventData, s: StatRow) {
    exists k :: 0 <= k < |d.fights| && s.fightId == d.fights[k].fightId
                && (s.fighterId == d.fights[k].fighter1Id || s.fighterId == d.fights[k].fighter2Id)
                && s.timeFoughtSeconds == Duration(d.fights[k].roundEnded, d.fights[k].timeEnded)
                && s.isWinner == IsWinner(s.fighterId, d.fights[k].winnerId)
  }

  /** Every stats row of `d` agrees with some fight of `d`. */
  predicate StatsAgree(d: EventData) {
    forall s :: s in d.stats ==> StatAgreesWithFight(d, s)
  }

  /** A stats row of a kept row's fight agrees with that row's fight record. */
  lemma StatAgreesWithRecord(f: RowFacts, fetch: string -> Result<FightPage, Failure>, s: StatRow,
                             eventName: string, eventDate: Date)
    requires s in StatsOf(f, fetch)
    ensures var rec := Record(f, eventName, eventDate);
      && s.fightId == rec.fightId
      && (s.fighterId == rec.fighter1Id || s.fighterId == rec.fighter2Id)
      && s.timeFoughtSeconds == Duration(rec.roundEnded, rec.timeEnded)
      && s.isWinner == IsWinner(s.fighterId, rec.winnerId)
  {
    StatsOfBelong(f, fetch);
    var rows := StatsOf(f, fetch);
    var j :| 0 <= j < |rows| && rows[j] == s;
  }

  /** Every stats row the row loop collects agrees with the fight record of its fight. */
  lemma AssembleStatsAgree(kept: seq<RowFacts>, eventName: string, eventDate: Date,
                           fetch: string -> Result<FightPage, Failure>)
    ensures StatsAgree(Assemble(kept, eventName, eventDate, StatsStep(fetch)))
  {
    var d := Assemble(kept, eventName, eventDate, StatsStep(fetch));
    AssembleFights(kept, eventName, eventDate, StatsStep(fetch));
    AssembleStatsFrom(kept, eventName, eventDate, StatsStep(fetch));
    forall s | s in d.stats ensures StatAgreesWithFight(d, s) {
      var k :| 0 <= k < |kept| && s in StatsStep(fetch)(kept[k]);
      StatAgreesWithRecord(kept[k], fetch, s, eventName, eventDate);
      assert d.fights[k] == Record(kept[k], eventName, eventDate);
    }
  }

  /** Every stats row of a parsed event carries the duration and winner flag of its fight
      record: the two rows of a fight share its `time_fought_seconds`, and a fight whose first
      column does not say "win" gives both rows a missing `is_winner`. */
  lemma EventStatsAgree(p: EventPage, join: string -> string, fetch: string -> Result<FightPage, Failure>,
                        parseDate: string -> Option<Date>, today: Date)
    requires p.fightTable.Some? && p.fightTable.value.body.Some?
    ensures EventOf(Ok(p), join, fetch, parseDate, today).Ok?
    ensures StatsAgree(EventOf(Ok(p), join, fetch, parseDate, today).value)
  {
    var kept := Kept(p.fightTable.value.body.value, join);
    var name, date := EventName(p.title), EventDate(p.listItems, parseDate, today);
    var d := Assemble(kept, name, date, StatsStep(fetch));
    assert EventOf(Ok(p), join, fetch, parseDate, today) == Ok(d);
    AssembleStatsAgree(kept, name, date, fetch);
  }

  /** Every fight names fighters that are in the fighter map. */
  predicate FightsReferToFighters(d: EventData) {
    forall k :: 0 <= k < |d.fights| ==> d.fights[k].fighter1Id in IdSet(d.fighters) && d.fights[k].fighter2Id in IdSet(d.fighters)
  }

  /** The stats row `s` belongs to some fight of `d`, for one of its two fighters. */
  predicate StatOfSomeFight(d: EventData, s: StatRow) {
    exists k :: 0 <= k < |d.fights| && s.fightId == d.fights[k].fightId
                && (s.fighterId == d.fights[k].fighter1Id || s.fighterId == d.fights[k].fighter2Id)
  }

  /** Every fight names fighters that are in the fighter map, and every stats row belongs to
      one of the fights, for one of its two fighters. */
  lemma {:induction false} AssembleReferences(kept: seq<RowFacts>, eventName: string, eventDate: Date,
                                              statsOf: RowFacts -> seq<StatRow>)
    requires StatsBelong(statsOf)
    ensures var d := Assemble(kept, eventName, eventDate, statsOf);
      FightsReferToFighters(d) && forall s :: s in d.stats ==> StatOfSomeFight(d, s)
    decreases |kept|
  {
    if kept != [] {
      var pre := kept[..|kept| - 1];
      var f := kept[|kept| - 1];
      AssembleReferences(pre, eventName, eventDate, statsOf);
      var d0 := Assemble(pre, eventName, eventDate, statsOf);
      var d := Assemble(kept, eventName, eventDate, statsOf);
      var n := |d0.fights|;
      UpsertContents(d0.fighters, f.f1);
      UpsertContents(Upsert(d0.fighters, f.f1), f.f2);
      assert IdSet(d.fighters) == IdSet(d0.fighters) + {f.f1.fighterId, f.f2.fighterId};
      assert d.fights == d0.fights + [Record(f, eventName, eventDate)];
      forall k | 0 <= k < |d.fights|
        ensures d.fights[k].fighter1Id in IdSet(d.fighters) && d.fights[k].fighter2Id in IdSet(d.fighters)
      {
        if k < n {
          assert d.fights[k] == d0.fights[k];
        }
      }
      forall s | s in d.stats ensures StatOfSomeFight(d, s) {
        if s in d0.stats {
          assert StatOfSomeFight(d0, s);
          var k :| 0 <= k < |d0.fights| && s.fightId == d0.fights[k].fightId
                   && (s.fighterId == d0.fights[k].fighter1Id || s.fighterId == d0.fights[k].fighter2Id);
          assert d.fights[k] == d0.fights[k];
        } else {
          assert s in statsOf(f);
          assert RowsBelong(f, statsOf(f));
          assert d.fights[n] == Record(f, eventName, eventDate);
        }
      }
    }
  }

  /** Each fight's winner is either its first fighter or nobody. */
  lemma WinnerIsFirstFighter(row: Row, join: string -> string)
    requires RowFactsOf(row, join).Some?
    ensures var f := RowFactsOf(row, join).value;
      (f.winnerId.Some? ==> f.winnerId.value == f.f1.fighterId)
      && (f.winnerId.Some? <==> Contains(ToLower(GetText(row.cells[0].fragments, " ")), "win"))
  {
  }

  /** What `parse_event` returns for a page with a fights table: one fight per kept row in table
      order, a fighter map without repeated ids covering exactly the fighters those fights name,
      and stats rows that each belong to one of the fights. */
  lemma EventIntegrity(p: EventPage, join: string -> string, fetch: string -> Result<FightPage, Failure>,
                       parseDate: string -> Option<Date>, today: Date)
    requires p.fightTable.Some? && p.fightTable.value.body.Some?
    ensures var kept := Kept(p.fightTable.value.body.value, join);
      EventOf(Ok(p), join, fetch, parseDate, today).Ok?
      && var d := EventOf(Ok(p), join, fetch, parseDate, today).value;
      && |d.fights| == |kept|
      && (forall k :: 0 <= k < |kept| ==> d.fights[k].fightId == kept[k].fightId)
      && UniqueIds(d.fighters)
      && IdSet(d.fighters) == IdSet(Mentions(kept))
      && FightsReferToFighters(d)
      && (forall s :: s in d.stats ==> StatOfSomeFight(d, s))
  {
    var kept := Kept(p.fightTable.value.body.value, join);
    var name, date := EventName(p.title), EventDate(p.listItems, parseDate, today);
    AssembleFights(kept, name, date, StatsStep(fetch));
    AssembleFighters(kept, name, date, StatsStep(fetch));
    StatsStepBelongs(fetch);
    AssembleReferences(kept, name, date, StatsStep(fetch));
  }
}
