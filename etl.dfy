/**
 * scripts/etl_ufcstats.py: loading parsed events into the three database tables
 * (`fighters`, `fights`, `fighter_stats`). The database is a set of append-only tables that
 * `TRUNCATE` empties; `load_recent_events` truncates once, then inserts event after event,
 * filtering fighters through the ids it has already inserted during the run.
 */
module Etl {
  import opened Common
  import opened Html
  import opened FightStats
  import opened EventList
  import opened EventParser

  /** The contents of the three tables. */
  datatype Tables = Tables(fighters: seq<Fighter>, fights: seq<FightRecord>, stats: seq<StatRow>)

  const EmptyTables := Tables([], [], [])

  // ---------------------------------------------------------------------------
  // fighter frames

  /** `df.drop_duplicates(subset=["fighter_id"])`: the first row of every id, in frame order. */
  function DropDuplicateIds(fs: seq<Fighter>): (r: seq<Fighter>)
    ensures |r| <= |fs|
    decreases |fs|
  {
    if fs == [] then []
    else
      var acc := DropDuplicateIds(fs[..|fs| - 1]);
      var g := fs[|fs| - 1];
      if g.fighterId in IdSet(acc) then acc else acc + [g]
  }

  /** `df[~df["fighter_id"].isin(seen)]`: the rows whose id is not in `seen`, in frame order. */
  function NotSeen(fs: seq<Fighter>, seen: set<string>): (r: seq<Fighter>)
    ensures |r| <= |fs|
    ensures forall g :: g in r <==> g in fs && g.fighterId !in seen
    decreases |fs|
  {
    if fs == [] then []
    else
      var g := fs[|fs| - 1];
      NotSeen(fs[..|fs| - 1], seen) + (if g.fighterId in seen then [] else [g])
  }

  lemma DropDuplicateIdsSnoc(fs: seq<Fighter>, g: Fighter)
    ensures DropDuplicateIds(fs + [g]) ==
      if g.fighterId in IdSet(DropDuplicateIds(fs)) then DropDuplicateIds(fs) else DropDuplicateIds(fs) + [g]
  {
    assert (fs + [g])[..|fs|] == fs;
  }

  lemma NotSeenSnoc(fs: seq<Fighter>, g: Fighter, seen: set<string>)
    ensures NotSeen(fs + [g], seen) == NotSeen(fs, seen) + if g.fighterId in seen then [] else [g]
  {
    assert (fs + [g])[..|fs|] == fs;
  }

  /** Dropping duplicates loses no id. */
  lemma {:induction false} DropDuplicateIdsIds(fs: seq<Fighter>)
    ensures IdSet(DropDuplicateIds(fs)) == IdSet(fs)
    decreases |fs|
  {
    if fs != [] {
      var pre := fs[..|fs| - 1];
      var g := fs[|fs| - 1];
      DropDuplicateIdsIds(pre);
      assert fs == pre + [g];
      IdSetAppend(pre, [g]);
      IdSetAppend(DropDuplicateIds(pre), [g]);
    }
  }

  /** After dropping duplicates no id occurs twice. */
  lemma {:induction false} DropDuplicateIdsUnique(fs: seq<Fighter>)
    ensures UniqueIds(DropDuplicateIds(fs))
    decreases |fs|
  {
    if fs != [] {
      var pre := fs[..|fs| - 1];
      var g := fs[|fs| - 1];
      DropDuplicateIdsUnique(pre);
      var acc := DropDuplicateIds(pre);
      var r := DropDuplicateIds(fs);
      if g.fighterId !in IdSet(acc) {
        forall i, j | 0 <= i < j < |r| ensures r[i].fighterId != r[j].fighterId {
          if j == |acc| {
            assert r[i] in acc;
          }
        }
      }
    }
  }

  /** `g` is the first row with its id: it occurs at some position and no earlier row has its id. */
  predicate IsFirstOfId(fs: seq<Fighter>, g: Fighter) {
    exists i :: 0 <= i < |fs| && fs[i] == g && forall i' :: 0 <= i' < i ==> fs[i'].fighterId != g.fighterId
  }

  /** Dropping duplicates keeps, for every id, the first row that has it. */
  lemma {:induction false} DropDuplicateIdsFirst(fs: seq<Fighter>)
    ensures forall g :: g in DropDuplicateIds(fs) ==> IsFirstOfId(fs, g)
    decreases |fs|
  {
    if fs != [] {
      var pre := fs[..|fs| - 1];
      var g := fs[|fs| - 1];
      DropDuplicateIdsFirst(pre);
      DropDuplicateIdsIds(pre);
      var acc := DropDuplicateIds(pre);
      forall h | h in DropDuplicateIds(fs) ensures IsFirstOfId(fs, h) {
        if h in acc {
          var i :| 0 <= i < |pre| && pre[i] == h && forall i' :: 0 <= i' < i ==> pre[i'].fighterId != h.fighterId;
          assert fs[i] == h;
        } else {
          assert h == g && g.fighterId !in IdSet(pre);
          forall i' | 0 <= i' < |pre| ensures fs[i'].fighterId != g.fighterId {
            assert pre[i'] in pre;
          }
          assert fs[|pre|] == g;
        }
      }
    }
  }

  /** The filter step of the id bookkeeping: the ids that survive are the frame's ids outside `seen`. */
  lemma NotSeenIds(fs: seq<Fighter>, seen: set<string>)
    ensures IdSet(NotSeen(fs, seen)) == IdSet(fs) - seen
  {
  }

  /** Dropping duplicates over two frames in a row is dropping them in the first, then dropping
      them among the rows of the second whose id the first does not have. */
  lemma {:induction false} DropDuplicateIdsAppend(a: seq<Fighter>, b: seq<Fighter>, seen: set<string>)
    requires seen == IdSet(a)
    ensures DropDuplicateIds(a + b) == DropDuplicateIds(a) + DropDuplicateIds(NotSeen(b, seen))
    decreases |b|
  {
    if b == [] {
      assert a + b == a;
    } else {
      var pre, x := b[..|b| - 1], b[|b| - 1];
      assert b == pre + [x];
      DropDuplicateIdsAppend(a, pre, seen);
      DropDuplicateIdsIds(a + pre);
      IdSetAppend(a, pre);
      DropDuplicateIdsAppendStep(a, pre, x, seen);
    }
  }

  /** The step of `DropDuplicateIdsAppend`: one more row at the end of the second frame. */
  lemma {:induction false} DropDuplicateIdsAppendStep(a: seq<Fighter>, pre: seq<Fighter>, x: Fighter, seen: set<string>)
    requires IdSet(DropDuplicateIds(a + pre)) == seen + IdSet(pre)
    requires DropDuplicateIds(a + pre) == DropDuplicateIds(a) + DropDuplicateIds(NotSeen(pre, seen))
    ensures DropDuplicateIds(a + (pre + [x])) == DropDuplicateIds(a) + DropDuplicateIds(NotSeen(pre + [x], seen))
  {
    var acc := DropDuplicateIds(a + pre);
    var known := x.fighterId in IdSet(acc);
    var rest := NotSeen(pre, seen);
    var lhs := DropDuplicateIds(a + (pre + [x]));
    var tail := DropDuplicateIds(NotSeen(pre + [x], seen));
    AppendAssoc(a, pre, x);
    DropDuplicateIdsSnoc(a + pre, x);
    NotSeenSnoc(pre, x, seen);
    if x.fighterId in seen {
      assert rest + [] == rest;
    } else {
      UnseenRowStep(pre, x, seen, known);
    }
    SnocAlgebra(DropDuplicateIds(a), DropDuplicateIds(rest), acc, lhs, tail, x, known, x.fighterId in seen);
  }

  lemma AppendAssoc(p: seq<Fighter>, q: seq<Fighter>, x: Fighter)
    ensures p + (q + [x]) == (p + q) + [x]
  {
  }

  /** The sequence reasoning of the step, on its own. */
  lemma SnocAlgebra(da: seq<Fighter>, dr: seq<Fighter>, acc: seq<Fighter>, lhs: seq<Fighter>, tail: seq<Fighter>,
                    x: Fighter, known: bool, inSeen: bool)
    requires acc == da + dr
    requires lhs == if known then acc else acc + [x]
    requires inSeen ==> known && tail == dr
    requires !inSeen ==> tail == if known then dr else dr + [x]
    ensures lhs == da + tail
  {
    if !known {
      AppendAssoc(da, dr, x);
    }
  }

  /** A row whose id is not in `seen` is kept by the filter, and then dropped as a duplicate
      exactly when an earlier row of the second frame has its id. */
  lemma {:induction false} UnseenRowStep(pre: seq<Fighter>, x: Fighter, seen: set<string>, known: bool)
    requires x.fighterId !in seen
    requires known <==> x.fighterId in seen + IdSet(pre)
    ensures var rest := NotSeen(pre, seen);
      DropDuplicateIds(rest + [x]) == if known then DropDuplicateIds(rest) else DropDuplicateIds(rest) + [x]
  {
    var rest := NotSeen(pre, seen);
    DropDuplicateIdsSnoc(rest, x);
    DropDuplicateIdsIds(rest);
    NotSeenIds(pre, seen);
  }

  // ---------------------------------------------------------------------------
  // the database

  /** `_insert_event_data`: each non-empty frame is appended to its table, the fighters frame
      after dropping duplicate ids. */
  function Insert(t: Tables, fighters: seq<Fighter>, fights: seq<FightRecord>, stats: seq<StatRow>): (r: Tables)
    ensures t.fighters <= r.fighters && t.fights <= r.fights && t.stats <= r.stats
    ensures |r.fighters| <= |t.fighters| + |fighters|
  {
    Tables(t.fighters + DropDuplicateIds(fighters), t.fights + fights, t.stats + stats)
  }

  /** The database behind the engine: three append-only tables, emptied by `TRUNCATE`. */
  class Database {
    var fighters: seq<Fighter>
    var fights: seq<FightRecord>
    var stats: seq<StatRow>
    /** How many times the tables have been truncated. */
    ghost var truncations: nat

    function Contents(): Tables
      reads this
    {
      Tables(fighters, fights, stats)
    }

    /** A database that already holds `initial`. */
    constructor(initial: Tables)
      ensures Contents() == initial && truncations == 0
    {
      fighters, fights, stats := initial.fighters, initial.fights, initial.stats;
      truncations := 0;
    }

    /** `TRUNCATE TABLE fighter_stats, fights, fighters CASCADE`. */
    method Truncate()
      modifies this
      ensures Contents() == EmptyTables && truncations == old(truncations) + 1
    {
      fighters, fights, stats := [], [], [];
      truncations := truncations + 1;
    }

    /** `df.to_sql("fighters", conn, if_exists="append")`. */
    method AppendFighters(rows: seq<Fighter>)
      modifies this
      ensures Contents() == old(Contents()).(fighters := old(fighters) + rows)
      ensures truncations == old(truncations)
    {
      fighters := fighters + rows;
    }

    /** `df.to_sql("fights", conn, if_exists="append")`. */
    method AppendFights(rows: seq<FightRecord>)
      modifies this
      ensures Contents() == old(Contents()).(fights := old(fights) + rows)
      ensures truncations == old(truncations)
    {
      fights := fights + rows;
    }

    /** `df.to_sql("fighter_stats", conn, if_exists="append")`. */
    method AppendStats(rows: seq<StatRow>)
      modifies this
      ensures Contents() == old(Contents()).(stats := old(stats) + rows)
      ensures truncations == old(truncations)
    {
      stats := stats + rows;
    }
  }

  /** `_insert_event_data(engine, df_fighters, df_fights, df_stats)`. */
  method InsertEventData(db: Database, fighters: seq<Fighter>, fights: seq<FightRecord>, stats: seq<StatRow>)
    modifies db
    ensures db.Contents() == Insert(old(db.Contents()), fighters, fights, stats)
    ensures db.truncations == old(db.truncations)
  {
    if fighters != [] {
      db.AppendFighters(DropDuplicateIds(fighters));
    }
    if fights != [] {
      db.AppendFights(fights);
    }
    if stats != [] {
      db.AppendStats(stats);
    }
  }

  // ---------------------------------------------------------------------------
  // the event loop of load_recent_events

  /** An event with no fights or no stats rows (an upcoming or broken event) is not inserted. */
  predicate Skipped(d: EventData) {
    d.fights == [] || d.stats == []
  }

  /** The loop's state: the tables, `seen_fighter_ids`, and the failure that ended the run early. */
  datatype Progress = Progress(tables: Tables, seen: set<string>, failure: Option<Failure>)

  /** One turn of the loop, given what `parse_event` returned for the event. */
  function Step(s: Progress, outcome: Result<EventData, Failure>): (r: Progress)
    requires s.failure.None?
    ensures r.failure.Some? <==> outcome.Err?
    ensures outcome.Err? ==> r.failure == Some(outcome.error) && r.tables == s.tables
    ensures s.tables.fighters <= r.tables.fighters && s.tables.fights <= r.tables.fights && s.tables.stats <= r.tables.stats
    ensures s.seen <= r.seen
  {
    match outcome
    case Err(e) => s.(failure := Some(e))
    case Ok(d) =>
      if Skipped(d) then s
      else
        var unseen := NotSeen(d.fighters, s.seen);
        Progress(Insert(s.tables, unseen, d.fights, d.stats), s.seen + IdSet(unseen), None)
  }

  /** The state after the events with the given outcomes, in order, from truncated tables;
      once an event raises, nothing after it happens. */
  function Load(outcomes: seq<Result<EventData, Failure>>): (r: Progress)
    ensures r.failure.None? <==> AllOk(outcomes)
    decreases |outcomes|
  {
    if outcomes == [] then Progress(EmptyTables, {}, None)
    else
      var s := Load(outcomes[..|outcomes| - 1]);
      if s.failure.Some? then s else Step(s, outcomes[|outcomes| - 1])
  }

  /** No event raised. */
  predicate AllOk(outcomes: seq<Result<EventData, Failure>>)
    decreases |outcomes|
  {
    outcomes == [] || (AllOk(outcomes[..|outcomes| - 1]) && outcomes[|outcomes| - 1].Ok?)
  }

  /** `AllOk` holds exactly when every outcome is a success. */
  lemma {:induction false} AllOkEvery(outcomes: seq<Result<EventData, Failure>>)
    ensures AllOk(outcomes) <==> forall i :: 0 <= i < |outcomes| ==> outcomes[i].Ok?
    decreases |outcomes|
  {
    if outcomes != [] {
      var pre := outcomes[..|outcomes| - 1];
      AllOkEvery(pre);
      assert forall i :: 0 <= i < |pre| ==> pre[i] == outcomes[i];
    }
  }

  /** What `parse_event` returns for each event URL. */
  function Outcomes(urls: seq<string>, eventPages: string -> Result<EventPage, Failure>, join: string -> string,
                    fetch: string -> Result<FightPage, Failure>, parseDate: string -> Option<Date>,
                    today: Date): (r: seq<Result<EventData, Failure>>)
    ensures |r| == |urls|
    ensures forall i :: 0 <= i < |urls| ==> r[i] == EventOf(eventPages(urls[i]), join, fetch, parseDate, today)
  {
    seq(|urls|, i requires 0 <= i < |urls| => EventOf(eventPages(urls[i]), join, fetch, parseDate, today))
  }

  /** `load_recent_events(num_events)`: the tables it leaves and the failure it raises, if any.
      When the listing cannot be fetched it raises before truncating anything. */
  function LoadRecentEvents(before: Tables, listing: Result<ListingPage, Failure>, join: string -> string,
                            eventPages: string -> Result<EventPage, Failure>,
                            fetch: string -> Result<FightPage, Failure>,
                            parseDate: string -> Option<Date>, today: Date, numEvents: int): (r: (Tables, Option<Failure>))
    ensures listing.Err? ==> r == (before, Some(listing.error))
    ensures r.1.None? ==> listing.Ok?
  {
    match CompletedEventUrls(listing, join, Some(numEvents))
    case Err(e) => (before, Some(e))
    case Ok(urls) =>
      var s := Load(Outcomes(urls, eventPages, join, fetch, parseDate, today));
      (s.tables, s.failure)
  }

  /** After a failure the remaining events do not change the state. */
  lemma {:induction false} LoadAfterFailure(outcomes: seq<Result<EventData, Failure>>, i: nat, j: nat)
    requires i <= j <= |outcomes| && Load(outcomes[..i]).failure.Some?
    ensures Load(outcomes[..j]) == Load(outcomes[..i])
    decreases j - i
  {
    if i < j {
      LoadAfterFailure(outcomes, i, j - 1);
      LoadSnoc(outcomes, j - 1);
    }
  }

  /** One more outcome: the state is unchanged after a failure, and otherwise takes one step. */
  lemma LoadSnoc(outcomes: seq<Result<EventData, Failure>>, i: nat)
    requires i < |outcomes|
    ensures var s := Load(outcomes[..i]);
      Load(outcomes[..i + 1]) == if s.failure.Some? then s else Step(s, outcomes[i])
  {
    assert outcomes[..i + 1][..i] == outcomes[..i];
  }

  /** The loop of `load_recent_events`, run against the database. */
  method LoadEvents(db: Database, urls: seq<string>, eventPages: string -> Result<EventPage, Failure>,
                    join: string -> string, fetch: string -> Result<FightPage, Failure>,
                    parseDate: string -> Option<Date>, today: Date) returns (raised: Option<Failure>)
    requires db.Contents() == EmptyTables
    modifies db
    ensures var s := Load(Outcomes(urls, eventPages, join, fetch, parseDate, today));
      db.Contents() == s.tables && raised == s.failure
    ensures db.truncations == old(db.truncations)
  {
    ghost var outcomes := Outcomes(urls, eventPages, join, fetch, parseDate, today);
    var seenFighterIds: set<string> := {};
    for i := 0 to |urls|
      invariant db.Contents() == Load(outcomes[..i]).tables
      invariant seenFighterIds == Load(outcomes[..i]).seen
      invariant Load(outcomes[..i]).failure.None?
      invariant db.truncations == old(db.truncations)
    {
      LoadSnoc(outcomes, i);
      var r := ParseEvent(eventPages(urls[i]), join, fetch, parseDate, today);
      assert r == outcomes[i];
      if r.Err? {
        LoadAfterFailure(outcomes, i + 1, |outcomes|);
        assert outcomes[..|outcomes|] == outcomes;
        return Some(r.error);
      }
      var d := r.value;
      if d.fights == [] || d.stats == [] {
        continue;
      }
      var newFighters: seq<Fighter>;
      if d.fighters != [] {
        newFighters := NotSeen(d.fighters, seenFighterIds);
        seenFighterIds := seenFighterIds + IdSet(newFighters);
      } else {
        newFighters := d.fighters;
        assert NotSeen(d.fighters, seenFighterIds) == [];
      }
      InsertEventData(db, newFighters, d.fights, d.stats);
    }
    assert outcomes[..|urls|] == outcomes;
    raised := None;
  }

  /** `load_recent_events(num_events)` against the database. */
  method LoadRecentEventsInto(db: Database, listing: Result<ListingPage, Failure>, join: string -> string,
                              eventPages: string -> Result<EventPage, Failure>,
                              fetch: string -> Result<FightPage, Failure>,
                              parseDate: string -> Option<Date>, today: Date, numEvents: int)
    returns (raised: Option<Failure>)
    modifies db
    ensures (db.Contents(), raised) ==
      LoadRecentEvents(old(db.Contents()), listing, join, eventPages, fetch, parseDate, today, numEvents)
    ensures db.truncations == old(db.truncations) + (if listing.Ok? then 1 else 0)
  {
    var eventUrls := GetCompletedEventUrls(listing, join, Some(numEvents));
    if eventUrls.Err? {
      return Some(eventUrls.error);
    }
    db.Truncate();
    raised := LoadEvents(db, eventUrls.value, eventPages, join, fetch, parseDate, today);
  }

  /** `load_single_event(event_url)`: parse first (a failure raises before anything is touched),
      then truncate and insert the one event, skipped or not. */
  method LoadSingleEvent(db: Database, page: Result<EventPage, Failure>, join: string -> string,
                         fetch: string -> Result<FightPage, Failure>,
                         parseDate: string -> Option<Date>, today: Date)
    returns (raised: Option<Failure>)
    modifies db
    ensures var r := EventOf(page, join, fetch, parseDate, today);
      && (r.Err? ==> raised == Some(r.error) && db.Contents() == old(db.Contents()) && db.truncations == old(db.truncations))
      && (r.Ok? ==> raised == None && db.truncations == old(db.truncations) + 1
                    && db.Contents() == Insert(EmptyTables, r.value.fighters, r.value.fights, r.value.stats))
  {
    var r := ParseEvent(page, join, fetch, parseDate, today);
    if r.Err? {
      return Some(r.error);
    }
    db.Truncate();
    InsertEventData(db, r.value.fighters, r.value.fights, r.value.stats);
    raised := None;
  }

  // ---------------------------------------------------------------------------
  // what a run leaves in the database

  /** The events that are inserted: those parsed without failure and not skipped, in order. */
  function Accepted(outcomes: seq<Result<EventData, Failure>>): (ds: seq<EventData>)
    ensures |ds| <= |outcomes|
    decreases |outcomes|
  {
    if outcomes == [] then []
    else
      var o := outcomes[|outcomes| - 1];
      Accepted(outcomes[..|outcomes| - 1]) + (if o.Ok? && !Skipped(o.value) then [o.value] else [])
  }

  function AllFighters(ds: seq<EventData>): seq<Fighter>
    decreases |ds|
  {
    if ds == [] then [] else AllFighters(ds[..|ds| - 1]) + ds[|ds| - 1].fighters
  }

  function AllFights(ds: seq<EventData>): seq<FightRecord>
    decreases |ds|
  {
    if ds == [] then [] else AllFights(ds[..|ds| - 1]) + ds[|ds| - 1].fights
  }

  function AllStats(ds: seq<EventData>): seq<StatRow>
    decreases |ds|
  {
    if ds == [] then [] else AllStats(ds[..|ds| - 1]) + ds[|ds| - 1].stats
  }

  /** The tables as one would fill them by hand from the accepted events: every fight and every
      stats row of every event, and each fighter once, from the first event that names it. */
  function Reference(ds: seq<EventData>): Tables {
    Tables(DropDuplicateIds(AllFighters(ds)), AllFights(ds), AllStats(ds))
  }

  /** The index of the first event whose parsing raises, or the number of events. */
  function FirstFailure(outcomes: seq<Result<EventData, Failure>>): (n: nat)
    ensures n <= |outcomes|
    ensures forall i :: 0 <= i < n ==> outcomes[i].Ok?
    ensures n < |outcomes| ==> outcomes[n].Err?
    decreases |outcomes|
  {
    if outcomes == [] || outcomes[0].Err? then 0 else 1 + FirstFailure(outcomes[1..])
  }

  lemma AllOfSnoc(ds: seq<EventData>, d: EventData)
    ensures AllFighters(ds + [d]) == AllFighters(ds) + d.fighters
    ensures AllFights(ds + [d]) == AllFights(ds) + d.fights
    ensures AllStats(ds + [d]) == AllStats(ds) + d.stats
  {
    assert (ds + [d])[..|ds|] == ds;
  }

  /** Inserting the next accepted event into the reference tables of the earlier ones, with the
      seen set being their fighter ids, gives the reference tables of all of them. */
  lemma ReferenceStep(ds: seq<EventData>, d: EventData)
    requires !Skipped(d)
    ensures var ref := Reference(ds);
      Step(Progress(ref, IdSet(ref.fighters), None), Ok(d)) ==
        Progress(Reference(ds + [d]), IdSet(Reference(ds + [d]).fighters), None)
  {
    var all := AllFighters(ds);
    var unseen := NotSeen(d.fighters, IdSet(DropDuplicateIds(all)));
    AllOfSnoc(ds, d);
    DropDuplicateIdsIds(all);
    DropDuplicateIdsAppend(all, d.fighters, IdSet(all));
    IdSetAppend(DropDuplicateIds(all), DropDuplicateIds(unseen));
    DropDuplicateIdsIds(unseen);
  }

  /** Without failures, the loop leaves the reference tables, and the seen set is exactly the
      set of ids in the fighters table. */
  lemma {:induction false} LoadWithoutFailure(outcomes: seq<Result<EventData, Failure>>)
    requires forall i :: 0 <= i < |outcomes| ==> outcomes[i].Ok?
    ensures var ref := Reference(Accepted(outcomes));
      Load(outcomes) == Progress(ref, IdSet(ref.fighters), None)
    decreases |outcomes|
  {
    if outcomes != [] {
      var pre := outcomes[..|outcomes| - 1];
      var d := outcomes[|outcomes| - 1].value;
      LoadWithoutFailure(pre);
      var ds := Accepted(pre);
      if !Skipped(d) {
        assert Accepted(outcomes) == ds + [d];
        ReferenceStep(ds, d);
      } else {
        assert Accepted(outcomes) == ds;
      }
    }
  }

  /** A run ends at the first event that raises, with that event's failure, leaving the tables
      the events before it produced; without a failure it runs to the end. Either way the tables
      are the reference tables of the accepted events before the failure, and the seen set is
      the set of inserted fighter ids. */
  lemma LoadOutcome(outcomes: seq<Result<EventData, Failure>>)
    ensures var n := FirstFailure(outcomes);
      var ref := Reference(Accepted(outcomes[..n]));
      && Load(outcomes).tables == ref
      && Load(outcomes).seen == IdSet(ref.fighters)
      && Load(outcomes).failure == (if n < |outcomes| then Some(outcomes[n].error) else None)
  {
    var n := FirstFailure(outcomes);
    var pre := outcomes[..n];
    assert forall i :: 0 <= i < |pre| ==> pre[i].Ok?;
    LoadWithoutFailure(pre);
    if n < |outcomes| {
      LoadSnoc(outcomes, n);
      LoadAfterFailure(outcomes, n + 1, |outcomes|);
    }
    assert outcomes[..|outcomes|] == outcomes;
  }

  // ---------------------------------------------------------------------------
  // integrity of the tables

  /** What `parse_event` guarantees of an event: its fights name fighters it returns, and each
      stats row belongs to one of its fights. */
  predicate EventConsistent(d: EventData) {
    FightsReferToFighters(d) && forall s :: s in d.stats ==> StatOfSomeFight(d, s)
  }

  /** Every fight names fighters present in the fighters table, no fighter id occurs twice, and
      every stats row belongs to a fight in the fights table, for one of its two fighters. */
  predicate TablesConsistent(t: Tables) {
    var d := EventData(t.fighters, t.fights, t.stats);
    UniqueIds(t.fighters) && EventConsistent(d)
  }

  lemma {:induction false} AllFightersIds(ds: seq<EventData>, k: nat)
    requires k < |ds|
    ensures IdSet(ds[k].fighters) <= IdSet(AllFighters(ds))
    decreases |ds|
  {
    var pre := ds[..|ds| - 1];
    IdSetAppend(AllFighters(pre), ds[|ds| - 1].fighters);
    if k < |pre| {
      AllFightersIds(pre, k);
    }
  }

  /** Appending the tables of consistent events gives consistent tables. */
  lemma {:induction false} ReferenceConsistent(ds: seq<EventData>)
    requires forall k :: 0 <= k < |ds| ==> EventConsistent(ds[k])
    ensures TablesConsistent(Reference(ds))
    decreases |ds|
  {
    DropDuplicateIdsUnique(AllFighters(ds));
    if ds != [] {
      var pre := ds[..|ds| - 1];
      var d := ds[|ds| - 1];
      ReferenceConsistent(pre);
      var t0, t := Reference(pre), Reference(ds);
      DropDuplicateIdsIds(AllFighters(pre));
      DropDuplicateIdsIds(AllFighters(ds));
      IdSetAppend(AllFighters(pre), d.fighters);
      assert EventConsistent(d);
      ConsistentAppend(EventData(t0.fighters, t0.fights, t0.stats), d, EventData(t.fighters, t.fights, t.stats));
    }
  }

  /** Tables made of two consistent parts, holding every fighter id of both, are consistent. */
  lemma ConsistentAppend(d0: EventData, d: EventData, e: EventData)
    requires EventConsistent(d0) && EventConsistent(d)
    requires e.fights == d0.fights + d.fights && e.stats == d0.stats + d.stats
    requires IdSet(d0.fighters) <= IdSet(e.fighters) && IdSet(d.fighters) <= IdSet(e.fighters)
    ensures EventConsistent(e)
  {
    var n := |d0.fights|;
    forall k | 0 <= k < |e.fights|
      ensures e.fights[k].fighter1Id in IdSet(e.fighters) && e.fights[k].fighter2Id in IdSet(e.fighters)
    {
      if k < n {
        assert e.fights[k] == d0.fights[k];
      } else {
        assert e.fights[k] == d.fights[k - n];
      }
    }
    forall s | s in e.stats ensures StatOfSomeFight(e, s) {
      if s in d0.stats {
        assert StatOfSomeFight(d0, s);
        var k :| 0 <= k < n && s.fightId == d0.fights[k].fightId
                 && (s.fighterId == d0.fights[k].fighter1Id || s.fighterId == d0.fights[k].fighter2Id);
        assert e.fights[k] == d0.fights[k];
      } else {
        assert s in d.stats && StatOfSomeFight(d, s);
        var k :| 0 <= k < |d.fights| && s.fightId == d.fights[k].fightId
                 && (s.fighterId == d.fights[k].fighter1Id || s.fighterId == d.fights[k].fighter2Id);
        assert e.fights[n + k] == d.fights[k];
      }
    }
  }

  /** Every event `parse_event` returns is consistent. */
  lemma EventOfConsistent(page: Result<EventPage, Failure>, join: string -> string,
                          fetch: string -> Result<FightPage, Failure>,
                          parseDate: string -> Option<Date>, today: Date)
    ensures EventOf(page, join, fetch, parseDate, today).Ok? ==> EventConsistent(EventOf(page, join, fetch, parseDate, today).value)
  {
    if page.Ok? && page.value.fightTable.Some? && page.value.fightTable.value.body.Some? {
      EventIntegrity(page.value, join, fetch, parseDate, today);
    }
  }

  lemma {:induction false} AcceptedFrom(outcomes: seq<Result<EventData, Failure>>, k: nat)
    requires k < |Accepted(outcomes)|
    ensures exists i :: 0 <= i < |outcomes| && outcomes[i] == Ok(Accepted(outcomes)[k])
    decreases |outcomes|
  {
    var pre := outcomes[..|outcomes| - 1];
    if k < |Accepted(pre)| {
      AcceptedFrom(pre, k);
      var i :| 0 <= i < |pre| && pre[i] == Ok(Accepted(pre)[k]);
      assert outcomes[i] == pre[i];
    }
  }

  /** Every accepted event of consistent outcomes is consistent. */
  lemma AcceptedConsistent(outcomes: seq<Result<EventData, Failure>>)
    requires forall i :: 0 <= i < |outcomes| && outcomes[i].Ok? ==> EventConsistent(outcomes[i].value)
    ensures forall k :: 0 <= k < |Accepted(outcomes)| ==> EventConsistent(Accepted(outcomes)[k])
  {
    forall k | 0 <= k < |Accepted(outcomes)| ensures EventConsistent(Accepted(outcomes)[k]) {
      AcceptedFrom(outcomes, k);
    }
  }

  /** When every event that parses is consistent, so are the tables a run leaves. */
  lemma LoadConsistent(outcomes: seq<Result<EventData, Failure>>)
    requires forall i :: 0 <= i < |outcomes| && outcomes[i].Ok? ==> EventConsistent(outcomes[i].value)
    ensures TablesConsistent(Load(outcomes).tables)
  {
    var pre := outcomes[..FirstFailure(outcomes)];
    forall i | 0 <= i < |pre| && pre[i].Ok? ensures EventConsistent(pre[i].value) {
      assert pre[i] == outcomes[i];
    }
    AcceptedConsistent(pre);
    ReferenceConsistent(Accepted(pre));
    LoadOutcome(outcomes);
  }

  /** `load_recent_events`: a listing that cannot be fetched leaves the tables as they were;
      otherwise at most `num_events` events are loaded, in listing order, up to the first that
      raises, and the tables then hold the accepted events' fights and stats in full, each
      fighter once (from the first event naming it), and nothing refers to a missing row. */
  lemma LoadRecentEventsProperties(before: Tables, listing: Result<ListingPage, Failure>, join: string -> string,
                                   eventPages: string -> Result<EventPage, Failure>,
                                   fetch: string -> Result<FightPage, Failure>,
                                   parseDate: string -> Option<Date>, today: Date, numEvents: int)
    ensures var (t, raised) := LoadRecentEvents(before, listing, join, eventPages, fetch, parseDate, today, numEvents);
      && (listing.Err? ==> t == before && raised == Some(listing.error))
      && (listing.Ok? ==>
            var urls := CompletedEventUrls(listing, join, Some(numEvents)).value;
            var outcomes := Outcomes(urls, eventPages, join, fetch, parseDate, today);
            var n := FirstFailure(outcomes);
            && (numEvents >= 0 ==> |urls| <= numEvents)
            && t == Reference(Accepted(outcomes[..n]))
            && raised == (if n < |urls| then Some(outcomes[n].error) else None)
            && TablesConsistent(t))
  {
    if listing.Ok? {
      CompletedEventUrlsProperties(listing.value, join, Some(numEvents));
      var urls := CompletedEventUrls(listing, join, Some(numEvents)).value;
      var outcomes := Outcomes(urls, eventPages, join, fetch, parseDate, today);
      LoadOutcome(outcomes);
      forall i | 0 <= i < |outcomes| && outcomes[i].Ok? ensures EventConsistent(outcomes[i].value) {
        EventOfConsistent(eventPages(urls[i]), join, fetch, parseDate, today);
      }
      LoadConsistent(outcomes);
    }
  }
}
