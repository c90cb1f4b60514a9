/**
 * `parse_fight_stats` of scripts/scrape_ufcstats.py: find the "Totals" table of a
 * fight-details page, map its columns to the six stat categories, and build one
 * stats row per fighter of the fight that the table lists.
 */
module FightStats {
  import opened Common
  import opened Text
  import opened Html
  import opened Codecs

  // ---------------------------------------------------------------------------
  // choosing the totals table

  /** The substrings every header of the totals table must show somewhere. */
  const Required: seq<string> := ["fighter", "kd", "sig. str.", "total str.", "td", "sub. att", "ctrl"]

  /** `[c.get_text(" ", strip=True).lower() for c in header_cells]`. */
  function Labels(head: seq<Cell>): seq<string> {
    seq(|head|, i requires 0 <= i < |head| => ToLower(GetText(head[i].fragments, " ")))
  }

  /** `all(any(req in lab for lab in labels) for req in required)`. */
  predicate HasRequired(labels: seq<string>) {
    forall r :: 0 <= r < |Required| ==> exists k :: 0 <= k < |labels| && Contains(labels[k], Required[r])
  }

  /** A table with both the head and the body marker whose labels show every required substring. */
  predicate IsTotalsTable(t: StatsTable) {
    t.head.Some? && t.body.Some? && HasRequired(Labels(t.head.value))
  }

  /** The first totals table at or after position `k`. */
  function FirstTotalsFrom(tables: seq<StatsTable>, k: nat): (r: Option<nat>)
    requires k <= |tables|
    ensures r.Some? ==> k <= r.value < |tables| && IsTotalsTable(tables[r.value])
    ensures r.Some? ==> forall j :: k <= j < r.value ==> !IsTotalsTable(tables[j])
    ensures r.None? ==> forall j :: k <= j < |tables| ==> !IsTotalsTable(tables[j])
    decreases |tables| - k
  {
    if k == |tables| then None
    else if IsTotalsTable(tables[k]) then Some(k)
    else FirstTotalsFrom(tables, k + 1)
  }

  /** The table the search loop stops at: the first totals table of the page. */
  function FirstTotals(tables: seq<StatsTable>): Option<nat> {
    FirstTotalsFrom(tables, 0)
  }

  /** The table-search loop, which skips tables missing a marker and stops at the first match. */
  method FindTotalsTable(tables: seq<StatsTable>) returns (found: Option<nat>)
    ensures found == FirstTotals(tables)
    ensures found.Some? ==> found.value < |tables| && IsTotalsTable(tables[found.value])
    ensures found.Some? ==> forall j :: 0 <= j < found.value ==> !IsTotalsTable(tables[j])
    ensures found.None? ==> forall j :: 0 <= j < |tables| ==> !IsTotalsTable(tables[j])
  {
    found := None;
    var i := 0;
    while i < |tables|
      invariant 0 <= i <= |tables|
      invariant forall j :: 0 <= j < i ==> !IsTotalsTable(tables[j])
    {
      var tbl := tables[i];
      if tbl.head.None? || tbl.body.None? {
        i := i + 1;
        continue;
      }
      var labels := Labels(tbl.head.value);
      if HasRequired(labels) {
        found := Some(i);
        break;
      }
      i := i + 1;
    }
  }

  // ---------------------------------------------------------------------------
  // mapping the columns

  /** The six stat columns the rows are built from. */
  datatype Category = Kd | Sig | Tot | Td | Sub | Ctrl

  const AllCategories: set<Category> := {Kd, Sig, Tot, Td, Sub, Ctrl}

  /** The label prefix that selects each category. */
  function Prefix(c: Category): string {
    match c
    case Kd => "kd"
    case Sig => "sig. str."
    case Tot => "total str."
    case Td => "td"
    case Sub => "sub. att"
    case Ctrl => "ctrl"
  }

  /** The position of each category in the `if`/`elif` chain. */
  function Rank(c: Category): nat {
    match c
    case Kd => 0
    case Sig => 1
    case Tot => 2
    case Td => 3
    case Sub => 4
    case Ctrl => 5
  }

  /** A branch's own test: the prefix, and for the strike and takedown counts no "%" in the label. */
  predicate Matches(lab: string, c: Category) {
    StartsWith(lab, Prefix(c)) && ((c == Sig || c == Td) ==> !Contains(lab, "%"))
  }

  /** The category the `if`/`elif` chain assigns a label to, if any. */
  function CategoryOf(lab: string): (r: Option<Category>)
    ensures r.Some? ==> StartsWith(lab, Prefix(r.value))
  {
    if StartsWith(lab, "kd") then Some(Kd)
    else if StartsWith(lab, "sig. str.") && !Contains(lab, "%") then Some(Sig)
    else if StartsWith(lab, "total str.") then Some(Tot)
    else if StartsWith(lab, "td") && !Contains(lab, "%") then Some(Td)
    else if StartsWith(lab, "sub. att") then Some(Sub)
    else if StartsWith(lab, "ctrl") then Some(Ctrl)
    else None
  }

  /** The chain picks the earliest branch whose test holds, and none when no test holds;
      in particular a label with "%" is never a strike or takedown column. */
  lemma CategoryOfFirstMatching(lab: string)
    ensures CategoryOf(lab).Some? ==> Matches(lab, CategoryOf(lab).value)
    ensures CategoryOf(lab).Some? ==> forall d :: Rank(d) < Rank(CategoryOf(lab).value) ==> !Matches(lab, d)
    ensures CategoryOf(lab).None? ==> forall d :: !Matches(lab, d)
  {
  }

  /** The category each label feeds, in order. */
  function Categories(labels: seq<string>): (r: seq<Option<Category>>)
    ensures |r| == |labels| && forall i :: 0 <= i < |labels| ==> r[i] == CategoryOf(labels[i])
  {
    seq(|labels|, i requires 0 <= i < |labels| => CategoryOf(labels[i]))
  }

  /** The column of each category after scanning the labels' categories in order; a later
      label of a category overwrites an earlier one. */
  function Columns(cats: seq<Option<Category>>): (cols: map<Category, nat>)
    ensures forall c :: c in cols ==> cols[c] < |cats|
    decreases |cats|
  {
    if cats == [] then map[]
    else
      var cols := Columns(cats[..|cats| - 1]);
      match cats[|cats| - 1]
      case None => cols
      case Some(c) => cols[c := |cats| - 1]
  }

  /** The column indices the labels give. */
  function ColumnsOf(labels: seq<string>): (cols: map<Category, nat>)
    ensures forall c :: c in cols ==> cols[c] < |labels|
  {
    Columns(Categories(labels))
  }

  /** The column-mapping loop: six variables, here one map, reassigned by the `if`/`elif` chain. */
  method MapColumns(labels: seq<string>) returns (cols: map<Category, nat>)
    ensures cols == ColumnsOf(labels)
  {
    ghost var cats := Categories(labels);
    cols := map[];
    for i := 0 to |labels|
      invariant cols == Columns(cats[..i])
    {
      var lab := labels[i];
      if StartsWith(lab, "kd") {
        cols := cols[Kd := i];
      } else if StartsWith(lab, "sig. str.") && !Contains(lab, "%") {
        cols := cols[Sig := i];
      } else if StartsWith(lab, "total str.") {
        cols := cols[Tot := i];
      } else if StartsWith(lab, "td") && !Contains(lab, "%") {
        cols := cols[Td := i];
      } else if StartsWith(lab, "sub. att") {
        cols := cols[Sub := i];
      } else if StartsWith(lab, "ctrl") {
        cols := cols[Ctrl := i];
      }
      assert cats[..i + 1][..i] == cats[..i];
    }
    assert cats[..|labels|] == cats;
  }

  /** Each category's column is the LAST label the chain assigns to it, and a category
      is missing exactly when no label is assigned to it. */
  lemma ColumnsOfLastMatch(labels: seq<string>, c: Category)
    ensures c in ColumnsOf(labels) ==>
      var i := ColumnsOf(labels)[c];
      CategoryOf(labels[i]) == Some(c) && forall j :: i < j < |labels| ==> CategoryOf(labels[j]) != Some(c)
    ensures c !in ColumnsOf(labels) ==> forall j :: 0 <= j < |labels| ==> CategoryOf(labels[j]) != Some(c)
  {
    ColumnsLastMatch(Categories(labels), c);
  }

  lemma {:induction false} ColumnsLastMatch(cats: seq<Option<Category>>, c: Category)
    ensures c in Columns(cats) ==>
      var i := Columns(cats)[c];
      cats[i] == Some(c) && forall j :: i < j < |cats| ==> cats[j] != Some(c)
    ensures c !in Columns(cats) ==> forall j :: 0 <= j < |cats| ==> cats[j] != Some(c)
    decreases |cats|
  {
    if cats != [] {
      var n := |cats| - 1;
      var pre := cats[..n];
      ColumnsLastMatch(pre, c);
      forall j | 0 <= j < n ensures cats[j] == pre[j] { }
      var cols := Columns(pre);
      if cats[n] == Some(c) {
        assert Columns(cats) == cols[c := n];
      } else {
        assert c in Columns(cats) <==> c in cols;
        assert c in cols ==> Columns(cats)[c] == cols[c];
      }
    }
  }

  /** No label feeds two categories, and a label with "%" feeds neither the
      strike column nor the takedown column. */
  lemma ColumnsDistinct(labels: seq<string>, c: Category, d: Category)
    requires c in ColumnsOf(labels) && d in ColumnsOf(labels) && c != d
    ensures ColumnsOf(labels)[c] != ColumnsOf(labels)[d]
    ensures c == Sig || c == Td ==> !Contains(labels[ColumnsOf(labels)[c]], "%")
  {
    ColumnsOfLastMatch(labels, c);
    ColumnsOfLastMatch(labels, d);
    CategoryOfFirstMatching(labels[ColumnsOf(labels)[c]]);
  }

  // ---------------------------------------------------------------------------
  // reading one fighter's cells

  /** `get_cell_text(col_idx, fighter_index)`: the text of the fighter's paragraph in that
      column, or `None` when either index is out of range. */
  function CellText(cells: seq<Cell>, col: int, fighter: int): (r: Option<string>)
    ensures r.Some? <==> 0 <= col < |cells| && 0 <= fighter < |cells[col].paragraphs|
    ensures r.Some? ==> r.value == GetText(cells[col].paragraphs[fighter], " ")
  {
    if col < 0 || col >= |cells| then None
    else
      var ps := cells[col].paragraphs;
      if fighter < 0 || fighter >= |ps| then None
      else Some(GetText(ps[fighter], " "))
  }

  /** `int(text) if text and text.isdigit() else 0`. */
  function CountOrZero(text: Option<string>): (r: nat)
    ensures r > 0 ==> text.Some? && IsDigits(text.value)
  {
    if text.Some? && IsDigits(text.value) then DigitsValue(text.value) else 0
  }

  /** A count cell reads as what `int()` makes of its digits, and anything else reads as 0. */
  lemma CountOrZeroIsInt(text: Option<string>)
    ensures text.Some? && IsDigits(text.value) ==> ParseInt(text.value) == Some(CountOrZero(text) as int)
    ensures !(text.Some? && IsDigits(text.value)) ==> CountOrZero(text) == 0
  {
    if text.Some? && IsDigits(text.value) {
      ParseIntDigits(text.value);
    }
  }

  /** A count written out by `str` reads back as itself. */
  lemma CountOrZeroShow(n: nat)
    ensures CountOrZero(Some(Show(n))) == n
  {
    ShowRoundTrip(n);
  }

  /** `parse_time_to_seconds(ctrl_text) if ctrl_text else None`. */
  function ControlSeconds(text: Option<string>): (r: Option<int>)
    ensures r.Some? ==> text.Some? && text.value != []
  {
    if text.Some? && text.value != [] then ParseTimeToSeconds(text) else None
  }

  /** The guard adds nothing: an absent or empty control text already has no seconds. */
  lemma ControlSecondsIsParseTime(text: Option<string>)
    ensures ControlSeconds(text) == ParseTimeToSeconds(text)
    ensures text.None? ==> ControlSeconds(text).None?
  {
  }

  /** `(fighter_id == winner_id) if winner_id is not None else None`. */
  function IsWinner(fighterId: string, winner: Option<string>): (r: Option<bool>)
    ensures r.None? <==> winner.None?
    ensures r.Some? ==> (r.value <==> fighterId == winner.value)
  {
    if winner.None? then None else Some(fighterId == winner.value)
  }

  /** The fight duration computed once: `(round_ended - 1) * 300` plus the end time, or
      `None` when the round or the time is missing or the time does not parse. */
  function Duration(round: Option<int>, time: Option<string>): (r: Option<int>)
    ensures r.Some? ==> round.Some? && time.Some? && ParseTimeToSeconds(time).Some?
  {
    if round.Some? && time.Some? && time.value != [] then
      match ParseTimeToSeconds(time)
      case None => None
      case Some(t) => Some((round.value - 1) * 5 * 60 + t)
    else None
  }

  /** A fight that ended at a time reading `t` seconds into round `r` lasted `(r - 1) * 300 + t` seconds. */
  lemma DurationValue(round: Option<int>, time: Option<string>)
    requires round.Some? && ParseTimeToSeconds(time).Some?
    ensures Duration(round, time) == Some((round.value - 1) * 300 + ParseTimeToSeconds(time).value)
  {
    FiveMinuteRounds(round.value - 1);
  }

  /** Rounds are five minutes long. */
  lemma FiveMinuteRounds(r: int)
    ensures r * 5 * 60 == r * 300
  {
  }

  /** Without a round, without a time, or with a time that does not parse there is no duration. */
  lemma DurationMissing(round: Option<int>, time: Option<string>)
    requires round.None? || ParseTimeToSeconds(time).None?
    ensures Duration(round, time).None?
  {
  }

  // ---------------------------------------------------------------------------
  // the fighter order of the totals row

  /** The id one fighter link contributes to `id_order`: none for a blank href. */
  function LinkId(l: Link): (r: Option<string>)
    ensures r.Some? <==> Strip(l.href, Whitespace) != []
  {
    var href := Strip(l.href, Whitespace);
    if href != [] then Some(IdFromUrl(href, FighterMarker)) else None
  }

  /** The id of each link, in order. */
  function LinkIds(links: seq<Link>): (r: seq<Option<string>>)
    ensures |r| == |links| && forall i :: 0 <= i < |links| ==> r[i] == LinkId(links[i])
  {
    seq(|links|, i requires 0 <= i < |links| => LinkId(links[i]))
  }

  /** The ids of the fighter links, in order: each href stripped, blank ones skipped, and
      the id taken after the last "fighter-details/". */
  function IdOrder(links: seq<Link>): (ids: seq<string>)
    ensures |ids| <= |links|
  {
    Somes(LinkIds(links))
  }

  /** One more link extends the id order by that link's id, unless its href is blank. */
  lemma IdOrderSnoc(links: seq<Link>, i: nat)
    requires i < |links|
    ensures IdOrder(links[..i + 1]) == IdOrder(links[..i]) + (if LinkId(links[i]).Some? then [LinkId(links[i]).value] else [])
  {
    var xs := LinkIds(links[..i + 1]);
    assert xs[..i] == LinkIds(links[..i]);
    assert xs[i] == LinkId(links[i]);
  }

  /** The `id_order` loop. */
  method BuildIdOrder(links: seq<Link>) returns (ids: seq<string>)
    ensures ids == IdOrder(links)
  {
    ids := [];
    for i := 0 to |links|
      invariant ids == IdOrder(links[..i])
    {
      var href := Strip(links[i].href, Whitespace);
      IdOrderSnoc(links, i);
      if href != [] {
        var fid := IdFromUrl(href, FighterMarker);
        ids := ids + [fid];
      }
    }
    assert links[..|links|] == links;
  }

  /** Some link of `links` carries the id `fid`. */
  predicate LinkedTo(links: seq<Link>, fid: string) {
    Some(fid) in LinkIds(links)
  }

  /** `id_order` holds exactly the ids the links carry: an id no link carries is absent. */
  lemma IdOrderMember(links: seq<Link>, fid: string)
    ensures fid in IdOrder(links) <==> LinkedTo(links, fid)
  {
    SomesMember(LinkIds(links), fid);
  }

  /** `id_order` keeps the order of the links: the ids of two runs of links are the ids of
      the first followed by the ids of the second. */
  lemma IdOrderAppend(a: seq<Link>, b: seq<Link>)
    ensures IdOrder(a + b) == IdOrder(a) + IdOrder(b)
  {
    LinkIdsAppend(a, b);
    SomesAppend(LinkIds(a), LinkIds(b));
  }

  lemma LinkIdsAppend(a: seq<Link>, b: seq<Link>)
    ensures LinkIds(a + b) == LinkIds(a) + LinkIds(b)
  {
    PointwiseAppend(LinkId, a, b, LinkIds(a + b), LinkIds(a), LinkIds(b));
  }

  /** Images taken pointwise of two link lists concatenate to the image of their concatenation. */
  lemma PointwiseAppend(f: Link -> Option<string>, a: seq<Link>, b: seq<Link>,
                        l: seq<Option<string>>, la: seq<Option<string>>, lb: seq<Option<string>>)
    requires |l| == |a| + |b| && forall i :: 0 <= i < |l| ==> l[i] == f((a + b)[i])
    requires |la| == |a| && forall i :: 0 <= i < |a| ==> la[i] == f(a[i])
    requires |lb| == |b| && forall i :: 0 <= i < |b| ==> lb[i] == f(b[i])
    ensures l == la + lb
  {
    forall i | 0 <= i < |l| ensures l[i] == (la + lb)[i] {
      if i < |a| {
        assert (a + b)[i] == a[i];
      } else {
        assert (a + b)[i] == b[i - |a|];
      }
    }
  }


  /** `{fid: idx for idx, fid in enumerate(id_order)}.get(fid)`: the last position of `fid`. */
  function IndexForId(ids: seq<string>, fid: string): (r: Option<nat>)
    ensures r.None? <==> fid !in ids
    ensures r.Some? ==> r.value < |ids| && ids[r.value] == fid
    ensures r.Some? ==> forall j :: r.value < j < |ids| ==> ids[j] != fid
    decreases |ids|
  {
    if ids == [] then None
    else if ids[|ids| - 1] == fid then Some(|ids| - 1)
    else IndexForId(ids[..|ids| - 1], fid)
  }

  // ---------------------------------------------------------------------------
  // the stats rows

  /** One row of `fighter_stats`. */
  datatype StatRow = StatRow(
    fightId: string,
    fighterId: string,
    isWinner: Option<bool>,
    knockdowns: nat,
    sigStrikesLanded: Option<int>,
    sigStrikesAttempted: Option<int>,
    totalStrikesLanded: Option<int>,
    totalStrikesAttempted: Option<int>,
    tdLanded: Option<int>,
    tdAttempts: Option<int>,
    subAttempts: nat,
    controlTimeSeconds: Option<int>,
    timeFoughtSeconds: Option<int>)

  /** The row of the fighter at paragraph position `idx` of the totals row. */
  function StatRowAt(fightId: string, fighterId: string, winner: Option<string>, duration: Option<int>,
                     cells: seq<Cell>, cols: map<Category, nat>, idx: nat): StatRow
    requires AllCategories <= cols.Keys
  {
    var sig := ParseXOfY(CellText(cells, cols[Sig], idx));
    var tot := ParseXOfY(CellText(cells, cols[Tot], idx));
    var td := ParseXOfY(CellText(cells, cols[Td], idx));
    StatRow(fightId, fighterId, IsWinner(fighterId, winner),
      CountOrZero(CellText(cells, cols[Kd], idx)),
      sig.0, sig.1, tot.0, tot.1, td.0, td.1,
      CountOrZero(CellText(cells, cols[Sub], idx)),
      ControlSeconds(CellText(cells, cols[Ctrl], idx)),
      duration)
  }

  /** The row the fighter loop appends for `fid`: none when its id is not among the links. */
  function RowFor(fid: string, fightId: string, winner: Option<string>, duration: Option<int>,
                  cells: seq<Cell>, cols: map<Category, nat>, ids: seq<string>): seq<StatRow>
    requires AllCategories <= cols.Keys
  {
    match IndexForId(ids, fid)
    case None => []
    case Some(idx) => [StatRowAt(fightId, fid, winner, duration, cells, cols, idx)]
  }

  /** The rows the fighter loop appends for `fids`: one per id found among the links, in order. */
  function StatRows(fids: seq<string>, fightId: string, winner: Option<string>, duration: Option<int>,
                    cells: seq<Cell>, cols: map<Category, nat>, ids: seq<string>): (rows: seq<StatRow>)
    requires AllCategories <= cols.Keys
    ensures |rows| <= |fids|
    decreases |fids|
  {
    if fids == [] then []
    else StatRows(fids[..|fids| - 1], fightId, winner, duration, cells, cols, ids)
         + RowFor(fids[|fids| - 1], fightId, winner, duration, cells, cols, ids)
  }

  /** The part of `parse_fight_stats` after the first row's cells are known. */
  function StatsFromCells(cells: seq<Cell>, cols: map<Category, nat>, fightId: string, f1: string, f2: string,
                          winner: Option<string>, round: Option<int>, time: Option<string>): Result<seq<StatRow>, Failure>
    requires AllCategories <= cols.Keys
  {
    if cells == [] then Err(IndexError)
    else
      var ids := IdOrder(LinksMatching(cells[0].links, "fighter-details"));
      Ok(StatRows([f1, f2], fightId, winner, Duration(round, time), cells, cols, ids))
  }

  /** The part of `parse_fight_stats` after the totals table is chosen. */
  function StatsFromTable(t: StatsTable, fightId: string, f1: string, f2: string,
                          winner: Option<string>, round: Option<int>, time: Option<string>): Result<seq<StatRow>, Failure>
    requires t.head.Some? && t.body.Some?
  {
    if t.body.value == [] then Ok([])
    else
      var cols := ColumnsOf(Labels(t.head.value));
      if !(AllCategories <= cols.Keys) then Ok([])
      else StatsFromCells(t.body.value[0].cells, cols, fightId, f1, f2, winner, round, time)
  }

  /** `parse_fight_stats(...)`, given the fetched fight page or the failure of the fetch:
      an error where the Python raises, and otherwise the rows. */
  function FightStatsOf(page: Result<FightPage, Failure>, fightId: string, f1: string, f2: string,
                        winner: Option<string>, round: Option<int>, time: Option<string>): (r: Result<seq<StatRow>, Failure>)
    ensures page.Err? ==> r == Err(page.error)
    ensures r.Err? ==> page.Err? || r.error == IndexError
  {
    match page
    case Err(e) => Err(e)
    case Ok(p) =>
      match FirstTotals(p.tables)
      case None => Ok([])
      case Some(k) => StatsFromTable(p.tables[k], fightId, f1, f2, winner, round, time)
  }

  /** `parse_fight_stats`, statement by statement. */
  method ParseFightStats(page: Result<FightPage, Failure>, fightId: string, f1: string, f2: string,
                         winner: Option<string>, round: Option<int>, time: Option<string>)
    returns (r: Result<seq<StatRow>, Failure>)
    ensures r == FightStatsOf(page, fightId, f1, f2, winner, round, time)
  {
    if page.Err? {
      return Err(page.error);
    }
    var tables := page.value.tables;
    var found := FindTotalsTable(tables);
    if found.None? {
      return Ok([]);
    }
    var tbl := tables[found.value];
    var labels := Labels(tbl.head.value);
    var body := tbl.body.value;
    if body == [] {
      return Ok([]);
    }
    var cells := body[0].cells;
    var cols := MapColumns(labels);
    if !(AllCategories <= cols.Keys) {
      return Ok([]);
    }
    if cells == [] {
      return Err(IndexError);
    }
    var links := LinksMatching(cells[0].links, "fighter-details");
    var ids := BuildIdOrder(links);
    var duration := Duration(round, time);
    var statsRows := CollectStatRows([f1, f2], fightId, winner, duration, cells, cols, ids);
    return Ok(statsRows);
  }

  /** The fighter loop of `parse_fight_stats`: a row for each fighter whose id is among the links. */
  method CollectStatRows(fids: seq<string>, fightId: string, winner: Option<string>, duration: Option<int>,
                         cells: seq<Cell>, cols: map<Category, nat>, ids: seq<string>) returns (statsRows: seq<StatRow>)
    requires AllCategories <= cols.Keys
    ensures statsRows == StatRows(fids, fightId, winner, duration, cells, cols, ids)
  {
    statsRows := [];
    for k := 0 to |fids|
      invariant statsRows == StatRows(fids[..k], fightId, winner, duration, cells, cols, ids)
    {
      var fid := fids[k];
      assert fids[..k + 1][..k] == fids[..k];
      var idx := IndexForId(ids, fid);
      if idx.None? {
        continue;
      }
      statsRows := statsRows + [StatRowAt(fightId, fid, winner, duration, cells, cols, idx.value)];
    }
    assert fids[..|fids|] == fids;
  }

  // ---------------------------------------------------------------------------
  // what the rows are

  /** The rows for `[f1, f2]` are f1's row, if any, followed by f2's. */
  lemma StatRowsPair(fightId: string, f1: string, f2: string, winner: Option<string>, duration: Option<int>,
                     cells: seq<Cell>, cols: map<Category, nat>, ids: seq<string>)
    requires AllCategories <= cols.Keys
    ensures StatRows([f1, f2], fightId, winner, duration, cells, cols, ids)
         == RowFor(f1, fightId, winner, duration, cells, cols, ids) + RowFor(f2, fightId, winner, duration, cells, cols, ids)
  {
    assert [f1, f2][..1] == [f1];
    assert [f1][..0] == [];
  }

  /** A fighter has a row exactly when its id is among the links, and that row is built from
      the last position of the id, with the fight id, the winner flag and the duration. */
  lemma RowForShape(fid: string, fightId: string, winner: Option<string>, duration: Option<int>,
                    cells: seq<Cell>, cols: map<Category, nat>, ids: seq<string>)
    requires AllCategories <= cols.Keys
    ensures var rows := RowFor(fid, fightId, winner, duration, cells, cols, ids);
      && |rows| == (if fid in ids then 1 else 0)
      && (forall k :: 0 <= k < |rows| ==>
            && rows[k].fighterId == fid
            && rows[k].fightId == fightId
            && rows[k].timeFoughtSeconds == duration
            && rows[k].isWinner == IsWinner(fid, winner)
            && IndexForId(ids, fid).Some?
            && rows[k] == StatRowAt(fightId, fid, winner, duration, cells, cols, IndexForId(ids, fid).value))
  {
  }

  /** The rows for `[f1, f2]`: the first is f1's when f1 is among the ids, any other is f2's;
      an id missing from the links gives no row; each row is built from the last position of
      its id, and every row carries the fight id, the winner flag and the one shared duration. */
  lemma StatRowsShape(fightId: string, f1: string, f2: string, winner: Option<string>, duration: Option<int>,
                      cells: seq<Cell>, cols: map<Category, nat>, ids: seq<string>)
    requires AllCategories <= cols.Keys
    ensures var rows := StatRows([f1, f2], fightId, winner, duration, cells, cols, ids);
      && |rows| == (if f1 in ids then 1 else 0) + (if f2 in ids then 1 else 0)
      && (forall k :: 0 <= k < |rows| ==> rows[k].fighterId == if k == 0 && f1 in ids then f1 else f2)
      && (forall k :: 0 <= k < |rows| ==>
            && rows[k].fightId == fightId
            && rows[k].timeFoughtSeconds == duration
            && rows[k].isWinner == IsWinner(rows[k].fighterId, winner)
            && IndexForId(ids, rows[k].fighterId).Some?
            && rows[k] == StatRowAt(fightId, rows[k].fighterId, winner, duration, cells, cols, IndexForId(ids, rows[k].fighterId).value))
  {
    var r1 := RowFor(f1, fightId, winner, duration, cells, cols, ids);
    var r2 := RowFor(f2, fightId, winner, duration, cells, cols, ids);
    StatRowsPair(fightId, f1, f2, winner, duration, cells, cols, ids);
    RowForShape(f1, fightId, winner, duration, cells, cols, ids);
    RowForShape(f2, fightId, winner, duration, cells, cols, ids);
    var rows := r1 + r2;
    forall k | 0 <= k < |rows|
      ensures rows[k] == if k < |r1| then r1[k] else r2[k - |r1|]
    {
    }
  }

  /** The outcomes of `parse_fight_stats` that are not rows: a failed fetch raises; a missing
      totals table, an empty body or an unmapped column gives `[]`; an empty totals row raises
      `IndexError`. */
  lemma FightStatsEmptyOrError(page: Result<FightPage, Failure>, fightId: string, f1: string, f2: string,
                               winner: Option<string>, round: Option<int>, time: Option<string>)
    ensures var r := FightStatsOf(page, fightId, f1, f2, winner, round, time);
      && (page.Err? ==> r == Err(page.error))
      && (page.Ok? && FirstTotals(page.value.tables).None? ==> r == Ok([]))
      && (page.Ok? && FirstTotals(page.value.tables).Some? ==>
            var t := page.value.tables[FirstTotals(page.value.tables).value];
            var cols := ColumnsOf(Labels(t.head.value));
            && (t.body.value == [] ==> r == Ok([]))
            && (t.body.value != [] && !(AllCategories <= cols.Keys) ==> r == Ok([]))
            && (t.body.value != [] && AllCategories <= cols.Keys ==> (r == Err(IndexError) <==> t.body.value[0].cells == [])))
  {
  }

  /** The fighter links of the first cell of the totals row, when `parse_fight_stats` gets
      that far: a fetched page, a totals table with a body, every column mapped, a non-empty row. */
  function TotalsFighterLinks(page: Result<FightPage, Failure>): Option<seq<Link>> {
    if page.Err? then None
    else
      match FirstTotals(page.value.tables)
      case None => None
      case Some(k) =>
        var t := page.value.tables[k];
        if t.body.value == [] || !(AllCategories <= ColumnsOf(Labels(t.head.value)).Keys)
           || t.body.value[0].cells == [] then None
        else Some(LinksMatching(t.body.value[0].cells[0].links, "fighter-details"))
  }

  /** Rows come only from the totals row, and there f1 has a row exactly when some fighter link
      of that row carries f1's id, f2 likewise, and f1's row comes first. */
  lemma FightStatsFromLinks(page: Result<FightPage, Failure>, fightId: string, f1: string, f2: string,
                            winner: Option<string>, round: Option<int>, time: Option<string>)
    ensures var r := FightStatsOf(page, fightId, f1, f2, winner, round, time);
      && (TotalsFighterLinks(page).None? ==> r.Err? || r == Ok([]))
      && (TotalsFighterLinks(page).Some? ==>
            var links := TotalsFighterLinks(page).value;
            && r.Ok?
            && |r.value| == (if LinkedTo(links, f1) then 1 else 0) + (if LinkedTo(links, f2) then 1 else 0)
            && (forall k :: 0 <= k < |r.value| ==> r.value[k].fighterId == if k == 0 && LinkedTo(links, f1) then f1 else f2))
  {
    if TotalsFighterLinks(page).Some? {
      var links := TotalsFighterLinks(page).value;
      var t := page.value.tables[FirstTotals(page.value.tables).value];
      var cols := ColumnsOf(Labels(t.head.value));
      var cells := t.body.value[0].cells;
      StatRowsShape(fightId, f1, f2, winner, Duration(round, time), cells, cols, IdOrder(links));
      IdOrderMember(links, f1);
      IdOrderMember(links, f2);
    }
  }

  /** What every list of rows `parse_fight_stats` returns satisfies: at most two rows, in
      f1-then-f2 order, each for one of the two fighters, all with the given fight id, the same
      duration and the winner flag of their fighter. */
  predicate RowsOfFight(rows: seq<StatRow>, fightId: string, f1: string, f2: string,
                        winner: Option<string>, duration: Option<int>) {
    && |rows| <= 2
    && (|rows| == 2 ==> rows[0].fighterId == f1 && rows[1].fighterId == f2)
    && (forall k :: 0 <= k < |rows| ==>
          && (rows[k].fighterId == f1 || rows[k].fighterId == f2)
          && rows[k].fightId == fightId
          && rows[k].timeFoughtSeconds == duration
          && rows[k].isWinner == IsWinner(rows[k].fighterId, winner))
  }

  /** The rows built from a non-empty totals row are rows of the fight. */
  lemma StatsFromCellsRows(cells: seq<Cell>, cols: map<Category, nat>, fightId: string, f1: string, f2: string,
                           winner: Option<string>, round: Option<int>, time: Option<string>)
    requires AllCategories <= cols.Keys
    ensures var r := StatsFromCells(cells, cols, fightId, f1, f2, winner, round, time);
      r.Ok? ==> RowsOfFight(r.value, fightId, f1, f2, winner, Duration(round, time))
  {
    if cells != [] {
      var ids := IdOrder(LinksMatching(cells[0].links, "fighter-details"));
      StatRowsShape(fightId, f1, f2, winner, Duration(round, time), cells, cols, ids);
    }
  }

  /** Every outcome of `parse_fight_stats` that is not an error is a list of rows of the fight. */
  lemma FightStatsRows(page: Result<FightPage, Failure>, fightId: string, f1: string, f2: string,
                       winner: Option<string>, round: Option<int>, time: Option<string>)
    ensures var r := FightStatsOf(page, fightId, f1, f2, winner, round, time);
      r.Ok? ==> RowsOfFight(r.value, fightId, f1, f2, winner, Duration(round, time))
  {
    if page.Ok? && FirstTotals(page.value.tables).Some? {
      var t := page.value.tables[FirstTotals(page.value.tables).value];
      var cols := ColumnsOf(Labels(t.head.value));
      if t.body.value != [] && AllCategories <= cols.Keys {
        StatsFromCellsRows(t.body.value[0].cells, cols, fightId, f1, f2, winner, round, time);
      }
    }
  }
}
