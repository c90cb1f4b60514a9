/**
 * The parts of a parsed HTML document that the scraper looks at, as plain values.
 * Each datatype stands for what a BeautifulSoup lookup in the scraper returns;
 * a class or pattern filter in such a lookup is already applied.
 */
module Html {
  import opened Common
  import opened Text

  /** An `<a>` element: its `href` attribute and the text nodes beneath it. */
  datatype Link = Link(href: string, fragments: seq<string>)

  /** A `<td>`/`<th>` element: its text nodes, the text nodes of each
      `p.b-fight-details__table-text` paragraph inside it, and its anchors. */
  datatype Cell = Cell(fragments: seq<string>, paragraphs: seq<seq<string>>, links: seq<Link>)

  /** A `<tr>` element: its cells and every anchor inside it, in document order. */
  datatype Row = Row(cells: seq<Cell>, links: seq<Link>)

  /** A `<table>` of a fight-details page: the cells of its `thead.b-fight-details__table-head`
      when there is one, and the rows of its `tbody.b-fight-details__table-body` when there is one. */
  datatype StatsTable = StatsTable(head: Option<seq<Cell>>, body: Option<seq<Row>>)

  /** A fight-details page: its tables in document order. */
  datatype FightPage = FightPage(tables: seq<StatsTable>)

  /** The fights table of an event page: the rows of its `tbody`, when it has one. */
  datatype FightsTable = FightsTable(body: Option<seq<Row>>)

  /** An event-details page: the text of the title span when present, the text nodes of
      each `li.b-list__box-list-item`, and the first table whose class names the fight details. */
  datatype EventPage = EventPage(title: Option<seq<string>>, listItems: seq<seq<string>>, fightTable: Option<FightsTable>)

  /** The completed-events listing page: the `href` of every anchor that has one, in document order. */
  datatype ListingPage = ListingPage(hrefs: seq<string>)

  /** `find_all("a", href=re.compile(pattern))` for a pattern without metacharacters:
      the anchors whose `href` contains `pattern`, in document order. */
  function LinksMatching(links: seq<Link>, pattern: string): (r: seq<Link>)
    ensures |r| <= |links|
    ensures forall l :: l in r <==> l in links && Contains(l.href, pattern)
    decreases |links|
  {
    if links == [] then []
    else (if Contains(links[0].href, pattern) then [links[0]] else []) + LinksMatching(links[1..], pattern)
  }

  /** One anchor is kept, once, exactly when its `href` contains the pattern. */
  lemma LinksMatchingOne(l: Link, pattern: string)
    ensures LinksMatching([l], pattern) == if Contains(l.href, pattern) then [l] else []
  {
    assert [l][1..] == [];
  }

  /** Filtering keeps document order and multiplicity: the matches of two runs of anchors are
      the matches of the first followed by the matches of the second. */
  lemma {:induction false} LinksMatchingAppend(a: seq<Link>, b: seq<Link>, pattern: string)
    ensures LinksMatching(a + b, pattern) == LinksMatching(a, pattern) + LinksMatching(b, pattern)
    decreases |a|
  {
    if a == [] {
      assert a + b == b;
    } else {
      var t := a + b;
      var head := if Contains(a[0].href, pattern) then [a[0]] else [];
      assert t[0] == a[0] && t[1..] == a[1..] + b;
      assert LinksMatching(t, pattern) == head + LinksMatching(t[1..], pattern);
      assert LinksMatching(a, pattern) == head + LinksMatching(a[1..], pattern);
      LinksMatchingAppend(a[1..], b, pattern);
    }
  }

  /** The text nodes that `get_text(strip=True)` keeps: each one stripped, the empty ones dropped. */
  function Clean(fragments: seq<string>): (r: seq<string>)
    ensures |r| <= |fragments|
    ensures forall k :: 0 <= k < |r| ==> r[k] != [] && r[k][0] !in Whitespace && r[k][|r[k]| - 1] !in Whitespace
    decreases |fragments|
  {
    if fragments == [] then []
    else
      var t := Strip(fragments[0], Whitespace);
      (if t == [] then [] else [t]) + Clean(fragments[1..])
  }

  /** `tag.get_text(sep, strip=True)`: empty exactly when every text node is blank,
      and otherwise neither starting nor ending with whitespace. */
  function GetText(fragments: seq<string>, sep: string): (r: string)
    ensures r == [] <==> Clean(fragments) == []
    ensures r == [] || (r[0] !in Whitespace && r[|r| - 1] !in Whitespace)
  {
    var parts := Clean(fragments);
    if parts == [] then [] else JoinCleanEnds(parts, sep); Join(parts, sep)
  }

  /** Joining cleaned text nodes starts and ends with a non-whitespace character. */
  lemma JoinCleanEnds(parts: seq<string>, sep: string)
    requires parts != []
    requires forall k :: 0 <= k < |parts| ==> parts[k] != [] && parts[k][0] !in Whitespace && parts[k][|parts[k]| - 1] !in Whitespace
    ensures var r := Join(parts, sep); r != [] && r[0] !in Whitespace && r[|r| - 1] !in Whitespace
  {
    JoinEnds(parts, sep);
    var last := parts[|parts| - 1];
    assert last[|last| - 1] !in Whitespace;
  }
}
