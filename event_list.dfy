/**
 * `get_completed_event_urls` of scripts/scrape_ufcstats.py: the event-details links of the
 * completed-events listing, made absolute, without repeats, in the order they are first met,
 * cut to an optional limit.
 */
module EventList {
  import opened Common
  import opened Text
  import opened Html

  /** The anchor filter of the listing loop: `"event-details" in href`. */
  predicate IsEventHref(href: string) {
    Contains(href, "event-details")
  }

  /** The URL of every event anchor, repeats included, in document order
      (`urljoin(UFCSTATS_BASE, href)` is the parameter `join`). */
  function Candidates(hrefs: seq<string>, join: string -> string): (c: seq<string>)
    ensures |c| <= |hrefs|
    decreases |hrefs|
  {
    if hrefs == [] then []
    else
      var h := hrefs[|hrefs| - 1];
      Candidates(hrefs[..|hrefs| - 1], join) + (if IsEventHref(h) then [join(h)] else [])
  }

  /** The list the loop builds: a candidate is appended unless it is already there. */
  function Collected(hrefs: seq<string>, join: string -> string): (r: seq<string>)
    decreases |hrefs|
  {
    if hrefs == [] then []
    else
      var acc := Collected(hrefs[..|hrefs| - 1], join);
      var h := hrefs[|hrefs| - 1];
      if IsEventHref(h) && join(h) !in acc then acc + [join(h)] else acc
  }

  /** Python's `urls[:limit]`, where a negative limit counts from the end. */
  function Slice(urls: seq<string>, limit: Option<int>): (r: seq<string>)
    ensures |r| <= |urls| && r == urls[..|r|]
    ensures limit.None? ==> r == urls
    ensures limit.Some? && limit.value >= 0 ==> |r| == if limit.value < |urls| then limit.value else |urls|
    ensures limit.Some? && limit.value < 0 ==> |r| == if |urls| + limit.value > 0 then |urls| + limit.value else 0
  {
    if limit.None? then urls
    else if limit.value >= 0 then (if limit.value < |urls| then urls[..limit.value] else urls)
    else if |urls| + limit.value > 0 then urls[..|urls| + limit.value]
    else []
  }

  /** `get_completed_event_urls(limit)`, given the fetched listing page or the failure of the fetch.
      `join` is total: the `ValueError` that `urljoin` raises on a malformed host is not modelled. */
  function CompletedEventUrls(page: Result<ListingPage, Failure>, join: string -> string, limit: Option<int>): (r: Result<seq<string>, Failure>)
    ensures page.Err? ==> r == Err(page.error)
    ensures page.Ok? ==> r.Ok?
  {
    match page
    case Err(e) => Err(e)
    case Ok(p) => Ok(Slice(Collected(p.hrefs, join), limit))
  }

  /** The listing loop itself: a list that grows by membership-checked appends. */
  method GetCompletedEventUrls(page: Result<ListingPage, Failure>, join: string -> string, limit: Option<int>)
    returns (r: Result<seq<string>, Failure>)
    ensures r == CompletedEventUrls(page, join, limit)
  {
    if page.Err? {
      return Err(page.error);
    }
    var hrefs := page.value.hrefs;
    var eventUrls: seq<string> := [];
    var i := 0;
    while i < |hrefs|
      invariant 0 <= i <= |hrefs|
      invariant eventUrls == Collected(hrefs[..i], join)
    {
      var href := hrefs[i];
      if IsEventHref(href) {
        var fullUrl := join(href);
        if fullUrl !in eventUrls {
          eventUrls := eventUrls + [fullUrl];
        }
      }
      assert hrefs[..i + 1][..i] == hrefs[..i];
      i := i + 1;
    }
    assert hrefs[..i] == hrefs;
    if limit.Some? {
      eventUrls := Slice(eventUrls, limit);
    }
    return Ok(eventUrls);
  }

  // ---------------------------------------------------------------------------
  // what the collected list is

  predicate NoDuplicates(s: seq<string>) {
    forall i, j :: 0 <= i < j < |s| ==> s[i] != s[j]
  }

  /** Where `x` first occurs in `s`. */
  function FirstPos(s: seq<string>, x: string): (p: nat)
    requires x in s
    ensures p < |s| && s[p] == x
    ensures forall k :: 0 <= k < p ==> s[k] != x
  {
    if s[0] == x then 0 else 1 + FirstPos(s[1..], x)
  }

  /** Appending never moves the first occurrence of something already present. */
  lemma FirstPosSnoc(s: seq<string>, tail: seq<string>, x: string)
    requires x in s
    ensures FirstPos(s + tail, x) == FirstPos(s, x)
  {
    var p, q := FirstPos(s, x), FirstPos(s + tail, x);
    assert (s + tail)[p] == x;
  }

  /** The collected list holds every candidate exactly once, each in the order of its first
      occurrence among the candidates: no repeats, the same elements, and first-seen order. */
  lemma {:induction false} CollectedIsFirstSeen(hrefs: seq<string>, join: string -> string)
    ensures var r, c := Collected(hrefs, join), Candidates(hrefs, join);
      && NoDuplicates(r)
      && (forall u :: u in r <==> u in c)
      && (forall i, j :: 0 <= i < j < |r| ==> FirstPos(c, r[i]) < FirstPos(c, r[j]))
    decreases |hrefs|
  {
    if hrefs != [] {
      var pre := hrefs[..|hrefs| - 1];
      var h := hrefs[|hrefs| - 1];
      CollectedIsFirstSeen(pre, join);
      var r0, c0 := Collected(pre, join), Candidates(pre, join);
      var r, c := Collected(hrefs, join), Candidates(hrefs, join);
      var tail := if IsEventHref(h) then [join(h)] else [];
      assert c == c0 + tail;
      forall u | u in c0 ensures FirstPos(c, u) == FirstPos(c0, u) {
        FirstPosSnoc(c0, tail, u);
      }
      if IsEventHref(h) && join(h) !in r0 {
        assert r == r0 + [join(h)];
        assert FirstPos(c, join(h)) == |c0|;
        forall i, j | 0 <= i < j < |r| ensures FirstPos(c, r[i]) < FirstPos(c, r[j]) {
          assert r[i] == r0[i] && r[i] in c0;
          if j < |r0| {
            assert r[j] == r0[j];
          }
        }
      } else {
        assert r == r0;
        forall i, j | 0 <= i < j < |r| ensures FirstPos(c, r[i]) < FirstPos(c, r[j]) {
          assert r[i] in c0 && r[j] in c0;
        }
      }
    }
  }

  /** Every candidate comes from an anchor whose href contains "event-details". */
  lemma {:induction false} CandidatesFromEventHrefs(hrefs: seq<string>, join: string -> string, u: string)
    requires u in Candidates(hrefs, join)
    ensures exists k :: 0 <= k < |hrefs| && IsEventHref(hrefs[k]) && u == join(hrefs[k])
    decreases |hrefs|
  {
    var pre := hrefs[..|hrefs| - 1];
    var h := hrefs[|hrefs| - 1];
    if u in Candidates(pre, join) {
      CandidatesFromEventHrefs(pre, join, u);
      var k :| 0 <= k < |pre| && IsEventHref(pre[k]) && u == join(pre[k]);
      assert hrefs[k] == pre[k];
    } else {
      assert IsEventHref(h) && u == join(h);
    }
  }

  /** Every event anchor's URL is a candidate. */
  lemma {:induction false} EventHrefsAreCandidates(hrefs: seq<string>, join: string -> string, k: nat)
    requires k < |hrefs| && IsEventHref(hrefs[k])
    ensures join(hrefs[k]) in Candidates(hrefs, join)
    decreases |hrefs|
  {
    var pre := hrefs[..|hrefs| - 1];
    if k < |pre| {
      assert hrefs[k] == pre[k];
      EventHrefsAreCandidates(pre, join, k);
    }
  }

  /** The result of `get_completed_event_urls`: a prefix of the first-seen list of event URLs,
      so repeat-free and in first-seen order; only URLs of event anchors; exactly `limit`
      long (or all of them) for a non-negative limit, and the whole list without one. */
  lemma CompletedEventUrlsProperties(p: ListingPage, join: string -> string, limit: Option<int>)
    ensures var all := Collected(p.hrefs, join);
      var c := Candidates(p.hrefs, join);
      CompletedEventUrls(Ok(p), join, limit).Ok?
      && var urls := CompletedEventUrls(Ok(p), join, limit).value;
      && urls == all[..|urls|]
      && NoDuplicates(urls)
      && (forall i :: 0 <= i < |urls| ==> urls[i] in c)
      && (forall i, j :: 0 <= i < j < |urls| ==> FirstPos(c, urls[i]) < FirstPos(c, urls[j]))
      && (forall u :: u in urls ==> exists k :: 0 <= k < |p.hrefs| && IsEventHref(p.hrefs[k]) && u == join(p.hrefs[k]))
      && (limit.None? ==> urls == all && forall k :: 0 <= k < |p.hrefs| && IsEventHref(p.hrefs[k]) ==> join(p.hrefs[k]) in urls)
      && (limit.Some? && limit.value >= 0 ==> |urls| <= limit.value)
  {
    var all := Collected(p.hrefs, join);
    var c := Candidates(p.hrefs, join);
    var urls := Slice(all, limit);
    CollectedIsFirstSeen(p.hrefs, join);
    forall u | u in urls ensures exists k :: 0 <= k < |p.hrefs| && IsEventHref(p.hrefs[k]) && u == join(p.hrefs[k]) {
      assert u in all;
      CandidatesFromEventHrefs(p.hrefs, join, u);
    }
    forall k | 0 <= k < |p.hrefs| && IsEventHref(p.hrefs[k]) ensures join(p.hrefs[k]) in all {
      EventHrefsAreCandidates(p.hrefs, join, k);
    }
    forall i, j | 0 <= i < j < |urls| ensures FirstPos(c, urls[i]) < FirstPos(c, urls[j]) && urls[i] != urls[j] {
      assert urls[i] == all[i] && urls[j] == all[j];
    }
  }
}
