/**
 * The small text codecs of scripts/scrape_ufcstats.py: clock text to seconds,
 * "X of Y" to a (landed, attempted) pair, and a details URL to the id it ends with.
 */
module Codecs {
  import opened Common
  import opened Text

  // ---------------------------------------------------------------------------
  // parse_time_to_seconds

  /** `parse_time_to_seconds`: "M:S" to seconds; "--" and "0:00" to 0; missing or malformed text to `None`.
      Every failure of the unpacking or of `int()` is caught, so the function never raises. */
  function ParseTimeToSeconds(time: Option<string>): (r: Option<int>)
    ensures r.Some? ==> time.Some? && Strip(time.value, Whitespace) != []
  {
    if time.None? || time.value == [] then None else StrippedClock(Strip(time.value, Whitespace))
  }

  /** The rest of `parse_time_to_seconds` once the text is stripped. */
  function StrippedClock(t: string): Option<int> {
    if t == "--" || t == "0:00" then Some(0) else ClockParts(SplitOn(t, ':'))
  }

  /** `minutes, seconds = parts; int(minutes) * 60 + int(seconds)`, with `None` where Python raises. */
  function ClockParts(parts: seq<string>): Option<int> {
    if |parts| != 2 then None
    else
      var minutes, seconds := ParseInt(parts[0]), ParseInt(parts[1]);
      if minutes.Some? && seconds.Some? then Some(minutes.value * 60 + seconds.value) else None
  }

  lemma ClockPartsValue(x: string, y: string, m: int, s: int)
    requires ParseInt(x) == Some(m) && ParseInt(y) == Some(s)
    ensures ClockParts([x, y]) == Some(m * 60 + s)
  {
  }

  /** Missing or empty clock text has no value. */
  lemma ParseTimeMissing()
    ensures ParseTimeToSeconds(None) == None
    ensures ParseTimeToSeconds(Some("")) == None
  {
  }

  /** The two placeholders the site shows for "no time" read as zero, whatever whitespace surrounds them. */
  lemma ParseTimePlaceholders(t: string)
    requires Strip(t, Whitespace) == "--" || Strip(t, Whitespace) == "0:00"
    ensures ParseTimeToSeconds(Some(t)) == Some(0)
  {
  }

  /** The general case: stripped text that is not a placeholder and splits into two integers. */
  lemma ParseTimeSplit(t: string, x: string, y: string, m: int, s: int)
    requires t != [] && Strip(t, Whitespace) == t && t != "--" && t != "0:00"
    requires SplitOn(t, ':') == [x, y] && ParseInt(x) == Some(m) && ParseInt(y) == Some(s)
    ensures ParseTimeToSeconds(Some(t)) == Some(m * 60 + s)
  {
    ClockPartsValue(x, y, m, s);
  }

  /** `x + ":" + y` with no colon in `x` or `y` splits into exactly `x` and `y`. */
  lemma SplitAtColon(x: string, y: string)
    requires forall i :: 0 <= i < |x| ==> x[i] != ':'
    requires forall i :: 0 <= i < |y| ==> y[i] != ':'
    ensures SplitOn(x + ":" + y, ':') == [x, y]
  {
    assert x + [':'] + y == x + ":" + y;
    SplitOnPiece(x, y, ':');
    SplitOnNone(y, ':');
  }

  /** A clock written as `str(m) + ":" + str(s)` reads back as `m * 60 + s` seconds. */
  lemma ParseTimeRoundTrip(m: nat, s: nat)
    ensures ParseTimeToSeconds(Some(Show(m) + ":" + Show(s))) == Some(m * 60 + s)
  {
    var x, y := Show(m), Show(s);
    DigitsHaveNoColon(x);
    DigitsHaveNoColon(y);
    DigitsAreNotSpace(x);
    DigitsAreNotSpace(y);
    ParseIntShow(m);
    ParseIntShow(s);
    ParseTimeOneColon(x, y, m, s);
  }

  /** Exactly one colon between two integer parts gives `minutes * 60 + seconds`;
      whitespace next to the colon is allowed, as `int()` allows it. */
  lemma ParseTimeOneColon(x: string, y: string, m: int, s: int)
    requires x != [] && x[0] !in Whitespace && y != [] && y[|y| - 1] !in Whitespace
    requires forall i :: 0 <= i < |x| ==> x[i] != ':'
    requires forall i :: 0 <= i < |y| ==> y[i] != ':'
    requires ParseInt(x) == Some(m) && ParseInt(y) == Some(s)
    ensures ParseTimeToSeconds(Some(x + ":" + y)) == Some(m * 60 + s)
  {
    var t := x + ":" + y;
    assert t[0] == x[0] && t[|t| - 1] == y[|y| - 1];
    StripUnchanged(t, Whitespace);
    SplitAtColon(x, y);
    assert t[|x|] == ':';
    if t == "0:00" {
      ZeroClockParts(x, y);
      ParseIntZeros();
      ParseTimePlaceholders(t);
    } else {
      assert t != "--" by { assert t[|x|] == ':'; }
      ParseTimeSplit(t, x, y, m, s);
    }
  }

  /** The only colon-free split of "0:00" around a colon is "0" and "00". */
  lemma ZeroClockParts(x: string, y: string)
    requires x != [] && forall i :: 0 <= i < |x| ==> x[i] != ':'
    requires x + ":" + y == "0:00"
    ensures x == "0" && y == "00"
  {
    var t := x + ":" + y;
    assert t[|x|] == ':';
    assert |x| == 1;
    assert t[..1] == x && t[2..] == y;
  }

  /** Whitespace around the whole clock text changes nothing. */
  lemma ParseTimeOuterWhitespace(t: string)
    ensures ParseTimeToSeconds(Some(t)) == ParseTimeToSeconds(Some(Strip(t, Whitespace)))
  {
    var u := Strip(t, Whitespace);
    if t == [] {
      assert u == [];
    } else if u == [] {
      assert ParseTimeToSeconds(Some(t)) == StrippedClock(u);
      assert SplitOn(u, ':') == [[]];
    } else {
      StripUnchanged(u, Whitespace);
      assert ParseTimeToSeconds(Some(t)) == StrippedClock(u);
      assert ParseTimeToSeconds(Some(u)) == StrippedClock(u);
    }
  }

  /** A clock text has a value only when, stripped, it is a placeholder or splits at its one
      colon into two integers: every other text is malformed and gives `None`. */
  lemma ParseTimeOnlyClocks(t: string)
    requires ParseTimeToSeconds(Some(t)).Some?
    ensures var u := Strip(t, Whitespace);
      || u == "--" || u == "0:00"
      || (|SplitOn(u, ':')| == 2 && ParseInt(SplitOn(u, ':')[0]).Some? && ParseInt(SplitOn(u, ':')[1]).Some?)
  {
  }

  /** Text that is no clock at all, such as "garbage", has no value. */
  lemma ParseTimeGarbage()
    ensures ParseTimeToSeconds(Some("garbage")) == None
  {
    var g := "garbage";
    assert g[0] !in Whitespace && g[|g| - 1] !in Whitespace;
    StripUnchanged(g, Whitespace);
    assert ParseTimeToSeconds(Some(g)) == StrippedClock(g);
    assert g != "--" && g != "0:00" by { assert |g| == 7; }
    assert forall i :: 0 <= i < |g| ==> g[i] != ':';
    SplitOnNone(g, ':');
  }

  lemma ParseIntZeros()
    ensures ParseInt("0") == Some(0) && ParseInt("00") == Some(0)
  {
    ParseIntAllZeros("0");
    ParseIntAllZeros("00");
  }

  /** `int()` of a run of zeros is zero. */
  lemma ParseIntAllZeros(d: string)
    requires d != [] && forall i :: 0 <= i < |d| ==> d[i] == '0'
    ensures ParseInt(d) == Some(0)
  {
    ParseIntDigits(d);
    DigitsValueZeros(d);
  }

  lemma {:induction false} DigitsValueZeros(d: string)
    requires forall i :: 0 <= i < |d| ==> d[i] == '0'
    ensures DigitsValue(d) == 0
    decreases |d|
  {
    if d != [] {
      DigitsValueZeros(d[..|d| - 1]);
    }
  }

  lemma DigitsHaveNoColon(s: string)
    requires IsDigits(s)
    ensures forall i :: 0 <= i < |s| ==> s[i] != ':'
  {
    forall i | 0 <= i < |s| ensures s[i] != ':' {
      assert IsDigit(s[i]);
    }
  }

  // ---------------------------------------------------------------------------
  // parse_x_of_y: the regular expression (\d+)\s*of\s*(\d+), searched leftmost-first

  /** The length of the run of characters satisfying `digits ? IsDigit : in Whitespace` at `i`. */
  function RunLength(s: string, i: nat, digits: bool): (n: nat)
    requires i <= |s|
    ensures i + n <= |s|
    ensures forall k :: i <= k < i + n ==> (if digits then IsDigit(s[k]) else s[k] in Whitespace)
    ensures i + n == |s| || !(if digits then IsDigit(s[i + n]) else s[i + n] in Whitespace)
    decreases |s| - i
  {
    if i < |s| && (if digits then IsDigit(s[i]) else s[i] in Whitespace) then 1 + RunLength(s, i + 1, digits) else 0
  }

  /** The match of `(\d+)\s*of\s*(\d+)` that starts at `i`, as its two captured numbers.
      Both repetitions are greedy and nothing after them can use a shorter run, so the
      first group is the whole digit run at `i` and the second the whole digit run after "of". */
  function MatchAt(s: string, i: nat): Option<(nat, nat)>
    requires i <= |s|
  {
    var d1 := RunLength(s, i, true);
    if d1 == 0 then None else MatchOf(s, i + d1, DigitsValue(s[i..i + d1]))
  }

  /** The literal "of" occupies `s[j..j + 2]`. */
  predicate OfAt(s: string, j: nat) {
    j + 2 <= |s| && s[j] == 'o' && s[j + 1] == 'f'
  }

  /** The rest of the match once the first number, worth `first`, ends at `e`: `\s*of`. */
  function MatchOf(s: string, e: nat, first: nat): Option<(nat, nat)>
    requires e <= |s|
  {
    var j := e + RunLength(s, e, false);
    if !OfAt(s, j) then None
    else MatchSecond(s, j + 2 + RunLength(s, j + 2, false), first)
  }

  /** The rest of the match once the whitespace after "of" ends at `k`: `(\d+)`. */
  function MatchSecond(s: string, k: nat, first: nat): Option<(nat, nat)>
    requires k <= |s|
  {
    var d2 := RunLength(s, k, true);
    if d2 == 0 then None else Some((first, DigitsValue(s[k..k + d2])))
  }

  /** The leftmost position at or after `i` where the pattern matches. */
  function FirstMatch(s: string, i: nat): (r: Option<nat>)
    requires i <= |s|
    ensures r.Some? ==> i <= r.value <= |s| && MatchAt(s, r.value).Some?
    ensures r.Some? ==> forall k :: i <= k < r.value ==> MatchAt(s, k).None?
    ensures r.None? ==> forall k :: i <= k <= |s| ==> MatchAt(s, k).None?
    decreases |s| - i
  {
    if MatchAt(s, i).Some? then Some(i)
    else if i == |s| then None
    else FirstMatch(s, i + 1)
  }

  /** `parse_x_of_y`: the two numbers of the leftmost "X of Y" in the text, or `(None, None)`.
      Either both halves are present or neither is, and present ones are never negative. */
  function ParseXOfY(text: Option<string>): (r: (Option<int>, Option<int>))
    ensures r.0.Some? <==> r.1.Some?
    ensures r.0.Some? ==> r.0.value >= 0 && r.1.value >= 0
  {
    if text.None? || text.value == [] then (None, None)
    else
      match FirstMatch(text.value, 0)
      case None => (None, None)
      case Some(i) =>
        var (landed, attempted) := MatchAt(text.value, i).value;
        (Some(landed), Some(attempted))
  }

  /** Missing or empty text gives `(None, None)`. */
  lemma ParseXOfYMissing()
    ensures ParseXOfY(None) == (None, None)
    ensures ParseXOfY(Some("")) == (None, None)
  {
  }

  /** A present result comes from the leftmost match: some position matches with
      exactly these numbers and no earlier position matches at all. */
  lemma ParseXOfYLeftmost(text: string)
    requires ParseXOfY(Some(text)).0.Some?
    ensures exists i :: 0 <= i <= |text| && MatchAt(text, i) == Some((ParseXOfY(Some(text)).0.value as nat, ParseXOfY(Some(text)).1.value as nat))
                && forall k :: 0 <= k < i ==> MatchAt(text, k).None?
  {
    var i := FirstMatch(text, 0).value;
    assert MatchAt(text, i) == Some((ParseXOfY(Some(text)).0.value as nat, ParseXOfY(Some(text)).1.value as nat));
  }

  /** A text with no match anywhere gives `(None, None)`. */
  lemma ParseXOfYNoMatch(text: string)
    requires forall i :: 0 <= i <= |text| ==> MatchAt(text, i).None?
    ensures ParseXOfY(Some(text)) == (None, None)
  {
  }

  /** The run of digits starting at `i` is exactly `n` long when the `n` characters there are
      digits and the next one is not. */
  lemma RunLengthIs(s: string, i: nat, n: nat, digits: bool)
    requires i + n <= |s|
    requires forall k :: i <= k < i + n ==> (if digits then IsDigit(s[k]) else s[k] in Whitespace)
    requires i + n == |s| || !(if digits then IsDigit(s[i + n]) else s[i + n] in Whitespace)
    ensures RunLength(s, i, digits) == n
  {
  }

  /** A match at `i` whose first number is the digit run `s[i..e]` goes on to look for "of". */
  lemma MatchAtStep(s: string, i: nat, e: nat)
    requires i < e <= |s| && forall k :: i <= k < e ==> IsDigit(s[k])
    requires e == |s| || !IsDigit(s[e])
    ensures MatchAt(s, i) == MatchOf(s, e, DigitsValue(s[i..e]))
  {
    RunLengthIs(s, i, e - i, true);
    var d1 := RunLength(s, i, true);
    assert i + d1 == e;
    assert s[i..i + d1] == s[i..e];
  }

  /** Whitespace, "of" at `j`, and whitespace up to `k` lead to the second number at `k`. */
  lemma MatchOfStep(s: string, e: nat, j: nat, k: nat, first: nat)
    requires e <= j && j + 2 <= k <= |s| && OfAt(s, j)
    requires forall m :: e <= m < j ==> s[m] in Whitespace
    requires forall m :: j + 2 <= m < k ==> s[m] in Whitespace
    requires k == |s| || s[k] !in Whitespace
    ensures MatchOf(s, e, first) == MatchSecond(s, k, first)
  {
    RunLengthIs(s, e, j - e, false);
    RunLengthIs(s, j + 2, k - j - 2, false);
    assert e + RunLength(s, e, false) == j;
    assert j + 2 + RunLength(s, j + 2, false) == k;
  }

  /** A second number that is the digit run `s[k..f]` completes the match. */
  lemma MatchSecondStep(s: string, k: nat, f: nat, first: nat)
    requires k < f <= |s| && forall m :: k <= m < f ==> IsDigit(s[m])
    requires f == |s| || !IsDigit(s[f])
    ensures MatchSecond(s, k, first) == Some((first, DigitsValue(s[k..f])))
  {
    RunLengthIs(s, k, f - k, true);
  }

  /** A digit run, one blank, "of", one blank and a digit run to the end match at the start. */
  lemma MatchNumberOfNumber(s: string, n: nat)
    requires 0 < n && n + 4 < |s|
    requires forall k :: 0 <= k < n ==> IsDigit(s[k])
    requires s[n] == ' ' && OfAt(s, n + 1) && s[n + 3] == ' '
    requires forall k :: n + 4 <= k < |s| ==> IsDigit(s[k])
    ensures MatchAt(s, 0) == Some((DigitsValue(s[0..n]), DigitsValue(s[n + 4..|s|])))
  {
    var first := DigitsValue(s[0..n]);
    MatchAtStep(s, 0, n);
    MatchOfStep(s, n, n + 1, n + 4, first);
    MatchSecondStep(s, n + 4, |s|, first);
  }

  /** Two digit strings around " of " match at the start with their own values. */
  lemma MatchDigitsOfDigits(x: string, y: string)
    requires IsDigits(x) && IsDigits(y)
    ensures MatchAt(x + " of " + y, 0) == Some((DigitsValue(x), DigitsValue(y)))
  {
    var s := x + " of " + y;
    var n := |x|;
    assert forall k :: 0 <= k < n ==> IsDigit(s[k]) by {
      forall k | 0 <= k < n ensures IsDigit(s[k]) { assert s[k] == x[k]; }
    }
    assert forall k :: n + 4 <= k < |s| ==> IsDigit(s[k]) by {
      forall k | n + 4 <= k < |s| ensures IsDigit(s[k]) { assert s[k] == y[k - n - 4]; }
    }
    assert s[n] == ' ' && s[n + 3] == ' ' && OfAt(s, n + 1);
    assert s[0..n] == x && s[n + 4..|s|] == y;
    MatchNumberOfNumber(s, n);
  }

  /** "L of A", as `str(landed) + " of " + str(attempted)`, reads back as `(L, A)`;
      nothing requires `L <= A`. */
  lemma ParseXOfYRoundTrip(landed: nat, attempted: nat)
    ensures ParseXOfY(Some(Show(landed) + " of " + Show(attempted))) == (Some(landed), Some(attempted))
  {
    var x, y := Show(landed), Show(attempted);
    MatchDigitsOfDigits(x, y);
    ShowRoundTrip(landed);
    ShowRoundTrip(attempted);
  }

  /** No match starts inside the first number of "X OF Y": the word after it is not "of". */
  lemma UpperOfNoMatchInFirst(x: string, y: string, i: nat)
    requires IsDigits(x) && IsDigits(y) && i < |x|
    ensures MatchAt(x + " OF " + y, i).None?
  {
    var s := x + " OF " + y;
    var n := |x|;
    assert forall k :: i <= k < n ==> IsDigit(s[k]) by {
      forall k | i <= k < n ensures IsDigit(s[k]) { assert s[k] == x[k]; }
    }
    assert s[n] == ' ' && s[n + 1] == 'O';
    MatchAtStep(s, i, n);
    NoOfAfter(s, n, DigitsValue(s[i..n]));
  }

  /** After a first number ending at `e`, one blank and a character other than 'o', no "of" follows. */
  lemma NoOfAfter(s: string, e: nat, first: nat)
    requires e + 1 < |s| && s[e] == ' ' && s[e + 1] != 'o' && s[e + 1] !in Whitespace
    ensures MatchOf(s, e, first).None?
  {
    RunLengthIs(s, e, 1, false);
    assert !OfAt(s, e + 1);
  }

  /** No match starts at the " OF " between the numbers: no digit is there. */
  lemma UpperOfNoMatchInMiddle(x: string, y: string, i: nat)
    requires |x| <= i < |x| + 4
    ensures MatchAt(x + " OF " + y, i).None?
  {
    var s := x + " OF " + y;
    assert s[i] == " OF "[i - |x|];
    RunLengthIs(s, i, 0, true);
  }

  /** No match starts inside the second number of "X OF Y": no "of" follows it. */
  lemma UpperOfNoMatchInSecond(x: string, y: string, i: nat)
    requires IsDigits(x) && IsDigits(y) && |x| + 4 <= i <= |x| + 4 + |y|
    ensures MatchAt(x + " OF " + y, i).None?
  {
    var s := x + " OF " + y;
    var n := |x|;
    assert forall k :: i <= k < |s| ==> IsDigit(s[k]) by {
      forall k | i <= k < |s| ensures IsDigit(s[k]) { assert s[k] == y[k - n - 4]; }
    }
    RunLengthIs(s, i, |s| - i, true);
    if i < |s| {
      MatchAtStep(s, i, |s|);
      RunLengthIs(s, |s|, 0, false);
    }
  }

  /** The word "of" is matched case-sensitively: "L OF A" gives `(None, None)`. */
  lemma ParseXOfYCaseSensitive(landed: nat, attempted: nat)
    ensures ParseXOfY(Some(Show(landed) + " OF " + Show(attempted))) == (None, None)
  {
    var x, y := Show(landed), Show(attempted);
    var s := x + " OF " + y;
    var n := |x|;
    forall i | 0 <= i <= |s| ensures MatchAt(s, i).None? {
      if i < n {
        UpperOfNoMatchInFirst(x, y, i);
      } else if i < n + 4 {
        UpperOfNoMatchInMiddle(x, y, i);
      } else {
        UpperOfNoMatchInSecond(x, y, i);
      }
    }
    ParseXOfYNoMatch(s);
  }

  // ---------------------------------------------------------------------------
  // href.split("fighter-details/")[-1].strip("/")

  const FighterMarker: string := "fighter-details/"
  const FightMarker: string := "fight-details/"

  /** A marker that ends with its only slash, as both details markers do. */
  predicate SlashTerminated(marker: string) {
    |marker| > 0 && marker[|marker| - 1] == '/' && forall i :: 0 <= i < |marker| - 1 ==> marker[i] != '/'
  }

  lemma MarkersSlashTerminated()
    ensures SlashTerminated(FighterMarker) && SlashTerminated(FightMarker)
  {
  }

  /** `url.split(marker)[-1].strip("/")`: the id a details URL ends with. */
  function IdFromUrl(url: string, marker: string): (id: string)
    requires marker != []
    ensures id == [] || (id[0] != '/' && id[|id| - 1] != '/')
  {
    Strip(SplitLast(url, marker), {'/'})
  }

  /** The last piece of a split by a slash-terminated marker, unless it is the whole string,
      comes right after a slash. */
  lemma MarkerEndsBefore(s: string, marker: string, r: string)
    requires SlashTerminated(marker) && IsSuffix(r, s) && |r| < |s|
    requires OccursAt(s, marker, |s| - |r| - |marker|)
    ensures s[|s| - |r| - 1] == '/'
  {
    var p := |s| - |r| - |marker|;
    assert s[p..p + |marker|][|marker| - 1] == marker[|marker| - 1];
  }

  /** When a slash-terminated marker ends at `n` and no slash follows, the last piece is `s[n..]`. */
  lemma SplitLastAfterMarker(s: string, marker: string, n: nat)
    requires SlashTerminated(marker) && |marker| <= n <= |s| && OccursAt(s, marker, n - |marker|)
    requires forall i :: n <= i < |s| ==> s[i] != '/'
    ensures SplitLast(s, marker) == s[n..]
  {
    var r := SplitLast(s, marker);
    var m := n - |marker|;
    assert forall i :: m <= i < n - 1 ==> s[i] != '/' by {
      forall i | m <= i < n - 1 ensures s[i] != '/' { assert s[i] == s[m..n][i - m]; }
    }
    OccurrenceInSuffix(s, marker, r, m);
    assert m < |s| - |r|;
    MarkerEndsBefore(s, marker, r);
    assert |r| == |s| - n;
  }

  /** An occurrence that starts inside a suffix is an occurrence in that suffix. */
  lemma OccurrenceInSuffix(s: string, p: string, r: string, m: nat)
    requires IsSuffix(r, s) && OccursAt(s, p, m)
    ensures |s| - |r| <= m ==> OccursAt(r, p, m - (|s| - |r|))
  {
    if |s| - |r| <= m {
      var j := m - (|s| - |r|);
      assert r[j..j + |p|] == s[m..m + |p|];
    }
  }

  /** Whatever precedes the marker, the id is exactly the slash-free text after it. */
  lemma IdFromUrlSuffix(x: string, marker: string, id: string)
    requires SlashTerminated(marker)
    requires forall i :: 0 <= i < |id| ==> id[i] != '/'
    ensures IdFromUrl(x + marker + id, marker) == id
  {
    var s := x + marker + id;
    var n := |x| + |marker|;
    assert s[|x|..n] == marker;
    assert s[n..] == id;
    SplitLastAfterMarker(s, marker, n);
    StripUnchanged(id, {'/'});
  }

  /** With a trailing slash, as many details URLs have one, the id is still the text between the
      marker and that slash, as long as the id holds no slash and no hyphen (ids are hexadecimal),
      so that no later occurrence of the marker can start inside it. */
  lemma IdFromUrlTrailingSlash(x: string, marker: string, id: string)
    requires SlashTerminated(marker) && '-' in marker
    requires forall i :: 0 <= i < |id| ==> id[i] != '/' && id[i] != '-'
    ensures IdFromUrl(x + marker + id + "/", marker) == id
  {
    SplitLastTrailingSlash(x, marker, id);
    TrimTrailingSlash(id);
  }

  /** The last piece of `x + marker + id + "/"` split by the marker is `id + "/"`. */
  lemma SplitLastTrailingSlash(x: string, marker: string, id: string)
    requires SlashTerminated(marker) && '-' in marker
    requires forall i :: 0 <= i < |id| ==> id[i] != '/' && id[i] != '-'
    ensures SplitLast(x + marker + id + "/", marker) == id + "/"
  {
    TrailingSlashLayout(x, marker, id);
    SplitLastBeforeFinalSlash(x + marker + id + "/", marker, |x|);
  }

  /** Where the marker, the id and the final slash sit in `x + marker + id + "/"`. */
  lemma TrailingSlashLayout(x: string, marker: string, id: string)
    requires forall i :: 0 <= i < |id| ==> id[i] != '/' && id[i] != '-'
    ensures var s := x + marker + id + "/";
      && OccursAt(s, marker, |x|) && |x| + |marker| < |s| && s[|s| - 1] == '/'
      && (forall j :: |x| + |marker| <= j < |s| - 1 ==> s[j] != '/' && s[j] != '-')
      && s[|x| + |marker|..] == id + "/"
  {
    var s := x + marker + id + "/";
    var m, n := |x|, |x| + |marker|;
    assert s[m..n] == marker;
    assert forall j :: n <= j < |s| - 1 ==> s[j] == id[j - n];
    assert s[n..] == id + "/";
  }

  /** A slash-terminated marker holding a hyphen, followed by text free of slashes and hyphens
      and a final slash: the last piece is that text and the final slash. */
  lemma SplitLastBeforeFinalSlash(s: string, marker: string, m: nat)
    requires SlashTerminated(marker) && '-' in marker
    requires OccursAt(s, marker, m) && m + |marker| < |s| && s[|s| - 1] == '/'
    requires forall j :: m + |marker| <= j < |s| - 1 ==> s[j] != '/' && s[j] != '-'
    ensures SplitLast(s, marker) == s[m + |marker|..]
  {
    forall p | m < p + |marker| && OccursAt(s, marker, p) ensures p == m {
      LastMarkerAt(s, marker, m, p);
    }
    SplitLastAtLastMarker(s, marker, m);
  }

  /** When no occurrence of the marker ends after the one at `m` ends, the last piece is what
      follows that occurrence. */
  lemma SplitLastAtLastMarker(s: string, marker: string, m: nat)
    requires marker != [] && OccursAt(s, marker, m)
    requires forall p :: m < p + |marker| && OccursAt(s, marker, p) ==> p == m
    ensures SplitLast(s, marker) == s[m + |marker|..]
  {
    var r := SplitLast(s, marker);
    OccurrenceInSuffix(s, marker, r, m);
    assert m < |s| - |r|;
    assert OccursAt(s, marker, |s| - |r| - |marker|);
  }

  /** Under the same layout, no other occurrence of the marker ends after the one at `m` starts. */
  lemma LastMarkerAt(s: string, marker: string, m: nat, p: int)
    requires SlashTerminated(marker) && '-' in marker
    requires OccursAt(s, marker, m) && m + |marker| < |s| && s[|s| - 1] == '/'
    requires forall j :: m + |marker| <= j < |s| - 1 ==> s[j] != '/' && s[j] != '-'
    requires m < p + |marker| && OccursAt(s, marker, p)
    ensures p == m
  {
    var n := m + |marker|;
    assert forall j :: p <= j < p + |marker| ==> s[j] == marker[j - p] by {
      forall j | p <= j < p + |marker| ensures s[j] == marker[j - p] {
        assert s[j] == s[p..p + |marker|][j - p];
      }
    }
    assert forall j :: m <= j < n ==> s[j] == marker[j - m] by {
      forall j | m <= j < n ensures s[j] == marker[j - m] {
        assert s[j] == s[m..n][j - m];
      }
    }
    var k :| 0 <= k < |marker| && marker[k] == '-';
    assert s[p + k] == '-';
    assert s[p + |marker| - 1] == '/';
  }

  /** `(id + "/").strip("/")` for an id without slashes. */
  lemma TrimTrailingSlash(id: string)
    requires forall i :: 0 <= i < |id| ==> id[i] != '/'
    ensures Strip(id + "/", {'/'}) == id
  {
    var u := id + "/";
    if id == [] {
      assert TrimStart(u, {'/'}) == [];
    } else {
      assert u[0] == id[0];
      assert TrimStart(u, {'/'}) == u;
      assert u[..|u| - 1] == id;
      assert TrimEnd(id, {'/'}) == id;
    }
  }
}
