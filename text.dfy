/**
 * The handful of Python `str` operations the scraper relies on, over ASCII:
 * `strip`, `split`, `in`, `startswith`, `lower`, `isdigit`, `int` and `str.join`.
 */
module Text {
  import opened Common

  /** The characters `str.strip()` and `str.split()` treat as whitespace (ASCII part): the blank,
      tab to carriage return, and the four separators 0x1C to 0x1F. */
  const Whitespace: set<char> := set c: char | c == ' ' || '\t' <= c <= '\r' || '\U{1C}' <= c <= '\U{1F}'

  predicate IsDigit(c: char) { '0' <= c <= '9' }

  /** `str.isdigit()`: at least one character, and every character a digit. */
  predicate IsDigits(s: string) {
    |s| > 0 && forall i :: 0 <= i < |s| ==> IsDigit(s[i])
  }

  function DigitValue(c: char): (d: nat)
    requires IsDigit(c)
    ensures d < 10
  {
    (c as int) - ('0' as int)
  }

  function DigitChar(d: nat): (c: char)
    requires d < 10
    ensures IsDigit(c) && DigitValue(c) == d
  {
    ('0' as int + d) as char
  }

  /** The decimal value of a string of digits. */
  function DigitsValue(s: string): nat
    requires forall i :: 0 <= i < |s| ==> IsDigit(s[i])
    decreases |s|
  {
    if s == [] then 0 else DigitsValue(s[..|s| - 1]) * 10 + DigitValue(s[|s| - 1])
  }

  /** `str(n)` for a natural number: its decimal digits, without leading zeros. */
  function Show(n: nat): (r: string)
    ensures IsDigits(r)
    ensures r[0] == '0' ==> n == 0
    decreases n
  {
    if n < 10 then [DigitChar(n)] else Show(n / 10) + [DigitChar(n % 10)]
  }

  /** Reading back what `Show` wrote gives the number again. */
  lemma {:induction false} ShowRoundTrip(n: nat)
    ensures DigitsValue(Show(n)) == n
    decreases n
  {
    if n >= 10 {
      ShowRoundTrip(n / 10);
      var s := Show(n);
      assert s[..|s| - 1] == Show(n / 10);
    }
  }

  // ---------------------------------------------------------------------------
  // strip

  /** Drops the leading characters that belong to `cs`. */
  function TrimStart(s: string, cs: set<char>): (r: string)
    ensures |r| <= |s| && r == s[|s| - |r|..]
    ensures forall i :: 0 <= i < |s| - |r| ==> s[i] in cs
    ensures r == [] || r[0] !in cs
    decreases |s|
  {
    if s != [] && s[0] in cs then TrimStart(s[1..], cs) else s
  }

  /** Drops the trailing characters that belong to `cs`. */
  function TrimEnd(s: string, cs: set<char>): (r: string)
    ensures |r| <= |s| && r == s[..|r|]
    ensures forall i :: |r| <= i < |s| ==> s[i] in cs
    ensures r == [] || r[|r| - 1] !in cs
    decreases |s|
  {
    if s != [] && s[|s| - 1] in cs then TrimEnd(s[..|s| - 1], cs) else s
  }

  /** `s.strip(chars)`: `s` without the characters of `cs` at either end. */
  function Strip(s: string, cs: set<char>): (r: string)
    ensures r == [] || (r[0] !in cs && r[|r| - 1] !in cs)
  {
    TrimEnd(TrimStart(s, cs), cs)
  }

  /** A string that already has no stripped character at either end is left alone. */
  lemma StripUnchanged(s: string, cs: set<char>)
    requires s == [] || (s[0] !in cs && s[|s| - 1] !in cs)
    ensures Strip(s, cs) == s
  {
  }

  // ---------------------------------------------------------------------------
  // substring search

  predicate StartsWith(s: string, p: string) {
    |p| <= |s| && s[..|p|] == p
  }

  /** `p` occurs in `s` at position `i`. */
  predicate OccursAt(s: string, p: string, i: int) {
    0 <= i && i + |p| <= |s| && s[i..i + |p|] == p
  }

  /** `r` is a suffix of `s`. */
  predicate IsSuffix(r: string, s: string) {
    |r| <= |s| && r == s[|s| - |r|..]
  }

  /** `s.find(p, k)`: the first position at or after `k` where `p` occurs. */
  function IndexFrom(s: string, p: string, k: nat): (r: Option<nat>)
    ensures r.Some? ==> k <= r.value && OccursAt(s, p, r.value)
    ensures r.Some? ==> forall j :: k <= j < r.value ==> !OccursAt(s, p, j)
    ensures r.None? ==> forall j :: k <= j ==> !OccursAt(s, p, j)
    decreases |s| - k
  {
    if k + |p| > |s| then None
    else if OccursAt(s, p, k) then Some(k)
    else IndexFrom(s, p, k + 1)
  }

  /** Python's `p in s`. */
  predicate Contains(s: string, p: string) {
    IndexFrom(s, p, 0).Some?
  }

  /** `Contains` holds exactly when `p` occurs somewhere in `s`. */
  lemma ContainsIff(s: string, p: string)
    ensures Contains(s, p) <==> exists i :: OccursAt(s, p, i)
  {
  }

  // ---------------------------------------------------------------------------
  // split

  /** An occurrence inside a suffix is an occurrence in the whole string. */
  lemma OccursInSuffix(s: string, p: string, t: nat, j: int)
    requires t <= |s| && OccursAt(s[t..], p, j)
    ensures OccursAt(s, p, t + j)
  {
    assert s[t..][j..j + |p|] == s[t + j..t + j + |p|];
  }

  /** Where the last piece of a left-to-right split by `sep` begins, when the scan starts at `k`:
      no separator occurs from there on, and unless it is `k` a separator ends just there. */
  function PieceStart(s: string, sep: string, k: nat): (t: nat)
    requires sep != [] && k <= |s|
    ensures k <= t <= |s|
    ensures forall j :: t <= j ==> !OccursAt(s, sep, j)
    ensures t == k || (k + |sep| <= t && OccursAt(s, sep, t - |sep|))
    decreases |s| - k
  {
    var m := IndexFrom(s, sep, k);
    if m.None? then k else PieceStart(s, sep, m.value + |sep|)
  }

  /** `s.split(sep)[-1]`: a suffix of `s` holding no separator,
      either all of `s` or immediately preceded by a separator. */
  function SplitLast(s: string, sep: string): (r: string)
    requires sep != []
    ensures IsSuffix(r, s)
    ensures forall j :: !OccursAt(r, sep, j)
    ensures |r| == |s| || OccursAt(s, sep, |s| - |r| - |sep|)
  {
    var t := PieceStart(s, sep, 0);
    assert forall j :: !OccursAt(s[t..], sep, j) by {
      forall j | OccursAt(s[t..], sep, j) ensures false {
        OccursInSuffix(s, sep, t, j);
      }
    }
    s[t..]
  }

  /** `s.split(c)` for a one-character separator: the pieces between the separators. */
  function SplitOn(s: string, c: char): (r: seq<string>)
    ensures |r| >= 1
    ensures forall k, i :: 0 <= k < |r| && 0 <= i < |r[k]| ==> r[k][i] != c
    decreases |s|
  {
    if s == [] then [[]]
    else
      var rest := SplitOn(s[1..], c);
      if s[0] == c then [[]] + rest
      else
        var r := [[s[0]] + rest[0]] + rest[1..];
        assert rest == [rest[0]] + rest[1..];
        r
  }

  /** Joining the pieces with the separator gives back the string. */
  lemma {:induction false} SplitOnJoin(s: string, c: char)
    ensures Join(SplitOn(s, c), [c]) == s
    decreases |s|
  {
    if s != [] {
      var rest := SplitOn(s[1..], c);
      SplitOnJoin(s[1..], c);
      if s[0] == c {
        SplitOnSeparatorFirst(s[1..], c);
        assert [c] + s[1..] == s;
      } else {
        SplitOnConsPiece(s, c, rest[0], rest[1..]);
        assert [rest[0]] + rest[1..] == rest;
      }
    }
  }

  /** A piece without the separator, followed by the separator, splits off as one piece. */
  lemma {:induction false} SplitOnPiece(x: string, y: string, c: char)
    requires forall i :: 0 <= i < |x| ==> x[i] != c
    ensures SplitOn(x + [c] + y, c) == [x] + SplitOn(y, c)
    decreases |x|
  {
    if x == [] {
      assert x + [c] + y == [c] + y;
      SplitOnSeparatorFirst(y, c);
    } else {
      SplitOnPiece(x[1..], y, c);
      SplitOnPieceStep(x, y, c);
    }
  }

  /** A leading separator ends an empty first piece. */
  lemma SplitOnSeparatorFirst(y: string, c: char)
    ensures SplitOn([c] + y, c) == [[]] + SplitOn(y, c)
  {
    assert ([c] + y)[1..] == y;
  }

  /** The inductive step of `SplitOnPiece`: a first character that is not the separator
      joins the piece after it. */
  lemma SplitOnPieceStep(x: string, y: string, c: char)
    requires x != [] && x[0] != c
    requires SplitOn(x[1..] + [c] + y, c) == [x[1..]] + SplitOn(y, c)
    ensures SplitOn(x + [c] + y, c) == [x] + SplitOn(y, c)
  {
    var s := x + [c] + y;
    assert s[1..] == x[1..] + [c] + y;
    SplitOnConsPiece(s, c, x[1..], SplitOn(y, c));
    assert [x[0]] + x[1..] == x;
  }

  /** A first character other than the separator joins the first piece of the rest. */
  lemma SplitOnConsPiece(s: string, c: char, p: string, rest: seq<string>)
    requires s != [] && s[0] != c && SplitOn(s[1..], c) == [p] + rest
    ensures SplitOn(s, c) == [[s[0]] + p] + rest
  {
    assert ([p] + rest)[1..] == rest;
  }

  /** A string without the separator is a single piece. */
  lemma {:induction false} SplitOnNone(x: string, c: char)
    requires forall i :: 0 <= i < |x| ==> x[i] != c
    ensures SplitOn(x, c) == [x]
    decreases |x|
  {
    if x != [] {
      SplitOnNone(x[1..], c);
      assert [x[0]] + x[1..] == x;
    }
  }

  /** `sep.join(parts)`. */
  function Join(parts: seq<string>, sep: string): string
    decreases |parts|
  {
    if parts == [] then []
    else if |parts| == 1 then parts[0]
    else parts[0] + sep + Join(parts[1..], sep)
  }

  /** Joining non-empty parts starts with the first part's first character
      and ends with the last part's last character. */
  lemma {:induction false} JoinEnds(parts: seq<string>, sep: string)
    requires |parts| > 0
    requires forall k :: 0 <= k < |parts| ==> parts[k] != []
    ensures Join(parts, sep) != []
    ensures Join(parts, sep)[0] == parts[0][0]
    ensures Join(parts, sep)[|Join(parts, sep)| - 1] == parts[|parts| - 1][|parts[|parts| - 1]| - 1]
    decreases |parts|
  {
    if |parts| > 1 {
      JoinEnds(parts[1..], sep);
    }
  }

  /** `s.split()[0]` for a string that starts with a non-whitespace character:
      the longest prefix free of whitespace. */
  function FirstWord(s: string): (w: string)
    requires s != [] && s[0] !in Whitespace
    ensures w != [] && |w| <= |s| && w == s[..|w|]
    ensures forall i :: 0 <= i < |w| ==> w[i] !in Whitespace
    ensures |w| == |s| || s[|w|] in Whitespace
    decreases |s|
  {
    if |s| == 1 || s[1] in Whitespace then [s[0]] else [s[0]] + FirstWord(s[1..])
  }

  // ---------------------------------------------------------------------------
  // case and numbers

  function LowerChar(c: char): char {
    if 'A' <= c <= 'Z' then (c as int + 32) as char else c
  }

  /** `s.lower()` (ASCII letters only). */
  function ToLower(s: string): (r: string)
    ensures |r| == |s|
    ensures forall i :: 0 <= i < |s| ==> r[i] == LowerChar(s[i])
  {
    seq(|s|, i requires 0 <= i < |s| => LowerChar(s[i]))
  }

  /** `int(s)`: surrounding whitespace, an optional sign, then ASCII digits; `None` where Python raises. */
  function ParseInt(s: string): Option<int> {
    var t := Strip(s, Whitespace);
    if |t| > 0 && (t[0] == '-' || t[0] == '+') && IsDigits(t[1..]) then
      Some(if t[0] == '-' then -(DigitsValue(t[1..]) as int) else DigitsValue(t[1..]))
    else if IsDigits(t) then Some(DigitsValue(t))
    else None
  }

  lemma DigitsAreNotSpace(s: string)
    requires IsDigits(s)
    ensures s[0] !in Whitespace && s[|s| - 1] !in Whitespace
  {
    assert IsDigit(s[0]) && IsDigit(s[|s| - 1]);
  }

  /** `int()` of a plain digit string is its decimal value. */
  lemma ParseIntDigits(d: string)
    requires IsDigits(d)
    ensures ParseInt(d) == Some(DigitsValue(d))
  {
    DigitsAreNotSpace(d);
    StripUnchanged(d, Whitespace);
    assert d[0] != '-' && d[0] != '+' by { assert IsDigit(d[0]); }
  }

  /** `int(str(n)) == n`. */
  lemma ParseIntShow(n: nat)
    ensures ParseInt(Show(n)) == Some(n)
  {
    var s := Show(n);
    DigitsAreNotSpace(s);
    StripUnchanged(s, Whitespace);
    assert Strip(s, Whitespace) == s;
    assert s[0] != '-' && s[0] != '+' by { assert IsDigit(s[0]); }
    ShowRoundTrip(n);
  }
}
