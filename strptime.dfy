/** `datetime.strptime(s, fmt)` for the four formats the validator tries,
    reduced to whether it raises. Each format is three directives joined by
    two literal separators. Python compiles the format to a regular
    expression anchored at the start, takes the first match its ordered
    alternatives give, refuses leftover text ("unconverted data remains")
    and then builds a date, which must exist. */
module Strptime {
  import opened PyStr

  /** `%Y`, `%m`, `%d`. */
  datatype Directive = Year | Month | Day

  datatype Format = Format(
    first: Directive, sep1: char, second: Directive, sep2: char, third: Directive)
  {
    /** The format string this stands for. */
    function Text(): string {
      DirectiveText(first) + [sep1] + DirectiveText(second) + [sep2] + DirectiveText(third)
    }

    /** Each of the three directives occurs once and the separators are not
        characters a directive can match. */
    predicate WellFormed() {
      {first, second, third} == {Year, Month, Day}
      && !IsAsciiDigit(sep1) && sep1 != ' ' && !IsAsciiDigit(sep2) && sep2 != ' '
    }
  }

  function DirectiveText(d: Directive): string {
    match d
    case Year => "%Y"
    case Month => "%m"
    case Day => "%d"
  }

  /** `%Y`: the regex `\d\d\d\d`. */
  predicate YearToken(t: string) {
    |t| == 4 && forall k | 0 <= k < 4 :: IsAsciiDigit(t[k])
  }

  /** `%m`: the regex `1[0-2]|0[1-9]|[1-9]`. */
  predicate MonthToken(t: string) {
    (|t| == 1 && '1' <= t[0] <= '9')
    || (|t| == 2 && t[0] == '1' && '0' <= t[1] <= '2')
    || (|t| == 2 && t[0] == '0' && '1' <= t[1] <= '9')
  }

  /** `%d`: the regex `3[01]|[12]\d|0[1-9]|[1-9]| [1-9]`. */
  predicate DayToken(t: string) {
    (|t| == 1 && '1' <= t[0] <= '9')
    || (|t| == 2 && t[0] == '3' && '0' <= t[1] <= '1')
    || (|t| == 2 && '1' <= t[0] <= '2' && IsAsciiDigit(t[1]))
    || (|t| == 2 && t[0] == '0' && '1' <= t[1] <= '9')
    || (|t| == 2 && t[0] == ' ' && '1' <= t[1] <= '9')
  }

  predicate Token(d: Directive, t: string) {
    match d
    case Year => YearToken(t)
    case Month => MonthToken(t)
    case Day => DayToken(t)
  }

  /** What a token may contain: digits, and a space for `%d`. */
  lemma TokenChars(d: Directive, t: string, k: nat)
    requires Token(d, t) && k < |t|
    ensures IsAsciiDigit(t[k]) || t[k] == ' '
  {
  }

  /** `int(t)` of a matched token; a leading space adds nothing. */
  function TokenValue(t: string): nat {
    if t == [] then 0
    else
      TokenValue(t[..|t| - 1]) * 10
      + (if IsAsciiDigit(t[|t| - 1]) then (t[|t| - 1] - '0') as nat else 0)
  }

  /** The value of a two-digit token, digit by digit. */
  lemma TwoDigitValue(t: string)
    requires |t| == 2 && IsAsciiDigit(t[0]) && IsAsciiDigit(t[1])
    ensures TokenValue(t) == 10 * (t[0] - '0') as nat + (t[1] - '0') as nat
  {
    var h := t[..1];
    assert h[..0] == [] && h[0] == t[0];
    assert TokenValue(h) == (t[0] - '0') as nat;
    assert t[..|t| - 1] == h;
  }

  /** The value of a four-digit token, digit by digit. */
  lemma FourDigitValue(t: string)
    requires YearToken(t)
    ensures TokenValue(t) == 1000 * (t[0] - '0') as nat + 100 * (t[1] - '0') as nat
                             + 10 * (t[2] - '0') as nat + (t[3] - '0') as nat
  {
    assert t[..3][..2] == t[..2];
    TwoDigitValue(t[..2]);
  }

  predicate IsLeapYear(y: int) {
    y % 4 == 0 && (y % 100 != 0 || y % 400 == 0)
  }

  function DaysInMonth(y: int, m: int): nat
    requires 1 <= m <= 12
  {
    if m == 2 then (if IsLeapYear(y) then 29 else 28)
    else if m == 4 || m == 6 || m == 9 || m == 11 then 30
    else 31
  }

  /** `datetime.date(y, m, d)` does not raise. */
  predicate ValidDate(y: int, m: int, d: int) {
    1 <= y <= 9999 && 1 <= m <= 12 && 1 <= d <= DaysInMonth(y, m)
  }

  /** The token a format gives to directive `d`, out of its three tokens. */
  function TokenFor(f: Format, d: Directive, t1: string, t2: string, t3: string): string {
    if f.first == d then t1 else if f.second == d then t2 else t3
  }

  /** The three tokens match their directives and name a real date. */
  predicate TokensMatch(f: Format, t1: string, t2: string, t3: string) {
    Token(f.first, t1) && Token(f.second, t2) && Token(f.third, t3)
    && ValidDate(TokenValue(TokenFor(f, Year, t1, t2, t3)),
                 TokenValue(TokenFor(f, Month, t1, t2, t3)),
                 TokenValue(TokenFor(f, Day, t1, t2, t3)))
  }

  /** Cutting `s` at `i` and `j` around the two separators gives three
      tokens that match. */
  predicate CutsAt(f: Format, s: string, i: int, j: int) {
    0 <= i < j < |s| && s[i] == f.sep1 && s[j] == f.sep2
    && TokensMatch(f, s[..i], s[i + 1..j], s[j + 1..])
  }

  /** `datetime.strptime(s, f.Text())` returns instead of raising: the text
      is cut at the first occurrences of the two separators. */
  predicate Parses(f: Format, s: string) {
    var i := IndexOf(s, f.sep1);
    i >= 0 &&
    var j := IndexOf(s[i + 1..], f.sep2);
    j >= 0 && CutsAt(f, s, i, i + 1 + j)
  }

  /** Where the two cuts fall when the separators are known. */
  lemma CutAt(f: Format, s: string, i: nat, j: nat)
    requires i + 1 + j < |s|
    requires s[i] == f.sep1 && f.sep1 !in s[..i]
    requires s[i + 1 + j] == f.sep2 && f.sep2 !in s[i + 1..i + 1 + j]
    ensures Parses(f, s) <==> TokensMatch(f, s[..i], s[i + 1..i + 1 + j], s[i + 1 + j + 1..])
  {
    IndexOfAt(s, f.sep1, i);
    var rest := s[i + 1..];
    assert rest[..j] == s[i + 1..i + 1 + j];
    IndexOfAt(rest, f.sep2, j);
    if TokensMatch(f, s[..i], s[i + 1..i + 1 + j], s[i + 1 + j + 1..]) {
      assert CutsAt(f, s, i, i + 1 + j);
    }
  }

  /** A text joined from three parts around the two separators, of which
      the first two hold no separator, cuts into those parts. */
  lemma CutJoined(f: Format, a: string, b: string, c: string)
    requires f.sep1 !in a && f.sep2 !in b
    ensures Parses(f, a + [f.sep1] + b + [f.sep2] + c) <==> TokensMatch(f, a, b, c)
  {
    var s := a + [f.sep1] + b + [f.sep2] + c;
    var i, j := |a|, |b|;
    assert s[..i] == a && s[i] == f.sep1;
    assert s[i + 1..i + 1 + j] == b && s[i + 1 + j] == f.sep2;
    assert s[i + 1 + j + 1..] == c;
    CutAt(f, s, i, j);
  }

  /** The regular-expression reading: some way of cutting `s` into three
      tokens around the two separators consumes all of it. */
  ghost predicate MatchesWhole(f: Format, s: string) {
    exists i, j :: CutsAt(f, s, i, j)
  }

  /** Cutting at the first separators is the only way to match, since a
      token never holds a separator; so the first-match-then-leftover-check
      behaviour of `strptime` accepts exactly the texts that match whole. */
  lemma ParsesIffMatchesWhole(f: Format, s: string)
    requires f.WellFormed()
    ensures Parses(f, s) <==> MatchesWhole(f, s)
  {
    if Parses(f, s) {
      var i := IndexOf(s, f.sep1);
      assert CutsAt(f, s, i, i + 1 + IndexOf(s[i + 1..], f.sep2));
    }
    if MatchesWhole(f, s) {
      var i, j :| CutsAt(f, s, i, j);
      WholeMatchParses(f, s, i, j);
    }
  }

  lemma WholeMatchParses(f: Format, s: string, i: int, j: int)
    requires f.WellFormed()
    requires CutsAt(f, s, i, j)
    ensures Parses(f, s)
  {
    NoSeparatorIn(f.first, s[..i], f.sep1);
    NoSeparatorIn(f.second, s[i + 1..j], f.sep2);
    var k := j - i - 1;
    assert i + 1 + k == j;
    CutAt(f, s, i, k);
  }

  lemma NoSeparatorIn(d: Directive, t: string, sep: char)
    requires Token(d, t) && !IsAsciiDigit(sep) && sep != ' '
    ensures sep !in t
  {
    if sep in t {
      var k :| 0 <= k < |t| && t[k] == sep;
      TokenChars(d, t, k);
    }
  }

  lemma IndexOfAt(s: string, c: char, i: nat)
    requires i < |s| && s[i] == c && c !in s[..i]
    ensures IndexOf(s, c) == i
  {
  }
}

/** `date.isoformat()`, which `str()` gives for a date value. */
module IsoDates {
  import opened PyStr
  import opened Strptime

  /** The last `w` decimal digits of `n`, zero-padded (`%0wd` for n < 10^w). */
  function Fixed(n: nat, w: nat): (r: string)
    ensures |r| == w
    ensures forall k | 0 <= k < w :: IsAsciiDigit(r[k])
  {
    if w == 0 then "" else Fixed(n / 10, w - 1) + [('0' as int + n % 10) as char]
  }

  function Pow10(w: nat): nat {
    if w == 0 then 1 else 10 * Pow10(w - 1)
  }

  /** Reading the digits back gives the number when it has at most `w` digits. */
  lemma {:induction false} FixedValue(n: nat, w: nat)
    requires n < Pow10(w)
    ensures TokenValue(Fixed(n, w)) == n
  {
    if w > 0 {
      var t := Fixed(n / 10, w - 1);
      var c := ('0' as int + n % 10) as char;
      assert (t + [c])[..|t + [c]| - 1] == t;
      FixedValue(n / 10, w - 1);
    }
  }

  /** `YYYY-MM-DD`. */
  function IsoFormat(y: nat, m: nat, d: nat): string {
    Fixed(y, 4) + "-" + Fixed(m, 2) + "-" + Fixed(d, 2)
  }

  const IsoDateFormat := Format(Year, '-', Month, '-', Day)

  lemma MonthFixed(m: nat)
    requires 1 <= m <= 12
    ensures MonthToken(Fixed(m, 2)) && TokenValue(Fixed(m, 2)) == m
  {
    assert Pow10(2) == 100;
    FixedValue(m, 2);
    var t := Fixed(m, 2);
    assert t == Fixed(m / 10, 1) + [('0' as int + m % 10) as char];
    assert t[0] == ('0' as int + m / 10) as char;
    assert m / 10 == 0 || (m / 10 == 1 && m % 10 <= 2);
  }

  lemma DayFixed(d: nat)
    requires 1 <= d <= 31
    ensures DayToken(Fixed(d, 2)) && TokenValue(Fixed(d, 2)) == d
  {
    assert Pow10(2) == 100;
    FixedValue(d, 2);
    var t := Fixed(d, 2);
    assert t == Fixed(d / 10, 1) + [('0' as int + d % 10) as char];
    assert t[0] == ('0' as int + d / 10) as char;
    assert d / 10 <= 2 || (d / 10 == 3 && d % 10 <= 1);
  }

  /** The three fixed-width fields of a real date are tokens naming it. */
  lemma IsoTokens(y: nat, m: nat, d: nat)
    requires ValidDate(y, m, d)
    ensures TokensMatch(IsoDateFormat, Fixed(y, 4), Fixed(m, 2), Fixed(d, 2))
  {
    YearFixed(y);
    MonthFixed(m);
    DayFixed(d);
  }

  lemma YearFixed(y: nat)
    requires y <= 9999
    ensures YearToken(Fixed(y, 4)) && TokenValue(Fixed(y, 4)) == y
  {
    assert Pow10(4) == 10000;
    FixedValue(y, 4);
  }

  /** A text built from two hyphen-free parts and a third cuts into them. */
  lemma IsoCuts(ys: string, ms: string, ds: string)
    requires '-' !in ys && '-' !in ms
    ensures Parses(IsoDateFormat, ys + "-" + ms + "-" + ds) <==> TokensMatch(IsoDateFormat, ys, ms, ds)
  {
    CutJoined(IsoDateFormat, ys, ms, ds);
  }

  /** Every real date's ISO text parses under `%Y-%m-%d`. */
  lemma IsoFormatParses(y: nat, m: nat, d: nat)
    requires ValidDate(y, m, d)
    ensures Parses(IsoDateFormat, IsoFormat(y, m, d))
  {
    var ys, ms, ds := Fixed(y, 4), Fixed(m, 2), Fixed(d, 2);
    IsoTokens(y, m, d);
    assert '-' !in ys by {
      assert forall k | 0 <= k < |ys| :: IsAsciiDigit(ys[k]);
    }
    assert '-' !in ms by {
      assert forall k | 0 <= k < |ms| :: IsAsciiDigit(ms[k]);
    }
    IsoCuts(ys, ms, ds);
  }
}
