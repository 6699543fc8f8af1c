/** Duration strings (lib/plansheet/time.rb): "<n>d" / "<n>w" day counts,
    "<n>m", "<x>h" and "<a>h <b>m" minute counts, and the canonical renderer
    of minute counts.

    The source matches unanchored regular expressions. Each one is modelled
    by a hand-written scanner: `MatchAt(p, s, i)` is what the regex engine
    finds when it tries start position `i`, and `Leftmost` is the first
    start position that succeeds, which is the match Ruby's `String#match`
    returns. */
module TimeUtils {
  import opened Wrappers

  /** What `raise "Can't parse time duration string #{str}"` carries. */
  datatype ParseError = CannotParse(input: string)

  // ----- characters and numerals -----

  /** Ruby's `\d`, which is ASCII only. */
  predicate IsDigit(c: char) {
    '0' <= c <= '9'
  }

  predicate AllDigits(s: string) {
    forall i :: 0 <= i < |s| ==> IsDigit(s[i])
  }

  /** A non-empty run of digits, the text `\d+` captures. */
  predicate IsNumeral(s: string) {
    |s| > 0 && AllDigits(s)
  }

  /** The whitespace `String#strip` removes: null, \t, \n, \v, \f, \r, space. */
  predicate IsSpace(c: char) {
    c == '\0' || c == '\t' || c == '\n' || c == '\U{000B}' || c == '\U{000C}' || c == '\r' || c == ' '
  }

  /** The end of the run of digits that starts at `i` (greedy `\d*`). */
  function DigitRunEnd(s: string, i: nat): (k: nat)
    requires i <= |s|
    ensures i <= k <= |s|
    ensures AllDigits(s[i..k])
    ensures k == |s| || !IsDigit(s[k])
    decreases |s| - i
  {
    if i < |s| && IsDigit(s[i]) then
      var k := DigitRunEnd(s, i + 1);
      assert forall j :: i < j < k ==> IsDigit(s[j]) by {
        forall j | i < j < k ensures IsDigit(s[j]) { assert s[i + 1..k][j - i - 1] == s[j]; }
      }
      k
    else
      i
  }

  /** Any maximal run of digits is the one `DigitRunEnd` finds. */
  lemma {:induction false} DigitRunEndIs(s: string, i: nat, k: nat)
    requires i <= k <= |s|
    requires AllDigits(s[i..k])
    requires k == |s| || !IsDigit(s[k])
    ensures DigitRunEnd(s, i) == k
    decreases k - i
  {
    if i < k {
      assert IsDigit(s[i..k][0]);
      assert s[i + 1..k] == s[i..k][1..];
      DigitRunEndIs(s, i + 1, k);
    }
  }

  function DigitValue(c: char): nat
    requires IsDigit(c)
  {
    c as int - '0' as int
  }

  function DigitChar(d: nat): (c: char)
    requires d < 10
    ensures IsDigit(c) && DigitValue(c) == d
  {
    ('0' as int + d) as char
  }

  /** The number a string of decimal digits denotes. */
  function DigitsValue(d: string): nat
    requires AllDigits(d)
    decreases |d|
  {
    if d == [] then 0 else DigitsValue(d[..|d| - 1]) * 10 + DigitValue(d[|d| - 1])
  }

  /** Ruby's `Integer#to_s` for a non-negative integer. */
  function NatToString(n: nat): (s: string)
    ensures IsNumeral(s)
    ensures DigitsValue(s) == n
    decreases n
  {
    if n < 10 then
      [DigitChar(n)]
    else
      var s := NatToString(n / 10) + [DigitChar(n % 10)];
      assert s[..|s| - 1] == NatToString(n / 10);
      s
  }

  /** Ruby's `Integer#to_s`, with the minus sign of a negative integer. */
  function IntToString(i: int): (s: string)
    ensures i >= 0 ==> IsNumeral(s) && DigitsValue(s) == i
    ensures i < 0 ==> |s| >= 2 && s[0] == '-' && IsNumeral(s[1..]) && DigitsValue(s[1..]) == -i
  {
    if i < 0 then "-" + NatToString(-i) else NatToString(i)
  }

  /** Ruby's `String#to_i` as the duration parsers use it, on the digit
      runs their patterns capture: the value of the leading run of digits.
      Ruby's own leading whitespace, sign and underscores are not read. */
  function ToI(s: string): (r: nat)
    ensures AllDigits(s) ==> r == DigitsValue(s)
    ensures s == [] || !IsDigit(s[0]) ==> r == 0
  {
    var k := DigitRunEnd(s, 0);
    assert AllDigits(s) ==> s[..k] == s by {
      if AllDigits(s) {
        assert k == |s|;
        assert s[..|s|] == s;
      }
    }
    DigitsValue(s[..k])
  }

  /** x div 10^n, as n successive divisions by ten. */
  function DivPow10(x: nat, n: nat): nat {
    if n == 0 then x else DivPow10(x / 10, n - 1)
  }

  /** `(text.to_f * 60).to_i` for the text `\d+\.?\d*` captures, in exact
      decimal arithmetic: "<w>.<f>" hours are (w + f / 10^|f|) * 60 minutes,
      truncated toward zero, which is 60·w + (60·f) div 10^|f|. */
  function HoursTextToMinutes(text: string): nat {
    var k := DigitRunEnd(text, 0);
    var whole := DigitsValue(text[..k]);
    if k < |text| && text[k] == '.' then
      var m := DigitRunEnd(text, k + 1);
      whole * 60 + FractionMinutes(text[k + 1..m])
    else
      whole * 60
  }

  /** The minutes in the fraction ".<f>" of an hour, truncated:
      (60·f) div 10^|f|. */
  function FractionMinutes(f: string): nat
    requires AllDigits(f)
  {
    DivPow10(DigitsValue(f) * 60, |f|)
  }

  // ----- String#strip -----

  function StripStart(s: string, i: nat): (a: nat)
    requires i <= |s|
    ensures i <= a <= |s|
    ensures forall j :: i <= j < a ==> IsSpace(s[j])
    ensures a == |s| || !IsSpace(s[a])
    decreases |s| - i
  {
    if i < |s| && IsSpace(s[i]) then StripStart(s, i + 1) else i
  }

  function StripEnd(s: string, j: nat): (b: nat)
    requires j <= |s|
    ensures b <= j
    ensures forall k :: b <= k < j ==> IsSpace(s[k])
    ensures b == 0 || !IsSpace(s[b - 1])
  {
    if j > 0 && IsSpace(s[j - 1]) then StripEnd(s, j - 1) else j
  }

  /** Ruby's `String#strip`: the string without its leading and trailing
      whitespace. */
  function Strip(s: string): (r: string)
    ensures r == [] || (!IsSpace(r[0]) && !IsSpace(r[|r| - 1]))
    ensures |r| <= |s|
    ensures s == [] || (!IsSpace(s[0]) && !IsSpace(s[|s| - 1])) ==> r == s
    ensures exists a, b ::
      && 0 <= a <= b <= |s| && r == s[a..b]
      && (forall j :: 0 <= j < a ==> IsSpace(s[j]))
      && (forall j :: b <= j < |s| ==> IsSpace(s[j]))
  {
    var a, b := StripStart(s, 0), StripEnd(s, |s|);
    if b <= a then
      assert [] == s[a..a];
      []
    else
      s[a..b]
  }

  // ----- the regular expressions of time.rb -----

  /** The patterns time.rb matches:
      `DigitsThen(u)` is `/(\d+)[u]/`, `HoursSpaceMinutes` is
      `/(\d+h) (\d+m)/` and `DecimalHours` is `/(\d+\.?\d*)h/`. */
  datatype Pattern = DigitsThen(units: set<char>) | HoursSpaceMinutes | DecimalHours

  const Days := DigitsThen({'d', 'D'})
  const Weeks := DigitsThen({'w', 'W'})
  const Minutes := DigitsThen({'m'})

  function Arity(p: Pattern): nat {
    if p.HoursSpaceMinutes? then 2 else 1
  }

  /** The capture groups of pattern `p` when the engine tries start
      position `i` of `s`, or None when that attempt fails.

      `\d+` first takes the whole run of digits. Backtracking to a shorter
      run leaves a digit as the next character, and every pattern here
      needs a non-digit ('h', 'm', ' ', '.', a unit letter) right after the
      run, so backtracking never finds another match and the greedy run
      decides. In `DecimalHours` the same holds for `\d*` after the dot,
      and dropping the optional dot leaves '.' where 'h' is needed. */
  function MatchAt(p: Pattern, s: string, i: nat): (r: Option<seq<string>>)
    ensures r.Some? ==> i < |s| && |r.value| == Arity(p)
    ensures r.Some? ==> |r.value[0]| < |s| && (p.HoursSpaceMinutes? ==> |r.value[1]| < |s|)
  {
    if i >= |s| then None
    else
      var k := DigitRunEnd(s, i);
      if k == i then None
      else
        match p
        case DigitsThen(units) =>
          if k < |s| && s[k] in units then Some([s[i..k]]) else None
        case HoursSpaceMinutes =>
          if k + 1 < |s| && s[k] == 'h' && s[k + 1] == ' ' then
            var m := DigitRunEnd(s, k + 2);
            if m > k + 2 && m < |s| && s[m] == 'm' then Some([s[i..k + 1], s[k + 2..m + 1]]) else None
          else None
        case DecimalHours =>
          if k < |s| && s[k] == 'h' then Some([s[i..k]])
          else if k < |s| && s[k] == '.' then
            var m := DigitRunEnd(s, k + 1);
            if m < |s| && s[m] == 'h' then Some([s[i..m]]) else None
          else None
  }

  /** The captures of a successful composite attempt are "<a>h" and
      "<b>m" for numerals a and b. */
  lemma CompositeShape(s: string, i: nat)
    requires MatchAt(HoursSpaceMinutes, s, i).Some?
    ensures var g, h := MatchAt(HoursSpaceMinutes, s, i).value[0], MatchAt(HoursSpaceMinutes, s, i).value[1];
      && |g| >= 2 && IsNumeral(g[..|g| - 1]) && g == g[..|g| - 1] + "h"
      && |h| >= 2 && IsNumeral(h[..|h| - 1]) && h == h[..|h| - 1] + "m"
  {
    var k := DigitRunEnd(s, i);
    var m := DigitRunEnd(s, k + 2);
    var g, h := s[i..k + 1], s[k + 2..m + 1];
    assert g[..|g| - 1] == s[i..k] && h[..|h| - 1] == s[k + 2..m];
  }

  /** The leftmost start position at or after `from` where `p` matches. */
  function Leftmost(p: Pattern, s: string, from: nat): (r: Option<nat>)
    ensures r.Some? ==> from <= r.value < |s| && MatchAt(p, s, r.value).Some?
    ensures r.Some? ==> forall j :: from <= j < r.value ==> MatchAt(p, s, j).None?
    ensures r.None? ==> forall j :: from <= j ==> MatchAt(p, s, j).None?
    decreases |s| - from
  {
    if from >= |s| then None
    else if MatchAt(p, s, from).Some? then Some(from)
    else Leftmost(p, s, from + 1)
  }

  /** `s.match(p)`: the capture groups of the leftmost match. */
  function FirstMatch(p: Pattern, s: string): (r: Option<seq<string>>)
    ensures r.None? <==> forall i :: MatchAt(p, s, i).None?
    ensures r.Some? ==> |r.value| == Arity(p) && |r.value[0]| < |s|
    ensures r.Some? && p.HoursSpaceMinutes? ==> |r.value[1]| < |s|
  {
    match Leftmost(p, s, 0)
    case Some(i) => MatchAt(p, s, i)
    case None => None
  }

  // ----- the three operations -----

  /** `parse_date_duration`: the number before the first "d"/"D", else
      seven times the number before the first "w"/"W", else an error. */
  function ParseDateDuration(s: string): (r: Result<nat, ParseError>)
    ensures r.Err? <==> forall i :: MatchAt(Days, Strip(s), i).None? && MatchAt(Weeks, Strip(s), i).None?
    ensures r.Err? ==> r.error == CannotParse(s)
  {
    var t := Strip(s);
    match FirstMatch(Days, t)
    case Some(g) => Ok(ToI(g[0]))
    case None =>
      match FirstMatch(Weeks, t)
      case Some(g) => Ok(ToI(g[0]) * 7)
      case None => Err(CannotParse(s))
  }

  /** No pattern of `parse_time_duration` matches anywhere. */
  ghost predicate NoTimeMatch(s: string) {
    && (forall i :: MatchAt(HoursSpaceMinutes, s, i).None?)
    && (forall i :: MatchAt(Minutes, Strip(s), i).None?)
    && (forall i :: MatchAt(DecimalHours, Strip(s), i).None?)
  }

  /** A capture "<digits>h" of the composite pattern parses through the
      hours branch. */
  lemma HoursCaptureMatches(g: string)
    requires |g| >= 2 && IsNumeral(g[..|g| - 1]) && g[|g| - 1] == 'h'
    ensures Strip(g) == g
    ensures MatchAt(DecimalHours, g, 0) == Some([g[..|g| - 1]])
  {
    assert g[0] == g[..|g| - 1][0];
    DigitRunEndIs(g, 0, |g| - 1);
  }

  /** A capture "<digits>m" of the composite pattern parses through the
      minutes branch. */
  lemma MinutesCaptureMatches(h: string)
    requires |h| >= 2 && IsNumeral(h[..|h| - 1]) && h[|h| - 1] == 'm'
    ensures Strip(h) == h
    ensures MatchAt(Minutes, h, 0) == Some([h[..|h| - 1]])
  {
    assert h[0] == h[..|h| - 1][0];
    DigitRunEndIs(h, 0, |h| - 1);
  }

  /** `parse_time_duration`: the composite "<a>h <b>m" is the sum of its
      two parts, parsed recursively; otherwise the number before the first
      "m"; otherwise the (possibly fractional) number before the first "h",
      in minutes; otherwise an error naming the input. */
  function ParseTimeDuration(s: string): (r: Result<nat, ParseError>)
    ensures r.Ok? ==> exists i :: 0 <= i < |s| && IsDigit(s[i])
    decreases |s|
  {
    match FirstMatch(HoursSpaceMinutes, s)
    case Some(g) =>
      FirstMatchDigit(HoursSpaceMinutes, s);
      SumOf(ParseTimeDuration(g[0]), ParseTimeDuration(g[1]))
    case None =>
      var t := Strip(s);
      match FirstMatch(Minutes, t)
      case Some(g) =>
        FirstMatchDigit(Minutes, t);
        StripDigit(s);
        Ok(ToI(g[0]))
      case None =>
        match FirstMatch(DecimalHours, t)
        case Some(g) =>
          FirstMatchDigit(DecimalHours, t);
          StripDigit(s);
          Ok(HoursTextToMinutes(g[0]))
        case None => Err(CannotParse(s))
  }

  /** Every pattern starts with a digit, so a string it matches has one. */
  lemma FirstMatchDigit(p: Pattern, s: string)
    requires FirstMatch(p, s).Some?
    ensures exists i :: 0 <= i < |s| && IsDigit(s[i])
  {
    var i := Leftmost(p, s, 0).value;
    var k := DigitRunEnd(s, i);
    assert s[i] == s[i..k][0];
  }

  /** A digit of the stripped string is a digit of the string. */
  lemma StripDigit(s: string)
    requires exists j :: 0 <= j < |Strip(s)| && IsDigit(Strip(s)[j])
    ensures exists i :: 0 <= i < |s| && IsDigit(s[i])
  {
    var j :| 0 <= j < |Strip(s)| && IsDigit(Strip(s)[j]);
    var a, b := StripStart(s, 0), StripEnd(s, |s|);
    assert Strip(s)[j] == s[a + j];
  }

  /** `hours + minutes` of the composite branch: the first error raised
      by the two recursive calls, else the sum. */
  function SumOf(hours: Result<nat, ParseError>, minutes: Result<nat, ParseError>): Result<nat, ParseError> {
    var h :- hours;
    var m :- minutes;
    Ok(h + m)
  }

  /** `build_time_duration`: "<m>m" up to 59 minutes, "<h>h" for whole
      hours, "<h>h <m>m" otherwise. */
  function BuildTimeDuration(minutes: int): (r: string)
    ensures |r| >= 2 && (r[|r| - 1] == 'm' || r[|r| - 1] == 'h')
    ensures minutes >= 0 ==> IsDigit(r[0])
    ensures minutes < 0 ==> r[0] == '-'
  {
    if minutes > 59 then
      if minutes % 60 == 0 then
        IntToString(minutes / 60) + "h"
      else
        IntToString(minutes / 60) + "h " + IntToString(minutes % 60) + "m"
    else
      IntToString(minutes) + "m"
  }

  // ----- the branches of the two parsers, one at a time -----

  lemma DateViaDays(s: string, g: seq<string>)
    requires FirstMatch(Days, Strip(s)) == Some(g)
    ensures ParseDateDuration(s) == Ok(ToI(g[0]))
  {
  }

  lemma DateViaWeeks(s: string, g: seq<string>)
    requires FirstMatch(Days, Strip(s)).None? && FirstMatch(Weeks, Strip(s)) == Some(g)
    ensures ParseDateDuration(s) == Ok(ToI(g[0]) * 7)
  {
  }

  lemma TimeViaComposite(s: string, g: seq<string>)
    requires FirstMatch(HoursSpaceMinutes, s) == Some(g)
    ensures |g| == 2
    ensures ParseTimeDuration(s) == SumOf(ParseTimeDuration(g[0]), ParseTimeDuration(g[1]))
  {
  }

  lemma TimeViaMinutes(s: string, g: seq<string>)
    requires FirstMatch(HoursSpaceMinutes, s).None? && FirstMatch(Minutes, Strip(s)) == Some(g)
    ensures ParseTimeDuration(s) == Ok(ToI(g[0]))
  {
  }

  lemma TimeViaHours(s: string, g: seq<string>)
    requires FirstMatch(HoursSpaceMinutes, s).None? && FirstMatch(Minutes, Strip(s)).None?
    requires FirstMatch(DecimalHours, Strip(s)) == Some(g)
    ensures ParseTimeDuration(s) == Ok(HoursTextToMinutes(g[0]))
  {
  }

  lemma TimeViaNone(s: string)
    requires FirstMatch(HoursSpaceMinutes, s).None? && FirstMatch(Minutes, Strip(s)).None?
    requires FirstMatch(DecimalHours, Strip(s)).None?
    ensures ParseTimeDuration(s) == Err(CannotParse(s))
  {
  }

  // ----- scanning facts -----

  /** The character a pattern needs right after its leading digits. */
  function Needs(p: Pattern): set<char> {
    match p
    case DigitsThen(units) => units
    case HoursSpaceMinutes => {'h'}
    case DecimalHours => {'h', '.'}
  }

  /** A pattern cannot match a string that lacks the character it needs
      after its leading digits. */
  lemma NoMatchWithout(p: Pattern, s: string)
    requires forall j :: 0 <= j < |s| ==> s[j] !in Needs(p)
    ensures forall i: nat :: MatchAt(p, s, i).None?
  {
    forall i: nat | i < |s| ensures MatchAt(p, s, i).None? {
      var k := DigitRunEnd(s, i);
      if k < |s| {
        assert s[k] !in Needs(p);
      }
    }
  }

  /** The composite pattern cannot match a string without a space. */
  lemma NoCompositeWithoutSpace(s: string)
    requires forall j :: 0 <= j < |s| ==> s[j] != ' '
    ensures forall i: nat :: MatchAt(HoursSpaceMinutes, s, i).None?
  {
    forall i: nat | i < |s| ensures MatchAt(HoursSpaceMinutes, s, i).None? {
      var k := DigitRunEnd(s, i);
      if k + 1 < |s| {
        assert s[k + 1] != ' ';
      }
    }
  }

  lemma {:induction false} LeftmostIs(p: Pattern, s: string, from: nat, i: nat)
    requires from <= i && MatchAt(p, s, i).Some?
    requires forall j :: from <= j < i ==> MatchAt(p, s, j).None?
    ensures Leftmost(p, s, from) == Some(i)
    decreases i - from
  {
    if from < i {
      LeftmostIs(p, s, from + 1, i);
    }
  }

  /** The first match is the one at `i` when no earlier position matches. */
  lemma FirstMatchIs(p: Pattern, s: string, i: nat)
    requires MatchAt(p, s, i).Some?
    requires forall j :: 0 <= j < i ==> MatchAt(p, s, j).None?
    ensures FirstMatch(p, s) == MatchAt(p, s, i)
  {
    LeftmostIs(p, s, 0, i);
  }

  /** Within `d + rest`, a run of digits starting inside the numeral `d`
      ends where `d` ends, when `rest` does not start with a digit. */
  lemma NumeralRun(d: string, rest: string, i: nat)
    requires AllDigits(d) && i <= |d|
    requires rest == [] || !IsDigit(rest[0])
    ensures DigitRunEnd(d + rest, i) == |d|
  {
    var s := d + rest;
    assert s[i..|d|] == d[i..];
    DigitRunEndIs(s, i, |d|);
  }

  lemma ToINumeral(d: string)
    requires AllDigits(d)
    ensures ToI(d) == DigitsValue(d)
  {
    DigitRunEndIs(d, 0, |d|);
    assert d[..|d|] == d;
  }

  lemma ToINumeralThen(d: string, u: char)
    requires AllDigits(d) && !IsDigit(u)
    ensures ToI(d + [u]) == DigitsValue(d)
  {
    NumeralRun(d, [u], 0);
    assert (d + [u])[..|d|] == d;
  }

  lemma StripKeeps(s: string)
    requires |s| > 0 && IsDigit(s[0]) && !IsSpace(s[|s| - 1])
    ensures Strip(s) == s
  {
  }

  // ----- properties -----

  /** "<n>d" and "<n>D" are n days. */
  lemma ParseDays(d: string, u: char)
    requires IsNumeral(d) && (u == 'd' || u == 'D')
    ensures ParseDateDuration(d + [u]) == Ok(DigitsValue(d))
  {
    var s := d + [u];
    StripKeeps(s);
    NumeralRun(d, [u], 0);
    assert s[0..|d|] == d;
    FirstMatchIs(Days, s, 0);
    DateViaDays(s, [d]);
    ToINumeral(d);
  }

  /** In "<n>w" the days pattern finds nothing and the weeks pattern
      captures n. */
  lemma WeeksMatch(d: string, u: char, s: string)
    requires IsNumeral(d) && (u == 'w' || u == 'W') && s == d + [u]
    ensures Strip(s) == s && FirstMatch(Days, s).None? && FirstMatch(Weeks, s) == Some([d])
  {
    StripKeeps(s);
    NoMatchWithout(Days, s);
    NumeralRun(d, [u], 0);
    assert s[0..|d|] == d;
    FirstMatchIs(Weeks, s, 0);
  }

  /** "<n>w" and "<n>W" are 7·n days. */
  lemma ParseWeeks(d: string, u: char)
    requires IsNumeral(d) && (u == 'w' || u == 'W')
    ensures ParseDateDuration(d + [u]) == Ok(7 * DigitsValue(d))
  {
    var s := d + [u];
    WeeksMatch(d, u, s);
    DateViaWeeks(s, [d]);
    ToINumeral(d);
  }

  /** The "d" branch is tried first: in "<a>w <b>d" the days value wins
      although the weeks come first. */
  lemma DaysBeforeWeeks(a: string, b: string)
    requires IsNumeral(a) && IsNumeral(b)
    ensures ParseDateDuration(a + "w " + b + "d") == Ok(DigitsValue(b))
  {
    var s := a + "w " + b + "d";
    DaysBeforeWeeksMatch(a, b, s);
    DateViaDays(s, [b]);
    ToINumeral(b);
  }

  /** In "<a>w <b>d" the first days match captures b. */
  lemma DaysBeforeWeeksMatch(a: string, b: string, s: string)
    requires IsNumeral(a) && IsNumeral(b) && s == a + "w " + b + "d"
    ensures Strip(s) == s && FirstMatch(Days, s) == Some([b])
  {
    StripKeeps(s);
    var i := |a| + 2;
    assert s == a + ("w " + b + "d");
    forall j: nat | j < i ensures MatchAt(Days, s, j).None? {
      if j < |a| {
        NumeralRun(a, "w " + b + "d", j);
      }
    }
    assert s == (a + "w ") + (b + "d");
    assert s[i..] == b + "d";
    NumeralRun(b, "d", 0);
    assert DigitRunEnd(s, i) == i + |b| by {
      assert s[i..i + |b|] == b;
      DigitRunEndIs(s, i, i + |b|);
    }
    assert s[i..i + |b|] == b;
    FirstMatchIs(Days, s, i);
  }

  /** A string with no digits is not a day duration. */
  lemma ParseDateDurationError(s: string)
    requires forall j :: 0 <= j < |s| ==> !IsDigit(s[j])
    ensures ParseDateDuration(s) == Err(CannotParse(s))
  {
    var t := Strip(s);
    assert forall j :: 0 <= j < |t| ==> !IsDigit(t[j]) by {
      var a, b := StripStart(s, 0), StripEnd(s, |s|);
      if a < b {
        forall j | 0 <= j < |t| ensures !IsDigit(t[j]) { assert t[j] == s[a + j]; }
      }
    }
    forall i: nat ensures MatchAt(Days, t, i).None? && MatchAt(Weeks, t, i).None? {
      assert i < |t| ==> DigitRunEnd(t, i) == i;
    }
  }

  /** In "<digits>m" the composite pattern finds nothing and the minutes
      pattern captures the digits. */
  lemma MinutesNumeralMatch(d: string, s: string)
    requires IsNumeral(d) && s == d + "m"
    ensures Strip(s) == s
    ensures FirstMatch(HoursSpaceMinutes, s).None?
    ensures FirstMatch(Minutes, s) == Some([d])
  {
    NoMatchWithout(HoursSpaceMinutes, s);
    StripKeeps(s);
    NumeralRun(d, "m", 0);
    assert s[0..|d|] == d;
    FirstMatchIs(Minutes, s, 0);
  }

  /** "<digits>m" is that many minutes. */
  lemma ParseMinutesNumeral(d: string)
    requires IsNumeral(d)
    ensures ParseTimeDuration(d + "m") == Ok(DigitsValue(d))
  {
    var s := d + "m";
    MinutesNumeralMatch(d, s);
    TimeViaMinutes(s, [d]);
    ToINumeral(d);
  }

  /** In "<digits>h" only the fractional-hours pattern matches, and it
      captures the digits. */
  lemma HoursNumeralMatch(d: string, s: string)
    requires IsNumeral(d) && s == d + "h"
    ensures Strip(s) == s
    ensures FirstMatch(HoursSpaceMinutes, s).None? && FirstMatch(Minutes, s).None?
    ensures FirstMatch(DecimalHours, s) == Some([d])
  {
    NoCompositeWithoutSpace(s);
    StripKeeps(s);
    NoMatchWithout(Minutes, s);
    NumeralRun(d, "h", 0);
    assert s[0..|d|] == d;
    FirstMatchIs(DecimalHours, s, 0);
  }

  /** Whole hours: the text "<digits>" is 60 times that many minutes. */
  lemma HoursTextWhole(d: string)
    requires IsNumeral(d)
    ensures HoursTextToMinutes(d) == 60 * DigitsValue(d)
  {
    NumeralRun(d, [], 0);
    assert d + [] == d;
    assert d[..|d|] == d;
  }

  /** "<digits>h" is 60 times that many minutes. */
  lemma ParseHoursNumeral(d: string)
    requires IsNumeral(d)
    ensures ParseTimeDuration(d + "h") == Ok(60 * DigitsValue(d))
  {
    var s := d + "h";
    HoursNumeralMatch(d, s);
    TimeViaHours(s, [d]);
    HoursTextWhole(d);
  }

  /** In "<a>.<f>h" only the fractional-hours pattern matches, and it
      captures "<a>.<f>". */
  lemma DecimalHoursMatch(a: string, f: string, s: string)
    requires IsNumeral(a) && AllDigits(f) && s == a + "." + f + "h"
    ensures Strip(s) == s
    ensures FirstMatch(HoursSpaceMinutes, s).None? && FirstMatch(Minutes, s).None?
    ensures FirstMatch(DecimalHours, s) == Some([a + "." + f])
  {
    var text := a + "." + f;
    NoCompositeWithoutSpace(s);
    StripKeeps(s);
    NoMatchWithout(Minutes, s);
    assert s == a + ("." + f + "h");
    NumeralRun(a, "." + f + "h", 0);
    assert s[|a| + 1..|text|] == f;
    DigitRunEndIs(s, |a| + 1, |text|);
    assert s[0..|text|] == text;
    FirstMatchIs(DecimalHours, s, 0);
  }

  /** The minutes of "<a>.<f>" hours. */
  lemma HoursTextDecimal(a: string, f: string)
    requires IsNumeral(a) && AllDigits(f)
    ensures HoursTextToMinutes(a + "." + f) == 60 * DigitsValue(a) + FractionMinutes(f)
  {
    var text := a + "." + f;
    var k := |a|;
    assert text == a + ("." + f);
    NumeralRun(a, "." + f, 0);
    assert DigitRunEnd(text, 0) == k;
    assert text[..k] == a;
    assert text[k] == '.';
    assert text[k + 1..|text|] == f;
    DigitRunEndIs(text, k + 1, |text|);
    var whole := DigitsValue(a);
    assert HoursTextToMinutes(text) == whole * 60 + FractionMinutes(text[k + 1..|text|]);
  }

  /** "<a>.<f>h" is 60·a plus 60·f / 10^|f| minutes, truncated: the
      fractional-hours branch. */
  lemma ParseDecimalHours(a: string, f: string)
    requires IsNumeral(a) && AllDigits(f)
    ensures ParseTimeDuration(a + "." + f + "h").Ok?
    ensures ParseTimeDuration(a + "." + f + "h").value == 60 * DigitsValue(a) + FractionMinutes(f)
  {
    var s := a + "." + f + "h";
    DecimalHoursMatch(a, f, s);
    TimeViaHours(s, [a + "." + f]);
    HoursTextDecimal(a, f);
  }

  /** In "<a>h<b>m" there is no composite match (no space), and the first
      minutes match captures b. */
  lemma MinutesBeforeHoursMatch(a: string, b: string, s: string)
    requires IsNumeral(a) && IsNumeral(b) && s == a + "h" + b + "m"
    ensures Strip(s) == s
    ensures FirstMatch(HoursSpaceMinutes, s).None?
    ensures FirstMatch(Minutes, s) == Some([b])
  {
    NoCompositeWithoutSpace(s);
    StripKeeps(s);
    var i := |a| + 1;
    assert s == a + ("h" + b + "m");
    forall j: nat | j < i ensures MatchAt(Minutes, s, j).None? {
      if j < |a| {
        NumeralRun(a, "h" + b + "m", j);
      }
    }
    assert s[i..i + |b|] == b;
    DigitRunEndIs(s, i, i + |b|);
    FirstMatchIs(Minutes, s, i);
  }

  /** A minutes match outranks an hours match: "<a>h<b>m" (no space, so no
      composite) reads as b minutes, dropping the hours. */
  lemma MinutesBeforeHours(a: string, b: string)
    requires IsNumeral(a) && IsNumeral(b)
    ensures ParseTimeDuration(a + "h" + b + "m") == Ok(DigitsValue(b))
  {
    var s := a + "h" + b + "m";
    MinutesBeforeHoursMatch(a, b, s);
    TimeViaMinutes(s, [b]);
    ToINumeral(b);
  }

  /** The captures of a composite match are "<a>h" and "<b>m". */
  lemma CompositeCaptures(s: string, g: string, h: string)
    requires FirstMatch(HoursSpaceMinutes, s) == Some([g, h])
    ensures |g| >= 2 && IsNumeral(g[..|g| - 1]) && g == g[..|g| - 1] + "h"
    ensures |h| >= 2 && IsNumeral(h[..|h| - 1]) && h == h[..|h| - 1] + "m"
  {
    var i := Leftmost(HoursSpaceMinutes, s, 0).value;
    assert MatchAt(HoursSpaceMinutes, s, i) == Some([g, h]);
    CompositeShape(s, i);
  }

  /** The composite form: when the leftmost "<a>h <b>m" is present it
      decides, and the result is 60·a + b. */
  lemma ParseComposite(s: string, g: string, h: string)
    requires FirstMatch(HoursSpaceMinutes, s) == Some([g, h])
    ensures |g| >= 2 && |h| >= 2
    ensures ParseTimeDuration(s).Ok? && ParseTimeDuration(s).value == 60 * ToI(g) + ToI(h)
  {
    CompositeCaptures(s, g, h);
    var a, b := g[..|g| - 1], h[..|h| - 1];
    TimeViaComposite(s, [g, h]);
    ParseHoursNumeral(a);
    ParseMinutesNumeral(b);
    ToINumeralThen(a, 'h');
    ToINumeralThen(b, 'm');
  }

  /** `parse_time_duration` fails exactly when none of its three patterns
      matches, and the error names the whole input. */
  lemma ParseTimeDurationErrors(s: string)
    ensures ParseTimeDuration(s).Err? <==> NoTimeMatch(s)
    ensures ParseTimeDuration(s).Err? ==> ParseTimeDuration(s).error == CannotParse(s)
  {
    match FirstMatch(HoursSpaceMinutes, s)
    case Some(g) =>
      ParseComposite(s, g[0], g[1]);
      assert MatchAt(HoursSpaceMinutes, s, Leftmost(HoursSpaceMinutes, s, 0).value).Some?;
    case None =>
  }

  /** Every character of `Strip(s)` is a character of `s`. */
  lemma StripChars(s: string)
    ensures forall j :: 0 <= j < |Strip(s)| ==> Strip(s)[j] in s
  {
    var a, b := StripStart(s, 0), StripEnd(s, |s|);
    if a < b {
      forall j | 0 <= j < |Strip(s)| ensures Strip(s)[j] in s { assert Strip(s)[j] == s[a + j]; }
    }
  }

  /** Every pattern needs a digit, so none matches a string without one. */
  lemma NoDigitsNoMatch(p: Pattern, s: string)
    requires forall j :: 0 <= j < |s| ==> !IsDigit(s[j])
    ensures FirstMatch(p, s).None? && FirstMatch(p, Strip(s)).None?
  {
    StripChars(s);
    var t := Strip(s);
    forall i: nat ensures MatchAt(p, s, i).None? && MatchAt(p, t, i).None? {
      assert i < |s| ==> DigitRunEnd(s, i) == i;
      assert i < |t| ==> DigitRunEnd(t, i) == i;
    }
  }

  /** A string without digits is not a time duration. */
  lemma ParseTimeDurationError(s: string)
    requires forall j :: 0 <= j < |s| ==> !IsDigit(s[j])
    ensures ParseTimeDuration(s) == Err(CannotParse(s))
  {
    NoDigitsNoMatch(HoursSpaceMinutes, s);
    NoDigitsNoMatch(Minutes, s);
    NoDigitsNoMatch(DecimalHours, s);
    TimeViaNone(s);
  }

  /** The three canonical forms `build_time_duration` renders. */
  lemma BuildForms(m: nat)
    ensures m <= 59 ==> BuildTimeDuration(m) == NatToString(m) + "m"
    ensures m >= 60 && m % 60 == 0 ==> BuildTimeDuration(m) == NatToString(m / 60) + "h"
    ensures m >= 60 && m % 60 != 0 ==>
      BuildTimeDuration(m) == NatToString(m / 60) + "h " + NatToString(m % 60) + "m"
  {
  }

  /** The leftmost composite match of "<a>h <b>m" is at the start. */
  lemma CompositeRenderMatch(a: string, b: string, s: string)
    requires IsNumeral(a) && IsNumeral(b) && s == a + "h " + b + "m"
    ensures FirstMatch(HoursSpaceMinutes, s) == Some([a + "h", b + "m"])
  {
    var k, m := |a|, |s| - 1;
    RenderParts(a, b, s);
    NumeralRun(a, "h " + b + "m", 0);
    DigitRunEndIs(s, k + 2, m);
    CompositeAtStart(s, k, m);
    FirstMatchIs(HoursSpaceMinutes, s, 0);
  }

  /** Where the pieces of "<a>h <b>m" sit. */
  lemma RenderParts(a: string, b: string, s: string)
    requires s == a + "h " + b + "m"
    ensures s == a + ("h " + b + "m")
    ensures s[|a|] == 'h' && s[|a| + 1] == ' ' && s[|s| - 1] == 'm'
    ensures s[0..|a| + 1] == a + "h" && s[|a| + 2..|s|] == b + "m" && s[|a| + 2..|s| - 1] == b
  {
    var h, t := a + "h", b + "m";
    assert s == h + [' '] + t;
    assert s[0..|h|] == h;
    assert s[|h| + 1..|s|] == t;
    assert t[..|b|] == b;
  }

  /** A composite match at the start of `s`, given where its two digit runs
      end. */
  lemma CompositeAtStart(s: string, k: nat, m: nat)
    requires 0 < k && k + 2 < m < |s|
    requires DigitRunEnd(s, 0) == k && s[k] == 'h' && s[k + 1] == ' '
    requires DigitRunEnd(s, k + 2) == m && s[m] == 'm'
    ensures MatchAt(HoursSpaceMinutes, s, 0) == Some([s[0..k + 1], s[k + 2..m + 1]])
  {
  }


  lemma RoundTripComposite(m: nat)
    requires m > 59 && m % 60 != 0
    ensures ParseTimeDuration(BuildTimeDuration(m)).Ok?
    ensures ParseTimeDuration(BuildTimeDuration(m)).value == m
  {
    var a, b := NatToString(m / 60), NatToString(m % 60);
    var s := a + "h " + b + "m";
    assert s == BuildTimeDuration(m);
    CompositeRenderMatch(a, b, s);
    ParseComposite(s, a + "h", b + "m");
    ToINumeralThen(a, 'h');
    ToINumeralThen(b, 'm');
  }

  /** Round trip: parsing the rendering of a non-negative minute count gives
      back that count. */
  lemma BuildParseRoundTrip(m: nat)
    ensures ParseTimeDuration(BuildTimeDuration(m)).Ok?
    ensures ParseTimeDuration(BuildTimeDuration(m)).value == m
  {
    if m <= 59 {
      ParseMinutesNumeral(NatToString(m));
    } else if m % 60 == 0 {
      ParseHoursNumeral(NatToString(m / 60));
    } else {
      RoundTripComposite(m);
    }
  }

  /** The round trip holds only for non-negative counts: the sign is in no
      pattern, so -5 renders as "-5m", which reads as 5. */
  lemma NegativeNotRecovered()
    ensures BuildTimeDuration(-5) == "-5m"
    ensures ParseTimeDuration(BuildTimeDuration(-5)) == Ok(5)
  {
    var s := BuildTimeDuration(-5);
    assert s == "-5m";
    NoMatchWithout(HoursSpaceMinutes, s);
    assert Strip(s) == s;
    assert MatchAt(Minutes, s, 0).None? by { DigitRunEndIs(s, 0, 0); }
    DigitRunEndIs(s, 1, 2);
    assert MatchAt(Minutes, s, 1) == Some(["5"]);
    FirstMatchIs(Minutes, s, 1);
    ToINumeral("5");
    assert DigitsValue("5") == 5;
  }

  /** Rendering is injective on non-negative counts, so the canonical
      string of a duration is unique. */
  lemma BuildInjective(m: nat, n: nat)
    requires BuildTimeDuration(m) == BuildTimeDuration(n)
    ensures m == n
  {
    BuildParseRoundTrip(m);
    BuildParseRoundTrip(n);
  }

  // ----- the examples of test/test_time.rb -----

  /** The renderings test/test_time.rb expects. */
  lemma BuildExamples()
    ensures BuildTimeDuration(30) == "30m" && BuildTimeDuration(60) == "1h"
    ensures BuildTimeDuration(120) == "2h" && BuildTimeDuration(150) == "2h 30m"
  {
    assert NatToString(30) == "30";
    assert NatToString(2) == "2";
  }

  /** "<a>.5h", the fractional form test/test_time.rb uses, is half an
      hour more than "<a>h". */
  lemma ParseHalfHours(a: string, s: string)
    requires IsNumeral(a) && s == a + ".5h"
    ensures ParseTimeDuration(s) == Ok(60 * DigitsValue(a) + 30)
  {
    HalfHourText(a, s);
    ParseDecimalHours(a, "5");
    HalfHourFraction();
  }

  lemma HalfHourText(a: string, s: string)
    requires s == a + ".5h"
    ensures s == a + "." + "5" + "h"
  {
  }

  lemma HalfHourFraction()
    ensures FractionMinutes("5") == 30
  {
    assert DigitsValue("5") == 5 by { assert "5"[..0] == []; }
    assert DivPow10(300, 1) == 30;
  }
}
