/** The multi-format timestamp parser: five fixed-width `strptime` patterns
    tried in a fixed order, the first that accepts the whole text wins. */
module Timestamps {
  import opened Options
  import opened Digits

  /** A naive wall-clock instant, as Python's `datetime` without time zone. */
  datatype DateTime = DateTime(year: int, month: int, day: int, hour: int, minute: int, second: int)

  predicate IsLeapYear(y: int) {
    y % 4 == 0 && (y % 100 != 0 || y % 400 == 0)
  }

  function DaysInMonth(y: int, m: int): (n: int)
    requires 1 <= m <= 12
    ensures 28 <= n <= 31
  {
    if m == 2 then (if IsLeapYear(y) then 29 else 28)
    else if m == 4 || m == 6 || m == 9 || m == 11 then 30
    else 31
  }

  /** The field ranges Python's `datetime` constructor accepts. */
  predicate IsValid(d: DateTime) {
    && 1 <= d.year <= 9999
    && 1 <= d.month <= 12
    && 1 <= d.day <= DaysInMonth(d.year, d.month)
    && 0 <= d.hour <= 23
    && 0 <= d.minute <= 59
    && 0 <= d.second <= 59
  }

  /** The five patterns, named after their `strptime` spelling:
      IsoT `%Y-%m-%dT%H:%M:%S`, IsoSpace `%Y-%m-%d %H:%M:%S`,
      FrSeconds `%d/%m/%Y %H:%M:%S`, FrMinutes `%d/%m/%Y %H:%M`,
      Us `%m/%d/%Y %H:%M:%S`. */
  datatype Format = IsoT | IsoSpace | FrSeconds | FrMinutes | Us

  /** The order in which the parser tries them. */
  const Formats: seq<Format> := [IsoT, IsoSpace, FrSeconds, FrMinutes, Us]

  /** A two-digit field starting at position `i`. */
  function Two(s: string, i: nat): Option<nat>
    requires i + 2 <= |s|
  {
    if IsDigit(s[i]) && IsDigit(s[i + 1])
    then Some(10 * DigitValue(s[i]) + DigitValue(s[i + 1]))
    else None
  }

  /** A four-digit field starting at position `i`. */
  function Four(s: string, i: nat): Option<nat>
    requires i + 4 <= |s|
  {
    if IsDigit(s[i]) && IsDigit(s[i + 1]) && IsDigit(s[i + 2]) && IsDigit(s[i + 3])
    then Some(1000 * DigitValue(s[i]) + 100 * DigitValue(s[i + 1])
              + 10 * DigitValue(s[i + 2]) + DigitValue(s[i + 3]))
    else None
  }

  /** Whether `c` matches the literal `expected` of a pattern; patterns are
      matched case-insensitively, so the letter T also matches t. */
  predicate Lit(c: char, expected: char) {
    c == expected || (expected == 'T' && c == 't')
  }

  /** Builds the instant from the fields read, rejecting a calendar-invalid one. */
  function Assemble(year: Option<nat>, month: Option<nat>, day: Option<nat>,
                    hour: Option<nat>, minute: Option<nat>, second: Option<nat>): (r: Option<DateTime>)
    ensures r.Some? ==> IsValid(r.value)
  {
    if year.Some? && month.Some? && day.Some? && hour.Some? && minute.Some? && second.Some? then
      var d := DateTime(year.value, month.value, day.value, hour.value, minute.value, second.value);
      if IsValid(d) then Some(d) else None
    else None
  }

  /** `YYYY-MM-DD?HH:MM:SS` with `sep` in the middle. */
  function ParseIso(s: string, sep: char): Option<DateTime> {
    if |s| == 19 && s[4] == '-' && s[7] == '-' && Lit(s[10], sep) && s[13] == ':' && s[16] == ':'
    then Assemble(Four(s, 0), Two(s, 5), Two(s, 8), Two(s, 11), Two(s, 14), Two(s, 17))
    else None
  }

  /** `AA/BB/YYYY HH:MM` followed, when `withSeconds`, by `:SS`. */
  predicate IsSlashLayout(s: string, withSeconds: bool) {
    && |s| == (if withSeconds then 19 else 16)
    && s[2] == '/' && s[5] == '/' && s[10] == ' ' && s[13] == ':'
    && (withSeconds ==> s[16] == ':')
  }

  /** `datetime.strptime(s, fmt)`: the instant, or None where it raises. */
  function ParseWith(f: Format, s: string): (r: Option<DateTime>)
    ensures r.Some? ==> IsValid(r.value)
  {
    match f
    case IsoT => ParseIso(s, 'T')
    case IsoSpace => ParseIso(s, ' ')
    case FrSeconds =>
      if IsSlashLayout(s, true)
      then Assemble(Four(s, 6), Two(s, 3), Two(s, 0), Two(s, 11), Two(s, 14), Two(s, 17))
      else None
    case FrMinutes =>
      if IsSlashLayout(s, false)
      then Assemble(Four(s, 6), Two(s, 3), Two(s, 0), Two(s, 11), Two(s, 14), Some(0))
      else None
    case Us =>
      if IsSlashLayout(s, true)
      then Assemble(Four(s, 6), Two(s, 0), Two(s, 3), Two(s, 11), Two(s, 14), Two(s, 17))
      else None
  }

  /** The parse under the first format of `fmts` that accepts `s`. */
  function FirstMatch(fmts: seq<Format>, s: string): (r: Option<DateTime>)
    ensures r.Some? ==> IsValid(r.value)
    ensures r.None? <==> forall i :: 0 <= i < |fmts| ==> ParseWith(fmts[i], s).None?
    ensures r.Some? ==>
      exists i :: 0 <= i < |fmts| && ParseWith(fmts[i], s) == r &&
        forall j :: 0 <= j < i ==> ParseWith(fmts[j], s).None?
  {
    if fmts == [] then None
    else
      match ParseWith(fmts[0], s)
      case Some(d) => Some(d)
      case None =>
        var r := FirstMatch(fmts[1..], s);
        assert forall i :: 1 <= i < |fmts| ==> fmts[i] == fmts[1..][i - 1];
        r
  }

  /** `parse_multi_format_timestamp`: None for a null text, otherwise the
      first successful pattern in `Formats` order. */
  function ParseMultiFormat(text: Option<string>): (r: Option<DateTime>)
    ensures text.None? ==> r.None?
    ensures r.Some? ==> IsValid(r.value)
    ensures text.Some? ==>
      (r.None? <==> forall i :: 0 <= i < |Formats| ==> ParseWith(Formats[i], text.value).None?)
  {
    match text
    case None => None
    case Some(s) => FirstMatch(Formats, s)
  }

  /** The parser returns the parse of format `i` exactly when format `i`
      accepts the text and every earlier format rejects it. */
  lemma FirstAcceptingFormatWins(s: string, i: nat)
    requires i < |Formats|
    requires ParseWith(Formats[i], s).Some?
    requires forall j :: 0 <= j < i ==> ParseWith(Formats[j], s).None?
    ensures ParseMultiFormat(Some(s)) == ParseWith(Formats[i], s)
  {
    var r := ParseMultiFormat(Some(s));
    var k :| 0 <= k < |Formats| && ParseWith(Formats[k], s) == r &&
      forall j :: 0 <= j < k ==> ParseWith(Formats[j], s).None?;
    assert k == i;
  }

  // ---- What the fixture generator writes (`datetime.strftime`) ----

  function TwoDigits(n: int): (s: string)
    requires 0 <= n < 100
    ensures |s| == 2
  {
    [DigitChar(n / 10), DigitChar(n % 10)]
  }

  function FourDigits(n: int): (s: string)
    requires 0 <= n < 10000
    ensures |s| == 4
  {
    TwoDigits(n / 100) + TwoDigits(n % 100)
  }

  /** `HH:MM`, followed by `:SS` when `withSeconds`. */
  function Clock(d: DateTime, withSeconds: bool): string
    requires IsValid(d)
  {
    TwoDigits(d.hour) + ":" + TwoDigits(d.minute) + (if withSeconds then ":" + TwoDigits(d.second) else "")
  }

  /** `d.strftime(fmt)` for each of the five patterns: a fixed-width text
      with its separators where the pattern's parser looks for them. */
  function Render(f: Format, d: DateTime): (s: string)
    requires IsValid(d)
    ensures |s| == (if f == FrMinutes then 16 else 19)
    ensures (f == IsoT || f == IsoSpace) ==>
      s[4] == '-' && s[7] == '-' && s[10] == (if f == IsoT then 'T' else ' ') && s[13] == ':' && s[16] == ':'
    ensures (f == FrSeconds || f == FrMinutes || f == Us) ==> IsSlashLayout(s, f != FrMinutes)
  {
    match f
    case IsoT => FourDigits(d.year) + "-" + TwoDigits(d.month) + "-" + TwoDigits(d.day) + "T" + Clock(d, true)
    case IsoSpace => FourDigits(d.year) + "-" + TwoDigits(d.month) + "-" + TwoDigits(d.day) + " " + Clock(d, true)
    case FrSeconds => TwoDigits(d.day) + "/" + TwoDigits(d.month) + "/" + FourDigits(d.year) + " " + Clock(d, true)
    case FrMinutes => TwoDigits(d.day) + "/" + TwoDigits(d.month) + "/" + FourDigits(d.year) + " " + Clock(d, false)
    case Us => TwoDigits(d.month) + "/" + TwoDigits(d.day) + "/" + FourDigits(d.year) + " " + Clock(d, true)
  }

  lemma ReadTwo(s: string, i: nat, n: int)
    requires 0 <= n < 100 && i + 2 <= |s|
    requires s[i] == DigitChar(n / 10) && s[i + 1] == DigitChar(n % 10)
    ensures Two(s, i) == Some(n)
  {
  }

  lemma ReadFour(s: string, i: nat, n: int)
    requires 0 <= n < 10000 && i + 4 <= |s|
    requires s[i] == DigitChar(n / 100 / 10) && s[i + 1] == DigitChar(n / 100 % 10)
    requires s[i + 2] == DigitChar(n % 100 / 10) && s[i + 3] == DigitChar(n % 100 % 10)
    ensures Four(s, i) == Some(n)
  {
    ReadTwo(s, i, n / 100);
    ReadTwo(s, i + 2, n % 100);
  }

  lemma IsoTRoundTrip(d: DateTime)
    requires IsValid(d)
    ensures ParseWith(IsoT, Render(IsoT, d)) == Some(d)
  {
    var s := Render(IsoT, d);
    ReadFour(s, 0, d.year); ReadTwo(s, 5, d.month); ReadTwo(s, 8, d.day);
    ReadTwo(s, 11, d.hour); ReadTwo(s, 14, d.minute); ReadTwo(s, 17, d.second);
  }

  lemma IsoSpaceRoundTrip(d: DateTime)
    requires IsValid(d)
    ensures ParseWith(IsoSpace, Render(IsoSpace, d)) == Some(d)
  {
    var s := Render(IsoSpace, d);
    ReadFour(s, 0, d.year); ReadTwo(s, 5, d.month); ReadTwo(s, 8, d.day);
    ReadTwo(s, 11, d.hour); ReadTwo(s, 14, d.minute); ReadTwo(s, 17, d.second);
  }

  lemma FrSecondsRoundTrip(d: DateTime)
    requires IsValid(d)
    ensures ParseWith(FrSeconds, Render(FrSeconds, d)) == Some(d)
  {
    var s := Render(FrSeconds, d);
    ReadTwo(s, 0, d.day); ReadTwo(s, 3, d.month); ReadFour(s, 6, d.year);
    ReadTwo(s, 11, d.hour); ReadTwo(s, 14, d.minute); ReadTwo(s, 17, d.second);
  }

  lemma FrMinutesRoundTrip(d: DateTime)
    requires IsValid(d)
    ensures ParseWith(FrMinutes, Render(FrMinutes, d)) == Some(d.(second := 0))
  {
    var s := Render(FrMinutes, d);
    ReadTwo(s, 0, d.day); ReadTwo(s, 3, d.month); ReadFour(s, 6, d.year);
    ReadTwo(s, 11, d.hour); ReadTwo(s, 14, d.minute);
  }

  lemma UsRoundTrip(d: DateTime)
    requires IsValid(d)
    ensures ParseWith(Us, Render(Us, d)) == Some(d)
  {
    var s := Render(Us, d);
    ReadTwo(s, 0, d.month); ReadTwo(s, 3, d.day); ReadFour(s, 6, d.year);
    ReadTwo(s, 11, d.hour); ReadTwo(s, 14, d.minute); ReadTwo(s, 17, d.second);
  }

  /** Parsing what `strftime` wrote with the same pattern gives the instant
      back; `%d/%m/%Y %H:%M` drops the seconds. */
  lemma RenderRoundTrip(f: Format, d: DateTime)
    requires IsValid(d)
    ensures ParseWith(f, Render(f, d)) == Some(if f == FrMinutes then d.(second := 0) else d)
  {
    match f
    case IsoT => IsoTRoundTrip(d);
    case IsoSpace => IsoSpaceRoundTrip(d);
    case FrSeconds => FrSecondsRoundTrip(d);
    case FrMinutes => FrMinutesRoundTrip(d);
    case Us => UsRoundTrip(d);
  }

  // ---- The converse: only the fixed layout parses ----

  lemma TwoWasRendered(s: string, i: nat)
    requires i + 2 <= |s| && Two(s, i).Some?
    ensures Two(s, i).value < 100 && s[i..i + 2] == TwoDigits(Two(s, i).value)
  {
    var n := Two(s, i).value;
    assert n / 10 == DigitValue(s[i]) && n % 10 == DigitValue(s[i + 1]);
    DigitCharOfValue(s[i]);
    DigitCharOfValue(s[i + 1]);
  }

  lemma FourWasRendered(s: string, i: nat)
    requires i + 4 <= |s| && Four(s, i).Some?
    ensures Four(s, i).value < 10000 && s[i..i + 4] == FourDigits(Four(s, i).value)
  {
    var n := Four(s, i).value;
    assert n / 100 == 10 * DigitValue(s[i]) + DigitValue(s[i + 1]);
    assert n % 100 == 10 * DigitValue(s[i + 2]) + DigitValue(s[i + 3]);
    assert Two(s, i) == Some(n / 100) && Two(s, i + 2) == Some(n % 100);
    TwoWasRendered(s, i);
    TwoWasRendered(s, i + 2);
  }

  /** An accepted ISO text is the rendering of its instant, with whatever
      separator letter it had. */
  lemma IsoWasRendered(s: string, sep: char)
    requires ParseIso(s, sep).Some?
    ensures var d := ParseIso(s, sep).value;
      s == FourDigits(d.year) + "-" + TwoDigits(d.month) + "-" + TwoDigits(d.day) + [s[10]] + Clock(d, true)
  {
    FourWasRendered(s, 0); TwoWasRendered(s, 5); TwoWasRendered(s, 8);
    TwoWasRendered(s, 11); TwoWasRendered(s, 14); TwoWasRendered(s, 17);
    assert s == s[0..4] + [s[4]] + s[5..7] + [s[7]] + s[8..10] + [s[10]]
      + s[11..13] + [s[13]] + s[14..16] + [s[16]] + s[17..19];
  }

  /** An accepted slash text is its fields written back at their positions. */
  lemma SlashWasRendered(s: string, withSeconds: bool)
    requires IsSlashLayout(s, withSeconds)
    requires Two(s, 0).Some? && Two(s, 3).Some? && Four(s, 6).Some? && Two(s, 11).Some? && Two(s, 14).Some?
    requires withSeconds ==> Two(s, 17).Some?
    ensures Two(s, 0).value < 100 && Two(s, 3).value < 100 && Four(s, 6).value < 10000
    ensures Two(s, 11).value < 100 && Two(s, 14).value < 100
    ensures withSeconds ==> Two(s, 17).value < 100
    ensures s == TwoDigits(Two(s, 0).value) + "/" + TwoDigits(Two(s, 3).value) + "/"
      + FourDigits(Four(s, 6).value) + " " + TwoDigits(Two(s, 11).value) + ":" + TwoDigits(Two(s, 14).value)
      + (if withSeconds then ":" + TwoDigits(Two(s, 17).value) else "")
  {
    TwoWasRendered(s, 0); TwoWasRendered(s, 3); FourWasRendered(s, 6);
    TwoWasRendered(s, 11); TwoWasRendered(s, 14);
    if withSeconds {
      TwoWasRendered(s, 17);
      assert s == s[0..2] + [s[2]] + s[3..5] + [s[5]] + s[6..10] + [s[10]]
        + s[11..13] + [s[13]] + s[14..16] + ([s[16]] + s[17..19]);
    } else {
      assert s == s[0..2] + [s[2]] + s[3..5] + [s[5]] + s[6..10] + [s[10]]
        + s[11..13] + [s[13]] + s[14..16] + "";
    }
  }

  lemma IsoTParseIsRender(s: string)
    requires ParseWith(IsoT, s).Some?
    ensures var d := ParseWith(IsoT, s).value; s == Render(IsoT, d) || s == Render(IsoT, d)[10 := 't']
  {
    IsoWasRendered(s, 'T');
  }

  lemma IsoSpaceParseIsRender(s: string)
    requires ParseWith(IsoSpace, s).Some?
    ensures s == Render(IsoSpace, ParseWith(IsoSpace, s).value)
  {
    IsoWasRendered(s, ' ');
  }

  lemma FrSecondsParseIsRender(s: string)
    requires ParseWith(FrSeconds, s).Some?
    ensures s == Render(FrSeconds, ParseWith(FrSeconds, s).value)
  {
    SlashWasRendered(s, true);
  }

  lemma FrMinutesParseIsRender(s: string)
    requires ParseWith(FrMinutes, s).Some?
    ensures ParseWith(FrMinutes, s).value.second == 0
    ensures s == Render(FrMinutes, ParseWith(FrMinutes, s).value)
  {
    SlashWasRendered(s, false);
  }

  lemma UsParseIsRender(s: string)
    requires ParseWith(Us, s).Some?
    ensures s == Render(Us, ParseWith(Us, s).value)
  {
    SlashWasRendered(s, true);
  }

  /** A pattern accepts only its own fixed-width layout: an accepted text is
      exactly what `strftime` writes for the instant read (the ISO-T pattern
      also takes a lower-case t), and the minutes-only pattern reads
      second 0. With `RenderRoundTrip`, parse and render are inverse. */
  lemma ParseIsRender(f: Format, s: string)
    requires ParseWith(f, s).Some?
    ensures var d := ParseWith(f, s).value;
      && (f == FrMinutes ==> d.second == 0)
      && (s == Render(f, d) || (f == IsoT && s == Render(f, d)[10 := 't']))
  {
    match f
    case IsoT => IsoTParseIsRender(s);
    case IsoSpace => IsoSpaceParseIsRender(s);
    case FrSeconds => FrSecondsParseIsRender(s);
    case FrMinutes => FrMinutesParseIsRender(s);
    case Us => UsParseIsRender(s);
  }

  /** The US reading of a date whose day could also be a month. */
  function SwapDayMonth(d: DateTime): (e: DateTime)
    requires IsValid(d) && d.day <= 12
    ensures IsValid(e)
  {
    d.(month := d.day, day := d.month)
  }

  /** What the multi-format parser makes of each spelling the generator
      writes for a valid instant: the ISO and French spellings come back as
      written (the minutes-only one without seconds), while the US spelling
      comes back unchanged only when its day exceeds 12 and is otherwise
      read day-first, with day and month exchanged. */
  lemma ReadingGeneratorSpellings(d: DateTime)
    requires IsValid(d)
    ensures ParseMultiFormat(Some(Render(IsoT, d))) == Some(d)
    ensures ParseMultiFormat(Some(Render(IsoSpace, d))) == Some(d)
    ensures ParseMultiFormat(Some(Render(FrSeconds, d))) == Some(d)
    ensures ParseMultiFormat(Some(Render(FrMinutes, d))) == Some(d.(second := 0))
    ensures ParseMultiFormat(Some(Render(Us, d))) ==
      Some(if d.day <= 12 then SwapDayMonth(d) else d)
  {
    IsoReadings(d);
    FrReadings(d);
    UsReading(d);
  }

  lemma IsoReadings(d: DateTime)
    requires IsValid(d)
    ensures ParseMultiFormat(Some(Render(IsoT, d))) == Some(d)
    ensures ParseMultiFormat(Some(Render(IsoSpace, d))) == Some(d)
  {
    IsoTRoundTrip(d);
    FirstAcceptingFormatWins(Render(IsoT, d), 0);
    IsoSpaceRoundTrip(d);
    FirstAcceptingFormatWins(Render(IsoSpace, d), 1);
  }

  lemma FrReadings(d: DateTime)
    requires IsValid(d)
    ensures ParseMultiFormat(Some(Render(FrSeconds, d))) == Some(d)
    ensures ParseMultiFormat(Some(Render(FrMinutes, d))) == Some(d.(second := 0))
  {
    FrSecondsRoundTrip(d);
    FirstAcceptingFormatWins(Render(FrSeconds, d), 2);
    FrMinutesRoundTrip(d);
    FirstAcceptingFormatWins(Render(FrMinutes, d), 3);
  }

  lemma UsReading(d: DateTime)
    requires IsValid(d)
    ensures ParseMultiFormat(Some(Render(Us, d))) ==
      Some(if d.day <= 12 then SwapDayMonth(d) else d)
  {
    var s := Render(Us, d);
    if d.day <= 12 {
      var e := SwapDayMonth(d);
      assert s == Render(FrSeconds, e);
      FrSecondsRoundTrip(e);
      FirstAcceptingFormatWins(s, 2);
    } else {
      ReadTwo(s, 3, d.day);
      assert ParseWith(FrSeconds, s).None?;
      UsRoundTrip(d);
      FirstAcceptingFormatWins(s, 4);
    }
  }

  /** The day-first reading wins on an ambiguous slash date. */
  lemma AmbiguousSlashDateIsDayFirst()
    ensures ParseMultiFormat(Some("03/05/2023 08:00:00")) == Some(DateTime(2023, 5, 3, 8, 0, 0))
  {
    var s := "03/05/2023 08:00:00";
    assert Two(s, 0) == Some(3) && Two(s, 3) == Some(5) && Four(s, 6) == Some(2023);
    assert Two(s, 11) == Some(8) && Two(s, 14) == Some(0) && Two(s, 17) == Some(0);
    FirstAcceptingFormatWins(s, 2);
  }

  /** What the generator writes for 08:00 on 5 March 2023 in US spelling. */
  lemma UsSpellingOfFifthMarch()
    ensures Render(Us, DateTime(2023, 3, 5, 8, 0, 0)) == "03/05/2023 08:00:00"
  {
    var d := DateTime(2023, 3, 5, 8, 0, 0);
    assert TwoDigits(3) == "03" && TwoDigits(5) == "05" && TwoDigits(8) == "08" && TwoDigits(0) == "00";
    assert FourDigits(2023) == "2023" by {
      assert TwoDigits(20) == "20" && TwoDigits(23) == "23";
    }
    assert Clock(d, true) == "08:00:00";
  }

  /** The US pattern is reached when the French ones reject the text. */
  lemma MonthFirstDateNeedsDayAboveTwelve()
    ensures ParseMultiFormat(Some("01/13/2023 08:00:00")) == Some(DateTime(2023, 1, 13, 8, 0, 0))
  {
    var s := "01/13/2023 08:00:00";
    assert Two(s, 0) == Some(1) && Two(s, 3) == Some(13) && Four(s, 6) == Some(2023);
    assert Two(s, 11) == Some(8) && Two(s, 14) == Some(0) && Two(s, 17) == Some(0);
    FirstAcceptingFormatWins(s, 4);
  }

  /** One wall-clock moment spelled in three patterns parses to one instant. */
  lemma SameInstantThreeSpellings()
    ensures ParseMultiFormat(Some("2023-03-05T08:00:00")) == Some(DateTime(2023, 3, 5, 8, 0, 0))
    ensures ParseMultiFormat(Some("2023-03-05 08:00:00")) == Some(DateTime(2023, 3, 5, 8, 0, 0))
    ensures ParseMultiFormat(Some("05/03/2023 08:00:00")) == Some(DateTime(2023, 3, 5, 8, 0, 0))
  {
    IsoTExample();
    IsoSpaceExample();
    FrSecondsExample();
  }

  lemma IsoTExample()
    ensures ParseMultiFormat(Some("2023-03-05T08:00:00")) == Some(DateTime(2023, 3, 5, 8, 0, 0))
  {
    var t := "2023-03-05T08:00:00";
    assert Four(t, 0) == Some(2023) && Two(t, 5) == Some(3) && Two(t, 8) == Some(5);
    assert Two(t, 11) == Some(8) && Two(t, 14) == Some(0) && Two(t, 17) == Some(0);
    FirstAcceptingFormatWins(t, 0);
  }

  lemma IsoSpaceExample()
    ensures ParseMultiFormat(Some("2023-03-05 08:00:00")) == Some(DateTime(2023, 3, 5, 8, 0, 0))
  {
    var u := "2023-03-05 08:00:00";
    assert Four(u, 0) == Some(2023) && Two(u, 5) == Some(3) && Two(u, 8) == Some(5);
    assert Two(u, 11) == Some(8) && Two(u, 14) == Some(0) && Two(u, 17) == Some(0);
    FirstAcceptingFormatWins(u, 1);
  }

  lemma FrSecondsExample()
    ensures ParseMultiFormat(Some("05/03/2023 08:00:00")) == Some(DateTime(2023, 3, 5, 8, 0, 0))
  {
    var f := "05/03/2023 08:00:00";
    assert Two(f, 0) == Some(5) && Two(f, 3) == Some(3) && Four(f, 6) == Some(2023);
    assert Two(f, 11) == Some(8) && Two(f, 14) == Some(0) && Two(f, 17) == Some(0);
    FirstAcceptingFormatWins(f, 2);
  }

  /** Calendar-invalid texts are rejected by every pattern. */
  lemma CalendarInvalidTextsRejected()
    ensures ParseMultiFormat(Some("2023-02-29 10:00:00")).None?
    ensures ParseMultiFormat(Some("31/04/2023 10:00")).None?
  {
    LeapDayOfCommonYearRejected();
    ThirtyFirstOfAprilRejected();
  }

  /** 29 February of a common year is rejected by every pattern. */
  lemma LeapDayOfCommonYearRejected()
    ensures ParseMultiFormat(Some("2023-02-29 10:00:00")).None?
  {
    var s := "2023-02-29 10:00:00";
    assert Four(s, 0) == Some(2023) && Two(s, 5) == Some(2) && Two(s, 8) == Some(29);
    assert !IsLeapYear(2023);
  }

  /** 31 April is rejected by every pattern. */
  lemma ThirtyFirstOfAprilRejected()
    ensures ParseMultiFormat(Some("31/04/2023 10:00")).None?
  {
    var t := "31/04/2023 10:00";
    assert Two(t, 0) == Some(31) && Two(t, 3) == Some(4) && Four(t, 6) == Some(2023);
  }
}
