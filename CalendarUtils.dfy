/**
 * Date and time helpers of the event form: input values, the snackbar's
 * date and clock texts, the invitee notice, the 30-minute time options,
 * location and time-range validation, and the location choices built
 * from the buildings data.
 */
module CalendarUtils {
  import opened Wrappers
  import opened Text
  import opened Entities
  import Clock

  /** The prototype's fixed "now", in milliseconds: 6 October 2025, 09:30 local time. */
  const FixedNow: Clock.Instant := 1759743000000

  /** FixedNow is `new Date(2025, 9, 6, 9, 30)`. */
  lemma FixedNowIsOctober6()
    ensures FixedNow == Clock.MakeInstant(2025, 9, 6, 9, 30)
    ensures Clock.DateOf(FixedNow) == Clock.Civil(2025, 10, 6)
  {
    Clock.October6Days();
    Clock.MakeInstantInRange(2025, 9, 6, 9, 30);
    Clock.DateOfMakeInstant(2025, 9, 6, 9, 30);
  }

  /** FixedNow reads 09:30 on the clock. */
  lemma FixedNowClock()
    ensures Clock.MinuteOfDay(FixedNow) == 570
    ensures Clock.Hours(FixedNow) == 9 && Clock.Minutes(FixedNow) == 30
  {
    assert FixedNow % Clock.MsPerDay == 34200000;
  }

  /** `${n}` for any integer. */
  function IntToString(n: int): string {
    if n >= 0 then NatToString(n) else "-" + NatToString(-n)
  }

  // ---------------------------------------------------------------------
  // Form input values and their parsers
  // ---------------------------------------------------------------------

  /** The date of a `YYYY-MM-DD` input value, or None when it is not one. */
  function ParseDateInput(s: string): Option<Clock.Civil> {
    if |s| == 10 && s[4] == '-' && s[7] == '-'
       && AllDigits(s[..4]) && AllDigits(s[5..7]) && AllDigits(s[8..])
    then
      var y, m, d := ParseNat(s[..4]), ParseNat(s[5..7]), ParseNat(s[8..]);
      if 1 <= m <= 12 && 1 <= d <= 31 then Some(Clock.Civil(y, m, d)) else None
    else None
  }

  /** The minute of the day of an `HH:MM` input value, or None when it is not one. */
  function ParseTimeInput(s: string): Option<nat> {
    if |s| == 5 && s[2] == ':' && AllDigits(s[..2]) && AllDigits(s[3..]) then
      var h, m := ParseNat(s[..2]), ParseNat(s[3..]);
      if h < 24 && m < 60 then Some(h * 60 + m) else None
    else None
  }

  /** `HH:MM` text of an hour and minute reads back as that minute of the day. */
  lemma TimeTextRoundTrip(h: nat, m: nat)
    requires h < 24 && m < 60
    ensures ParseTimeInput(Pad2(h) + ":" + Pad2(m)) == Some(h * 60 + m)
  {
    Pad2RoundTrip(h);
    Pad2RoundTrip(m);
    var s := Pad2(h) + ":" + Pad2(m);
    assert s[..2] == Pad2(h) && s[3..] == Pad2(m);
  }

  /** A 4-digit year with 2-digit month and day reads back as that date. */
  lemma DateTextRoundTrip(y: int, m: nat, d: nat)
    requires 1 <= m <= 12 && 1 <= d <= 31
    ensures 1000 <= y <= 9999 ==>
      ParseDateInput(IntToString(y) + "-" + Pad2(m) + "-" + Pad2(d)) == Some(Clock.Civil(y, m, d))
  {
    if 1000 <= y <= 9999 {
      var n: nat := y;
      var ys := NatToString(n);
      NatToStringRoundTrip(n);
      FourDigitYear(n);
      Pad2RoundTrip(m);
      Pad2RoundTrip(d);
      DateTextLayout(ys, Pad2(m), Pad2(d));
    }
  }

  lemma FourDigitYear(n: nat)
    requires 1000 <= n <= 9999
    ensures |NatToString(n)| == 4
  {
    assert NatToString(n) == NatToString(n / 10) + [DigitChar(n % 10)];
    assert NatToString(n / 10) == NatToString(n / 100) + [DigitChar((n / 10) % 10)];
    assert NatToString(n / 100) == NatToString(n / 1000) + [DigitChar((n / 100) % 10)];
  }

  /** Where the pieces of a `YYYY-MM-DD` text sit. */
  lemma DateTextLayout(ys: string, mm: string, dd: string)
    requires |ys| == 4 && |mm| == 2 && |dd| == 2
    ensures var r := ys + "-" + mm + "-" + dd;
      |r| == 10 && r[4] == '-' && r[7] == '-' && r[..4] == ys && r[5..7] == mm && r[8..] == dd
  {
  }

  /**
   * `toLocalDateInputValue`: the date as `YYYY-MM-DD` (the year unpadded);
   * the month and the day always take two places after their dashes.
   */
  function ToLocalDateInputValue(t: Clock.Instant): (r: string)
    ensures |r| >= 7 && r[|r| - 3] == '-' && r[|r| - 6] == '-'
  {
    IntToString(Clock.FullYear(t)) + "-" + Pad2(Clock.MonthIndex(t) + 1) + "-" + Pad2(Clock.DayOfMonth(t))
  }

  /**
   * The date text reads back as the instant's date (for four-digit years),
   * and its last two fields are the month and the day of the month.
   */
  lemma ToLocalDateInputValueSpec(t: Clock.Instant)
    ensures var r := ToLocalDateInputValue(t);
      (1000 <= Clock.FullYear(t) <= 9999 ==> ParseDateInput(r) == Some(Clock.DateOf(t)))
      && |r| >= 7 && r[|r| - 3] == '-' && r[|r| - 6] == '-'
      && ParseNat(r[|r| - 2..]) == Clock.DayOfMonth(t)
      && ParseNat(r[|r| - 5..|r| - 3]) == Clock.MonthIndex(t) + 1
  {
    var mm := Pad2(Clock.MonthIndex(t) + 1);
    var dd := Pad2(Clock.DayOfMonth(t));
    Pad2RoundTrip(Clock.MonthIndex(t) + 1);
    Pad2RoundTrip(Clock.DayOfMonth(t));
    var r := ToLocalDateInputValue(t);
    assert r[|r| - 2..] == dd && r[|r| - 5..|r| - 3] == mm;
    DateTextRoundTrip(Clock.FullYear(t), Clock.MonthIndex(t) + 1, Clock.DayOfMonth(t));
  }

  /** `toLocalTimeInputValue`: the time as `HH:MM`, always five characters. */
  function ToLocalTimeInputValue(t: Clock.Instant): (r: string)
    ensures |r| == 5 && r[2] == ':'
  {
    Pad2(Clock.Hours(t)) + ":" + Pad2(Clock.Minutes(t))
  }

  /** The time text reads back as the instant's minute of the day. */
  lemma ToLocalTimeInputValueSpec(t: Clock.Instant)
    ensures ParseTimeInput(ToLocalTimeInputValue(t)) == Some(Clock.MinuteOfDay(t))
  {
    TimeTextRoundTrip(Clock.Hours(t), Clock.Minutes(t));
    Clock.ClockFields(t);
  }

  // ---------------------------------------------------------------------
  // Snackbar texts
  // ---------------------------------------------------------------------

  /** `toLocaleDateString('en-US', {month: 'long', day: 'numeric', year: 'numeric'})` */
  function FormatDateForSnackbar(t: Clock.Instant): (r: string)
    ensures var name, year := Clock.MonthName(Clock.MonthIndex(t) + 1), IntToString(Clock.FullYear(t));
      |r| > |name| + |year| + 2 && r[..|name| + 1] == name + " " && r[|r| - |year| - 2..] == ", " + year
  {
    var name, year := Clock.MonthName(Clock.DateOf(t).month), IntToString(Clock.FullYear(t));
    var r := name + " " + NatToString(Clock.DayOfMonth(t)) + ", " + year;
    assert r[..|name| + 1] == name + " ";
    assert r[|r| - |year| - 2..] == ", " + year;
    r
  }

  /** The hour shown on a 12-hour clock: `hours % 12 || 12`. */
  function Hour12(h: nat): (r: nat)
    ensures 1 <= r <= 12 && r % 12 == h % 12
  {
    if h % 12 == 0 then 12 else h % 12
  }

  /** `h:mm <period>` on a 12-hour clock, with the given morning and afternoon marks. */
  function ClockText(h: nat, m: nat, am: string, pm: string): string {
    NatToString(Hour12(h)) + ":" + Pad2(m) + " " + (if h >= 12 then pm else am)
  }

  /** Reads a `h:mm am|pm` text (either case) back as a 24-hour hour and a minute. */
  function ParseClock12(s: string): Option<(nat, nat)> {
    var i := IndexOf(s, ':');
    if i < 1 || |s| != i + 6 || s[i + 3] != ' ' then None
    else ClockReading(ParseNat(s[..i]), ParseNat(s[i + 1..i + 3]), Lower(s[i + 4..]))
  }

  /** The 24-hour reading of a 12-hour clock hour, a minute and a lower-case mark. */
  function ClockReading(h12: nat, m: nat, mark: string): Option<(nat, nat)> {
    if mark == "am" then Some((To24(h12, false), m))
    else if mark == "pm" then Some((To24(h12, true), m))
    else None
  }

  /** The 24-hour hour of a 12-hour clock hour: 12 am is 0, 12 pm is 12. */
  function To24(h12: nat, pm: bool): nat {
    if pm then (if h12 == 12 then 12 else h12 + 12) else (if h12 == 12 then 0 else h12)
  }

  lemma To24Hour12(h: nat)
    requires h < 24
    ensures To24(Hour12(h), h >= 12) == h
  {
  }

  lemma LowerMarks()
    ensures Lower("am") == "am" && Lower("pm") == "pm"
    ensures Lower("AM") == "am" && Lower("PM") == "pm"
    ensures "pm" != "am"
  {
    assert "pm"[0] != "am"[0];
  }

  /** Where the pieces of a `h:mm am` text sit. */
  lemma ClockTextLayout(hs: string, mm: string, period: string)
    requires |mm| == 2
    ensures var s := hs + ":" + mm + " " + period;
      |s| == |hs| + 4 + |period| && s[..|hs|] == hs && s[|hs|..|hs| + 1] == ":"
      && s[|hs| + 1..|hs| + 3] == mm && s[|hs| + 3] == ' ' && s[|hs| + 4..] == period
  {
  }

  /** The first colon of a `h:mm am` text follows the hour digits. */
  lemma ClockTextColon(hs: string, mm: string, period: string)
    requires AllDigits(hs)
    ensures IndexOf(hs + ":" + mm + " " + period, ':') == |hs|
  {
    var tail := ":" + mm + " " + period;
    assert hs + ":" + mm + " " + period == hs + tail;
    assert ':' !in hs by {
      forall i | 0 <= i < |hs| ensures hs[i] != ':' {
        assert IsDigit(hs[i]);
      }
    }
    IndexOfAfterPrefix(hs, tail, ':');
    assert IndexOf(tail, ':') == 0;
  }

  /** A text whose first colon is followed by two minute characters, a space and a mark reads by its pieces. */
  lemma ParseClockPieces(s: string, i: int, hs: string, mm: string, period: string)
    requires IndexOf(s, ':') == i && 1 <= i && |s| == i + 6 && s[i + 3] == ' '
    requires s[..i] == hs && s[i + 1..i + 3] == mm && s[i + 4..] == period
    ensures ParseClock12(s) == ClockReading(ParseNat(hs), ParseNat(mm), Lower(period))
  {
  }

  /** A `h:mm` text followed by a two-letter mark reads back by the mark's lower case. */
  lemma ParseClockText(hs: string, mm: string, period: string)
    requires 1 <= |hs| && AllDigits(hs) && |mm| == 2 && |period| == 2
    ensures ParseClock12(hs + ":" + mm + " " + period) == ClockReading(ParseNat(hs), ParseNat(mm), Lower(period))
  {
    var s := hs + ":" + mm + " " + period;
    ClockTextLayout(hs, mm, period);
    ClockTextColon(hs, mm, period);
    ParseClockPieces(s, |hs|, hs, mm, period);
  }

  /**
   * The 12-hour text of any valid hour and minute, with lower- or upper-case
   * marks, reads back as that hour and minute.
   */
  lemma ClockTextRoundTrip(h: nat, m: nat, upper: bool)
    requires h < 24 && m < 60
    ensures var am, pm := if upper then "AM" else "am", if upper then "PM" else "pm";
      ParseClock12(ClockText(h, m, am, pm)) == Some((h, m))
  {
    var am, pm := if upper then "AM" else "am", if upper then "PM" else "pm";
    var hs, mm, period := NatToString(Hour12(h)), Pad2(m), if h >= 12 then pm else am;
    NatToStringRoundTrip(Hour12(h));
    Pad2RoundTrip(m);
    ParseClockText(hs, mm, period);
    LowerMarks();
    To24Hour12(h);
  }

  /** `formatTimeForSnackbar`: `h:mm am|pm` on a 12-hour clock. */
  function FormatTimeForSnackbar(t: Clock.Instant): string {
    ClockText(Clock.Hours(t), Clock.Minutes(t), "am", "pm")
  }

  /** The snackbar time reads back as the instant's hour and minute, and says "pm" exactly from noon on. */
  lemma SnackbarTimeReadsBack(t: Clock.Instant)
    ensures var r := FormatTimeForSnackbar(t);
      ParseClock12(r) == Some((Clock.Hours(t), Clock.Minutes(t)))
      && r[|r| - 2..] == if Clock.Hours(t) >= 12 then "pm" else "am"
  {
    ClockTextRoundTrip(Clock.Hours(t), Clock.Minutes(t), false);
    var hs, mm, period := NatToString(Hour12(Clock.Hours(t))), Pad2(Clock.Minutes(t)),
                          if Clock.Hours(t) >= 12 then "pm" else "am";
    ClockTextLayout(hs, mm, period);
  }

  // ---------------------------------------------------------------------
  // Invitee notice
  // ---------------------------------------------------------------------

  lemma InvitePiecesLeadingSpace(s: string)
    ensures InvitePieces(" " + s) == InvitePieces(s)
  {
    var p, q := Split(s, ','), Split(" " + s, ',');
    SplitWithPrefix(" ", s, ',');
    assert q[0] == " " + p[0] && q[1..] == p[1..];
    TrimLeadingSpace(p[0]);
    calc {
      TrimAll(q);
      [Trim(q[0])] + TrimAll(q[1..]);
      [Trim(p[0])] + TrimAll(p[1..]);
      TrimAll(p);
    }
  }

  lemma InvitePiecesCons(a: string, rest: string)
    requires ',' !in a
    ensures InvitePieces(a + [','] + rest) == [Trim(a)] + InvitePieces(rest)
  {
    var p := Split(rest, ',');
    SplitCons(a, rest, ',');
    assert ([a] + p)[1..] == p;
  }

  lemma InviteNamesOfOne(a: string)
    requires a != "" && ',' !in a && Trim(a) == a
    ensures InviteNames(a) == [a]
  {
    SplitNoSeparator(a, ',');
    assert InvitePieces(a) == [a];
    assert NonEmpty([a]) == [a] + NonEmpty([]);
  }

  /**
   * A list of clean names joined with ", " parses back to the same list:
   * the invite text the pages store loses no invitee and adds none.
   */
  lemma {:induction false} InviteNamesOfJoin(names: seq<string>)
    requires forall n :: n in names ==> n != "" && ',' !in n && Trim(n) == n
    ensures InviteNames(Join(names, ", ")) == names
  {
    if |names| == 0 {
      assert Split("", ',') == [""];
      assert InvitePieces("") == [""];
    } else if |names| == 1 {
      assert names[0] in names;
      InviteNamesOfOne(names[0]);
    } else {
      var a, rest := names[0], names[1..];
      var j := Join(rest, ", ");
      assert Join(names, ", ") == a + [','] + (" " + j);
      InvitePiecesCons(a, " " + j);
      InvitePiecesLeadingSpace(j);
      var pieces := InvitePieces(j);
      assert InvitePieces(Join(names, ", ")) == [a] + pieces;
      assert NonEmpty([a] + pieces) == [a] + NonEmpty(pieces) by {
        assert ([a] + pieces)[1..] == pieces;
      }
      InviteNamesOfJoin(rest);
    }
  }

  /** `formatInviteeNotification`: "Notified " and the invitee names joined by ", ", or "" when there are none. */
  function FormatInviteeNotification(invite: string): (r: string)
    ensures r == "" <==> InviteNames(invite) == []
    ensures r != "" ==> StartsWith(r, "Notified ")
  {
    var names := InviteNames(invite);
    if |names| == 0 then "" else "Notified " + Join(names, ", ")
  }

  /**
   * The notice is empty exactly when the invite names nobody; otherwise it is
   * "Notified " followed by text naming exactly the invitees.
   */
  lemma InviteeNotificationNames(invite: string)
    ensures var r := FormatInviteeNotification(invite);
      (r == "" <==> InviteNames(invite) == [])
      && (r != "" ==> StartsWith(r, "Notified ") && InviteNames(r[9..]) == InviteNames(invite))
  {
    var names := InviteNames(invite);
    if |names| > 0 {
      InviteNamesOfJoin(names);
      var r := "Notified " + Join(names, ", ");
      assert r[9..] == Join(names, ", ");
    }
  }

  // ---------------------------------------------------------------------
  // Time options
  // ---------------------------------------------------------------------

  datatype TimeOption = TimeOption(value: string, display: string)

  /** One option: value `HH:MM`, display `h:MM AM|PM` with hour 0 shown as 12. */
  function TimeOptionAt(hour: nat, minute: nat): TimeOption {
    TimeOption(Pad2(hour) + ":" + Pad2(minute),
               NatToString(DisplayHour(hour)) + ":" + Pad2(minute) + " " + (if hour < 12 then "AM" else "PM"))
  }

  /** The hour an option shows: 0 as 12, afternoon hours less twelve. */
  function DisplayHour(hour: nat): nat {
    if hour == 0 then 12 else if hour > 12 then hour - 12 else hour
  }

  /** Options show the same 12-hour clock hour as the snackbar. */
  lemma DisplayHourIsHour12(h: nat)
    requires h < 24
    ensures DisplayHour(h) == Hour12(h)
  {
  }

  /** The options of one hour from `minute` on, `step` minutes apart. */
  function MinuteOptions(hour: nat, minute: nat, step: nat): seq<TimeOption>
    requires step > 0
    decreases 60 - minute
  {
    if minute >= 60 then [] else [TimeOptionAt(hour, minute)] + MinuteOptions(hour, minute + step, step)
  }

  /** The options of the first `hours` hours of the day. */
  function OptionsBefore(hours: nat, step: nat): seq<TimeOption>
    requires step > 0
  {
    if hours == 0 then [] else OptionsBefore(hours - 1, step) + MinuteOptions(hours - 1, 0, step)
  }

  /** `buildTimeOptions(step)`: the options of every hour, in order. */
  method BuildTimeOptions(step: nat) returns (options: seq<TimeOption>)
    requires step > 0
    ensures options == OptionsBefore(24, step)
  {
    options := [];
    var hour := 0;
    while hour < 24
      invariant 0 <= hour <= 24
      invariant options == OptionsBefore(hour, step)
    {
      var minute := 0;
      while minute < 60
        invariant options + MinuteOptions(hour, minute, step) == OptionsBefore(hour + 1, step)
        decreases 60 - minute
      {
        var option, later := TimeOptionAt(hour, minute), MinuteOptions(hour, minute + step, step);
        assert MinuteOptions(hour, minute, step) == [option] + later;
        assert (options + [option]) + later == options + ([option] + later);
        options := options + [option];
        minute := minute + step;
      }
      hour := hour + 1;
    }
  }

  /** The options of the first hours start at midnight, shown as 12 AM, with at least one option an hour. */
  lemma {:induction false} OptionsBeforeStart(hours: nat, step: nat)
    requires step > 0 && hours >= 1
    ensures |OptionsBefore(hours, step)| >= hours && OptionsBefore(hours, step)[0] == TimeOptionAt(0, 0)
  {
    assert MinuteOptions(hours - 1, 0, step) == [TimeOptionAt(hours - 1, 0)] + MinuteOptions(hours - 1, step, step);
    if hours > 1 {
      OptionsBeforeStart(hours - 1, step);
    }
  }

  /** Midnight's option: value "00:00", shown as "12:00 AM". */
  lemma MidnightOption()
    ensures TimeOptionAt(0, 0) == TimeOption("00:00", "12:00 AM")
  {
    assert Pad2(0) == "00";
    assert NatToString(DisplayHour(0)) == "12";
  }

  /**
   * The options of a whole day; `TIME_OPTIONS_30_MIN` is `TimeOptions(30)`.
   * The list has at least one option per hour and starts at "00:00", shown
   * as "12:00 AM".
   */
  function TimeOptions(step: nat): (r: seq<TimeOption>)
    requires step > 0
    ensures |r| >= 24 && r[0] == TimeOption("00:00", "12:00 AM")
  {
    OptionsBeforeStart(24, step);
    MidnightOption();
    OptionsBefore(24, step)
  }

  /** The 30-minute options of one hour are that hour at :00 and at :30. */
  lemma HourOptions30(hour: nat, step: nat)
    requires step == 30
    ensures MinuteOptions(hour, 0, step) == [TimeOptionAt(hour, 0), TimeOptionAt(hour, 30)]
  {
    assert MinuteOptions(hour, 60, step) == [];
  }

  lemma {:induction false} OptionsBefore30Length(n: nat, step: nat)
    requires step == 30
    ensures |OptionsBefore(n, step)| == 2 * n
  {
    if n > 0 {
      OptionsBefore30Length(n - 1, step);
      HourOptions30(n - 1, step);
    }
  }

  /** Adding an hour keeps the options before it in place. */
  lemma OptionsBeforeKeeps(n: nat, step: nat, i: nat)
    requires step > 0 && n >= 1 && i < |OptionsBefore(n - 1, step)|
    ensures i < |OptionsBefore(n, step)| && OptionsBefore(n, step)[i] == OptionsBefore(n - 1, step)[i]
  {
  }

  /** The last two of the 30-minute options of the first n hours are hour n - 1 at :00 and :30. */
  lemma OptionsBeforeLastHour(n: nat, step: nat)
    requires step == 30 && n >= 1
    ensures |OptionsBefore(n, step)| == 2 * n
    ensures OptionsBefore(n, step)[2 * n - 2] == TimeOptionAt(n - 1, 0)
    ensures OptionsBefore(n, step)[2 * n - 1] == TimeOptionAt(n - 1, 30)
  {
    OptionsBefore30Length(n - 1, step);
    HourOptions30(n - 1, step);
  }

  /** Among the 30-minute options of the first n hours, hour h at minute m (0 or 30) is number 2 * h + m / 30. */
  lemma {:induction false} OptionsBefore30At(n: nat, step: nat, h: nat, m: nat, i: nat)
    requires step == 30 && h < n && (m == 0 || m == 30) && i == 2 * h + m / 30
    ensures |OptionsBefore(n, step)| == 2 * n && i < 2 * n
    ensures OptionsBefore(n, step)[i] == TimeOptionAt(h, m)
  {
    OptionsBefore30Length(n, step);
    if h < n - 1 {
      OptionsBefore30At(n - 1, step, h, m, i);
      OptionsBeforeKeeps(n, step, i);
    } else {
      assert h == n - 1;
      OptionsBeforeLastHour(n, step);
      if m == 0 {
        assert i == 2 * n - 2;
      } else {
        assert i == 2 * n - 1;
      }
    }
  }

  /** The i-th 30-minute option is the one for hour i / 2 and minute 0 or 30. */
  lemma TimeOption30At(step: nat, i: nat)
    requires step == 30 && i < 48
    ensures |TimeOptions(step)| == 48 && TimeOptions(step)[i] == TimeOptionAt(i / 2, (i % 2) * 30)
  {
    var h, m := i / 2, (i % 2) * 30;
    assert 2 * h + m / 30 == i;
    OptionsBefore30At(24, step, h, m, i);
  }

  /** Option index i stands for hour i / 2 and minute (i % 2) * 30, which is minute 30 * i of the day. */
  lemma HalfHourIndex(i: nat)
    requires i < 48
    ensures i / 2 < 24 && (i % 2) * 30 < 60 && (i / 2) * 60 + (i % 2) * 30 == 30 * i
  {
  }

  /** The value of the i-th 30-minute option reads back as minute 30 * i. */
  lemma TimeOption30Value(step: nat, i: nat)
    requires step == 30 && i < 48
    ensures |TimeOptions(step)| == 48
    ensures var v := ParseTimeInput(TimeOptions(step)[i].value); v.Some? && v.value == 30 * i
  {
    HalfHourIndex(i);
    TimeOption30At(step, i);
    TimeOptionReadsBack(i / 2, (i % 2) * 30);
  }

  /** An option's value reads back as its minute of the day, and its display as its hour and minute. */
  lemma TimeOptionReadsBack(h: nat, m: nat)
    requires h < 24 && m < 60
    ensures ParseTimeInput(TimeOptionAt(h, m).value) == Some(h * 60 + m)
    ensures ParseClock12(TimeOptionAt(h, m).display) == Some((h, m))
  {
    TimeTextRoundTrip(h, m);
    TimeOptionDisplayReadsBack(h, m);
  }

  lemma TimeOptionDisplayReadsBack(h: nat, m: nat)
    requires h < 24 && m < 60
    ensures ParseClock12(TimeOptionAt(h, m).display) == Some((h, m))
  {
    DisplayHourIsHour12(h);
    assert TimeOptionAt(h, m).display == ClockText(h, m, "AM", "PM");
    ClockTextRoundTrip(h, m, true);
  }

  /**
   * The 30-minute options: 48 of them, the i-th worth minute 30 * i of the
   * day, and its display reads as the same hour and minute on a 12-hour
   * clock (so midnight shows as 12 AM and noon as 12 PM).
   */
  lemma TimeOptions30Shape(step: nat)
    requires step == 30
    ensures |TimeOptions(step)| == 48
    ensures forall i :: 0 <= i < 48 ==>
      var v := ParseTimeInput(TimeOptions(step)[i].value); v.Some? && v.value == 30 * i
    ensures forall i :: 0 <= i < 48 ==>
      ParseClock12(TimeOptions(step)[i].display) == Some((i / 2, (i % 2) * 30))
  {
    TimeOption30At(step, 0);
    forall i | 0 <= i < 48
      ensures var v := ParseTimeInput(TimeOptions(step)[i].value); v.Some? && v.value == 30 * i
    {
      TimeOption30Value(step, i);
    }
    forall i | 0 <= i < 48
      ensures ParseClock12(TimeOptions(step)[i].display) == Some((i / 2, (i % 2) * 30))
    {
      HalfHourIndex(i);
      TimeOption30At(step, i);
      TimeOptionReadsBack(i / 2, (i % 2) * 30);
    }
  }

  /** The 30-minute options are in strictly increasing time order. */
  lemma TimeOptions30Ascending(step: nat, i: nat, j: nat)
    requires step == 30 && i < j < 48
    ensures |TimeOptions(step)| == 48
    ensures ParseTimeInput(TimeOptions(step)[i].value).Some? && ParseTimeInput(TimeOptions(step)[j].value).Some?
    ensures ParseTimeInput(TimeOptions(step)[i].value).value < ParseTimeInput(TimeOptions(step)[j].value).value
  {
    TimeOption30At(step, i);
    TimeOption30At(step, j);
    TimeTextRoundTrip(i / 2, (i % 2) * 30);
    TimeTextRoundTrip(j / 2, (j % 2) * 30);
  }

  /**
   * `findClosestTimeOption` on the two numbers of an `HH:MM` value: the
   * minutes rounded to the nearest step (halves up), carried into the next
   * hour modulo 24 when they reach 60.
   */
  function FindClosestTimeOption(hours: nat, minutes: nat, step: nat): (r: string)
    requires step > 0
    ensures hours < 24 ==> ParseTimeInput(r).Some? && (ParseNat(r[..2]) == hours || ParseNat(r[..2]) == (hours + 1) % 24)
  {
    var rounded := ((2 * minutes + step) / (2 * step)) * step;
    var finalMinutes := if rounded >= 60 then 0 else rounded;
    var finalHours := if rounded >= 60 then (hours + 1) % 24 else hours;
    var r := Pad2(finalHours) + ":" + Pad2(finalMinutes);
    Pad2RoundTrip(finalHours);
    Pad2RoundTrip(finalMinutes);
    if hours < 24 then
      assert r[..2] == Pad2(finalHours) && r[3..] == Pad2(finalMinutes);
      r
    else r
  }

  /**
   * The hour and minute `findClosestTimeOption` settles on for step 30: a
   * half-hour mark at most 15 minutes after, or less than 15 before, the
   * input, counted around the clock.
   */
  lemma ClosestHalfHour(hours: nat, minutes: nat) returns (fh: nat, fm: nat)
    requires hours < 24 && minutes < 60
    ensures fh < 24 && (fm == 0 || fm == 30)
    ensures FindClosestTimeOption(hours, minutes, 30) == Pad2(fh) + ":" + Pad2(fm)
    ensures var diff := fh * 60 + fm - (hours * 60 + minutes);
      -15 < diff <= 15 || -15 < diff + 1440 <= 15
  {
    var rounded := ((2 * minutes + 30) / 60) * 30;
    fh := if rounded >= 60 then (hours + 1) % 24 else hours;
    fm := if rounded >= 60 then 0 else rounded;
  }

  /** Hour h at minute 0 or 30 is option number 2 * h + m / 30, worth minute 30 times that. */
  lemma HalfHourSlot(h: nat, m: nat)
    requires h < 24 && (m == 0 || m == 30)
    ensures 2 * h + m / 30 < 48 && 30 * (2 * h + m / 30) == h * 60 + m
  {
  }

  /** The 30-minute option for hour h at minute 0 or 30, and where it sits. */
  lemma TimeOptionSlot(step: nat, h: nat, m: nat) returns (i: nat)
    requires step == 30 && h < 24 && (m == 0 || m == 30)
    ensures |TimeOptions(step)| == 48 && i < 48 && 30 * i == h * 60 + m
    ensures TimeOptions(step)[i].value == Pad2(h) + ":" + Pad2(m)
  {
    i := 2 * h + m / 30;
    HalfHourSlot(h, m);
    OptionsBefore30At(24, step, h, m, i);
  }

  /** For a valid time, the closest 30-minute option is one of the `TIME_OPTIONS_30_MIN` values. */
  lemma ClosestTimeOptionIsOption(hours: nat, minutes: nat, step: nat)
    requires hours < 24 && minutes < 60 && step == 30
    ensures exists i :: 0 <= i < 48 && |TimeOptions(step)| == 48
                        && TimeOptions(step)[i].value == FindClosestTimeOption(hours, minutes, 30)
                        && ParseTimeInput(FindClosestTimeOption(hours, minutes, 30)).Some?
                        && ParseTimeInput(FindClosestTimeOption(hours, minutes, 30)).value == 30 * i
  {
    var fh, fm := ClosestHalfHour(hours, minutes);
    var i := TimeOptionSlot(step, fh, fm);
    TimeTextRoundTrip(fh, fm);
  }

  /**
   * The closest 30-minute option lies within 15 minutes of the input around
   * the clock: at most 15 minutes ahead or less than 15 behind (a tie goes
   * to the later option).
   */
  lemma ClosestTimeOptionIsNear(hours: nat, minutes: nat)
    requires hours < 24 && minutes < 60
    ensures var v := ParseTimeInput(FindClosestTimeOption(hours, minutes, 30));
      v.Some? && var diff := v.value - (hours * 60 + minutes);
      (-15 < diff <= 15 || -15 < diff + 1440 <= 15)
  {
    var fh, fm := ClosestHalfHour(hours, minutes);
    TimeTextRoundTrip(fh, fm);
  }

  // ---------------------------------------------------------------------
  // Validation
  // ---------------------------------------------------------------------

  datatype Validation = Validation(valid: bool, message: string)

  /** One entry of the location list: a building or a place inside one. */
  datatype LocationChoice = LocationChoice(caption: string, locationName: string, buildingName: string, kind: string)

  /**
   * Whether lowered input `lower` names `choice`: it equals the lowered
   * location or building name, or (when it has a comma) its trimmed halves
   * equal them both.
   */
  predicate NamesChoice(lower: string, choice: LocationChoice) {
    var loc, bld := Lower(choice.locationName), Lower(choice.buildingName);
    var comma := IndexOf(lower, ',');
    lower == loc || lower == bld
    || (comma >= 0 && loc == Trim(lower[..comma]) && bld == Trim(lower[comma + 1..]))
  }

  /** `locationChoices.some(...)` */
  function AnyChoiceNamed(lower: string, choices: seq<LocationChoice>): (b: bool)
    ensures b <==> exists c :: c in choices && NamesChoice(lower, c)
  {
    if |choices| == 0 then false
    else NamesChoice(lower, choices[0]) || AnyChoiceNamed(lower, choices[1..])
  }

  function InvalidLocationMessage(raw: string): string {
    raw + " is not a valid location. Please choose a location from the list."
  }

  /**
   * `validateLocationValue`: an empty (after trimming) input or an empty
   * choice list is valid; otherwise the input is valid exactly when it names
   * some choice, and an invalid input gets the fixed message built from the
   * raw text.
   */
  function ValidateLocationValue(raw: string, choices: seq<LocationChoice>): (v: Validation)
    ensures v.valid <==> Trim(raw) == "" || |choices| == 0
                         || exists c :: c in choices && NamesChoice(Lower(Trim(raw)), c)
    ensures v.message == if v.valid then "" else InvalidLocationMessage(raw)
  {
    var value := Trim(raw);
    if value == "" || |choices| == 0 then Validation(true, "")
    else if AnyChoiceNamed(Lower(value), choices) then Validation(true, "")
    else Validation(false, InvalidLocationMessage(raw))
  }

  lemma LowerKeepsSpaces(s: string)
    ensures forall i :: 0 <= i < |s| ==> (IsSpace(Lower(s)[i]) <==> IsSpace(s[i]))
    ensures ',' !in s ==> ',' !in Lower(s)
  {
  }

  lemma TrimLower(s: string)
    requires Trim(s) == s
    ensures Trim(Lower(s)) == Lower(s)
  {
    LowerKeepsSpaces(s);
  }

  /** Picking a building or place from the list writes its label, which validates. */
  lemma PickedCaptionIsValid(c: LocationChoice, choices: seq<LocationChoice>)
    requires c in choices && c.caption == c.locationName
    requires c.caption != "" && Trim(c.caption) == c.caption
    ensures ValidateLocationValue(c.caption, choices).valid
  {
    assert NamesChoice(Lower(Trim(c.caption)), c);
  }

  /** The lowered "label, building" text: the lowered label, the comma, a space and the lowered building. */
  lemma PlaceTextLowered(caption: string, building: string)
    requires ',' !in caption
    ensures var lower := Lower(caption + ", " + building);
      IndexOf(lower, ',') == |caption|
      && lower[..|caption|] == Lower(caption)
      && lower[|caption| + 1..] == " " + Lower(building)
  {
    var lower := Lower(caption + ", " + building);
    LowerAppend(caption, ", " + building);
    LowerAppend(", ", building);
    assert Lower(", ") == ", ";
    LowerKeepsSpaces(caption);
    var tail := [','] + (" " + Lower(building));
    assert lower == Lower(caption) + tail;
    IndexOfAfterPrefix(Lower(caption), tail, ',');
    assert IndexOf(tail, ',') == 0;
  }

  /**
   * Picking a place writes "label, building", which validates when the
   * label and the building name are trimmed and non-empty and the label
   * has no comma.
   */
  lemma PickedPlaceIsValid(c: LocationChoice, choices: seq<LocationChoice>)
    requires c in choices && c.caption == c.locationName
    requires c.caption != "" && c.buildingName != ""
    requires Trim(c.caption) == c.caption && Trim(c.buildingName) == c.buildingName
    requires ',' !in c.caption
    ensures ValidateLocationValue(c.caption + ", " + c.buildingName, choices).valid
  {
    var raw := c.caption + ", " + c.buildingName;
    assert Trim(raw) == raw;
    PlaceTextLowered(c.caption, c.buildingName);
    TrimLower(c.caption);
    TrimLower(c.buildingName);
    TrimLeadingSpace(Lower(c.buildingName));
    assert NamesChoice(Lower(raw), c);
  }

  /** `new Date(`${date}T${time}`)`: the instant of a date and time input pair, if both parse. */
  function ParseLocalDateTime(date: string, time: string): Option<Clock.Instant> {
    match (ParseDateInput(date), ParseTimeInput(time))
    case (Some(d), Some(minute)) =>
      Some(Clock.DaysFromCivil(d.year, d.month, d.day) * Clock.MsPerDay + minute * Clock.MsPerMinute)
    case _ => None
  }

  const EndBeforeStartMessage: string := "End time must be after start time."

  /**
   * `validateTimeRange`: a missing or unreadable date or time passes; a
   * readable range fails, with the fixed message, exactly when the end is
   * not after the start.
   */
  function ValidateTimeRange(date: string, startTime: string, endTime: string): (v: Validation)
    ensures !v.valid <==>
      date != "" && startTime != "" && endTime != ""
      && ParseDateInput(date).Some? && ParseTimeInput(startTime).Some? && ParseTimeInput(endTime).Some?
      && ParseTimeInput(endTime).value <= ParseTimeInput(startTime).value
    ensures v.message == if v.valid then "" else EndBeforeStartMessage
  {
    if date == "" || startTime == "" || endTime == "" then Validation(true, "")
    else
      var start, end := ParseLocalDateTime(date, startTime), ParseLocalDateTime(date, endTime);
      if start.None? || end.None? then Validation(true, "")
      else if end.value <= start.value then Validation(false, EndBeforeStartMessage)
      else Validation(true, "")
  }

  // ---------------------------------------------------------------------
  // Location choices
  // ---------------------------------------------------------------------

  /** The name a building is listed under: `building.name || key`. */
  function ListedName(entry: BuildingEntry): string {
    if entry.building.name != "" then entry.building.name else entry.key
  }

  function BuildingChoice(entry: BuildingEntry): LocationChoice {
    var n := ListedName(entry);
    LocationChoice(n, n, n, "building")
  }

  function PlaceChoice(entry: BuildingEntry, loc: Location): LocationChoice {
    LocationChoice(loc.name, loc.name, ListedName(entry), if loc.kind != "" then loc.kind else "location")
  }

  /** The choices of one building: the building itself, then its places in order. */
  function ChoicesOf(entry: BuildingEntry): seq<LocationChoice> {
    [BuildingChoice(entry)]
      + seq(|entry.building.locations|, j requires 0 <= j < |entry.building.locations| =>
              PlaceChoice(entry, entry.building.locations[j]))
  }

  /** The choices of all buildings in key order: one per building and one per place. */
  function LocationChoices(buildings: seq<BuildingEntry>): (r: seq<LocationChoice>)
    ensures |r| == ChoiceCount(buildings)
  {
    if |buildings| == 0 then [] else LocationChoices(buildings[..|buildings| - 1]) + ChoicesOf(buildings[|buildings| - 1])
  }

  /** `buildLocationChoices` */
  method BuildLocationChoices(buildings: seq<BuildingEntry>) returns (choices: seq<LocationChoice>)
    ensures choices == LocationChoices(buildings)
  {
    choices := [];
    var k := 0;
    while k < |buildings|
      invariant 0 <= k <= |buildings|
      invariant choices == LocationChoices(buildings[..k])
    {
      var entry := buildings[k];
      choices := choices + [BuildingChoice(entry)];
      var j := 0;
      while j < |entry.building.locations|
        invariant 0 <= j <= |entry.building.locations|
        invariant choices == LocationChoices(buildings[..k]) + ChoicesOf(entry)[..j + 1]
      {
        assert ChoicesOf(entry)[..j + 2] == ChoicesOf(entry)[..j + 1] + [PlaceChoice(entry, entry.building.locations[j])];
        choices := choices + [PlaceChoice(entry, entry.building.locations[j])];
        j := j + 1;
      }
      assert ChoicesOf(entry)[..j + 1] == ChoicesOf(entry);
      assert buildings[..k + 1][..k] == buildings[..k];
      k := k + 1;
    }
    assert buildings[..k] == buildings;
  }

  function ChoiceCount(buildings: seq<BuildingEntry>): nat {
    if |buildings| == 0 then 0
    else ChoiceCount(buildings[..|buildings| - 1]) + 1 + |buildings[|buildings| - 1].building.locations|
  }

  /** Adding a building keeps the earlier choices in place and appends its own. */
  lemma LocationChoicesSnoc(buildings: seq<BuildingEntry>)
    requires |buildings| > 0
    ensures var init := buildings[..|buildings| - 1];
      LocationChoices(buildings) == LocationChoices(init) + ChoicesOf(buildings[|buildings| - 1])
  {
  }

  /** The i-th choice of building k sits at ChoiceCount of the buildings before it, plus i. */
  lemma {:induction false} LocationChoicesAt(buildings: seq<BuildingEntry>, k: nat, i: nat)
    requires k < |buildings| && i <= |buildings[k].building.locations|
    ensures |LocationChoices(buildings)| == ChoiceCount(buildings)
    ensures ChoiceCount(buildings[..k]) + i < |LocationChoices(buildings)|
    ensures LocationChoices(buildings)[ChoiceCount(buildings[..k]) + i] == ChoicesOf(buildings[k])[i]
    decreases |buildings|
  {
    var n := |buildings|;
    var init := buildings[..n - 1];
    var at := ChoiceCount(buildings[..k]) + i;
    LocationChoicesCount(buildings);
    LocationChoicesCount(init);
    LocationChoicesSnoc(buildings);
    if k < n - 1 {
      LocationChoicesAt(init, k, i);
      assert init[..k] == buildings[..k];
      assert init[k] == buildings[k];
      assert ChoiceCount(init[..k]) + i == at;
      assert (LocationChoices(init) + ChoicesOf(buildings[n - 1]))[at] == LocationChoices(init)[at];
    } else {
      assert k == n - 1;
      assert buildings[..k] == init;
      assert at - |LocationChoices(init)| == i;
      assert ChoicesOf(buildings[k]) == ChoicesOf(buildings[n - 1]);
    }
  }

  /**
   * Building k is offered first among its choices, at ChoiceCount of the
   * buildings before it, under its listed name with type 'building'.
   */
  lemma BuildingSlot(buildings: seq<BuildingEntry>, k: nat)
    requires k < |buildings|
    ensures var at := ChoiceCount(buildings[..k]);
      at < |LocationChoices(buildings)|
      && LocationChoices(buildings)[at].kind == "building"
      && LocationChoices(buildings)[at].caption == ListedName(buildings[k])
  {
    LocationChoicesAt(buildings, k, 0);
  }

  /**
   * Place j of building k follows the building at offset 1 + j, labelled with
   * its own name, tied to the building's listed name, and typed with its own
   * type or 'location' when it has none.
   */
  lemma PlaceSlot(buildings: seq<BuildingEntry>, k: nat, j: nat)
    requires k < |buildings| && j < |buildings[k].building.locations|
    ensures var at, entry := ChoiceCount(buildings[..k]), buildings[k];
      var loc := entry.building.locations[j];
      at + 1 + j < |LocationChoices(buildings)|
      && LocationChoices(buildings)[at + 1 + j].caption == loc.name
      && LocationChoices(buildings)[at + 1 + j].buildingName == ListedName(entry)
      && LocationChoices(buildings)[at + 1 + j].kind == (if loc.kind == "" then "location" else loc.kind)
  {
    LocationChoicesAt(buildings, k, 1 + j);
    var at := ChoiceCount(buildings[..k]);
    assert LocationChoices(buildings)[at + 1 + j] == PlaceChoice(buildings[k], buildings[k].building.locations[j]);
  }

  lemma {:induction false} LocationChoicesCount(buildings: seq<BuildingEntry>)
    ensures |LocationChoices(buildings)| == ChoiceCount(buildings)
    decreases |buildings|
  {
    if |buildings| > 0 {
      LocationChoicesCount(buildings[..|buildings| - 1]);
    }
  }

  // ---------------------------------------------------------------------
  // Modal defaults
  // ---------------------------------------------------------------------

  datatype ModalDateTime = ModalDateTime(dateValue: string, startTimeValue: string, endTimeValue: string)

  /** The instant the form opens at: the start preset, else the event's start, else the fixed now. */
  function ModalStart(startPreset: Option<Clock.Instant>, eventData: Option<Event>): Clock.Instant {
    if startPreset.Some? then startPreset.value
    else if eventData.Some? && eventData.value.start.Some? then eventData.value.start.value
    else FixedNow
  }

  /** The end the caller supplied for that start, if any. */
  function ModalGivenEnd(startPreset: Option<Clock.Instant>, endPreset: Option<Clock.Instant>,
                         eventData: Option<Event>): Option<Clock.Instant> {
    if startPreset.Some? then endPreset
    else if eventData.Some? && eventData.value.start.Some? then eventData.value.end
    else None
  }

  /**
   * `computeModalDateTimeValues` (a missing event stands for the `{}` the
   * caller passes). The form's date and start time are those of ModalStart;
   * the end time is that of the given end, or one hour after the start
   * around the clock.
   */
  function ComputeModalDateTimeValues(startPreset: Option<Clock.Instant>, endPreset: Option<Clock.Instant>,
                                      eventData: Option<Event>): (r: ModalDateTime)
    ensures r.dateValue == ToLocalDateInputValue(ModalStart(startPreset, eventData))
    ensures ParseTimeInput(r.startTimeValue) == Some(Clock.MinuteOfDay(ModalStart(startPreset, eventData)))
    ensures var givenEnd := ModalGivenEnd(startPreset, endPreset, eventData);
      ParseTimeInput(r.endTimeValue)
        == Some(if givenEnd.Some? then Clock.MinuteOfDay(givenEnd.value)
                else (Clock.MinuteOfDay(ModalStart(startPreset, eventData)) + 60) % 1440)
  {
    var s := ModalStart(startPreset, eventData);
    var givenEnd := ModalGivenEnd(startPreset, endPreset, eventData);
    var e := if givenEnd.Some? then givenEnd.value else s + Clock.MsPerHour;
    var r := ModalDateTime(ToLocalDateInputValue(s), ToLocalTimeInputValue(s), ToLocalTimeInputValue(e));
    ModalTimes(r, s, givenEnd);
    r
  }

  /** The times the form shows for a given start and a given end, read back as minutes of the day. */
  lemma ModalTimes(r: ModalDateTime, s: Clock.Instant, givenEnd: Option<Clock.Instant>)
    requires r == ModalDateTime(ToLocalDateInputValue(s), ToLocalTimeInputValue(s),
                                ToLocalTimeInputValue(if givenEnd.Some? then givenEnd.value else s + Clock.MsPerHour))
    ensures ParseTimeInput(r.startTimeValue) == Some(Clock.MinuteOfDay(s))
    ensures ParseTimeInput(r.endTimeValue)
      == Some(if givenEnd.Some? then Clock.MinuteOfDay(givenEnd.value) else (Clock.MinuteOfDay(s) + 60) % 1440)
  {
    ToLocalTimeInputValueSpec(s);
    ModalEndTime(s, givenEnd);
  }

  /** The end time text: the given end's time, or the start's time plus an hour around the clock. */
  lemma ModalEndTime(s: Clock.Instant, givenEnd: Option<Clock.Instant>)
    ensures ParseTimeInput(ToLocalTimeInputValue(if givenEnd.Some? then givenEnd.value else s + Clock.MsPerHour))
      == Some(if givenEnd.Some? then Clock.MinuteOfDay(givenEnd.value) else (Clock.MinuteOfDay(s) + 60) % 1440)
  {
    if givenEnd.Some? {
      ToLocalTimeInputValueSpec(givenEnd.value);
    } else {
      ToLocalTimeInputValueSpec(s + Clock.MsPerHour);
      Clock.NextHourMinute(s);
    }
  }
}
