/** The countdown bar on the landing page: the time left until the party,
    split into days, hours and minutes and shown as "D Tage · HH:MM Std.".
    The clock reading `now` is a parameter; the bar re-reads it every second. */
module Home {
  import opened Text

  /** `1000 * 60`, `1000 * 60 * 60` and `1000 * 60 * 60 * 24`. */
  const MsPerMinute: int := 60000
  const MsPerHour: int := 3600000
  const MsPerDay: int := 86400000

  /** `EVENT_ISO`, 4 October 2025 at 17:00 CEST, as milliseconds since the epoch. */
  const EventMillis: int := 1759590000000

  datatype Remaining = Remaining(days: int, hours: int, minutes: int)

  function TotalMinutes(r: Remaining): int
  {
    r.days * 1440 + r.hours * 60 + r.minutes
  }

  /** `Math.max(0, target - now)`. */
  function TimeLeft(target: int, now: int): nat
  {
    if target - now > 0 then target - now else 0
  }

  /** The `useMemo` of the bar: days, hours and minutes left, each rounded
      down, a proper days/hours/minutes split of the whole minutes left. */
  function Countdown(target: int, now: int): (r: Remaining)
    ensures r.days >= 0 && 0 <= r.hours < 24 && 0 <= r.minutes < 60
    ensures TotalMinutes(r) == TimeLeft(target, now) / MsPerMinute
  {
    var diff := TimeLeft(target, now);
    MinutesOfTimeLeft(diff);
    Remaining(diff / MsPerDay, (diff % MsPerDay) / MsPerHour, (diff % MsPerHour) / MsPerMinute)
  }

  /** The countdown is never more than the time left and less than a minute
      short of it; it reads all zero iff under a minute is left, so in
      particular once the target has passed. */
  lemma CountdownWithinAMinute(target: int, now: int)
    ensures var r := Countdown(target, now);
            TotalMinutes(r) * MsPerMinute <= TimeLeft(target, now) < (TotalMinutes(r) + 1) * MsPerMinute
    ensures Countdown(target, now) == Remaining(0, 0, 0) <==> target - now < MsPerMinute
  {
    WholeMinutes(TimeLeft(target, now));
  }

  /** Hours and minutes taken modulo a day and an hour still add up, with the
      days, to the whole minutes of `diff`. */
  lemma MinutesOfTimeLeft(diff: nat)
    ensures 0 <= (diff % MsPerDay) / MsPerHour < 24
    ensures 0 <= (diff % MsPerHour) / MsPerMinute < 60
    ensures (diff / MsPerDay) * 1440 + ((diff % MsPerDay) / MsPerHour) * 60 + (diff % MsPerHour) / MsPerMinute
            == diff / MsPerMinute
  {
    var d, rd := diff / MsPerDay, diff % MsPerDay;
    var h, rh := rd / MsPerHour, rd % MsPerHour;
    var m, rm := rh / MsPerMinute, rh % MsPerMinute;
    assert diff == (d * 24 + h) * MsPerHour + rh && 0 <= h < 24 by {
      assert diff == d * MsPerDay + rd && 0 <= rd < MsPerDay;
      assert rd == h * MsPerHour + rh && 0 <= rh < MsPerHour;
    }
    HourUnique(diff, d * 24 + h, rh);
    assert diff == (d * 1440 + h * 60 + m) * MsPerMinute + rm && 0 <= m < 60 by {
      assert rh == m * MsPerMinute + rm && 0 <= rm < MsPerMinute;
    }
    MinuteUnique(diff, d * 1440 + h * 60 + m, rm);
  }

  lemma HourUnique(x: int, q: int, rem: int)
    requires x == q * MsPerHour + rem && 0 <= rem < MsPerHour
    ensures x / MsPerHour == q && x % MsPerHour == rem
  {
  }

  lemma MinuteUnique(x: int, q: int, rem: int)
    requires x == q * MsPerMinute + rem && 0 <= rem < MsPerMinute
    ensures x / MsPerMinute == q && x % MsPerMinute == rem
  {
  }

  lemma WholeMinutes(diff: nat)
    ensures (diff / MsPerMinute) * MsPerMinute <= diff < (diff / MsPerMinute + 1) * MsPerMinute
    ensures diff / MsPerMinute == 0 <==> diff < MsPerMinute
  {
    var m := diff / MsPerMinute;
    assert m * MsPerMinute <= diff < (m + 1) * MsPerMinute;
  }

  lemma DivMonotone(x: nat, y: nat)
    requires x <= y
    ensures x / MsPerMinute <= y / MsPerMinute
  {
  }

  /** As the clock moves on, the countdown never goes up. */
  lemma CountdownNeverRises(target: int, now: int, later: int)
    requires now <= later
    ensures TotalMinutes(Countdown(target, later)) <= TotalMinutes(Countdown(target, now))
  {
    DivMonotone(TimeLeft(target, later), TimeLeft(target, now));
  }

  /** `String(n).padStart(2, '0')`: a number below 100 becomes exactly two
      digits that read back as the number; a larger one is left as it is. */
  function TwoDigits(n: int): (s: string)
    ensures n >= 0 ==> AllDigits(s) && ParseDecimal(s) == n
    ensures 0 <= n < 100 <==> |s| == 2 && AllDigits(s)
  {
    var t := IntString(n);
    if n >= 0 then
      ParseDecimalString(n);
      if |t| < 2 then
        ParseLeadingZero(t);
        assert PadStart(t, 2, '0') == "0" + t;
        PadStart(t, 2, '0')
      else PadStart(t, 2, '0')
    else
      assert t[0] == '-';
      PadStart(t, 2, '0')
  }

  /** From the start of the party on, the bar reads zero days, hours and minutes. */
  lemma CountdownAfterStart(now: int)
    requires now >= EventMillis
    ensures Countdown(EventMillis, now) == Remaining(0, 0, 0)
  {
    CountdownWithinAMinute(EventMillis, now);
  }

  /** "D Tage · HH:MM Std." from its three numbers, already rendered. */
  function Label(days: string, hh: string, mm: string): string
  {
    days + " Tage · " + hh + ":" + mm + " Std."
  }

  lemma LabelSlices(days: string, hh: string, mm: string)
    requires |hh| == 2 && |mm| == 2
    ensures var s := Label(days, hh, mm);
            && |s| == |days| + 18
            && s[..|s| - 18] == days && s[|s| - 18..|s| - 10] == " Tage · "
            && s[|s| - 10..|s| - 8] == hh && s[|s| - 8] == ':'
            && s[|s| - 7..|s| - 5] == mm && s[|s| - 5..] == " Std."
  {
    var s := Label(days, hh, mm);
    var tail := " Tage · " + hh + ":" + mm + " Std.";
    assert s == days + tail;
    assert |tail| == 18;
    assert s[|days|..] == tail;
    assert tail[..8] == " Tage · " && tail[8..10] == hh && tail[10] == ':' && tail[11..13] == mm && tail[13..] == " Std.";
  }

  /** `s` is "D Tage · HH:MM Std." whose three numbers read back as `r`. */
  predicate ShowsRemaining(s: string, r: Remaining)
  {
    && |s| >= 19
    && AllDigits(s[..|s| - 18]) && ParseDecimal(s[..|s| - 18]) == r.days
    && s[|s| - 18..|s| - 10] == " Tage · "
    && AllDigits(s[|s| - 10..|s| - 8]) && ParseDecimal(s[|s| - 10..|s| - 8]) == r.hours
    && s[|s| - 8] == ':'
    && AllDigits(s[|s| - 7..|s| - 5]) && ParseDecimal(s[|s| - 7..|s| - 5]) == r.minutes
    && s[|s| - 5..] == " Std."
  }

  lemma LabelShows(days: string, hh: string, mm: string, r: Remaining)
    requires |days| >= 1 && AllDigits(days) && ParseDecimal(days) == r.days
    requires |hh| == 2 && AllDigits(hh) && ParseDecimal(hh) == r.hours
    requires |mm| == 2 && AllDigits(mm) && ParseDecimal(mm) == r.minutes
    ensures ShowsRemaining(Label(days, hh, mm), r)
  {
    var s := Label(days, hh, mm);
    LabelSlices(days, hh, mm);
    assert |s| == |days| + 18;
    assert s[..|s| - 18] == days;
    assert s[|s| - 10..|s| - 8] == hh;
    assert s[|s| - 7..|s| - 5] == mm;
  }

  /** The rendered numbers of a proper days/hours/minutes split read back from the label. */
  lemma RenderedLabel(r: Remaining)
    requires r.days >= 0 && 0 <= r.hours < 24 && 0 <= r.minutes < 60
    ensures ShowsRemaining(Label(IntString(r.days), TwoDigits(r.hours), TwoDigits(r.minutes)), r)
  {
    var days, hh, mm := IntString(r.days), TwoDigits(r.hours), TwoDigits(r.minutes);
    ParseDecimalString(r.days);
    assert days == DecimalString(r.days);
    assert |hh| == 2 && AllDigits(hh) && ParseDecimal(hh) == r.hours;
    assert |mm| == 2 && AllDigits(mm) && ParseDecimal(mm) == r.minutes;
    LabelShows(days, hh, mm, r);
  }

  /** The text of the bar: its three numbers read back as the days, hours
      and minutes of the countdown. */
  function CountdownLabel(target: int, now: int): (s: string)
    ensures ShowsRemaining(s, Countdown(target, now))
  {
    var r := Countdown(target, now);
    RenderedLabel(r);
    Label(IntString(r.days), TwoDigits(r.hours), TwoDigits(r.minutes))
  }
}
