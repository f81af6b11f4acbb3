/** The relative-time messages of panes/utils.py: `last_active` and
    `ondemand_last_used`. The clock and the stat call are replaced by their
    difference, the `timedelta` the source computes; the calendar rendering of
    the modification time is the opaque `strftime`, applied to the format
    string each branch picks. */
module RelativeTime {
  import opened Text
  import opened Wrappers

  /** The seconds part of a Python `timedelta`, always below one day. */
  type DaySeconds = s: nat | s < 86400

  /** `datetime.today() - mtime`: whole days (negative when the modification
      time lies in the future) and the seconds into the last day. */
  datatype TimeDelta = TimeDelta(days: int, seconds: DaySeconds)

  /** How a delta inside the same day is reported, with the number shown. */
  datatype SameDay = Hours(count: nat) | Minutes(count: nat) | Seconds(count: nat)

  /** The same-day tiers shared by both messages. Hours and minutes are both
      taken from the whole number of seconds, so the minutes shown are not the
      remainder after the hours and run up to 119. */
  function SameDayTier(seconds: DaySeconds): (t: SameDay)
    ensures t.Hours? <==> seconds >= 7200
    ensures t.Minutes? <==> 120 <= seconds < 7200
    ensures t.Seconds? <==> seconds < 120
    ensures t.Hours? ==> t.count == seconds / 3600 && 2 <= t.count <= 23
    ensures t.Minutes? ==> t.count == seconds / 60 && 2 <= t.count <= 119
    ensures t.Seconds? ==> t.count == seconds
  {
    var hours := seconds / 3600;
    var minutes := seconds / 60;
    if hours > 1 then Hours(hours)
    else if minutes > 1 then Minutes(minutes)
    else Seconds(seconds)
  }

  /** The words that report a same-day tier, e.g. "3 hours ago". */
  function SameDayText(t: SameDay): string {
    match t
    case Hours(n) => NatToString(n) + " hours ago"
    case Minutes(n) => NatToString(n) + " minutes ago"
    case Seconds(n) => NatToString(n) + " seconds ago"
  }

  /** The count in front of `unit`, when `text` is a decimal count followed by it. */
  function CountBefore(text: string, unit: string): Option<nat> {
    if |text| > |unit| && text[|text| - |unit|..] == unit && AllDigits(text[..|text| - |unit|])
    then Some(ParseNat(text[..|text| - |unit|]))
    else None
  }

  /** Reads a same-day report back into its tier. */
  function ReadSameDay(text: string): Option<SameDay> {
    match CountBefore(text, " hours ago")
    case Some(n) => Some(Hours(n))
    case None =>
      match CountBefore(text, " minutes ago")
      case Some(n) => Some(Minutes(n))
      case None =>
        match CountBefore(text, " seconds ago")
        case Some(n) => Some(Seconds(n))
        case None => None
  }

  lemma CountBeforeOf(n: nat, unit: string)
    ensures CountBefore(NatToString(n) + unit, unit) == Some(n)
  {
    var text := NatToString(n) + unit;
    assert text[|text| - |unit|..] == unit;
    assert text[..|text| - |unit|] == NatToString(n);
    ParseNatToString(n);
  }

  /** The report of a same-day tier is unambiguous: reading it back gives the
      tier and the number it was made from. */
  lemma ReadSameDayText(t: SameDay)
    ensures ReadSameDay(SameDayText(t)) == Some(t)
  {
    var n := t.count;
    var text := SameDayText(t);
    match t
    case Hours(_) =>
      CountBeforeOf(n, " hours ago");
    case Minutes(_) =>
      CountBeforeOf(n, " minutes ago");
      assert text[|text| - 10..] != " hours ago" by { assert text[|text| - 10] == 'i'; }
    case Seconds(_) =>
      CountBeforeOf(n, " seconds ago");
      assert text[|text| - 10..] != " hours ago" by { assert text[|text| - 10] == 'e'; }
      assert text[|text| - 12..] != " minutes ago" by { assert text[|text| - 11] == 's'; }
  }

  /** `last_active`: how long ago a home directory was last touched. */
  function LastActive(dt: TimeDelta, strftime: string -> string): (r: string)
    ensures dt.days == 0 ==> r == "  Active: " + SameDayText(SameDayTier(dt.seconds))
    ensures dt.days == 1 ==> r == "  Active: yesterday"
    ensures dt.days < 0 || 2 <= dt.days <= 365 ==>
      r == "  Active: " + IntToString(dt.days) + " days ago (" + strftime("%b %-d") + ")"
    ensures dt.days > 365 ==>
      r == "  Active: " + IntToString(dt.days) + " days ago (" + strftime("%-m/%-d/%Y") + ")"
  {
    if dt.days == 0 then "  Active: " + SameDayText(SameDayTier(dt.seconds))
    else if dt.days == 1 then "  Active: yesterday"
    else if dt.days <= 365 then
      "  Active: " + IntToString(dt.days) + " days ago (" + strftime("%b %-d") + ")"
    else
      "  Active: " + IntToString(dt.days) + " days ago (" + strftime("%-m/%-d/%Y") + ")"
  }

  /** The tier boundaries: 119 seconds are still reported in seconds, two
      minutes in minutes, one second short of two hours as 119 minutes, and
      two hours in hours. */
  lemma SameDayBoundaries()
    ensures SameDayTier(119) == Seconds(119) && SameDayTier(120) == Minutes(2)
    ensures SameDayTier(7199) == Minutes(119) && SameDayTier(7200) == Hours(2)
  {
  }

  /** One hour and forty minutes ago is reported as 100 minutes: the minutes
      are not the remainder after whole hours. */
  lemma MinutesRunPastAnHour()
    ensures SameDayText(SameDayTier(6000)) == "100 minutes ago"
  {
    assert NatToString(10) == "10";
    assert NatToString(100) == "100";
  }

  /** More than a year ago the numeric month/day/year form of the date is shown. */
  lemma LastActiveYearAgo(strftime: string -> string)
    ensures LastActive(TimeDelta(1, 0), strftime) == "  Active: yesterday"
    ensures LastActive(TimeDelta(400, 0), strftime)
      == "  Active: 400 days ago (" + strftime("%-m/%-d/%Y") + ")"
  {
    assert NatToString(40) == "40";
    assert IntToString(400) == "400";
    var date := strftime("%-m/%-d/%Y");
    assert "  Active: " + "400" + " days ago (" == "  Active: 400 days ago (";
  }

  /** "yesterday" is reported for a delta of exactly one day and for no other:
      every other message continues with a digit or a minus sign. */
  lemma YesterdayExactlyOneDay(dt: TimeDelta, strftime: string -> string)
    ensures LastActive(dt, strftime) == "  Active: yesterday" <==> dt.days == 1
  {
    var r := LastActive(dt, strftime);
    if dt.days == 0 {
      var t := SameDayTier(dt.seconds);
      assert r[10] == NatToString(t.count)[0];
    } else if dt.days != 1 {
      assert r[10] == IntToString(dt.days)[0];
      assert IsDigit(r[10]) || r[10] == '-';
    }
  }

  /** `ondemand_last_used`: the line reporting when an On-Demand application
      was last used, as the source prints it. */
  function OnDemandLastUsed(app: string, dt: TimeDelta, gutter: string, strftime: string -> string): (r: string)
    ensures var head := gutter + "OnDemand " + app + ": ";
      && (dt.days == 0 ==> r == head + SameDayText(SameDayTier(dt.seconds)))
      && (dt.days == 1 ==> r == head + "(yesterday)")
      && (dt.days < 0 || 2 <= dt.days <= 31 ==> r == head + IntToString(dt.days) + " days ago")
      && (31 < dt.days <= 365 ==> r == head + strftime("%b %-d"))
      && (dt.days > 365 ==> r == head + strftime("%b %-d %Y"))
  {
    var head := gutter + "OnDemand " + app + ": ";
    if dt.days == 0 then head + SameDayText(SameDayTier(dt.seconds))
    else if dt.days == 1 then head + "(yesterday)"
    else if dt.days <= 31 then head + IntToString(dt.days) + " days ago"
    else if dt.days <= 365 then head + strftime("%b %-d")
    else head + strftime("%b %-d %Y")
  }

  /** Within the same day both messages report the same tier with the same
      number; only their heads differ. */
  lemma SameDayAgreement(app: string, dt: TimeDelta, gutter: string, strftime: string -> string)
    requires dt.days == 0
    ensures var head := gutter + "OnDemand " + app + ": ";
      var a := LastActive(dt, strftime);
      var o := OnDemandLastUsed(app, dt, gutter, strftime);
      |a| >= 10 && |o| >= |head| && o[..|head|] == head
      && a[10..] == o[|head|..]
      && ReadSameDay(a[10..]) == Some(SameDayTier(dt.seconds))
  {
    var head := gutter + "OnDemand " + app + ": ";
    var text := SameDayText(SameDayTier(dt.seconds));
    assert LastActive(dt, strftime)[10..] == text;
    assert OnDemandLastUsed(app, dt, gutter, strftime)[|head|..] == text;
    ReadSameDayText(SameDayTier(dt.seconds));
  }
}
