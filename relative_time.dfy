/**
 * The dashboard script's relative-time label. The difference between the current time and the
 * shown instant is an integer number of milliseconds; it may be negative for an instant in the
 * future. Every unit is the floor of the previous one divided by a positive constant, which is
 * what `/` on `int` computes.
 */
module RelativeTime {
  import Text

  const MillisPerMinute := 60000
  const MillisPerHour := 3600000
  const MillisPerDay := 86400000

  /** "1 <unit> ago", or "<count> <unit>s ago" for any other count. */
  function Phrase(count: nat, unit: string): (r: string)
    ensures count == 1 ==> r == "1 " + unit + " ago"
    ensures count != 1 ==> r == Text.NatToString(count) + " " + unit + "s ago"
  {
    if count == 1 then "1 " + unit + " ago" else Text.NatToString(count) + " " + unit + "s ago"
  }

  /** `formatRelativeTime`, with `diff` the milliseconds from the instant to now. */
  function FormatRelativeTime(diff: int): (r: string)
    ensures r == "Just now" || (|r| > 4 && r[|r| - 4..] == " ago")
  {
    var seconds := diff / 1000;
    var minutes := seconds / 60;
    var hours := minutes / 60;
    var days := hours / 24;
    if days > 0 then Phrase(days, "day")
    else if hours > 0 then Phrase(hours, "hour")
    else if minutes > 0 then Phrase(minutes, "minute")
    else "Just now"
  }

  /** The cascade computes whole minutes, hours and days of the difference, rounded down. */
  lemma CascadeIsFloor(diff: int)
    ensures diff / 1000 / 60 == diff / MillisPerMinute
    ensures diff / 1000 / 60 / 60 == diff / MillisPerHour
    ensures diff / 1000 / 60 / 60 / 24 == diff / MillisPerDay
  {
  }

  /** The label read off the difference directly, with no cascade. */
  function Reference(diff: int): string {
    if diff >= MillisPerDay then Phrase(diff / MillisPerDay, "day")
    else if diff >= MillisPerHour then Phrase(diff / MillisPerHour, "hour")
    else if diff >= MillisPerMinute then Phrase(diff / MillisPerMinute, "minute")
    else "Just now"
  }

  lemma FormatIsReference(diff: int)
    ensures FormatRelativeTime(diff) == Reference(diff)
  {
    CascadeIsFloor(diff);
  }

  /** Under a minute, and any negative difference, reads "Just now"; a minute or more never does. */
  lemma JustNowIffUnderAMinute(diff: int)
    ensures FormatRelativeTime(diff) == "Just now" <==> diff < MillisPerMinute
  {
    FormatIsReference(diff);
  }

  /** From a day on, the label counts whole days, whatever the hours and minutes. */
  lemma DaysTakePrecedence(diff: int)
    requires diff >= MillisPerDay
    ensures FormatRelativeTime(diff) == Phrase(diff / MillisPerDay, "day")
    ensures FormatRelativeTime(diff) == "1 day ago" <==> diff < 2 * MillisPerDay
  {
    FormatIsReference(diff);
  }

  /** The letter before " ago" tells a singular label's unit from every plural label. */
  lemma PhraseLetter(count: nat, unit: string)
    requires |unit| > 0
    ensures var r := Phrase(count, unit);
      |r| >= 5 && r[|r| - 5] == (if count == 1 then unit[|unit| - 1] else 's')
  {
  }

  /** The letter a label carries five characters from its end. */
  function LetterOf(diff: int): char {
    if diff >= MillisPerDay then (if diff < 2 * MillisPerDay then 'y' else 's')
    else if diff >= MillisPerHour then (if diff < 2 * MillisPerHour then 'r' else 's')
    else if diff >= MillisPerMinute then (if diff < 2 * MillisPerMinute then 'e' else 's')
    else 't'
  }

  lemma LabelLetter(diff: int)
    ensures var r := FormatRelativeTime(diff); |r| >= 5 && r[|r| - 5] == LetterOf(diff)
  {
    FormatIsReference(diff);
    if diff >= MillisPerDay {
      PhraseLetter(diff / MillisPerDay, "day");
    } else if diff >= MillisPerHour {
      PhraseLetter(diff / MillisPerHour, "hour");
    } else if diff >= MillisPerMinute {
      PhraseLetter(diff / MillisPerMinute, "minute");
    }
  }

  /** Hours are shown only under a day, and minutes only under an hour. */
  lemma SmallerUnits(diff: int)
    ensures MillisPerHour <= diff < MillisPerDay ==> FormatRelativeTime(diff) == Phrase(diff / MillisPerHour, "hour")
    ensures MillisPerMinute <= diff < MillisPerHour ==> FormatRelativeTime(diff) == Phrase(diff / MillisPerMinute, "minute")
    ensures FormatRelativeTime(diff) == "1 hour ago" <==> MillisPerHour <= diff < 2 * MillisPerHour
    ensures FormatRelativeTime(diff) == "1 minute ago" <==> MillisPerMinute <= diff < 2 * MillisPerMinute
  {
    FormatIsReference(diff);
    LabelLetter(diff);
  }

  /** The number in a plural label is the count of whole units, in decimal. */
  lemma PluralCountReadsBack(count: nat, unit: string)
    requires count != 1
    ensures var r := Phrase(count, unit);
      var digits := Text.NatToString(count);
      r[..|digits|] == digits && Text.DecimalValue(digits) == count
  {
    Text.DecimalValueOfNatToString(count);
  }
}
