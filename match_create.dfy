/**
 * The match planning form (src/pages/dashboard/MatchCreate.jsx): six fields, a guard,
 * and the date string `YYYY-MM-DDTHH:mm` built from them. Select values are strings.
 */
module MatchCreate {
  import opened Wrappers
  import opened Domain
  import Text
  import Matches

  datatype Form = Form(day: string, month: string, year: string, hour: string, minute: string, venue: string)

  /** The form as first shown: the current year, minute "00", everything else empty. */
  function InitialForm(currentYear: nat): Form {
    Form("", "", Text.NatToString(currentYear), "", "00", "")
  }

  /** `s.padStart(2, '0')`. */
  function PadStart2(s: string): (r: string)
    ensures |r| == if |s| >= 2 then |s| else 2
    ensures |s| >= 2 ==> r == s
    ensures |s| < 2 ==> r == (if |s| == 0 then "00" else "0" + s)
  {
    if |s| >= 2 then s else if |s| == 1 then "0" + s else "00"
  }

  /** `${year}-${MM}-${DD}T${hour}:${minute}`. */
  function FullDate(f: Form): string {
    f.year + "-" + PadStart2(f.month) + "-" + PadStart2(f.day) + "T" + f.hour + ":" + f.minute
  }

  predicate Complete(f: Form) {
    f.day != "" && f.month != "" && f.year != "" && f.hour != "" && f.minute != "" && f.venue != ""
  }

  /** `handleSubmit`: no match for an incomplete form; otherwise a match with empty teams at the built date. */
  function Submit(f: Form, group: Option<Group>, groupId: string): (r: Option<Match>)
    ensures r.None? <==> !Complete(f)
    ensures r.Some? ==> r.value.teamA == [] && r.value.teamB == [] && r.value.date == FullDate(f)
                        && r.value.venue == f.venue && r.value.groupId == groupId && r.value.status == Scheduled
  {
    if !Complete(f) then None
    else Some(Matches.CreateMatch(group, groupId, FullDate(f), f.venue, [], [], None, None))
  }

  // ---------------------------------------------------------------------------
  // The options offered

  function DayOptions(): (r: seq<string>)
    ensures |r| == 31
  {
    seq(31, i requires 0 <= i < 31 => Text.NatToString(i + 1))
  }

  function MonthOptions(): (r: seq<string>)
    ensures |r| == 12
  {
    seq(12, i requires 0 <= i < 12 => Text.NatToString(i + 1))
  }

  function YearOptions(): seq<string> {
    ["2024", "2025", "2026"]
  }

  function HourOptions(): (r: seq<string>)
    ensures |r| == 24
  {
    seq(24, i requires 0 <= i < 24 => PadStart2(Text.NatToString(i)))
  }

  function MinuteOptions(): seq<string> {
    ["00", "15", "30", "45"]
  }

  predicate AllDigits(s: string) {
    forall k :: 0 <= k < |s| ==> Text.IsDigit(s[k])
  }

  /** `YYYY-MM-DDTHH:mm`. */
  predicate DateShaped(s: string) {
    && |s| == 16
    && s[4] == '-' && s[7] == '-' && s[10] == 'T' && s[13] == ':'
    && AllDigits(s[..4]) && AllDigits(s[5..7]) && AllDigits(s[8..10])
    && AllDigits(s[11..13]) && AllDigits(s[14..])
  }

  lemma SmallNumberDigits(n: nat)
    requires n < 100
    ensures 1 <= |Text.NatToString(n)| <= 2 && AllDigits(Text.NatToString(n))
  {
  }

  lemma PadDigits(s: string)
    requires 1 <= |s| <= 2 && AllDigits(s)
    ensures |PadStart2(s)| == 2 && AllDigits(PadStart2(s))
  {
  }

  /** Every offered day, once padded, is two digits. */
  lemma DayOptionDigits(day: string)
    requires day in DayOptions()
    ensures |PadStart2(day)| == 2 && AllDigits(PadStart2(day))
  {
    var i :| 0 <= i < 31 && DayOptions()[i] == day;
    SmallNumberDigits(i + 1);
    PadDigits(day);
  }

  /** Every offered month, once padded, is two digits. */
  lemma MonthOptionDigits(month: string)
    requires month in MonthOptions()
    ensures |PadStart2(month)| == 2 && AllDigits(PadStart2(month))
  {
    var j :| 0 <= j < 12 && MonthOptions()[j] == month;
    SmallNumberDigits(j + 1);
    PadDigits(month);
  }

  /** Every offered hour is already two digits. */
  lemma HourOptionDigits(hour: string)
    requires hour in HourOptions()
    ensures |hour| == 2 && AllDigits(hour)
  {
    var h :| 0 <= h < 24 && HourOptions()[h] == hour;
    SmallNumberDigits(h);
    PadDigits(Text.NatToString(h));
  }

  /** Digit fields of the right widths, joined with the date separators, form a date string. */
  lemma AssembledShaped(year: string, mm: string, dd: string, hh: string, mi: string)
    requires |year| == 4 && |mm| == 2 && |dd| == 2 && |hh| == 2 && |mi| == 2
    requires AllDigits(year) && AllDigits(mm) && AllDigits(dd) && AllDigits(hh) && AllDigits(mi)
    ensures DateShaped(year + "-" + mm + "-" + dd + "T" + hh + ":" + mi)
  {
    var date := year + "-" + mm + "-" + dd;
    var time := hh + ":" + mi;
    var s := date + "T" + time;
    assert s == year + "-" + mm + "-" + dd + "T" + hh + ":" + mi;
    assert date[..4] == year && date[5..7] == mm && date[8..] == dd;
    assert s[..10] == date && s[11..] == time;
    assert time[..2] == hh && time[3..] == mi;
  }

  /** Every combination of offered options builds a 16-character `YYYY-MM-DDTHH:mm` string. */
  lemma OfferedDatesShaped(f: Form)
    requires f.day in DayOptions() && f.month in MonthOptions() && f.year in YearOptions()
    requires f.hour in HourOptions() && f.minute in MinuteOptions()
    ensures DateShaped(FullDate(f))
  {
    DayOptionDigits(f.day);
    MonthOptionDigits(f.month);
    HourOptionDigits(f.hour);
    assert |f.year| == 4 && AllDigits(f.year);
    assert |f.minute| == 2 && AllDigits(f.minute);
    AssembledShaped(f.year, PadStart2(f.month), PadStart2(f.day), f.hour, f.minute);
  }

  /**
   * The guard only checks that the fields are filled: hour "00" passes, and 31 February is
   * not rejected.
   */
  lemma ImpossibleDateAccepted(group: Option<Group>, groupId: string)
    ensures var r := Submit(Form("31", "2", "2025", "00", "00", "Saha"), group, groupId);
      r.Some? && r.value.date == "2025-02-31T00:00"
  {
  }
}
