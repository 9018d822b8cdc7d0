/** Date and cooking-time formatting (src/utils/FormatDateAndTimeForBackend.tsx;
    src/utils/FormatDateForBackend.tsx holds a second, identical copy of the
    date formatter, modelled by the same function). */
module Formatters {
  import opened Domain
  import opened Text

  // ---------------------------------------------------------------------------
  // formatDateForBackend: "YYYY-MM-DD" -> "DD-MM-YYYY"
  // ---------------------------------------------------------------------------

  /** What a template literal prints for a missing destructured element. */
  const Undefined: string := "undefined"

  /** Piece `k` of the split date as the date text prints it: "undefined" when there is no such piece. */
  function Part(parts: seq<string>, k: nat): string
  {
    if k < |parts| then parts[k] else Undefined
  }

  /** `formatDateForBackend(dateString)`: undefined for the empty string;
      otherwise the first three dash-separated pieces in reverse order,
      always a string of exactly three pieces. */
  function FormatDateForBackend(dateString: string): (r: Option<string>)
    ensures r.None? <==> dateString == ""
    ensures r.Some? ==> r.value != "" && |Split(r.value, '-')| == 3
  {
    if dateString == "" then None
    else
      var parts := Split(dateString, '-');
      var year, month, day := Part(parts, 0), Part(parts, 1), Part(parts, 2);
      var pieces := [day, month, year];
      assert forall k :: 0 <= k < 3 ==> '-' !in pieces[k];
      SplitJoin(pieces, '-');
      JoinThree(day, month, year, '-');
      Some(day + "-" + month + "-" + year)
  }

  /** A dash-free year, month and day are swapped into day-month-year. */
  lemma FormatDateSwaps(year: string, month: string, day: string)
    requires '-' !in year && '-' !in month && '-' !in day
    ensures FormatDateForBackend(year + "-" + month + "-" + day) == Some(day + "-" + month + "-" + year)
  {
    var pieces := [year, month, day];
    SplitJoin(pieces, '-');
    JoinThree(year, month, day, '-');
  }

  /** On a string of exactly three dash-separated pieces the formatter is an involution. */
  lemma FormatDateInvolution(dateString: string)
    requires |Split(dateString, '-')| == 3
    ensures FormatDateForBackend(dateString).Some?
    ensures FormatDateForBackend(FormatDateForBackend(dateString).value) == Some(dateString)
  {
    var parts := Split(dateString, '-');
    JoinSplit(dateString, '-');
    JoinThree(parts[0], parts[1], parts[2], '-');
    assert parts == [parts[0], parts[1], parts[2]];
    FormatDateSwaps(parts[0], parts[1], parts[2]);
    FormatDateSwaps(parts[2], parts[1], parts[0]);
  }

  /** A dash-free non-empty input has no month or day, and both print as "undefined". */
  lemma FormatDateWithoutDashes(dateString: string)
    requires dateString != "" && '-' !in dateString
    ensures FormatDateForBackend(dateString) == Some(Undefined + "-" + Undefined + "-" + dateString)
  {
    SplitJoin([dateString], '-');
  }

  // ---------------------------------------------------------------------------
  // formatCookingTime: minutes -> "h ч m мин"
  // ---------------------------------------------------------------------------

  const NotSpecified: string := "Время не указано"
  const HoursUnit: string := "ч"
  const MinutesUnit: string := "мин"

  /** Whole hours and the remaining minutes of a positive number of minutes. */
  function SplitMinutes(totalMinutes: nat): (hm: (nat, nat))
    ensures hm.0 * 60 + hm.1 == totalMinutes
    ensures hm.1 < 60
  {
    (totalMinutes / 60, totalMinutes % 60)
  }

  /** `formatCookingTime(totalMinutes)`. Absent, zero or negative minutes read
      "Время не указано"; otherwise hours and minutes, each shown only when
      positive, so the text never starts with a zero. */
  function FormatCookingTime(totalMinutes: Option<int>): (r: string)
    ensures totalMinutes.None? || totalMinutes.value <= 0 ==> r == NotSpecified
    ensures totalMinutes.Some? && totalMinutes.value > 0 ==> r != NotSpecified && |r| > 0 && '1' <= r[0] <= '9'
    ensures totalMinutes.Some? && totalMinutes.value > 0 && totalMinutes.value % 60 == 0 ==>
              r == NatToDecimal(totalMinutes.value / 60) + " " + HoursUnit
    ensures totalMinutes.Some? && 0 < totalMinutes.value < 60 ==>
              r == NatToDecimal(totalMinutes.value) + " " + MinutesUnit
    ensures totalMinutes.Some? && totalMinutes.value > 60 && totalMinutes.value % 60 != 0 ==>
              r == NatToDecimal(totalMinutes.value / 60) + " " + HoursUnit + " "
                   + NatToDecimal(totalMinutes.value % 60) + " " + MinutesUnit
  {
    if totalMinutes.None? || totalMinutes.value <= 0 then NotSpecified
    else
      var (h, m) := SplitMinutes(totalMinutes.value);
      if h > 0 && m > 0 then NatToDecimal(h) + " " + HoursUnit + " " + NatToDecimal(m) + " " + MinutesUnit
      else if h > 0 then NatToDecimal(h) + " " + HoursUnit
      else NatToDecimal(m) + " " + MinutesUnit
  }

  predicate AllDigits(s: string)
  {
    forall i :: 0 <= i < |s| ==> IsDigit(s[i])
  }

  /** Reads a cooking-time text back into minutes: the reverse of `FormatCookingTime`. */
  function ParseCookingTime(s: string): Option<nat>
  {
    ParseWords(Split(s, ' '))
  }

  /** Reads the space-separated words of a cooking-time text. */
  function ParseWords(w: seq<string>): Option<nat>
  {
    if |w| == 4 && AllDigits(w[0]) && w[1] == HoursUnit && AllDigits(w[2]) && w[3] == MinutesUnit then
      Some(DecimalToNat(w[0]) * 60 + DecimalToNat(w[2]))
    else if |w| == 2 && AllDigits(w[0]) && w[1] == HoursUnit then
      Some(DecimalToNat(w[0]) * 60)
    else if |w| == 2 && AllDigits(w[0]) && w[1] == MinutesUnit then
      Some(DecimalToNat(w[0]))
    else None
  }

  /** The cooking-time text determines the minutes: reading it back gives the
      input for positive minutes, and nothing for "Время не указано". */
  lemma CookingTimeRoundTrip(totalMinutes: Option<int>)
    ensures ParseCookingTime(FormatCookingTime(totalMinutes)) ==
              if totalMinutes.Some? && totalMinutes.value > 0 then Some(totalMinutes.value as nat) else None
  {
    if totalMinutes.None? || totalMinutes.value <= 0 {
      ParseNotSpecified();
    } else {
      var (h, m) := SplitMinutes(totalMinutes.value);
      if h > 0 && m > 0 {
        ParseTwoNumbers(h, m, FormatCookingTime(totalMinutes));
      } else if h > 0 {
        ParseOneNumber(h, HoursUnit);
      } else {
        ParseOneNumber(m, MinutesUnit);
      }
    }
  }

  lemma ParseNotSpecified()
    ensures ParseCookingTime(NotSpecified) == None
  {
    var w := ["Время", "не", "указано"];
    SplitJoin(w, ' ');
    JoinThree(w[0], w[1], w[2], ' ');
  }

  lemma ParseTwoNumbers(h: nat, m: nat, text: string)
    requires text == NatToDecimal(h) + " " + HoursUnit + " " + NatToDecimal(m) + " " + MinutesUnit
    ensures ParseCookingTime(text) == Some(h * 60 + m)
  {
    var hs, ms := NatToDecimal(h), NatToDecimal(m);
    SplitFourWords(hs, ms);
    ParseFourWords(text, hs, ms);
    DecimalRoundTrip(h);
    DecimalRoundTrip(m);
  }

  lemma ParseFourWords(text: string, hs: string, ms: string)
    requires AllDigits(hs) && AllDigits(ms)
    requires Split(text, ' ') == [hs, HoursUnit, ms, MinutesUnit]
    ensures ParseCookingTime(text) == Some(DecimalToNat(hs) * 60 + DecimalToNat(ms))
  {
    ParseWordsFour(hs, ms);
  }

  lemma ParseWordsFour(hs: string, ms: string)
    requires AllDigits(hs) && AllDigits(ms)
    ensures ParseWords([hs, HoursUnit, ms, MinutesUnit]) == Some(DecimalToNat(hs) * 60 + DecimalToNat(ms))
  {
  }

  lemma SplitFourWords(hs: string, ms: string)
    requires AllDigits(hs) && AllDigits(ms)
    ensures Split(hs + " " + HoursUnit + " " + ms + " " + MinutesUnit, ' ') == [hs, HoursUnit, ms, MinutesUnit]
  {
    var w := [hs, HoursUnit, ms, MinutesUnit];
    assert ' ' !in hs && ' ' !in ms;
    assert forall k :: 0 <= k < 4 ==> ' ' !in w[k];
    SplitJoin(w, ' ');
    JoinFour(hs, HoursUnit, ms, MinutesUnit, ' ');
  }

  lemma ParseOneNumber(n: nat, unit: string)
    requires unit == HoursUnit || unit == MinutesUnit
    ensures ParseCookingTime(NatToDecimal(n) + " " + unit) == Some(if unit == HoursUnit then n * 60 else n)
  {
    var ns := NatToDecimal(n);
    DecimalRoundTrip(n);
    var w := [ns, unit];
    assert Split(ns + " " + unit, ' ') == w by {
      assert forall k :: 0 <= k < 2 ==> ' ' !in w[k];
      SplitJoin(w, ' ');
      JoinTwo(ns, unit, ' ');
    }
  }
}
