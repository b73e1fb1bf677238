/** `formatDateISO` (src/shared/utils/date.ts) and the way the ledger and the
    history view read such a key back (`weekStart.split("-").map(Number)`). */
module IsoDate {
  import opened Base
  import opened Text

  /** A calendar date as JavaScript's getters report it: `month` is 0-based
      (`getMonth()`), `day` is the day of the month (`getDate()`). */
  datatype CivilDate = CivilDate(year: nat, month: nat, day: nat)

  predicate Valid(c: CivilDate) {
    c.month < 12 && 1 <= c.day <= 31
  }

  /** `${year}-${pad2(month + 1)}-${pad2(day)}`. */
  function FormatISO(c: CivilDate): (s: string)
    requires Valid(c)
    ensures |s| == |NatToString(c.year)| + 6
    ensures s[..|s| - 6] == NatToString(c.year)
    ensures s[|s| - 6] == '-' && s[|s| - 3] == '-'
    ensures AllDigits(s[|s| - 5..|s| - 3]) && AllDigits(s[|s| - 2..])
  {
    TwoDigits(c.month + 1);
    TwoDigits(c.day);
    Pad2Length(NatToString(c.month + 1));
    Pad2Length(NatToString(c.day));
    Pad2Digits(NatToString(c.month + 1));
    Pad2Digits(NatToString(c.day));
    NatToString(c.year) + "-" + Pad2(NatToString(c.month + 1)) + "-" + Pad2(NatToString(c.day))
  }

  lemma Pad2Length(s: string)
    requires 1 <= |s| <= 2
    ensures |Pad2(s)| == 2
  {
    if |s| == 1 {
      assert Pad2(s) == "0" + s;
    }
  }

  /** `const [y, m, day] = s.split("-").map(Number)`: the first three parts as
      numbers, `None` when a part is missing or not a number. */
  function ParseISO(s: string): Option<(nat, nat, nat)> {
    var parts := Split(s, '-');
    if |parts| < 3 then None
    else match (ToNumber(parts[0]), ToNumber(parts[1]), ToNumber(parts[2]))
      case (Some(y), Some(m), Some(d)) => Some((y, m, d))
      case _ => None
  }

  /** Reading a formatted key back yields the year, the 1-based month and the
      day, so `new Date(y, m - 1, day)` rebuilds the same date. */
  lemma {:induction false} ParseFormatRoundTrip(c: CivilDate)
    requires Valid(c)
    ensures ParseISO(FormatISO(c)) == Some((c.year, c.month + 1, c.day))
  {
    var y, m, d := NatToString(c.year), Pad2(NatToString(c.month + 1)), Pad2(NatToString(c.day));
    Pad2Digits(NatToString(c.month + 1));
    Pad2Digits(NatToString(c.day));
    DigitsHaveNoDash(y);
    DigitsHaveNoDash(m);
    DigitsHaveNoDash(d);
    assert FormatISO(c) == y + ['-'] + m + ['-'] + d;
    SplitThree(y, m, d, '-');
    ParseNatToString(c.year);
    ParseNatToString(c.month + 1);
    ParseNatToString(c.day);
  }

  /** Distinct dates have distinct keys, so comparing keys compares dates. */
  lemma FormatISOInjective(a: CivilDate, b: CivilDate)
    requires Valid(a) && Valid(b)
    requires FormatISO(a) == FormatISO(b)
    ensures a == b
  {
    ParseFormatRoundTrip(a);
    ParseFormatRoundTrip(b);
  }
}
