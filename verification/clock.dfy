/** The wall-clock readings the tools take with `datetime.now()`, and the three
    textual forms they write them in. */
module Clock {
  import opened Strings

  datatype Instant = Instant(year: nat, month: nat, day: nat,
                             hour: nat, minute: nat, second: nat, microsecond: nat)

  /** A reading whose fields fit their fixed-width forms. */
  predicate Valid(t: Instant) {
    1000 <= t.year <= 9999 && 1 <= t.month <= 12 && 1 <= t.day <= 31
    && t.hour < 24 && t.minute < 60 && t.second < 60 && t.microsecond < 1000000
  }

  /** `t.isoformat()`: `YYYY-MM-DDTHH:MM:SS`, then `.ffffff` unless the microseconds are 0. */
  function IsoFormat(t: Instant): string {
    Digits(t.year, 4) + "-" + Digits(t.month, 2) + "-" + Digits(t.day, 2) + "T"
    + Digits(t.hour, 2) + ":" + Digits(t.minute, 2) + ":" + Digits(t.second, 2)
    + (if t.microsecond == 0 then "" else "." + Digits(t.microsecond, 6))
  }

  /** `t.strftime("%Y-%m-%d")`. */
  function DateStamp(t: Instant): string {
    Digits(t.year, 4) + "-" + Digits(t.month, 2) + "-" + Digits(t.day, 2)
  }

  /** `t.strftime("%Y%m%d-%H%M%S")`. */
  function IdStamp(t: Instant): string {
    Digits(t.year, 4) + Digits(t.month, 2) + Digits(t.day, 2) + "-"
    + Digits(t.hour, 2) + Digits(t.minute, 2) + Digits(t.second, 2)
  }

  /** Two readings taken in the same second. */
  predicate SameSecond(t1: Instant, t2: Instant) {
    t1.year == t2.year && t1.month == t2.month && t1.day == t2.day
    && t1.hour == t2.hour && t1.minute == t2.minute && t1.second == t2.second
  }

  /** The id stamp is fifteen characters: eight digits, a dash, six digits. */
  lemma IdStampShape(t: Instant)
    ensures |IdStamp(t)| == 15 && IdStamp(t)[8] == '-'
    ensures forall i :: 0 <= i < 15 && i != 8 ==> IsDigit(IdStamp(t)[i])
  {
  }

  /** Readings in different seconds get different id stamps, and readings in the
      same second the same one. */
  lemma IdStampInjective(t1: Instant, t2: Instant)
    requires Valid(t1) && Valid(t2)
    ensures IdStamp(t1) == IdStamp(t2) <==> SameSecond(t1, t2)
  {
    if IdStamp(t1) == IdStamp(t2) {
      IdStampFields(t1);
      IdStampFields(t2);
      assert Pow10(2) == 100 && Pow10(4) == 10000;
      DigitsInjective(t1.year, t2.year, 4);
      DigitsInjective(t1.month, t2.month, 2);
      DigitsInjective(t1.day, t2.day, 2);
      DigitsInjective(t1.hour, t2.hour, 2);
      DigitsInjective(t1.minute, t2.minute, 2);
      DigitsInjective(t1.second, t2.second, 2);
    }
  }

  /** Where each field sits in the id stamp. */
  lemma IdStampFields(t: Instant)
    ensures |IdStamp(t)| >= 15
    ensures IdStamp(t)[0..4] == Digits(t.year, 4) && IdStamp(t)[4..6] == Digits(t.month, 2)
    ensures IdStamp(t)[6..8] == Digits(t.day, 2) && IdStamp(t)[9..11] == Digits(t.hour, 2)
    ensures IdStamp(t)[11..13] == Digits(t.minute, 2) && IdStamp(t)[13..15] == Digits(t.second, 2)
  {
  }

  /** Numbers that fit the width have distinct zero-padded forms. */
  lemma DigitsInjective(n1: nat, n2: nat, width: nat)
    requires n1 < Pow10(width) && n2 < Pow10(width)
    ensures Digits(n1, width) == Digits(n2, width) <==> n1 == n2
  {
    DigitsRoundTrip(n1, width);
    DigitsRoundTrip(n2, width);
  }

  /** Splitting today's date at `-` gives year, month and day. */
  lemma DateStampSplit(t: Instant)
    ensures Split(DateStamp(t), '-') == [Digits(t.year, 4), Digits(t.month, 2), Digits(t.day, 2)]
  {
    var y, m, d := Digits(t.year, 4), Digits(t.month, 2), Digits(t.day, 2);
    SplitAppend(y + "-" + m, d, '-');
    SplitPair(y, m, '-');
    SplitNoSep(d, '-');
  }
}
