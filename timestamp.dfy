/** The `time.strftime("%Y%m%d-%H%M%S")` stamp that prefixes every stored
    name (main.py:47), over a local time passed in by the caller. */
module Timestamp {
  import opened Ordering
  import opened DecimalText

  /** Broken-down local time, the fields `time.localtime()` provides. */
  datatype DateTime = DateTime(year: nat, month: nat, day: nat, hour: nat, minute: nat, second: nat)

  /** The ranges `time.localtime()` keeps its fields in (a second of 60 or 61
      is a leap second), for years of at most four digits. */
  predicate IsValid(t: DateTime)
  {
    t.year <= 9999 && 1 <= t.month <= 12 && 1 <= t.day <= 31
    && t.hour <= 23 && t.minute <= 59 && t.second <= 61
  }

  /** Chronological order: the fields compared from the year down. */
  predicate Before(s: DateTime, t: DateTime)
  {
    if s.year != t.year then s.year < t.year
    else if s.month != t.month then s.month < t.month
    else if s.day != t.day then s.day < t.day
    else if s.hour != t.hour then s.hour < t.hour
    else if s.minute != t.minute then s.minute < t.minute
    else s.second < t.second
  }

  /** `%Y%m%d-%H%M%S`: each field in decimal, zero-padded to four digits for
      the year and two for the others. */
  function Stamp(t: DateTime): (r: string)
    ensures |r| >= 15 && IsDigit(r[0])
  {
    PadLeft(t.year, 4) + PadLeft(t.month, 2) + PadLeft(t.day, 2) + "-"
      + PadLeft(t.hour, 2) + PadLeft(t.minute, 2) + PadLeft(t.second, 2)
  }

  /** Whatever the clock says, the stamp holds only digits and `-`. */
  lemma StampCharacters(t: DateTime)
    ensures forall i :: 0 <= i < |Stamp(t)| ==> IsDigit(Stamp(t)[i]) || Stamp(t)[i] == '-'
  {
    var date := PadLeft(t.year, 4) + PadLeft(t.month, 2) + PadLeft(t.day, 2);
    var time := PadLeft(t.hour, 2) + PadLeft(t.minute, 2) + PadLeft(t.second, 2);
    assert AllDigits(date) && AllDigits(time);
    assert Stamp(t) == date + "-" + time;
  }

  lemma FieldsFixedWidth(t: DateTime)
    requires IsValid(t)
    ensures PadLeft(t.year, 4) == Digits(t.year, 4)
    ensures PadLeft(t.month, 2) == Digits(t.month, 2) && PadLeft(t.day, 2) == Digits(t.day, 2)
    ensures PadLeft(t.hour, 2) == Digits(t.hour, 2) && PadLeft(t.minute, 2) == Digits(t.minute, 2)
    ensures PadLeft(t.second, 2) == Digits(t.second, 2)
    ensures t.year < Pow10(4) && t.month < Pow10(2) && t.day < Pow10(2)
    ensures t.hour < Pow10(2) && t.minute < Pow10(2) && t.second < Pow10(2)
  {
    assert Pow10(2) == 100 && Pow10(4) == 10000;
    PadLeftFixedWidth(t.year, 4);
    PadLeftFixedWidth(t.month, 2);
    PadLeftFixedWidth(t.day, 2);
    PadLeftFixedWidth(t.hour, 2);
    PadLeftFixedWidth(t.minute, 2);
    PadLeftFixedWidth(t.second, 2);
  }

  /** The stamp is exactly 15 characters: eight digits, a `-`, six digits. */
  lemma StampLength(t: DateTime)
    requires IsValid(t)
    ensures |Stamp(t)| == 15
  {
    FieldsFixedWidth(t);
  }

  lemma StampShape(t: DateTime)
    requires IsValid(t)
    ensures |Stamp(t)| == 15 && Stamp(t)[8] == '-'
    ensures forall i :: 0 <= i < 15 && i != 8 ==> IsDigit(Stamp(t)[i])
  {
    FieldsFixedWidth(t);
    StampCharacters(t);
  }

  /** Two stamps compare as strings exactly as their local wall-clock times
      compare, and equal stamps mean equal wall-clock times, so sorting
      stored names sorts them by the local time printed into them. */
  lemma StampOrder(s: DateTime, t: DateTime)
    requires IsValid(s) && IsValid(t)
    ensures LexLess(Stamp(s), Stamp(t)) <==> Before(s, t)
    ensures Stamp(s) == Stamp(t) <==> s == t
  {
    FieldsFixedWidth(s);
    FieldsFixedWidth(t);
    DigitsOrder(s.year, t.year, 4);
    DigitsOrder(s.month, t.month, 2);
    DigitsOrder(s.day, t.day, 2);
    DigitsOrder(s.hour, t.hour, 2);
    DigitsOrder(s.minute, t.minute, 2);
    DigitsOrder(s.second, t.second, 2);
    var y1, mo1, d1 := Digits(s.year, 4), Digits(s.month, 2), Digits(s.day, 2);
    var h1, mi1, se1 := Digits(s.hour, 2), Digits(s.minute, 2), Digits(s.second, 2);
    var y2, mo2, d2 := Digits(t.year, 4), Digits(t.month, 2), Digits(t.day, 2);
    var h2, mi2, se2 := Digits(t.hour, 2), Digits(t.minute, 2), Digits(t.second, 2);
    LexLessIrreflexive("-");
    LexLessConcat(y1, mo1, y2, mo2);
    LexLessConcat(y1 + mo1, d1, y2 + mo2, d2);
    LexLessConcat(y1 + mo1 + d1, "-", y2 + mo2 + d2, "-");
    LexLessConcat(y1 + mo1 + d1 + "-", h1, y2 + mo2 + d2 + "-", h2);
    LexLessConcat(y1 + mo1 + d1 + "-" + h1, mi1, y2 + mo2 + d2 + "-" + h2, mi2);
    LexLessConcat(y1 + mo1 + d1 + "-" + h1 + mi1, se1, y2 + mo2 + d2 + "-" + h2 + mi2, se2);
  }
}
