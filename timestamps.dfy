/** `datetime.now().strftime('%Y%m%d_%H%M%S')` and the capture names built from it. */
module Timestamps {
  import opened Strings
  import opened Decimal

  /** A wall-clock reading at one-second resolution, as `datetime.now()` gives it. */
  datatype DateTime = DateTime(year: int, month: int, day: int, hour: int, minute: int, second: int)
  {
    /** The field ranges of a `datetime`, with a four-digit year. */
    predicate Valid()
    {
      && 1000 <= year <= 9999 && 1 <= month <= 12 && 1 <= day <= 31
      && 0 <= hour < 24 && 0 <= minute < 60 && 0 <= second < 60
    }
  }

  /** Chronological order: the fields compared from year down to second. */
  predicate Before(a: DateTime, b: DateTime)
  {
    || a.year < b.year
    || (a.year == b.year && a.month < b.month)
    || (a.year == b.year && a.month == b.month && a.day < b.day)
    || (a.year == b.year && a.month == b.month && a.day == b.day && a.hour < b.hour)
    || (a.year == b.year && a.month == b.month && a.day == b.day && a.hour == b.hour
        && a.minute < b.minute)
    || (a.year == b.year && a.month == b.month && a.day == b.day && a.hour == b.hour
        && a.minute == b.minute && a.second < b.second)
  }

  /** Two zero-padded digits (`%m`, `%d`, `%H`, `%M`, `%S`). */
  function Pad2(n: int): (s: string)
    requires 0 <= n < 100
  {
    [DigitChar(n / 10), DigitChar(n % 10)]
  }

  /** Four zero-padded digits (`%Y`). */
  function Pad4(n: int): (s: string)
    requires 0 <= n < 10000
  {
    Pad2(n / 100) + Pad2(n % 100)
  }

  /** `YYYYMMDD_HHMMSS` */
  function Stamp(t: DateTime): (s: string)
    requires t.Valid()
    ensures |s| == 15 && s[8] == '_'
    ensures forall i :: 0 <= i < 15 && i != 8 ==> IsDigit(s[i])
  {
    Pad4(t.year) + (Pad2(t.month) + (Pad2(t.day) + ("_" + (Pad2(t.hour) + (Pad2(t.minute) + Pad2(t.second))))))
  }

  /** The file name `capture_image` of the USB camera service writes. */
  function CaptureName(t: DateTime): (s: string)
    requires t.Valid()
    ensures |s| == 27 && StartsWith(s, "capture_") && EndsWith(s, ".jpg")
    ensures '/' !in s
  {
    var s := "capture_" + (Stamp(t) + ".jpg");
    assert s[..8] == "capture_" && s[8..23] == Stamp(t) && s[23..] == ".jpg";
    assert forall i :: 8 <= i < 23 ==> s[i] == Stamp(t)[i - 8];
    s
  }

  /** The file name `capture_image` of the CSI camera service writes. */
  function CsiCaptureName(t: DateTime): (s: string)
    requires t.Valid()
    ensures |s| == 31 && StartsWith(s, "csi_capture_") && EndsWith(s, ".jpg")
    ensures '/' !in s
  {
    var s := "csi_capture_" + (Stamp(t) + ".jpg");
    assert s[..12] == "csi_capture_" && s[12..27] == Stamp(t) && s[27..] == ".jpg";
    assert forall i :: 12 <= i < 27 ==> s[i] == Stamp(t)[i - 12];
    s
  }

  lemma Pad2Order(a: int, b: int)
    requires 0 <= a < 100 && 0 <= b < 100
    ensures Below(Pad2(a), Pad2(b)) <==> a < b
  {
    BelowConcat([DigitChar(a / 10)], [DigitChar(a % 10)], [DigitChar(b / 10)], [DigitChar(b % 10)]);
    assert Pad2(a) == [DigitChar(a / 10)] + [DigitChar(a % 10)];
    assert Pad2(b) == [DigitChar(b / 10)] + [DigitChar(b % 10)];
  }

  lemma Pad4Order(a: int, b: int)
    requires 0 <= a < 10000 && 0 <= b < 10000
    ensures Below(Pad4(a), Pad4(b)) <==> a < b
  {
    BelowConcat(Pad2(a / 100), Pad2(a % 100), Pad2(b / 100), Pad2(b % 100));
    Pad2Order(a / 100, b / 100);
    Pad2Order(a % 100, b % 100);
    if Pad2(a / 100) == Pad2(b / 100) {
      Pad2Injective(a / 100, b / 100);
    }
  }

  lemma Pad2Injective(a: int, b: int)
    requires 0 <= a < 100 && 0 <= b < 100
    ensures Pad2(a) == Pad2(b) ==> a == b
  {
    if Pad2(a) == Pad2(b) {
      assert DigitChar(a / 10) == Pad2(a)[0] == Pad2(b)[0] == DigitChar(b / 10);
      assert DigitChar(a % 10) == Pad2(a)[1] == Pad2(b)[1] == DigitChar(b % 10);
    }
  }

  /** Comparing two strings made of a `Pad2` field and the rest. */
  lemma Pad2Field(a: int, b: int, x: string, y: string)
    requires 0 <= a < 100 && 0 <= b < 100
    ensures Below(Pad2(a) + x, Pad2(b) + y) <==> a < b || (a == b && Below(x, y))
  {
    BelowConcat(Pad2(a), x, Pad2(b), y);
    Pad2Order(a, b);
    Pad2Injective(a, b);
  }

  /** Timestamps sort as the clock readings they render: the property that makes
      `sorted(..., reverse=True)` list the newest capture first. */
  lemma StampOrder(a: DateTime, b: DateTime)
    requires a.Valid() && b.Valid()
    ensures Below(Stamp(a), Stamp(b)) <==> Before(a, b)
  {
    var ta := Pad2(a.hour) + (Pad2(a.minute) + Pad2(a.second));
    var tb := Pad2(b.hour) + (Pad2(b.minute) + Pad2(b.second));
    Pad2Field(a.minute, b.minute, Pad2(a.second), Pad2(b.second));
    Pad2Order(a.second, b.second);
    Pad2Field(a.hour, b.hour, Pad2(a.minute) + Pad2(a.second), Pad2(b.minute) + Pad2(b.second));
    BelowConcat("_", ta, "_", tb);
    Pad2Field(a.day, b.day, "_" + ta, "_" + tb);
    Pad2Field(a.month, b.month, Pad2(a.day) + ("_" + ta), Pad2(b.day) + ("_" + tb));
    var ra := Pad2(a.month) + (Pad2(a.day) + ("_" + ta));
    var rb := Pad2(b.month) + (Pad2(b.day) + ("_" + tb));
    BelowConcat(Pad4(a.year), ra, Pad4(b.year), rb);
    Pad4Order(a.year, b.year);
    if Pad4(a.year) == Pad4(b.year) {
      Pad2Injective(a.year / 100, b.year / 100);
      assert Pad2(a.year / 100) == Pad4(a.year)[..2] == Pad4(b.year)[..2] == Pad2(b.year / 100);
      assert Pad2(a.year % 100) == Pad4(a.year)[2..] == Pad4(b.year)[2..] == Pad2(b.year % 100);
      Pad2Injective(a.year % 100, b.year % 100);
    }
  }

  /** Different seconds give different timestamps. */
  lemma StampInjective(a: DateTime, b: DateTime)
    requires a.Valid() && b.Valid()
    ensures Stamp(a) == Stamp(b) ==> a == b
  {
    StampOrder(a, b);
    StampOrder(b, a);
    BelowIrreflexive(Stamp(a));
  }

  /** Capture names sort chronologically. */
  lemma CaptureNameOrder(a: DateTime, b: DateTime)
    requires a.Valid() && b.Valid()
    ensures Below(CaptureName(a), CaptureName(b)) <==> Before(a, b)
  {
    StampOrder(a, b);
    BelowConcat("capture_", Stamp(a) + ".jpg", "capture_", Stamp(b) + ".jpg");
    BelowConcat(Stamp(a), ".jpg", Stamp(b), ".jpg");
    BelowIrreflexive(".jpg");
  }
}
