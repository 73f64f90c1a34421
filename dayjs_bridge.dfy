/**
 * The bridge between the converter's Luxon moments and the date picker's
 * Dayjs values.
 *
 * Towards the picker, `luxonToDayjs` writes the moment's civil fields as the
 * text `${year}-MM-DD HH:mm:ss` and has dayjs read it back with the layout
 * "YYYY-MM-DD HH:mm:ss".  Dayjs's reader is library code, so `ParseWallTime`
 * below is this model's own reader for exactly that layout.  Back from the
 * picker, the `onChange` handler copies the Dayjs fields into
 * `DateTime.fromObject`, turning Dayjs's 0-based month into a 1-based one.
 */
module DayjsBridge {
  import opened Options
  import opened CivilTime
  import opened Zoned

  predicate IsDigit(ch: char) {
    '0' <= ch <= '9'
  }

  predicate AllDigits(s: string) {
    forall i :: 0 <= i < |s| ==> IsDigit(s[i])
  }

  function DigitChar(d: int): (ch: char)
    requires 0 <= d < 10
    ensures IsDigit(ch) && DigitValue(ch) == d
  {
    (d + '0' as int) as char
  }

  function DigitValue(ch: char): int {
    ch as int - '0' as int
  }

  /** `String(n)` for a non-negative integer: its decimal digits, most significant first. */
  function NatToDecimal(n: nat): (s: string)
    ensures |s| >= 1 && AllDigits(s)
    ensures n < 10 <==> |s| == 1
  {
    if n < 10 then [DigitChar(n)] else NatToDecimal(n / 10) + [DigitChar(n % 10)]
  }

  function Pow10(k: nat): (p: nat)
    ensures p >= 1
  {
    if k == 0 then 1 else 10 * Pow10(k - 1)
  }

  /** `String(n)` has at most `k` digits exactly when `n` is below `10^k`. */
  lemma {:induction false} DecimalLength(n: nat, k: nat)
    requires k >= 1
    ensures |NatToDecimal(n)| <= k <==> n < Pow10(k)
  {
    if n >= 10 && k >= 2 {
      DecimalLength(n / 10, k - 1);
    }
  }

  /** `String(i)`, also `${i}`, for an integer: a minus sign for negative values, then the digits. */
  function IntToDecimal(i: int): (s: string)
    ensures |s| >= 1 && (s[0] == '-' <==> i < 0)
    ensures i >= 0 ==> AllDigits(s)
    ensures i < 0 ==> AllDigits(s[1..])
    ensures |s| == 4 && AllDigits(s) <==> 1000 <= i <= 9999
  {
    if i < 0 then "-" + NatToDecimal(-i)
    else
      DecimalLength(i, 4);
      DecimalLength(i, 3);
      NatToDecimal(i)
  }

  /** `s.padStart(2, "0")`. */
  function PadStart2(s: string): string {
    if |s| >= 2 then s else if |s| == 1 then "0" + s else "00"
  }

  /** `String(n).padStart(2, "0")`: at least two characters, and no padding once `n` has two digits. */
  function Pad2(n: int): (r: string)
    ensures |r| >= 2
    ensures 0 <= n < 100 ==> |r| == 2
    ensures n >= 10 ==> r == IntToDecimal(n)
  {
    PadStart2(IntToDecimal(n))
  }

  /** The text `luxonToDayjs` builds from a moment's civil fields; it begins with the unpadded year. */
  function WallTimeText(c: Civil): (r: string)
    ensures |r| > |IntToDecimal(c.year)| && r[..|IntToDecimal(c.year)|] == IntToDecimal(c.year)
  {
    IntToDecimal(c.year) + FieldsText(c)
  }

  /** The part of the text after the year: `-MM-DD HH:mm:ss`, fifteen characters for a valid reading. */
  function FieldsText(c: Civil): (r: string)
    ensures |r| >= 15 && r[0] == '-'
    ensures ValidCivil(c) ==> |r| == 15
  {
    "-" + Pad2(c.month) + "-" + Pad2(c.day) + " " + Pad2(c.hour) + ":" + Pad2(c.minute) + ":" + Pad2(c.second)
  }

  /** The years the layout's `YYYY` can read: exactly four digits. */
  predicate FourDigitYear(c: Civil) {
    1000 <= c.year <= 9999
  }

  /** The layout `luxonToDayjs` passes to dayjs along with the text. */
  const WallTimeLayout: string := "YYYY-MM-DD HH:mm:ss"

  /** What a Dayjs value's accessors `year()`, `month()`, `date()`, ... return (`month0` is 0-based). */
  datatype DayjsFields = DayjsFields(year: int, month0: int, date: int, hour: int, minute: int, second: int)

  /** The result of reading a text with dayjs: a value, or Dayjs's "Invalid Date". */
  datatype Dayjs = Parsed(fields: DayjsFields) | InvalidDate

  /** The Dayjs fields of a civil reading. */
  function DayjsOf(c: Civil): DayjsFields {
    DayjsFields(c.year, c.month - 1, c.day, c.hour, c.minute, c.second)
  }

  /** The civil reading the picker's `onChange` builds from a Dayjs value (`month() + 1`); it undoes `DayjsOf`. */
  function CivilOfDayjs(v: DayjsFields): (c: Civil)
    ensures DayjsOf(c) == v
  {
    Civil(v.year, v.month0 + 1, v.date, v.hour, v.minute, v.second)
  }

  /** A Dayjs value that names an existing calendar day and time of day. */
  predicate ValidDayjs(v: DayjsFields) {
    ValidCivil(CivilOfDayjs(v))
  }

  // ---------------------------------------------------------------------------
  // Reading the layout back.

  /** The value of a string of decimal digits. */
  function DigitsValue(s: string): int {
    if |s| == 0 then 0 else DigitsValue(s[..|s| - 1]) * 10 + DigitValue(s[|s| - 1])
  }

  /** An optionally signed run of decimal digits, the inverse of `IntToDecimal`. */
  function ParseIntText(s: string): Option<int> {
    if |s| >= 2 && s[0] == '-' && AllDigits(s[1..]) then Some(-DigitsValue(s[1..]))
    else if |s| >= 1 && AllDigits(s) then Some(DigitsValue(s))
    else None
  }

  predicate TwoDigitsAt(t: string, i: int)
    requires 0 <= i < |t| - 1
  {
    IsDigit(t[i]) && IsDigit(t[i + 1])
  }

  function TwoDigitsValue(t: string, i: int): int
    requires 0 <= i < |t| - 1
  {
    DigitValue(t[i]) * 10 + DigitValue(t[i + 1])
  }

  /** Reads the fixed-width part `-MM-DD HH:mm:ss` that follows the year, given the year. */
  function ParseFixedPart(year: int, t: string): Dayjs {
    if |t| == 15 && t[0] == '-' && t[3] == '-' && t[6] == ' ' && t[9] == ':' && t[12] == ':'
       && TwoDigitsAt(t, 1) && TwoDigitsAt(t, 4) && TwoDigitsAt(t, 7)
       && TwoDigitsAt(t, 10) && TwoDigitsAt(t, 13)
    then
      Parsed(DayjsFields(year, TwoDigitsValue(t, 1) - 1, TwoDigitsValue(t, 4), TwoDigitsValue(t, 7),
                         TwoDigitsValue(t, 10), TwoDigitsValue(t, 13)))
    else InvalidDate
  }

  /**
   * Reads a text with the layout "YYYY-MM-DD HH:mm:ss": nineteen characters,
   * the year in exactly four digits, then the fixed-width fields.
   */
  function ParseWallTime(s: string): Dayjs {
    if |s| == |WallTimeLayout| && AllDigits(s[..4]) then ParseFixedPart(DigitsValue(s[..4]), s[4..])
    else InvalidDate
  }

  /**
   * `luxonToDayjs(dt)`: no picker value for a null moment, else dayjs's
   * reading of the wall-time text, which is "Invalid Date" for a year the
   * unpadded `${dt.year}` does not write in four digits.
   */
  function LuxonToDayjs(dt: Option<ZonedMoment>): (r: Option<Dayjs>)
    ensures r.None? <==> dt.None?
    ensures dt.Some? && ValidCivil(dt.value.civil) && FourDigitYear(dt.value.civil)
            ==> r == Some(Parsed(DayjsOf(dt.value.civil)))
    ensures dt.Some? && ValidCivil(dt.value.civil) && !FourDigitYear(dt.value.civil)
            ==> r == Some(InvalidDate)
  {
    match dt
    case None => None
    case Some(m) =>
      var text := WallTimeText(m.civil);
      assert ValidCivil(m.civil) ==>
        ParseWallTime(text) == (if FourDigitYear(m.civil) then Parsed(DayjsOf(m.civil)) else InvalidDate) by {
        if ValidCivil(m.civil) && FourDigitYear(m.civil) {
          WallTimeRoundTrip(m.civil);
        } else if ValidCivil(m.civil) {
          OtherYearUnreadable(m.civil);
        }
      }
      Some(ParseWallTime(text))
  }

  // ---------------------------------------------------------------------------
  // Properties of the text.

  /** Reading the digits `String(n)` writes gives `n` back. */
  lemma {:induction false} DecimalRoundTrip(n: nat)
    ensures DigitsValue(NatToDecimal(n)) == n
  {
    if n >= 10 {
      var s := NatToDecimal(n);
      assert s[..|s| - 1] == NatToDecimal(n / 10);
      DecimalRoundTrip(n / 10);
    }
  }

  /** Reading the text `${i}` writes gives `i` back, negative years included. */
  lemma IntTextRoundTrip(i: int)
    ensures ParseIntText(IntToDecimal(i)) == Some(i)
  {
    var s := IntToDecimal(i);
    if i < 0 {
      var digits := NatToDecimal(-i);
      assert s == "-" + digits && s[1..] == digits;
      DecimalRoundTrip(-i);
    } else {
      assert IsDigit(s[0]);
      DecimalRoundTrip(i);
    }
  }

  /** A field below 100 pads to exactly two digits that read back as the field. */
  lemma Pad2Digits(n: int)
    requires 0 <= n < 100
    ensures |Pad2(n)| == 2 && TwoDigitsAt(Pad2(n), 0) && TwoDigitsValue(Pad2(n), 0) == n
  {
    if n >= 10 {
      assert NatToDecimal(n) == [DigitChar(n / 10), DigitChar(n % 10)];
    }
  }

  /** The text of a valid reading is `${year}` followed by fifteen fixed-width characters. */
  lemma {:induction false} WallTimeTextShape(c: Civil)
    requires ValidCivil(c)
    ensures |WallTimeText(c)| == |IntToDecimal(c.year)| + 15
  {
    Pad2Digits(c.month);
    Pad2Digits(c.day);
    Pad2Digits(c.hour);
    Pad2Digits(c.minute);
    Pad2Digits(c.second);
  }

  lemma {:induction false} ParseFixedPartOf(year: int, mo: string, d: string, h: string, mi: string, se: string)
    requires |mo| == |d| == |h| == |mi| == |se| == 2
    requires TwoDigitsAt(mo, 0) && TwoDigitsAt(d, 0) && TwoDigitsAt(h, 0) && TwoDigitsAt(mi, 0) && TwoDigitsAt(se, 0)
    ensures ParseFixedPart(year, "-" + mo + "-" + d + " " + h + ":" + mi + ":" + se)
         == Parsed(DayjsFields(year, TwoDigitsValue(mo, 0) - 1, TwoDigitsValue(d, 0),
                               TwoDigitsValue(h, 0), TwoDigitsValue(mi, 0), TwoDigitsValue(se, 0)))
  {
    var t := "-" + mo + "-" + d + " " + h + ":" + mi + ":" + se;
    assert |t| == 15;
    assert t[0] == '-' && t[3] == '-' && t[6] == ' ' && t[9] == ':' && t[12] == ':';
    assert t[1] == mo[0] && t[2] == mo[1] && t[4] == d[0] && t[5] == d[1];
    assert t[7] == h[0] && t[8] == h[1] && t[10] == mi[0] && t[11] == mi[1];
    assert t[13] == se[0] && t[14] == se[1];
  }

  /** ParseWallTime reads four digits as the year and the fifteen characters after them as the fields. */
  lemma {:induction false} ParseWallTimeSplit(y: string, t: string)
    requires |y| == 4 && AllDigits(y) && |t| == 15
    ensures ParseWallTime(y + t) == ParseFixedPart(DigitsValue(y), t)
  {
    var s := y + t;
    assert s[..4] == y && s[4..] == t;
  }

  /** Reading back the text of a valid reading with a four-digit year gives its Dayjs fields. */
  lemma {:induction false} WallTimeRoundTrip(c: Civil)
    requires ValidCivil(c) && FourDigitYear(c)
    ensures ParseWallTime(WallTimeText(c)) == Parsed(DayjsOf(c))
  {
    Pad2Digits(c.month);
    Pad2Digits(c.day);
    Pad2Digits(c.hour);
    Pad2Digits(c.minute);
    Pad2Digits(c.second);
    DecimalRoundTrip(c.year);
    ParseFixedPartOf(c.year, Pad2(c.month), Pad2(c.day), Pad2(c.hour), Pad2(c.minute), Pad2(c.second));
    ParseWallTimeSplit(IntToDecimal(c.year), FieldsText(c));
  }

  /** Any other year makes the text unreadable with the layout: dayjs gives "Invalid Date". */
  lemma {:induction false} OtherYearUnreadable(c: Civil)
    requires ValidCivil(c) && !FourDigitYear(c)
    ensures ParseWallTime(WallTimeText(c)) == InvalidDate
  {
    var s := WallTimeText(c);
    WallTimeTextShape(c);
    if |s| == |WallTimeLayout| {
      assert s[..4] == IntToDecimal(c.year);
    }
  }

  /** Four-digit years give the 19 characters of "YYYY-MM-DD HH:mm:ss". */
  lemma FourDigitYearFixedWidth(c: Civil)
    requires ValidCivil(c) && FourDigitYear(c)
    ensures |WallTimeText(c)| == |WallTimeLayout|
  {
    WallTimeTextShape(c);
  }

  /** `String(999)` is "999". */
  lemma Decimal999()
    ensures IntToDecimal(999) == "999"
  {
    assert NatToDecimal(99) == NatToDecimal(9) + [DigitChar(9)];
    assert NatToDecimal(999) == NatToDecimal(99) + [DigitChar(9)];
  }

  /** The fields of 1 January, midnight, are written "-01-01 00:00:00". */
  lemma NewYearFieldsText(year: int)
    ensures FieldsText(Civil(year, 1, 1, 0, 0, 0)) == "-01-01 00:00:00"
  {
    assert IntToDecimal(1) == "1" && IntToDecimal(0) == "0";
    assert Pad2(1) == "01" && Pad2(0) == "00";
  }

  /** The year is not padded: year 999 gives an 18-character text. */
  lemma ShortYearNotPadded()
    ensures WallTimeText(Civil(999, 1, 1, 0, 0, 0)) == "999-01-01 00:00:00"
  {
    var c := Civil(999, 1, 1, 0, 0, 0);
    Decimal999();
    NewYearFieldsText(999);
    assert WallTimeText(c) == "999" + "-01-01 00:00:00";
  }

  /** So a moment in year 999 reaches the picker as "Invalid Date". */
  lemma ShortYearUnreadable(zone: ZoneId)
    ensures LuxonToDayjs(Some(ZonedMoment(Civil(999, 1, 1, 0, 0, 0), zone))) == Some(InvalidDate)
  {
    assert ValidCivil(Civil(999, 1, 1, 0, 0, 0));
  }

  // ---------------------------------------------------------------------------
  // The round trip through the picker.

  /** Showing a valid moment in the picker and taking the picker's value back restores the moment. */
  lemma PickerRoundTrip(m: ZonedMoment)
    requires ValidCivil(m.civil) && FourDigitYear(m.civil)
    ensures LuxonToDayjs(Some(m)) == Some(Parsed(DayjsOf(m.civil)))
    ensures ZonedMoment(CivilOfDayjs(DayjsOf(m.civil)), m.zone) == m
  {
  }

  /** Taking a valid picker value into a moment and showing it again gives the same picker value. */
  lemma PickerValueRoundTrip(v: DayjsFields, zone: ZoneId)
    requires ValidDayjs(v) && 1000 <= v.year <= 9999
    ensures LuxonToDayjs(Some(ZonedMoment(CivilOfDayjs(v), zone))) == Some(Parsed(v))
  {
  }
}
