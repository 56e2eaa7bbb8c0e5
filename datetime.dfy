/**
 * Packed FAT time and date fields (section 6 of the Microsoft FAT
 * specification), as decoded by Phat_ParseTime/Phat_ParseDate and encoded by
 * Phat_EncodeTime/Phat_EncodeDate.
 *
 * The encoders clamp the fields of the structure they are given and store the
 * clamped values back into it; the model returns the clamped structure next
 * to the raw word.
 */
module DateTime {
  import opened Common

  datatype Time = Time(hours: bv8, minutes: bv8, seconds: bv8, milliseconds: bv16)
  datatype Date = Date(year: bv16, month: bv8, day: bv8)

  /** The raw word together with the argument as the encoder leaves it. */
  datatype EncodedTime = EncodedTime(raw: Word, clamped: Time)
  datatype EncodedDate = EncodedDate(raw: Word, clamped: Date)

  function ParseTime(raw: Word, tenths: Byte): (t: Time)
    ensures t.hours <= 31 && t.minutes <= 63 && t.seconds <= 62 && t.seconds % 2 == 0
    ensures t.milliseconds <= 630 && t.milliseconds % 10 == 0
  {
    Time(((raw >> 11) & 0x1F) as bv8,
         ((raw >> 5) & 0x3F) as bv8,
         ((raw & 0x1F) * 2) as bv8,
         (tenths & 0x3F) as bv16 * 10)
  }

  function ParseDate(raw: Word): (d: Date)
    ensures 1980 <= d.year <= 2107 && d.month <= 15 && d.day <= 31
  {
    Date(((raw >> 9) & 0x7F) + 1980,
         ((raw >> 5) & 0x0F) as bv8,
         (raw & 0x1F) as bv8)
  }

  function ClampTime(t: Time): (c: Time)
  {
    Time(if t.hours > 23 then 23 else t.hours,
         if t.minutes > 59 then 59 else t.minutes,
         if t.seconds > 59 then 59 else t.seconds,
         t.milliseconds)
  }

  function ClampDate(d: Date): (c: Date)
  {
    Date(if d.year < 1980 then 1980 else if d.year > 2107 then 2107 else d.year,
         if d.month < 1 then 1 else if d.month > 12 then 12 else d.month,
         if d.day < 1 then 1 else if d.day > 31 then 31 else d.day)
  }

  /**
   * Encoding a time keeps hours, minutes and seconds within their ranges
   * and writes those clamped values back into the argument.
   */
  function EncodeTime(t: Time): (e: EncodedTime)
    ensures e.clamped.hours <= 23 && e.clamped.minutes <= 59 && e.clamped.seconds <= 59
    ensures t.hours <= 23 ==> e.clamped.hours == t.hours
    ensures t.minutes <= 59 ==> e.clamped.minutes == t.minutes
    ensures t.seconds <= 59 ==> e.clamped.seconds == t.seconds
    ensures e.clamped.milliseconds == t.milliseconds
  {
    var c := ClampTime(t);
    EncodedTime(PackTime(c), c)
  }

  function PackTime(c: Time): Word
  {
    ((c.hours as Word & 0x1F) << 11) | ((c.minutes as Word & 0x3F) << 5) | ((c.seconds / 2) as Word & 0x1F)
  }

  /**
   * Encoding a date clamps the year to 1980..2107, the month to 1..12 and
   * the day to 1..31, writes them back, and decoding gives exactly the
   * clamped date.
   */
  function EncodeDate(d: Date): (e: EncodedDate)
    ensures 1980 <= e.clamped.year <= 2107 && 1 <= e.clamped.month <= 12 && 1 <= e.clamped.day <= 31
    ensures 1980 <= d.year <= 2107 ==> e.clamped.year == d.year
    ensures 1 <= d.month <= 12 ==> e.clamped.month == d.month
    ensures 1 <= d.day <= 31 ==> e.clamped.day == d.day
  {
    var c := ClampDate(d);
    EncodedDate(PackDate(c), c)
  }

  function PackDate(c: Date): Word
  {
    (((c.year - 1980) & 0x7F) << 9) | ((c.month as Word & 0x0F) << 5) | (c.day as Word & 0x1F)
  }

  /** The three date fields occupy disjoint bit ranges of the word. */
  lemma ParsePacked(y: Word, m: bv8, dd: bv8)
    requires y <= 127 && m <= 15 && dd <= 31
    ensures ParseDate(((y & 0x7F) << 9) | ((m as Word & 0x0F) << 5) | (dd as Word & 0x1F)) == Date(y + 1980, m, dd)
  {
  }

  /** Decoding an encoded date gives exactly the clamped date. */
  lemma DateRoundTrip(d: Date)
    ensures ParseDate(EncodeDate(d).raw) == EncodeDate(d).clamped
  {
    var c := ClampDate(d);
    assert 1980 <= c.year <= 2107;
    ParsePacked(c.year - 1980, c.month, c.day);
  }

  /** The three time fields occupy disjoint bit ranges of the word. */
  lemma ParsePackedTime(c: Time, tenths: Byte)
    requires c.hours <= 23 && c.minutes <= 59 && c.seconds <= 59
    ensures ParseTime(PackTime(c), tenths).hours == c.hours
    ensures ParseTime(PackTime(c), tenths).minutes == c.minutes
    ensures ParseTime(PackTime(c), tenths).seconds == c.seconds / 2 * 2
  {
  }

  /**
   * Decoding an encoded time gives back the clamped hours and minutes and
   * the clamped seconds rounded down to even: only one bit of the seconds is
   * lost.
   */
  lemma TimeRoundTrip(t: Time, tenths: Byte)
    ensures ParseTime(EncodeTime(t).raw, tenths).hours == EncodeTime(t).clamped.hours
    ensures ParseTime(EncodeTime(t).raw, tenths).minutes == EncodeTime(t).clamped.minutes
    ensures ParseTime(EncodeTime(t).raw, tenths).seconds == EncodeTime(t).clamped.seconds / 2 * 2
  {
    ParsePackedTime(ClampTime(t), tenths);
  }

  /** A raw time whose fields are in range survives a decode and re-encode unchanged. */
  lemma TimeWordRoundTrip(raw: Word, tenths: Byte)
    requires (raw >> 11) <= 23 && ((raw >> 5) & 0x3F) <= 59 && (raw & 0x1F) <= 29
    ensures EncodeTime(ParseTime(raw, tenths)).raw == raw
    ensures EncodeTime(ParseTime(raw, tenths)).clamped == ParseTime(raw, tenths)
  {
  }

  /** A raw date survives a decode and re-encode exactly when its month and day are in range. */
  lemma DateWordRoundTrip(raw: Word)
    ensures EncodeDate(ParseDate(raw)).raw == raw
        <==> (1 <= ((raw >> 5) & 0x0F) <= 12 && 1 <= (raw & 0x1F))
  {
  }

  /** Encoding is idempotent on its argument: a clamped time is clamped again to itself. */
  lemma EncodeTimeIdempotent(t: Time)
    ensures EncodeTime(EncodeTime(t).clamped) == EncodeTime(t)
  {
    var c := ClampTime(t);
    assert ClampTime(c) == c;
  }

  /** Encoding is idempotent on its argument: a clamped date is clamped again to itself. */
  lemma EncodeDateIdempotent(d: Date)
    ensures EncodeDate(EncodeDate(d).clamped) == EncodeDate(d)
  {
    var c := ClampDate(d);
    assert ClampDate(c) == c;
  }
}
