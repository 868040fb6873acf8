/**
  The two conversions the bot applies to clock times, both with the format '%H:%M':

  - `ParseHourMinute` is `datetime.strptime(text, '%H:%M')` as CPython implements it: the
    format becomes the regular expression `(?P<H>2[0-3]|[0-1]\d|\d):(?P<M>[0-5]\d|\d)`,
    which is matched at the start of the text (trying the hour alternatives in order and
    backtracking), and the parse fails ("unconverted data remains") unless the match
    consumed the whole text.
  - `FormatHourMinute` is `strftime('%H:%M')`: always two digits, a colon, two digits.

  The bot validates user input with the first and compares stored text with the output of
  the second, so an accepted text that is not zero-padded ("9:00") never equals any clock
  reading (`MatchedByClockIffPadded`).
*/
module TimeFormat {
  import opened Wrappers

  /** A wall-clock minute, as read from `datetime.now()` or produced by a successful parse. */
  datatype ClockTime = ClockTime(hour: nat, minute: nat)

  predicate ValidClock(t: ClockTime) {
    t.hour < 24 && t.minute < 60
  }

  predicate IsDigit(c: char) {
    '0' <= c <= '9'
  }

  function DigitValue(c: char): (v: nat)
    requires IsDigit(c)
    ensures v < 10
  {
    (c as int) - ('0' as int)
  }

  function DigitChar(v: nat): (c: char)
    requires v < 10
    ensures IsDigit(c) && DigitValue(c) == v
  {
    (('0' as int) + v) as char
  }

  // ---------------------------------------------------------------------------
  // The regular expression CPython builds for '%H:%M'
  // ---------------------------------------------------------------------------

  /**
    Alternative `alt` (0, 1 or 2) of the hour group `2[0-3]|[0-1]\d|\d`, tried at the start
    of `s`: the hour it denotes and the number of characters it consumes.
  */
  function HourAlternative(s: string, alt: nat): (r: Option<(nat, nat)>)
    requires alt <= 2
    ensures r.Some? ==> r.value.0 < 24 && 1 <= r.value.1 <= 2 && r.value.1 <= |s|
  {
    if alt == 0 then
      if |s| >= 2 && s[0] == '2' && '0' <= s[1] <= '3' then Some((20 + DigitValue(s[1]), 2)) else None
    else if alt == 1 then
      if |s| >= 2 && '0' <= s[0] <= '1' && IsDigit(s[1])
      then Some((10 * DigitValue(s[0]) + DigitValue(s[1]), 2)) else None
    else
      if |s| >= 1 && IsDigit(s[0]) then Some((DigitValue(s[0]), 1)) else None
  }

  /**
    The minute group `[0-5]\d|\d` at the start of `s`. It is the last item of the pattern,
    so the first alternative that matches is the one the match keeps.
  */
  function MinuteGroup(s: string): (r: Option<(nat, nat)>)
    ensures r.Some? ==> r.value.0 < 60 && 1 <= r.value.1 <= 2 && r.value.1 <= |s|
  {
    if |s| >= 2 && '0' <= s[0] <= '5' && IsDigit(s[1]) then Some((10 * DigitValue(s[0]) + DigitValue(s[1]), 2))
    else if |s| >= 1 && IsDigit(s[0]) then Some((DigitValue(s[0]), 1))
    else None
  }

  /**
    `re.match` of the whole pattern at the start of `s`, trying the hour alternatives from
    `alt` onwards: the parsed time and the index where the match ends.
  */
  function MatchFrom(s: string, alt: nat): (r: Option<(ClockTime, nat)>)
    requires alt <= 3
    ensures r.Some? ==> ValidClock(r.value.0) && 3 <= r.value.1 <= |s|
    decreases 3 - alt
  {
    if alt == 3 then None
    else
      match HourAlternative(s, alt)
      case Some((h, w)) =>
        if w < |s| && s[w] == ':' && MinuteGroup(s[w + 1..]).Some? then
          var (m, mw) := MinuteGroup(s[w + 1..]).value;
          Some((ClockTime(h, m), w + 1 + mw))
        else MatchFrom(s, alt + 1)
      case None => MatchFrom(s, alt + 1)
  }

  /**
    `datetime.strptime(s, '%H:%M')`: `None` stands for the `ValueError` raised when the
    pattern does not match or when characters remain after the match.
  */
  function ParseHourMinute(s: string): (r: Option<ClockTime>)
    ensures r.Some? ==> ValidClock(r.value)
  {
    match MatchFrom(s, 0)
    case None => None
    case Some((t, end)) => if end == |s| then Some(t) else None
  }

  /** `strftime('%H:%M')` of a clock reading: hour and minute, each zero-padded to two digits. */
  function FormatHourMinute(t: ClockTime): (s: string)
    requires ValidClock(t)
    ensures |s| == 5 && s[2] == ':'
  {
    [DigitChar(t.hour / 10), DigitChar(t.hour % 10), ':', DigitChar(t.minute / 10), DigitChar(t.minute % 10)]
  }

  // ---------------------------------------------------------------------------
  // An independent description of the accepted texts
  // ---------------------------------------------------------------------------

  /** The number written by a string of decimal digits. */
  function DecimalValue(ds: string): nat
    requires forall k :: 0 <= k < |ds| ==> IsDigit(ds[k])
  {
    if ds == [] then 0 else 10 * DecimalValue(ds[..|ds| - 1]) + DigitValue(ds[|ds| - 1])
  }

  /** One or two decimal digits whose value is below `bound` (leading zeros allowed). */
  predicate DigitField(ds: string, bound: nat) {
    && 1 <= |ds| <= 2
    && (forall k :: 0 <= k < |ds| ==> IsDigit(ds[k]))
    && DecimalValue(ds) < bound
  }

  /** `s` is an hour field of 0 to 23, a colon at index `i`, and a minute field of 0 to 59. */
  predicate ShapeAt(s: string, i: nat) {
    && 1 <= i <= 2 && i < |s|
    && s[i] == ':'
    && DigitField(s[..i], 24)
    && DigitField(s[i + 1..], 60)
  }

  /** Hour of one or two digits in 0-23, a colon, minute of one or two digits in 0-59, nothing else. */
  predicate WellFormedTime(s: string) {
    ShapeAt(s, 1) || ShapeAt(s, 2)
  }

  /** The time a well-formed text denotes. */
  function FieldsOf(s: string): (t: ClockTime)
    requires WellFormedTime(s)
    ensures ValidClock(t)
  {
    var i := if ShapeAt(s, 1) then 1 else 2;
    ClockTime(DecimalValue(s[..i]), DecimalValue(s[i + 1..]))
  }

  // ---------------------------------------------------------------------------
  // Properties
  // ---------------------------------------------------------------------------

  lemma {:induction false} DecimalValueShort(ds: string)
    requires 1 <= |ds| <= 2 && forall k :: 0 <= k < |ds| ==> IsDigit(ds[k])
    ensures |ds| == 1 ==> DecimalValue(ds) == DigitValue(ds[0])
    ensures |ds| == 2 ==> DecimalValue(ds) == 10 * DigitValue(ds[0]) + DigitValue(ds[1])
  {
    assert DecimalValue(ds[..0]) == 0 by { assert ds[..0] == []; }
    if |ds| == 2 {
      assert ds[..1][..0] == [];
      assert DecimalValue(ds[..1]) == DigitValue(ds[0]);
    }
  }

  /** The minute field after a colon at index `i` is exactly what the minute group consumes. */
  lemma MinuteFieldMatches(s: string, i: nat)
    requires i < |s|
    ensures DigitField(s[i + 1..], 60) <==>
              MinuteGroup(s[i + 1..]).Some? && i + 1 + MinuteGroup(s[i + 1..]).value.1 == |s|
    ensures DigitField(s[i + 1..], 60) ==> MinuteGroup(s[i + 1..]).value.0 == DecimalValue(s[i + 1..])
  {
    var rest := s[i + 1..];
    if 1 <= |rest| <= 2 && forall k :: 0 <= k < |rest| ==> IsDigit(rest[k]) {
      DecimalValueShort(rest);
    }
  }

  /** A successful parse reads a well-formed text, and yields the values its fields denote. */
  lemma {:induction false} AcceptedIsWellFormed(s: string)
    requires ParseHourMinute(s).Some?
    ensures WellFormedTime(s) && ParseHourMinute(s) == Some(FieldsOf(s))
  {
    var alt := if HourAlternative(s, 0).Some? && s[2] == ':' && MinuteGroup(s[3..]).Some? then 0
               else if HourAlternative(s, 1).Some? && s[2] == ':' && MinuteGroup(s[3..]).Some? then 1
               else 2;
    var (h, w) := HourAlternative(s, alt).value;
    MinuteFieldMatches(s, w);
    DecimalValueShort(s[..w]);
    assert ShapeAt(s, w);
  }

  /** Every well-formed text is accepted. */
  lemma {:induction false} WellFormedIsAccepted(s: string)
    requires WellFormedTime(s)
    ensures ParseHourMinute(s).Some?
  {
    if ShapeAt(s, 1) {
      MinuteFieldMatches(s, 1);
      assert HourAlternative(s, 0).None? && HourAlternative(s, 1).None?;
      assert HourAlternative(s, 2).Some?;
    } else {
      MinuteFieldMatches(s, 2);
      DecimalValueShort(s[..2]);
      if s[0] == '2' {
        assert HourAlternative(s, 0).Some?;
      } else {
        assert HourAlternative(s, 1).Some?;
      }
    }
  }

  /**
    The parse accepts exactly the well-formed texts (hour 0-23 and minute 0-59, each of one
    or two digits, separated by a colon, nothing before or after), and yields the values
    those digits denote.
  */
  lemma {:induction false} ParseAcceptsExactlyWellFormed(s: string)
    ensures ParseHourMinute(s).Some? <==> WellFormedTime(s)
    ensures WellFormedTime(s) ==> ParseHourMinute(s) == Some(FieldsOf(s))
  {
    if ParseHourMinute(s).Some? {
      AcceptedIsWellFormed(s);
    }
    if WellFormedTime(s) {
      WellFormedIsAccepted(s);
      AcceptedIsWellFormed(s);
    }
  }

  /** Every clock reading, once formatted, is accepted by the parse and denotes the same time. */
  lemma {:induction false} FormatParseRoundTrip(t: ClockTime)
    requires ValidClock(t)
    ensures ParseHourMinute(FormatHourMinute(t)) == Some(t)
  {
    var s := FormatHourMinute(t);
    assert s[..2] == [s[0], s[1]] && s[3..] == [s[3], s[4]];
    DecimalValueShort(s[..2]);
    DecimalValueShort(s[3..]);
    assert ShapeAt(s, 2);
    ParseAcceptsExactlyWellFormed(s);
  }

  /** Two digits `a b` written by value and formatted back give `a b` again. */
  lemma TwoDigitsFormatBack(a: char, b: char)
    requires IsDigit(a) && IsDigit(b)
    ensures var v := 10 * DigitValue(a) + DigitValue(b);
            DigitChar(v / 10) == a && DigitChar(v % 10) == b
  {
    var v := 10 * DigitValue(a) + DigitValue(b);
    assert v / 10 == DigitValue(a) && v % 10 == DigitValue(b);
  }

  /** A well-formed text of five characters is the clock text of the time it denotes. */
  lemma PaddedFormatsBack(s: string)
    requires WellFormedTime(s) && |s| == 5
    ensures FormatHourMinute(FieldsOf(s)) == s
  {
    assert !ShapeAt(s, 1) && ShapeAt(s, 2);
    assert s[..2] == [s[0], s[1]] && s[3..] == [s[3], s[4]];
    DecimalValueShort(s[..2]);
    DecimalValueShort(s[3..]);
    TwoDigitsFormatBack(s[0], s[1]);
    TwoDigitsFormatBack(s[3], s[4]);
  }

  /**
    An accepted text equals the clock reading it denotes exactly when it has five characters,
    that is, when both fields are zero-padded; a shorter accepted text such as "9:00" equals
    no clock reading at all.
  */
  lemma {:induction false} MatchedByClockIffPadded(s: string)
    requires ParseHourMinute(s).Some?
    ensures FormatHourMinute(ParseHourMinute(s).value) == s <==> |s| == 5
    ensures (exists c :: ValidClock(c) && FormatHourMinute(c) == s) <==> |s| == 5
  {
    if |s| == 5 {
      AcceptedIsWellFormed(s);
      PaddedFormatsBack(s);
    }
  }

  /** Single-digit fields are accepted: "9:00" is nine o'clock. */
  lemma UnpaddedHourAccepted()
    ensures ParseHourMinute("9:00") == Some(ClockTime(9, 0))
  {
    assert HourAlternative("9:00", 0).None? && HourAlternative("9:00", 1).None?;
    assert "9:00"[2..] == "00";
  }

  /** An hour past 23 is rejected. */
  lemma HourPastRangeRejected()
    ensures ParseHourMinute("24:00").None?
  {
    assert HourAlternative("24:00", 2) == Some((2, 1));
  }

  /** A minute past 59 leaves a character unconverted and is rejected. */
  lemma MinutePastRangeRejected()
    ensures ParseHourMinute("09:60").None?
  {
    assert "09:60"[3..] == "60";
    assert MinuteGroup("60") == Some((6, 1));
  }

  /** A trailing character after a full match is rejected ("unconverted data remains"). */
  lemma TrailingDataRejected()
    ensures ParseHourMinute("12:345").None?
  {
    assert "12:345"[3..] == "345";
    assert MinuteGroup("345") == Some((34, 2));
  }
}
