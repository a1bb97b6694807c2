/** The duration encoding of the new-post screen: a whole number of minutes
    written as a PostgreSQL interval in the form `HH:MM:00`. */
module Interval {
  import opened Wrappers
  import opened Decimal

  /** `Math.floor(minutes / 60)`: the whole hours in `minutes`. */
  function HoursOf(minutes: nat): (h: nat)
    ensures h * 60 <= minutes < h * 60 + 60
  {
    minutes / 60
  }

  /** `minutes % 60`: what is left over after the whole hours. */
  function MinutesOf(minutes: nat): (m: nat)
    ensures m < 60
    ensures HoursOf(minutes) * 60 + m == minutes
  {
    minutes % 60
  }

  /** The interval text inserted as a post's duration: the hours padded with
      '0' to at least two digits, ':', the left-over minutes padded to two
      digits, and ":00" for the seconds. */
  function Encode(minutes: nat): (s: string)
    ensures |s| >= 8 && s[|s| - 6] == ':' && s[|s| - 3..] == ":00"
  {
    ToDecimalAtMostTwo(MinutesOf(minutes));
    PadStart(ToDecimal(HoursOf(minutes)), 2, '0') + ":" +
    PadStart(ToDecimal(MinutesOf(minutes)), 2, '0') + ":00"
  }

  /** The three fields of a `H..H:MM:SS` interval text. */
  datatype Fields = Fields(hours: nat, minutes: nat, seconds: nat)

  /** Reads a `H..H:MM:SS` text: at least one hour digit, then ':', two
      minute digits, ':', two second digits. Anything else is `None`. */
  function Parse(s: string): (r: Option<Fields>)
    ensures r.Some? ==> |s| >= 7 && s[|s| - 6] == ':' && s[|s| - 3] == ':'
    ensures r.Some? ==> IsDigits(s[..|s| - 6])
    ensures r.Some? ==> IsDigit(s[|s| - 5]) && IsDigit(s[|s| - 4])
    ensures r.Some? ==> IsDigit(s[|s| - 2]) && IsDigit(s[|s| - 1])
    ensures r.Some? ==> r.value.minutes < 100 && r.value.seconds < 100
  {
    if |s| < 7 then None else ParseSplit(s[..|s| - 6], s[|s| - 6..])
  }

  /** Reads the hour digits `head` and the six-character `:MM:SS` tail. */
  function ParseSplit(head: string, tail: string): (r: Option<Fields>)
    requires |tail| == 6
    ensures r.Some? ==> tail[0] == ':' && tail[3] == ':'
    ensures r.Some? ==> IsDigits(head)
    ensures r.Some? ==> IsDigit(tail[1]) && IsDigit(tail[2]) && IsDigit(tail[4]) && IsDigit(tail[5])
    ensures r.Some? ==> r.value.minutes < 100 && r.value.seconds < 100
  {
    if tail[0] == ':' && tail[3] == ':' && IsDigits(head) && IsDigits(tail[1..3]) && IsDigits(tail[4..])
    then
      ValueOfTwoDigits(tail[1..3]);
      ValueOfTwoDigits(tail[4..]);
      Some(Fields(Value(head), Value(tail[1..3]), Value(tail[4..])))
    else None
  }

  /** The whole number of minutes an interval text stands for, when it is a
      well-formed `H..H:MM:00` text with fewer than 60 minutes. */
  function ReadMinutes(s: string): (r: Option<nat>)
    ensures r.Some? <==> Parse(s).Some? && Parse(s).value.minutes < 60 && Parse(s).value.seconds == 0
    ensures r.Some? ==> HoursOf(r.value) == Parse(s).value.hours && MinutesOf(r.value) == Parse(s).value.minutes
  {
    match Parse(s)
    case Some(f) =>
      if f.minutes < 60 && f.seconds == 0 then Some(f.hours * 60 + f.minutes) else None
    case None => None
  }

  /** The last six characters of an assembled text are its `:MM:00` tail. */
  lemma AssembledSplits(h: string, m: string)
    requires |m| == 2
    ensures var s := h + ":" + m + ":00";
      |s| == |h| + 6 && s[..|s| - 6] == h && s[|s| - 6..] == ":" + m + ":00"
  {
  }

  /** A `:MM:00` tail after an hour field reads back as those fields. */
  lemma ParseSplitTail(h: string, m: string)
    requires IsDigits(h)
    requires IsDigits(m) && |m| == 2
    ensures ParseSplit(h, ":" + m + ":00") == Some(Fields(Value(h), Value(m), 0))
  {
    var tail := ":" + m + ":00";
    assert tail[1..3] == m;
    assert tail[4..] == "00";
    ValueOfTwoDigits("00");
  }

  /** A text assembled from an hour field, ':', a two-digit minute field and
      ":00" parses into those fields. */
  lemma ParseAssembled(h: string, m: string)
    requires IsDigits(h) && |h| >= 1
    requires IsDigits(m) && |m| == 2
    ensures Parse(h + ":" + m + ":00") == Some(Fields(Value(h), Value(m), 0))
  {
    AssembledSplits(h, m);
    ParseSplitTail(h, m);
  }

  /** The encoded text parses, its fields are the whole hours, the left-over
      minutes and zero seconds, and the hour field has at least two digits. */
  lemma EncodeParses(minutes: nat)
    ensures |Encode(minutes)| >= 8
    ensures Parse(Encode(minutes)) == Some(Fields(HoursOf(minutes), MinutesOf(minutes), 0))
  {
    var hs := ToDecimal(HoursOf(minutes));
    var ms := ToDecimal(MinutesOf(minutes));
    ToDecimalAtMostTwo(MinutesOf(minutes));
    ValueOfZeroPadded(hs, 2);
    ValueOfZeroPadded(ms, 2);
    ValueOfToDecimal(HoursOf(minutes));
    ValueOfToDecimal(MinutesOf(minutes));
    ParseAssembled(PadStart(hs, 2, '0'), PadStart(ms, 2, '0'));
  }

  /** Round trip: reading the hour and minute fields back gives the minutes
      that were encoded. */
  lemma ReadEncode(minutes: nat)
    ensures ReadMinutes(Encode(minutes)) == Some(minutes)
  {
    EncodeParses(minutes);
  }

  /** Different minute counts never share an encoding. */
  lemma EncodeInjective(m1: nat, m2: nat)
    requires Encode(m1) == Encode(m2)
    ensures m1 == m2
  {
    ReadEncode(m1);
    ReadEncode(m2);
  }

  /** The encoding is exactly eight characters (`HH:MM:00`) exactly when the
      hours fit in two digits, i.e. below 6000 minutes; past that the hour
      field grows and the text is longer. */
  lemma EncodeLength(minutes: nat)
    ensures |Encode(minutes)| == 8 <==> minutes < 6000
    ensures minutes < 6000 ==> Encode(minutes)[2] == ':' && Encode(minutes)[5] == ':'
  {
    ToDecimalAtMostTwo(HoursOf(minutes));
    ToDecimalAtMostTwo(MinutesOf(minutes));
    EncodeParses(minutes);
  }

  /** The worked example of 75 minutes. */
  lemma EncodeSeventyFive()
    ensures Encode(75) == "01:15:00"
  {
    assert HoursOf(75) == 1 && MinutesOf(75) == 15;
    assert ToDecimal(1) == "1";
    assert ToDecimal(15) == ToDecimal(1) + "5";
    assert Repeat('0', 1) == "0";
    assert PadStart("1", 2, '0') == "01";
    assert PadStart("15", 2, '0') == "15";
  }

  /** The worked example of 45 minutes. */
  lemma EncodeFortyFive()
    ensures Encode(45) == "00:45:00"
  {
    assert HoursOf(45) == 0 && MinutesOf(45) == 45;
    assert ToDecimal(0) == "0";
    assert ToDecimal(45) == ToDecimal(4) + "5";
    assert ToDecimal(4) == "4";
    assert Repeat('0', 1) == "0";
    assert PadStart("0", 2, '0') == "00";
    assert PadStart("45", 2, '0') == "45";
  }
}
