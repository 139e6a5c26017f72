/** getAgeRangeByMinAndMax: the age label of a class, where 0 and 100
    stand for "no lower bound" and "no upper bound". */
module AgeRange {
  import opened Common
  import opened Decimal

  function GetAgeRangeByMinAndMax(minAge: int, maxAge: int): (r: string)
    ensures minAge == 0 && maxAge == 100 ==> r == "All Ages"
    ensures minAge == 0 && maxAge != 100 ==> r == "<" + IntToString(maxAge)
    ensures minAge != 0 && maxAge == 100 ==> r == "+" + IntToString(minAge)
    ensures minAge != 0 && maxAge != 100 ==> r == ""
  {
    if minAge == 0 && maxAge == 100 then "All Ages"
    else if minAge == 0 then "<" + IntToString(maxAge)
    else if maxAge == 100 then "+" + IntToString(minAge)
    else ""
  }

  /** Reads a label back into the (minAge, maxAge) pair it stands for. */
  function DecodeAgeRange(r: string): Option<(int, int)> {
    if r == "All Ages" then Some((0, 100))
    else if |r| >= 2 && r[0] == '<' && AllDigits(r[1..]) then Some((0, DigitsValue(r[1..])))
    else if |r| >= 2 && r[0] == '+' && AllDigits(r[1..]) then Some((DigitsValue(r[1..]), 100))
    else None
  }

  /** For non-negative ages the label determines the pair whenever one
      bound is open, and is empty exactly when neither bound is. */
  lemma AgeRangeRoundTrip(minAge: int, maxAge: int)
    requires minAge >= 0 && maxAge >= 0
    ensures DecodeAgeRange(GetAgeRangeByMinAndMax(minAge, maxAge))
         == if minAge == 0 || maxAge == 100 then Some((minAge, maxAge)) else None
    ensures GetAgeRangeByMinAndMax(minAge, maxAge) == "" <==> minAge != 0 && maxAge != 100
  {
  }
}

/** getTimeStringByStartTime: a class start time in 12-hour notation. */
module TimeFormat {
  import opened Common
  import opened Decimal

  /** String.prototype.padStart with a one-character pad. */
  function PadStart(s: string, targetLength: nat, padChar: char): (r: string)
    ensures |r| == Max(|s|, targetLength)
    ensures r[|r| - |s|..] == s
    ensures forall i :: 0 <= i < |r| - |s| ==> r[i] == padChar
  {
    if |s| >= targetLength then s else seq(targetLength - |s|, _ => padChar) + s
  }

  function DisplayHour(hour: int): int {
    if hour > 12 then hour - 12 else hour
  }

  function Period(hour: int): string {
    if hour > 12 then "pm" else "am"
  }

  function MinutesField(minute: int): string {
    PadStart(IntToString(minute), 2, '0')
  }

  function GetTimeStringByStartTime(hour: int, minute: int): string {
    IntToString(DisplayHour(hour)) + ":" + MinutesField(minute) + " " + Period(hour)
  }

  /** Minutes are at least two digits, zero-padded, and keep their value. */
  lemma MinutesPadded(minute: int)
    requires minute >= 0
    ensures |MinutesField(minute)| == Max(2, |NatToString(minute)|)
    ensures AllDigits(MinutesField(minute)) && DigitsValue(MinutesField(minute)) == minute
    ensures minute < 10 ==> MinutesField(minute) == ['0', DigitChar(minute)]
  {
    var s := NatToString(minute);
    NatToStringRoundTrip(minute);
    if |s| < 2 {
      LeadingZerosIgnored(2 - |s|, s);
      assert MinutesField(minute) == seq(2 - |s|, _ => '0') + s;
    }
  }

  /** Position of the first ':' (the length when there is none). */
  function IndexOfColon(s: string): (k: nat)
    ensures k <= |s|
    ensures k < |s| ==> s[k] == ':'
  {
    if s == [] then 0 else if s[0] == ':' then 0 else 1 + IndexOfColon(s[1..])
  }

  lemma {:induction false} ColonAfterDigits(h: string, rest: string)
    requires AllDigits(h)
    ensures IndexOfColon(h + ":" + rest) == |h|
  {
    if h != [] {
      assert (h + ":" + rest)[1..] == h[1..] + ":" + rest;
      ColonAfterDigits(h[1..], rest);
    }
  }

  /** Hours added back for a period marker. */
  function PeriodOffset(p: string): Option<int> {
    if p == "pm" then Some(12) else if p == "am" then Some(0) else None
  }

  function DecodeFields(h: string, mm: string, sep: char, p: string): Option<(int, int)> {
    if AllDigits(h) && AllDigits(mm) && sep == ' ' && PeriodOffset(p).Some? then
      Some((DigitsValue(h) + PeriodOffset(p).value, DigitsValue(mm)))
    else None
  }

  /** Reads a time string back into the 24-hour (hour, minute) it shows. */
  function DecodeTimeString(r: string): Option<(int, int)> {
    var c := IndexOfColon(r);
    if c + 4 <= |r| then DecodeFields(r[..c], r[c + 1..|r| - 3], r[|r| - 3], r[|r| - 2..]) else None
  }

  /** Decoding a string assembled from its three fields recovers their values. */
  lemma DecodeAssembled(h: string, mm: string, p: string)
    requires AllDigits(h) && AllDigits(mm) && |p| == 2
    ensures DecodeTimeString(h + ":" + mm + " " + p) == DecodeFields(h, mm, ' ', p)
  {
    var r := h + ":" + mm + " " + p;
    assert r == h + ":" + (mm + " " + p);
    ColonAfterDigits(h, mm + " " + p);
    assert r[..|h|] == h;
    assert r[|h| + 1..|r| - 3] == mm;
    assert r[|r| - 3] == ' ';
    assert r[|r| - 2..] == p;
  }

  /** For non-negative hour and minute the time string shows exactly
      that time: hours past noon lose 12 and read "pm", the rest read "am". */
  lemma TimeStringRoundTrip(hour: int, minute: int)
    requires hour >= 0 && minute >= 0
    ensures DecodeTimeString(GetTimeStringByStartTime(hour, minute)) == Some((hour, minute))
  {
    MinutesPadded(minute);
    NatToStringRoundTrip(DisplayHour(hour));
    DecodeAssembled(IntToString(DisplayHour(hour)), MinutesField(minute), Period(hour));
    assert PeriodOffset(Period(hour)).value == hour - DisplayHour(hour);
  }

  /** A noon start reads "am", as the code only switches after 12. */
  lemma NoonExample()
    ensures GetTimeStringByStartTime(12, 5) == "12:05 am"
  {
    assert NatToString(12) == NatToString(1) + [DigitChar(2)];
    assert IntToString(DisplayHour(12)) == "12";
    assert NatToString(5) == [DigitChar(5)];
    assert MinutesField(5) == seq(1, _ => '0') + "5" == "05";
    assert Period(12) == "am";
  }

  lemma MidnightExample()
    ensures GetTimeStringByStartTime(0, 0) == "0:00 am"
  {
    assert NatToString(0) == [DigitChar(0)];
    assert IntToString(DisplayHour(0)) == "0";
    assert MinutesField(0) == seq(1, _ => '0') + "0" == "00";
    assert Period(0) == "am";
  }

  lemma AfternoonExample()
    ensures GetTimeStringByStartTime(13, 30) == "1:30 pm"
  {
    HourOneRendered();
    ThirtyMinutesRendered();
    assert Period(13) == "pm";
  }

  lemma HourOneRendered()
    ensures IntToString(DisplayHour(13)) == "1"
  {
    assert NatToString(1) == [DigitChar(1)];
  }

  lemma ThirtyMinutesRendered()
    ensures MinutesField(30) == "30"
  {
    assert NatToString(3) == [DigitChar(3)];
    assert NatToString(30) == NatToString(3) + [DigitChar(0)];
  }
}
