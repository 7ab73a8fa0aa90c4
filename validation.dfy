/** The input helpers of the categorised inventory program: isValidDate, isInteger and
    stringToInt. */
module Validation {
  import opened Dates

  /** isValidDate: ten characters, all three "%d" fields converted, a year that is not
      negative, a month from 1 to 12 and a day from 1 to 31 (whatever the month). */
  predicate IsValidDate(date: string)
    ensures IsValidDate(date) ==> forall today :: ExpiryDefined(ScanFields(date, 2), today)
  {
    |date| == 10
    && ParseDate(date).Some?
    && var d := ParseDate(date).value;
       d.year >= 0 && 1 <= d.month <= 12 && 1 <= d.day <= 31
  }

  /** A zero-padded "YYYY-MM-DD" string is valid exactly when its month and day are in range. */
  lemma PaddedDateValidity(s: string)
    requires IsPaddedDate(s)
    ensures IsValidDate(s) <==>
      1 <= DecimalValue(s[5..7]) <= 12 && 1 <= DecimalValue(s[8..]) <= 31
  {
    PaddedDateParses(s);
  }

  /** The decimal values of the digit strings the example dates below are made of. */
  lemma SampleDecimalValues()
    ensures DecimalValue("2023") == 2023 && DecimalValue("2024") == 2024
    ensures DecimalValue("02") == 2 && DecimalValue("31") == 31
    ensures DecimalValue("01") == 1 && DecimalValue("15") == 15
    ensures DecimalValue("1") == 1 && DecimalValue("011") == 11
  {
    assert "2023"[..3] == "202" && "2024"[..3] == "202";
    assert "202"[..2] == "20" && "20"[..1] == "2" && "2"[..0] == "";
    assert "02"[..1] == "0" && "0"[..0] == "" && "31"[..1] == "3" && "3"[..0] == "";
    assert "01"[..1] == "0" && "15"[..1] == "1" && "1"[..0] == "";
    assert "011"[..2] == "01";
  }

  lemma Feb31IsValid()
    ensures IsValidDate("2023" + "-" + "02" + "-" + "31")
  {
    SampleDecimalValues();
    DashedDigitsParse("2023", "02", "31");
  }

  lemma Jan11UnpaddedIsValid()
    ensures ParseDate("2024" + "-" + "1" + "-" + "011") == Some(Date(2024, 1, 11))
    ensures IsValidDate("2024" + "-" + "1" + "-" + "011")
  {
    SampleDecimalValues();
    DashedDigitsParse("2024", "1", "011");
  }

  lemma Jan15IsValid()
    ensures ParseDate("2024" + "-" + "01" + "-" + "15") == Some(Date(2024, 1, 15))
    ensures IsValidDate("2024" + "-" + "01" + "-" + "15")
  {
    SampleDecimalValues();
    DashedDigitsParse("2024", "01", "15");
  }

  /** A date with '/' between its fields converts only the year, so it is refused. */
  lemma SlashDateIsInvalid()
    ensures ScanFields("2024" + "/" + "01" + "/" + "15", 2) == [2024]
    ensures ParseDate("2024" + "/" + "01" + "/" + "15") == None
    ensures !IsValidDate("2024" + "/" + "01" + "/" + "15")
  {
    var s := "2024" + "/" + "01" + "/" + "15";
    assert s[..4] == "2024" && s[4] == '/';
    SampleDecimalValues();
    ScanIntDigits(s, 4);
  }

  /** Month 13 is out of range. */
  lemma Month13IsInvalid()
    ensures ParseDate("2024" + "-" + "13" + "-" + "01") == Some(Date(2024, 13, 1))
    ensures !IsValidDate("2024" + "-" + "13" + "-" + "01")
  {
    SampleDecimalValues();
    assert "13"[..1] == "1";
    DashedDigitsParse("2024", "13", "01");
  }

  lemma Jan15SortsFirst()
    ensures StrLess("2024" + "-" + "01" + "-" + "15", "2024" + "-" + "1" + "-" + "011")
  {
    assert "2024" + "-" + "01" + "-" + "15" == "2024-" + "01-15";
    assert "2024" + "-" + "1" + "-" + "011" == "2024-" + "1-011";
    StrLessConcat("2024-", "01-15", "2024-", "1-011");
  }

  /** isInteger: the input is not empty and every character is a digit. */
  method IsInteger(input: string) returns (r: bool)
    ensures r <==> input != [] && AllDigits(input)
  {
    if input == [] {
      return false;
    }
    for i := 0 to |input|
      invariant forall j :: 0 <= j < i ==> IsDigit(input[j])
    {
      if !IsDigit(input[i]) {
        return false;
      }
    }
    return true;
  }

  /** What the loop of stringToInt accumulates over s: result * 10 + (c - '0') for each
      character c, taken at its code, whether or not c is a digit. */
  function Accumulated(s: string): int
  {
    if s == [] then 0 else Accumulated(s[..|s| - 1]) * 10 + (s[|s| - 1] as int - '0' as int)
  }

  /** The value stringToInt returns: a leading '-' negates what the rest accumulates. */
  function IntValue(input: string): int
  {
    if input != [] && input[0] == '-' then -Accumulated(input[1..]) else Accumulated(input)
  }

  /** stringToInt. On an empty string input[0] is the terminating null character, which
      is not '-', so the empty input gives 0. */
  method StringToInt(input: string) returns (r: int)
    ensures r == IntValue(input)
    ensures input == [] ==> r == 0
  {
    var result := 0;
    var sign := 1;
    var i := 0;
    if input != [] && input[0] == '-' {
      sign := -1;
      i := 1;
    }
    var start := i;
    while i < |input|
      invariant start <= i <= |input|
      invariant result == Accumulated(input[start..i])
    {
      assert input[start..i + 1][..i - start] == input[start..i];
      result := result * 10 + (input[i] as int - '0' as int);
      i := i + 1;
    }
    assert input[start..i] == input[start..];
    return result * sign;
  }

  /** On a string of digits, the accumulation is the decimal value. */
  lemma {:induction false} AccumulatedDigits(s: string)
    requires AllDigits(s)
    ensures Accumulated(s) == DecimalValue(s)
  {
    if s != [] {
      AccumulatedDigits(s[..|s| - 1]);
    }
  }

  /** stringToInt of a string that passes isInteger is its decimal value. */
  lemma IntValueOfInteger(input: string)
    requires input != [] && AllDigits(input)
    ensures IntValue(input) == DecimalValue(input)
  {
    AccumulatedDigits(input);
  }

  /** A leading '-' negates whatever run of digits follows it, leading zeros included. */
  lemma MinusDigits(s: string)
    requires AllDigits(s)
    ensures IntValue("-" + s) == -(DecimalValue(s) as int)
  {
    assert ("-" + s)[1..] == s;
    AccumulatedDigits(s);
  }

  /** stringToInt inverts to_string, negative numbers included. */
  lemma IntValueOfToString(i: int)
    ensures IntToString(i) != []
    ensures IntValue(IntToString(i)) == i
  {
    var n: nat := if i < 0 then -i else i;
    NatToStringDigits(n);
    AccumulatedDigits(NatToString(n));
    if i < 0 {
      assert IntToString(i)[1..] == NatToString(n);
    }
  }
}
