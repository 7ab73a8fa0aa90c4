/** Dates as the inventory programs see them: strings read with sscanf's "%d-%d-%d",
    strings built with to_string, the year-then-month-then-day expiry test and the
    character-by-character order of std::string. */
module Dates {

  datatype Option<T> = None | Some(value: T)

  /** A calendar date as three integers; nothing bounds the fields. */
  datatype Date = Date(year: int, month: int, day: int)

  predicate IsDigit(c: char) { '0' <= c <= '9' }

  /** White space as isspace sees it in the "C" locale. */
  predicate IsSpace(c: char)
  {
    c == ' ' || c == '\t' || c == '\n' || c == '\r' || c as int == 11 || c as int == 12
  }

  predicate AllDigits(s: string) { forall i :: 0 <= i < |s| ==> IsDigit(s[i]) }

  function DigitValue(c: char): (v: nat)
    requires IsDigit(c)
    ensures v < 10
  {
    c as int - '0' as int
  }

  function DigitChar(v: nat): (c: char)
    requires v < 10
    ensures IsDigit(c) && DigitValue(c) == v
  {
    ('0' as int + v) as char
  }

  /** The number a string of decimal digits denotes, most significant digit first. */
  function DecimalValue(s: string): nat
    requires AllDigits(s)
  {
    if s == [] then 0 else DecimalValue(s[..|s| - 1]) * 10 + DigitValue(s[|s| - 1])
  }

  /** The length of the longest prefix of s made of digits. */
  function DigitRun(s: string): (n: nat)
    ensures n <= |s|
    ensures AllDigits(s[..n])
    ensures n < |s| ==> !IsDigit(s[n])
  {
    if s == [] || !IsDigit(s[0]) then 0
    else
      var n := DigitRun(s[1..]);
      assert s[..1 + n] == [s[0]] + s[1..][..n];
      1 + n
  }

  /** One "%d" conversion: skip white space, then read a signed decimal number.
      Yields the value read and the number of characters consumed, or None when the
      conversion fails. */
  function ScanInt(s: string): (r: Option<(int, nat)>)
    ensures r.Some? ==> 0 < r.value.1 <= |s|
  {
    if s != [] && IsSpace(s[0]) then
      match ScanInt(s[1..])
      case None => None
      case Some((v, n)) => Some((v, n + 1))
    else ScanSigned(s)
  }

  /** An optional sign followed by the longest run of digits, which must not be empty. */
  function ScanSigned(s: string): (r: Option<(int, nat)>)
    ensures r.Some? ==> 0 < r.value.1 <= |s|
  {
    var signed := s != [] && (s[0] == '+' || s[0] == '-');
    var start := if signed then 1 else 0;
    var n := DigitRun(s[start..]);
    if n == 0 then None
    else
      var magnitude := DecimalValue(s[start..][..n]);
      var value: int := if signed && s[0] == '-' then -(magnitude as int) else magnitude;
      Some((value, start + n))
  }

  /** sscanf with the format "%d" followed by `more` copies of "-%d": the values of the
      conversions that succeed, in order, up to the first that fails. sscanf's return
      value is the length of the result; the variables past it are left unassigned. */
  function ScanFields(s: string, more: nat): (r: seq<int>)
    ensures |r| <= more + 1
  {
    match ScanInt(s)
    case None => []
    case Some((v, i)) =>
      if more > 0 && i < |s| && s[i] == '-' then [v] + ScanFields(s[i + 1..], more - 1)
      else [v]
  }

  /** sscanf(s, "%d-%d-%d", &year, &month, &day) when it converts all three fields;
      None when it converts fewer. Characters after the day are ignored, as sscanf does. */
  function ParseDate(s: string): (r: Option<Date>)
    ensures r.Some? ==> forall today ::
      ExpiryDefined(ScanFields(s, 2), today)
      && (FieldsBefore(ScanFields(s, 2), today) <==> IsBefore(r.value, today))
  {
    var f := ScanFields(s, 2);
    if |f| == 3 then Some(Date(f[0], f[1], f[2])) else None
  }

  /** The expiry test of both programs on a fully converted date: d is strictly before
      today, comparing the year, then the month, then the day as integers. */
  predicate IsBefore(d: Date, today: Date)
    ensures IsBefore(d, today) ==> d != today && d.year <= today.year
  {
    d.year < today.year
    || (d.year == today.year && d.month < today.month)
    || (d.year == today.year && d.month == today.month && d.day < today.day)
  }

  /** The expiry test reads only the fields its short-circuit reaches: the year, the month
      when the year is today's, the day when the month is today's too. It is defined when
      each of those was converted; otherwise it reads an uninitialised variable. */
  predicate ExpiryDefined(f: seq<int>, today: Date)
  {
    |f| >= 1 && (f[0] == today.year ==> |f| >= 2 && (f[1] == today.month ==> |f| >= 3))
  }

  /** The outcome of the expiry test on the converted fields f, each disjunct reading only
      fields that were converted. */
  predicate FieldsBefore(f: seq<int>, today: Date)
  {
    |f| >= 1
    && (f[0] < today.year
        || (f[0] == today.year && |f| >= 2 && f[1] < today.month)
        || (f[0] == today.year && |f| >= 2 && f[1] == today.month && |f| >= 3 && f[2] < today.day))
  }

  /** to_string for a non-negative int: no sign, no leading zeros. */
  function NatToString(n: nat): string
  {
    if n < 10 then [DigitChar(n)] else NatToString(n / 10) + [DigitChar(n % 10)]
  }

  /** to_string for an int. */
  function IntToString(i: int): string
  {
    if i < 0 then "-" + NatToString(-i) else NatToString(i)
  }

  /** The frozen-on string: year, month and day joined by '-', without zero padding.
      It parses back to the date it was built from, for every date. */
  function DateToString(d: Date): (r: string)
    ensures ParseDate(r) == Some(d)
  {
    JoinedFieldsParse(d);
    IntToString(d.year) + "-" + IntToString(d.month) + "-" + IntToString(d.day)
  }

  /** std::string's operator<: the first differing character decides, and a proper
      prefix comes before the longer string. No string is below itself or below "". */
  predicate StrLess(a: string, b: string)
    ensures StrLess(a, b) ==> a != b && b != []
  {
    if b == [] then false
    else if a == [] then true
    else if a[0] != b[0] then a[0] < b[0]
    else StrLess(a[1..], b[1..])
  }

  // ---------------------------------------------------------------------------
  // The expiry test is a strict total order on dates.

  lemma IsBeforeIsStrictTotalOrder(a: Date, b: Date, c: Date)
    ensures !IsBefore(a, a)
    ensures IsBefore(a, b) && IsBefore(b, c) ==> IsBefore(a, c)
    ensures a != b ==> IsBefore(a, b) || IsBefore(b, a)
  {
  }


  // ---------------------------------------------------------------------------
  // std::string order is a strict total order.


  lemma {:induction false} StrLessTransitive(a: string, b: string, c: string)
    requires StrLess(a, b) && StrLess(b, c)
    ensures StrLess(a, c)
  {
    if a != [] && a[0] == b[0] && b[0] == c[0] {
      StrLessTransitive(a[1..], b[1..], c[1..]);
    }
  }

  lemma {:induction false} StrLessTotal(a: string, b: string)
    ensures a == b || StrLess(a, b) || StrLess(b, a)
  {
    if a != [] && b != [] && a[0] == b[0] {
      StrLessTotal(a[1..], b[1..]);
      if a[1..] == b[1..] {
        assert a == [a[0]] + a[1..] && b == [b[0]] + b[1..];
      }
    }
  }

  lemma StrLessAsymmetric(a: string, b: string)
    requires StrLess(a, b)
    ensures !StrLess(b, a)
  {
    if StrLess(b, a) {
      StrLessTransitive(a, b, a);
    }
  }

  /** Comparing two strings whose first parts have the same length: the first parts
      decide unless they are equal. */
  lemma {:induction false} StrLessConcat(a: string, x: string, b: string, y: string)
    requires |a| == |b|
    ensures StrLess(a + x, b + y) == if a == b then StrLess(x, y) else StrLess(a, b)
  {
    if a == [] {
      assert a + x == x && b + y == y;
    } else {
      assert (a + x)[0] == a[0] && (b + y)[0] == b[0];
      assert (a + x)[1..] == a[1..] + x;
      assert (b + y)[1..] == b[1..] + y;
      StrLessConcat(a[1..], x, b[1..], y);
      assert a == [a[0]] + a[1..] && b == [b[0]] + b[1..];
      assert a == b <==> a[0] == b[0] && a[1..] == b[1..];
    }
  }

  // ---------------------------------------------------------------------------
  // Digit strings.

  /** On digit strings of one length, std::string order is numeric order. */
  lemma {:induction false} SameWidthOrder(a: string, b: string)
    requires |a| == |b| && AllDigits(a) && AllDigits(b)
    ensures StrLess(a, b) <==> DecimalValue(a) < DecimalValue(b)
    ensures a == b <==> DecimalValue(a) == DecimalValue(b)
  {
    if a != [] {
      var n := |a| - 1;
      var a', b' := a[..n], b[..n];
      assert a == a' + [a[n]] && b == b' + [b[n]];
      SameWidthOrder(a', b');
      StrLessConcat(a', [a[n]], b', [b[n]]);
      StrLessTotal(a', b');
      if a' == b' {
        assert a == b <==> a[n] == b[n];
      }
    }
  }

  /** A run of digits ended by the end of the string or by a non-digit is what DigitRun finds. */
  lemma {:induction false} DigitRunIs(s: string, n: nat)
    requires n <= |s| && AllDigits(s[..n]) && (n < |s| ==> !IsDigit(s[n]))
    ensures DigitRun(s) == n
  {
    if n > 0 {
      assert s[1..][..n - 1] == s[..n][1..];
      DigitRunIs(s[1..], n - 1);
    }
  }

  /** A "%d" conversion on a string that starts with n digits ended by a non-digit (or the end). */
  lemma ScanIntDigits(s: string, n: nat)
    requires 0 < n <= |s| && AllDigits(s[..n]) && (n < |s| ==> !IsDigit(s[n]))
    ensures ScanInt(s) == Some((DecimalValue(s[..n]), n))
  {
    assert s[..n][0] == s[0];
    assert s[0..] == s;
    DigitRunIs(s, n);
  }

  /** A "%d" conversion on '-' followed by n digits ended by a non-digit (or the end). */
  lemma ScanMinus(t: string, s: string, n: nat, v: nat)
    requires t != [] && t[0] == '-' && t[1..] == s
    requires 0 < n <= |s| && AllDigits(s[..n]) && (n < |s| ==> !IsDigit(s[n]))
    requires v == DecimalValue(s[..n])
    ensures ScanInt(t) == Some((-(v as int), n + 1))
  {
    DigitRunIs(s, n);
  }

  /** "%d" reads back an integer written by to_string, up to the first non-digit. */
  lemma ScanIntToString(i: int, rest: string)
    requires rest == [] || !IsDigit(rest[0])
    ensures ScanInt(IntToString(i) + rest) == Some((i, |IntToString(i)|))
  {
    var written := IntToString(i);
    if i < 0 {
      var n: nat := -i;
      assert written == "-" + NatToString(n);
      ScanNegativeToString(n, rest);
    } else {
      assert written == NatToString(i);
      ScanNatToString(i, rest);
    }
  }

  lemma ScanNatToString(n: nat, rest: string)
    requires rest == [] || !IsDigit(rest[0])
    ensures ScanInt(NatToString(n) + rest) == Some((n, |NatToString(n)|))
  {
    var digits := NatToString(n);
    NatToStringDigits(n);
    assert (digits + rest)[..|digits|] == digits;
    ScanIntDigits(digits + rest, |digits|);
  }

  lemma ScanNegativeToString(n: nat, rest: string)
    requires rest == [] || !IsDigit(rest[0])
    ensures ScanInt("-" + NatToString(n) + rest) == Some((-(n as int), 1 + |NatToString(n)|))
  {
    var digits := NatToString(n);
    NatToStringDigits(n);
    var tail := digits + rest;
    assert tail[..|digits|] == digits;
    NegativeAssoc(digits, rest);
    var t := "-" + digits + rest;
    assert t[1..] == tail;
    ScanMinus(t, tail, |digits|, n);
  }

  lemma NegativeAssoc(digits: string, rest: string)
    ensures "-" + digits + rest == "-" + (digits + rest)
  {
  }

  lemma {:induction false} NatToStringDigits(n: nat)
    ensures NatToString(n) != [] && AllDigits(NatToString(n))
    ensures DecimalValue(NatToString(n)) == n
  {
    if n >= 10 {
      NatToStringDigits(n / 10);
      var s := NatToString(n);
      assert s[..|s| - 1] == NatToString(n / 10);
    }
  }

  /** One "%d" conversion followed by '-' and the rest of the fields. */
  lemma ScanFieldsStep(a: string, rest: string, v: int, more: nat, vs: seq<int>)
    requires ScanInt(a + "-" + rest) == Some((v, |a|))
    requires ScanFields(rest, more) == vs
    ensures ScanFields(a + "-" + rest, more + 1) == [v] + vs
  {
    var s := a + "-" + rest;
    assert s[|a|] == '-' && s[|a| + 1..] == rest;
  }

  /** The last "%d" conversion. */
  lemma ScanFieldsLast(c: string, d: int)
    requires ScanInt(c) == Some((d, |c|))
    ensures ScanFields(c, 0) == [d]
  {
  }

  lemma DashedAssoc(a: string, b: string, c: string)
    ensures a + "-" + b + "-" + c == a + "-" + (b + "-" + c)
  {
  }

  /** ParseDate from its three conversions: each field is read up to the '-' that ends it. */
  lemma ParseDateFrom(a: string, b: string, c: string, y: int, m: int, d: int)
    requires ScanInt(a + "-" + (b + "-" + c)) == Some((y, |a|))
    requires ScanInt(b + "-" + c) == Some((m, |b|))
    requires ScanInt(c) == Some((d, |c|))
    ensures ParseDate(a + "-" + b + "-" + c) == Some(Date(y, m, d))
  {
    ScanFieldsLast(c, d);
    ScanFieldsStep(b, c, m, 0, [d]);
    ScanFieldsStep(a, b + "-" + c, y, 1, [m] + [d]);
    DashedAssoc(a, b, c);
  }

  /** The three fields of a date written with to_string and joined by '-' parse back. */
  lemma JoinedFieldsParse(d: Date)
    ensures ParseDate(IntToString(d.year) + "-" + IntToString(d.month) + "-" + IntToString(d.day)) == Some(d)
  {
    var ys, ms, ds := IntToString(d.year), IntToString(d.month), IntToString(d.day);
    assert ys + "-" + (ms + "-" + ds) == ys + ("-" + ms + "-" + ds);
    ScanIntToString(d.year, "-" + ms + "-" + ds);
    assert ms + "-" + ds == ms + ("-" + ds);
    ScanIntToString(d.month, "-" + ds);
    assert ds + [] == ds;
    ScanIntToString(d.day, []);
    ParseDateFrom(ys, ms, ds, d.year, d.month, d.day);
  }

  /** Three runs of digits joined by '-' parse to their decimal values. */
  lemma DashedDigitsParse(y: string, m: string, d: string)
    requires y != [] && m != [] && d != [] && AllDigits(y) && AllDigits(m) && AllDigits(d)
    ensures ParseDate(y + "-" + m + "-" + d) == Some(Date(DecimalValue(y), DecimalValue(m), DecimalValue(d)))
  {
    var s := y + "-" + (m + "-" + d);
    assert s[..|y|] == y;
    ScanIntDigits(s, |y|);
    assert (m + "-" + d)[..|m|] == m;
    ScanIntDigits(m + "-" + d, |m|);
    assert d[..|d|] == d;
    ScanIntDigits(d, |d|);
    ParseDateFrom(y, m, d, DecimalValue(y), DecimalValue(m), DecimalValue(d));
  }

  // ---------------------------------------------------------------------------
  // Zero-padded dates.

  /** "YYYY-MM-DD" with exactly four, two and two digits. */
  predicate IsPaddedDate(s: string)
  {
    |s| == 10 && s[4] == '-' && s[7] == '-'
    && AllDigits(s[..4]) && AllDigits(s[5..7]) && AllDigits(s[8..])
  }

  lemma PaddedDateParses(s: string)
    requires IsPaddedDate(s)
    ensures ParseDate(s) == Some(Date(DecimalValue(s[..4]), DecimalValue(s[5..7]), DecimalValue(s[8..])))
  {
    assert s == s[..4] + "-" + s[5..7] + "-" + s[8..];
    DashedDigitsParse(s[..4], s[5..7], s[8..]);
  }

  /** Comparing the fields of two strings from i on that both end at a common separator
      at j: the fields decide unless they are equal, and then what follows j does. */
  lemma StrLessField(s: string, t: string, i: nat, j: nat)
    requires i <= j < |s| && j < |t| && s[j] == t[j]
    ensures StrLess(s[i..], t[i..]) ==
      if s[i..j] != t[i..j] then StrLess(s[i..j], t[i..j]) else StrLess(s[j + 1..], t[j + 1..])
  {
    assert s[i..] == s[i..j] + s[j..] && t[i..] == t[i..j] + t[j..];
    StrLessConcat(s[i..j], s[j..], t[i..j], t[j..]);
    assert s[j..][1..] == s[j + 1..] && t[j..][1..] == t[j + 1..];
  }

  /** Comparing two zero-padded dates field by field. */
  lemma PaddedStrLess(s: string, t: string)
    requires IsPaddedDate(s) && IsPaddedDate(t)
    ensures StrLess(s, t) ==
      if s[..4] != t[..4] then StrLess(s[..4], t[..4])
      else if s[5..7] != t[5..7] then StrLess(s[5..7], t[5..7])
      else StrLess(s[8..], t[8..])
  {
    assert s[0..] == s && t[0..] == t && s[0..4] == s[..4] && t[0..4] == t[..4];
    StrLessField(s, t, 0, 4);
    StrLessField(s, t, 5, 7);
  }

  /** On zero-padded dates, std::string order is exactly the expiry order of the parsed dates. */
  lemma PaddedOrderIsDateOrder(s: string, t: string)
    requires IsPaddedDate(s) && IsPaddedDate(t)
    ensures ParseDate(s).Some? && ParseDate(t).Some?
    ensures StrLess(s, t) <==> IsBefore(ParseDate(s).value, ParseDate(t).value)
  {
    PaddedDateParses(s);
    PaddedDateParses(t);
    PaddedStrLess(s, t);
    SameWidthOrder(s[..4], t[..4]);
    SameWidthOrder(s[5..7], t[5..7]);
    SameWidthOrder(s[8..], t[8..]);
  }
}
