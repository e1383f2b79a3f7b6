/** Field normalisation: the thousands-separated numeric rule of
    `string_to_numeric` and the fixed-format `%m/%d/%Y` date rule. */
module Normalize {
  import opened Types

  // ---------------------------------------------------------------------
  // Digits and decimal integers
  // ---------------------------------------------------------------------

  predicate IsDigit(c: char) {
    '0' <= c <= '9'
  }

  function DigitValue(c: char): (d: nat)
    requires IsDigit(c)
    ensures d < 10
  {
    (c as int) - ('0' as int)
  }

  function DigitChar(d: nat): (c: char)
    requires d < 10
    ensures IsDigit(c) && DigitValue(c) == d
  {
    ('0' as int + d) as char
  }

  predicate AllDigits(s: string) {
    forall i | 0 <= i < |s| :: IsDigit(s[i])
  }

  /** Decimal value of a digit string, most significant digit first. */
  function DigitsValue(s: string): nat
    requires AllDigits(s)
  {
    if s == [] then 0 else DigitsValue(s[..|s| - 1]) * 10 + DigitValue(s[|s| - 1])
  }

  /** Shortest decimal spelling of a natural number; it reads back as `n`. */
  function ShowNat(n: nat): (s: string)
    ensures |s| > 0 && AllDigits(s)
    ensures DigitsValue(s) == n
  {
    if n < 10 then [DigitChar(n)]
    else
      var s := ShowNat(n / 10) + [DigitChar(n % 10)];
      assert s[..|s| - 1] == ShowNat(n / 10);
      s
  }

  predicate IsSign(c: char) {
    c == '+' || c == '-'
  }

  predicate IsUnsigned(s: string) {
    |s| > 0 && AllDigits(s)
  }

  /** The accepted integer grammar: an optional sign and at least one digit. */
  predicate IsIntegerText(s: string) {
    IsUnsigned(s) || (|s| > 1 && IsSign(s[0]) && IsUnsigned(s[1..]))
  }

  function ParseInteger(s: string): (r: Option<int>)
    ensures r.Some? <==> IsIntegerText(s)
  {
    if IsUnsigned(s) then Some(DigitsValue(s))
    else if |s| > 1 && IsSign(s[0]) && IsUnsigned(s[1..]) then
      var v: int := DigitsValue(s[1..]);
      Some(if s[0] == '-' then -v else v)
    else None
  }

  function ShowInteger(n: int): (s: string)
    ensures IsIntegerText(s)
  {
    if n < 0 then "-" + ShowNat(-n) else ShowNat(n)
  }

  /** Every integer's spelling parses back to that integer. */
  lemma ParseShowInteger(n: int)
    ensures ParseInteger(ShowInteger(n)) == Some(n)
  {
    if n < 0 {
      var s := ShowInteger(n);
      assert s[1..] == ShowNat(-n);
      assert !IsUnsigned(s) by { assert !IsDigit(s[0]); }
    }
  }

  // ---------------------------------------------------------------------
  // Comma stripping and the numeric rule
  // ---------------------------------------------------------------------

  /** `x.str.replace(',', '')`: every comma is deleted, every other
      character is kept in order. */
  function StripCommas(s: string): (r: string)
    ensures forall c :: c in r <==> c in s && c != ','
    ensures |r| <= |s|
  {
    if s == [] then []
    else (if s[0] == ',' then [] else [s[0]]) + StripCommas(s[1..])
  }

  /** Every character other than a comma survives as often as it occurs,
      and no comma does. */
  lemma {:induction false} StripCommasCounts(s: string)
    ensures multiset(StripCommas(s)) == multiset(s)[',' := 0]
  {
    if s != [] {
      StripCommasCounts(s[1..]);
      assert s == [s[0]] + s[1..];
    }
  }

  /** On one character the rule deletes a comma and keeps anything else;
      with `StripCommasAppend` this fixes the result, order included. */
  lemma StripCommasChar(c: char)
    ensures StripCommas([c]) == if c == ',' then [] else [c]
  {
  }

  lemma {:induction false} StripCommasAppend(a: string, b: string)
    ensures StripCommas(a + b) == StripCommas(a) + StripCommas(b)
  {
    if a == [] {
      assert a + b == b;
    } else {
      assert (a + b)[1..] == a[1..] + b;
      StripCommasAppend(a[1..], b);
    }
  }

  lemma {:induction false} StripCommasNoCommas(s: string)
    requires ',' !in s
    ensures StripCommas(s) == s
  {
    if s != [] {
      assert s == [s[0]] + s[1..];
      StripCommasNoCommas(s[1..]);
    }
  }

  /** The integers `pd.to_numeric` can hold: it stores an integer text as
      int64 or uint64 and raises "Integer out of range." beyond both. */
  const MinInteger: int := -0x8000_0000_0000_0000
  const MaxInteger: int := 0xFFFF_FFFF_FFFF_FFFF

  predicate InIntegerRange(n: int) {
    MinInteger <= n <= MaxInteger
  }

  /** The numeric rule of the cleaner: strip every comma, then read the
      rest as a number. An empty remainder is NaN (`Missing`); a remainder
      that is not an optionally signed decimal integer, or whose value lies
      outside the 64-bit range, is malformed (None). */
  function Numeric(s: string): (r: Option<Value>)
    ensures r.Some? ==> r.value.Missing? || r.value.Number?
    ensures r.Some? && r.value.Number? ==> InIntegerRange(r.value.n)
    ensures r == Some(Missing) <==> StripCommas(s) == []
  {
    var t := StripCommas(s);
    if t == [] then Some(Missing)
    else match ParseInteger(t)
      case Some(n) => if InIntegerRange(n) then Some(Number(n)) else None
      case None => None
  }

  /** Inserting a comma anywhere never changes the outcome of the rule. */
  lemma NumericIgnoresComma(s: string, i: nat)
    requires i <= |s|
    ensures Numeric(s[..i] + "," + s[i..]) == Numeric(s)
  {
    StripCommasAppend(s[..i] + ",", s[i..]);
    StripCommasAppend(s[..i], ",");
    StripCommasAppend(s[..i], s[i..]);
    assert StripCommas(",") == [];
    assert s[..i] + s[i..] == s;
    assert StripCommas(s[..i] + "," + s[i..]) == StripCommas(s);
  }

  /** The spelling of any integer in the 64-bit range is read back as
      that integer; the spelling of any other integer is rejected. */
  lemma NumericRoundTrip(n: int)
    ensures InIntegerRange(n) ==> Numeric(ShowInteger(n)) == Some(Number(n))
    ensures !InIntegerRange(n) ==> Numeric(ShowInteger(n)) == None
  {
    var s := ShowInteger(n);
    assert ',' !in s by {
      if n < 0 {
        assert s == "-" + ShowNat(-n);
        assert forall k | 0 <= k < |s| :: s[k] != ',' by {
          forall k | 0 <= k < |s| ensures s[k] != ',' {
            if k > 0 { assert s[k] == ShowNat(-n)[k - 1]; }
          }
        }
      } else {
        assert forall k | 0 <= k < |s| :: s[k] != ',' by {
          forall k | 0 <= k < |s| ensures s[k] != ',' {
            assert IsDigit(s[k]);
          }
        }
      }
    }
    StripCommasNoCommas(s);
    ParseShowInteger(n);
  }

  /** Thousands grouping: a comma before every third digit from the right. */
  function GroupThousands(digits: string): (r: string)
    ensures |digits| <= |r|
  {
    if |digits| <= 3 then digits
    else GroupThousands(digits[..|digits| - 3]) + "," + digits[|digits| - 3..]
  }

  lemma NoCommaSplit(s: string, k: nat)
    requires k <= |s| && ',' !in s
    ensures ',' !in s[..k] && ',' !in s[k..] && s[..k] + s[k..] == s
  {
    assert forall c :: c in s[..k] ==> c in s;
    assert forall c :: c in s[k..] ==> c in s;
  }

  lemma {:induction false} StripGroupThousands(digits: string)
    requires ',' !in digits
    ensures StripCommas(GroupThousands(digits)) == digits
  {
    if |digits| <= 3 {
      StripCommasNoCommas(digits);
    } else {
      var head := digits[..|digits| - 3];
      var tail := digits[|digits| - 3..];
      NoCommaSplit(digits, |digits| - 3);
      var g := GroupThousands(head);
      StripGroupThousands(head);
      StripCommasAppend(g + ",", tail);
      StripCommasAppend(g, ",");
      StripCommasChar(',');
      StripCommasNoCommas(tail);
      assert StripCommas(g + "," + tail) == head + tail;
    }
  }

  /** A thousands-grouped spelling such as "1,234,567" reads back as the
      number it spells, when that number fits the unsigned 64-bit range;
      otherwise it is rejected. */
  lemma NumericGroupedRoundTrip(n: nat)
    ensures n <= MaxInteger ==> Numeric(GroupThousands(ShowNat(n))) == Some(Number(n))
    ensures n > MaxInteger ==> Numeric(GroupThousands(ShowNat(n))) == None
  {
    var s := ShowNat(n);
    assert ',' !in s by {
      forall k | 0 <= k < |s| ensures s[k] != ',' {
        assert IsDigit(s[k]);
      }
    }
    StripGroupThousands(s);
  }

  /** A character other than a digit, a comma or a sign anywhere in the
      text makes the rule fail: "abc" is rejected, not converted. */
  lemma NumericRejectsForeignCharacter(s: string, i: nat)
    requires i < |s| && !IsDigit(s[i]) && s[i] != ',' && !IsSign(s[i])
    ensures Numeric(s) == None
  {
    var t := StripCommas(s);
    assert s[i] in s;
    assert s[i] in t;
    var k :| 0 <= k < |t| && t[k] == s[i];
    assert !IsUnsigned(t);
    if k > 0 {
      assert t[1..][k - 1] == t[k];
    }
  }

  lemma NumericRejectsLetters()
    ensures Numeric("abc") == None
  {
    NumericRejectsForeignCharacter("abc", 0);
  }

  lemma NumericGroupedExample()
    ensures Numeric("1,234,567") == Some(Number(1234567))
  {
    assert ShowNat(1) == "1";
    assert ShowNat(12) == "12";
    assert ShowNat(123) == "123";
    assert ShowNat(1234) == "1234";
    assert ShowNat(12345) == "12345";
    assert ShowNat(123456) == "123456";
    assert ShowNat(1234567) == "1234567";
    var seven, four := "1234567", "1234";
    assert seven[..4] == four && seven[4..] == "567";
    assert four[..1] == "1" && four[1..] == "234";
    assert GroupThousands("1") == "1";
    assert GroupThousands(four) == "1" + "," + "234" == "1,234";
    assert GroupThousands(seven) == GroupThousands(four) + "," + "567" == "1,234,567";
    NumericGroupedRoundTrip(1234567);
  }

  // ---------------------------------------------------------------------
  // Splitting on a separator
  // ---------------------------------------------------------------------

  function IndexOf(s: string, c: char): (i: nat)
    requires c in s
    ensures i < |s| && s[i] == c && c !in s[..i]
  {
    if s[0] == c then 0
    else
      var j := IndexOf(s[1..], c);
      assert s[..j + 1] == [s[0]] + s[1..][..j];
      1 + j
  }

  /** The fields of `s` between occurrences of `sep`. */
  function Split(s: string, sep: char): (parts: seq<string>)
    ensures |parts| > 0
    ensures forall k | 0 <= k < |parts| :: sep !in parts[k]
    decreases |s|
  {
    if sep !in s then [s]
    else
      var i := IndexOf(s, sep);
      [s[..i]] + Split(s[i + 1..], sep)
  }

  function Join(parts: seq<string>, sep: char): string
    requires |parts| > 0
  {
    if |parts| == 1 then parts[0] else parts[0] + [sep] + Join(parts[1..], sep)
  }

  lemma IndexOfFirst(a: string, sep: char, b: string)
    requires sep !in a
    ensures sep in a + [sep] + b
    ensures IndexOf(a + [sep] + b, sep) == |a|
  {
    var s := a + [sep] + b;
    assert s[|a|] == sep;
    var i := IndexOf(s, sep);
    assert forall j | 0 <= j < |a| :: s[j] == a[j];
    assert i <= |a| ==> s[..i] == a[..i];
  }

  lemma HeadTail<T>(s: seq<T>)
    requires |s| > 0
    ensures s == [s[0]] + s[1..]
  {
  }

  /** Joining fields that do not contain the separator and splitting
      again gives the fields back. */
  lemma {:induction false} SplitJoin(parts: seq<string>, sep: char)
    requires |parts| > 0
    requires forall k | 0 <= k < |parts| :: sep !in parts[k]
    ensures Split(Join(parts, sep), sep) == parts
  {
    if |parts| > 1 {
      var first, tail := parts[0], parts[1..];
      assert forall k | 0 <= k < |tail| :: sep !in tail[k] by {
        forall k | 0 <= k < |tail| ensures sep !in tail[k] {
          assert tail[k] == parts[k + 1];
        }
      }
      SplitJoin(tail, sep);
      var rest := Join(tail, sep);
      var s := first + [sep] + rest;
      assert Join(parts, sep) == s;
      IndexOfFirst(first, sep, rest);
      assert s[..|first|] == first;
      assert s[|first| + 1..] == rest;
      assert Split(s, sep) == [first] + Split(rest, sep);
      HeadTail(parts);
    }
  }

  /** Every character of a joined string is the separator or belongs to
      one of the fields. */
  lemma {:induction false} JoinCharacters(parts: seq<string>, sep: char, c: char)
    requires |parts| > 0
    requires c in Join(parts, sep)
    ensures c == sep || exists k | 0 <= k < |parts| :: c in parts[k]
  {
    if |parts| > 1 {
      var rest := Join(parts[1..], sep);
      if c !in parts[0] && c != sep {
        assert c in rest;
        JoinCharacters(parts[1..], sep, c);
        var k :| 0 <= k < |parts[1..]| && c in parts[1..][k];
        assert c in parts[k + 1];
      }
    }
  }

  lemma {:induction false} JoinSplit(s: string, sep: char)
    ensures Join(Split(s, sep), sep) == s
    decreases |s|
  {
    if sep in s {
      var i := IndexOf(s, sep);
      JoinSplit(s[i + 1..], sep);
      var parts := Split(s, sep);
      assert parts[1..] == Split(s[i + 1..], sep);
      assert s == s[..i] + [sep] + s[i + 1..];
    }
  }

  // ---------------------------------------------------------------------
  // The `%m/%d/%Y` date rule
  // ---------------------------------------------------------------------

  /** `%m` accepts `1[0-2]|0[1-9]|[1-9]`. */
  predicate IsMonthField(f: string) {
    || (|f| == 1 && '1' <= f[0] <= '9')
    || (|f| == 2 && f[0] == '1' && '0' <= f[1] <= '2')
    || (|f| == 2 && f[0] == '0' && '1' <= f[1] <= '9')
  }

  /** `%d` accepts `3[01]|[12]\d|0[1-9]|[1-9]| [1-9]`. */
  predicate IsDayField(f: string) {
    || (|f| == 1 && '1' <= f[0] <= '9')
    || (|f| == 2 && f[0] == '3' && (f[1] == '0' || f[1] == '1'))
    || (|f| == 2 && (f[0] == '1' || f[0] == '2') && IsDigit(f[1]))
    || (|f| == 2 && f[0] == '0' && '1' <= f[1] <= '9')
    || (|f| == 2 && f[0] == ' ' && '1' <= f[1] <= '9')
  }

  /** `%Y` accepts exactly four digits. */
  predicate IsYearField(f: string) {
    |f| == 4 && AllDigits(f)
  }

  /** `%m` takes one or two digits whose value is a month, 1 to 12, and
      that value is the month. */
  lemma MonthFieldIff(f: string)
    ensures IsMonthField(f) <==> 1 <= |f| <= 2 && AllDigits(f) && 1 <= DigitsValue(f) <= 12
    ensures IsMonthField(f) ==> MonthValue(f) == DigitsValue(f)
  {
    if |f| == 1 && AllDigits(f) {
      assert f[..0] == [];
    }
    if |f| == 2 && AllDigits(f) {
      TwoDigitsValue(f);
    }
  }

  /** `%d` takes one or two digits whose value is a day, 1 to 31, or a
      space followed by a digit from 1 to 9. */
  lemma DayFieldIff(f: string)
    ensures IsDayField(f) <==>
      || (1 <= |f| <= 2 && AllDigits(f) && 1 <= DigitsValue(f) <= 31)
      || (|f| == 2 && f[0] == ' ' && '1' <= f[1] <= '9')
    ensures IsDayField(f) && AllDigits(f) ==> DayValue(f) == DigitsValue(f)
  {
    if |f| == 1 && AllDigits(f) {
      assert f[..0] == [];
    }
    if |f| == 2 && AllDigits(f) {
      TwoDigitsValue(f);
    }
  }

  lemma TwoDigitsValue(f: string)
    requires |f| == 2 && AllDigits(f)
    ensures DigitsValue(f) == DigitValue(f[0]) * 10 + DigitValue(f[1])
  {
    var h := f[..1];
    assert h[..0] == [] && h[0] == f[0];
    assert DigitsValue(h) == DigitValue(f[0]);
    assert f[..|f| - 1] == h;
  }

  lemma FourDigitsValue(f: string)
    requires |f| == 4 && AllDigits(f)
    ensures DigitsValue(f) == DigitsValue(f[..2]) * 100 + DigitsValue(f[2..])
  {
    assert f[..3][..2] == f[..2];
    TwoDigitsValue(f[2..]);
  }

  function MonthValue(f: string): (m: int)
    requires IsMonthField(f)
    ensures 1 <= m <= 12
  {
    if |f| == 2 then TwoDigitsValue(f); DigitsValue(f) else DigitValue(f[0])
  }

  function DayValue(f: string): (d: int)
    requires IsDayField(f)
    ensures 1 <= d <= 31
  {
    if |f| == 1 then DigitValue(f[0])
    else if f[0] == ' ' then DigitValue(f[1])
    else TwoDigitsValue(f); DigitsValue(f)
  }

  function YearValue(f: string): (y: int)
    requires IsYearField(f)
    ensures 0 <= y <= 9999
  {
    FourDigitsValue(f);
    TwoDigitsValue(f[..2]);
    TwoDigitsValue(f[2..]);
    DigitsValue(f)
  }

  predicate IsLeapYear(y: int) {
    y % 4 == 0 && (y % 100 != 0 || y % 400 == 0)
  }

  function DaysInMonth(y: int, m: int): (n: int)
    requires 1 <= m <= 12
    ensures 28 <= n <= 31
  {
    if m == 2 then (if IsLeapYear(y) then 29 else 28)
    else if m == 4 || m == 6 || m == 9 || m == 11 then 30
    else 31
  }

  /** A date the calendar admits, with a year `%Y` can spell. */
  predicate ValidDate(d: Date) {
    && 1 <= d.year <= 9999
    && 1 <= d.month <= 12
    && 1 <= d.day <= DaysInMonth(d.year, d.month)
  }

  /** The three fields of a `%m/%d/%Y` date, read as a date when each
      field has its directive's shape and the calendar admits the result. */
  function DateOfFields(m: string, d: string, y: string): (r: Option<Date>)
    ensures r.Some? ==> ValidDate(r.value)
    ensures r.Some? <==>
      (IsMonthField(m) && IsDayField(d) && IsYearField(y) && ValidDate(Date(YearValue(y), MonthValue(m), DayValue(d))))
    ensures r.Some? ==> r.value == Date(YearValue(y), MonthValue(m), DayValue(d))
  {
    if !IsMonthField(m) || !IsDayField(d) || !IsYearField(y) then None
    else
      var date := Date(YearValue(y), MonthValue(m), DayValue(d));
      if 1 <= date.year && date.day <= DaysInMonth(date.year, date.month) then Some(date) else None
  }

  /** `to_datetime(x, format='%m/%d/%Y')` on one value: the whole text must
      be month, day and year fields separated by '/', and the fields must
      name a real calendar date; there is no fallback format. */
  function ParseDate(s: string): (r: Option<Date>)
    ensures r.Some? ==> ValidDate(r.value)
    ensures r.Some? ==> |Split(s, '/')| == 3
  {
    var parts := Split(s, '/');
    if |parts| != 3 then None else DateOfFields(parts[0], parts[1], parts[2])
  }

  /** The date rule on one cell: an empty text is NaT (`Missing`), any
      other text must parse as `%m/%d/%Y`. */
  function DateCell(s: string): (r: Option<Value>)
    ensures r.Some? ==> r.value.Missing? || r.value.Day?
    ensures r.Some? && r.value.Day? ==> ValidDate(r.value.date)
  {
    if s == [] then Some(Missing)
    else match ParseDate(s)
      case Some(d) => Some(Day(d))
      case None => None
  }

  function Pad2(n: nat): (s: string)
    requires n < 100
    ensures |s| == 2 && AllDigits(s) && DigitsValue(s) == n
  {
    var s := [DigitChar(n / 10), DigitChar(n % 10)];
    TwoDigitsValue(s);
    s
  }

  function Pad4(n: nat): (s: string)
    requires n < 10000
    ensures |s| == 4 && AllDigits(s) && DigitsValue(s) == n
  {
    var s := Pad2(n / 100) + Pad2(n % 100);
    assert s[..2] == Pad2(n / 100) && s[2..] == Pad2(n % 100);
    FourDigitsValue(s);
    s
  }

  /** The canonical `%m/%d/%Y` spelling: zero-padded month and day. */
  function FormatDate(d: Date): string
    requires ValidDate(d)
  {
    Pad2(d.month) + "/" + Pad2(d.day) + "/" + Pad4(d.year)
  }

  lemma NoSlashInDigits(s: string)
    requires AllDigits(s)
    ensures '/' !in s
  {
    forall k | 0 <= k < |s| ensures s[k] != '/' {
      assert IsDigit(s[k]);
    }
  }

  /** Every valid date survives formatting and parsing unchanged. */
  lemma ParseFormatDate(d: Date)
    requires ValidDate(d)
    ensures ParseDate(FormatDate(d)) == Some(d)
  {
    SplitFormatDate(d);
    PaddedMonth(d.month);
    PaddedDay(d.day);
    PaddedYear(d.year);
  }

  lemma PaddedMonth(n: nat)
    requires 1 <= n <= 12
    ensures IsMonthField(Pad2(n)) && MonthValue(Pad2(n)) == n
  {
    TwoDigitsValue(Pad2(n));
  }

  lemma PaddedDay(n: nat)
    requires 1 <= n <= 31
    ensures IsDayField(Pad2(n)) && DayValue(Pad2(n)) == n
  {
    TwoDigitsValue(Pad2(n));
  }

  lemma PaddedYear(n: nat)
    requires n <= 9999
    ensures IsYearField(Pad4(n)) && YearValue(Pad4(n)) == n
  {
  }

  lemma SplitFormatDate(d: Date)
    requires ValidDate(d)
    ensures Split(FormatDate(d), '/') == [Pad2(d.month), Pad2(d.day), Pad4(d.year)]
  {
    var m, dd, y := Pad2(d.month), Pad2(d.day), Pad4(d.year);
    NoSlashInDigits(m);
    NoSlashInDigits(dd);
    NoSlashInDigits(y);
    var parts := [m, dd, y];
    assert parts[1..][1..] == [y];
    assert Join(parts[1..][1..], '/') == y;
    assert Join(parts[1..], '/') == dd + "/" + y;
    assert Join(parts, '/') == FormatDate(d);
    SplitJoin(parts, '/');
  }

  predicate IsDateFieldChar(c: char) {
    IsDigit(c) || c == ' '
  }

  lemma AcceptedFieldChars(m: string, d: string, y: string)
    requires DateOfFields(m, d, y).Some?
    ensures forall j | 0 <= j < |m| :: IsDateFieldChar(m[j])
    ensures forall j | 0 <= j < |d| :: IsDateFieldChar(d[j])
    ensures forall j | 0 <= j < |y| :: IsDateFieldChar(y[j])
  {
  }

  lemma InOneOfThreeFields(parts: seq<string>, sep: char, c: char)
    requires |parts| == 3 && c in Join(parts, sep) && c != sep
    ensures c in parts[0] || c in parts[1] || c in parts[2]
  {
    JoinCharacters(parts, sep, c);
    var k :| 0 <= k < |parts| && c in parts[k];
  }

  lemma FieldsRejectForeignCharacter(m: string, d: string, y: string, c: char)
    requires !IsDateFieldChar(c) && (c in m || c in d || c in y)
    ensures DateOfFields(m, d, y) == None
  {
    if DateOfFields(m, d, y).Some? {
      AcceptedFieldChars(m, d, y);
    }
  }

  /** Only digits, '/' and the space `%d` tolerates can appear in an
      accepted date: "1998-03-15" is rejected. */
  lemma ParseDateRejectsForeignCharacter(s: string, i: nat)
    requires i < |s| && !IsDigit(s[i]) && s[i] != '/' && s[i] != ' '
    ensures ParseDate(s) == None
  {
    var parts := Split(s, '/');
    var c := s[i];
    if |parts| == 3 {
      JoinSplit(s, '/');
      InOneOfThreeFields(parts, '/', c);
      FieldsRejectForeignCharacter(parts[0], parts[1], parts[2], c);
    }
  }

  lemma DateExamples()
    ensures ParseDate("03/15/1998") == Some(Date(1998, 3, 15))
    ensures ParseDate("1998-03-15") == None
  {
    ParseFormatDate(Date(1998, 3, 15));
    FormatDateExample();
    ParseDateRejectsForeignCharacter("1998-03-15", 4);
  }

  lemma FormatDateExample()
    ensures FormatDate(Date(1998, 3, 15)) == "03/15/1998"
  {
    assert Pad2(3) == "03" && Pad2(15) == "15";
    assert Pad4(1998) == Pad2(19) + Pad2(98) == "1998";
  }
}
