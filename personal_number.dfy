/**
 * Norwegian national identity numbers (fødselsnummer): DDMMYY, a three-digit
 * individual number and two mod-11 control digits. Cleaning, validation,
 * formatting, masking, gender and birth date, and a mock generator.
 */
module PersonalNumber {
  import opened Wrappers

  // ---------------------------------------------------------------------------
  // Cleaning: every white-space character and every dash is removed

  /** The characters of the JavaScript regular-expression class `\s`. */
  predicate IsSpace(c: char)
  {
    || c == ' ' || c == '\t' || c == '\n' || c == '\U{B}' || c == '\U{C}' || c == '\r'
    || c == '\U{A0}' || c == '\U{1680}' || ('\U{2000}' <= c <= '\U{200A}')
    || c == '\U{2028}' || c == '\U{2029}' || c == '\U{202F}' || c == '\U{205F}'
    || c == '\U{3000}' || c == '\U{FEFF}'
  }

  /** A character the cleaning step removes. */
  predicate IsSeparator(c: char)
  {
    IsSpace(c) || c == '-'
  }

  /** The input without white space and dashes, in its order. */
  function Clean(s: string): (r: string)
    ensures |r| <= |s|
    ensures forall i :: 0 <= i < |r| ==> !IsSeparator(r[i])
  {
    if s == [] then []
    else (if IsSeparator(s[0]) then [] else [s[0]]) + Clean(s[1..])
  }

  /** Cleaning keeps a string that has no separators. */
  lemma {:induction false} CleanKeepsPlain(s: string)
    requires forall i :: 0 <= i < |s| ==> !IsSeparator(s[i])
    ensures Clean(s) == s
  {
    if s != [] {
      CleanKeepsPlain(s[1..]);
    }
  }

  /**
   * Cleaning keeps exactly the characters that are not separators. With
   * CleanAppend and the length bound this fixes Clean on every string: a
   * one-character string is kept when it is not a separator and dropped
   * when it is.
   */
  lemma {:induction false} CleanKeepsOthers(s: string)
    ensures forall ch :: ch in Clean(s) <==> ch in s && !IsSeparator(ch)
  {
    if s != [] {
      CleanKeepsOthers(s[1..]);
      assert s == [s[0]] + s[1..];
    }
  }

  /** Dashes and white space go, every other character stays, in order: "12-34" cleans to "1234". */
  lemma CleanExample()
    ensures Clean("12-34") == "1234"
  {
  }

  /** Cleaning twice is cleaning once. */
  lemma CleanIdempotent(s: string)
    ensures Clean(Clean(s)) == Clean(s)
  {
    CleanKeepsPlain(Clean(s));
  }

  /** Cleaning works piecewise over a concatenation. */
  lemma {:induction false} CleanAppend(a: string, b: string)
    ensures Clean(a + b) == Clean(a) + Clean(b)
  {
    if a != [] {
      assert (a + b)[1..] == a[1..] + b;
      CleanAppend(a[1..], b);
    } else {
      assert a + b == b;
    }
  }

  // ---------------------------------------------------------------------------
  // Digits and decimal values

  predicate IsDigit(c: char)
  {
    '0' <= c <= '9'
  }

  predicate AllDigits(s: string)
  {
    forall i :: 0 <= i < |s| ==> IsDigit(s[i])
  }

  /** The shape the validator's regular expression `^\d{11}$` accepts. */
  predicate WellFormed(c: string)
  {
    |c| == 11 && AllDigits(c)
  }

  function DigitValue(c: char): (d: int)
    requires IsDigit(c)
    ensures 0 <= d <= 9
  {
    c as int - '0' as int
  }

  function DigitChar(d: int): (c: char)
    requires 0 <= d <= 9
    ensures IsDigit(c) && DigitValue(c) == d
  {
    ('0' as int + d) as char
  }

  /** Digit values are numbers from 0 to 9. */
  predicate IsDigitSeq(d: seq<int>)
  {
    forall i :: 0 <= i < |d| ==> 0 <= d[i] <= 9
  }

  /** The digit values of a string of digits, as `split('').map(Number)` gives them. */
  function Digits(s: string): (d: seq<int>)
    requires AllDigits(s)
    ensures |d| == |s| && IsDigitSeq(d)
    ensures forall i :: 0 <= i < |s| ==> d[i] == DigitValue(s[i])
  {
    seq(|s|, i requires 0 <= i < |s| => DigitValue(s[i]))
  }

  /** Digits works piecewise over a concatenation. */
  lemma DigitsAppend(a: string, b: string)
    requires AllDigits(a) && AllDigits(b)
    ensures AllDigits(a + b) && Digits(a + b) == Digits(a) + Digits(b)
  {
    assert AllDigits(a + b) by {
      forall i | 0 <= i < |a + b| ensures IsDigit((a + b)[i]) {
        if i >= |a| { assert (a + b)[i] == b[i - |a|]; }
      }
    }
  }

  /** The number a string of decimal digits denotes. */
  function DecimalValue(s: string): (n: nat)
    requires AllDigits(s)
  {
    if s == [] then 0 else DecimalValue(s[..|s| - 1]) * 10 + DigitValue(s[|s| - 1])
  }

  lemma DecimalValue2(s: string)
    requires |s| == 2 && AllDigits(s)
    ensures DecimalValue(s) == 10 * DigitValue(s[0]) + DigitValue(s[1])
  {
    var p := s[..1];
    assert DecimalValue(s) == DecimalValue(p) * 10 + DigitValue(s[1]);
    assert p[..0] == [] && p[0] == s[0];
    assert DecimalValue(p) == DecimalValue(p[..0]) * 10 + DigitValue(p[0]);
  }

  lemma DecimalValue3(s: string)
    requires |s| == 3 && AllDigits(s)
    ensures DecimalValue(s) == 100 * DigitValue(s[0]) + 10 * DigitValue(s[1]) + DigitValue(s[2])
  {
    var p := s[..2];
    DecimalValue2(p);
    assert p[0] == s[0] && p[1] == s[1];
    assert DecimalValue(s) == DecimalValue(p) * 10 + DigitValue(s[2]);
  }

  /** The longest prefix of s made of decimal digits. */
  function LeadingDigits(s: string): (r: string)
    ensures |r| <= |s| && r == s[..|r|] && AllDigits(r)
    ensures |r| < |s| ==> !IsDigit(s[|r|])
    ensures AllDigits(s) ==> r == s
  {
    if s != [] && IsDigit(s[0]) then [s[0]] + LeadingDigits(s[1..]) else []
  }

  /**
   * JavaScript `parseInt(s, 10)` on a string without leading white space:
   * an optional sign, then the longest run of digits; None stands for NaN.
   */
  function ParseInt(s: string): (r: Option<int>)
    ensures AllDigits(s) && s != [] ==> r == Some(DecimalValue(s))
    ensures s == [] ==> r.None?
  {
    var signed := s != [] && (s[0] == '-' || s[0] == '+');
    var digits := LeadingDigits(if signed then s[1..] else s);
    if digits == [] then None
    else
      var n: int := DecimalValue(digits);
      if signed && s[0] == '-' then Some(-n) else Some(n)
  }

  // ---------------------------------------------------------------------------
  // Fields of a well-formed number

  function Day(c: string): int
    requires WellFormed(c)
  {
    DecimalValue(c[0..2])
  }

  function Month(c: string): int
    requires WellFormed(c)
  {
    DecimalValue(c[2..4])
  }

  /** The two-digit year YY. */
  function YearDigits(c: string): int
    requires WellFormed(c)
  {
    DecimalValue(c[4..6])
  }

  /** The three-digit individual number after the date. */
  function IndividualNumber(c: string): (n: int)
    requires WellFormed(c)
    ensures 0 <= n <= 999
  {
    DecimalValue3(c[6..9]);
    DecimalValue(c[6..9])
  }

  // ---------------------------------------------------------------------------
  // Control digits

  const K1Weights: seq<int> := [3, 7, 6, 1, 8, 9, 4, 5, 2]
  const K2Weights: seq<int> := [5, 4, 3, 2, 7, 6, 5, 4, 3, 2]

  /** The sum of d[i] * w[i]. */
  function WeightedSum(d: seq<int>, w: seq<int>): (r: int)
    requires |d| == |w|
    ensures IsDigitSeq(d) && (forall i :: 0 <= i < |w| ==> w[i] >= 0) ==> r >= 0
  {
    if d == [] then 0
    else WeightedSum(d[..|d| - 1], w[..|w| - 1]) + d[|d| - 1] * w[|w| - 1]
  }

  /**
   * The control digit for a weighted sum: 11 minus the sum modulo 11, with
   * 11 read as 0. It is the k that makes sum + k divisible by 11; a result
   * of 10 matches no digit.
   */
  function ControlDigit(sum: int): (k: int)
    requires sum >= 0
    ensures 0 <= k <= 10
    ensures (sum + k) % 11 == 0
  {
    var k := 11 - sum % 11;
    if k == 11 then 0 else k
  }

  /** Exactly one k in 0..10 makes sum + k divisible by 11. */
  lemma ControlDigitUnique(sum: int, k: int)
    requires sum >= 0 && 0 <= k <= 10
    ensures ControlDigit(sum) == k <==> (sum + k) % 11 == 0
  {
    var m := sum % 11;
    assert sum + k == 11 * (sum / 11) + (m + k);
    assert (sum + k) % 11 == (m + k) % 11;
  }

  /** Both control digits of eleven digit values match. */
  predicate ChecksumsValid(d: seq<int>)
    requires |d| == 11 && IsDigitSeq(d)
    ensures ChecksumsValid(d) ==>
              && (WeightedSum(d[..9], K1Weights) + d[9]) % 11 == 0
              && (WeightedSum(d[..10], K2Weights) + d[10]) % 11 == 0
  {
    && ControlDigit(WeightedSum(d[..9], K1Weights)) == d[9]
    && ControlDigit(WeightedSum(d[..10], K2Weights)) == d[10]
  }

  /**
   * The control digits are valid exactly when both weighted sums, the
   * control digit counted with weight 1, are divisible by 11; a computed 10
   * never matches.
   */
  lemma ChecksumsValidIffMod11(d: seq<int>)
    requires |d| == 11 && IsDigitSeq(d)
    ensures ChecksumsValid(d) <==>
              && (WeightedSum(d[..9], K1Weights) + d[9]) % 11 == 0
              && (WeightedSum(d[..10], K2Weights) + d[10]) % 11 == 0
    ensures ControlDigit(WeightedSum(d[..9], K1Weights)) == 10 ==> !ChecksumsValid(d)
    ensures ControlDigit(WeightedSum(d[..10], K2Weights)) == 10 ==> !ChecksumsValid(d)
  {
    ControlDigitUnique(WeightedSum(d[..9], K1Weights), d[9]);
    ControlDigitUnique(WeightedSum(d[..10], K2Weights), d[10]);
  }

  /** One step of the summing loops: the next weighted digit is added. */
  lemma WeightedSumStep(d: seq<int>, w: seq<int>, i: nat)
    requires i < |w| <= |d|
    ensures WeightedSum(d[..i + 1], w[..i + 1]) == WeightedSum(d[..i], w[..i]) + d[i] * w[i]
  {
    assert d[..i + 1][..i] == d[..i] && w[..i + 1][..i] == w[..i];
  }

  /** The check of both control digits of an 11-digit string, one summing loop each. */
  method ValidateChecksums(personalNumber: string) returns (ok: bool)
    requires WellFormed(personalNumber)
    ensures ok == ChecksumsValid(Digits(personalNumber))
  {
    var digits := Digits(personalNumber);
    var k1Sum := 0;
    for i := 0 to 9
      invariant k1Sum == WeightedSum(digits[..i], K1Weights[..i])
    {
      WeightedSumStep(digits, K1Weights, i);
      k1Sum := k1Sum + digits[i] * K1Weights[i];
    }
    assert K1Weights[..9] == K1Weights;
    var k1 := 11 - k1Sum % 11;
    var k1Valid := if k1 == 11 then 0 else k1;
    if k1Valid != digits[9] {
      return false;
    }
    var k2Sum := 0;
    for i := 0 to 10
      invariant k2Sum == WeightedSum(digits[..i], K2Weights[..i])
    {
      WeightedSumStep(digits, K2Weights, i);
      k2Sum := k2Sum + digits[i] * K2Weights[i];
    }
    assert K2Weights[..10] == K2Weights;
    var k2 := 11 - k2Sum % 11;
    var k2Valid := if k2 == 11 then 0 else k2;
    ok := k2Valid == digits[10];
  }

  // ---------------------------------------------------------------------------
  // Validation

  /** The input, once cleaned, is eleven digits with a plausible day and month and valid control digits. */
  predicate IsValidPersonalNumber(s: string)
    ensures IsValidPersonalNumber(s) ==>
              && GenderOf(s).Some?
              && BirthDateOf(s).Date?
              && 1 <= BirthDateOf(s).day <= 31
              && 1 <= BirthDateOf(s).month <= 12
  {
    var c := Clean(s);
    && WellFormed(c)
    && (BirthYearRanges(s);
        && 1 <= Day(c) <= 31
        && 1 <= Month(c) <= 12
        && ChecksumsValid(Digits(c)))
  }

  /** The validator: clean, check the shape, the day and month ranges, then the control digits. */
  method ValidatePersonalNumber(personalNumber: string) returns (ok: bool)
    ensures ok == IsValidPersonalNumber(personalNumber)
    ensures !WellFormed(Clean(personalNumber)) ==> !ok
    ensures ok ==> 1 <= Day(Clean(personalNumber)) <= 31 && 1 <= Month(Clean(personalNumber)) <= 12
  {
    var cleaned := Clean(personalNumber);
    if !WellFormed(cleaned) {
      return false;
    }
    var day := DecimalValue(cleaned[0..2]);
    var month := DecimalValue(cleaned[2..4]);
    if day < 1 || day > 31 || month < 1 || month > 12 {
      return false;
    }
    ok := ValidateChecksums(cleaned);
  }

  /** Validity in the terms of the standard: shape, date ranges and both mod-11 sums. */
  lemma ValidIffMod11(s: string)
    ensures IsValidPersonalNumber(s) <==>
              && WellFormed(Clean(s))
              && 1 <= Day(Clean(s)) <= 31
              && 1 <= Month(Clean(s)) <= 12
              && (WeightedSum(Digits(Clean(s))[..9], K1Weights) + Digits(Clean(s))[9]) % 11 == 0
              && (WeightedSum(Digits(Clean(s))[..10], K2Weights) + Digits(Clean(s))[10]) % 11 == 0
  {
    var c := Clean(s);
    if WellFormed(c) {
      ChecksumsValidIffMod11(Digits(c));
    }
  }

  /** Separators do not matter: a number validates exactly when its cleaned form does. */
  lemma ValidIgnoresSeparators(s: string)
    ensures IsValidPersonalNumber(s) == IsValidPersonalNumber(Clean(s))
  {
    CleanIdempotent(s);
  }

  // ---------------------------------------------------------------------------
  // Formatting and masking

  /** "DDMMYY XXXXX" for an 11-character cleaned form; otherwise the input unchanged. */
  function FormatPersonalNumber(s: string): (r: string)
    ensures |Clean(s)| == 11 ==> |r| == 12 && r[6] == ' ' && r[..6] + r[7..] == Clean(s)
    ensures |Clean(s)| != 11 ==> r == s
  {
    var c := Clean(s);
    if |c| != 11 then s
    else
      var r := c[..6] + " " + c[6..];
      assert r[..6] == c[..6] && r[7..] == c[6..];
      assert c == c[..6] + c[6..];
      r
  }

  /** Cleaning a formatted number gives back the cleaned input. */
  lemma FormatKeepsCleanedForm(s: string)
    ensures Clean(FormatPersonalNumber(s)) == Clean(s)
  {
    var c := Clean(s);
    if |c| == 11 {
      var front, back := c[..6], c[6..];
      assert Clean(front) == front by { CleanKeepsPlain(front); }
      assert Clean(" " + back) == back by {
        CleanAppend(" ", back);
        CleanKeepsPlain(back);
        assert Clean(" ") == [];
      }
      assert Clean(front + (" " + back)) == c by {
        CleanAppend(front, " " + back);
        assert front + back == c;
      }
      assert FormatPersonalNumber(s) == front + (" " + back);
    }
  }

  /** Formatting does not change validity. */
  lemma FormatKeepsValidity(s: string)
    ensures IsValidPersonalNumber(FormatPersonalNumber(s)) == IsValidPersonalNumber(s)
  {
    FormatKeepsCleanedForm(s);
  }

  /** "****** XXXXX" for an 11-character cleaned form; otherwise eleven asterisks. */
  function MaskPersonalNumber(s: string): (r: string)
    ensures |Clean(s)| == 11 ==>
              && |r| == 12
              && (forall i :: 0 <= i < 6 ==> r[i] == '*')
              && r[6] == ' '
              && r[7..] == Clean(s)[6..]
    ensures |Clean(s)| != 11 ==> |r| == 11 && forall i :: 0 <= i < 11 ==> r[i] == '*'
  {
    var c := Clean(s);
    if |c| != 11 then "***********" else "****** " + c[6..]
  }

  /** The mask hides the date and shows what the formatted number shows after it. */
  lemma MaskMatchesFormatTail(s: string)
    requires |Clean(s)| == 11
    ensures MaskPersonalNumber(s)[6..] == FormatPersonalNumber(s)[6..]
  {
    var m, f := MaskPersonalNumber(s), FormatPersonalNumber(s);
    assert m[6..] == [' '] + m[7..] && f[6..] == [' '] + f[7..];
  }

  // ---------------------------------------------------------------------------
  // Gender and birth date

  datatype Gender = Female | Male

  /**
   * The gender the number encodes: female for an even individual number,
   * male otherwise; None when the cleaned form is not 11 characters.
   */
  function GenderOf(s: string): (g: Option<Gender>)
    ensures g.Some? <==> |Clean(s)| == 11
  {
    var c := Clean(s);
    if |c| != 11 then None
    else match ParseInt(c[6..9])
      case Some(n) => if n % 2 == 0 then Some(Female) else Some(Male)
      case None => Some(Male)
  }

  /** For eleven digits, the gender is the parity of the individual number. */
  lemma GenderIsParity(s: string)
    requires WellFormed(Clean(s))
    ensures GenderOf(s) == Some(if IndividualNumber(Clean(s)) % 2 == 0 then Female else Male)
  {
    var c := Clean(s);
    assert AllDigits(c[6..9]);
  }

  /**
   * What the birth-date function hands to the Date constructor: NotAPersonalNumber
   * for null, InvalidDate when day, month or year do not parse.
   */
  datatype BirthDate = NotAPersonalNumber | InvalidDate | Date(year: int, month: int, day: int)

  /** The full year for a two-digit year and the individual number. */
  function CenturyYear(yy: int, individual: int): (y: int)
    ensures y % 100 == yy % 100
    ensures 0 <= yy <= 99 && (0 <= individual <= 499 || 900 <= individual <= 999) ==> 1900 <= y <= 1999
    ensures 0 <= yy <= 99 && 500 <= individual <= 749 ==>
              if yy < 40 then 2000 <= y <= 2039 else 1940 <= y <= 1999
    ensures 750 <= individual <= 899 ==> y == yy
  {
    if 0 <= individual <= 499 then yy + 1900
    else if 500 <= individual <= 749 then yy + (if yy < 40 then 2000 else 1900)
    else if 900 <= individual <= 999 then yy + 1900
    else yy
  }

  /** The birth date a number encodes, as a (year, month, day) triple. */
  function BirthDateOf(s: string): (r: BirthDate)
    ensures r.NotAPersonalNumber? <==> |Clean(s)| != 11
  {
    var c := Clean(s);
    if |c| != 11 then NotAPersonalNumber
    else
      var day, month, yy, individual := ParseInt(c[0..2]), ParseInt(c[2..4]), ParseInt(c[4..6]), ParseInt(c[6..9]);
      if day.None? || month.None? || yy.None? then InvalidDate
      else Date(if individual.Some? then CenturyYear(yy.value, individual.value) else yy.value,
                month.value, day.value)
  }

  /** For eleven digits: the date fields, and the century chosen by the individual number. */
  lemma BirthYearRanges(s: string)
    requires WellFormed(Clean(s))
    ensures BirthDateOf(s).Date?
    ensures BirthDateOf(s).day == Day(Clean(s)) && BirthDateOf(s).month == Month(Clean(s))
    ensures var yy, n, y := YearDigits(Clean(s)), IndividualNumber(Clean(s)), BirthDateOf(s).year;
            && (n <= 499 ==> y == 1900 + yy)
            && (500 <= n <= 749 ==> y == (if yy < 40 then 2000 else 1900) + yy)
            && (750 <= n <= 899 ==> y == yy)
            && (900 <= n ==> y == 1900 + yy)
  {
    var c := Clean(s);
    assert AllDigits(c[0..2]) && AllDigits(c[2..4]) && AllDigits(c[4..6]) && AllDigits(c[6..9]);
  }

  // ---------------------------------------------------------------------------
  // Mock numbers

  /** The individual number for a mock: the draw, moved up by one to be odd for male or even for female. */
  function MockIndividual(gender: string, draw: int): (n: int)
    ensures draw <= n <= draw + 1
    ensures gender == "male" ==> n % 2 == 1
    ensures gender == "female" ==> n % 2 == 0
    ensures gender != "male" && gender != "female" ==> n == draw
  {
    if gender == "male" && draw % 2 == 0 then draw + 1
    else if gender == "female" && draw % 2 == 1 then draw + 1
    else draw
  }

  /** n as two digits, zero-padded. */
  function TwoDigits(n: int): (r: string)
    requires 0 <= n <= 99
    ensures |r| == 2 && AllDigits(r) && DecimalValue(r) == n
  {
    var r := [DigitChar(n / 10), DigitChar(n % 10)];
    DecimalValue2(r);
    r
  }

  /** n as three digits, zero-padded. */
  function ThreeDigits(n: int): (r: string)
    requires 0 <= n <= 999
    ensures |r| == 3 && AllDigits(r) && DecimalValue(r) == n
  {
    var r := [DigitChar(n / 100), DigitChar(n / 10 % 10), DigitChar(n % 10)];
    DecimalValue3(r);
    r
  }

  /** The caller-side ranges of a mock: a calendar day and month, a four-digit year, a draw below 500. */
  predicate MockInputs(day: int, month: int, year: int, draw: int)
  {
    1 <= day <= 31 && 1 <= month <= 12 && 1000 <= year <= 9999 && 0 <= draw < 500
  }

  /** DDMMYY followed by the individual number. */
  function MockPrefix(day: int, month: int, year: int, gender: string, draw: int): (r: string)
    requires MockInputs(day, month, year, draw)
    ensures |r| == 9 && AllDigits(r)
  {
    var t := TwoDigits(day) + TwoDigits(month) + TwoDigits(year % 100);
    var r := t + ThreeDigits(MockIndividual(gender, draw));
    DigitsAppend(TwoDigits(day), TwoDigits(month));
    DigitsAppend(TwoDigits(day) + TwoDigits(month), TwoDigits(year % 100));
    DigitsAppend(t, ThreeDigits(MockIndividual(gender, draw)));
    r
  }

  /** The mock's control digit: the computed one, with an unusable 10 replaced by 0. */
  function MockControl(sum: int): (k: int)
    requires sum >= 0
    ensures 0 <= k <= 9
  {
    var k := ControlDigit(sum);
    if k == 10 then 0 else k
  }

  /** The mock number: prefix, then K1 over the prefix, then K2 over prefix and K1. */
  function MockPersonalNumber(day: int, month: int, year: int, gender: string, draw: int): (r: string)
    requires MockInputs(day, month, year, draw)
    ensures WellFormed(r)
  {
    var prefix := MockPrefix(day, month, year, gender, draw);
    var k1 := MockControl(WeightedSum(Digits(prefix), K1Weights));
    var withK1 := prefix + [DigitChar(k1)];
    var k2 := MockControl(WeightedSum(Digits(withK1), K2Weights));
    withK1 + [DigitChar(k2)]
  }

  /** Neither control digit of the mock computes to the unusable 10. */
  predicate NoControlTen(day: int, month: int, year: int, gender: string, draw: int)
    requires MockInputs(day, month, year, draw)
  {
    var prefix := MockPrefix(day, month, year, gender, draw);
    var k1 := ControlDigit(WeightedSum(Digits(prefix), K1Weights));
    && k1 != 10
    && ControlDigit(WeightedSum(Digits(prefix + [DigitChar(k1)]), K2Weights)) != 10
  }

  /** The generator, with the random draw as a parameter and one summing loop per control digit. */
  method GenerateMockPersonalNumber(day: int, month: int, year: int, gender: string, draw: int)
    returns (personalNumber: string)
    requires MockInputs(day, month, year, draw)
    ensures personalNumber == MockPersonalNumber(day, month, year, gender, draw)
  {
    var partial := MockPrefix(day, month, year, gender, draw);
    var digits := Digits(partial);
    var k1Sum := 0;
    for i := 0 to 9
      invariant k1Sum == WeightedSum(digits[..i], K1Weights[..i])
    {
      WeightedSumStep(digits, K1Weights, i);
      k1Sum := k1Sum + digits[i] * K1Weights[i];
    }
    assert digits[..9] == digits && K1Weights[..9] == K1Weights;
    var k1 := 11 - k1Sum % 11;
    if k1 == 11 { k1 := 0; }
    if k1 == 10 { k1 := 0; }
    assert k1 == MockControl(WeightedSum(Digits(partial), K1Weights));
    var withK1 := partial + [DigitChar(k1)];
    var digitsWithK1 := Digits(withK1);
    var k2Sum := 0;
    for i := 0 to 10
      invariant k2Sum == WeightedSum(digitsWithK1[..i], K2Weights[..i])
    {
      WeightedSumStep(digitsWithK1, K2Weights, i);
      k2Sum := k2Sum + digitsWithK1[i] * K2Weights[i];
    }
    assert digitsWithK1[..10] == digitsWithK1 && K2Weights[..10] == K2Weights;
    var k2 := 11 - k2Sum % 11;
    if k2 == 11 { k2 := 0; }
    if k2 == 10 { k2 := 0; }
    assert k2 == MockControl(WeightedSum(Digits(withK1), K2Weights));
    personalNumber := withK1 + [DigitChar(k2)];
  }

  /** A string of digits is its own cleaned form. */
  lemma DigitsAreClean(s: string)
    requires AllDigits(s)
    ensures Clean(s) == s
  {
    forall i | 0 <= i < |s| ensures !IsSeparator(s[i]) {
      assert IsDigit(s[i]);
    }
    CleanKeepsPlain(s);
  }

  /** The fields of a mock number are the inputs it was made from. */
  lemma MockFields(day: int, month: int, year: int, gender: string, draw: int)
    requires MockInputs(day, month, year, draw)
    ensures var pn := MockPersonalNumber(day, month, year, gender, draw);
            && Clean(pn) == pn
            && Day(pn) == day && Month(pn) == month && YearDigits(pn) == year % 100
            && IndividualNumber(pn) == MockIndividual(gender, draw)
  {
    var pn := MockPersonalNumber(day, month, year, gender, draw);
    DigitsAreClean(pn);
    var a, b, c := TwoDigits(day), TwoDigits(month), TwoDigits(year % 100);
    var d := ThreeDigits(MockIndividual(gender, draw));
    var prefix := MockPrefix(day, month, year, gender, draw);
    assert prefix == a + b + c + d;
    assert pn[..9] == prefix;
    assert pn[0..2] == a && pn[2..4] == b && pn[4..6] == c && pn[6..9] == d;
  }

  /** A plain 11-digit number's gender is the parity of its individual number. */
  lemma GenderOfPlain(c: string, n: int)
    requires WellFormed(c) && Clean(c) == c && IndividualNumber(c) == n
    ensures GenderOf(c) == Some(if n % 2 == 0 then Female else Male)
  {
    GenderIsParity(c);
  }

  /** A mock number's gender is the requested one. */
  lemma MockGender(day: int, month: int, year: int, gender: string, draw: int)
    requires MockInputs(day, month, year, draw)
    ensures gender == "male" ==> GenderOf(MockPersonalNumber(day, month, year, gender, draw)) == Some(Male)
    ensures gender == "female" ==> GenderOf(MockPersonalNumber(day, month, year, gender, draw)) == Some(Female)
  {
    var pn := MockPersonalNumber(day, month, year, gender, draw);
    MockFields(day, month, year, gender, draw);
    GenderOfPlain(pn, MockIndividual(gender, draw));
  }

  /** When neither control digit computes to 10, the mock passes the validator. */
  lemma MockIsValid(day: int, month: int, year: int, gender: string, draw: int)
    requires MockInputs(day, month, year, draw)
    requires NoControlTen(day, month, year, gender, draw)
    ensures ChecksumsValid(Digits(MockPersonalNumber(day, month, year, gender, draw)))
    ensures IsValidPersonalNumber(MockPersonalNumber(day, month, year, gender, draw))
  {
    var pn := MockPersonalNumber(day, month, year, gender, draw);
    MockFields(day, month, year, gender, draw);
    var prefix := MockPrefix(day, month, year, gender, draw);
    var k1 := MockControl(WeightedSum(Digits(prefix), K1Weights));
    var withK1 := prefix + [DigitChar(k1)];
    assert pn == withK1 + [DigitChar(MockControl(WeightedSum(Digits(withK1), K2Weights)))];
    var d := Digits(pn);
    assert d[..9] == Digits(prefix);
    assert d[..10] == Digits(withK1);
  }

  /** A plain 11-digit number decodes to its date fields and the century its individual number picks. */
  lemma BirthDateOfPlain(c: string)
    requires WellFormed(c) && Clean(c) == c
    ensures BirthDateOf(c) == Date(CenturyYear(YearDigits(c), IndividualNumber(c)), Month(c), Day(c))
  {
    assert AllDigits(c[0..2]) && AllDigits(c[2..4]) && AllDigits(c[4..6]) && AllDigits(c[6..9]);
  }

  /** The date a mock decodes to: its day and month, and the year its individual number implies. */
  lemma MockBirthDateDecodes(day: int, month: int, year: int, gender: string, draw: int)
    requires MockInputs(day, month, year, draw)
    ensures BirthDateOf(MockPersonalNumber(day, month, year, gender, draw))
            == Date(CenturyYear(year % 100, MockIndividual(gender, draw)), month, day)
  {
    var pn := MockPersonalNumber(day, month, year, gender, draw);
    MockFields(day, month, year, gender, draw);
    BirthDateOfPlain(pn);
  }

  lemma TwentiethCenturyDigits(year: int)
    requires 1900 <= year <= 1999
    ensures 1900 + year % 100 == year
  {
  }

  /** A mock made for a 20th-century date with an individual number below 500 decodes to that date. */
  lemma MockBirthDate(day: int, month: int, year: int, gender: string, draw: int)
    requires MockInputs(day, month, year, draw)
    requires 1900 <= year <= 1999 && MockIndividual(gender, draw) <= 499
    ensures BirthDateOf(MockPersonalNumber(day, month, year, gender, draw)) == Date(year, month, day)
  {
    MockBirthDateDecodes(day, month, year, gender, draw);
    TwentiethCenturyDigits(year);
  }

  /**
   * A female mock drawn at 499 gets individual number 500, which places a
   * two-digit year below 40 in the 2000s: a birth in 1900-1939 decodes a
   * century late.
   */
  lemma MockFemaleDraw499(day: int, month: int, year: int, gender: string)
    requires MockInputs(day, month, year, 499) && 1900 <= year <= 1939 && gender == "female"
    ensures MockIndividual(gender, 499) == 500
    ensures BirthDateOf(MockPersonalNumber(day, month, year, gender, 499)) == Date(year + 100, month, day)
  {
    MockBirthDateDecodes(day, month, year, gender, 499);
    TwentiethCenturyDigits(year);
  }
}
