/** How the upload handler turns one decoded spreadsheet row into a patient
    record before validation: pass-through for chart number, name, address and
    memo; digit-stripping for the phone number; and the birth-date plus
    sex-code token for the resident registration number. */
module RowNormalizer {
  import opened Wrappers
  import opened Chars
  import opened PatientDto

  /** One decoded row: the cells under the columns 차트번호 (chart number),
      이름 (name), 전화번호 (phone), 주민등록번호 (registration number),
      주소 (address) and 메모 (memo). An empty cell is `None`. */
  datatype Row = Row(
    chartNo: Option<string>,
    name: Option<string>,
    phone: Option<string>,
    regNo: Option<string>,
    address: Option<string>,
    memo: Option<string>)

  /** JavaScript falsiness of a `string | null | undefined`. */
  predicate Falsy(v: Option<string>) {
    v.None? || v.value == ""
  }

  /** The phone cell: a falsy cell becomes null, anything else keeps only its
      digits (so a cell with no digit at all becomes the empty string). */
  function NormalizePhone(cell: Option<string>): (r: Option<string>)
    ensures r.None? <==> Falsy(cell)
    ensures r.Some? ==> AllDigits(r.value) && r.value == StripNonDigits(cell.value)
  {
    if Falsy(cell) then None else Some(StripNonDigits(cell.value))
  }

  /** The registration number as `<birth>-<code>`: the first six digits, a
      dash, and the seventh digit or `'0'` when there is no seventh digit.
      A falsy input gives null. */
  function FormatRegNo(input: Option<string>): (r: Option<string>)
    ensures r.None? <==> Falsy(input)
    ensures r.Some? ==>
      var o := r.value;
      && 2 <= |o| <= 8
      && o[|o| - 2] == '-'
      && AllDigits(o[..|o| - 2])
      && IsDigit(o[|o| - 1])
  {
    if Falsy(input) then None
    else
      var digits := StripNonDigits(input.value);
      var birth := if |digits| <= 6 then digits else digits[..6];
      var code := if |digits| >= 7 then digits[6] else '0';
      Some(birth + "-" + [code])
  }

  /** The record handed to validation. */
  function ToDto(row: Row): (d: Patient)
    ensures d.phone.Some? ==> AllDigits(d.phone.value)
    ensures d.regNo.Some? ==> |d.regNo.value| <= 8
  {
    Patient(
      chartNo := row.chartNo,
      name := row.name,
      phone := NormalizePhone(row.phone),
      regNo := FormatRegNo(row.regNo),
      address := row.address,
      memo := row.memo)
  }

  // ---------------------------------------------------------------------
  // Registration number.

  /** The result, in terms of the digits of the input alone: the first
      `min(6, n)` digits, a dash, and the seventh digit or `'0'`. */
  lemma FormatRegNoDigits(input: string)
    requires input != ""
    ensures var digits := StripNonDigits(input);
      var o := FormatRegNo(Some(input)).value;
      && |o| == (if |digits| < 6 then |digits| else 6) + 2
      && o[..|o| - 2] == digits[..|o| - 2]
      && o[|o| - 1] == (if |digits| >= 7 then digits[6] else '0')
  {
  }

  /** Characters that are not digits never change the result: inserting one
      anywhere in a non-empty input gives the same output. */
  lemma FormatRegNoIgnoresNonDigit(a: string, c: char, b: string)
    requires !IsDigit(c) && a + b != ""
    ensures FormatRegNo(Some(a + [c] + b)) == FormatRegNo(Some(a + b))
  {
    StripIgnoresNonDigit(a, c, b);
  }

  /** The digits of a formatted `dddddd-d`: the dash is dropped. */
  lemma StripFormatted(birth: string, code: char)
    requires |birth| == 6 && AllDigits(birth) && IsDigit(code)
    ensures StripNonDigits(birth + ['-', code]) == birth + [code]
  {
    assert birth + ['-', code] == birth + ['-'] + [code];
    StripIgnoresNonDigit(birth, '-', [code]);
    var again := birth + [code];
    assert AllDigits(again) by {
      assert forall i :: 0 <= i < 6 ==> again[i] == birth[i];
    }
    StripAllDigits(again);
  }

  /** With at least six digits, formatting an already formatted number
      changes nothing. */
  lemma FormatRegNoIdempotent(input: string)
    requires 6 <= |StripNonDigits(input)|
    ensures FormatRegNo(FormatRegNo(Some(input))) == FormatRegNo(Some(input))
  {
    var digits := StripNonDigits(input);
    var birth := digits[..6];
    var code := if |digits| >= 7 then digits[6] else '0';
    var o := birth + ['-', code];
    assert FormatRegNo(Some(input)) == Some(o) by {
      assert input != "";
      assert |digits| == 6 ==> digits == birth;
      assert birth + "-" + [code] == o;
    }
    assert AllDigits(birth) by {
      assert forall i :: 0 <= i < 6 ==> birth[i] == digits[i];
    }
    StripFormatted(birth, code);
    var again := birth + [code];
    FormatRegNoOfDigits(again);
    assert again[..6] == birth;
  }

  /** With fewer than six digits it is not idempotent: `"abc"` becomes
      `"-0"`, which becomes `"0-0"`. */
  lemma FormatRegNoNotIdempotentBelowSix()
    ensures FormatRegNo(Some("abc")) == Some("-0")
    ensures FormatRegNo(Some("-0")) == Some("0-0")
  {
    assert StripNonDigits("abc") == "";
    FormatRegNoDigits("abc");
    var o := FormatRegNo(Some("abc")).value;
    assert o == [o[0], o[1]];
    assert StripNonDigits("-0") == "0";
    FormatRegNoDigits("-0");
    var o' := FormatRegNo(Some("-0")).value;
    assert o' == [o'[0], o'[1], o'[2]];
  }

  /** An input of digits only, seven or more of them. */
  lemma FormatRegNoOfDigits(d: string)
    requires AllDigits(d) && 7 <= |d|
    ensures FormatRegNo(Some(d)) == Some(d[..6] + ['-', d[6]])
  {
    StripAllDigits(d);
    assert d[..6] + "-" + [d[6]] == d[..6] + ['-', d[6]];
  }

  /** A full thirteen-digit number keeps its birth date and sex code. */
  lemma FormatRegNoFullExample(long: string)
    requires long == "9001011234567"
    ensures FormatRegNo(Some(long)) == Some("900101-1")
  {
    assert AllDigits(long);
    FormatRegNoOfDigits(long);
    assert long[..6] + ['-', long[6]] == "900101-1";
  }

  /** A bare birth date gets the default sex code `'0'`. */
  lemma FormatRegNoBirthOnlyExample()
    ensures FormatRegNo(Some("900101")) == Some("900101-0")
    ensures FormatRegNo(None) == None && FormatRegNo(Some("")) == None
  {
    var short := "900101";
    StripAllDigits(short);
    FormatRegNoDigits(short);
    var o := FormatRegNo(Some(short)).value;
    assert |o| == 8 && o[..6] == short && o[6] == '-' && o[7] == '0';
    assert o == o[..6] + [o[6], o[7]];
    assert "900101" + ['-', '0'] == "900101-0";
  }

  /** A formatted registration number passes the registration-number check
      exactly when the input held at least six digits (then it has the form
      `dddddd-d`); with fewer, the dash lands inside the birth segment. */
  lemma FormatRegNoValidIff(input: string)
    requires input != ""
    ensures IsRegNo(FormatRegNo(Some(input)).value) <==> 6 <= |StripNonDigits(input)|
    ensures 6 <= |StripNonDigits(input)| ==> IsMaskedRegNo(FormatRegNo(Some(input)).value)
  {
    var digits := StripNonDigits(input);
    var o := FormatRegNo(Some(input)).value;
    if 6 <= |digits| {
      assert o[6] == '-';
      assert SkipDash(o[6..]) == o[7..];
      assert IsMaskedRegNo(o);
    } else {
      assert o[|digits|] == '-';
      if 6 <= |o| {
        assert o[..6][|digits|] == '-';
        assert !AllDigits(o[..6]);
      }
    }
  }

  // ---------------------------------------------------------------------
  // Phone.

  /** Separators between digit groups disappear. */
  lemma StripDashedGroups(a: string, b: string, c: string)
    requires AllDigits(a) && AllDigits(b) && AllDigits(c)
    ensures StripNonDigits(a + ['-'] + b + ['-'] + c) == a + b + c
  {
    var x := b + ['-'] + c;
    assert a + ['-'] + b + ['-'] + c == a + ['-'] + x;
    StripIgnoresNonDigit(a, '-', x);
    assert a + x == (a + b) + ['-'] + c;
    StripIgnoresNonDigit(a + b, '-', c);
    AllDigitsAppend(a, b);
    AllDigitsAppend(a + b, c);
    StripAllDigits(a + b + c);
  }

  lemma NormalizePhoneExample(cell: string)
    requires cell == "010-1234-5678"
    ensures NormalizePhone(Some(cell)) == Some("01012345678")
  {
    assert cell == "010" + ['-'] + "1234" + ['-'] + "5678";
    StripDashedGroups("010", "1234", "5678");
    assert "010" + "1234" + "5678" == "01012345678";
  }

  /** After normalisation a phone passes the phone check exactly when its
      digits are `010` and eight more; the dashed form can no longer occur. */
  lemma NormalizedPhoneValidIff(cell: Option<string>)
    ensures FieldOk(Phone, NormalizePhone(cell)) <==> Falsy(cell) || IsCompactPhone(StripNonDigits(cell.value))
  {
  }

  /** A present phone cell without any digit becomes the empty string, which
      is present and therefore checked, and fails. */
  lemma DigitlessPhoneRejected(cell: string)
    requires cell != "" && StripNonDigits(cell) == ""
    ensures NormalizePhone(Some(cell)) == Some("")
    ensures !FieldOk(Phone, NormalizePhone(Some(cell)))
  {
  }

  // ---------------------------------------------------------------------
  // The whole row.

  /** A row survives validation exactly when: its name has 1 to 255
      characters; chart number, address and memo are absent or at most 255
      characters; the phone cell is falsy or its digits are `010` plus eight;
      the registration cell is falsy or holds at least six digits. */
  lemma RowAcceptedIff(row: Row)
    ensures Valid(ToDto(row)) <==>
      && (row.name.Some? && 1 <= |row.name.value| <= MaxLength)
      && (row.chartNo.None? || |row.chartNo.value| <= MaxLength)
      && (Falsy(row.phone) || IsCompactPhone(StripNonDigits(row.phone.value)))
      && (Falsy(row.regNo) || 6 <= |StripNonDigits(row.regNo.value)|)
      && (row.address.None? || |row.address.value| <= MaxLength)
      && (row.memo.None? || |row.memo.value| <= MaxLength)
  {
    var d := ToDto(row);
    ValidIffEachField(d);
    NormalizedPhoneValidIff(row.phone);
    if !Falsy(row.regNo) {
      FormatRegNoValidIff(row.regNo.value);
    }
  }
}
