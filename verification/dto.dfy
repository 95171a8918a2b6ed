/** The record that one spreadsheet row becomes, and the constraints its
    class declares on each property (`CreatePatientDto`). A property marked
    optional is skipped entirely when it is null or undefined; a property that
    is present must be a string and pass every constraint stacked on it. */
module PatientDto {
  import opened Wrappers
  import opened Chars
  import opened Regex

  /** One patient record. The service receives the same shape (a partial
      patient), and the store keeps it next to a generated id. */
  datatype Patient = Patient(
    chartNo: Option<string>,
    name: Option<string>,
    phone: Option<string>,
    regNo: Option<string>,
    address: Option<string>,
    memo: Option<string>)

  datatype Field = ChartNo | Name | Phone | RegNo | Address | Memo

  /** The upper bound of every length constraint. */
  const MaxLength: nat := 255

  function Get(d: Patient, f: Field): Option<string> {
    match f
    case ChartNo => d.chartNo
    case Name => d.name
    case Phone => d.phone
    case RegNo => d.regNo
    case Address => d.address
    case Memo => d.memo
  }

  /** The record with one property replaced. */
  function Set(d: Patient, f: Field, v: Option<string>): (d': Patient)
    ensures Get(d', f) == v
    ensures forall g :: g != f ==> Get(d', g) == Get(d, g)
  {
    match f
    case ChartNo => d.(chartNo := v)
    case Name => d.(name := v)
    case Phone => d.(phone := v)
    case RegNo => d.(regNo := v)
    case Address => d.(address := v)
    case Memo => d.(memo := v)
  }

  // ---------------------------------------------------------------------
  // The two patterns, written by hand over characters.

  /** `^010\d{8}$` */
  predicate IsCompactPhone(s: string) {
    |s| == 11 && s[..3] == "010" && AllDigits(s[3..])
  }

  /** `^010-\d{4}-\d{4}$` */
  predicate IsDashedPhone(s: string) {
    |s| == 13 && s[..4] == "010-" && AllDigits(s[4..8]) && s[8] == '-' && AllDigits(s[9..])
  }

  predicate IsPhone(s: string) {
    IsCompactPhone(s) || IsDashedPhone(s)
  }

  predicate AllStars(s: string) {
    forall i :: 0 <= i < |s| ==> s[i] == '*'
  }

  /** `-?`: drops one leading dash, if there is one. */
  function SkipDash(s: string): string {
    if 0 < |s| && s[0] == '-' then s[1..] else s
  }

  /** `^\d{6}$`: the birth date alone. */
  predicate IsBirth(s: string) {
    |s| == 6 && AllDigits(s)
  }

  /** `^\d{7}$`: birth date and sex code, no dash. */
  predicate IsBirthAndCode(s: string) {
    |s| == 7 && AllDigits(s)
  }

  /** `^\d{6}-?\d{1}\*{0,6}$`: birth date, optional dash, sex code, up to six
      masking stars. */
  predicate IsMaskedRegNo(s: string) {
    6 <= |s| && AllDigits(s[..6]) &&
    var t := SkipDash(s[6..]);
    1 <= |t| <= 7 && IsDigit(t[0]) && AllStars(t[1..])
  }

  /** `^\d{6}-?\d{7}$`: the full thirteen-digit number, optional dash. */
  predicate IsFullRegNo(s: string) {
    6 <= |s| && AllDigits(s[..6]) &&
    var t := SkipDash(s[6..]);
    |t| == 7 && AllDigits(t)
  }

  predicate IsRegNo(s: string) {
    IsBirth(s) || IsBirthAndCode(s) || IsMaskedRegNo(s) || IsFullRegNo(s)
  }

  // ---------------------------------------------------------------------
  // The same patterns as regular expressions, in the reference semantics.

  const PhonePattern: seq<Pattern> := [
    Literal("010") + [Piece(Digit, 8, 8)],
    Literal("010-") + [Piece(Digit, 4, 4)] + Literal("-") + [Piece(Digit, 4, 4)]
  ]

  const RegNoPattern: seq<Pattern> := [
    [Piece(Digit, 6, 6)],
    [Piece(Digit, 7, 7)],
    [Piece(Digit, 6, 6), Piece(Char('-'), 0, 1), Piece(Digit, 1, 1), Piece(Char('*'), 0, 6)],
    [Piece(Digit, 6, 6), Piece(Char('-'), 0, 1), Piece(Digit, 7, 7)]
  ]

  lemma CompactPhoneMatches(s: string)
    ensures IsCompactPhone(s) <==> Matches(Literal("010") + [Piece(Digit, 8, 8)], s)
  {
    MatchesLiteral("010", [Piece(Digit, 8, 8)], s);
    if 3 <= |s| {
      MatchesLast(Piece(Digit, 8, 8), s[3..]);
      AllInDigit(s[3..]);
    }
  }

  lemma DashedPhoneMatches(s: string)
    ensures IsDashedPhone(s) <==>
      Matches(Literal("010-") + [Piece(Digit, 4, 4)] + Literal("-") + [Piece(Digit, 4, 4)], s)
  {
    var d4 := Piece(Digit, 4, 4);
    assert Literal("010-") + [d4] + Literal("-") + [d4] == Literal("010-") + ([d4] + (Literal("-") + [d4]));
    MatchesLiteral("010-", [d4] + (Literal("-") + [d4]), s);
    if 4 <= |s| {
      var t := s[4..];
      MatchesFixed(d4, Literal("-") + [d4], t);
      if 4 <= |t| {
        AllInDigit(t[..4]);
        assert t[..4] == s[4..8];
        var u := t[4..];
        assert u == s[8..];
        MatchesLiteral("-", [d4], u);
        if 1 <= |u| {
          assert u[..1] == "-" <==> s[8] == '-';
          assert u[1..] == s[9..];
          MatchesLast(d4, s[9..]);
          AllInDigit(s[9..]);
        }
      }
    }
  }

  /** The hand-written phone check accepts exactly the language of
      `^010\d{8}$|^010-\d{4}-\d{4}$`. */
  lemma PhoneMatchesPattern(s: string)
    ensures IsPhone(s) <==> MatchesSome(PhonePattern, s)
  {
    CompactPhoneMatches(s);
    DashedPhoneMatches(s);
    assert PhonePattern == [PhonePattern[0]] + ([PhonePattern[1]] + []);
    MatchesSomeCons(PhonePattern[0], [PhonePattern[1]] + [], s);
    MatchesSomeCons(PhonePattern[1], [], s);
  }

  lemma BirthMatches(s: string, n: nat)
    ensures (|s| == n && AllDigits(s)) <==> Matches([Piece(Digit, n, n)], s)
  {
    MatchesLast(Piece(Digit, n, n), s);
    AllInDigit(s);
  }

  /** The part after the optional dash: `\d{1}\*{0,6}`. */
  lemma MaskedTailMatches(t: string)
    ensures (1 <= |t| <= 7 && IsDigit(t[0]) && AllStars(t[1..])) <==>
      Matches([Piece(Digit, 1, 1)] + [Piece(Char('*'), 0, 6)], t)
  {
    var d1, stars := Piece(Digit, 1, 1), Piece(Char('*'), 0, 6);
    MatchesFixed(d1, [stars], t);
    if 1 <= |t| {
      assert AllIn(Digit, t[..1]) <==> IsDigit(t[0]);
      MatchesLast(stars, t[1..]);
    }
  }

  lemma MaskedRegNoMatches(s: string)
    ensures IsMaskedRegNo(s) <==> Matches(RegNoPattern[2], s)
  {
    var d6, dash := Piece(Digit, 6, 6), Piece(Char('-'), 0, 1);
    var tail := [Piece(Digit, 1, 1)] + [Piece(Char('*'), 0, 6)];
    assert RegNoPattern[2] == [d6] + ([dash] + tail);
    MatchesFixed(d6, [dash] + tail, s);
    if 6 <= |s| {
      AllInDigit(s[..6]);
      MatchesOptional('-', tail, s[6..]);
      MaskedTailMatches(SkipDash(s[6..]));
    }
  }

  lemma FullRegNoMatches(s: string)
    ensures IsFullRegNo(s) <==> Matches(RegNoPattern[3], s)
  {
    var d6, dash, d7 := Piece(Digit, 6, 6), Piece(Char('-'), 0, 1), Piece(Digit, 7, 7);
    assert RegNoPattern[3] == [d6] + ([dash] + [d7]);
    MatchesFixed(d6, [dash] + [d7], s);
    if 6 <= |s| {
      AllInDigit(s[..6]);
      MatchesOptional('-', [d7], s[6..]);
      var t := SkipDash(s[6..]);
      MatchesLast(d7, t);
      AllInDigit(t);
    }
  }

  /** The hand-written regNo check accepts exactly the language of
      `^\d{6}$|^\d{7}$|^\d{6}-?\d{1}\*{0,6}$|^\d{6}-?\d{7}$`. */
  lemma RegNoMatchesPattern(s: string)
    ensures IsRegNo(s) <==> MatchesSome(RegNoPattern, s)
  {
    BirthMatches(s, 6);
    BirthMatches(s, 7);
    MaskedRegNoMatches(s);
    FullRegNoMatches(s);
    var a := RegNoPattern;
    assert a == [a[0]] + ([a[1]] + ([a[2]] + ([a[3]] + [])));
    MatchesSomeCons(a[0], [a[1]] + ([a[2]] + ([a[3]] + [])), s);
    MatchesSomeCons(a[1], [a[2]] + ([a[3]] + []), s);
    MatchesSomeCons(a[2], [a[3]] + [], s);
    MatchesSomeCons(a[3], [], s);
  }

  // ---------------------------------------------------------------------
  // Per-property verdicts and the error list.

  /** The verdict of the constraints declared on one property, given only
      that property's value. */
  predicate FieldOk(f: Field, v: Option<string>) {
    match f
    case Name => v.Some? && 1 <= |v.value| <= MaxLength
    case Phone => v.None? || IsPhone(v.value)
    case RegNo => v.None? || IsRegNo(v.value)
    case ChartNo => v.None? || |v.value| <= MaxLength
    case Address => v.None? || |v.value| <= MaxLength
    case Memo => v.None? || |v.value| <= MaxLength
  }

  /** The properties in declaration order. */
  const Fields: seq<Field> := [ChartNo, Name, Phone, RegNo, Address, Memo]

  predicate Distinct(fs: seq<Field>) {
    forall i, j :: 0 <= i < j < |fs| ==> fs[i] != fs[j]
  }

  /** The properties of `fs` whose constraints fail, in the order of `fs`. */
  function Failing(d: Patient, fs: seq<Field>): (errs: seq<Field>)
    ensures forall f :: f in errs <==> f in fs && !FieldOk(f, Get(d, f))
    ensures Distinct(fs) ==> Distinct(errs)
    decreases |fs|
  {
    if fs == [] then []
    else (if FieldOk(fs[0], Get(d, fs[0])) then [] else [fs[0]]) + Failing(d, fs[1..])
  }

  lemma EveryFieldListed(f: Field)
    ensures f in Fields && Distinct(Fields)
  {
  }

  /** The properties that fail validation, in declaration order; every
      failing property is reported once, not only the first. */
  function Errors(d: Patient): (errs: seq<Field>)
    ensures forall f :: f in errs <==> !FieldOk(f, Get(d, f))
    ensures Distinct(errs)
  {
    EveryFieldListed(ChartNo);
    assert forall f :: f in Fields by {
      forall f ensures f in Fields { EveryFieldListed(f); }
    }
    Failing(d, Fields)
  }

  /** `errors.length === 0` */
  predicate Valid(d: Patient) {
    |Errors(d)| == 0
  }

  /** A record is valid iff each property passes its own constraints. */
  lemma ValidIffEachField(d: Patient)
    ensures Valid(d) <==>
      && (d.name.Some? && 1 <= |d.name.value| <= MaxLength)
      && (d.chartNo.None? || |d.chartNo.value| <= MaxLength)
      && (d.phone.None? || IsPhone(d.phone.value))
      && (d.regNo.None? || IsRegNo(d.regNo.value))
      && (d.address.None? || |d.address.value| <= MaxLength)
      && (d.memo.None? || |d.memo.value| <= MaxLength)
  {
    assert Valid(d) <==> forall f :: !(f in Errors(d));
    assert Get(d, Name) == d.name && Get(d, Phone) == d.phone;
  }

  /** Changing one property can change the verdict on that property only. */
  lemma VerdictIsPerField(d: Patient, f: Field, v: Option<string>)
    ensures forall g :: g != f ==> (g in Errors(Set(d, f, v)) <==> g in Errors(d))
  {
  }

  /** An absent or empty name always makes the record invalid. */
  lemma NameRequired(d: Patient)
    requires d.name.None? || d.name.value == ""
    ensures !Valid(d) && Name in Errors(d)
  {
  }
}
