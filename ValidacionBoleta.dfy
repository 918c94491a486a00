/** The student-number ("boleta") check: a boleta is required for student
    addresses, must have the form 20YY63NNNN once trimmed, and its year 20YY
    may not lie after next year. The e-mail of the object being validated and
    the current year are parameters. */
module ValidacionBoleta {
  import opened Common
  import opened Text
  import opened ValidacionCorreo

  const RequiredMessage := "La boleta es requerida"
  const FormatMessage := "El formato de la boleta debe ser 20XX63XXXX (ejemplo: 2024631234)"

  /** The year error; its text names the current year as the upper end even
      though next year is still accepted. */
  function YearMessage(anioActual: nat): string {
    "El año de la boleta debe estar entre 2000 y " + NatToString(anioActual)
  }

  /** The pattern `^20(\d{2})63\d{4}$` over ASCII digits: exactly ten
      characters, "20", two digits, "63", four digits. */
  predicate MatchesPattern(b: string) {
    && |b| == 10
    && b[0] == '2' && b[1] == '0'
    && IsDigit(b[2]) && IsDigit(b[3])
    && b[4] == '6' && b[5] == '3'
    && IsDigit(b[6]) && IsDigit(b[7]) && IsDigit(b[8]) && IsDigit(b[9])
  }

  /** The year written in a boleta: "20" followed by its captured two digits. */
  function BoletaYear(b: string): (year: int)
    requires MatchesPattern(b)
    ensures 2000 <= year <= 2099
  {
    2000 + 10 * DigitValue(b[2]) + DigitValue(b[3])
  }

  /** The year is what `int.Parse("20" + group)` reads, so it lies in
      2000..2099 and the lower bound tested by the validator always holds. */
  lemma BoletaYearParses(b: string)
    requires MatchesPattern(b)
    ensures ParseNat(['2', '0', b[2], b[3]]) == BoletaYear(b)
  {
    var s := ['2', '0', b[2], b[3]];
    var s2: string := ['2', '0'];
    var s3: string := ['2', '0', b[2]];
    assert s2[..1] == ['2'] && ['2'][..0] == [];
    assert ParseNat(s2) == 20;
    assert s3[..2] == s2;
    assert ParseNat(s3) == 200 + DigitValue(b[2]);
    assert s[..3] == s3;
  }

  /** The boleta is mandatory when the e-mail is a non-empty student address,
      compared with exact letter case. */
  predicate EsAlumnoIpn(email: Option<string>) {
    email.Some? && email.value != [] && EndsWith(email.value, StudentDomain)
  }

  /** `value == null || string.IsNullOrWhiteSpace(value)`. */
  predicate IsBlank(value: Option<string>) {
    value.None? || AllWhiteSpace(value.value)
  }

  /** `ValidarBoletaAttribute.IsValid`. */
  function IsValid(value: Option<string>, email: Option<string>, anioActual: nat): (r: ValidationResult)
    ensures IsBlank(value) ==> (r == Success <==> !EsAlumnoIpn(email))
    ensures IsBlank(value) && r != Success ==> r == Error(RequiredMessage)
    ensures !IsBlank(value) && !MatchesPattern(Trim(value.value)) ==> r == Error(FormatMessage)
    ensures !IsBlank(value) && MatchesPattern(Trim(value.value)) && BoletaYear(Trim(value.value)) > anioActual + 1 ==>
      r == Error(YearMessage(anioActual))
    ensures !IsBlank(value) ==>
      (r == Success <==> MatchesPattern(Trim(value.value)) && BoletaYear(Trim(value.value)) <= anioActual + 1)
  {
    if IsBlank(value) then
      if EsAlumnoIpn(email) then Error(RequiredMessage) else Success
    else
      var boleta := Trim(value.value);
      if !MatchesPattern(boleta) then Error(FormatMessage)
      else
        var anioBoleta := BoletaYear(boleta);
        if anioBoleta < 2000 || anioBoleta > anioActual + 1 then
          Error(YearMessage(anioActual))
        else Success
  }

  /** White space around a boleta does not change the verdict. */
  lemma PaddingIgnored(p: string, b: string, q: string, email: Option<string>, anioActual: nat)
    requires AllWhiteSpace(p) && AllWhiteSpace(q)
    ensures IsValid(Some(p + b + q), email, anioActual) == IsValid(Some(b), email, anioActual)
  {
    TrimPadded(p, b, q);
    TrimShape(p + b + q);
    TrimShape(b);
  }

  /** Once a boleta is present, the e-mail plays no part in the verdict. */
  lemma EmailIrrelevantWhenPresent(b: string, e1: Option<string>, e2: Option<string>, anioActual: nat)
    requires !AllWhiteSpace(b)
    ensures IsValid(Some(b), e1, anioActual) == IsValid(Some(b), e2, anioActual)
  {
  }

  /** The year check lets next year's boletas through, one year beyond the
      bound its message announces, and rejects the year after that. */
  lemma NextYearAccepted(b: string, anioActual: nat)
    requires MatchesPattern(b)
    ensures BoletaYear(b) == anioActual + 1 ==> IsValid(Some(b), None, anioActual) == Success
    ensures BoletaYear(b) == anioActual + 2 ==> IsValid(Some(b), None, anioActual) == Error(YearMessage(anioActual))
  {
    TrimFixed(b);
    assert !AllWhiteSpace(b) by { assert !IsWhiteSpace(b[0]); }
  }

  /** A well-formed boleta whose year is at most next year is accepted
      whatever the e-mail. */
  lemma WellFormedAccepted(b: string, email: Option<string>, anioActual: nat)
    requires MatchesPattern(b) && BoletaYear(b) <= anioActual + 1
    ensures IsValid(Some(b), email, anioActual) == Success
  {
    TrimFixed(b);
    assert !AllWhiteSpace(b) by { assert !IsWhiteSpace(b[0]); }
  }

  /** A boleta without surrounding white space is its own trim. */
  lemma TrimFixed(b: string)
    requires b != [] && !IsWhiteSpace(b[0]) && !IsWhiteSpace(b[|b| - 1])
    ensures Trim(b) == b
  {
  }

  /** The boleta used in the sign-up scenario is accepted from 2023 on, for
      any e-mail. */
  lemma ScenarioBoleta(email: Option<string>, anioActual: nat)
    requires anioActual >= 2023
    ensures IsValid(Some("2024631234"), email, anioActual) == Success
  {
    var b := "2024631234";
    assert MatchesPattern(b);
    assert BoletaYear(b) == 2024;
    WellFormedAccepted(b, email, anioActual);
  }
}
