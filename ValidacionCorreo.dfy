/** The e-mail domain check applied to sign-up and update requests: a value
    is accepted when, lower-cased, it ends with the student domain
    "@alumno.ipn.mx" or the staff domain "@ipn.mx". */
module ValidacionCorreo {
  import opened Common
  import opened Text

  const StudentDomain := "@alumno.ipn.mx"
  const StaffDomain := "@ipn.mx"
  const RequiredMessage := "El correo electrónico es requerido"
  const DomainMessage := "Solo se permiten correos con dominios @alumno.ipn.mx o @ipn.mx"

  /** `ValidationResult.Success` or a result carrying an error message. */
  datatype ValidationResult = Success | Error(message: string)

  predicate InstitutionalDomain(email: string) {
    EndsWith(email, StudentDomain) || EndsWith(email, StaffDomain)
  }

  /** `ValidacionAttribute.IsValid`: a missing value is reported as required;
      a present one is accepted exactly when its lower-case form ends with
      one of the two institutional domains. */
  function IsValid(value: Option<string>): (r: ValidationResult)
    ensures value.None? ==> r == Error(RequiredMessage)
    ensures value.Some? ==> (r == Success <==> InstitutionalDomain(ToLower(value.value)))
    ensures value.Some? && r != Success ==> r == Error(DomainMessage)
  {
    match value
    case None => Error(RequiredMessage)
    case Some(v) =>
      var email := ToLower(v);
      if EndsWith(email, StudentDomain) || EndsWith(email, StaffDomain) then Success
      else Error(DomainMessage)
  }

  /** The check ignores letter case: a value and its lower-case form get the
      same verdict. */
  lemma CaseInsensitive(v: string)
    ensures IsValid(Some(v)) == IsValid(Some(ToLower(v)))
  {
    ToLowerIdempotent(v);
  }

  /** Any local part followed by either domain, in any letter case, is
      accepted; the empty string and a bare local part without a domain are
      not. */
  lemma DomainExamples(local: string)
    requires forall i :: 0 <= i < |local| ==> local[i] != '@'
    ensures IsValid(Some(local + StudentDomain)) == Success
    ensures IsValid(Some(local + StaffDomain)) == Success
    ensures IsValid(Some("A@IPN.MX")) == Success
    ensures IsValid(Some("")) == Error(DomainMessage)
    ensures IsValid(Some(local)) == Error(DomainMessage)
  {
    ToLowerAppend(local, StudentDomain);
    ToLowerAppend(local, StaffDomain);
    assert ToLower(StudentDomain) == StudentDomain;
    assert ToLower(StaffDomain) == StaffDomain;
    var a := ToLower(local + StudentDomain);
    assert a[|a| - |StudentDomain|..] == StudentDomain;
    var b := ToLower(local + StaffDomain);
    assert b[|b| - |StaffDomain|..] == StaffDomain;
    var c := ToLower("A@IPN.MX");
    assert c == "a@ipn.mx";
    var d := ToLower(local);
    if |StaffDomain| <= |d| {
      var k := |d| - |StaffDomain|;
      assert d[k..][0] == d[k] == ToLowerChar(local[k]) != '@';
    }
    if |StudentDomain| <= |d| {
      var k := |d| - |StudentDomain|;
      assert d[k..][0] == d[k] == ToLowerChar(local[k]) != '@';
    }
  }
}
