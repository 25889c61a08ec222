/**
 * The sign-up form's schema: a password and its confirmation, each at
 * least eight UTF-16 code units long, and equal. Each failed rule is an
 * issue attached to one field; a field shows the first issue on its path.
 */
module SignUp {
  import opened Common
  import opened JsString

  datatype Field = Password | ConfirmPassword

  datatype Issue = Issue(path: Field, message: string)

  const MinLength: nat := 8
  const PasswordTooShort := "Password must be at least 8 characters"
  const ConfirmTooShort := "Please confirm your password"
  const Mismatch := "Passwords do not match"

  /** The form is accepted: both entries long enough and identical. */
  predicate Accepted(password: string, confirm: string) {
    Utf16Length(password) >= MinLength && Utf16Length(confirm) >= MinLength && password == confirm
  }

  /** The position of an issue's rule in the schema: password length, confirmation length, equality. */
  function RuleIndex(issue: Issue): nat {
    if issue == Issue(Password, PasswordTooShort) then 0
    else if issue == Issue(ConfirmPassword, ConfirmTooShort) then 1
    else 2
  }

  /**
   * The issues the schema reports, in the order it checks them: the two
   * length rules on their own fields, then the equality rule on the
   * confirmation. The length issues do not stop the equality rule.
   */
  function Check(password: string, confirm: string): (issues: seq<Issue>)
    ensures issues == [] <==> Accepted(password, confirm)
    ensures |issues| <= 3
    ensures forall i :: 0 <= i < |issues| ==>
      issues[i] in {Issue(Password, PasswordTooShort), Issue(ConfirmPassword, ConfirmTooShort), Issue(ConfirmPassword, Mismatch)}
    ensures Issue(Password, PasswordTooShort) in issues <==> Utf16Length(password) < MinLength
    ensures Issue(ConfirmPassword, ConfirmTooShort) in issues <==> Utf16Length(confirm) < MinLength
    ensures Issue(ConfirmPassword, Mismatch) in issues <==> password != confirm
    ensures forall i, j :: 0 <= i < j < |issues| ==> RuleIndex(issues[i]) < RuleIndex(issues[j])
  {
    (if Utf16Length(password) < MinLength then [Issue(Password, PasswordTooShort)] else [])
    + (if Utf16Length(confirm) < MinLength then [Issue(ConfirmPassword, ConfirmTooShort)] else [])
    + (if password != confirm then [Issue(ConfirmPassword, Mismatch)] else [])
  }

  /** Position `i` holds the first issue on the path of `field`. */
  predicate FirstOnPath(issues: seq<Issue>, field: Field, i: int) {
    0 <= i < |issues| && issues[i].path == field
    && forall j :: 0 <= j < i ==> issues[j].path != field
  }

  /** The message a field shows: the first issue on its path, if any. */
  function FieldError(issues: seq<Issue>, field: Field): (m: Option<string>)
    ensures m.None? <==> forall i :: 0 <= i < |issues| ==> issues[i].path != field
    ensures m.Some? ==> exists i :: FirstOnPath(issues, field, i) && issues[i].message == m.value
  {
    if issues == [] then None
    else if issues[0].path == field then
      assert FirstOnPath(issues, field, 0);
      Some(issues[0].message)
    else
      var m := FieldError(issues[1..], field);
      assert m.Some? ==> exists i :: FirstOnPath(issues, field, i) && issues[i].message == m.value by {
        if m.Some? {
          var i :| FirstOnPath(issues[1..], field, i) && issues[1..][i].message == m.value;
          assert FirstOnPath(issues, field, i + 1) by {
            forall j | 0 <= j < i + 1 ensures issues[j].path != field {
              if j > 0 { assert issues[j] == issues[1..][j - 1]; }
            }
          }
        }
      }
      m
  }

  /** The password field complains only about its length. */
  lemma PasswordFieldError(password: string, confirm: string)
    ensures FieldError(Check(password, confirm), Password)
      == if Utf16Length(password) < MinLength then Some(PasswordTooShort) else None
  {
  }

  /**
   * The confirmation field shows its own length rule first, and the
   * mismatch only when it is long enough.
   */
  lemma ConfirmFieldError(password: string, confirm: string)
    ensures FieldError(Check(password, confirm), ConfirmPassword)
      == if Utf16Length(confirm) < MinLength then Some(ConfirmTooShort)
         else if password != confirm then Some(Mismatch)
         else None
  {
  }

  /** Two long enough entries that differ give exactly the mismatch, on the confirmation. */
  lemma OnlyMismatch(password: string, confirm: string)
    requires Utf16Length(password) >= MinLength && Utf16Length(confirm) >= MinLength
    requires password != confirm
    ensures Check(password, confirm) == [Issue(ConfirmPassword, Mismatch)]
  {
  }

  /** What the submit handler passes on to sign-up: the password, only when the form is accepted. */
  function Submitted(password: string, confirm: string): (sent: Option<string>)
    ensures sent.Some? <==> Accepted(password, confirm)
    ensures sent.Some? ==> sent.value == confirm && Utf16Length(sent.value) >= MinLength
  {
    if Check(password, confirm) == [] then Some(password) else None
  }
}
