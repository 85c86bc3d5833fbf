/**
 * The registration page's rules: the field validation, the loose email pattern it
 * uses, the invite code taken from the query string, and the sign-up request a
 * valid form produces.
 */
module Register {
  import opened Js
  import opened Query

  datatype RegisterForm = RegisterForm(name: string, email: string, accountName: string, password: string)

  /** One optional message per form field. */
  datatype FieldErrors = FieldErrors(
    name: Option<string>, email: Option<string>, accountName: Option<string>, password: Option<string>)

  predicate NoErrors(e: FieldErrors)
  {
    e.name.None? && e.email.None? && e.accountName.None? && e.password.None?
  }

  // ---------------------------------------------------------------------------
  // /^\S+@\S+\.\S+$/

  /** `s` splits at an `@` at `i` and a `.` at `j` into three non-empty parts. */
  predicate SplitsAt(s: string, i: int, j: int)
  {
    1 <= i && i + 2 <= j && j + 2 <= |s| && s[i] == '@' && s[j] == '.'
  }

  /** The pattern test as the page runs it: no whitespace, and some `@` and later `.` that split `s` into three non-empty parts. */
  predicate LooseEmail(s: string)
  {
    NoWhitespace(s) && exists i, j | 0 <= i < j < |s| :: SplitsAt(s, i, j)
  }

  /** The pattern read as a grammar: non-whitespace text, `@`, non-whitespace text, `.`, non-whitespace text. */
  ghost predicate LooseEmailParts(s: string)
  {
    exists a: string, b: string, c: string ::
      s == a + "@" + b + "." + c && a != "" && b != "" && c != "" &&
      NoWhitespace(a) && NoWhitespace(b) && NoWhitespace(c)
  }

  /** The index test and the grammar accept the same strings. */
  lemma LooseEmailIffParts(s: string)
    ensures LooseEmail(s) <==> LooseEmailParts(s)
  {
    if LooseEmail(s) {
      LooseEmailHasParts(s);
    }
    if LooseEmailParts(s) {
      PartsAreLooseEmail(s);
    }
  }

  lemma LooseEmailHasParts(s: string)
    requires LooseEmail(s)
    ensures LooseEmailParts(s)
  {
    var i, j :| 0 <= i < j < |s| && SplitsAt(s, i, j);
    var a, b, c := s[..i], s[i + 1..j], s[j + 1..];
    assert s == a + "@" + b + "." + c;
    assert NoWhitespace(a) by {
      assert forall k :: 0 <= k < |a| ==> a[k] == s[k];
    }
    assert NoWhitespace(b) by {
      assert forall k :: 0 <= k < |b| ==> b[k] == s[i + 1 + k];
    }
    assert NoWhitespace(c) by {
      assert forall k :: 0 <= k < |c| ==> c[k] == s[j + 1 + k];
    }
  }

  lemma PartsAreLooseEmail(s: string)
    requires LooseEmailParts(s)
    ensures LooseEmail(s)
  {
    var a: string, b: string, c: string :|
      s == a + "@" + b + "." + c && a != "" && b != "" && c != "" &&
      NoWhitespace(a) && NoWhitespace(b) && NoWhitespace(c);
    var i, j := |a|, |a| + 1 + |b|;
    assert s[i] == '@' && s[j] == '.';
    assert SplitsAt(s, i, j);
    forall k | 0 <= k < |s| ensures !IsWhitespace(s[k]) {
      if k < i {
        assert s[k] == a[k];
      } else if i < k < j {
        assert s[k] == b[k - i - 1];
      } else if k > j {
        assert s[k] == c[k - j - 1];
      }
    }
  }

  /** Whitespace inside is refused even with the separators in place. */
  lemma LooseEmailExamples()
    ensures LooseEmail("a@b.c")
    ensures !LooseEmail("a b@c.d") && !LooseEmail("a@b.") && !LooseEmail("@b.c") && !LooseEmail("a@.c")
  {
    assert SplitsAt("a@b.c", 1, 3);
    assert IsWhitespace("a b@c.d"[1]);
  }

  // ---------------------------------------------------------------------------
  // validate

  /**
   * `validate`: a field gets a message exactly when its check fails, so a form passes
   * exactly when the trimmed name, organisation and email are filled in, the email
   * fits the pattern and the password has eight characters.
   */
  function Validate(form: RegisterForm): (e: FieldErrors)
    ensures e.name.Some? <==> Trim(form.name) == ""
    ensures e.email.Some? <==> !LooseEmail(Trim(form.email))
    ensures e.accountName.Some? <==> Trim(form.accountName) == ""
    ensures e.password.Some? <==> |form.password| < 8
  {
    var email := Trim(form.email);
    FieldErrors(
      if Trim(form.name) == "" then Some("Your name is required.") else None,
      if email == "" then Some("Email is required.")
      else if !LooseEmail(email) then Some("Enter a valid email address.")
      else None,
      if Trim(form.accountName) == "" then Some("Organization name is required.") else None,
      if form.password == "" then Some("Password is required.")
      else if |form.password| < 8 then Some("Use at least 8 characters.")
      else None)
  }

  /** A form passes exactly when every field check does. */
  lemma ValidatePasses(form: RegisterForm)
    ensures NoErrors(Validate(form)) <==>
      Trim(form.name) != "" && Trim(form.accountName) != "" &&
      LooseEmail(Trim(form.email)) && |form.password| >= 8
  {
  }

  /**
   * A blank email is reported as missing, never as malformed; a short password gets
   * the length message; a password of eight spaces is accepted.
   */
  lemma ValidateMessages(form: RegisterForm)
    ensures AllWhitespace(form.email) ==> Validate(form).email == Some("Email is required.")
    ensures form.password != "" && |form.password| < 8 ==> Validate(form).password == Some("Use at least 8 characters.")
    ensures Validate(form.(password := "        ")).password.None?
  {
    TrimEmptyIffAllWhitespace(form.email);
  }

  // ---------------------------------------------------------------------------
  // The invite code in the query string

  /** `q.inviteCode || q.invite || q.code || undefined`: the first truthy of the three keys. */
  function InviteCodeOf(q: ParsedQuery): (code: QueryValue)
    ensures QueryTruthy(code) || code == Absent
    ensures code != Absent ==> code == QueryGet(q, "inviteCode") || code == QueryGet(q, "invite") || code == QueryGet(q, "code")
    ensures QueryTruthy(QueryGet(q, "inviteCode")) ==> code == QueryGet(q, "inviteCode")
    ensures !QueryTruthy(QueryGet(q, "inviteCode")) && QueryTruthy(QueryGet(q, "invite")) ==> code == QueryGet(q, "invite")
    ensures code == Absent <==>
      !QueryTruthy(QueryGet(q, "inviteCode")) && !QueryTruthy(QueryGet(q, "invite")) && !QueryTruthy(QueryGet(q, "code"))
  {
    if QueryTruthy(QueryGet(q, "inviteCode")) then QueryGet(q, "inviteCode")
    else if QueryTruthy(QueryGet(q, "invite")) then QueryGet(q, "invite")
    else if QueryTruthy(QueryGet(q, "code")) then QueryGet(q, "code")
    else Absent
  }

  // ---------------------------------------------------------------------------
  // onSubmit

  /** What `signUp` is called with. */
  datatype SignUpRequest = SignUpRequest(email: string, password: string, name: string, accountName: string)

  /**
   * `onSubmit`: nothing while a submission runs or when the form has errors;
   * otherwise the request, with the email trimmed and the name and organisation as typed.
   */
  function SubmitRequest(form: RegisterForm, submitting: bool): (r: Option<SignUpRequest>)
    ensures r.Some? <==> !submitting && NoErrors(Validate(form))
    ensures r.Some? ==> r.value == SignUpRequest(Trim(form.email), form.password, form.name, form.accountName)
  {
    if submitting || !NoErrors(Validate(form)) then None
    else Some(SignUpRequest(Trim(form.email), form.password, form.name, form.accountName))
  }

  /** Every request that goes out carries a pattern-matching email without surrounding whitespace and a password of eight or more characters. */
  lemma SubmittedRequestsAreValid(form: RegisterForm, submitting: bool)
    requires SubmitRequest(form, submitting).Some?
    ensures var req := SubmitRequest(form, submitting).value;
      LooseEmail(req.email) && Trim(req.email) == req.email && |req.password| >= 8 && Trim(req.name) != ""
  {
    var e := Trim(form.email);
    assert NoWhitespace(e);
    TrimNoWhitespace(e);
  }
}
