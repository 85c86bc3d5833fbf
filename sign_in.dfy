/**
 * The sign-in page's rules: the email predicate, the submit validation, the invite
 * and return paths read from the query string, the redirect priority after signing
 * in, and the call to action shown to a user who is already signed in.
 */
module SignIn {
  import opened Js
  import opened Query
  import Register

  // ---------------------------------------------------------------------------
  // isValidEmail: /^[^\s@]+@[^\s@]+\.[^\s@]+$/ on the trimmed text

  /**
   * The pattern as an index test: no whitespace, a single `@` at `i` and a `.` at `j`
   * after it, splitting `s` into three non-empty parts.
   */
  predicate StrictEmail(s: string)
  {
    NoWhitespace(s) &&
    exists i, j | 0 <= i < j < |s| :: Register.SplitsAt(s, i, j) && OnlyAtSignAt(s, i)
  }

  predicate OnlyAtSignAt(s: string, i: int)
  {
    forall k :: 0 <= k < |s| && s[k] == '@' ==> k == i
  }

  predicate NoAtSign(s: string)
  {
    forall k :: 0 <= k < |s| ==> s[k] != '@'
  }

  /** The pattern read as a grammar: three non-empty parts free of whitespace and `@`, joined by `@` and `.`. */
  ghost predicate StrictEmailParts(s: string)
  {
    exists a: string, b: string, c: string ::
      s == a + "@" + b + "." + c && a != "" && b != "" && c != "" &&
      NoWhitespace(a) && NoWhitespace(b) && NoWhitespace(c) &&
      NoAtSign(a) && NoAtSign(b) && NoAtSign(c)
  }

  lemma StrictEmailIffParts(s: string)
    ensures StrictEmail(s) <==> StrictEmailParts(s)
  {
    if StrictEmail(s) {
      StrictEmailHasParts(s);
    }
    if StrictEmailParts(s) {
      PartsAreStrictEmail(s);
    }
  }

  lemma StrictEmailHasParts(s: string)
    requires StrictEmail(s)
    ensures StrictEmailParts(s)
  {
    var i, j :| 0 <= i < j < |s| && Register.SplitsAt(s, i, j) && OnlyAtSignAt(s, i);
    var a, b, c := s[..i], s[i + 1..j], s[j + 1..];
    assert s == a + "@" + b + "." + c;
    assert NoWhitespace(a) && NoAtSign(a) by {
      assert forall k :: 0 <= k < |a| ==> a[k] == s[k];
    }
    assert NoWhitespace(b) && NoAtSign(b) by {
      assert forall k :: 0 <= k < |b| ==> b[k] == s[i + 1 + k];
    }
    assert NoWhitespace(c) && NoAtSign(c) by {
      assert forall k :: 0 <= k < |c| ==> c[k] == s[j + 1 + k];
    }
  }

  lemma PartsAreStrictEmail(s: string)
    requires StrictEmailParts(s)
    ensures StrictEmail(s)
  {
    var a: string, b: string, c: string :|
      s == a + "@" + b + "." + c && a != "" && b != "" && c != "" &&
      NoWhitespace(a) && NoWhitespace(b) && NoWhitespace(c) &&
      NoAtSign(a) && NoAtSign(b) && NoAtSign(c);
    var i, j := |a|, |a| + 1 + |b|;
    assert s[i] == '@' && s[j] == '.';
    forall k | 0 <= k < |s| ensures !IsWhitespace(s[k]) && (s[k] == '@' ==> k == i) {
      if k < i {
        assert s[k] == a[k];
      } else if i < k < j {
        assert s[k] == b[k - i - 1];
      } else if k > j {
        assert s[k] == c[k - j - 1];
      }
    }
    assert Register.SplitsAt(s, i, j) && OnlyAtSignAt(s, i);
  }

  /** `isValidEmail`. */
  predicate IsValidEmail(email: string)
  {
    StrictEmail(Trim(email))
  }

  /** The sign-in pattern is stricter than the registration one: every address it takes registers, but not the other way round. */
  lemma StrictIsLoose(s: string)
    ensures StrictEmail(s) ==> Register.LooseEmail(s)
    ensures Register.LooseEmail("a@b@c.d") && !StrictEmail("a@b@c.d")
  {
    assert Register.SplitsAt("a@b@c.d", 1, 5);
    assert "a@b@c.d"[3] == '@';
  }

  // ---------------------------------------------------------------------------
  // sanitizeReturnPath

  /** The parts of `new URL(candidate, origin)` the page reads. */
  datatype Url = Url(origin: string, pathname: string, search: string, hash: string)

  /**
   * `sanitizeReturnPath`. `resolve` stands for `new URL(candidate, origin)`, with
   * `None` for a candidate it throws on.
   */
  function SanitizeReturnPath(candidate: Option<string>, origin: string, resolve: string -> Option<Url>): (r: Option<string>)
    ensures candidate.None? || candidate.value == "" ==> r.None?
    ensures r.Some? ==> exists u :: resolve(candidate.value) == Some(u) && u.origin == origin &&
                                   StartsWith(u.pathname, "/") && r.value == u.pathname + u.search + u.hash
    ensures r.Some? ==> StartsWith(r.value, "/")
    ensures candidate.Some? && candidate.value != "" ==>
      (r.Some? <==> resolve(candidate.value).Some? && resolve(candidate.value).value.origin == origin &&
                    StartsWith(resolve(candidate.value).value.pathname, "/"))
    ensures candidate.Some? && candidate.value != "" && r.Some? ==>
      var u := resolve(candidate.value).value; r.value == u.pathname + u.search + u.hash
  {
    if candidate.None? || candidate.value == "" then None
    else
      match resolve(candidate.value)
      case None => None
      case Some(u) =>
        if u.origin != origin then None
        else if !StartsWith(u.pathname, "/") then None
        else
          assert (u.pathname + u.search + u.hash)[..1] == u.pathname[..1];
          Some(u.pathname + u.search + u.hash)
  }

  // ---------------------------------------------------------------------------
  // Redirect cues from the query string

  /** The invite path, when `inviteCode` is one string that is not blank. */
  function InvitePath(q: ParsedQuery): (p: Option<string>)
    ensures p.Some? <==> QueryGet(q, "inviteCode").One? && Trim(QueryGet(q, "inviteCode").s) != ""
    ensures p.Some? ==> p.value == "/accept-account-invite/" + Trim(QueryGet(q, "inviteCode").s)
  {
    var v := QueryGet(q, "inviteCode");
    if v.One? && Trim(v.s) != "" then Some("/accept-account-invite/" + Trim(v.s)) else None
  }

  /** The first of `redirect`, `next` and `returnTo` that is a single non-empty string. */
  function ReturnCandidate(q: ParsedQuery): (c: Option<string>)
    ensures c.Some? ==> c.value != ""
    ensures c == NonEmptyString(QueryGet(q, "redirect")) || c == NonEmptyString(QueryGet(q, "next")) ||
            c == NonEmptyString(QueryGet(q, "returnTo"))
    ensures NonEmptyString(QueryGet(q, "redirect")).Some? ==> c == NonEmptyString(QueryGet(q, "redirect"))
    ensures NonEmptyString(QueryGet(q, "redirect")).None? && NonEmptyString(QueryGet(q, "next")).Some? ==>
      c == NonEmptyString(QueryGet(q, "next"))
    ensures c.None? <==> (NonEmptyString(QueryGet(q, "redirect")).None? &&
                          NonEmptyString(QueryGet(q, "next")).None? && NonEmptyString(QueryGet(q, "returnTo")).None?)
  {
    var r := NonEmptyString(QueryGet(q, "redirect"));
    if r.Some? then r
    else
      var n := NonEmptyString(QueryGet(q, "next"));
      if n.Some? then n else NonEmptyString(QueryGet(q, "returnTo"))
  }

  /** The return path the page keeps: the candidate, sanitised. */
  function ReturnPath(q: ParsedQuery, origin: string, resolve: string -> Option<Url>): (p: Option<string>)
    ensures ReturnCandidate(q).None? ==> p.None?
    ensures p.Some? ==> StartsWith(p.value, "/")
    ensures p == SanitizeReturnPath(ReturnCandidate(q), origin, resolve)
  {
    SanitizeReturnPath(ReturnCandidate(q), origin, resolve)
  }

  predicate PathSet(p: Option<string>) { p.Some? && p.value != "" }

  /** `redirectAfterSignIn`: the invite path, else the return path, else the dashboard. */
  function RedirectAfterSignIn(invitePath: Option<string>, returnPath: Option<string>): (target: string)
    ensures PathSet(invitePath) ==> target == invitePath.value
    ensures !PathSet(invitePath) && PathSet(returnPath) ==> target == returnPath.value
    ensures !PathSet(invitePath) && !PathSet(returnPath) ==> target == "/dashboard"
    ensures target != ""
  {
    if PathSet(invitePath) then invitePath.value
    else if PathSet(returnPath) then returnPath.value
    else "/dashboard"
  }

  /** An invite in the query wins over any return path, a sanitised path is followed without one, and with neither the dashboard. */
  lemma InviteWins(q: ParsedQuery, origin: string, resolve: string -> Option<Url>)
    ensures var invite := InvitePath(q);
      invite.Some? ==> RedirectAfterSignIn(invite, ReturnPath(q, origin, resolve)) == invite.value
    ensures InvitePath(q).None? && ReturnCandidate(q).None? ==>
      RedirectAfterSignIn(InvitePath(q), ReturnPath(q, origin, resolve)) == "/dashboard"
    ensures InvitePath(q).None? && ReturnPath(q, origin, resolve).Some? ==>
      RedirectAfterSignIn(InvitePath(q), ReturnPath(q, origin, resolve)) == ReturnPath(q, origin, resolve).value
  {
  }

  // ---------------------------------------------------------------------------
  // onSubmitAsync

  datatype SignInForm = SignInForm(email: string, password: string)

  datatype SignInErrors = SignInErrors(email: Option<string>, password: Option<string>)

  /** The messages `onSubmitAsync` sets: a missing or invalid email, a missing password. */
  function SubmitErrors(form: SignInForm): (e: SignInErrors)
    ensures e.email.Some? <==> !IsValidEmail(form.email)
    ensures e.email == Some("Email is required") <==> Trim(form.email) == ""
    ensures Trim(form.email) != "" && !IsValidEmail(form.email) ==> e.email == Some("Enter a valid email")
    ensures e.password.Some? <==> form.password == ""
    ensures e.password.Some? ==> e.password.value == "Password is required"
  {
    SignInErrors(
      if Trim(form.email) == "" then Some("Email is required")
      else if !IsValidEmail(form.email) then Some("Enter a valid email")
      else None,
      if form.password == "" then Some("Password is required") else None)
  }

  /** What `signInWithPassword` is called with: only when there is no error, with the email trimmed. */
  function SignInRequest(form: SignInForm): (r: Option<SignInForm>)
    ensures r.Some? <==> IsValidEmail(form.email) && form.password != ""
    ensures r.Some? ==> r.value.email == Trim(form.email) && r.value.password == form.password
  {
    var e := SubmitErrors(form);
    if e.email.Some? || e.password.Some? then None else Some(SignInForm(Trim(form.email), form.password))
  }

  // ---------------------------------------------------------------------------
  // alreadySignedInPrimaryCta

  datatype Cta = Cta(caption: string, href: string)

  /** The link leads where a sign-in would; it reads "Continue" exactly when a path is set. */
  function SignedInCta(invitePath: Option<string>, returnPath: Option<string>): (c: Cta)
    ensures c.href == RedirectAfterSignIn(invitePath, returnPath)
    ensures c.caption == "Continue" <==> PathSet(invitePath) || PathSet(returnPath)
    ensures c.caption != "Continue" ==> c.caption == "Go to Dashboard" && c.href == "/dashboard"
  {
    var caption := if PathSet(invitePath) || PathSet(returnPath) then "Continue" else "Go to Dashboard";
    var href := if PathSet(invitePath) then invitePath.value else if PathSet(returnPath) then returnPath.value else "/dashboard";
    Cta(caption, href)
  }
}
