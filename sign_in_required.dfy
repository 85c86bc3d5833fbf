/**
 * The panel shown to a guest on a page that needs a session: the `next` parameter
 * that brings the guest back after signing in, the two links that carry it, and the
 * message it shows.
 */
module SignInRequired {
  import opened Js

  /** `router?.asPath || ""`: no router and an empty path both read as the empty path. */
  function CurrentPath(asPath: Option<string>): (path: string)
    ensures asPath.None? ==> path == ""
    ensures asPath.Some? ==> path == asPath.value
  {
    if asPath.Some? then asPath.value else ""
  }

  /** A path on the authentication pages themselves. */
  predicate IsAuthPath(path: string)
  {
    StartsWith(path, "/sign-in") || StartsWith(path, "/register")
  }

  /**
   * `nextParam`: nothing for an empty path or one on the authentication pages,
   * otherwise the path encoded as one query component.
   */
  function NextParam(path: string): (p: Option<string>)
    ensures p.None? <==> path == "" || IsAuthPath(path)
    ensures p.Some? ==> p.value == EncodeUriComponent(path)
    ensures p.Some? ==> p.value != "" && forall i :: 0 <= i < |p.value| ==> IsUriSafe(p.value[i])
  {
    if path == "" then None
    else if IsAuthPath(path) then None
    else Some(EncodeUriComponent(path))
  }

  /** A link to `page`, with `?next=` when there is a parameter (a present one is never empty, so never falsy). */
  function WithNext(page: string, next: Option<string>): (href: string)
    ensures next.None? || next.value == "" ==> href == page
    ensures next.Some? && next.value != "" ==> href == page + "?next=" + next.value
  {
    if next.Some? && next.value != "" then page + "?next=" + next.value else page
  }

  const SignInPage := "/sign-in"
  const RegisterPage := "/register"

  /**
   * The sign-in and register links, `WithNext(page, nextParam)`: the bare page exactly
   * when there is no parameter, else the page with `?next=` and the encoded path.
   */
  function AuthLink(page: string, path: string): (href: string)
    ensures href == page <==> NextParam(path).None?
    ensures NextParam(path).Some? ==> href == page + "?next=" + NextParam(path).value
  {
    var next := NextParam(path);
    assert next.Some? ==> |page + "?next=" + next.value| > |page|;
    WithNext(page, next)
  }

  /** The sign-in and register links end in the same query text after their page. */
  lemma SameNextOnBothLinks(path: string)
    ensures exists query: string ::
      AuthLink(SignInPage, path) == SignInPage + query && AuthLink(RegisterPage, path) == RegisterPage + query
  {
    var next := NextParam(path);
    var query := if next.Some? then "?next=" + next.value else "";
    assert WithNext(SignInPage, next) == SignInPage + query;
    assert WithNext(RegisterPage, next) == RegisterPage + query;
  }

  /** The encoded path holds no `&`, `#`, `=`, `?` or `/`, so it stays one parameter of the link. */
  lemma NextIsOneComponent(path: string)
    requires NextParam(path).Some?
    ensures forall i :: 0 <= i < |NextParam(path).value| ==>
      NextParam(path).value[i] !in {'&', '#', '=', '?', '/'}
  {
  }

  /** A guest stopped on an authentication page is not sent back to it. */
  lemma AuthPagesNotRemembered()
    ensures NextParam("/sign-in?next=%2Fdashboard").None?
    ensures NextParam("/register").None?
    ensures AuthLink(SignInPage, "") == SignInPage
  {
    assert StartsWith("/sign-in?next=%2Fdashboard", "/sign-in");
    assert StartsWith("/register", "/register");
  }

  const DefaultCopy := "Please sign in to continue."

  /** `message?.trim() || "Please sign in to continue."`. */
  function Copy(message: Option<string>): (copy: string)
    ensures message.Some? && Trim(message.value) != "" ==> copy == Trim(message.value)
    ensures message.None? || Trim(message.value) == "" ==> copy == DefaultCopy
    ensures copy != ""
  {
    if message.Some? && Trim(message.value) != "" then Trim(message.value) else DefaultCopy
  }
}
