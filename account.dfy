/**
 * The account page's rules: the shortened id it displays, the member list derived
 * from the memberships, the member count, the value an account save writes, and
 * the invite it creates with its link.
 */
module Account {
  import opened Js
  import opened Json
  import Schema

  // ---------------------------------------------------------------------------
  // truncateId

  const Ellipsis: char := '\U{2026}'

  /** `truncateId`: blank for no id, the id itself up to 12 characters, else its first 8 and last 4 around an ellipsis. */
  function TruncateId(id: Option<string>): (r: string)
    ensures id.None? || id.value == "" ==> r == ""
    ensures id.Some? && |id.value| <= 12 ==> r == id.value
    ensures id.Some? && |id.value| > 12 ==>
      |r| == 13 && r[..8] == id.value[..8] && r[8] == Ellipsis && r[9..] == id.value[|id.value| - 4..]
  {
    if id.None? || id.value == "" then ""
    else if |id.value| <= 12 then id.value
    else
      var s := id.value;
      assert Slice(s, 0, 8) == s[..8] && Slice(s, -4, |s|) == s[|s| - 4..];
      Slice(s, 0, 8) + [Ellipsis] + Slice(s, -4, |s|)
  }

  /** A shortened id is never longer than the id, and shorter exactly when the id has more than 13 characters. */
  lemma TruncateIdShortens(id: string)
    ensures |TruncateId(Some(id))| <= |id|
    ensures |TruncateId(Some(id))| < |id| <==> |id| > 13
    ensures |id| > 12 ==> TruncateId(Some(id)) != id || |id| == 13
  {
  }

  // ---------------------------------------------------------------------------
  // useMembers, countMembers

  /** `fetched.filter(u => !!u)`: the user rows that came back, in membership order. */
  function Found(fetched: seq<Option<Record>>): (users: seq<Record>)
    ensures |users| <= |fetched|
  {
    if fetched == [] then []
    else if fetched[0].Some? then [fetched[0].value] + Found(fetched[1..])
    else Found(fetched[1..])
  }

  /** A row is in the list exactly when some membership's lookup returned it. */
  lemma {:induction false} FoundMembers(fetched: seq<Option<Record>>, u: Record)
    ensures u in Found(fetched) <==> exists k :: 0 <= k < |fetched| && fetched[k] == Some(u)
  {
    if fetched != [] {
      FoundMembers(fetched[1..], u);
      if u in Found(fetched[1..]) {
        var k :| 0 <= k < |fetched[1..]| && fetched[1..][k] == Some(u);
        assert fetched[k + 1] == Some(u);
      }
      if exists k :: 0 <= k < |fetched| && fetched[k] == Some(u) {
        var k :| 0 <= k < |fetched| && fetched[k] == Some(u);
        if k > 0 {
          assert fetched[1..][k - 1] == Some(u);
        }
      }
    }
  }

  /** Every lookup that returned a row contributes one; none is lost when all come back. */
  lemma {:induction false} FoundAll(fetched: seq<Option<Record>>)
    requires forall k :: 0 <= k < |fetched| ==> fetched[k].Some?
    ensures |Found(fetched)| == |fetched|
  {
    if fetched != [] {
      FoundAll(fetched[1..]);
    }
  }

  /**
   * The `users` state of `useMembers`: `null` without an account id or while the
   * memberships load, `[]` for no memberships or a failed lookup, else the users found.
   * `fetched` holds one lookup result per membership, `None` when a lookup threw.
   */
  function MemberUsers(accountId: Option<string>, memberships: Option<seq<Record>>,
                       fetched: Option<seq<Option<Record>>>): (users: Option<seq<Record>>)
    requires memberships.Some? && fetched.Some? ==> |fetched.value| == |memberships.value|
    ensures users.None? <==> accountId.None? || accountId.value == "" || memberships.None?
    ensures users.Some? && memberships.value == [] ==> users.value == []
    ensures users.Some? && fetched.None? ==> users.value == []
    ensures users.Some? && memberships.value != [] && fetched.Some? ==> users.value == Found(fetched.value)
    ensures users.Some? ==> |users.value| <= |memberships.value|
  {
    if accountId.None? || accountId.value == "" then None
    else if memberships.None? then None
    else if memberships.value == [] then Some([])
    else if fetched.None? then Some([])
    else Some(Found(fetched.value))
  }

  /** `loading`. */
  predicate Loading(memberships: Option<seq<Record>>, users: Option<seq<Record>>)
  {
    memberships.None? || users.None?
  }

  /** `countMembers`: the number of memberships, 0 while they load. */
  function CountMembers(memberships: Option<seq<Record>>): (n: nat)
    ensures memberships.None? ==> n == 0
    ensures memberships.Some? ==> n == |memberships.value|
  {
    if memberships.None? then 0 else |memberships.value|
  }

  /** The page is loading exactly when there is no account id or the memberships are still loading; once loaded it lists at most as many users as it counts members. */
  lemma MembersConsistent(accountId: Option<string>, memberships: Option<seq<Record>>,
                          fetched: Option<seq<Option<Record>>>)
    requires memberships.Some? && fetched.Some? ==> |fetched.value| == |memberships.value|
    ensures var users := MemberUsers(accountId, memberships, fetched);
      (Loading(memberships, users) <==> accountId.None? || accountId.value == "" || memberships.None?) &&
      (!Loading(memberships, users) ==> |users.value| <= CountMembers(memberships))
  {
  }

  // ---------------------------------------------------------------------------
  // onSaveAsync

  /** `EditableAccountForm`: the name, the logo path and the name of a picked file. */
  datatype AccountForm = AccountForm(name: string, logoImagePath: Option<string>, file: Option<string>)

  /** The parts of the account row the save reads. */
  datatype AccountInfo = AccountInfo(id: string, name: string, logoImagePath: Option<string>)

  /** The form as filled from the account (on load and on cancel). */
  function FormOf(account: Option<AccountInfo>): (form: AccountForm)
    ensures account.None? ==> form == AccountForm("", None, None)
    ensures account.Some? ==> form == AccountForm(account.value.name, account.value.logoImagePath, None)
  {
    if account.None? then AccountForm("", None, None)
    else AccountForm(account.value.name, account.value.logoImagePath, None)
  }

  /** The storage path of a picked logo; `stamp` is the decimal text of `Date.now()`. */
  function LogoPath(accountId: string, stamp: string, fileName: string): (path: string)
    ensures StartsWith(path, accountId + "/logo/")
  {
    var path := accountId + "/logo/" + stamp + "-" + fileName;
    assert path[..|accountId + "/logo/"|] == accountId + "/logo/";
    path
  }

  datatype SaveOutcome =
    | NothingToSave
    | SaveFailed(message: string)
    | Update(accountId: string, name: string, logoImagePath: Option<string>)

  function ErrorMessage(message: string, fallback: string): (m: string)
    ensures message != "" ==> m == message
    ensures message == "" ==> m == fallback
  {
    if message != "" then message else fallback
  }

  /**
   * `onSaveAsync`: nothing without an account; a failed logo upload reports its
   * message; otherwise the update carries the trimmed form name (or the account's
   * name when that is blank) and the uploaded path, else the form's path, else the
   * account's. `uploadError` is the upload's error message, if any.
   */
  function Save(account: Option<AccountInfo>, form: AccountForm, stamp: string, uploadError: Option<string>): (o: SaveOutcome)
    ensures account.None? <==> o.NothingToSave?
    ensures o.SaveFailed? <==> account.Some? && form.file.Some? && uploadError.Some?
    ensures o.SaveFailed? ==> o.message == ErrorMessage(uploadError.value, "Failed to save changes.")
    ensures o.Update? ==> o.accountId == account.value.id
    ensures o.Update? ==> o.name == (if Trim(form.name) != "" then Trim(form.name) else account.value.name)
    ensures o.Update? && form.file.Some? ==> o.logoImagePath == Some(LogoPath(account.value.id, stamp, form.file.value))
    ensures o.Update? && form.file.None? ==>
      o.logoImagePath == (if form.logoImagePath.Some? then form.logoImagePath else account.value.logoImagePath)
  {
    if account.None? then NothingToSave
    else
      var a := account.value;
      var logoPath := if form.logoImagePath.Some? then form.logoImagePath else a.logoImagePath;
      if form.file.Some? && uploadError.Some? then SaveFailed(ErrorMessage(uploadError.value, "Failed to save changes."))
      else
        var logoPath' := if form.file.Some? then Some(LogoPath(a.id, stamp, form.file.value)) else logoPath;
        Update(a.id, if Trim(form.name) != "" then Trim(form.name) else a.name, logoPath')
  }

  /** The name written is never blank when the account's own name is not, and a save straight after loading the form keeps the account as it is. */
  lemma SaveKeepsName(account: AccountInfo, stamp: string, uploadError: Option<string>)
    ensures var o := Save(Some(account), FormOf(Some(account)), stamp, uploadError);
      o.Update? && o.logoImagePath == account.logoImagePath &&
      (Trim(account.name) != "" ==> Trim(o.name) != "")
    ensures forall form: AccountForm :: Trim(account.name) != "" && Save(Some(account), form, stamp, uploadError).Update? ==>
      Trim(Save(Some(account), form, stamp, uploadError).name) != ""
  {
    TrimIdempotent(account.name);
    forall form: AccountForm | Trim(account.name) != "" && Save(Some(account), form, stamp, uploadError).Update?
      ensures Trim(Save(Some(account), form, stamp, uploadError).name) != ""
    {
      TrimIdempotent(form.name);
    }
  }

  /** The update value as the object handed to the store; a missing logo path is `undefined` and the JSON body leaves the column as it was. */
  function UpdateValue(o: SaveOutcome): (r: Record)
    requires o.Update?
    ensures Get(r, "name") == Str(o.name)
    ensures o.logoImagePath.Some? ==> Serialise(r) == r && Get(r, "logo_image_path") == Str(o.logoImagePath.value)
    ensures o.logoImagePath.None? ==> "logo_image_path" !in Serialise(r)
  {
    map["name" := Str(o.name), "logo_image_path" := if o.logoImagePath.Some? then Str(o.logoImagePath.value) else Undefined]
  }

  // ---------------------------------------------------------------------------
  // onCreateInviteAsync, inviteLink

  /** The invite insert: the current account and user, the fresh code, the role "default". */
  function InviteInsert(accountId: string, userId: string, code: string): (r: Record)
    ensures Schema.Valid(Schema.AccountInviteInsert, r)
    ensures Get(r, "account_id") == Str(accountId) && Get(r, "invited_by_user_id") == Str(userId)
    ensures Get(r, "code") == Str(code) && Get(r, "role") == Str("default")
    ensures Get(r, "id") == Undefined && Get(r, "created_at") == Undefined
  {
    map["account_id" := Str(accountId), "invited_by_user_id" := Str(userId), "code" := Str(code), "role" := Str("default")]
  }

  /**
   * The invite the page keeps after the insert: the returned row's id (else the code)
   * and role (else "default"), the current account, user and code, and `now` as its
   * creation time.
   */
  function ShownInvite(created: Record, accountId: string, userId: string, code: string, now: string): (r: Record)
    ensures Get(r, "id") == Coalesce(Get(created, "id"), Str(code))
    ensures Get(r, "role") == Coalesce(Get(created, "role"), Str("default"))
    ensures Get(r, "account_id") == Str(accountId) && Get(r, "invited_by_user_id") == Str(userId)
    ensures Get(r, "code") == Str(code) && Get(r, "created_at") == Str(now)
  {
    map[
      "id" := Coalesce(Get(created, "id"), Str(code)),
      "created_at" := Str(now),
      "account_id" := Str(accountId),
      "invited_by_user_id" := Str(userId),
      "code" := Str(code),
      "email" := Get(created, "email"),
      "role" := Coalesce(Get(created, "role"), Str("default")),
      "expires_at" := Get(created, "expires_at"),
      "accepted_at" := Get(created, "accepted_at"),
      "accepted_by_user_id" := Get(created, "accepted_by_user_id"),
      "revoked_at" := Get(created, "revoked_at")
    ]
  }

  /** When the insert returns a valid insert-shaped row (nulls aside), the kept invite is a valid invite row. */
  lemma ShownInviteIsRow(created: Record, accountId: string, userId: string, code: string, now: string)
    requires Schema.Valid(Schema.AccountInviteInsert, created)
    ensures Schema.Valid(Schema.AccountInviteRow, ShownInvite(created, accountId, userId, code, now))
  {
    var r := ShownInvite(created, accountId, userId, code, now);
    forall n | n in Schema.AccountInviteRow
      ensures Schema.FieldValid(n, Schema.AccountInviteRow[n], r)
    {
      assert n in Schema.AccountInviteInsert;
      if n in {"id", "role"} {
        assert Schema.AccountInviteInsert[n] == Schema.Optional;
        assert Get(created, n).Undefined? || Get(created, n).Str?;
      } else if n !in {"created_at", "account_id", "invited_by_user_id", "code"} {
        assert Schema.AccountInviteInsert[n] == Schema.Optional && Schema.AccountInviteRow[n] == Schema.Optional;
        assert r[n] == Get(created, n);
      }
    }
  }

  const InvitePrefix := "/accept-account-invite/"

  /** `inviteLink`: blank without an invite code or without a window (`host` is `location.host`). */
  function InviteLink(invite: Option<Record>, host: Option<string>): (link: string)
    ensures link != "" <==> invite.Some? && Truthy(Get(invite.value, "code")) && Get(invite.value, "code").Str? && host.Some?
    ensures link != "" ==> link == "https://" + host.value + InvitePrefix + Get(invite.value, "code").s
  {
    if invite.Some? && Get(invite.value, "code").Str? && Get(invite.value, "code").s != "" && host.Some? then
      "https://" + host.value + InvitePrefix + Get(invite.value, "code").s
    else ""
  }

  /** The code can be read back from the link: it is everything after the invite prefix. */
  lemma InviteLinkCarriesCode(accountId: string, userId: string, code: string, now: string, host: string, created: Record)
    requires code != ""
    ensures var link := InviteLink(Some(ShownInvite(created, accountId, userId, code, now)), Some(host));
      var head := "https://" + host + InvitePrefix;
      StartsWith(link, head) && link[|head|..] == code
  {
    var link := InviteLink(Some(ShownInvite(created, accountId, userId, code, now)), Some(host));
    var head := "https://" + host + InvitePrefix;
    assert link == head + code;
    assert link[..|head|] == head;
  }
}
