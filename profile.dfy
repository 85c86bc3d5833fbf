/**
 * The profile page's rules: the form built from the user row, the save validation
 * and patch, the unsaved-changes test, the image removal handlers, the file
 * extension and storage key of an uploaded image, the distinct account ids of the
 * user's memberships, and the role badge label.
 */
module Profile {
  import opened Js
  import Json

  /** A string property that may also be `null` or missing. */
  datatype Nullable = Undef | Nil | Val(s: string)

  /** `v ?? ""`. */
  function OrEmpty(v: Nullable): (s: string)
    ensures v.Val? ==> s == v.s
    ensures !v.Val? ==> s == ""
  {
    if v.Val? then v.s else ""
  }

  /** `v ?? null`: a missing value reads as `null`, anything else is kept. */
  function OrNull(v: Nullable): (w: Nullable)
    ensures w != Undef
    ensures v != Undef ==> w == v
  {
    if v.Undef? then Nil else v
  }

  /** The properties of a user row the page reads. */
  datatype ProfileUser = ProfileUser(id: string, name: Nullable, email: Nullable, profileImagePath: Nullable, heroImagePath: Nullable)

  /** `ProfileForm`. */
  datatype ProfileForm = ProfileForm(name: string, profileImagePath: Nullable, heroImagePath: Nullable, email: string)

  /** The form filled from the user (on load and on Cancel): missing names blank, missing paths `null`. */
  function InitialForm(user: ProfileUser): (form: ProfileForm)
    ensures form.name == OrEmpty(user.name) && form.email == OrEmpty(user.email)
    ensures form.profileImagePath == OrNull(user.profileImagePath) && form.heroImagePath == OrNull(user.heroImagePath)
  {
    ProfileForm(OrEmpty(user.name), OrNull(user.profileImagePath), OrNull(user.heroImagePath), OrEmpty(user.email))
  }

  // ---------------------------------------------------------------------------
  // hasChanges, onCancel

  /**
   * `hasChanges`: never without a user and a form; otherwise the trimmed names differ
   * or one of the image paths differs, a missing path counting as `null`.
   */
  predicate HasChanges(user: Option<ProfileUser>, form: Option<ProfileForm>)
  {
    user.Some? && form.Some? &&
    (Trim(form.value.name) != Trim(OrEmpty(user.value.name)) ||
     OrNull(form.value.profileImagePath) != OrNull(user.value.profileImagePath) ||
     OrNull(form.value.heroImagePath) != OrNull(user.value.heroImagePath))
  }

  /** `onCancel`: without a user nothing happens; with one the form is refilled from it. */
  function Cancel(user: Option<ProfileUser>, form: Option<ProfileForm>): (next: Option<ProfileForm>)
    ensures user.None? ==> next == form
    ensures user.Some? ==> next == Some(InitialForm(user.value))
  {
    if user.None? then form else Some(InitialForm(user.value))
  }

  /** After Cancel there is nothing left to save. */
  lemma CancelDiscardsChanges(user: Option<ProfileUser>, form: Option<ProfileForm>)
    ensures !HasChanges(user, Cancel(user, form))
  {
  }

  /** A freshly loaded form has no changes, and with a signed-in user a form differs from it exactly when `HasChanges` says so. */
  lemma ChangesAgainstInitial(user: ProfileUser, form: ProfileForm)
    ensures !HasChanges(Some(user), Some(InitialForm(user)))
    ensures HasChanges(Some(user), Some(form)) <==>
      Trim(form.name) != Trim(InitialForm(user).name) ||
      OrNull(form.profileImagePath) != InitialForm(user).profileImagePath ||
      OrNull(form.heroImagePath) != InitialForm(user).heroImagePath
  {
  }

  // ---------------------------------------------------------------------------
  // validate, onSaveAsync

  /** `validate`: a name that is empty or all whitespace gets the one message. */
  function NameError(draft: ProfileForm): (e: Option<string>)
    ensures e.Some? <==> AllWhitespace(draft.name)
    ensures e.Some? ==> e.value == "Name is required"
  {
    TrimEmptyIffAllWhitespace(draft.name);
    if draft.name == "" || |Trim(draft.name)| == 0 then Some("Name is required") else None
  }

  /** The three columns `onSaveAsync` writes. */
  datatype UserPatch = UserPatch(name: string, profileImagePath: Nullable, heroImagePath: Nullable)

  /** The update `onSaveAsync` sends: the user's id and the patch. */
  datatype SaveCall = SaveCall(userId: string, patch: UserPatch)

  /**
   * `onSaveAsync`: nothing without a user, a form or a non-blank name; otherwise the
   * user is updated with the trimmed name and both paths, `null` standing for a missing one.
   */
  function Save(user: Option<ProfileUser>, form: Option<ProfileForm>): (call: Option<SaveCall>)
    ensures call.Some? <==> user.Some? && form.Some? && Trim(form.value.name) != ""
    ensures call.Some? ==> call.value.userId == user.value.id
    ensures call.Some? ==> call.value.patch.name == Trim(form.value.name) && call.value.patch.name != ""
    ensures call.Some? ==> (call.value.patch.profileImagePath == OrNull(form.value.profileImagePath) &&
                           call.value.patch.heroImagePath == OrNull(form.value.heroImagePath))
  {
    if user.None? || form.None? then None
    else
      var draft := form.value.(name := Trim(form.value.name));
      TrimIdempotent(form.value.name);
      TrimEmptyIffAllWhitespace(draft.name);
      if NameError(draft).Some? then None
      else Some(SaveCall(user.value.id, UserPatch(draft.name, OrNull(draft.profileImagePath), OrNull(draft.heroImagePath))))
  }

  function ToJson(v: Nullable): (j: Json.Value)
    ensures v.Undef? <==> j.Undefined?
    ensures v.Nil? <==> j.Null?
    ensures v.Val? ==> j == Json.Str(v.s)
  {
    match v
    case Undef => Json.Undefined
    case Nil => Json.Null
    case Val(s) => Json.Str(s)
  }

  /** The patch as the object handed to the store: exactly the three columns, none of them `undefined`, so the JSON body clears a removed image. */
  function PatchRecord(p: UserPatch): (r: Json.Record)
    requires p.profileImagePath != Undef && p.heroImagePath != Undef
    ensures r.Keys == {"name", "profile_image_path", "hero_image_path"}
    ensures Json.Serialise(r) == r
    ensures r["name"] == Json.Str(p.name)
    ensures r["profile_image_path"] == ToJson(p.profileImagePath) && r["hero_image_path"] == ToJson(p.heroImagePath)
  {
    map["name" := Json.Str(p.name), "profile_image_path" := ToJson(p.profileImagePath), "hero_image_path" := ToJson(p.heroImagePath)]
  }

  /** The user row as it reads once the save has been applied. */
  function Saved(user: ProfileUser, p: UserPatch): (u: ProfileUser)
    ensures u.id == user.id && u.email == user.email
    ensures u.name == Val(p.name) && u.profileImagePath == p.profileImagePath && u.heroImagePath == p.heroImagePath
  {
    user.(name := Val(p.name), profileImagePath := p.profileImagePath, heroImagePath := p.heroImagePath)
  }

  /** Once the save has been applied to the user, the form that was saved shows no changes. */
  lemma SaveLeavesNoChanges(user: Option<ProfileUser>, form: Option<ProfileForm>)
    requires Save(user, form).Some?
    ensures Save(user, form).value.patch.profileImagePath != Undef
    ensures !HasChanges(Some(Saved(user.value, Save(user, form).value.patch)), form)
  {
    TrimIdempotent(form.value.name);
  }

  // ---------------------------------------------------------------------------
  // onRemoveAvatar, onRemoveHero, onAvatarSelected, onHeroSelected

  datatype ImageKind = ProfileImage | HeroImage

  function KindName(kind: ImageKind): (s: string)
    ensures s == "profile" || s == "hero"
    ensures s == "profile" <==> kind == ProfileImage
  {
    match kind
    case ProfileImage => "profile"
    case HeroImage => "hero"
  }

  /** Sets the path of one image on the form and leaves every other field as it was. */
  function WithImage(form: ProfileForm, kind: ImageKind, path: Nullable): (f: ProfileForm)
    ensures f.name == form.name && f.email == form.email
    ensures kind == ProfileImage ==> f.profileImagePath == path && f.heroImagePath == form.heroImagePath
    ensures kind == HeroImage ==> f.heroImagePath == path && f.profileImagePath == form.profileImagePath
  {
    match kind
    case ProfileImage => form.(profileImagePath := path)
    case HeroImage => form.(heroImagePath := path)
  }

  /** `onRemoveAvatar` and `onRemoveHero`: `null` for that image only, and nothing without a form. */
  function RemoveImage(form: Option<ProfileForm>, kind: ImageKind): (next: Option<ProfileForm>)
    ensures form.None? ==> next.None?
    ensures form.Some? ==> next == Some(WithImage(form.value, kind, Nil))
  {
    if form.None? then None else Some(WithImage(form.value, kind, Nil))
  }

  /** `onAvatarSelected` and `onHeroSelected` once the upload settles: the form takes the key only when there is one. */
  function ImageUploaded(form: Option<ProfileForm>, kind: ImageKind, key: Option<string>): (next: Option<ProfileForm>)
    ensures key.None? || key.value == "" || form.None? ==> next == form
    ensures key.Some? && key.value != "" && form.Some? ==> next == Some(WithImage(form.value, kind, Val(key.value)))
  {
    if key.Some? && key.value != "" && form.Some? then Some(WithImage(form.value, kind, Val(key.value))) else form
  }

  /** Removing an image from a user's freshly loaded form is a change exactly when the user had that image. */
  lemma RemoveIsChange(user: ProfileUser, kind: ImageKind)
    ensures var path := if kind == ProfileImage then user.profileImagePath else user.heroImagePath;
      HasChanges(Some(user), RemoveImage(Some(InitialForm(user)), kind)) <==> path.Val?
  {
  }

  // ---------------------------------------------------------------------------
  // getFileExt

  /** `s.split(c).pop()`: the text after the last `c`, or all of `s` when there is none. */
  function AfterLast(s: string, c: char): (r: string)
    ensures |r| <= |s| && r == s[|s| - |r|..]
    ensures forall i :: 0 <= i < |r| ==> r[i] != c
    ensures |r| < |s| ==> s[|s| - |r| - 1] == c
  {
    if s == [] || s[|s| - 1] == c then []
    else
      var r := AfterLast(s[..|s| - 1], c) + [s[|s| - 1]];
      assert r[..|r| - 1] == s[..|s| - 1][|s| - |r|..];
      r
  }

  /**
   * `getFileExt`: the lower-cased text after the last dot of the name when there is
   * some, else the subtype of an `image/` type, else `jpg`.
   */
  function FileExt(name: string, mime: string): (ext: string)
    ensures '.' in name && AfterLast(name, '.') != "" ==> ext == ToLower(AfterLast(name, '.'))
    ensures ('.' !in name || AfterLast(name, '.') == "") && StartsWith(mime, "image/") ==> mime == "image/" + ext
    ensures ('.' !in name || AfterLast(name, '.') == "") && !StartsWith(mime, "image/") ==> ext == "jpg"
  {
    var fromName := if '.' in name then Some(AfterLast(name, '.')) else None;
    if fromName.Some? && fromName.value != "" then ToLower(fromName.value)
    else if StartsWith(mime, "image/") then
      assert mime == "image/" + mime[|"image/"|..];
      mime[|"image/"|..]
    else "jpg"
  }

  /** A name whose last dot at `k` is followed by some text gives that text, lower-cased. */
  lemma FileExtFromName(name: string, mime: string, k: nat)
    requires k + 1 < |name| && name[k] == '.'
    requires forall j :: k < j < |name| ==> name[j] != '.'
    ensures FileExt(name, mime) == ToLower(name[k + 1..])
  {
    var r := AfterLast(name, '.');
    var m := |name| - |r|;
    assert forall j :: m <= j < |name| ==> name[j] != '.' by {
      forall j | m <= j < |name| ensures name[j] != '.' {
        assert name[j] == r[j - m];
      }
    }
    assert m == k + 1;
    assert '.' in name by {
      assert name[k] == '.';
    }
  }

  /** The extension of the name wins over the type, and is lower-cased. */
  lemma FileExtOfName()
    ensures FileExt("Photo.PNG", "image/png") == "png"
  {
    FileExtFromName("Photo.PNG", "image/png", 5);
    var ext := ToLower("PNG");
    assert "Photo.PNG"[6..] == "PNG";
    assert ext[0] == 'p' && ext[1] == 'n' && ext[2] == 'g';
  }

  /** A name without a dot takes the subtype of an image type. */
  lemma FileExtOfMime()
    ensures FileExt("avatar", "image/webp") == "webp"
  {
    assert '.' !in "avatar" by {
      assert forall i :: 0 <= i < |"avatar"| ==> "avatar"[i] != '.';
    }
    assert StartsWith("image/webp", "image/");
  }

  /** A name ending in its dot, with a type that is not an image, falls back to `jpg`. */
  lemma FileExtFallback()
    ensures FileExt("scan.", "application/pdf") == "jpg"
  {
    assert AfterLast("scan.", '.') == "";
    assert !StartsWith("application/pdf", "image/") by {
      assert "application/pdf"[0] != "image/"[0];
    }
  }

  // ---------------------------------------------------------------------------
  // uploadToStorageAsync

  /**
   * The object key an upload goes to: `account/users/user/kind-stamp.ext`, and none
   * (no upload is attempted) when the account id or the user id is missing or empty.
   * `stamp` is the decimal text of `Date.now()`.
   */
  function StorageKey(accountId: Option<string>, userId: Option<string>, kind: ImageKind, stamp: string, ext: string): (key: Option<string>)
    ensures key.Some? <==> accountId.Some? && accountId.value != "" && userId.Some? && userId.value != ""
    ensures key.Some? ==> key.value == UserFolder(accountId.value, userId.value) + ImageFileName(kind, stamp, ext)
  {
    if accountId.None? || accountId.value == "" || userId.None? || userId.value == "" then None
    else Some(UserFolder(accountId.value, userId.value) + ImageFileName(kind, stamp, ext))
  }

  /** `account/users/user/`, the folder of one user's images. */
  function UserFolder(accountId: string, userId: string): string
  {
    accountId + "/users/" + userId + "/"
  }

  /** `kind-stamp.ext`, the file name inside that folder. */
  function ImageFileName(kind: ImageKind, stamp: string, ext: string): string
  {
    KindName(kind) + "-" + stamp + "." + ext
  }

  /** The key lies in the user's folder, and its first path segment is the account id (when the id holds no `/`). */
  lemma StorageKeyFolder(accountId: string, userId: string, kind: ImageKind, stamp: string, ext: string)
    requires accountId != "" && userId != ""
    requires forall i :: 0 <= i < |accountId| ==> accountId[i] != '/'
    ensures var key := StorageKey(Some(accountId), Some(userId), kind, stamp, ext).value;
      StartsWith(key, UserFolder(accountId, userId)) && BeforeFirst(key, '/') == accountId
  {
    var file := ImageFileName(kind, stamp, ext);
    var key := StorageKey(Some(accountId), Some(userId), kind, stamp, ext).value;
    var folder := UserFolder(accountId, userId);
    InFolder(folder, key, file);
    var rest := "/users/" + userId + "/" + file;
    assert key == accountId + rest by {
      Associate(accountId, "/users/" + userId + "/", file);
    }
    BeforeFirstPrefix(accountId, rest, '/');
  }

  lemma InFolder(folder: string, key: string, file: string)
    requires key == folder + file
    ensures StartsWith(key, folder)
  {
    assert key[..|folder|] == folder;
  }

  lemma Associate(a: string, b: string, c: string)
    ensures a + b + c == a + (b + c)
  {
  }

  // ---------------------------------------------------------------------------
  // The membership account ids

  /**
   * `Array.from(new Set(ids.filter(Boolean)))`, with `seen` holding the ids already
   * taken: the non-empty ids, each once, at its first occurrence.
   */
  function DistinctIds(ids: seq<string>, seen: set<string>): (r: seq<string>)
    ensures |r| <= |ids|
  {
    if ids == [] then []
    else if ids[0] == "" || ids[0] in seen then DistinctIds(ids[1..], seen)
    else [ids[0]] + DistinctIds(ids[1..], seen + {ids[0]})
  }

  function AccountIds(membershipAccountIds: seq<string>): (r: seq<string>)
    ensures |r| <= |membershipAccountIds|
  {
    DistinctIds(membershipAccountIds, {})
  }

  /** The ids kept are exactly the non-empty ones not yet seen. */
  lemma {:induction false} DistinctIdsMembers(ids: seq<string>, seen: set<string>, x: string)
    ensures x in DistinctIds(ids, seen) <==> x in ids && x != "" && x !in seen
  {
    if ids != [] {
      DistinctIdsMembers(ids[1..], seen, x);
      DistinctIdsMembers(ids[1..], seen + {ids[0]}, x);
      assert x in ids <==> x == ids[0] || x in ids[1..];
    }
  }

  /** No id is kept twice. */
  lemma {:induction false} DistinctIdsDistinct(ids: seq<string>, seen: set<string>)
    ensures forall i, j :: 0 <= i < j < |DistinctIds(ids, seen)| ==> DistinctIds(ids, seen)[i] != DistinctIds(ids, seen)[j]
  {
    if ids != [] {
      DistinctIdsDistinct(ids[1..], seen);
      DistinctIdsDistinct(ids[1..], seen + {ids[0]});
      if ids[0] != "" && ids[0] !in seen {
        var tail := DistinctIds(ids[1..], seen + {ids[0]});
        DistinctIdsMembers(ids[1..], seen + {ids[0]}, ids[0]);
        assert forall j :: 0 <= j < |tail| ==> tail[j] != ids[0];
        assert DistinctIds(ids, seen) == [ids[0]] + tail;
      }
    }
  }

  /** The index of the first occurrence of `x`. */
  function FirstIndex(ids: seq<string>, x: string): (k: nat)
    requires x in ids
    ensures k < |ids| && ids[k] == x
    ensures forall j :: 0 <= j < k ==> ids[j] != x
  {
    if ids[0] == x then 0 else 1 + FirstIndex(ids[1..], x)
  }

  /** Every element of `r` occurs in `ids`, and earlier elements first occur earlier. */
  predicate InFirstOrder(r: seq<string>, ids: seq<string>)
  {
    forall i, j :: 0 <= i < j < |r| ==> r[i] in ids && r[j] in ids && FirstIndex(ids, r[i]) < FirstIndex(ids, r[j])
  }

  /** Behind a head it does not contain, a sequence ordered by the tail of `ids` is ordered by `ids`. */
  lemma OrderedBehindHead(ids: seq<string>, tail: seq<string>)
    requires ids != [] && InFirstOrder(tail, ids[1..])
    requires forall k :: 0 <= k < |tail| ==> tail[k] in ids[1..] && tail[k] != ids[0]
    ensures InFirstOrder(tail, ids)
    ensures InFirstOrder([ids[0]] + tail, ids)
  {
    forall k | 0 <= k < |tail| ensures tail[k] in ids && FirstIndex(ids, tail[k]) == 1 + FirstIndex(ids[1..], tail[k]) {
      assert ids == [ids[0]] + ids[1..];
    }
    var r := [ids[0]] + tail;
    forall i, j | 0 <= i < j < |r| ensures r[i] in ids && r[j] in ids && FirstIndex(ids, r[i]) < FirstIndex(ids, r[j]) {
      assert r[j] == tail[j - 1];
      if i > 0 {
        assert r[i] == tail[i - 1];
      }
    }
  }

  /** The kept ids come in the order of their first occurrences. */
  lemma {:induction false} DistinctIdsOrdered(ids: seq<string>, seen: set<string>)
    ensures InFirstOrder(DistinctIds(ids, seen), ids)
  {
    if ids == [] {
      assert DistinctIds(ids, seen) == [];
    } else {
      var seen' := if ids[0] == "" || ids[0] in seen then seen else seen + {ids[0]};
      var tail := DistinctIds(ids[1..], seen');
      DistinctIdsOrdered(ids[1..], seen');
      forall k | 0 <= k < |tail| ensures tail[k] in ids[1..] && tail[k] != ids[0] {
        DistinctIdsMembers(ids[1..], seen', tail[k]);
      }
      OrderedBehindHead(ids, tail);
    }
  }

  /** The account ids the page fetches: the non-empty membership account ids, each once, in order of first occurrence. */
  lemma AccountIdsSpec(membershipAccountIds: seq<string>)
    ensures forall x :: x in AccountIds(membershipAccountIds) <==> x in membershipAccountIds && x != ""
    ensures forall i, j :: 0 <= i < j < |AccountIds(membershipAccountIds)| ==>
      AccountIds(membershipAccountIds)[i] != AccountIds(membershipAccountIds)[j]
    ensures forall i, j :: 0 <= i < j < |AccountIds(membershipAccountIds)| ==>
      FirstIndex(membershipAccountIds, AccountIds(membershipAccountIds)[i]) <
      FirstIndex(membershipAccountIds, AccountIds(membershipAccountIds)[j])
  {
    forall x {
      DistinctIdsMembers(membershipAccountIds, {}, x);
    }
    DistinctIdsDistinct(membershipAccountIds, {});
    DistinctIdsOrdered(membershipAccountIds, {});
  }

  /**
   * The `forEach` that fills `accountsById` from the fetched rows: an id maps to its
   * row when one came back, and ids without a row are left out.
   */
  method AccountsById(ids: seq<string>, fetched: seq<Option<Json.Record>>) returns (m: map<string, Json.Record>)
    requires |fetched| == |ids|
    requires forall i, j :: 0 <= i < j < |ids| ==> ids[i] != ids[j]
    ensures forall id :: id in m <==> exists k :: 0 <= k < |ids| && ids[k] == id && fetched[k].Some?
    ensures forall k :: 0 <= k < |ids| && fetched[k].Some? ==> ids[k] in m && m[ids[k]] == fetched[k].value
  {
    m := map[];
    for n := 0 to |ids|
      invariant forall id :: id in m <==> exists k :: 0 <= k < n && ids[k] == id && fetched[k].Some?
      invariant forall k :: 0 <= k < n && fetched[k].Some? ==> ids[k] in m && m[ids[k]] == fetched[k].value
    {
      if fetched[n].Some? {
        m := m[ids[n] := fetched[n].value];
      }
    }
  }

  // ---------------------------------------------------------------------------
  // RoleBadge

  /** `RoleBadge`: "Member" without a role, else the role with its first letter in upper case. */
  function RoleLabel(role: Option<string>): (caption: string)
    ensures role.None? || role.value == "" ==> caption == "Member"
    ensures role.Some? && role.value != "" ==>
      |caption| == |role.value| && caption[0] == UpperChar(role.value[0]) && caption[1..] == role.value[1..]
  {
    if role.None? || role.value == "" then "Member" else [UpperChar(role.value[0])] + role.value[1..]
  }

  lemma RoleLabelExamples()
    ensures RoleLabel(Some("admin")) == "Admin"
    ensures RoleLabel(Some("default")) == "Default"
    ensures RoleLabel(None) == "Member"
  {
  }
}
