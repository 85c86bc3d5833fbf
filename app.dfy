/**
 * The signed-in identity: how an authentication user becomes a `(user, role,
 * membership, account)` record, creating the user row, a personal account and an
 * admin membership on first sign-in; and how the controller publishes that record
 * only for the newest request, using a generation counter.
 *
 * The database tables the controller reads and writes are modelled as a typed
 * `Backend` value. An upsert writes its row under the row's id, an insert adds its
 * row, and both are assumed to succeed; the id of a new membership and the current
 * time are parameters.
 */
module App {
  import opened Js

  datatype User = User(id: string, createdAt: string, name: string, email: string)
  datatype Account = Account(id: string, createdAt: string, name: string)
  datatype Membership = Membership(
    id: string,
    createdAt: string,
    lastAccessedAt: string,
    userId: string,
    accountId: string,
    role: string)

  /** `UserInfo`: role and membership come from the same row; the account may be missing. */
  datatype UserInfo = UserInfo(user: User, role: Option<string>, membership: Option<Membership>, account: Option<Account>)

  /** The parts of the authentication user the controller reads; metadata values are strings or absent. */
  datatype SupUser = SupUser(id: string, email: Option<string>, metaName: Option<string>, metaAccountName: Option<string>)

  datatype Backend = Backend(users: map<string, User>, accounts: map<string, Account>, memberships: seq<Membership>)

  /** Rows are stored under their own ids. */
  predicate WellKeyed(b: Backend)
  {
    (forall k :: k in b.users ==> b.users[k].id == k) &&
    (forall k :: k in b.accounts ==> b.accounts[k].id == k)
  }

  /** `!supUser.email`. */
  predicate HasEmail(su: SupUser)
  {
    su.email.Some? && su.email.value != ""
  }

  /** `meta || email.split('@')[0] || fallback`. */
  function DisplayName(meta: Option<string>, email: string, fallback: string): (n: string)
    requires fallback != ""
    ensures n != ""
    ensures meta.Some? && meta.value != "" ==> n == meta.value
    ensures !(meta.Some? && meta.value != "") && BeforeFirst(email, '@') != "" ==> n == BeforeFirst(email, '@')
    ensures !(meta.Some? && meta.value != "") && BeforeFirst(email, '@') == "" ==> n == fallback
    ensures n == fallback || n == BeforeFirst(email, '@') || (meta.Some? && n == meta.value)
  {
    if meta.Some? && meta.value != "" then meta.value
    else if BeforeFirst(email, '@') != "" then BeforeFirst(email, '@')
    else fallback
  }

  /** `createUserAsync`: no row without an email; otherwise one under the authentication id. */
  function NewUser(su: SupUser, now: string): (u: Option<User>)
    ensures u.Some? <==> HasEmail(su)
    ensures u.Some? ==> u.value.id == su.id && u.value.email == su.email.value && u.value.name != ""
    ensures u.Some? ==> u.value.name == DisplayName(su.metaName, su.email.value, "New User")
  {
    if !HasEmail(su) then None
    else Some(User(su.id, now, DisplayName(su.metaName, su.email.value, "New User"), su.email.value))
  }

  /** `createAccountForUserAsync`: the personal account shares the authentication id. */
  function NewAccount(su: SupUser, now: string): (a: Option<Account>)
    ensures a.Some? <==> HasEmail(su)
    ensures a.Some? ==> a.value.id == su.id && a.value.name != ""
    ensures a.Some? ==> a.value.name == DisplayName(su.metaAccountName, su.email.value, "New Account")
  {
    if !HasEmail(su) then None
    else Some(Account(su.id, now, DisplayName(su.metaAccountName, su.email.value, "New Account")))
  }

  /** The membership `createAccountWithMembershipAsync` inserts. */
  function NewMembership(account: Account, su: SupUser, now: string, id: string): (m: Membership)
    ensures m.role == "admin" && m.lastAccessedAt == m.createdAt == now
    ensures m.userId == su.id && m.accountId == account.id && m.id == id
  {
    Membership(id, now, now, su.id, account.id, "admin")
  }

  /** Lexicographic order on code points, which is time order for ISO timestamps. */
  predicate StrLeq(a: string, b: string)
  {
    a == [] || (b != [] && (a[0] < b[0] || (a[0] == b[0] && StrLeq(a[1..], b[1..]))))
  }

  lemma {:induction false} StrLeqTotal(a: string, b: string)
    ensures StrLeq(a, b) || StrLeq(b, a)
  {
    if a != [] && b != [] && a[0] == b[0] {
      StrLeqTotal(a[1..], b[1..]);
    }
  }

  lemma {:induction false} StrLeqTrans(a: string, b: string, c: string)
    requires StrLeq(a, b) && StrLeq(b, c)
    ensures StrLeq(a, c)
  {
    if a != [] && a[0] == b[0] && b[0] == c[0] {
      StrLeqTrans(a[1..], b[1..], c[1..]);
    }
  }

  /** The `.eq` / `.match` conditions on the membership table: each column given must hold that value. */
  datatype MembershipQuery = MembershipQuery(userId: Option<string>, accountId: Option<string>)

  predicate Satisfies(m: Membership, q: MembershipQuery)
  {
    (q.userId.Some? ==> m.userId == q.userId.value) && (q.accountId.Some? ==> m.accountId == q.accountId.value)
  }

  /** The membership rows a query selects, in storage order. */
  function Where(ms: seq<Membership>, q: MembershipQuery): (r: seq<Membership>)
    ensures |r| <= |ms|
    ensures forall m :: m in r <==> m in ms && Satisfies(m, q)
  {
    if ms == [] then []
    else if Satisfies(ms[0], q) then [ms[0]] + Where(ms[1..], q)
    else Where(ms[1..], q)
  }

  /** `.eq('user_id', userId)` on the membership table. */
  function MembershipsOf(ms: seq<Membership>, userId: string): (r: seq<Membership>)
    ensures forall m :: m in r <==> m in ms && m.userId == userId
  {
    Where(ms, MembershipQuery(Some(userId), None))
  }

  /** Selecting from two row lists laid end to end selects from each, in order. */
  lemma {:induction false} WhereAppend(ms: seq<Membership>, extra: seq<Membership>, q: MembershipQuery)
    ensures Where(ms + extra, q) == Where(ms, q) + Where(extra, q)
  {
    if ms == [] {
      assert ms + extra == extra;
    } else {
      var t := ms + extra;
      assert t[0] == ms[0] && t[1..] == ms[1..] + extra;
      WhereAppend(ms[1..], extra, q);
    }
  }

  /** The only row of `ms` that satisfies `q` is the one at position `i`. */
  predicate OnlyMatchAt(ms: seq<Membership>, q: MembershipQuery, i: int)
  {
    0 <= i < |ms| && Satisfies(ms[i], q) && forall j :: 0 <= j < |ms| && j != i ==> !Satisfies(ms[j], q)
  }

  /** A query selects exactly one row precisely when exactly one position satisfies it, and then that row. */
  lemma {:induction false} WhereOne(ms: seq<Membership>, q: MembershipQuery)
    ensures |Where(ms, q)| == 1 <==> exists i :: OnlyMatchAt(ms, q, i)
    ensures forall i :: OnlyMatchAt(ms, q, i) ==> Where(ms, q) == [ms[i]]
  {
    if ms != [] {
      var rest := ms[1..];
      WhereOne(rest, q);
      assert forall j :: 1 <= j < |ms| ==> ms[j] == rest[j - 1];
      if Satisfies(ms[0], q) {
        if Where(rest, q) == [] {
          forall j | 1 <= j < |ms| ensures !Satisfies(ms[j], q) {
            assert ms[j] in rest;
          }
          assert OnlyMatchAt(ms, q, 0);
        } else {
          var w := Where(rest, q)[0];
          assert w in Where(rest, q);
          var k :| 0 <= k < |rest| && rest[k] == w;
          assert Satisfies(ms[k + 1], q);
          forall i | 0 <= i < |ms| ensures !OnlyMatchAt(ms, q, i) {
            if i == 0 {
              assert k + 1 != i;
            }
          }
        }
      } else {
        forall i | OnlyMatchAt(ms, q, i) ensures i > 0 && OnlyMatchAt(rest, q, i - 1) {
          forall j | 0 <= j < |rest| && j != i - 1 ensures !Satisfies(rest[j], q) {
            assert rest[j] == ms[j + 1];
          }
        }
        forall i | 0 <= i < |rest| && OnlyMatchAt(rest, q, i) ensures OnlyMatchAt(ms, q, i + 1) {
          forall j | 0 <= j < |ms| && j != i + 1 ensures !Satisfies(ms[j], q) {
            if j > 0 {
              assert ms[j] == rest[j - 1];
            }
          }
        }
        if exists i :: OnlyMatchAt(rest, q, i) {
          var i :| OnlyMatchAt(rest, q, i);
          assert OnlyMatchAt(ms, q, i + 1);
        }
      }
    }
  }

  /** `.order('last_accessed_at', {ascending: false}).limit(1)`: the most recently used row, the earliest of a tie. */
  function Latest(ms: seq<Membership>): (r: Option<Membership>)
    ensures r.None? <==> ms == []
    ensures r.Some? ==> r.value in ms
    ensures r.Some? ==> forall m :: m in ms ==> StrLeq(m.lastAccessedAt, r.value.lastAccessedAt)
  {
    if ms == [] then None
    else
      var rest := Latest(ms[1..]);
      if rest.None? then
        StrLeqTotal(ms[0].lastAccessedAt, ms[0].lastAccessedAt);
        assert ms == [ms[0]];
        Some(ms[0])
      else
        StrLeqTotal(rest.value.lastAccessedAt, ms[0].lastAccessedAt);
        if StrLeq(rest.value.lastAccessedAt, ms[0].lastAccessedAt) then
          LatestHead(ms, rest.value);
          Some(ms[0])
        else
          Some(rest.value)
  }

  lemma LatestHead(ms: seq<Membership>, best: Membership)
    requires ms != []
    requires forall m :: m in ms[1..] ==> StrLeq(m.lastAccessedAt, best.lastAccessedAt)
    requires StrLeq(best.lastAccessedAt, ms[0].lastAccessedAt)
    ensures forall m :: m in ms ==> StrLeq(m.lastAccessedAt, ms[0].lastAccessedAt)
  {
    forall m | m in ms ensures StrLeq(m.lastAccessedAt, ms[0].lastAccessedAt) {
      if m != ms[0] {
        assert m in ms[1..];
        StrLeqTrans(m.lastAccessedAt, best.lastAccessedAt, ms[0].lastAccessedAt);
      } else {
        StrLeqTotal(m.lastAccessedAt, m.lastAccessedAt);
      }
    }
  }

  function LookupAccount(accounts: map<string, Account>, id: string): (a: Option<Account>)
    ensures a.Some? <==> id in accounts
    ensures a.Some? ==> a.value == accounts[id]
  {
    if id in accounts then Some(accounts[id]) else None
  }

  /**
   * `supUserToUserAsync`: finds or creates the user, takes the most recently used
   * membership or creates an account with an admin membership, and looks up that
   * membership's account. `None` is the `null` answer for a user that could not be had.
   */
  function SupUserToUser(b: Backend, su: SupUser, now: string, newMembershipId: string): (res: (Backend, Option<UserInfo>))
    ensures su.id !in b.users && !HasEmail(su) ==> res.1.None?
    ensures su.id in b.users || HasEmail(su) ==> res.1.Some?
    ensures res.1.Some? ==> var info := res.1.value;
      (info.membership.None? ==> info.role.None? && info.account.None?) &&
      (info.membership.Some? ==> info.role == Some(info.membership.value.role)) &&
      (info.membership.Some? ==> info.account == LookupAccount(res.0.accounts, info.membership.value.accountId)) &&
      (WellKeyed(b) && info.account.Some? ==> info.account.value.id == info.membership.value.accountId)
    // The user: the stored row, else the one created, which is then stored.
    ensures su.id in b.users ==> res.1.Some? && res.1.value.user == b.users[su.id] && res.0.users == b.users
    ensures su.id !in b.users && HasEmail(su) ==>
      res.1.Some? && res.1.value.user == NewUser(su, now).value && res.0.users == b.users[su.id := NewUser(su, now).value]
    ensures res.1.None? ==> res.0 == b
    // The membership: the user's most recently used one, else a new admin membership of a new personal account.
    ensures res.1.Some? ==> var info := res.1.value;
      var latest := Latest(MembershipsOf(b.memberships, info.user.id));
      (latest.Some? ==> info.membership == latest && res.0.accounts == b.accounts && res.0.memberships == b.memberships) &&
      (latest.None? && NewAccount(su, now).Some? ==>
         var a := NewAccount(su, now).value;
         var m := NewMembership(a, su, now, newMembershipId);
         info.membership == Some(m) && res.0.accounts == b.accounts[a.id := a] && res.0.memberships == b.memberships + [m]) &&
      (latest.None? && NewAccount(su, now).None? ==>
         info.membership.None? && res.0.accounts == b.accounts && res.0.memberships == b.memberships)
    ensures WellKeyed(b) ==> WellKeyed(res.0)
  {
    var (b1, user) :=
      if su.id in b.users then (b, Some(b.users[su.id]))
      else
        match NewUser(su, now)
        case None => (b, None)
        case Some(u) => (b.(users := b.users[u.id := u]), Some(u));
    if user.None? then (b1, None)
    else
      var (b2, membership) :=
        match Latest(MembershipsOf(b1.memberships, user.value.id))
        case Some(m) => (b1, Some(m))
        case None =>
          match NewAccount(su, now)
          case None => (b1, None)
          case Some(a) =>
            var m := NewMembership(a, su, now, newMembershipId);
            (b1.(accounts := b1.accounts[a.id := a], memberships := b1.memberships + [m]), Some(m));
      var account := if membership.Some? then LookupAccount(b2.accounts, membership.value.accountId) else None;
      var role := if membership.Some? then Some(membership.value.role) else None;
      (b2, Some(UserInfo(user.value, role, membership, account)))
  }

  /**
   * On first sign-in of someone with an email and no rows yet, exactly one user row,
   * one personal account and one admin membership are created, and all three are returned.
   */
  lemma FirstSignInCreatesRows(b: Backend, su: SupUser, now: string, mid: string)
    requires HasEmail(su) && su.id !in b.users && MembershipsOf(b.memberships, su.id) == []
    ensures var (b1, info) := SupUserToUser(b, su, now, mid);
      var a := NewAccount(su, now).value;
      info.Some? &&
      info.value.user == NewUser(su, now).value &&
      info.value.membership == Some(NewMembership(a, su, now, mid)) &&
      info.value.role == Some("admin") &&
      info.value.account == Some(a) &&
      b1.users == b.users[su.id := NewUser(su, now).value] &&
      b1.accounts == b.accounts[su.id := a] &&
      b1.memberships == b.memberships + [NewMembership(a, su, now, mid)]
  {
  }

  /**
   * Resolving again right after a resolution gives the same record and creates
   * nothing: the backend is left as the first resolution made it.
   */
  lemma {:induction false} SupUserToUserIdempotent(b: Backend, su: SupUser, now: string, mid: string, now2: string, mid2: string)
    requires WellKeyed(b)
    ensures var (b1, info) := SupUserToUser(b, su, now, mid);
      SupUserToUser(b1, su, now2, mid2) == (b1, info)
  {
    var (b1, info) := SupUserToUser(b, su, now, mid);
    if info.Some? {
      var u := info.value.user;
      assert u.id == su.id;
      if Latest(MembershipsOf(b.memberships, su.id)).None? && NewAccount(su, now).Some? {
        var m := NewMembership(NewAccount(su, now).value, su, now, mid);
        var q := MembershipQuery(Some(su.id), None);
        WhereAppend(b.memberships, [m], q);
        assert Where([m], q) == [m];
        assert MembershipsOf(b1.memberships, su.id) == [m];
      }
    }
  }

  /** A user with no row and no email stays unresolved. */
  lemma NoEmailNoUser(b: Backend, su: SupUser, now: string, mid: string)
    requires su.id !in b.users && !HasEmail(su)
    ensures SupUserToUser(b, su, now, mid) == (b, None)
  {
  }

  /** The published value: `null` while loading, `undefined` for a guest, or the record. */
  datatype Loadable = Loading | Guest | Loaded(info: UserInfo)

  predicate Truthy(v: Loadable) { v.Loaded? }

  /** `userInfo?.membership?.id`. */
  function CurrentMembershipId(v: Loadable): (id: Option<string>)
    ensures id.Some? ==> v.Loaded? && v.info.membership.Some? && id.value == v.info.membership.value.id
    ensures v.Loaded? && v.info.membership.Some? ==> id.Some?
  {
    if v.Loaded? && v.info.membership.Some? then Some(v.info.membership.value.id) else None
  }

  /** The membership `setLastMembershipAccessAsync` touches: the argument if truthy, else the current one, if truthy. */
  function LastAccessTarget(arg: Option<string>, current: Loadable): (t: Option<string>)
    ensures t.None? <==> !(arg.Some? && arg.value != "") && !(CurrentMembershipId(current).Some? && CurrentMembershipId(current).value != "")
    ensures arg.Some? && arg.value != "" ==> t == arg
    ensures t.Some? ==> t.value != ""
  {
    if arg.Some? && arg.value != "" then arg
    else
      var c := CurrentMembershipId(current);
      if c.Some? && c.value != "" then c else None
  }

  function TouchMembership(ms: seq<Membership>, id: string, now: string): (r: seq<Membership>)
    ensures |r| == |ms|
    ensures forall i :: 0 <= i < |ms| ==> r[i] == if ms[i].id == id then ms[i].(lastAccessedAt := now) else ms[i]
  {
    seq(|ms|, i requires 0 <= i < |ms| => if ms[i].id == id then ms[i].(lastAccessedAt := now) else ms[i])
  }

  /**
   * `.match({user_id, account_id}).single()` on the membership table: the row when
   * exactly one has both ids, otherwise nothing.
   */
  function FindMembership(ms: seq<Membership>, userId: string, accountId: string): (r: Option<Membership>)
    ensures var q := MembershipQuery(Some(userId), Some(accountId));
      (r.Some? <==> exists i :: OnlyMatchAt(ms, q, i)) &&
      (forall i :: OnlyMatchAt(ms, q, i) ==> r == Some(ms[i]))
    ensures r.Some? ==> r.value in ms && r.value.userId == userId && r.value.accountId == accountId
  {
    var q := MembershipQuery(Some(userId), Some(accountId));
    var hits := Where(ms, q);
    WhereOne(ms, q);
    if |hits| == 1 then
      assert hits[0] in hits;
      Some(hits[0])
    else None
  }

  class AppCtrl {
    /** `_userInfo.value`. */
    var userInfo: Loadable
    /** Every value passed to `_userInfo.next`, oldest first. */
    var published: seq<Loadable>
    /** `_updateId`: the generation of the newest request. */
    var updateId: nat
    var backend: Backend

    constructor (backend: Backend)
      ensures userInfo == Loading && published == [] && updateId == 0 && this.backend == backend
    {
      userInfo := Loading;
      published := [];
      updateId := 0;
      this.backend := backend;
    }

    method Publish(v: Loadable)
      modifies this`userInfo, this`published
      ensures userInfo == v && published == old(published) + [v]
    {
      userInfo := v;
      published := published + [v];
    }

    /** The start of the auth-state callback: takes a new generation. */
    method AuthStateChanged() returns (uid: nat)
      modifies this`updateId
      ensures updateId == old(updateId) + 1 && uid == updateId
    {
      updateId := updateId + 1;
      uid := updateId;
    }

    /**
     * The delayed part of the callback, up to the point where it waits for the
     * resolution. A stale generation does nothing; no session publishes the guest;
     * a session publishes loading and resolves the user, whose result is returned
     * for `CommitResolution`.
     */
    method AuthTimerFired(uid: nat, session: Option<SupUser>, now: string, newMembershipId: string)
      returns (pending: Option<Option<UserInfo>>)
      modifies this`userInfo, this`published, this`backend
      ensures uid != old(updateId) ==>
        pending.None? && userInfo == old(userInfo) && published == old(published) && backend == old(backend)
      ensures uid == old(updateId) && session.None? ==>
        pending.None? && userInfo == Guest && published == old(published) + [Guest] && backend == old(backend)
      ensures uid == old(updateId) && session.Some? ==>
        var (b1, info) := SupUserToUser(old(backend), session.value, now, newMembershipId);
        pending == Some(info) && userInfo == Loading && published == old(published) + [Loading] && backend == b1
    {
      if uid != updateId {
        return None;
      }
      if session.None? {
        Publish(Guest);
        return None;
      }
      Publish(Loading);
      var (b1, info) := SupUserToUser(backend, session.value, now, newMembershipId);
      backend := b1;
      pending := Some(info);
    }

    /** After the resolution: publish it only if no newer request has started, then mark the membership used. */
    method CommitResolution(uid: nat, info: Option<UserInfo>, now: string)
      modifies this`userInfo, this`published, this`backend
      ensures uid != updateId ==> userInfo == old(userInfo) && published == old(published) && backend == old(backend)
      ensures uid == updateId ==>
        userInfo == (if info.Some? then Loaded(info.value) else Loading) && published == old(published) + [userInfo]
      ensures uid == updateId ==> var t := LastAccessTarget(None, userInfo);
        backend == if t.Some? then old(backend).(memberships := TouchMembership(old(backend).memberships, t.value, now)) else old(backend)
    {
      if uid == updateId {
        Publish(if info.Some? then Loaded(info.value) else Loading);
        var _ := SetLastMembershipAccess(None, now);
      }
    }

    /** `setLastMembershipAccessAsync`: false when there is no membership to touch. */
    method SetLastMembershipAccess(membershipId: Option<string>, now: string) returns (touched: bool)
      modifies this`backend
      ensures var t := LastAccessTarget(membershipId, userInfo);
        touched == t.Some? &&
        backend == if t.Some? then old(backend).(memberships := TouchMembership(old(backend).memberships, t.value, now)) else old(backend)
    {
      var target := LastAccessTarget(membershipId, userInfo);
      if target.None? {
        return false;
      }
      backend := backend.(memberships := TouchMembership(backend.memberships, target.value, now));
      touched := true;
    }

    /**
     * The start of `switchAccountAsync`: nothing when nobody is signed in; otherwise a
     * new generation, and when the user has a membership in the account, that
     * membership is marked used and the generation is returned for the rest.
     */
    method SwitchAccountBegin(accountId: string, now: string) returns (token: Option<nat>)
      modifies this`updateId, this`backend
      ensures !Truthy(old(userInfo)) ==> token.None? && updateId == old(updateId) && backend == old(backend)
      ensures Truthy(old(userInfo)) ==> updateId == old(updateId) + 1
      ensures Truthy(old(userInfo)) ==>
        var m := FindMembership(old(backend).memberships, old(userInfo).info.user.id, accountId);
        (m.None? ==> token.None? && backend == old(backend)) &&
        (m.Some? ==>
           token == Some(updateId) &&
           backend == if m.value.id != "" then old(backend).(memberships := TouchMembership(old(backend).memberships, m.value.id, now))
                      else LastAccessBackend(old(backend), old(userInfo), now))
    {
      if !Truthy(userInfo) {
        return None;
      }
      var uid := updateId + 1;
      updateId := uid;
      var membership := FindMembership(backend.memberships, userInfo.info.user.id, accountId);
      if membership.None? {
        return None;
      }
      var _ := SetLastMembershipAccess(Some(membership.value.id), now);
      token := Some(uid);
    }

    /** The end of `switchAccountAsync`: re-resolve the authenticated user and publish if still newest. */
    method SwitchAccountComplete(uid: nat, authUser: Option<SupUser>, now: string, newMembershipId: string)
      modifies this`userInfo, this`published, this`backend
      ensures authUser.None? ==> userInfo == old(userInfo) && published == old(published) && backend == old(backend)
      ensures authUser.Some? ==>
        var (b1, info) := SupUserToUser(old(backend), authUser.value, now, newMembershipId);
        backend == b1 &&
        (uid == updateId ==> userInfo == (if info.Some? then Loaded(info.value) else Loading) && published == old(published) + [userInfo]) &&
        (uid != updateId ==> userInfo == old(userInfo) && published == old(published))
    {
      if authUser.None? {
        return;
      }
      var (b1, info) := SupUserToUser(backend, authUser.value, now, newMembershipId);
      backend := b1;
      if uid == updateId {
        Publish(if info.Some? then Loaded(info.value) else Loading);
      }
    }
  }

  /** The backend after `setLastMembershipAccessAsync()` with no argument. */
  function LastAccessBackend(b: Backend, current: Loadable, now: string): Backend
  {
    var t := LastAccessTarget(None, current);
    if t.Some? then b.(memberships := TouchMembership(b.memberships, t.value, now)) else b
  }

  /**
   * Two auth events in a row: the first one's timer finds its generation stale and does
   * nothing, so only the second session is published.
   */
  method OnlyNewestAuthEventPublishes(app: AppCtrl, first: Option<SupUser>, second: Option<SupUser>, now: string, mid: string)
    modifies app
    ensures second.None? ==> app.userInfo == Guest
    ensures second.Some? ==> app.userInfo == Loading
    ensures app.published == old(app.published) + [app.userInfo]
  {
    var t1 := app.AuthStateChanged();
    var t2 := app.AuthStateChanged();
    var p1 := app.AuthTimerFired(t1, first, now, mid);
    var p2 := app.AuthTimerFired(t2, second, now, mid);
  }

  /**
   * A resolution that finishes after a newer auth event has started is dropped: the
   * newer event's result is what stays published.
   */
  method StaleResolutionIsDropped(app: AppCtrl, first: SupUser, now: string, mid: string)
    modifies app
    ensures app.userInfo == Guest
  {
    var t1 := app.AuthStateChanged();
    var p1 := app.AuthTimerFired(t1, Some(first), now, mid);
    var t2 := app.AuthStateChanged();
    var p2 := app.AuthTimerFired(t2, None, now, mid);
    if p1.Some? {
      app.CommitResolution(t1, p1.value, now);
    }
  }
}
