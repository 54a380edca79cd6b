/**
 * The account store: Django's `User` rows, each extended one-to-one by a
 * `UserProfile` carrying the curator flag. A profile is created by the
 * `post_save` receiver the first time a user is saved, starts as a
 * non-curator ("Harvester"), and is deleted with its user (cascade).
 */
module Accounts {
  import opened Options
  import opened PyText

  /** A `User` row. The password is kept as the opaque value it was given. */
  datatype User = User(username: string, email: string, password: string)

  /** A `UserProfile` row: the user it belongs to and its curator flag. */
  datatype Profile = Profile(userId: nat, isCurator: bool)

  /**
   * The two tables: users by primary key, profiles in insertion order, and
   * the primary key the next inserted user receives.
   */
  datatype Store = Store(users: map<nat, User>, profiles: seq<Profile>, nextId: nat)

  const EmptyStore: Store := Store(map[], [], 1)

  /** `User.objects.filter(email=email).exists()`: some row's email equals `email` exactly. */
  predicate EmailInUse(s: Store, email: string) {
    exists id :: id in s.users && s.users[id].email == email
  }

  /** `User.objects.filter(username=username).exists()`: some row's username equals `username` exactly. */
  predicate UsernameInUse(s: Store, username: string) {
    exists id :: id in s.users && s.users[id].username == username
  }

  /** The email column: every address some row holds. */
  function Emails(s: Store): set<string> {
    set id | id in s.users :: s.users[id].email
  }

  /** The username column: every name some row holds. */
  function Usernames(s: Store): set<string> {
    set id | id in s.users :: s.users[id].username
  }

  /** The existence query on `email` asks whether the address is in the email column. */
  lemma EmailQuery(s: Store, email: string)
    ensures EmailInUse(s, email) <==> email in Emails(s)
  {
    if email in Emails(s) {
      var id :| id in s.users && s.users[id].email == email;
    }
  }

  /** The existence query on `username` asks whether the name is in the username column. */
  lemma UsernameQuery(s: Store, username: string)
    ensures UsernameInUse(s, username) <==> username in Usernames(s)
  {
    if username in Usernames(s) {
      var id :| id in s.users && s.users[id].username == username;
    }
  }

  /** How many profiles belong to user `uid`. */
  function ProfileCount(ps: seq<Profile>, uid: nat): (n: nat)
    ensures n <= |ps|
    ensures n == 0 <==> forall k :: 0 <= k < |ps| ==> ps[k].userId != uid
  {
    if |ps| == 0 then 0
    else ProfileCount(ps[..|ps| - 1], uid) + (if ps[|ps| - 1].userId == uid then 1 else 0)
  }

  /** `user.profile`: the profile that belongs to user `uid`, if there is one. */
  function FindProfile(ps: seq<Profile>, uid: nat): (r: Option<Profile>)
    ensures r.None? <==> ProfileCount(ps, uid) == 0
    ensures r.Some? ==> r.value.userId == uid && r.value in ps
  {
    if |ps| == 0 then None
    else if ps[|ps| - 1].userId == uid then Some(ps[|ps| - 1])
    else FindProfile(ps[..|ps| - 1], uid)
  }

  function ProfileOf(s: Store, uid: nat): Option<Profile> {
    FindProfile(s.profiles, uid)
  }

  /**
   * The store states the operations here produce from the empty store:
   * primary keys below the next one, unique usernames, exactly one profile
   * per user, and no profile without its user (the foreign key). "At most
   * one" is the one-to-one field's own constraint; "at least one" holds
   * because every user is created through `post_save`, which adds it.
   */
  predicate Valid(s: Store) {
    && KeysBelowNext(s)
    && UniqueUsernames(s.users)
    && OneProfileEach(s)
    && NoOrphanProfiles(s)
  }

  /** The empty database, before any user is created, is consistent. */
  lemma EmptyStoreValid()
    ensures Valid(EmptyStore)
  {
  }

  /** Every primary key in use is below the one the next insert receives. */
  predicate KeysBelowNext(s: Store) {
    forall id :: id in s.users ==> id < s.nextId
  }

  /** The unique constraint on `username`. */
  predicate UniqueUsernames(users: map<nat, User>) {
    forall a, b :: a in users && b in users && a != b ==> users[a].username != users[b].username
  }

  /** Each user has exactly one profile: at most one by the one-to-one field, at least one by the receiver. */
  predicate OneProfileEach(s: Store) {
    forall id :: id in s.users ==> ProfileCount(s.profiles, id) == 1
  }

  /** The foreign key: each profile belongs to a user that exists. */
  predicate NoOrphanProfiles(s: Store) {
    forall k :: 0 <= k < |s.profiles| ==> s.profiles[k].userId in s.users
  }

  /** In a consistent store every user has its profile, and only one. */
  lemma EveryUserHasOneProfile(s: Store, uid: nat)
    requires Valid(s) && uid in s.users
    ensures ProfileCount(s.profiles, uid) == 1
    ensures ProfileOf(s, uid).Some? && ProfileOf(s, uid).value.userId == uid
  {
  }

  /**
   * The `create_user_profile` receiver, run after every save of user `uid`:
   * on the first save (`created`) it adds one non-curator profile for that
   * user and touches nothing else; on a later save it does nothing.
   */
  function OnUserSaved(s: Store, uid: nat, created: bool): (r: Store)
    ensures r.users == s.users && r.nextId == s.nextId
    ensures ProfileCount(r.profiles, uid) == ProfileCount(s.profiles, uid) + (if created then 1 else 0)
    ensures forall other :: other != uid ==> ProfileCount(r.profiles, other) == ProfileCount(s.profiles, other)
    ensures created ==> ProfileOf(r, uid) == Some(Profile(uid, false))
    ensures forall other :: other != uid ==> ProfileOf(r, other) == ProfileOf(s, other)
    ensures !created ==> r == s
  {
    if created then
      var ps := s.profiles + [Profile(uid, false)];
      assert ps[..|ps| - 1] == s.profiles;
      s.(profiles := ps)
    else
      s
  }

  /**
   * `BaseUserManager.normalize_email`: strip, split at the last `@`, and
   * lower-case the domain part; a text without `@` is returned unchanged.
   */
  function NormalizeEmail(email: string): (r: string)
    ensures |r| <= |email|
    ensures LastIndexOf(Strip(email), '@').None? ==> r == email
    ensures LastIndexOf(Strip(email), '@').Some? ==> SplitLowered(Strip(email), LastIndexOf(Strip(email), '@').value, r)
  {
    var t := Strip(email);
    match LastIndexOf(t, '@')
    case None => email
    case Some(i) =>
      SplitLoweredShape(t, i);
      t[..i] + "@" + Lower(t[i + 1..])
  }

  /**
   * `r` is `t` with the part before index `i` kept, an `@` at `i`, and
   * every character after `i` lower-cased.
   */
  predicate SplitLowered(t: string, i: nat, r: string) {
    && i < |t| && |r| == |t|
    && r[..i] == t[..i] && r[i] == '@'
    && (forall j :: i < j < |r| ==> r[j] == LowerChar(t[j]))
  }

  lemma SplitLoweredShape(t: string, i: nat)
    requires i < |t|
    ensures SplitLowered(t, i, t[..i] + "@" + Lower(t[i + 1..]))
  {
    var dom := Lower(t[i + 1..]);
    var n := t[..i] + "@" + dom;
    forall j | i < j < |n|
      ensures n[j] == LowerChar(t[j])
    {
      assert n[j] == dom[j - i - 1];
    }
    assert n[..i] == t[..i];
  }

  /** An address with no `@` at all is stored as given. */
  lemma NoAtKeptAsGiven(email: string)
    requires forall j :: 0 <= j < |email| ==> email[j] != '@'
    ensures NormalizeEmail(email) == email
  {
    var t := Strip(email);
    forall j | 0 <= j < |t|
      ensures t[j] != '@'
    {
      assert t[j] == email[StripStart(email) + j];
    }
  }

  /** Normalising an address twice changes nothing more. */
  lemma NormalizeEmailIdempotent(email: string)
    ensures NormalizeEmail(NormalizeEmail(email)) == NormalizeEmail(email)
  {
    var t := Strip(email);
    var at := LastIndexOf(t, '@');
    if at.Some? {
      var i := at.value;
      var n := NormalizeEmail(email);
      assert n == t[..i] + "@" + Lower(t[i + 1..]);
      NormalFormIsFixed(t, i, n);
    }
  }

  /** An address already split and lower-cased at its last `@` normalises to itself. */
  lemma NormalFormIsFixed(t: string, i: nat, n: string)
    requires i < |t| && LastIndexOf(t, '@') == Some(i)
    requires !IsSpace(t[0]) && !IsSpace(t[|t| - 1])
    requires n == t[..i] + "@" + Lower(t[i + 1..])
    ensures NormalizeEmail(n) == n
  {
    NormalFormShape(t, i, n);
    NormalizeSplit(n, i);
  }

  /** The facts about a normal form that `normalize_email` looks at: nothing to strip, the same last `@`, a lower-case domain. */
  lemma NormalFormShape(t: string, i: nat, n: string)
    requires i < |t| && LastIndexOf(t, '@') == Some(i)
    requires !IsSpace(t[0]) && !IsSpace(t[|t| - 1])
    requires n == t[..i] + "@" + Lower(t[i + 1..])
    ensures Strip(n) == n && LastIndexOf(n, '@') == Some(i)
    ensures n[..i] + "@" + Lower(n[i + 1..]) == n
  {
    NormalFormStripped(t, i, n);
    NormalFormKeepsAt(t, i, n);
  }

  lemma NormalFormStripped(t: string, i: nat, n: string)
    requires i < |t| && t[i] == '@'
    requires !IsSpace(t[0]) && !IsSpace(t[|t| - 1])
    requires n == t[..i] + "@" + Lower(t[i + 1..])
    ensures Strip(n) == n
  {
    NormalizedIsStripped(t, i);
    StripUntrimmed(n);
  }

  lemma NormalFormKeepsAt(t: string, i: nat, n: string)
    requires i < |t| && LastIndexOf(t, '@') == Some(i)
    requires n == t[..i] + "@" + Lower(t[i + 1..])
    ensures LastIndexOf(n, '@') == Some(i)
    ensures n[..i] + "@" + Lower(n[i + 1..]) == n
  {
    NoAtAfter(t, i, n);
    LastIndexOfAt(n, '@', i);
    DomainStaysLower(t, i, n);
  }

  lemma DomainStaysLower(t: string, i: nat, n: string)
    requires i < |t| && |n| == |t| && n[i] == '@'
    requires n[i + 1..] == Lower(t[i + 1..])
    ensures n[..i] + "@" + Lower(n[i + 1..]) == n
  {
    LowerIdempotent(t[i + 1..]);
    assert n[..i] + [n[i]] + n[i + 1..] == n;
  }

  /** How `normalize_email` rebuilds an already stripped address from its last `@`. */
  lemma NormalizeSplit(n: string, i: nat)
    requires Strip(n) == n && LastIndexOf(n, '@') == Some(i)
    ensures NormalizeEmail(n) == n[..i] + "@" + Lower(n[i + 1..])
  {
  }

  lemma NoAtAfter(t: string, i: nat, n: string)
    requires i < |t| && LastIndexOf(t, '@') == Some(i)
    requires n == t[..i] + "@" + Lower(t[i + 1..])
    ensures |n| == |t| && n[i] == '@'
    ensures n[..i] == t[..i] && n[i + 1..] == Lower(t[i + 1..])
    ensures forall j :: i < j < |n| ==> n[j] != '@'
  {
    var dom := Lower(t[i + 1..]);
    assert n[i + 1..] == dom;
    forall j | i < j < |n|
      ensures n[j] != '@'
    {
      assert n[j] == dom[j - i - 1] == LowerChar(t[j]);
    }
  }

  lemma NormalizedIsStripped(t: string, i: nat)
    requires i < |t| && t[i] == '@'
    requires !IsSpace(t[0]) && !IsSpace(t[|t| - 1])
    ensures var n := t[..i] + "@" + Lower(t[i + 1..]);
            !IsSpace(n[0]) && !IsSpace(n[|n| - 1])
  {
    var dom := Lower(t[i + 1..]);
    var n := t[..i] + "@" + dom;
    assert '@' !in Whitespace;
    if i > 0 {
      assert n[0] == t[0];
    }
    if dom != [] {
      assert n[|n| - 1] == dom[|dom| - 1] == LowerChar(t[|t| - 1]);
    }
  }

  lemma LastIndexOfAt(s: string, c: char, i: nat)
    requires i < |s| && s[i] == c
    requires forall j :: i < j < |s| ==> s[j] != c
    ensures LastIndexOf(s, c) == Some(i)
  {
  }

  lemma LowerIdempotent(s: string)
    ensures Lower(Lower(s)) == Lower(s)
  {
  }

  /** The primary key and table state after `User.objects.create_user`. */
  datatype Created = Created(store: Store, id: nat)

  /**
   * `User.objects.create_user(username, email, password)`: refuses an empty
   * or already-taken username (the database's unique constraint); otherwise
   * inserts one user under the next primary key with its email normalised,
   * and the `post_save` receiver gives it one non-curator profile.
   */
  function CreateUser(s: Store, username: string, email: string, password: string): (r: Option<Created>)
    requires Valid(s)
    ensures r.None? <==> username == [] || UsernameInUse(s, username)
    ensures r.Some? ==> Valid(r.value.store)
    ensures r.Some? ==> r.value.id == s.nextId && r.value.id !in s.users
    ensures r.Some? ==> r.value.store.users == s.users[r.value.id := User(username, NormalizeEmail(email), password)]
    ensures r.Some? ==> ProfileOf(r.value.store, r.value.id) == Some(Profile(r.value.id, false))
    ensures r.Some? ==> forall other :: other != r.value.id ==> ProfileOf(r.value.store, other) == ProfileOf(s, other)
  {
    if username == [] || UsernameInUse(s, username) then None
    else
      var id := s.nextId;
      var inserted := Store(s.users[id := User(username, NormalizeEmail(email), password)], s.profiles, s.nextId + 1);
      InsertedUserValid(s, id, User(username, NormalizeEmail(email), password));
      Some(Created(OnUserSaved(inserted, id, true), id))
  }

  /** A fresh row plus the profile the receiver adds for it keeps the store consistent. */
  lemma InsertedUserValid(s: Store, id: nat, u: User)
    requires Valid(s) && id == s.nextId && !UsernameInUse(s, u.username)
    ensures Valid(OnUserSaved(Store(s.users[id := u], s.profiles, s.nextId + 1), id, true))
  {
    var r := OnUserSaved(Store(s.users[id := u], s.profiles, s.nextId + 1), id, true);
    InsertedUsernamesUnique(s, id, u);
    InsertedKeysBelowNext(s, id, u, r);
    InsertedOneProfileEach(s, id, u, r);
    InsertedNoOrphans(s, id, u, r);
  }

  lemma InsertedKeysBelowNext(s: Store, id: nat, u: User, r: Store)
    requires KeysBelowNext(s) && id == s.nextId
    requires r == OnUserSaved(Store(s.users[id := u], s.profiles, s.nextId + 1), id, true)
    ensures KeysBelowNext(r) && r.users == s.users[id := u]
  {
  }

  lemma InsertedOneProfileEach(s: Store, id: nat, u: User, r: Store)
    requires KeysBelowNext(s) && OneProfileEach(s) && NoOrphanProfiles(s) && id == s.nextId
    requires r == OnUserSaved(Store(s.users[id := u], s.profiles, s.nextId + 1), id, true)
    ensures OneProfileEach(r)
  {
    assert ProfileCount(s.profiles, id) == 0;
  }

  lemma InsertedNoOrphans(s: Store, id: nat, u: User, r: Store)
    requires NoOrphanProfiles(s)
    requires r == OnUserSaved(Store(s.users[id := u], s.profiles, s.nextId + 1), id, true)
    ensures NoOrphanProfiles(r)
  {
    assert r.profiles == s.profiles + [Profile(id, false)];
  }

  lemma InsertedUsernamesUnique(s: Store, id: nat, u: User)
    requires UniqueUsernames(s.users) && KeysBelowNext(s) && id == s.nextId
    requires !UsernameInUse(s, u.username)
    ensures UniqueUsernames(s.users[id := u])
  {
  }

  /**
   * Saving an existing user again (`user.save()`): the row is replaced, the
   * unique username constraint may refuse it, and since the save is not a
   * creation the receiver adds no profile.
   */
  function SaveUser(s: Store, uid: nat, u: User): (r: Option<Store>)
    requires Valid(s) && uid in s.users
    ensures r.None? <==> exists other :: other in s.users && other != uid && s.users[other].username == u.username
    ensures r.Some? ==> Valid(r.value)
    ensures r.Some? ==> r.value.users == s.users[uid := u] && r.value.profiles == s.profiles
  {
    if exists other :: other in s.users && other != uid && s.users[other].username == u.username then None
    else Some(OnUserSaved(s.(users := s.users[uid := u]), uid, false))
  }

  function SetFlag(ps: seq<Profile>, uid: nat, flag: bool): (r: seq<Profile>)
    ensures |r| == |ps|
    ensures forall k :: 0 <= k < |ps| ==> r[k].userId == ps[k].userId
    ensures forall k :: 0 <= k < |ps| ==> r[k].isCurator == if ps[k].userId == uid then flag else ps[k].isCurator
  {
    if |ps| == 0 then []
    else
      var last := ps[|ps| - 1];
      SetFlag(ps[..|ps| - 1], uid, flag) + [if last.userId == uid then Profile(uid, flag) else last]
  }

  lemma {:induction false} SetFlagKeepsCounts(ps: seq<Profile>, uid: nat, flag: bool, x: nat)
    ensures ProfileCount(SetFlag(ps, uid, flag), x) == ProfileCount(ps, x)
    ensures FindProfile(SetFlag(ps, uid, flag), x)
         == if x == uid && ProfileCount(ps, x) > 0 then Some(Profile(uid, flag)) else FindProfile(ps, x)
  {
    if |ps| > 0 {
      var r := SetFlag(ps, uid, flag);
      assert r[..|r| - 1] == SetFlag(ps[..|ps| - 1], uid, flag);
      SetFlagKeepsCounts(ps[..|ps| - 1], uid, flag, x);
    }
  }

  /**
   * `user.profile.is_curator = flag; user.profile.save()`: the profile of
   * user `uid` takes the flag; users and every other profile stay as they are.
   */
  function SetCurator(s: Store, uid: nat, flag: bool): (r: Store)
    requires Valid(s)
    ensures Valid(r)
    ensures r.users == s.users && r.nextId == s.nextId
    ensures uid in s.users ==> ProfileOf(r, uid) == Some(Profile(uid, flag))
    ensures forall other :: other != uid ==> ProfileOf(r, other) == ProfileOf(s, other)
  {
    var r := s.(profiles := SetFlag(s.profiles, uid, flag));
    forall x
      ensures ProfileCount(r.profiles, x) == ProfileCount(s.profiles, x)
      ensures FindProfile(r.profiles, x)
           == if x == uid && ProfileCount(s.profiles, x) > 0 then Some(Profile(uid, flag)) else FindProfile(s.profiles, x)
    {
      SetFlagKeepsCounts(s.profiles, uid, flag, x);
    }
    r
  }

  function DropProfiles(ps: seq<Profile>, uid: nat): (r: seq<Profile>)
    ensures forall k :: 0 <= k < |r| ==> r[k].userId != uid && r[k] in ps
  {
    if |ps| == 0 then []
    else
      var rest := DropProfiles(ps[..|ps| - 1], uid);
      if ps[|ps| - 1].userId == uid then rest else rest + [ps[|ps| - 1]]
  }

  lemma {:induction false} DropProfilesCounts(ps: seq<Profile>, uid: nat, x: nat)
    ensures ProfileCount(DropProfiles(ps, uid), x) == if x == uid then 0 else ProfileCount(ps, x)
    ensures x != uid ==> FindProfile(DropProfiles(ps, uid), x) == FindProfile(ps, x)
  {
    if |ps| > 0 {
      var rest := DropProfiles(ps[..|ps| - 1], uid);
      DropProfilesCounts(ps[..|ps| - 1], uid, x);
      if ps[|ps| - 1].userId != uid {
        assert (rest + [ps[|ps| - 1]])[..|rest|] == rest;
      }
    }
  }

  /**
   * Deleting user `uid`: its row goes, and with it (`on_delete=CASCADE`)
   * its profile; every other user keeps its row and its profile.
   */
  function DeleteUser(s: Store, uid: nat): (r: Store)
    requires Valid(s)
    ensures Valid(r)
    ensures uid !in r.users && ProfileCount(r.profiles, uid) == 0
    ensures r.users == s.users - {uid}
    ensures forall other :: other != uid ==> ProfileOf(r, other) == ProfileOf(s, other)
  {
    var r := Store(s.users - {uid}, DropProfiles(s.profiles, uid), s.nextId);
    forall x
      ensures ProfileCount(r.profiles, x) == if x == uid then 0 else ProfileCount(s.profiles, x)
      ensures x != uid ==> FindProfile(r.profiles, x) == FindProfile(s.profiles, x)
    {
      DropProfilesCounts(s.profiles, uid, x);
    }
    DeletionLeavesNoOrphans(s, r, uid);
    r
  }

  lemma DeletionLeavesNoOrphans(s: Store, r: Store, uid: nat)
    requires NoOrphanProfiles(s)
    requires r.users == s.users - {uid} && r.profiles == DropProfiles(s.profiles, uid)
    ensures NoOrphanProfiles(r)
  {
    forall k | 0 <= k < |r.profiles|
      ensures r.profiles[k].userId in r.users
    {
      var j :| 0 <= j < |s.profiles| && s.profiles[j] == r.profiles[k];
    }
  }

  const CuratorRole: string := "Curator"
  const HarvesterRole: string := "Harvester"

  /** `str(profile)`: the username, " - ", and the role name. */
  function ProfileLabel(username: string, isCurator: bool): (r: string)
    ensures |r| > |username| && r[..|username|] == username
  {
    username + " - " + (if isCurator then CuratorRole else HarvesterRole)
  }

  /** Reads a label back into the username and curator flag it was made from. */
  function ParseLabel(text: string): Option<(string, bool)> {
    var c := " - " + CuratorRole;
    var h := " - " + HarvesterRole;
    if |text| >= |c| && text[|text| - |c|..] == c then Some((text[..|text| - |c|], true))
    else if |text| >= |h| && text[|text| - |h|..] == h then Some((text[..|text| - |h|], false))
    else None
  }

  /** A profile label names its user and role unambiguously. */
  lemma LabelRoundTrip(username: string, isCurator: bool)
    ensures ParseLabel(ProfileLabel(username, isCurator)) == Some((username, isCurator))
  {
    var l := ProfileLabel(username, isCurator);
    var c := " - " + CuratorRole;
    if isCurator {
      assert l == username + c;
      assert l[|l| - |c|..] == c;
      assert l[..|l| - |c|] == username;
    } else {
      var h := " - " + HarvesterRole;
      assert l == username + h;
      assert l[|l| - |c|..][1] == 'H';
      assert l[|l| - |h|..] == h;
      assert l[..|l| - |h|] == username;
    }
  }

  /** Two profiles have the same label only if they have the same username and role. */
  lemma LabelInjective(u1: string, c1: bool, u2: string, c2: bool)
    requires ProfileLabel(u1, c1) == ProfileLabel(u2, c2)
    ensures u1 == u2 && c1 == c2
  {
    LabelRoundTrip(u1, c1);
    LabelRoundTrip(u2, c2);
  }
}
