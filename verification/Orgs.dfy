/** Organizations, memberships and invite keys: three tables, and the store calls that change them. Here
    every call is atomic; `Invites` interleaves redemption. */
module Orgs {
  import opened Wrappers

  type OrgId = string
  type UserId = string
  type KeyId = string

  const OWNER: string := "owner"
  const MEMBER: string := "member"

  datatype Seat = Seat(org: OrgId, user: UserId)

  datatype Key = Key(org: OrgId, tokenHash: string, maxUses: Option<int>, useCount: nat, expiresAt: Option<real>, revoked: bool)

  /** Organizations carry their claimable flag, memberships their role. */
  datatype Db = Db(orgs: map<OrgId, bool>, members: map<Seat, string>, keys: map<KeyId, Key>)

  const EMPTY: Db := Db(map[], map[], map[])

  /** The exceptions raised. */
  datatype Error = Lookup | Permission | Value | Integrity

  datatype Reply = Reply(db: Db, error: Option<Error>)

  datatype Call =
    | CreateOrg(org: OrgId, owner: UserId, claimable: bool)
    | ClaimOrg(org: OrgId, user: UserId)
    | AddMember(org: OrgId, user: UserId, role: string)
    | SetRole(org: OrgId, user: UserId, role: string)
    | Transfer(org: OrgId, source: UserId, target: UserId)
    | Remove(org: OrgId, user: UserId)
    | Leave(org: OrgId, user: UserId)
    | Delete(org: OrgId, packages: nat)
    | CreateKey(keyId: KeyId, org: OrgId, tokenHash: string, tokenPrefix: string, maxUses: Option<int>, expiresAt: Option<real>)
    | Revoke(org: OrgId, keyId: KeyId)

  predicate IsRole(role: string) {
    role == "owner" || role == "member"
  }

  /** `normalize_user_id(user_id) or user_id`. */
  function Normal(user: UserId, normalize: UserId -> UserId): (id: UserId)
    ensures normalize(user) != "" ==> id == normalize(user)
    ensures normalize(user) == "" ==> id == user
  {
    if normalize(user) == "" then user else normalize(user)
  }

  function Owners(db: Db, org: OrgId): set<UserId> {
    set seat | seat in db.members && seat.org == org && db.members[seat] == "owner" :: seat.user
  }

  /** The owner is the only one left. */
  predicate SoleOwner(db: Db, seat: Seat) {
    seat in db.members && db.members[seat] == OWNER && |Owners(db, seat.org)| <= 1
  }

  function SetSeat(db: Db, seat: Seat, role: string): Db {
    db.(members := db.members[seat := role])
  }

  function DropSeat(db: Db, seat: Seat): Db {
    db.(members := map s | s in db.members && s != seat :: db.members[s])
  }

  function DropOrg(db: Db, org: OrgId): Db {
    Db(map o | o in db.orgs && o != org :: db.orgs[o],
       map s | s in db.members && s.org != org :: db.members[s],
       map k | k in db.keys && db.keys[k].org != org :: db.keys[k])
  }

  predicate HashTaken(db: Db, hash: string) {
    exists k :: k in db.keys && db.keys[k].tokenHash == hash
  }

  /** What each call answers and leaves, run by itself. */
  function Apply(db: Db, call: Call, normalize: UserId -> UserId): Reply {
    var refuse := (e: Error) => Reply(db, Some(e));
    var done := (after: Db) => Reply(after, None);
    match call
    case CreateOrg(org, owner, claimable) =>
      if org in db.orgs || Seat(org, owner) in db.members then refuse(Value)
      else done(SetSeat(db.(orgs := db.orgs[org := claimable]), Seat(org, owner), OWNER))
    case ClaimOrg(org, user) =>
      if org !in db.orgs then refuse(Lookup)
      else if !db.orgs[org] || Owners(db, org) != {} then refuse(Permission)
      else if Seat(org, user) in db.members then refuse(Integrity)
      else done(SetSeat(db.(orgs := db.orgs[org := false]), Seat(org, user), OWNER))
    case AddMember(org, user, role) =>
      if !IsRole(role) then refuse(Value)
      else if org !in db.orgs then refuse(Lookup)
      else if Seat(org, user) in db.members then refuse(Value)
      else done(SetSeat(db, Seat(org, user), role))
    case SetRole(org, user, role) =>
      var seat := Seat(org, Normal(user, normalize));
      if !IsRole(role) then refuse(Value)
      else if seat !in db.members then refuse(Lookup)
      else if db.members[seat] == role then done(db)
      else if role == MEMBER && SoleOwner(db, seat) then refuse(Permission)
      else done(SetSeat(db, seat, role))
    case Transfer(org, source, target) =>
      var from, to := Normal(source, normalize), Normal(target, normalize);
      if from == "" || to == "" || from == to then refuse(Value)
      else if Seat(org, to) !in db.members || Seat(org, from) !in db.members then refuse(Lookup)
      else done(SetSeat(SetSeat(db, Seat(org, to), OWNER), Seat(org, from), MEMBER))
    case Remove(org, user) => RemoveSeat(db, Seat(org, Normal(user, normalize)))
    case Leave(org, user) =>
      var uid := Normal(user, normalize);
      if Seat(org, uid) !in db.members then refuse(Lookup)
      else if SoleOwner(db, Seat(org, uid)) then refuse(Permission)
      else RemoveSeat(db, Seat(org, Normal(uid, normalize)))
    case Delete(org, packages) =>
      if org !in db.orgs then refuse(Lookup) else if packages > 0 then refuse(Value) else done(DropOrg(db, org))
    case CreateKey(keyId, org, hash, prefix, maxUses, expiresAt) =>
      if org !in db.orgs then refuse(Lookup)
      else if (maxUses.Some? && maxUses.value < 1) || hash == "" || prefix == "" then refuse(Value)
      else if keyId in db.keys || HashTaken(db, hash) then refuse(Integrity)
      else done(db.(keys := db.keys[keyId := Key(org, hash, maxUses, 0, expiresAt, false)]))
    case Revoke(org, keyId) =>
      if keyId !in db.keys || db.keys[keyId].org != org then refuse(Lookup)
      else done(db.(keys := db.keys[keyId := db.keys[keyId].(revoked := true)]))
  }

  function RemoveSeat(db: Db, seat: Seat): Reply {
    if seat !in db.members then Reply(db, Some(Lookup))
    else if SoleOwner(db, seat) then Reply(db, Some(Permission))
    else Reply(DropSeat(db, seat), None)
  }

  // ---- the invariant ----------------------------------------------------------------------------------

  ghost predicate Owned(db: Db) {
    forall org :: org in db.orgs ==> exists user :: OwnsIt(db, org, user)
  }

  predicate OwnsIt(db: Db, org: OrgId, user: UserId) {
    Seat(org, user) in db.members && db.members[Seat(org, user)] == OWNER
  }

  /** Every organization has an owner; memberships and keys belong to organizations there are. */
  ghost predicate Valid(db: Db) {
    && Owned(db)
    && (forall seat :: seat in db.members ==> seat.org in db.orgs && IsRole(db.members[seat]))
    && (forall k :: k in db.keys ==> db.keys[k].org in db.orgs)
  }

  lemma OwnersAre(db: Db, org: OrgId, user: UserId)
    ensures user in Owners(db, org) <==> OwnsIt(db, org, user)
  {
  }

  /** A second owner stands by whenever an owner may go. */
  lemma AnotherOwner(db: Db, seat: Seat) returns (user: UserId)
    requires OwnsIt(db, seat.org, seat.user) && !SoleOwner(db, seat)
    ensures user != seat.user && OwnsIt(db, seat.org, user)
  {
    var owners := Owners(db, seat.org);
    assert seat == Seat(seat.org, seat.user) && seat.user in owners;
    assert |owners - {seat.user}| == |owners| - 1;
    user :| user in owners - {seat.user};
  }

  /** The owners of every organization that stays are enough, if each keeps one. */
  lemma StillOwned(db: Db, after: Db, seat: Seat)
    requires Owned(db) && after.orgs.Keys <= db.orgs.Keys
    requires forall s :: s in db.members && s != seat && s.org in after.orgs ==> s in after.members && after.members[s] == db.members[s]
    requires seat.org in after.orgs ==> exists user :: OwnsIt(after, seat.org, user)
    ensures Owned(after)
  {
    forall org | org in after.orgs ensures exists user :: OwnsIt(after, org, user) {
      if org != seat.org {
        var user :| OwnsIt(db, org, user);
        assert OwnsIt(after, org, user);
      }
    }
  }

  lemma LoseOwner(db: Db, after: Db, seat: Seat)
    requires Owned(db) && seat in db.members && !SoleOwner(db, seat) && after.orgs == db.orgs && seat.org in db.orgs
    requires forall s :: s in db.members && s != seat ==> s in after.members && after.members[s] == db.members[s]
    ensures Owned(after)
  {
    assert seat == Seat(seat.org, seat.user);
    if OwnsIt(db, seat.org, seat.user) {
      var user := AnotherOwner(db, seat);
      assert OwnsIt(after, seat.org, user);
    } else {
      var user :| OwnsIt(db, seat.org, user);
      assert OwnsIt(after, seat.org, user);
    }
    StillOwned(db, after, seat);
  }

  /** No call breaks the invariant. */
  lemma ApplyKeeps(db: Db, call: Call, normalize: UserId -> UserId)
    requires Valid(db)
    ensures Valid(Apply(db, call, normalize).db)
  {
    hide Valid;
    hide SoleOwner;
    hide Owners;
    hide DropSeat;
    hide DropOrg;
    if Apply(db, call, normalize).error == None {
      match call
      case CreateOrg(org, owner, claimable) => NewOrgValid(db, Seat(org, owner), claimable);
      case ClaimOrg(org, user) => ClaimedValid(db, Seat(org, user));
      case AddMember(org, user, role) => NewSeatValid(db, Seat(org, user), role);
      case SetRole(org, user, role) => SetRoleValid(db, Seat(org, Normal(user, normalize)), role);
      case Transfer(org, source, target) => TransferValid(db, org, Normal(source, normalize), Normal(target, normalize));
      case Remove(org, user) => DropSeatValid(db, Seat(org, Normal(user, normalize)));
      case Leave(org, user) => DropSeatValid(db, Seat(org, Normal(Normal(user, normalize), normalize)));
      case Delete(org, _) => DropOrgValid(db, org);
      case CreateKey(keyId, org, hash, _, maxUses, expiresAt) => KeyValid(db, keyId, Key(org, hash, maxUses, 0, expiresAt, false));
      case Revoke(org, keyId) => KeyValid(db, keyId, db.keys[keyId].(revoked := true));
    }
  }

  lemma NewOrgValid(db: Db, seat: Seat, claimable: bool)
    requires Valid(db) && seat !in db.members
    ensures Valid(SetSeat(db.(orgs := db.orgs[seat.org := claimable]), seat, OWNER))
  {
    var after := SetSeat(db.(orgs := db.orgs[seat.org := claimable]), seat, OWNER);
    assert seat == Seat(seat.org, seat.user);
    forall org | org in after.orgs ensures exists user :: OwnsIt(after, org, user) {
      if org == seat.org {
        assert OwnsIt(after, org, seat.user);
      } else {
        var user :| OwnsIt(db, org, user);
        assert OwnsIt(after, org, user);
      }
    }
  }

  lemma ClaimedValid(db: Db, seat: Seat)
    requires Valid(db) && seat.org in db.orgs
    ensures Valid(SetSeat(db.(orgs := db.orgs[seat.org := false]), seat, OWNER))
  {
    var after := SetSeat(db.(orgs := db.orgs[seat.org := false]), seat, OWNER);
    assert seat == Seat(seat.org, seat.user) && OwnsIt(after, seat.org, seat.user);
    StillOwned(db, after, seat);
  }

  lemma OwnerValid(db: Db, seat: Seat)
    requires Valid(db) && seat.org in db.orgs
    ensures Valid(SetSeat(db, seat, OWNER))
  {
    var after := SetSeat(db, seat, OWNER);
    assert seat == Seat(seat.org, seat.user) && OwnsIt(after, seat.org, seat.user);
    StillOwned(db, after, seat);
  }

  lemma NewSeatValid(db: Db, seat: Seat, role: string)
    requires Valid(db) && seat !in db.members && seat.org in db.orgs && IsRole(role)
    ensures Valid(SetSeat(db, seat, role))
  {
    var user :| OwnsIt(db, seat.org, user);
    assert OwnsIt(SetSeat(db, seat, role), seat.org, user);
    StillOwned(db, SetSeat(db, seat, role), seat);
  }

  lemma SetRoleValid(db: Db, seat: Seat, role: string)
    requires Valid(db) && seat in db.members && IsRole(role)
    requires db.members[seat] == role || role == OWNER || !SoleOwner(db, seat)
    ensures Valid(SetSeat(db, seat, role)) && (db.members[seat] == role ==> SetSeat(db, seat, role) == db)
  {
    var after := SetSeat(db, seat, role);
    if db.members[seat] == role {
      assert after.members == db.members;
    } else if role == OWNER {
      OwnerValid(db, seat);
    } else {
      LoseOwner(db, after, seat);
    }
  }

  lemma TransferValid(db: Db, org: OrgId, from: UserId, to: UserId)
    requires Valid(db) && from != to && Seat(org, to) in db.members
    ensures Valid(SetSeat(SetSeat(db, Seat(org, to), OWNER), Seat(org, from), MEMBER))
  {
    var mid := SetSeat(db, Seat(org, to), OWNER);
    OwnerValid(db, Seat(org, to));
    assert OwnsIt(mid, org, to);
    BesideOwnerValid(mid, Seat(org, from), to);
  }

  /** Beside another owner any seat may be a member's. */
  lemma BesideOwnerValid(db: Db, seat: Seat, owner: UserId)
    requires Valid(db) && seat.org in db.orgs && owner != seat.user && OwnsIt(db, seat.org, owner)
    ensures Valid(SetSeat(db, seat, MEMBER))
  {
    var after := SetSeat(db, seat, MEMBER);
    assert OwnsIt(after, seat.org, owner);
    StillOwned(db, after, seat);
  }

  lemma DropSeatValid(db: Db, seat: Seat)
    requires Valid(db) && seat in db.members && !SoleOwner(db, seat)
    ensures Valid(DropSeat(db, seat))
  {
    LoseOwner(db, DropSeat(db, seat), seat);
  }

  lemma DropOrgValid(db: Db, org: OrgId)
    requires Valid(db)
    ensures Valid(DropOrg(db, org))
  {
    forall o | o in db.orgs && o != org ensures exists user :: OwnsIt(DropOrg(db, org), o, user) {
      var user :| OwnsIt(db, o, user);
      assert OwnsIt(DropOrg(db, org), o, user);
    }
  }

  lemma KeyValid(db: Db, keyId: KeyId, key: Key)
    requires Valid(db) && (key.org in db.orgs || (keyId in db.keys && key.org == db.keys[keyId].org))
    ensures Valid(db.(keys := db.keys[keyId := key]))
  {
    var after := db.(keys := db.keys[keyId := key]);
    forall org | org in after.orgs ensures exists user :: OwnsIt(after, org, user) {
      var user :| OwnsIt(db, org, user);
      assert OwnsIt(after, org, user);
    }
  }

  // ---- whole runs ----------------------------------------------------------------------------------------

  function Run(calls: seq<Call>, normalize: UserId -> UserId): Db {
    if calls == [] then EMPTY else Apply(Run(calls[..|calls| - 1], normalize), calls[|calls| - 1], normalize).db
  }

  /** After any calls from an empty database, every organization has an owner and no membership or key
      dangles; so `claim_org` is refused whatever it is asked. */
  lemma {:induction false} RunsStayValid(calls: seq<Call>, normalize: UserId -> UserId, org: OrgId, user: UserId)
    ensures Valid(Run(calls, normalize))
    ensures Apply(Run(calls, normalize), ClaimOrg(org, user), normalize).error.Some?
  {
    if calls != [] {
      RunsStayValid(calls[..|calls| - 1], normalize, org, user);
      ApplyKeeps(Run(calls[..|calls| - 1], normalize), calls[|calls| - 1], normalize);
    }
    NeverClaimed(Run(calls, normalize), org, user, normalize);
  }

  lemma NeverClaimed(db: Db, org: OrgId, user: UserId, normalize: UserId -> UserId)
    requires Valid(db)
    ensures Apply(db, ClaimOrg(org, user), normalize) == Reply(db, Some(if org in db.orgs then Permission else Lookup))
  {
    if org in db.orgs {
      var owner :| OwnsIt(db, org, owner);
      OwnersAre(db, org, owner);
    }
  }

  // ---- who owns what after a call --------------------------------------------------------------------

  lemma OwnersSet(db: Db, seat: Seat, role: string, org: OrgId)
    ensures Owners(SetSeat(db, seat, role), org)
         == if org != seat.org then Owners(db, org) else if role == OWNER then Owners(db, org) + {seat.user} else Owners(db, org) - {seat.user}
  {
    var after := SetSeat(db, seat, role);
    assert seat == Seat(seat.org, seat.user);
    forall user ensures user in Owners(after, org) <==>
        if org == seat.org && user == seat.user then role == OWNER else user in Owners(db, org)
    {
      OwnersAre(db, org, user);
      OwnersAre(after, org, user);
    }
  }

  lemma OwnersDropped(db: Db, seat: Seat, org: OrgId)
    ensures Owners(DropSeat(db, seat), org) == if org == seat.org then Owners(db, org) - {seat.user} else Owners(db, org)
  {
    assert seat == Seat(seat.org, seat.user);
    forall user ensures user in Owners(DropSeat(db, seat), org) <==> user in Owners(db, org) && !(org == seat.org && user == seat.user) {
      OwnersAre(db, org, user);
      OwnersAre(DropSeat(db, seat), org, user);
    }
  }

  lemma OwnersOfDeleted(db: Db, gone: OrgId, org: OrgId)
    ensures Owners(DropOrg(db, gone), org) == if org == gone then {} else Owners(db, org)
  {
    forall user ensures user in Owners(DropOrg(db, gone), org) <==> user in Owners(db, org) && org != gone {
      OwnersAre(db, org, user);
      OwnersAre(DropOrg(db, gone), org, user);
    }
  }

  lemma NoOwnersYet(db: Db, org: OrgId)
    requires Valid(db) && org !in db.orgs
    ensures Owners(db, org) == {}
  {
    forall user ensures user !in Owners(db, org) { OwnersAre(db, org, user); }
  }

  /** The owners a call may change, and to what. */
  function OwnersThen(db: Db, call: Call, normalize: UserId -> UserId, org: OrgId): set<UserId> {
    var owners := Owners(db, org);
    match call
    case CreateOrg(o, owner, _) => if o == org then {owner} else owners
    case ClaimOrg(o, user) => if o == org then {user} else owners
    case AddMember(o, user, role) => if o == org && role == OWNER then owners + {user} else owners
    case SetRole(o, user, role) =>
      if o != org then owners else if role == OWNER then owners + {Normal(user, normalize)} else owners - {Normal(user, normalize)}
    case Transfer(o, source, target) =>
      if o == org then owners + {Normal(target, normalize)} - {Normal(source, normalize)} else owners
    case Remove(o, user) => if o == org then owners - {Normal(user, normalize)} else owners
    case Leave(o, user) => if o == org then owners - {Normal(Normal(user, normalize), normalize)} else owners
    case Delete(o, _) => if o == org then {} else owners
    case _ => owners
  }

  /** A call that is done leaves every organization with exactly these owners; one that is refused, with all. */
  lemma OwnersAfter(db: Db, call: Call, normalize: UserId -> UserId, org: OrgId)
    requires Valid(db)
    ensures var reply := Apply(db, call, normalize);
            Owners(reply.db, org) == if reply.error == None then OwnersThen(db, call, normalize, org) else Owners(db, org)
  {
    hide Owners;
    hide SoleOwner;
    hide DropSeat;
    hide DropOrg;
    hide SetSeat;
    hide Valid;
    if Apply(db, call, normalize).error == None {
      match call
      case CreateOrg(o, owner, claimable) =>
        NoOwnersYet(db, o);
        OwnersSet(db.(orgs := db.orgs[o := claimable]), Seat(o, owner), OWNER, org);
        SameOwners(db, db.(orgs := db.orgs[o := claimable]), org);
      case ClaimOrg(o, user) =>
        OwnersSet(db.(orgs := db.orgs[o := false]), Seat(o, user), OWNER, org);
        SameOwners(db, db.(orgs := db.orgs[o := false]), org);
      case AddMember(o, user, role) =>
        OwnersSet(db, Seat(o, user), role, org);
        OwnersAre(db, o, user);
      case SetRole(o, user, role) =>
        OwnersSet(db, Seat(o, Normal(user, normalize)), role, org);
        OwnersAre(db, o, Normal(user, normalize));
      case Transfer(o, source, target) =>
        var mid := SetSeat(db, Seat(o, Normal(target, normalize)), OWNER);
        OwnersSet(db, Seat(o, Normal(target, normalize)), OWNER, org);
        OwnersSet(mid, Seat(o, Normal(source, normalize)), MEMBER, org);
      case Remove(o, user) => OwnersDropped(db, Seat(o, Normal(user, normalize)), org);
      case Leave(o, user) => OwnersDropped(db, Seat(o, Normal(Normal(user, normalize), normalize)), org);
      case Delete(o, _) => OwnersOfDeleted(db, o, org);
      case CreateKey(_, _, _, _, _, _) => SameOwners(db, Apply(db, call, normalize).db, org);
      case Revoke(_, _) => SameOwners(db, Apply(db, call, normalize).db, org);
    }
  }

  lemma SameOwners(db: Db, after: Db, org: OrgId)
    requires after.members == db.members
    ensures Owners(after, org) == Owners(db, org)
  {
  }

  // ---- which calls are done, and what every seat holds then -----------------------------------------

  function RoleOf(db: Db, seat: Seat): Option<string> {
    if seat in db.members then Some(db.members[seat]) else None
  }

  /** The seats a call may change, and to what role. */
  function RoleThen(db: Db, call: Call, normalize: UserId -> UserId, seat: Seat): Option<string> {
    var was := RoleOf(db, seat);
    match call
    case CreateOrg(o, owner, _) => if seat == Seat(o, owner) then Some("owner") else was
    case ClaimOrg(o, user) => if seat == Seat(o, user) then Some("owner") else was
    case AddMember(o, user, role) => if seat == Seat(o, user) then Some(role) else was
    case SetRole(o, user, role) => if seat == Seat(o, Normal(user, normalize)) then Some(role) else was
    case Transfer(o, source, target) =>
      if seat == Seat(o, Normal(target, normalize)) then Some("owner")
      else if seat == Seat(o, Normal(source, normalize)) then Some("member") else was
    case Remove(o, user) => if seat == Seat(o, Normal(user, normalize)) then None else was
    case Leave(o, user) => if seat == Seat(o, Normal(Normal(user, normalize), normalize)) then None else was
    case Delete(o, _) => if seat.org == o then None else was
    case _ => was
  }

  /** After a call that is done every seat holds this role; after one that is refused, the role it held. */
  lemma RolesAfter(db: Db, call: Call, normalize: UserId -> UserId, seat: Seat)
    ensures var reply := Apply(db, call, normalize);
            RoleOf(reply.db, seat) == if reply.error == None then RoleThen(db, call, normalize, seat) else RoleOf(db, seat)
  {
    hide SoleOwner;
    hide Owners;
    hide HashTaken;
  }

  function KeyOf(db: Db, keyId: KeyId): Option<Key> {
    if keyId in db.keys then Some(db.keys[keyId]) else None
  }

  /** Every invite key after a call that is done: a new one is as asked for and unused, a revoked one is marked and
      otherwise unchanged, those of a deleted organization are gone, and no other call touches any. */
  lemma KeysAfter(db: Db, call: Call, normalize: UserId -> UserId, keyId: KeyId)
    requires Apply(db, call, normalize).error == None
    ensures var (was, now) := (KeyOf(db, keyId), KeyOf(Apply(db, call, normalize).db, keyId));
            match call
            case CreateKey(id, o, hash, _, maxUses, expiresAt) =>
              if keyId == id then now == Some(Key(o, hash, maxUses, 0, expiresAt, false)) else now == was
            case Revoke(_, id) =>
              if keyId == id then was.Some? && now == Some(was.value.(revoked := true)) else now == was
            case Delete(o, _) => now == if was.Some? && was.value.org == o then None else was
            case _ => now == was
  {
    hide SoleOwner;
    hide Owners;
  }

  /** Every organization after a call that is done: a new one with the flag asked for, a claimed one no longer
      claimable, a deleted one gone, the others as they were. */
  lemma OrgsAfter(db: Db, call: Call, normalize: UserId -> UserId, org: OrgId)
    requires Apply(db, call, normalize).error == None
    ensures var after := Apply(db, call, normalize).db;
            match call
            case CreateOrg(o, _, claimable) => if org == o then org in after.orgs && after.orgs[org] == claimable else SameOrg(db, after, org)
            case ClaimOrg(o, _) => if org == o then org in after.orgs && !after.orgs[org] else SameOrg(db, after, org)
            case Delete(o, _) => if org == o then org !in after.orgs else SameOrg(db, after, org)
            case _ => SameOrg(db, after, org)
  {
    hide SoleOwner;
    hide Owners;
    hide HashTaken;
  }

  predicate SameOrg(a: Db, b: Db, org: OrgId) {
    (org in a.orgs <==> org in b.orgs) && (org in a.orgs ==> b.orgs[org] == a.orgs[org])
  }

  /** Nobody else owns the organization. */
  ghost predicate OwnsAlone(db: Db, seat: Seat) {
    OwnsIt(db, seat.org, seat.user) && forall user :: OwnsIt(db, seat.org, user) ==> user == seat.user
  }

  lemma SoleOwnerIff(db: Db, seat: Seat)
    ensures SoleOwner(db, seat) <==> OwnsAlone(db, seat)
  {
    assert seat == Seat(seat.org, seat.user);
    if SoleOwner(db, seat) {
      OnlyOne(db, seat);
      forall user | OwnsIt(db, seat.org, user) ensures user == seat.user {
        OwnersAre(db, seat.org, user);
        assert user !in Owners(db, seat.org) - {seat.user};
      }
    }
    if OwnsAlone(db, seat) && !SoleOwner(db, seat) {
      var other := AnotherOwner(db, seat);
    }
  }

  /** What a call needs to be done. */
  ghost predicate Allowed(db: Db, call: Call, normalize: UserId -> UserId) {
    match call
    case CreateOrg(o, _, _) => o !in db.orgs
    case ClaimOrg(_, _) => false
    case AddMember(o, user, role) => IsRole(role) && o in db.orgs && Seat(o, user) !in db.members
    case SetRole(o, user, role) =>
      var seat := Seat(o, Normal(user, normalize));
      IsRole(role) && seat in db.members && (role == "member" ==> !OwnsAlone(db, seat))
    case Transfer(o, source, target) =>
      var (from, to) := (Normal(source, normalize), Normal(target, normalize));
      from != "" && to != "" && from != to && Seat(o, from) in db.members && Seat(o, to) in db.members
    case Remove(o, user) =>
      var seat := Seat(o, Normal(user, normalize));
      seat in db.members && !OwnsAlone(db, seat)
    case Leave(o, user) =>
      var (seat, gone) := (Seat(o, Normal(user, normalize)), Seat(o, Normal(Normal(user, normalize), normalize)));
      seat in db.members && !OwnsAlone(db, seat) && gone in db.members && !OwnsAlone(db, gone)
    case Delete(o, packages) => o in db.orgs && packages == 0
    case CreateKey(keyId, o, hash, prefix, maxUses, _) =>
      && o in db.orgs && (maxUses.Some? ==> maxUses.value >= 1) && hash != "" && prefix != ""
      && keyId !in db.keys && forall k :: k in db.keys ==> db.keys[k].tokenHash != hash
    case Revoke(o, keyId) => keyId in db.keys && db.keys[keyId].org == o
  }

  /** On a valid state exactly these calls are done. */
  lemma DoneIff(db: Db, call: Call, normalize: UserId -> UserId)
    requires Valid(db)
    ensures Apply(db, call, normalize).error == None <==> Allowed(db, call, normalize)
  {
    hide SoleOwner;
    hide Owners;
    hide OwnsAlone;
    hide Owned;
    match call
    case ClaimOrg(o, user) => NeverClaimed(db, o, user, normalize);
    case SetRole(o, user, role) =>
      var seat := Seat(o, Normal(user, normalize));
      SoleOwnerIff(db, seat);
      AloneIsOwner(db, seat);
    case Remove(o, user) => SoleOwnerIff(db, Seat(o, Normal(user, normalize)));
    case Leave(o, user) =>
      SoleOwnerIff(db, Seat(o, Normal(user, normalize)));
      SoleOwnerIff(db, Seat(o, Normal(Normal(user, normalize), normalize)));
    case _ =>
  }

  lemma AloneIsOwner(db: Db, seat: Seat)
    ensures OwnsAlone(db, seat) ==> seat in db.members && db.members[seat] == "owner"
  {
    assert seat == Seat(seat.org, seat.user);
  }

  // ---- demotions, removals and transfers in halves ----------------------------------------------------

  /** What a caller wants of an organization. */
  datatype Wish = Demote(seat: Seat) | Drop(seat: Seat) | HandOver(org: OrgId, source: UserId, target: UserId)

  /** One such call: its check and its statements run on separate connections. */
  datatype Caller = Ready(wish: Wish) | Checked(wish: Wish) | Over

  datatype Race = Race(db: Db, callers: seq<Caller>)

  datatype Turn = Check(i: nat) | Write(i: nat) | Whole(call: Call)

  /** `UPDATE ... SET role`, which touches no row if there is no such membership. */
  function UpdateRole(db: Db, seat: Seat, role: string): Db {
    if seat in db.members then SetSeat(db, seat, role) else db
  }

  /** The statements of one transaction. A transfer ignores how many rows its two updates touched. */
  function Written(db: Db, wish: Wish): Db {
    match wish
    case Demote(seat) => UpdateRole(db, seat, MEMBER)
    case Drop(seat) => if seat in db.members then DropSeat(db, seat) else db
    case HandOver(org, source, target) => UpdateRole(UpdateRole(db, Seat(org, target), OWNER), Seat(org, source), MEMBER)
  }

  /** The check lets an owner through who is not the only one, a member if it is to be removed, and a transfer
      between two members. */
  predicate Passes(db: Db, wish: Wish) {
    match wish
    case Demote(seat) => seat in db.members && !SoleOwner(db, seat) && db.members[seat] != MEMBER
    case Drop(seat) => seat in db.members && !SoleOwner(db, seat)
    case HandOver(org, source, target) =>
      source != "" && target != "" && source != target && Seat(org, target) in db.members && Seat(org, source) in db.members
  }

  function Go(r: Race, t: Turn, normalize: UserId -> UserId): Race {
    match t
    case Whole(call) => r.(db := Apply(r.db, call, normalize).db)
    case Check(i) =>
      if i >= |r.callers| || !r.callers[i].Ready? then r
      else r.(callers := r.callers[i := if Passes(r.db, r.callers[i].wish) then Checked(r.callers[i].wish) else Over])
    case Write(i) =>
      if i >= |r.callers| || !r.callers[i].Checked? then r else Race(Written(r.db, r.callers[i].wish), r.callers[i := Over])
  }

  function Turns(r: Race, ts: seq<Turn>, normalize: UserId -> UserId): Race
    decreases ts
  {
    if ts == [] then r else Turns(Go(r, ts[0], normalize), ts[1..], normalize)
  }

  /** It hits the sole owner; a transfer only if its target is gone. */
  predicate HitsLastOwner(db: Db, wish: Wish) {
    match wish
    case Demote(seat) => SoleOwner(db, seat)
    case Drop(seat) => SoleOwner(db, seat)
    case HandOver(org, source, target) => SoleOwner(db, Seat(org, source)) && (Seat(org, target) !in db.members || source == target)
  }

  /** The statement is about to take the last owner away. */
  predicate TakesLastOwner(r: Race, t: Turn) {
    t.Write? && t.i < |r.callers| && r.callers[t.i].Checked? && HitsLastOwner(r.db, r.callers[t.i].wish)
  }

  /** Memberships and keys belong to organizations there are. */
  ghost predicate Linked(db: Db) {
    && (forall seat :: seat in db.members ==> seat.org in db.orgs && IsRole(db.members[seat]))
    && (forall k :: k in db.keys ==> db.keys[k].org in db.orgs)
  }

  /** Taking an owner's seat or role away leaves every organization owned if and only if it is not the sole
      owner's. */
  lemma LosingOwnerIff(db: Db, seat: Seat)
    requires Owned(db) && seat.org in db.orgs && seat in db.members
    ensures Owned(SetSeat(db, seat, MEMBER)) <==> !SoleOwner(db, seat)
    ensures Owned(DropSeat(db, seat)) <==> !SoleOwner(db, seat)
  {
    hide Owned;
    hide DropSeat;
    hide SetSeat;
    if SoleOwner(db, seat) {
      OnlyOne(db, seat);
      OwnersSet(db, seat, MEMBER, seat.org);
      OwnersDropped(db, seat, seat.org);
      OwnerlessIsUnowned(SetSeat(db, seat, MEMBER), seat.org);
      OwnerlessIsUnowned(DropSeat(db, seat), seat.org);
    } else {
      Kept(db, seat);
      LoseOwner(db, SetSeat(db, seat, MEMBER), seat);
      LoseOwner(db, DropSeat(db, seat), seat);
    }
  }

  lemma Kept(db: Db, seat: Seat)
    ensures SetSeat(db, seat, MEMBER).orgs == db.orgs && DropSeat(db, seat).orgs == db.orgs
    ensures forall s :: s in db.members && s != seat ==>
              && s in SetSeat(db, seat, MEMBER).members && SetSeat(db, seat, MEMBER).members[s] == db.members[s]
              && s in DropSeat(db, seat).members && DropSeat(db, seat).members[s] == db.members[s]
  {
  }

  lemma OnlyOne(db: Db, seat: Seat)
    requires SoleOwner(db, seat)
    ensures Owners(db, seat.org) - {seat.user} == {}
    ensures SetSeat(db, seat, MEMBER).orgs == db.orgs && DropSeat(db, seat).orgs == db.orgs
  {
    var owners := Owners(db, seat.org);
    assert seat == Seat(seat.org, seat.user);
    OwnersAre(db, seat.org, seat.user);
    assert |owners - {seat.user}| == |owners| - 1;
  }

  lemma OwnerlessIsUnowned(db: Db, org: OrgId)
    requires org in db.orgs && Owners(db, org) == {}
    ensures !Owned(db)
  {
    forall user ensures !OwnsIt(db, org, user) { OwnersAre(db, org, user); }
  }

  lemma GoKeeps(r: Race, t: Turn, normalize: UserId -> UserId)
    requires Linked(r.db) && Owned(r.db)
    ensures Linked(Go(r, t, normalize).db) && (Owned(Go(r, t, normalize).db) <==> !TakesLastOwner(r, t))
  {
    hide Owned;
    hide HitsLastOwner;
    hide Apply;
    hide Written;
    match t
    case Whole(call) => ApplyKeeps(r.db, call, normalize);
    case Check(_) =>
    case Write(i) => if i < |r.callers| && r.callers[i].Checked? { WrittenKeeps(r.db, r.callers[i].wish); }
  }

  /** The statements leave every organization owned if and only if they do not hit a last owner. */
  lemma WrittenKeeps(db: Db, wish: Wish)
    requires Linked(db) && Owned(db)
    ensures Linked(Written(db, wish)) && (Owned(Written(db, wish)) <==> !HitsLastOwner(db, wish))
  {
    hide Owned;
    hide SoleOwner;
    match wish
    case Demote(seat) => DemoteKeeps(db, seat);
    case Drop(seat) => if seat in db.members { LosingOwnerIff(db, seat); } else { NotThere(db, seat); }
    case HandOver(org, source, target) =>
      if Seat(org, target) in db.members && source != target {
        HandOverValid(db, org, source, target);
      } else {
        DemoteKeeps(db, Seat(org, source));
        if Seat(org, target) in db.members { SetTwice(db, Seat(org, source)); }
      }
  }

  lemma DemoteKeeps(db: Db, seat: Seat)
    requires Linked(db) && Owned(db)
    ensures Linked(UpdateRole(db, seat, MEMBER)) && (Owned(UpdateRole(db, seat, MEMBER)) <==> !SoleOwner(db, seat))
  {
    hide Owned;
    hide SoleOwner;
    if seat in db.members { LosingOwnerIff(db, seat); } else { NotThere(db, seat); }
  }

  lemma HandOverValid(db: Db, org: OrgId, source: UserId, target: UserId)
    requires Linked(db) && Owned(db) && Seat(org, target) in db.members && source != target
    ensures Linked(Written(db, HandOver(org, source, target))) && Owned(Written(db, HandOver(org, source, target)))
  {
    hide Owned;
    OwnerValid(db, Seat(org, target));
    if Seat(org, source) in db.members { TransferValid(db, org, source, target); }
  }

  lemma SetTwice(db: Db, seat: Seat)
    requires seat in db.members
    ensures UpdateRole(UpdateRole(db, seat, OWNER), seat, MEMBER) == UpdateRole(db, seat, MEMBER)
  {
    assert db.members[seat := OWNER][seat := MEMBER] == db.members[seat := MEMBER];
  }

  lemma NotThere(db: Db, seat: Seat)
    requires seat !in db.members
    ensures !SoleOwner(db, seat)
  {
  }

  /** Every organization has an owner before and after each turn. */
  ghost predicate OwnedThroughout(r: Race, ts: seq<Turn>, normalize: UserId -> UserId)
    decreases ts
  {
    Owned(r.db) && (ts != [] ==> OwnedThroughout(Go(r, ts[0], normalize), ts[1..], normalize))
  }

  predicate NeverTakesLast(r: Race, ts: seq<Turn>, normalize: UserId -> UserId)
    decreases ts
  {
    ts != [] ==> !TakesLastOwner(r, ts[0]) && NeverTakesLast(Go(r, ts[0], normalize), ts[1..], normalize)
  }

  /** In every interleaving of halved demotions, removals and transfers with whole calls: every organization keeps an owner
      throughout if and only if no statement hits an owner who is, at that instant, the last one. */
  lemma {:induction false} OwnedThroughoutIff(r: Race, ts: seq<Turn>, normalize: UserId -> UserId)
    requires Linked(r.db) && Owned(r.db)
    ensures OwnedThroughout(r, ts, normalize) <==> NeverTakesLast(r, ts, normalize)
    decreases ts
  {
    hide Owned;
    hide Linked;
    hide TakesLastOwner;
    hide Go;
    if ts != [] {
      GoKeeps(r, ts[0], normalize);
      if Owned(Go(r, ts[0], normalize).db) { OwnedThroughoutIff(Go(r, ts[0], normalize), ts[1..], normalize); }
    }
  }

  /** Check, check, write, write: two owners demoted at once leave none. */
  lemma InterleavedDemotionsLoseOwners(normalize: UserId -> UserId)
    ensures exists r: Race :: Valid(r.db) && !Owned(Turns(r, [Check(0), Check(1), Write(0), Write(1)], normalize).db)
  {
    hide SoleOwner;
    hide SetSeat;
    hide Owners;
    hide Apply;
    hide Turns;
    hide Owned;
    var a, b := Seat("org", "ada"), Seat("org", "bob");
    var db := Db(map["org" := false], map[a := OWNER, b := OWNER], map[]);
    TwoOwners(db, a, b);
    BothDemoted(db, a, b, normalize);
    StillMember(db, a, b);
    var r := Race(db, [Ready(Demote(a)), Ready(Demote(b))]);
    assert Valid(r.db);
    OwnersSet(db, a, MEMBER, "org");
    OwnersSet(SetSeat(db, a, MEMBER), b, MEMBER, "org");
    OwnerlessIsUnowned(SetSeat(SetSeat(db, a, MEMBER), b, MEMBER), "org");
  }

  lemma BothDemoted(db: Db, a: Seat, b: Seat, normalize: UserId -> UserId)
    requires a in db.members && b in db.members && db.members[a] == OWNER && db.members[b] == OWNER
    requires !SoleOwner(db, a) && !SoleOwner(db, b)
    ensures Turns(Race(db, [Ready(Demote(a)), Ready(Demote(b))]), [Check(0), Check(1), Write(0), Write(1)], normalize)
         == Race(SetSeat(SetSeat(db, a, MEMBER), b, MEMBER), [Over, Over])
  {
    hide SoleOwner;
    hide SetSeat;
    hide Apply;
    var r := Race(db, [Ready(Demote(a)), Ready(Demote(b))]);
    var r1 := Race(db, [Checked(Demote(a)), Ready(Demote(b))]);
    var r2 := Race(db, [Checked(Demote(a)), Checked(Demote(b))]);
    var r3 := Race(SetSeat(db, a, MEMBER), [Over, Checked(Demote(b))]);
    StillMember(db, a, b);
    assert Go(r, Check(0), normalize) == r1 && Go(r1, Check(1), normalize) == r2 && Go(r2, Write(0), normalize) == r3;
    FourTurns(r, Check(0), Check(1), Write(0), Write(1), normalize);
  }

  /** Check, check, write, write: the target of a transfer leaves behind its check, and the sole owner is
      demoted for nobody. */
  lemma LateTransferLosesOwner(normalize: UserId -> UserId)
    ensures exists r: Race :: Valid(r.db) && !Owned(Turns(r, [Check(0), Check(1), Write(1), Write(0)], normalize).db)
  {
    hide SoleOwner;
    hide SetSeat;
    hide DropSeat;
    hide Owners;
    hide Apply;
    hide Turns;
    hide Owned;
    var a, b := Seat("org", "ada"), Seat("org", "bob");
    var db := Db(map["org" := false], map[a := OWNER, b := MEMBER], map[]);
    OwnerAndMember(db, a, b);
    HandedToLeaver(db, a, b, normalize);
    var r := Race(db, [Ready(HandOver("org", "ada", "bob")), Ready(Drop(b))]);
    assert Valid(r.db);
    OwnersDropped(db, b, "org");
    OwnersSet(DropSeat(db, b), a, MEMBER, "org");
    Left(db, a, b);
    OwnerlessIsUnowned(SetSeat(DropSeat(db, b), a, MEMBER), "org");
  }

  lemma Left(db: Db, a: Seat, b: Seat)
    requires a in db.members && a != b
    ensures b !in DropSeat(db, b).members && a in DropSeat(db, b).members && SetSeat(DropSeat(db, b), a, MEMBER).orgs == db.orgs
  {
  }

  lemma HandedToLeaver(db: Db, a: Seat, b: Seat, normalize: UserId -> UserId)
    requires a == Seat("org", "ada") && b == Seat("org", "bob") && a in db.members && b in db.members && !SoleOwner(db, b)
    ensures Turns(Race(db, [Ready(HandOver("org", "ada", "bob")), Ready(Drop(b))]), [Check(0), Check(1), Write(1), Write(0)], normalize)
         == Race(SetSeat(DropSeat(db, b), a, MEMBER), [Over, Over])
  {
    hide SoleOwner;
    hide SetSeat;
    hide DropSeat;
    hide Apply;
    var hand := HandOver("org", "ada", "bob");
    var r := Race(db, [Ready(hand), Ready(Drop(b))]);
    var r1 := Race(db, [Checked(hand), Ready(Drop(b))]);
    var r2 := Race(db, [Checked(hand), Checked(Drop(b))]);
    var r3 := Race(DropSeat(db, b), [Checked(hand), Over]);
    Left(db, a, b);
    assert Go(r, Check(0), normalize) == r1 && Go(r1, Check(1), normalize) == r2 && Go(r2, Write(1), normalize) == r3;
    FourTurns(r, Check(0), Check(1), Write(1), Write(0), normalize);
  }

  lemma OwnerAndMember(db: Db, a: Seat, b: Seat)
    requires a == Seat("org", "ada") && b == Seat("org", "bob")
    requires db == Db(map["org" := false], map[a := OWNER, b := MEMBER], map[])
    ensures Valid(db) && !SoleOwner(db, b) && Owners(db, "org") == {"ada"}
  {
    assert OwnsIt(db, "org", "ada");
    OwnersAre(db, "org", "ada");
    OwnersAre(db, "org", "bob");
  }

  lemma StillMember(db: Db, a: Seat, b: Seat)
    requires b in db.members
    ensures b in SetSeat(db, a, MEMBER).members && SetSeat(SetSeat(db, a, MEMBER), b, MEMBER).orgs == db.orgs
  {
  }

  lemma FourTurns(r: Race, a: Turn, b: Turn, c: Turn, d: Turn, normalize: UserId -> UserId)
    ensures Turns(r, [a, b, c, d], normalize) == Go(Go(Go(Go(r, a, normalize), b, normalize), c, normalize), d, normalize)
  {
    hide Go;
    assert [a, b, c, d][1..] == [b, c, d] && [b, c, d][1..] == [c, d] && [c, d][1..] == [d] && [d][1..] == [];
    var r3 := Go(Go(Go(r, a, normalize), b, normalize), c, normalize);
    assert Turns(r3, [d], normalize) == Turns(Go(r3, d, normalize), [], normalize);
    assert Turns(Go(Go(r, a, normalize), b, normalize), [c, d], normalize) == Turns(r3, [d], normalize);
  }

  lemma TwoOwners(db: Db, a: Seat, b: Seat)
    requires a == Seat("org", "ada") && b == Seat("org", "bob")
    requires db == Db(map["org" := false], map[a := OWNER, b := OWNER], map[])
    ensures Valid(db) && !SoleOwner(db, a) && !SoleOwner(db, b) && Owners(db, "org") == {"ada", "bob"}
  {
    assert OwnsIt(db, "org", "ada") && OwnsIt(db, "org", "bob");
    OwnersAre(db, "org", "ada");
    OwnersAre(db, "org", "bob");
    TwoAtLeast(Owners(db, "org"), "ada", "bob");
  }

  lemma TwoAtLeast(s: set<UserId>, x: UserId, y: UserId)
    requires x in s && y in s && x != y
    ensures |s| >= 2
  {
    assert |s - {x}| == |s| - 1 && y in s - {x};
  }

  // ---- the store --------------------------------------------------------------------------------------

  class OrgStore {
    var orgs: map<OrgId, bool>
    var members: map<Seat, string>
    var keys: map<KeyId, Key>
    const normalize: UserId -> UserId

    function State(): Db
      reads this
    {
      Db(orgs, members, keys)
    }

    constructor (normalize: UserId -> UserId)
      ensures State() == EMPTY && Valid(State()) && this.normalize == normalize
    {
      orgs, members, keys := map[], map[], map[];
      this.normalize := normalize;
    }

    method CreateOrganization(org: OrgId, owner: UserId, claimable: bool) returns (error: Option<Error>)
      requires Valid(State())
      modifies this
      ensures Valid(State()) && Reply(State(), error) == Apply(old(State()), CreateOrg(org, owner, claimable), normalize)
    {
      ApplyKeeps(State(), CreateOrg(org, owner, claimable), normalize);
      if org in orgs || Seat(org, owner) in members { return Some(Value); }
      orgs := orgs[org := claimable];
      members := members[Seat(org, owner) := OWNER];
      return None;
    }

    /** It is never done on a valid state: an organization in the table has an owner. */
    method Claim(org: OrgId, user: UserId) returns (error: Option<Error>)
      modifies this
      ensures Reply(State(), error) == Apply(old(State()), ClaimOrg(org, user), normalize)
      ensures Valid(old(State())) ==> State() == old(State()) && error == Some(if org in orgs then Permission else Lookup)
    {
      if Valid(State()) { NeverClaimed(State(), org, user, normalize); }
      if org !in orgs { return Some(Lookup); }
      if !orgs[org] { return Some(Permission); }
      var owners := CountOwners(org);
      if owners > 0 { return Some(Permission); }
      if Seat(org, user) in members { return Some(Integrity); }
      members := members[Seat(org, user) := OWNER];
      orgs := orgs[org := false];
      return None;
    }

    method Add(org: OrgId, user: UserId, role: string) returns (error: Option<Error>)
      requires Valid(State())
      modifies this
      ensures Valid(State()) && Reply(State(), error) == Apply(old(State()), AddMember(org, user, role), normalize)
    {
      ApplyKeeps(State(), AddMember(org, user, role), normalize);
      if role !in {OWNER, MEMBER} { return Some(Value); }
      if org !in orgs { return Some(Lookup); }
      if Seat(org, user) in members { return Some(Value); }
      members := members[Seat(org, user) := role];
      return None;
    }

    method CountOwners(org: OrgId) returns (n: nat)
      ensures n == |Owners(State(), org)|
    {
      var owners := set seat | seat in members && seat.org == org && members[seat] == OWNER :: seat.user;
      n := |owners|;
    }

    method SetMemberRole(org: OrgId, user: UserId, role: string) returns (error: Option<Error>)
      requires Valid(State())
      modifies this
      ensures Valid(State()) && Reply(State(), error) == Apply(old(State()), SetRole(org, user, role), normalize)
    {
      ApplyKeeps(State(), SetRole(org, user, role), normalize);
      if role !in {OWNER, MEMBER} { return Some(Value); }
      var seat := Seat(org, Normal(user, normalize));
      if seat !in members { return Some(Lookup); }
      if members[seat] == role { return None; }
      if members[seat] == OWNER && role == MEMBER {
        var n := CountOwners(org);
        if n <= 1 { return Some(Permission); }
      }
      members := members[seat := role];
      return None;
    }

    /** The caller's own role is not looked at: any member may hand ownership to another, and the
        organization has an owner either way. */
    method TransferOwner(org: OrgId, source: UserId, target: UserId) returns (error: Option<Error>)
      requires Valid(State())
      modifies this
      ensures Valid(State()) && Reply(State(), error) == Apply(old(State()), Transfer(org, source, target), normalize)
    {
      ApplyKeeps(State(), Transfer(org, source, target), normalize);
      var from, to := Normal(source, normalize), Normal(target, normalize);
      if from == "" || to == "" { return Some(Value); }
      if from == to { return Some(Value); }
      if Seat(org, to) !in members { return Some(Lookup); }
      if Seat(org, from) !in members { return Some(Lookup); }
      members := members[Seat(org, to) := OWNER];
      members := members[Seat(org, from) := MEMBER];
      return None;
    }

    method RemoveMember(org: OrgId, user: UserId) returns (error: Option<Error>)
      requires Valid(State())
      modifies this
      ensures Valid(State()) && Reply(State(), error) == Apply(old(State()), Remove(org, user), normalize)
    {
      ApplyKeeps(State(), Remove(org, user), normalize);
      var seat := Seat(org, Normal(user, normalize));
      if seat !in members { return Some(Lookup); }
      if members[seat] == OWNER {
        var n := CountOwners(org);
        if n <= 1 { return Some(Permission); }
      }
      members := map s | s in members && s != seat :: members[s];
      return None;
    }

    /** The normalized id is normalized once more by the removal. */
    method LeaveOrg(org: OrgId, user: UserId) returns (error: Option<Error>)
      requires Valid(State())
      modifies this
      ensures Valid(State()) && Reply(State(), error) == Apply(old(State()), Leave(org, user), normalize)
    {
      var seat := Seat(org, Normal(user, normalize));
      if seat !in members { return Some(Lookup); }
      if members[seat] == OWNER {
        var n := CountOwners(org);
        if n <= 1 { return Some(Permission); }
      }
      error := RemoveMember(org, seat.user);
    }

    method DeleteOrg(org: OrgId, packages: nat) returns (error: Option<Error>)
      requires Valid(State())
      modifies this
      ensures Valid(State()) && Reply(State(), error) == Apply(old(State()), Delete(org, packages), normalize)
      ensures error == None ==> org !in orgs && (forall s :: s in members ==> s.org != org) && forall k :: k in keys ==> keys[k].org != org
    {
      ApplyKeeps(State(), Delete(org, packages), normalize);
      if org !in orgs { return Some(Lookup); }
      if packages > 0 { return Some(Value); }
      keys := map k | k in keys && keys[k].org != org :: keys[k];
      members := map s | s in members && s.org != org :: members[s];
      orgs := map o | o in orgs && o != org :: orgs[o];
      return None;
    }

    method CreateInviteKey(keyId: KeyId, org: OrgId, tokenHash: string, tokenPrefix: string, maxUses: Option<int>, expiresAt: Option<real>)
      returns (error: Option<Error>)
      requires Valid(State())
      modifies this
      ensures Valid(State())
      ensures Reply(State(), error) == Apply(old(State()), CreateKey(keyId, org, tokenHash, tokenPrefix, maxUses, expiresAt), normalize)
    {
      ApplyKeeps(State(), CreateKey(keyId, org, tokenHash, tokenPrefix, maxUses, expiresAt), normalize);
      if org !in orgs { return Some(Lookup); }
      if maxUses.Some? && maxUses.value < 1 { return Some(Value); }
      if tokenHash == "" || tokenPrefix == "" { return Some(Value); }
      if keyId in keys || HashTaken(State(), tokenHash) { return Some(Integrity); }
      keys := keys[keyId := Key(org, tokenHash, maxUses, 0, expiresAt, false)];
      return None;
    }

    method RevokeInviteKey(org: OrgId, keyId: KeyId) returns (error: Option<Error>)
      requires Valid(State())
      modifies this
      ensures Valid(State()) && Reply(State(), error) == Apply(old(State()), Revoke(org, keyId), normalize)
    {
      ApplyKeeps(State(), Revoke(org, keyId), normalize);
      if keyId !in keys || keys[keyId].org != org { return Some(Lookup); }
      if keys[keyId].revoked {
        assert keys == keys[keyId := keys[keyId].(revoked := true)];
        return None;
      }
      keys := keys[keyId := keys[keyId].(revoked := true)];
      return None;
    }
  }
}
