/** Redeeming invite keys while everything else goes on: a redeemer reads the key, the organization and the
    membership one at a time, then claims a use and inserts the membership in one transaction. */
module Invites {
  import opened Wrappers
  import opened Orgs

  /** How far one `redeem_invite_key` is. The row read keeps its id and organization. */
  datatype Stage =
    | Fresh
    | KeyRead(keyId: KeyId, org: OrgId)
    | OrgRead(keyId: KeyId, org: OrgId)
    | Outside(keyId: KeyId, org: OrgId)
    | Joined(keyId: KeyId, org: OrgId)
    | AlreadyMember(org: OrgId)
    | Failed(error: Error)
  {
    predicate Holds() {
      KeyRead? || OrgRead? || Outside? || Joined?
    }
  }

  datatype Redeemer = Redeemer(hash: string, user: UserId, stage: Stage)

  /** A membership an invite created. */
  datatype Creation = Creation(keyId: KeyId, seat: Seat)

  /** `issued` are the key ids ever given out; `created` is the history of memberships made by redeeming. */
  datatype System = System(db: Db, issued: set<KeyId>, redeemers: seq<Redeemer>, created: seq<Creation>)

  const START: System := System(EMPTY, {}, [], [])

  /** A new redeemer; the next read or the transaction of one (`row` is the key row its SELECT returns); or
      any other call of the store. */
  datatype Event =
    | Arrive(hash: string, user: UserId)
    | Advance(i: nat, row: KeyId, now: real)
    | Other(call: Call)

  function Count(created: seq<Creation>, keyId: KeyId): nat {
    if created == [] then 0
    else Count(created[..|created| - 1], keyId) + if created[|created| - 1].keyId == keyId then 1 else 0
  }

  /** The SELECT by hash and the two checks on the row. */
  function ReadKey(db: Db, r: Redeemer, row: KeyId, now: real): Stage {
    if !HashTaken(db, r.hash) then Failed(Lookup)
    else if row !in db.keys || db.keys[row].tokenHash != r.hash then r.stage
    else if db.keys[row].revoked then Failed(Permission)
    else if db.keys[row].expiresAt.Some? && db.keys[row].expiresAt.value <= now then Failed(Permission)
    else KeyRead(row, db.keys[row].org)
  }

  predicate HasRoom(db: Db, keyId: KeyId) {
    keyId in db.keys && (db.keys[keyId].maxUses.None? || db.keys[keyId].useCount < db.keys[keyId].maxUses.value)
  }

  function UseKey(db: Db, keyId: KeyId): Db
    requires keyId in db.keys
  {
    db.(keys := db.keys[keyId := db.keys[keyId].(useCount := db.keys[keyId].useCount + 1)])
  }

  function SetStage(s: System, i: nat, stage: Stage): System
    requires i < |s.redeemers|
  {
    s.(redeemers := s.redeemers[i := s.redeemers[i].(stage := stage)])
  }

  /** The conditional UPDATE and the INSERT; a failed INSERT rolls the UPDATE back. */
  function Claim(s: System, i: nat): System
    requires i < |s.redeemers| && s.redeemers[i].stage.Outside?
  {
    var (keyId, seat) := (s.redeemers[i].stage.keyId, Seat(s.redeemers[i].stage.org, s.redeemers[i].user));
    if !HasRoom(s.db, keyId) then SetStage(s, i, Failed(Permission))
    else if seat in s.db.members then SetStage(s, i, Failed(Value))
    else
      SetStage(s, i, Joined(keyId, seat.org)).(
        db := SetSeat(UseKey(s.db, keyId), seat, MEMBER), created := s.created + [Creation(keyId, seat)])
  }

  function Do(s: System, e: Event, normalize: UserId -> UserId): System {
    match e
    case Arrive(hash, user) => s.(redeemers := s.redeemers + [Redeemer(hash, Normal(user, normalize), Fresh)])
    case Other(call) =>
      // Key ids are fresh random tokens.
      if call.CreateKey? && call.keyId in s.issued then s
      else
        s.(db := Apply(s.db, call, normalize).db, issued := s.issued + if call.CreateKey? then {call.keyId} else {})
    case Advance(i, row, now) =>
      if i >= |s.redeemers| then s
      else
        var r := s.redeemers[i];
        match r.stage
        case Fresh => SetStage(s, i, ReadKey(s.db, r, row, now))
        case KeyRead(keyId, org) => SetStage(s, i, if org in s.db.orgs then OrgRead(keyId, org) else Failed(Lookup))
        case OrgRead(keyId, org) =>
          SetStage(s, i, if Seat(org, r.user) in s.db.members then AlreadyMember(org) else Outside(keyId, org))
        case Outside(_, _) => Claim(s, i)
        case _ => s
  }

  function Exec(events: seq<Event>, normalize: UserId -> UserId): System {
    if events == [] then START else Do(Exec(events[..|events| - 1], normalize), events[|events| - 1], normalize)
  }

  // ---- what every interleaving keeps ------------------------------------------------------------------

  /** The uses counted are the memberships created, within the limit. */
  predicate Counted(s: System, k: KeyId)
    requires k in s.db.keys
  {
    var key := s.db.keys[k];
    key.useCount == Count(s.created, k) && (key.maxUses.Some? ==> key.useCount <= key.maxUses.value)
  }

  ghost predicate UsesCounted(s: System) {
    forall k :: k in s.db.keys ==> Counted(s, k)
  }

  ghost predicate IdsIssued(s: System) {
    && s.db.keys.Keys <= s.issued
    && forall c :: 0 <= c < |s.created| ==> s.created[c].keyId in s.issued
  }

  /** A key that a redeemer still holds, if it is still there, belongs to the organization it was read with. */
  ghost predicate ReadsStand(s: System) {
    forall i :: 0 <= i < |s.redeemers| && s.redeemers[i].stage.Holds() ==> StageStands(s, s.redeemers[i].stage)
  }

  predicate StageStands(s: System, stage: Stage)
    requires stage.Holds()
  {
    stage.keyId in s.issued && (stage.keyId in s.db.keys ==> s.db.keys[stage.keyId].org == stage.org)
  }

  ghost predicate Sound(s: System) {
    Valid(s.db) && UsesCounted(s) && IdsIssued(s) && ReadsStand(s)
  }

  lemma {:induction false} NeverCreated(created: seq<Creation>, keyId: KeyId)
    requires forall c :: 0 <= c < |created| ==> created[c].keyId != keyId
    ensures Count(created, keyId) == 0
  {
    if created != [] { NeverCreated(created[..|created| - 1], keyId); }
  }

  /** Other calls create unused keys, drop keys, or revoke them; they never touch a use count. */
  lemma OtherKeys(db: Db, call: Call, normalize: UserId -> UserId, k: KeyId)
    requires k in Apply(db, call, normalize).db.keys
    ensures var after := Apply(db, call, normalize).db.keys[k];
            if k in db.keys then after == db.keys[k].(revoked := after.revoked) && (db.keys[k].revoked ==> after.revoked)
            else call.CreateKey? && call.keyId == k && after.useCount == 0 && (after.maxUses.Some? ==> after.maxUses.value >= 1)
  {
    hide SoleOwner;
    hide Owners;
  }

  lemma OtherKeeps(s: System, call: Call, normalize: UserId -> UserId)
    requires Sound(s) && !(call.CreateKey? && call.keyId in s.issued)
    ensures Sound(Do(s, Other(call), normalize))
  {
    hide Apply;
    hide Valid;
    var t := Do(s, Other(call), normalize);
    ApplyKeeps(s.db, call, normalize);
    forall k | k in t.db.keys
      ensures Counted(t, k)
      ensures k in t.issued && (k in s.issued ==> k in s.db.keys && t.db.keys[k].org == s.db.keys[k].org)
    {
      OtherKeys(s.db, call, normalize, k);
      if k in s.db.keys { assert Counted(s, k); }
      if k !in s.db.keys { NeverCreated(s.created, k); }
    }
  }

  lemma StageKeeps(s: System, i: nat, stage: Stage)
    requires Sound(s) && i < |s.redeemers| && (stage.Holds() ==> StageStands(s, stage))
    ensures Sound(SetStage(s, i, stage))
  {
    hide Valid;
    hide Count;
  }

  lemma CountPush(created: seq<Creation>, c: Creation, k: KeyId)
    ensures Count(created + [c], k) == Count(created, k) + if c.keyId == k then 1 else 0
  {
    assert (created + [c])[..|created|] == created;
  }

  lemma ClaimKeeps(s: System, i: nat)
    requires Sound(s) && i < |s.redeemers| && s.redeemers[i].stage.Outside?
    ensures Sound(Claim(s, i))
  {
    hide Valid;
    hide Count;
    var t := Claim(s, i);
    var keyId := s.redeemers[i].stage.keyId;
    if t.created == s.created {
      StageKeeps(s, i, t.redeemers[i].stage);
    } else {
      var seat := Seat(s.redeemers[i].stage.org, s.redeemers[i].user);
      var used := UseKey(s.db, keyId);
      InsideOrg(s.db, keyId);
      KeyValid(s.db, keyId, used.keys[keyId]);
      NewSeatValid(used, seat, MEMBER);
      forall k | k in t.db.keys ensures Counted(t, k) {
        assert Counted(s, k);
        CountPush(s.created, Creation(keyId, seat), k);
      }
    }
  }

  lemma InsideOrg(db: Db, keyId: KeyId)
    requires Valid(db) && keyId in db.keys
    ensures db.keys[keyId].org in db.orgs
  {
  }

  lemma DoKeeps(s: System, e: Event, normalize: UserId -> UserId)
    requires Sound(s)
    ensures Sound(Do(s, e, normalize))
  {
    hide Valid;
    hide UsesCounted;
    hide Apply;
    match e
    case Arrive(_, _) =>
      ArriveKeeps(s, e, normalize);
    case Other(call) =>
      if !(call.CreateKey? && call.keyId in s.issued) { OtherKeeps(s, call, normalize); }
    case Advance(i, row, now) =>
      if i < |s.redeemers| {
        var stage := s.redeemers[i].stage;
        if stage.Outside? {
          ClaimKeeps(s, i);
        } else {
          var t := Do(s, e, normalize);
          assert t == SetStage(s, i, t.redeemers[i].stage);
          StageKeeps(s, i, t.redeemers[i].stage);
        }
      }
  }

  lemma ArriveKeeps(s: System, e: Event, normalize: UserId -> UserId)
    requires Sound(s) && e.Arrive?
    ensures Sound(Do(s, e, normalize))
  {
    hide Valid;
    hide Count;
  }

  /** In every interleaving of redeemers with each other and with all other calls, no key is used more often
      than allowed, each use stands for one membership created, and the organizations stay sound. */
  lemma {:induction false} UsesNeverExceed(events: seq<Event>, normalize: UserId -> UserId, k: KeyId)
    ensures var s := Exec(events, normalize);
            && Valid(s.db)
            && (k in s.db.keys ==> s.db.keys[k].useCount == Count(s.created, k))
            && (k in s.db.keys && s.db.keys[k].maxUses.Some? ==> Count(s.created, k) <= s.db.keys[k].maxUses.value)
  {
    ExecSound(events, normalize);
    if k in Exec(events, normalize).db.keys { assert Counted(Exec(events, normalize), k); }
  }

  lemma {:induction false} ExecSound(events: seq<Event>, normalize: UserId -> UserId)
    ensures Sound(Exec(events, normalize))
  {
    hide Do;
    if events != [] {
      ExecSound(events[..|events| - 1], normalize);
      DoKeeps(Exec(events[..|events| - 1], normalize), events[|events| - 1], normalize);
    }
  }

  /** A redeemer's step either changes no table, or creates one membership: of someone who was no member, in
      an organization that exists, for one use of a key of that organization. */
  lemma StepJoinsOrReads(events: seq<Event>, normalize: UserId -> UserId, i: nat, row: KeyId, now: real)
    ensures var s := Exec(events, normalize);
            var t := Do(s, Advance(i, row, now), normalize);
            || (t.db == s.db && t.created == s.created)
            || (i < |s.redeemers| && s.redeemers[i].stage.Outside?
                && var (keyId, seat) := (s.redeemers[i].stage.keyId, Seat(s.redeemers[i].stage.org, s.redeemers[i].user));
                   && t.created == s.created + [Creation(keyId, seat)] && t.redeemers[i].stage == Joined(keyId, seat.org)
                   && seat !in s.db.members && t.db.members == s.db.members[seat := MEMBER]
                   && seat.org in t.db.orgs && t.db.orgs == s.db.orgs
                   && HasRoom(s.db, keyId) && s.db.keys[keyId].org == seat.org
                   && t.db.keys == s.db.keys[keyId := s.db.keys[keyId].(useCount := s.db.keys[keyId].useCount + 1)])
  {
    hide Exec;
    hide Apply;
    ExecSound(events, normalize);
    var s := Exec(events, normalize);
    if i < |s.redeemers| && s.redeemers[i].stage.Outside? && HasRoom(s.db, s.redeemers[i].stage.keyId) {
      InsideOrg(s.db, s.redeemers[i].stage.keyId);
    }
  }

  // ---- revocation ----------------------------------------------------------------------------------------

  /** A redeemer at the claim joins if and only if the key is there with room and it is no member yet: whether
      the key was revoked or has expired since it was read does not matter. */
  lemma ClaimAdmitsIff(s: System, i: nat, row: KeyId, now: real, normalize: UserId -> UserId)
    requires i < |s.redeemers| && s.redeemers[i].stage.Outside?
    ensures var (r, t) := (s.redeemers[i], Do(s, Advance(i, row, now), normalize));
            && (t.redeemers[i].stage.Joined? <==> HasRoom(s.db, r.stage.keyId) && Seat(r.stage.org, r.user) !in s.db.members)
            && (t.redeemers[i].stage.Joined? <==> t.created != s.created)
            && (!t.redeemers[i].stage.Joined? ==> t.redeemers[i].stage.Failed? && t.db == s.db)
  {
    assert |s.created + [Creation(s.redeemers[i].stage.keyId, Seat(s.redeemers[i].stage.org, s.redeemers[i].user))]| == |s.created| + 1;
  }

  /** A revoked key of this id, gone or still there. */
  predicate OutOfUse(s: System, k: KeyId) {
    k in s.issued && (k in s.db.keys ==> s.db.keys[k].revoked)
  }

  predicate HoldsKey(stage: Stage, k: KeyId) {
    stage.Holds() && stage.keyId == k
  }

  lemma OutOfUseStays(s: System, e: Event, normalize: UserId -> UserId, k: KeyId)
    requires OutOfUse(s, k)
    ensures OutOfUse(Do(s, e, normalize), k)
  {
    hide Apply;
    match e
    case Other(call) => if k in Apply(s.db, call, normalize).db.keys { OtherKeys(s.db, call, normalize, k); }
    case _ =>
  }

  /** A redeemer that does not hold a key out of use never gets hold of it. */
  lemma NeverGetsHold(s: System, e: Event, normalize: UserId -> UserId, k: KeyId, i: nat)
    requires OutOfUse(s, k) && (i < |s.redeemers| ==> !HoldsKey(s.redeemers[i].stage, k))
    ensures var t := Do(s, e, normalize); i < |t.redeemers| ==> !HoldsKey(t.redeemers[i].stage, k)
  {
    hide Apply;
  }

  /** A redeemer that reads a key after its revocation never joins through it, whatever else goes on. */
  lemma {:induction false} ReadTooLateNeverJoins(before: seq<Event>, after: seq<Event>, normalize: UserId -> UserId, k: KeyId, i: nat)
    requires var s := Exec(before, normalize);
             k in s.db.keys && s.db.keys[k].revoked && (i < |s.redeemers| ==> s.redeemers[i].stage.Fresh?)
    ensures var t := Exec(before + after, normalize);
            OutOfUse(t, k) && (i < |t.redeemers| ==> !HoldsKey(t.redeemers[i].stage, k))
    decreases |after|
  {
    hide Do;
    if after == [] {
      assert before + after == before;
      ExecSound(before, normalize);
    } else {
      var (front, e) := (after[..|after| - 1], after[|after| - 1]);
      ReadTooLateNeverJoins(before, front, normalize, k, i);
      assert before + after == (before + front) + [e];
      ExecThen(before + front, e, normalize);
      OutOfUseStays(Exec(before + front, normalize), e, normalize, k);
      NeverGetsHold(Exec(before + front, normalize), e, normalize, k, i);
    }
  }

  lemma ExecThen(events: seq<Event>, e: Event, normalize: UserId -> UserId)
    ensures Exec(events + [e], normalize) == Do(Exec(events, normalize), e, normalize)
  {
    assert (events + [e])[..|events|] == events;
  }

  const LATE_KEY: Key := Key("org", "hash", None, 0, None, false)

  const LATE_DB: Db := Db(map["org" := false], map[Seat("org", "ada") := OWNER], map["k" := LATE_KEY])

  function Late(db: Db, stage: Stage): System {
    System(db, {"k"}, [Redeemer("hash", "eve", stage)], [])
  }

  lemma LateSetup(normalize: UserId -> UserId) returns (events: seq<Event>)
    requires normalize("eve") == "eve"
    ensures Exec(events, normalize) == Late(LATE_DB, Fresh)
  {
    hide Exec;
    var create, key := CreateOrg("org", "ada", false), CreateKey("k", "org", "hash", "prefix", None, None);
    events := [];
    ExecEmpty(normalize);
    ExecThen(events, Other(create), normalize);
    events := events + [Other(create)];
    assert Exec(events, normalize) == System(Db(map["org" := false], map[Seat("org", "ada") := OWNER], map[]), {}, [], []);
    ExecThen(events, Other(key), normalize);
    events := events + [Other(key)];
    assert Exec(events, normalize) == System(LATE_DB, {"k"}, [], []);
    ExecThen(events, Arrive("hash", "eve"), normalize);
    events := events + [Arrive("hash", "eve")];
  }

  lemma ExecEmpty(normalize: UserId -> UserId)
    ensures Exec([], normalize) == START
  {
  }

  lemma LateReads(normalize: UserId -> UserId)
    ensures Do(Late(LATE_DB, Fresh), Advance(0, "k", 0.0), normalize) == Late(LATE_DB, KeyRead("k", "org"))
    ensures Do(Late(LATE_DB, KeyRead("k", "org")), Advance(0, "k", 0.0), normalize) == Late(LATE_DB, OrgRead("k", "org"))
    ensures Do(Late(LATE_DB, OrgRead("k", "org")), Advance(0, "k", 0.0), normalize) == Late(LATE_DB, Outside("k", "org"))
  {
    hide Apply;
    assert HashTaken(LATE_DB, "hash") by { assert LATE_DB.keys["k"].tokenHash == "hash"; }
    assert Seat("org", "eve") !in LATE_DB.members;
  }

  /** Revocation and expiry are looked at once, before the claim: a key revoked between the two still
      admits. */
  lemma RevocationCanComeTooLate(normalize: UserId -> UserId)
    requires normalize("eve") == "eve"
    ensures exists events :: var s := Exec(events, normalize);
              && "k" in s.db.keys && s.db.keys["k"].revoked
              && Seat("org", "eve") !in s.db.members && Seat("org", "eve") in Do(s, Advance(0, "k", 0.0), normalize).db.members
  {
    hide Exec;
    var events := LateSetup(normalize);
    LateReads(normalize);
    ExecThen(events, Advance(0, "k", 0.0), normalize);
    events := events + [Advance(0, "k", 0.0)];
    ExecThen(events, Advance(0, "k", 0.0), normalize);
    events := events + [Advance(0, "k", 0.0)];
    ExecThen(events, Advance(0, "k", 0.0), normalize);
    events := events + [Advance(0, "k", 0.0)];
    ExecThen(events, Other(Revoke("org", "k")), normalize);
    events := events + [Other(Revoke("org", "k"))];
    assert Exec(events, normalize) == Late(LATE_DB.(keys := map["k" := LATE_KEY.(revoked := true)]), Outside("k", "org"));
  }

  // ---- the call by itself -------------------------------------------------------------------------------

  /** One redeemer with nobody else at work. */
  function Alone(db: Db, hash: string, user: UserId): System {
    System(db, {}, [Redeemer(hash, user, Fresh)], [])
  }

  function FourSteps(s: System, row: KeyId, now: real, normalize: UserId -> UserId): System {
    var e := Advance(0, row, now);
    Do(Do(Do(Do(s, e, normalize), e, normalize), e, normalize), e, normalize)
  }

  function ErrorOf(stage: Stage): Option<Error> {
    if stage.Failed? then Some(stage.error) else None
  }

  /** Where the four steps end, and with which tables. */
  lemma FourStepsEnd(db: Db, hash: string, user: UserId, row: KeyId, now: real, normalize: UserId -> UserId)
    ensures var end := FourSteps(Alone(db, hash, user), row, now, normalize);
            |end.redeemers| == 1 &&
            (if !HashTaken(db, hash) then end.redeemers[0].stage == Failed(Lookup) && end.db == db
             else if row !in db.keys || db.keys[row].tokenHash != hash then end.db == db
             else
               var (key, seat) := (db.keys[row], Seat(db.keys[row].org, user));
               if key.revoked || (key.expiresAt.Some? && key.expiresAt.value <= now)
               then end.redeemers[0].stage == Failed(Permission) && end.db == db
               else if key.org !in db.orgs then end.redeemers[0].stage == Failed(Lookup) && end.db == db
               else if seat in db.members then end.redeemers[0].stage == AlreadyMember(key.org) && end.db == db
               else if !HasRoom(db, row) then end.redeemers[0].stage == Failed(Permission) && end.db == db
               else end.redeemers[0].stage == Joined(row, key.org) && end.db == SetSeat(UseKey(db, row), seat, MEMBER))
  {
    hide Apply;
    hide HasRoom;
    hide HashTaken;
    hide SetSeat;
    hide UseKey;
  }

  /** `redeem_invite_key` run through: the four steps of one redeemer in a row. */
  method RedeemInviteKey(store: OrgStore, hash: string, user: UserId, now: real) returns (error: Option<Error>, ghost row: KeyId)
    modifies store
    ensures var end := FourSteps(Alone(old(store.State()), hash, Normal(user, store.normalize)), row, now, store.normalize);
            store.State() == end.db && 0 < |end.redeemers| && error == ErrorOf(end.redeemers[0].stage)
    // `row` is the key of that hash, if there is one; success means membership in its organization.
    ensures HashTaken(old(store.State()), hash) ==> row in old(store.keys) && old(store.keys)[row].tokenHash == hash
    ensures error == None ==> row in old(store.keys) && Seat(old(store.keys)[row].org, Normal(user, store.normalize)) in store.members
  {
    hide FourSteps;
    var uid := Normal(user, store.normalize);
    row := "";
    if !HashTaken(store.State(), hash) {
      FourStepsEnd(store.State(), hash, uid, row, now, store.normalize);
      return Some(Lookup), row;
    }
    var found :| found in store.keys && store.keys[found].tokenHash == hash;
    row := found;
    FourStepsEnd(store.State(), hash, uid, row, now, store.normalize);
    var key := store.keys[found];
    if key.revoked { return Some(Permission), row; }
    if key.expiresAt.Some? && key.expiresAt.value <= now { return Some(Permission), row; }
    if key.org !in store.orgs { return Some(Lookup), row; }
    var seat := Seat(key.org, uid);
    if seat in store.members { return None, row; }
    if !HasRoom(store.State(), found) { return Some(Permission), row; }
    store.keys := store.keys[found := key.(useCount := key.useCount + 1)];
    store.members := store.members[seat := MEMBER];
    return None, row;
  }
}
