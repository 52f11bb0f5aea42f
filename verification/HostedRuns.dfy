/** Any number of workers, cancel requests and stale reclaims over one job table. Each SQL statement is
    one step; between two statements of one caller every other caller may move. */
module HostedRuns {
  import opened Wrappers
  import opened HostedJobs

  /** Where a call stands. A drain's worker id is its own number: a fresh token per call. */
  datatype Proc =
    | DrainStart
    | DrainClaimed(claimed: JobId)                     // the UPDATE hit `claimed`; the SELECT is next
    | DrainRunning(claimed: JobId, job: JobId)         // `job` is the row the SELECT returned
    | DrainSettling(claimed: JobId, job: JobId, canceled: bool)
    | DrainTrue(claimed: JobId, job: JobId)
    | DrainFalse
    | DrainLost(claimed: JobId)                        // claimed a row, but the SELECT found none
    | CancelStart(job: JobId)
    | CancelSeen(job: JobId, seen: Status)
    | CancelMissed(job: JobId)                         // seen queued, but the UPDATE hit no row
    | CancelDone(job: JobId)
    | CancelNotFound
    | ReclaimStart(before: real)
    | ReclaimHalf(before: real)
    | ReclaimDone

  /** `claims`: the claimed jobs in order. `settles`: how often a statement made a row terminal. */
  datatype Sys = Sys(db: Table, procs: seq<Proc>, claims: seq<JobId>, settles: multiset<JobId>)

  datatype Action =
    | Create(id: JobId, at: real)
    | Spawn(p: Proc)
    | ClaimUpdate(i: nat, pick: JobId, now: real)
    | ClaimSelect(i: nat, pick: JobId)
    | ReadFlag(i: nat)
    | Finish(i: nat, v: Verdict, now: real)
    | LookUp(i: nat)
    | CancelUpdate(i: nat, now: real)
    | MarkUpdate(i: nat)
    | CancelStaleUpdate(i: nat, now: real)
    | RequeueUpdate(i: nat)

  const START := Sys(map[], [], [], multiset{})

  function Move(s: Sys, i: nat, p: Proc): Sys
    requires i < |s.procs|
  {
    s.(procs := s.procs[i := p])
  }

  /** The rows a statement turned terminal. */
  function Settled(a: Table, b: Table): set<JobId> {
    set id | id in a && id in b && !Terminal(a[id].status) && Terminal(b[id].status)
  }

  function Write(s: Sys, db: Table): Sys {
    s.(db := db, settles := s.settles + multiset(Settled(s.db, db)))
  }

  /** Rows of one worker that `SELECT_CLAIMED` sees. */
  predicate Mine(db: Table, i: nat, id: JobId) {
    id in db && db[id].worker == Some(i) && db[id].status == Running
  }

  /** `ORDER BY started_at DESC`, first row. */
  predicate Newest(db: Table, i: nat, id: JobId) {
    && Mine(db, i, id) && db[id].startedAt.Some?
    && forall k :: k in db && Mine(db, i, k) && db[k].startedAt.Some? ==> db[k].startedAt.value <= db[id].startedAt.value
  }

  // Each statement of one caller; a caller that is not at that statement does not move.

  function ClaimUpdateBy(s: Sys, i: nat, pick: JobId, now: real): Sys
    requires i < |s.procs|
  {
    if !s.procs[i].DrainStart? then s
    else if forall k :: k in s.db ==> s.db[k].status != Queued then Move(s, i, DrainFalse)
    else if !Oldest(s.db, pick) then s
    else Move(s, i, DrainClaimed(pick)).(db := HostedJobs.ClaimNext(s.db, pick, now, i), claims := s.claims + [pick])
  }

  function ClaimSelectBy(s: Sys, i: nat, pick: JobId): Sys
    requires i < |s.procs|
  {
    var p := s.procs[i];
    if !p.DrainClaimed? then s
    else if forall k :: k in s.db ==> !Mine(s.db, i, k) then Move(s, i, DrainLost(p.claimed))
    else if !Newest(s.db, i, pick) then s
    else Move(s, i, DrainRunning(p.claimed, pick))
  }

  function ReadFlagBy(s: Sys, i: nat): Sys
    requires i < |s.procs|
  {
    var p := s.procs[i];
    if !p.DrainRunning? then s
    else Move(s, i, DrainSettling(p.claimed, p.job, p.job in s.db && s.db[p.job].cancelRequested))
  }

  /** `finish_job`, from `_mark_failed` (the flag was not read) or from `_settle`. */
  function FinishBy(s: Sys, i: nat, v: Verdict, now: real): Sys
    requires i < |s.procs|
  {
    var p := s.procs[i];
    if (p.DrainRunning? && v.status == Failed)
       || (p.DrainSettling? && Terminal(v.status) && (v.status == Canceled <==> p.canceled))
    then Write(Move(s, i, DrainTrue(p.claimed, p.job)), FinishJob(s.db, p.job, v, now))
    else s
  }

  function LookUpBy(s: Sys, i: nat): Sys
    requires i < |s.procs|
  {
    var p := s.procs[i];
    if !p.CancelStart? then s
    else if p.job !in s.db then Move(s, i, CancelNotFound)
    else if Terminal(s.db[p.job].status) then Move(s, i, CancelDone(p.job))
    else Move(s, i, CancelSeen(p.job, s.db[p.job].status))
  }

  function CancelUpdateBy(s: Sys, i: nat, now: real): Sys
    requires i < |s.procs|
  {
    var p := s.procs[i];
    if !(p.CancelSeen? && p.seen == Queued) then s
    else if p.job in s.db && s.db[p.job].status == Queued
    then Write(Move(s, i, CancelDone(p.job)), CancelQueued(s.db, p.job, now))
    else Move(s, i, CancelMissed(p.job))
  }

  function MarkUpdateBy(s: Sys, i: nat): Sys
    requires i < |s.procs|
  {
    var p := s.procs[i];
    if p.CancelMissed? || (p.CancelSeen? && p.seen == Running)
    then Move(s, i, CancelDone(p.job)).(db := MarkCancelRequested(s.db, p.job))
    else s
  }

  function CancelStaleBy(s: Sys, i: nat, now: real): Sys
    requires i < |s.procs|
  {
    var p := s.procs[i];
    if !p.ReclaimStart? then s else Write(Move(s, i, ReclaimHalf(p.before)), CancelStale(s.db, p.before, now))
  }

  function RequeueBy(s: Sys, i: nat): Sys
    requires i < |s.procs|
  {
    var p := s.procs[i];
    if !p.ReclaimHalf? then s else Move(s, i, ReclaimDone).(db := RequeueStale(s.db, p.before))
  }

  function Step(s: Sys, a: Action): Sys {
    match a
    case Create(id, at) => if id in s.db then s else s.(db := s.db[id := NewJob(at)])
    case Spawn(p) => if p.DrainStart? || p.CancelStart? || p.ReclaimStart? then s.(procs := s.procs + [p]) else s
    case ClaimUpdate(i, pick, now) => if i < |s.procs| then ClaimUpdateBy(s, i, pick, now) else s
    case ClaimSelect(i, pick) => if i < |s.procs| then ClaimSelectBy(s, i, pick) else s
    case ReadFlag(i) => if i < |s.procs| then ReadFlagBy(s, i) else s
    case Finish(i, v, now) => if i < |s.procs| then FinishBy(s, i, v, now) else s
    case LookUp(i) => if i < |s.procs| then LookUpBy(s, i) else s
    case CancelUpdate(i, now) => if i < |s.procs| then CancelUpdateBy(s, i, now) else s
    case MarkUpdate(i) => if i < |s.procs| then MarkUpdateBy(s, i) else s
    case CancelStaleUpdate(i, now) => if i < |s.procs| then CancelStaleBy(s, i, now) else s
    case RequeueUpdate(i) => if i < |s.procs| then RequeueBy(s, i) else s
  }

  function Run(s: Sys, as_: seq<Action>): Sys
    decreases as_
  {
    if as_ == [] then s else Run(Step(s, as_[0]), as_[1..])
  }

  // ---- the job lifecycle, with every statement and any interleaving ------------------------------

  ghost predicate RowOk(j: Job) {
    && (j.status == Queued ==> j.worker.None? && j.startedAt.None? && j.finishedAt.None? && !j.cancelRequested)
    && (j.status == Running ==> j.worker.Some? && j.startedAt.Some? && j.finishedAt.None?)
    && (Terminal(j.status) ==> j.finishedAt.Some?)
  }

  /** What one row may do over time. */
  ghost predicate JobMoves(a: Job, b: Job) {
    && b.createdAt == a.createdAt
    && (Terminal(a.status) ==> b == a)
    && (a.cancelRequested ==> b.cancelRequested && b.status != Queued)
  }

  ghost predicate Moves(a: Table, b: Table) {
    forall id :: id in a ==> id in b && JobMoves(a[id], b[id])
  }

  /** The row rules, and one settling statement for every terminal row. */
  ghost predicate LawfulTable(db: Table, settles: multiset<JobId>) {
    && (forall id :: id in db ==> RowOk(db[id]))
    && (forall id :: settles[id] == if id in db && Terminal(db[id].status) then 1 else 0)
  }

  ghost predicate Lawful(s: Sys) {
    LawfulTable(s.db, s.settles)
  }

  lemma LawfulWrite(db: Table, db': Table, settles: multiset<JobId>)
    requires LawfulTable(db, settles) && Moves(db, db') && db'.Keys == db.Keys
    requires forall id :: id in db' ==> RowOk(db'[id])
    ensures LawfulTable(db', settles + multiset(Settled(db, db')))
  {
    var w := Settled(db, db');
    forall id ensures multiset(w)[id] == if id in w then 1 else 0 { }
    forall id ensures (settles + multiset(w))[id] == if id in db' && Terminal(db'[id].status) then 1 else 0 {
      if id in db { assert JobMoves(db[id], db'[id]); }
    }
  }

  lemma LawfulCancelStale(db: Table, before: real, now: real, settles: multiset<JobId>)
    requires LawfulTable(db, settles)
    ensures var db' := CancelStale(db, before, now);
            Moves(db, db') && LawfulTable(db', settles + multiset(Settled(db, db')))
  {
    LawfulWrite(db, CancelStale(db, before, now), settles);
  }

  lemma LawfulFinish(db: Table, id: JobId, v: Verdict, now: real, settles: multiset<JobId>)
    requires LawfulTable(db, settles) && Terminal(v.status)
    ensures var db' := FinishJob(db, id, v, now);
            Moves(db, db') && LawfulTable(db', settles + multiset(Settled(db, db')))
  {
    LawfulWrite(db, FinishJob(db, id, v, now), settles);
  }

  lemma LawfulCancelQueued(db: Table, id: JobId, now: real, settles: multiset<JobId>)
    requires LawfulTable(db, settles)
    ensures var db' := CancelQueued(db, id, now);
            Moves(db, db') && LawfulTable(db', settles + multiset(Settled(db, db')))
  {
    LawfulWrite(db, CancelQueued(db, id, now), settles);
  }

  lemma LawfulStep(s: Sys, a: Action)
    requires Lawful(s)
    ensures Lawful(Step(s, a)) && Moves(s.db, Step(s, a).db)
  {
    hide LawfulTable;
    hide Moves;
    match a
    case Finish(i, v, now) =>
      if i < |s.procs| && s.procs[i].DrainRunning? && v.status == Failed {
        LawfulFinish(s.db, s.procs[i].job, v, now, s.settles);
      } else if i < |s.procs| && s.procs[i].DrainSettling? && Terminal(v.status) {
        LawfulFinish(s.db, s.procs[i].job, v, now, s.settles);
      }
      MovesNowhere(s);
    case CancelUpdate(i, now) =>
      if i < |s.procs| && s.procs[i].CancelSeen? { LawfulCancelQueued(s.db, s.procs[i].job, now, s.settles); }
      MovesNowhere(s);
    case CancelStaleUpdate(i, now) =>
      if i < |s.procs| && s.procs[i].ReclaimStart? { LawfulCancelStale(s.db, s.procs[i].before, now, s.settles); }
      MovesNowhere(s);
    case _ =>
      LawfulUnsettled(s, a);
  }

  lemma MovesNowhere(s: Sys)
    requires Lawful(s)
    ensures Moves(s.db, s.db)
  {
    assert forall id :: id in s.db ==> RowOk(s.db[id]);
  }

  /** A statement that makes no row terminal. */
  lemma LawfulSame(db: Table, db': Table, settles: multiset<JobId>)
    requires LawfulTable(db, settles) && forall id :: id in db' ==> RowOk(db'[id])
    requires forall id :: id in db ==> id in db' && JobMoves(db[id], db'[id]) && (Terminal(db'[id].status) <==> Terminal(db[id].status))
    requires forall id :: id in db' && id !in db ==> !Terminal(db'[id].status)
    ensures LawfulTable(db', settles) && Moves(db, db')
  {
    hide RowOk;
    hide JobMoves;
    forall id ensures settles[id] == if id in db' && Terminal(db'[id].status) then 1 else 0 { if id in db {} }
  }

  lemma LawfulClaim(db: Table, pick: JobId, now: real, i: nat, settles: multiset<JobId>)
    requires LawfulTable(db, settles) && Oldest(db, pick)
    ensures var db' := HostedJobs.ClaimNext(db, pick, now, i); LawfulTable(db', settles) && Moves(db, db')
  {
    assert RowOk(db[pick]);
    LawfulSame(db, HostedJobs.ClaimNext(db, pick, now, i), settles);
  }

  lemma LawfulMark(db: Table, id: JobId, settles: multiset<JobId>)
    requires LawfulTable(db, settles)
    ensures var db' := MarkCancelRequested(db, id); LawfulTable(db', settles) && Moves(db, db')
  {
    LawfulSame(db, MarkCancelRequested(db, id), settles);
  }

  lemma LawfulRequeue(db: Table, before: real, settles: multiset<JobId>)
    requires LawfulTable(db, settles)
    ensures var db' := RequeueStale(db, before); LawfulTable(db', settles) && Moves(db, db')
  {
    var db' := RequeueStale(db, before);
    forall id | id in db ensures RowOk(db'[id]) && JobMoves(db[id], db'[id]) { assert RowOk(db[id]); }
    LawfulSame(db, db', settles);
  }

  lemma LawfulCreate(db: Table, id: JobId, at: real, settles: multiset<JobId>)
    requires LawfulTable(db, settles) && id !in db
    ensures LawfulTable(db[id := NewJob(at)], settles) && Moves(db, db[id := NewJob(at)])
  {
    forall k | k in db ensures RowOk(db[k]) && JobMoves(db[k], db[k]) {}
    LawfulSame(db, db[id := NewJob(at)], settles);
  }

  lemma LawfulUnsettled(s: Sys, a: Action)
    requires Lawful(s) && !a.Finish? && !a.CancelUpdate? && !a.CancelStaleUpdate?
    ensures Lawful(Step(s, a)) && Moves(s.db, Step(s, a).db)
  {
    hide LawfulTable;
    hide Moves;
    hide Newest;
    hide Mine;
    hide Settled;
    MovesNowhere(s);
    match a
    case Create(id, at) => if id !in s.db { LawfulCreate(s.db, id, at, s.settles); }
    case ClaimUpdate(i, pick, now) => if Oldest(s.db, pick) { LawfulClaim(s.db, pick, now, i, s.settles); }
    case MarkUpdate(i) =>
      if i < |s.procs| && (s.procs[i].CancelMissed? || s.procs[i].CancelSeen?) { LawfulMark(s.db, s.procs[i].job, s.settles); }
    case RequeueUpdate(i) => if i < |s.procs| && s.procs[i].ReclaimHalf? { LawfulRequeue(s.db, s.procs[i].before, s.settles); }
    case _ =>
  }

  /** Every run of any callers keeps the row rules and moves each row only forward: a terminal row never
      changes again, a cancel flag is never cleared, a flagged job never returns to the queue; and however
      many statements tried, exactly one settled each terminal job. */
  lemma {:induction false} LawfulRun(s: Sys, as_: seq<Action>)
    requires Lawful(s)
    ensures Lawful(Run(s, as_)) && Moves(s.db, Run(s, as_).db)
    decreases as_
  {
    if as_ != [] {
      LawfulStep(s, as_[0]);
      LawfulRun(Step(s, as_[0]), as_[1..]);
    }
  }

  /** From the empty table: at any two instants of any run. */
  lemma Lifecycle(before: seq<Action>, after: seq<Action>)
    ensures var s := Run(START, before); var t := Run(s, after);
            Lawful(s) && Lawful(t) && Moves(s.db, t.db)
  {
    LawfulRun(START, before);
    LawfulRun(Run(START, before), after);
  }

  // ---- claims and cancels, with stale reclaim off --------------------------------------------------

  ghost predicate NoReclaim(as_: seq<Action>) {
    forall k :: 0 <= k < |as_| ==> !(as_[k].Spawn? && as_[k].p.ReclaimStart?)
  }

  /** What each call knows, given its number. */
  ghost predicate ProcOk(db: Table, i: nat, p: Proc) {
    match p
    case DrainClaimed(c) => Mine(db, i, c)
    case DrainRunning(c, j) => j == c && Mine(db, i, c)
    case DrainSettling(c, j, _) => j == c && Mine(db, i, c)
    case DrainTrue(c, j) => j == c && c in db && db[c].worker == Some(i) && Terminal(db[c].status)
    case DrainLost(_) => false
    case CancelSeen(j, seen) => j in db && (seen != Queued ==> db[j].status != Queued)
    case CancelMissed(j) => j in db && db[j].status != Queued
    case CancelDone(j) => j in db && CancelHeld(db[j])
    case ReclaimStart(_) => false
    case ReclaimHalf(_) => false
    case _ => true
  }

  /** What `cancel_job` leaves behind: canceled, asked to stop, or already over. */
  ghost predicate CancelHeld(j: Job) {
    j.status != Queued && (j.status == Running ==> j.cancelRequested)
  }

  function ClaimOf(p: Proc): Option<JobId> {
    if p.DrainClaimed? || p.DrainRunning? || p.DrainSettling? || p.DrainTrue? || p.DrainLost? then Some(p.claimed) else None
  }

  /** A row's worker is the drain that claimed it. */
  ghost predicate Held(procs: seq<Proc>, id: JobId, j: Job) {
    j.worker.Some? ==> j.worker.value < |procs| && ClaimOf(procs[j.worker.value]) == Some(id)
  }

  ghost predicate Counted(db: Table, claims: seq<JobId>) {
    forall id :: multiset(claims)[id] == if id in db && db[id].worker.Some? then 1 else 0
  }

  ghost predicate Orderly(s: Sys) {
    && Lawful(s)
    && (forall i :: 0 <= i < |s.procs| ==> ProcOk(s.db, i, s.procs[i]))
    && (forall id :: id in s.db ==> Held(s.procs, id, s.db[id]))
    && Counted(s.db, s.claims)
  }

  /** What a step of caller `i` may do to rows that have left the queue: only its own row can end. */
  ghost predicate RowsStay(a: Table, b: Table, i: nat) {
    forall id :: id in a ==> id in b && (a[id].status != Queued ==> RowStays(a[id], b[id], i))
  }

  ghost predicate RowStays(a: Job, b: Job, i: nat) {
    && b.worker == a.worker && (Terminal(a.status) ==> b == a)
    && (a.status == Running ==>
          (b.status == Running && (a.cancelRequested ==> b.cancelRequested)) || (Terminal(b.status) && a.worker == Some(i)))
  }

  lemma ProcStays(a: Table, b: Table, i: nat, q: nat, p: Proc)
    requires ProcOk(a, q, p) && RowsStay(a, b, i) && q != i
    ensures ProcOk(b, q, p)
  {
  }

  /** A step of caller `i` that keeps its own knowledge and holds its rows keeps everybody's. */
  lemma OrderlyLocal(s: Sys, t: Sys, i: nat)
    requires Orderly(s) && Lawful(t)
    requires i < |s.procs| == |t.procs| && forall q :: 0 <= q < |s.procs| && q != i ==> t.procs[q] == s.procs[q]
    requires ProcOk(t.db, i, t.procs[i])
    requires t.db.Keys == s.db.Keys && RowsStay(s.db, t.db, i)
    requires forall id :: id in s.db ==>
               t.db[id].worker == s.db[id].worker || (t.db[id].worker == Some(i) && ClaimOf(t.procs[i]) == Some(id))
    requires ClaimOf(s.procs[i]).Some? ==> ClaimOf(t.procs[i]) == ClaimOf(s.procs[i])
    requires Counted(t.db, t.claims)
    ensures Orderly(t)
  {
    hide ProcOk;
    hide RowsStay;
    hide Lawful;
    forall q | 0 <= q < |t.procs| ensures ProcOk(t.db, q, t.procs[q]) {
      if q != i { ProcStays(s.db, t.db, i, q, t.procs[q]); }
    }
    forall id | id in t.db ensures Held(t.procs, id, t.db[id]) {
      assert Held(s.procs, id, s.db[id]);
    }
  }

  lemma OrderlyTable(s: Sys, a: Action)
    requires Orderly(s) && (a.Create? || a.Spawn?) && NoReclaim([a])
    ensures Orderly(Step(s, a))
  {
    hide Orderly;
    assert [a][0] == a;
    IsLawful(s);
    LawfulStep(s, a);
    match a
    case Create(id, at) => if id !in s.db { OrderlyCreate(s, id, at); }
    case Spawn(p) => if p.DrainStart? || p.CancelStart? { OrderlySpawn(s, p); }
  }

  lemma OrderlyCreate(s: Sys, id: JobId, at: real)
    requires Orderly(s) && id !in s.db && Lawful(s.(db := s.db[id := NewJob(at)]))
    ensures Orderly(s.(db := s.db[id := NewJob(at)]))
  {
    hide Lawful;
    hide ProcOk;
    hide Held;
    var t := s.(db := s.db[id := NewJob(at)]);
    forall i | 0 <= i < |t.procs| ensures ProcOk(t.db, i, t.procs[i]) { ProcSeesNew(s.db, id, at, i, t.procs[i]); }
    forall k | k in t.db ensures Held(t.procs, k, t.db[k]) {
      if k == id { NewIsFree(t.procs, id, at); }
    }
  }

  lemma ProcSeesNew(db: Table, id: JobId, at: real, i: nat, p: Proc)
    requires ProcOk(db, i, p) && id !in db
    ensures ProcOk(db[id := NewJob(at)], i, p)
  {
  }

  lemma NewIsFree(procs: seq<Proc>, id: JobId, at: real)
    ensures Held(procs, id, NewJob(at))
  {
  }

  lemma OrderlySpawn(s: Sys, p: Proc)
    requires Orderly(s) && (p.DrainStart? || p.CancelStart?) && Lawful(s.(procs := s.procs + [p]))
    ensures Orderly(s.(procs := s.procs + [p]))
  {
    hide Lawful;
    hide Mine;
    hide CancelHeld;
    var t := s.(procs := s.procs + [p]);
    forall i | 0 <= i < |t.procs| ensures ProcOk(t.db, i, t.procs[i]) {
      if i < |s.procs| { assert ProcOk(s.db, i, s.procs[i]); }
    }
    forall k | k in t.db ensures Held(t.procs, k, t.db[k]) { assert Held(s.procs, k, s.db[k]); }
  }

  /** Finishing touches only the drain's own row; canceling and marking touch one row as allowed. */
  lemma FinishStays(db: Table, i: nat, id: JobId, v: Verdict, now: real)
    requires Mine(db, i, id) && Terminal(v.status)
    ensures var b := FinishJob(db, id, v, now);
            && b.Keys == db.Keys && RowsStay(db, b, i) && (forall k :: k in db ==> b[k].worker == db[k].worker)
            && Terminal(b[id].status) && b[id].worker == Some(i)
  {
  }

  lemma CancelStays(db: Table, i: nat, id: JobId, now: real)
    requires id in db
    ensures var b := CancelQueued(db, id, now);
            && b.Keys == db.Keys && RowsStay(db, b, i) && (forall k :: k in db ==> b[k].worker == db[k].worker)
            && b[id].status != Queued && (db[id].status == Queued ==> CancelHeld(b[id]))
  {
  }

  lemma MarkStays(db: Table, i: nat, id: JobId)
    requires id in db
    ensures var b := MarkCancelRequested(db, id);
            && b.Keys == db.Keys && RowsStay(db, b, i) && (forall k :: k in db ==> b[k].worker == db[k].worker)
            && (db[id].status != Queued ==> CancelHeld(b[id]))
  {
  }

  /** A read, or an UPDATE that hit no row: only the caller moves. */
  lemma OrderlyQuiet(s: Sys, i: nat, p: Proc)
    requires Orderly(s) && i < |s.procs| && ProcOk(s.db, i, p)
    requires ClaimOf(s.procs[i]).Some? ==> ClaimOf(p) == ClaimOf(s.procs[i])
    ensures Orderly(Move(s, i, p))
  {
    OrderlyLocal(s, Move(s, i, p), i);
  }

  lemma RowRules(s: Sys, id: JobId)
    requires Lawful(s) && id in s.db
    ensures RowOk(s.db[id])
  {
  }

  lemma CountedSame(a: Table, b: Table, claims: seq<JobId>)
    requires Counted(a, claims) && a.Keys == b.Keys && forall id :: id in a ==> b[id].worker == a[id].worker
    ensures Counted(b, claims)
  {
  }

  lemma ByLawful(s: Sys, i: nat, pick: JobId, v: Verdict, now: real)
    requires Lawful(s) && i < |s.procs|
    ensures Lawful(ClaimUpdateBy(s, i, pick, now)) && Lawful(FinishBy(s, i, v, now))
    ensures Lawful(CancelUpdateBy(s, i, now)) && Lawful(MarkUpdateBy(s, i))
  {
    hide Lawful;
    LawfulStep(s, ClaimUpdate(i, pick, now));
    LawfulStep(s, Finish(i, v, now));
    LawfulStep(s, CancelUpdate(i, now));
    LawfulStep(s, MarkUpdate(i));
    hide ClaimUpdateBy;
    hide FinishBy;
    hide CancelUpdateBy;
    hide MarkUpdateBy;
  }

  lemma ClaimStays(db: Table, i: nat, pick: JobId, now: real)
    requires Oldest(db, pick)
    ensures var b := HostedJobs.ClaimNext(db, pick, now, i);
            && b.Keys == db.Keys && RowsStay(db, b, i) && Mine(b, i, pick)
            && (forall k :: k in db && k != pick ==> b[k].worker == db[k].worker) && b[pick].worker == Some(i)
  {
  }

  lemma CountedClaim(a: Table, b: Table, claims: seq<JobId>, pick: JobId)
    requires Counted(a, claims) && a.Keys == b.Keys && pick in a && a[pick].worker.None? && b[pick].worker.Some?
    requires forall k :: k in a && k != pick ==> b[k].worker == a[k].worker
    ensures Counted(b, claims + [pick])
  {
    assert multiset(claims + [pick]) == multiset(claims) + multiset{pick};
  }

  lemma OrderlyClaim(s: Sys, i: nat, pick: JobId, now: real)
    requires Orderly(s) && i < |s.procs|
    ensures Orderly(ClaimUpdateBy(s, i, pick, now))
  {
    hide LawfulTable;
    hide RowsStay;
    hide Counted;
    hide HostedJobs.ClaimNext;
    ByLawful(s, i, pick, Verdict(Failed, "", "", ""), now);
    var t := ClaimUpdateBy(s, i, pick, now);
    if s.procs[i].DrainStart? && Oldest(s.db, pick) {
      RowRules(s, pick);
      ClaimStays(s.db, i, pick, now);
      CountedClaim(s.db, t.db, s.claims, pick);
      hide Held;
      OrderlyLocal(s, t, i);
    } else if t != s {
      OrderlyQuiet(s, i, DrainFalse);
    }
  }

  /** The SELECT finds exactly the row this drain's UPDATE claimed. */
  lemma OrderlySelect(s: Sys, i: nat, pick: JobId)
    requires Orderly(s) && i < |s.procs|
    ensures var t := ClaimSelectBy(s, i, pick);
            Orderly(t) && (t == s || t.procs[i] == DrainRunning(s.procs[i].claimed, s.procs[i].claimed))
  {
    var t := ClaimSelectBy(s, i, pick);
    if t != s {
      assert ProcOk(s.db, i, s.procs[i]) && Mine(s.db, i, s.procs[i].claimed);
      assert Held(s.procs, pick, s.db[pick]);
      hide Orderly;
      OrderlyQuiet(s, i, t.procs[i]);
    }
  }

  lemma OrderlyFlag(s: Sys, i: nat)
    requires Orderly(s) && i < |s.procs|
    ensures Orderly(ReadFlagBy(s, i))
  {
    var t := ReadFlagBy(s, i);
    assert ProcOk(s.db, i, s.procs[i]);
    hide Orderly;
    if t != s { OrderlyQuiet(s, i, t.procs[i]); }
  }

  lemma OrderlyFinish(s: Sys, i: nat, v: Verdict, now: real)
    requires Orderly(s) && i < |s.procs|
    ensures Orderly(FinishBy(s, i, v, now))
  {
    hide Lawful;
    hide RowsStay;
    hide FinishJob;
    hide Settled;
    ByLawful(s, i, "", v, now);
    var t := FinishBy(s, i, v, now);
    assert ProcOk(s.db, i, s.procs[i]);
    if t != s {
      FinishStays(s.db, i, s.procs[i].claimed, v, now);
      assert ProcOk(t.db, i, t.procs[i]);
      CountedSame(s.db, t.db, s.claims);
      hide Counted;
      hide ProcOk;
      hide Held;
      OrderlyLocal(s, t, i);
    }
  }

  lemma OrderlyLookUp(s: Sys, i: nat)
    requires Orderly(s) && i < |s.procs|
    ensures Orderly(LookUpBy(s, i))
  {
    hide Orderly;
    var t := LookUpBy(s, i);
    if t != s { OrderlyQuiet(s, i, t.procs[i]); }
  }

  /** The statement that ends `cancel_job`. */
  lemma OrderlyDone(s: Sys, t: Sys, i: nat, j: JobId)
    requires Orderly(s) && Lawful(t) && i < |s.procs| && ClaimOf(s.procs[i]).None? && t.procs == s.procs[i := CancelDone(j)]
    requires t.db.Keys == s.db.Keys && RowsStay(s.db, t.db, i) && forall k :: k in s.db ==> t.db[k].worker == s.db[k].worker
    requires t.claims == s.claims && j in t.db && CancelHeld(t.db[j])
    ensures Orderly(t)
  {
    hide Lawful;
    hide RowsStay;
    hide CancelHeld;
    hide Counted;
    hide Held;
    CountedSame(s.db, t.db, s.claims);
    OrderlyLocal(s, t, i);
  }

  lemma SeenOk(s: Sys, i: nat)
    requires Orderly(s) && i < |s.procs| && (s.procs[i].CancelSeen? || s.procs[i].CancelMissed?)
    ensures s.procs[i].job in s.db && ClaimOf(s.procs[i]).None?
    ensures s.procs[i].CancelMissed? || s.procs[i].seen != Queued ==> s.db[s.procs[i].job].status != Queued
  {
    assert ProcOk(s.db, i, s.procs[i]);
  }

  lemma OrderlyCancel(s: Sys, i: nat, now: real)
    requires Orderly(s) && i < |s.procs|
    ensures Orderly(CancelUpdateBy(s, i, now))
  {
    hide Orderly;
    hide Lawful;
    hide RowsStay;
    hide CancelQueued;
    hide CancelHeld;
    hide Settled;
    IsLawful(s);
    ByLawful(s, i, "", Verdict(Failed, "", "", ""), now);
    if s.procs[i].CancelSeen? && s.procs[i].seen == Queued {
      SeenOk(s, i);
      var j := s.procs[i].job;
      CancelStays(s.db, i, j, now);
      if s.db[j].status == Queued {
        OrderlyDone(s, CancelUpdateBy(s, i, now), i, j);
      } else {
        OrderlyQuiet(s, i, CancelMissed(j));
      }
    }
  }

  lemma IsLawful(s: Sys)
    requires Orderly(s)
    ensures Lawful(s)
  {
  }

  lemma OrderlyMark(s: Sys, i: nat)
    requires Orderly(s) && i < |s.procs|
    ensures Orderly(MarkUpdateBy(s, i))
  {
    hide Orderly;
    hide Lawful;
    hide RowsStay;
    hide MarkCancelRequested;
    hide CancelHeld;
    IsLawful(s);
    ByLawful(s, i, "", Verdict(Failed, "", "", ""), 0.0);
    if s.procs[i].CancelMissed? || (s.procs[i].CancelSeen? && s.procs[i].seen == Running) {
      SeenOk(s, i);
      MarkStays(s.db, i, s.procs[i].job);
      OrderlyDone(s, MarkUpdateBy(s, i), i, s.procs[i].job);
    }
  }

  lemma NobodyReclaims(s: Sys, i: nat, now: real)
    requires Orderly(s) && i < |s.procs|
    ensures CancelStaleBy(s, i, now) == s && RequeueBy(s, i) == s
  {
    IsOk(s, i);
    hide Orderly;
    hide CancelStale;
    hide RequeueStale;
  }

  lemma IsOk(s: Sys, i: nat)
    requires Orderly(s) && i < |s.procs|
    ensures ProcOk(s.db, i, s.procs[i])
  {
  }

  lemma OrderlyStep(s: Sys, a: Action)
    requires Orderly(s) && NoReclaim([a])
    ensures Orderly(Step(s, a))
  {
    hide Orderly;
    if a.Create? || a.Spawn? {
      OrderlyTable(s, a);
    } else if a.i < |s.procs| {
      match a
      case ClaimUpdate(i, pick, now) => OrderlyClaim(s, i, pick, now);
      case ClaimSelect(i, pick) => OrderlySelect(s, i, pick);
      case ReadFlag(i) => OrderlyFlag(s, i);
      case Finish(i, v, now) => OrderlyFinish(s, i, v, now);
      case LookUp(i) => OrderlyLookUp(s, i);
      case CancelUpdate(i, now) => OrderlyCancel(s, i, now);
      case MarkUpdate(i) => OrderlyMark(s, i);
      case CancelStaleUpdate(i, now) => NobodyReclaims(s, i, now);
      case RequeueUpdate(i) => NobodyReclaims(s, i, 0.0);
    }
  }

  /** With reclaim off, in every interleaving: a claim is returned to the drain that made it and never lost,
      each job is claimed at most once, and a finished `cancel_job` left its job canceled, flagged or over. */
  lemma {:induction false} OrderlyRun(s: Sys, as_: seq<Action>)
    requires Orderly(s) && NoReclaim(as_)
    ensures Orderly(Run(s, as_))
    decreases as_
  {
    if as_ != [] {
      assert [as_[0]][0] == as_[0];
      OrderlyStep(s, as_[0]);
      OrderlyRun(Step(s, as_[0]), as_[1..]);
    }
  }

  lemma ReadOff(s: Sys)
    requires Orderly(s)
    ensures forall id :: multiset(s.claims)[id] <= 1
    ensures forall i :: 0 <= i < |s.procs| ==> !s.procs[i].DrainLost?
    ensures forall i :: 0 <= i < |s.procs| && s.procs[i].DrainRunning? ==>
              s.procs[i].job == s.procs[i].claimed && Mine(s.db, i, s.procs[i].job)
    ensures forall i :: 0 <= i < |s.procs| && s.procs[i].CancelDone? ==>
              s.procs[i].job in s.db && CancelHeld(s.db[s.procs[i].job])
  {
    hide Lawful;
    hide Held;
    hide CancelHeld;
    hide Mine;
    assert forall i :: 0 <= i < |s.procs| ==> ProcOk(s.db, i, s.procs[i]);
  }

  /** The same, read off at the end of a run from the empty table. */
  lemma ClaimsAndCancels(as_: seq<Action>)
    requires NoReclaim(as_)
    ensures var s := Run(START, as_);
      && (forall id :: multiset(s.claims)[id] <= 1)
      && (forall i :: 0 <= i < |s.procs| ==> !s.procs[i].DrainLost?)
      && (forall i :: 0 <= i < |s.procs| && s.procs[i].DrainRunning? ==>
            s.procs[i].job == s.procs[i].claimed && Mine(s.db, i, s.procs[i].job))
      && (forall i :: 0 <= i < |s.procs| && s.procs[i].CancelDone? ==>
            s.procs[i].job in s.db && CancelHeld(s.db[s.procs[i].job]))
  {
    OrderlyRun(START, as_);
    ReadOff(Run(START, as_));
  }

  /** The drains that returned True in `t` and had claimed nothing in `s`. */
  function DrainedSince(s: Sys, t: Sys): set<nat> {
    set i | 0 <= i < |t.procs| && t.procs[i].DrainTrue? && (i < |s.procs| ==> s.procs[i].DrainStart?)
  }

  lemma {:induction false} ClaimedBy(s: Sys, ds: set<nat>) returns (jobs: set<JobId>)
    requires Orderly(s) && forall i :: i in ds ==> i < |s.procs| && s.procs[i].DrainTrue?
    ensures |jobs| == |ds| && jobs <= s.db.Keys
    ensures forall id :: id in jobs ==> Terminal(s.db[id].status) && s.db[id].worker.Some? && s.db[id].worker.value in ds
    decreases |ds|
  {
    hide Lawful;
    hide Held;
    hide Counted;
    if ds == {} {
      jobs := {};
    } else {
      var i :| i in ds;
      assert ProcOk(s.db, i, s.procs[i]);
      var rest := ClaimedBy(s, ds - {i});
      assert s.procs[i].claimed !in rest;
      jobs := rest + {s.procs[i].claimed};
    }
  }

  /** With reclaim off a row that has left the queue keeps its worker, and nothing but a Create adds one. */
  lemma {:induction false} WorkerStays(s: Sys, as_: seq<Action>, id: JobId)
    requires Orderly(s) && NoReclaim(as_)
    ensures Orderly(Run(s, as_))
    ensures Left(s.db, id) ==> Left(Run(s, as_).db, id) && Run(s, as_).db[id].worker == s.db[id].worker
    ensures NoCreate(as_) && id in Run(s, as_).db ==> id in s.db
    decreases as_
  {
    hide Orderly;
    if as_ != [] {
      assert [as_[0]][0] == as_[0];
      OrderlyStep(s, as_[0]);
      NothingReturns(s, as_[0]);
      if Left(s.db, id) { StepKeepsWorker(s, as_[0], id); }
      if id in Step(s, as_[0]).db && id !in s.db { OnlyCreateInserts(s, as_[0], id); }
      WorkerStays(Step(s, as_[0]), as_[1..], id);
    }
  }

  ghost predicate NoCreate(as_: seq<Action>) {
    forall k :: 0 <= k < |as_| ==> !as_[k].Create?
  }

  lemma StepKeepsWorker(s: Sys, a: Action, id: JobId)
    requires Orderly(s) && NoReclaim([a]) && Left(s.db, id)
    ensures Left(Step(s, a).db, id) && Step(s, a).db[id].worker == s.db[id].worker
  {
    if (a.CancelStaleUpdate? || a.RequeueUpdate?) && a.i < |s.procs| { NobodyReclaims(s, a.i, if a.CancelStaleUpdate? then a.now else 0.0); }
    assert a.CancelStaleUpdate? || a.RequeueUpdate? ==> Step(s, a) == s;
    hide Orderly;
    hide Step;
    StaysOut(s, a, id);
    WorkerKept(s, a, id);
  }

  lemma WorkerKept(s: Sys, a: Action, id: JobId)
    requires id in s.db && s.db[id].status != Queued && (a.CancelStaleUpdate? || a.RequeueUpdate? ==> Step(s, a) == s)
    requires id in Step(s, a).db
    ensures Step(s, a).db[id].worker == s.db[id].worker
  {
    hide Settled;
    hide Newest;
    hide Mine;
  }

  function QueuedIn(db: Table): set<JobId> {
    set id | id in db && db[id].status == Queued
  }

  /** With reclaim off and nothing inserted: once as many drains that had claimed nothing before returned True
      as there were jobs in the queue, every one of these jobs is over, whatever else ran or was canceled. */
  lemma AllDrained(before: seq<Action>, after: seq<Action>)
    requires NoReclaim(before) && NoReclaim(after) && NoCreate(after)
    requires var s := Run(START, before); |DrainedSince(s, Run(s, after))| >= |QueuedIn(s.db)|
    ensures var s := Run(START, before); var t := Run(s, after);
            forall id :: id in s.db && s.db[id].status == Queued ==> id in t.db && Terminal(t.db[id].status)
  {
    hide Run;
    hide Orderly;
    OrderlyStart();
    OrderlyRun(START, before);
    var s := Run(START, before);
    var t := Run(s, after);
    OrderlyRun(s, after);
    var jobs := ClaimedBy(t, DrainedSince(s, t));
    forall id | id in jobs ensures id in QueuedIn(s.db) {
      WorkerStays(s, after, id);
      if Left(s.db, id) { HeldByOld(s, id); }
    }
    if jobs != QueuedIn(s.db) { SubsetSize(jobs, QueuedIn(s.db)); }
  }

  lemma OrderlyStart()
    ensures Orderly(START)
  {
  }

  /** A row out of the queue whose worker is set was claimed already. */
  lemma HeldByOld(s: Sys, id: JobId)
    requires Orderly(s) && id in s.db && s.db[id].worker.Some?
    ensures var w := s.db[id].worker.value; w < |s.procs| && !s.procs[w].DrainStart?
  {
    assert Held(s.procs, id, s.db[id]);
  }

  lemma SubsetSize<T>(a: set<T>, b: set<T>)
    requires a < b
    ensures |a| < |b|
  {
    assert |b - a| + |a| == |b| by { assert b == (b - a) + a; }
    assert b - a != {};
  }

  // ---- first come, first served ----------------------------------------------------------------------

  /** Every job is inserted with a creation time no earlier than those already in the table. */
  ghost predicate InOrder(s: Sys, as_: seq<Action>)
    decreases as_
  {
    as_ != [] ==>
      && (as_[0].Create? ==> forall k :: k in s.db ==> s.db[k].createdAt <= as_[0].at)
      && InOrder(Step(s, as_[0]), as_[1..])
  }

  ghost predicate Left(db: Table, id: JobId) {
    id in db && db[id].status != Queued
  }

  ghost predicate BeforeQueue(db: Table, at: real) {
    forall id :: id in db && db[id].status == Queued ==> at <= db[id].createdAt
  }

  /** The claim log is in order of creation, and nothing older is still queued. */
  ghost predicate Fair(s: Sys) {
    && (forall k :: 0 <= k < |s.claims| ==> Left(s.db, s.claims[k]))
    && (forall k, l :: 0 <= k < l < |s.claims| ==> s.db[s.claims[k]].createdAt <= s.db[s.claims[l]].createdAt)
    && (forall k :: 0 <= k < |s.claims| ==> BeforeQueue(s.db, s.db[s.claims[k]].createdAt))
  }

  /** With reclaim off no row returns to the queue. */
  lemma NothingReturns(s: Sys, a: Action)
    requires Orderly(s) && NoReclaim([a])
    ensures var t := Step(s, a);
      forall id :: id in s.db ==> id in t.db && t.db[id].createdAt == s.db[id].createdAt
                                  && (s.db[id].status != Queued ==> t.db[id].status != Queued)
  {
    LawfulStep(s, a);
    if a.RequeueUpdate? && a.i < |s.procs| { NobodyReclaims(s, a.i, 0.0); }
    assert a.RequeueUpdate? ==> Step(s, a) == s;
    hide Orderly;
    hide LawfulTable;
    hide Step;
    forall id | id in s.db
      ensures id in Step(s, a).db && Step(s, a).db[id].createdAt == s.db[id].createdAt
      ensures s.db[id].status != Queued ==> Step(s, a).db[id].status != Queued
    {
      assert JobMoves(s.db[id], Step(s, a).db[id]);
      if s.db[id].status != Queued { StaysOut(s, a, id); }
    }
  }

  lemma StaysOut(s: Sys, a: Action, id: JobId)
    requires id in s.db && s.db[id].status != Queued && (a.RequeueUpdate? ==> Step(s, a) == s)
    ensures id in Step(s, a).db && Step(s, a).db[id].status != Queued
  {
    hide Settled;
    hide Newest;
    hide Mine;
  }

  lemma OnlyCreateInserts(s: Sys, a: Action, id: JobId)
    requires id in Step(s, a).db && id !in s.db
    ensures a.Create? && Step(s, a).db[id].createdAt == a.at
  {
    hide Settled;
    hide Newest;
    hide Mine;
  }

  /** The claim log grows only by an oldest queued job. */
  lemma ClaimLogGrows(s: Sys, a: Action)
    ensures var t := Step(s, a);
      t.claims == s.claims || (a.ClaimUpdate? && Oldest(s.db, a.pick) && t.claims == s.claims + [a.pick]
                               && a.pick in t.db && t.db[a.pick].status == Running)
  {
    hide Oldest;
    hide Settled;
  }

  lemma FairStep(s: Sys, a: Action)
    requires Orderly(s) && Fair(s) && NoReclaim([a])
    requires a.Create? ==> forall k :: k in s.db ==> s.db[k].createdAt <= a.at
    ensures Fair(Step(s, a))
  {
    NothingReturns(s, a);
    ClaimLogGrows(s, a);
    forall id | id in Step(s, a).db && id !in s.db ensures a.Create? && Step(s, a).db[id].createdAt == a.at { OnlyCreateInserts(s, a, id); }
    hide Orderly;
    hide Fair;
    hide Step;
    FairKeeps(s, Step(s, a), if a.Create? then a.at else 0.0, if a.ClaimUpdate? then a.pick else "");
  }

  /** A step that returns nothing to the queue, inserts only younger jobs, and logs only an oldest one. */
  lemma FairKeeps(s: Sys, t: Sys, at: real, pick: JobId)
    requires Fair(s)
    requires forall id :: id in s.db ==> id in t.db && t.db[id].createdAt == s.db[id].createdAt && (s.db[id].status != Queued ==> t.db[id].status != Queued)
    requires forall id :: id in t.db && id !in s.db ==> t.db[id].createdAt == at && forall k :: k in s.db ==> s.db[k].createdAt <= at
    requires t.claims == s.claims || (Oldest(s.db, pick) && t.claims == s.claims + [pick] && t.db[pick].status == Running)
    ensures Fair(t)
  {
    forall k | 0 <= k < |t.claims| ensures Left(t.db, t.claims[k]) && BeforeQueue(t.db, t.db[t.claims[k]].createdAt) {
      if k < |s.claims| { assert t.claims[k] == s.claims[k] && Left(s.db, s.claims[k]); }
      assert BeforeQueue(s.db, s.db[t.claims[k]].createdAt);
    }
    forall k, l | 0 <= k < l < |t.claims| ensures t.db[t.claims[k]].createdAt <= t.db[t.claims[l]].createdAt {
      assert t.claims[k] == s.claims[k] && Left(s.db, s.claims[k]);
      if l < |s.claims| { assert t.claims[l] == s.claims[l] && Left(s.db, s.claims[l]); }
    }
  }

  /** With reclaim off and jobs inserted in order of creation, jobs are claimed in order of creation. */
  lemma {:induction false} FirstComeFirstServed(s: Sys, as_: seq<Action>)
    requires Orderly(s) && Fair(s) && NoReclaim(as_) && InOrder(s, as_)
    ensures Fair(Run(s, as_))
    decreases as_
  {
    if as_ != [] {
      assert [as_[0]][0] == as_[0];
      OrderlyStep(s, as_[0]);
      FairStep(s, as_[0]);
      FirstComeFirstServed(Step(s, as_[0]), as_[1..]);
    }
  }

  /** The same from the empty table, read off: of two claims the earlier is of the older job, and no job older
      than a claimed one is still queued. */
  lemma ClaimsInOrder(as_: seq<Action>, k: nat, l: nat)
    requires NoReclaim(as_) && InOrder(START, as_) && k <= l < |Run(START, as_).claims|
    ensures var s := Run(START, as_);
            && s.claims[k] in s.db && s.claims[l] in s.db && s.db[s.claims[k]].createdAt <= s.db[s.claims[l]].createdAt
            && forall id :: id in s.db && s.db[id].status == Queued ==> s.db[s.claims[l]].createdAt <= s.db[id].createdAt
  {
    hide InOrder;
    FirstComeFirstServed(START, as_);
    var s := Run(START, as_);
    assert Left(s.db, s.claims[k]) && Left(s.db, s.claims[l]) && BeforeQueue(s.db, s.db[s.claims[l]].createdAt);
  }

  // ---- with stale reclaim on -------------------------------------------------------------------------

  /** The last statement of `cancel_job`, on either of its ways there, works exactly on a job that is not back
      in the queue at that instant. */
  lemma MarkHoldsIff(s: Sys, i: nat)
    requires Lawful(s) && i < |s.procs|
    requires s.procs[i].CancelMissed? || (s.procs[i].CancelSeen? && s.procs[i].seen == Running)
    ensures var t := MarkUpdateBy(s, i); var j := s.procs[i].job;
            && t.procs[i] == CancelDone(j)
            && ((j in t.db && CancelHeld(t.db[j])) <==> (j in s.db && s.db[j].status != Queued))
  {
  }

  /** Whatever is reclaimed meanwhile: a row's worker is the drain that claimed it last. */
  ghost predicate AllHeld(s: Sys) {
    forall id :: id in s.db ==> Held(s.procs, id, s.db[id])
  }

  lemma HeldStep(s: Sys, a: Action)
    requires AllHeld(s)
    ensures AllHeld(Step(s, a))
  {
    hide Newest;
    hide Settled;
    hide Mine;
    hide Oldest;
    hide Step;
    var t := Step(s, a);
    ClaimsStay(s, a);
    forall id | id in t.db ensures Held(t.procs, id, t.db[id]) {
      if id in s.db {
        assert Held(s.procs, id, s.db[id]);
        WorkerComes(s, a, id);
      } else {
        OnlyCreateInserts(s, a, id);
        FreshRow(s, a, id);
      }
    }
  }

  /** A call's claim stands once it is made. */
  lemma ClaimsStay(s: Sys, a: Action)
    ensures var t := Step(s, a);
            && |s.procs| <= |t.procs|
            && forall i :: 0 <= i < |s.procs| && ClaimOf(s.procs[i]).Some? ==> ClaimOf(t.procs[i]) == ClaimOf(s.procs[i])
  {
    hide Newest;
    hide Settled;
    hide Mine;
    hide Oldest;
  }

  /** A row's worker is kept, dropped, or set to the call that claims the row. */
  lemma WorkerComes(s: Sys, a: Action, id: JobId)
    requires id in s.db
    ensures var t := Step(s, a);
            && id in t.db
            && (|| t.db[id].worker == s.db[id].worker || t.db[id].worker.None?
                || (a.ClaimUpdate? && a.i < |t.procs| && t.db[id].worker == Some(a.i) && ClaimOf(t.procs[a.i]) == Some(id)))
  {
    hide Newest;
    hide Settled;
    hide Mine;
    hide Oldest;
  }

  lemma FreshRow(s: Sys, a: Action, id: JobId)
    requires id in Step(s, a).db && id !in s.db
    ensures Step(s, a).db[id].worker.None?
  {
    hide Newest;
    hide Settled;
    hide Mine;
  }

  lemma {:induction false} HeldRun(s: Sys, as_: seq<Action>)
    requires AllHeld(s)
    ensures AllHeld(Run(s, as_))
    decreases as_
  {
    hide Step;
    if as_ != [] {
      HeldStep(s, as_[0]);
      HeldRun(Step(s, as_[0]), as_[1..]);
    }
  }

  /** In every run, reclaim on or off: the SELECT of a drain finds a row if and only if the row it claimed still
      runs under it, and then finds that row; otherwise the claim is lost. */
  lemma SelectFindsIff(as_: seq<Action>, i: nat, pick: JobId)
    requires i < |Run(START, as_).procs| && Run(START, as_).procs[i].DrainClaimed?
    ensures var s := Run(START, as_); var c := s.procs[i].claimed; var t := ClaimSelectBy(s, i, pick);
            if Mine(s.db, i, c) then t == (if pick == c then Move(s, i, DrainRunning(c, c)) else s) else t == Move(s, i, DrainLost(c))
  {
    hide Run;
    LawfulStart();
    LawfulRun(START, as_);
    HeldRun(START, as_);
    var s := Run(START, as_);
    var c := s.procs[i].claimed;
    forall k | k in s.db && Mine(s.db, i, k) ensures k == c && s.db[k].startedAt.Some? {
      assert Held(s.procs, k, s.db[k]) && RowOk(s.db[k]);
    }
  }

  // ---- nobody is stuck ---------------------------------------------------------------------------------

  predicate Over(p: Proc) {
    p.DrainTrue? || p.DrainFalse? || p.DrainLost? || p.CancelDone? || p.CancelNotFound? || p.ReclaimDone?
  }

  /** A cancel request goes on only with a row that it saw queued or running. */
  ghost predicate SeenOpen(s: Sys) {
    forall i :: 0 <= i < |s.procs| && s.procs[i].CancelSeen? ==> !Terminal(s.procs[i].seen)
  }

  lemma SeenOpenStep(s: Sys, a: Action)
    requires SeenOpen(s)
    ensures SeenOpen(Step(s, a))
  {
    hide Oldest;
    hide Newest;
    hide Mine;
    hide Settled;
  }

  lemma {:induction false} SeenOpenRun(s: Sys, as_: seq<Action>)
    requires SeenOpen(s)
    ensures SeenOpen(Run(s, as_))
    decreases as_
  {
    hide SeenOpen;
    if as_ != [] {
      SeenOpenStep(s, as_[0]);
      SeenOpenRun(Step(s, as_[0]), as_[1..]);
    }
  }

  lemma {:induction false} AnOldest(db: Table, ids: set<JobId>) returns (pick: JobId)
    requires ids != {} && ids <= db.Keys
    ensures pick in ids && forall k :: k in ids ==> db[pick].createdAt <= db[k].createdAt
    decreases |ids|
  {
    pick :| pick in ids;
    if ids != {pick} {
      assert ids - {pick} != {};
      var rest := AnOldest(db, ids - {pick});
      if db[rest].createdAt <= db[pick].createdAt { pick := rest; }
    }
  }

  lemma StartMoves(s: Sys, i: nat) returns (pick: JobId)
    requires i < |s.procs| && s.procs[i].DrainStart?
    ensures !ClaimUpdateBy(s, i, pick, 0.0).procs[i].DrainStart?
  {
    pick := "";
    var queued := QueuedIn(s.db);
    if queued != {} { pick := AnOldest(s.db, queued); }
    assert forall k :: k in s.db && s.db[k].status == Queued ==> k in queued;
  }

  lemma NextMoves(s: Sys, i: nat) returns (a: Action)
    requires SeenOpen(s) && i < |s.procs| && !Over(s.procs[i]) && !s.procs[i].DrainStart? && !s.procs[i].DrainClaimed?
    ensures Step(s, a).procs[i] != s.procs[i]
  {
    hide Settled;
    match s.procs[i]
    case DrainRunning(_, _) => a := ReadFlag(i);
    case DrainSettling(_, _, canceled) => a := Finish(i, Verdict(if canceled then Canceled else Failed, "", "", ""), 0.0);
    case CancelStart(_) => a := LookUp(i);
    case CancelSeen(_, seen) => a := if seen == Queued then CancelUpdate(i, 0.0) else MarkUpdate(i);
    case CancelMissed(_) => a := MarkUpdate(i);
    case ReclaimStart(_) => a := CancelStaleUpdate(i, 0.0);
    case ReclaimHalf(_) => a := RequeueUpdate(i);
  }

  /** In every run a call that is not over has a statement that moves it. */
  lemma NobodyIsStuck(as_: seq<Action>, i: nat) returns (a: Action)
    requires i < |Run(START, as_).procs| && !Over(Run(START, as_).procs[i])
    ensures var s := Run(START, as_); Step(s, a).procs[i] != s.procs[i]
  {
    var s := Run(START, as_);
    SeenOpenRun(START, as_);
    hide Run;
    hide SeenOpen;
    match s.procs[i]
    case DrainStart =>
      var pick := StartMoves(s, i);
      hide ClaimUpdateBy;
      a := ClaimUpdate(i, pick, 0.0);
    case DrainClaimed(c) =>
      SelectFindsIff(as_, i, c);
      hide ClaimSelectBy;
      a := ClaimSelect(i, c);
    case _ => a := NextMoves(s, i);
  }

  /** A drain ends with the verdict of its report: of a crash as it runs, of a finished suite once the flag is
      read; its row, if still running, gets the verdict. */
  lemma ReportEndsDrain(s: Sys, i: nat, report: Report, secrets: seq<string>, now: real)
    requires i < |s.procs|
    requires if report.Crashed? then s.procs[i].DrainRunning? else s.procs[i].DrainSettling?
    ensures var (p, t) := (s.procs[i], Step(s, Finish(i, Settle(report, s.procs[i].DrainSettling? && s.procs[i].canceled, secrets), now)));
            && t.procs[i] == DrainTrue(p.claimed, p.job)
            && (p.job in s.db && s.db[p.job].status == Running ==>
                  && p.job in t.db && Terminal(t.db[p.job].status) && t.db[p.job].finishedAt == Some(now)
                  && (t.db[p.job].status == Canceled <==> p.DrainSettling? && p.canceled)
                  && t.db[p.job].suiteRunId == (if report.Ran? then report.suiteRunId else ""))
  {
    hide Settled;
    hide Scrubbed;
  }

  lemma LawfulStart()
    ensures Lawful(START) && AllHeld(START)
  {
  }

  // A table with the one job "j": queued, and running for worker `w` since 1.0.

  function OneQueued(procs: seq<Proc>, claims: seq<JobId>): Sys {
    Sys(map["j" := NewJob(0.0)], procs, claims, multiset{})
  }

  function OneRunning(w: nat, procs: seq<Proc>, claims: seq<JobId>): Sys {
    Sys(map["j" := NewJob(0.0).(status := Running, startedAt := Some(1.0), worker := Some(w))], procs, claims, multiset{})
  }

  // In each lemma `after` is `procs` once the caller has moved.

  lemma OneClaimed(w: nat, procs: seq<Proc>, after: seq<Proc>)
    requires w < |procs| && procs[w] == DrainStart && after == procs[w := DrainClaimed("j")]
    ensures Step(OneQueued(procs, []), ClaimUpdate(w, "j", 1.0)) == OneRunning(w, after, ["j"])
  {
    var s := OneQueued(procs, []);
    assert "j" in s.db && Oldest(s.db, "j");
    assert s.claims + ["j"] == ["j"];
  }

  /** The two statements of a reclaim put an unflagged running job back. */
  lemma OneReclaimed(w: nat, i: nat, procs: seq<Proc>, after: seq<Proc>)
    requires i < |procs| && procs[i] == ReclaimStart(5.0) && after == procs[i := ReclaimDone]
    ensures Step(Step(OneRunning(w, procs, ["j"]), CancelStaleUpdate(i, 6.0)), RequeueUpdate(i)) == OneQueued(after, ["j"])
  {
    hide Step;
    OneNotStale(w, i, procs);
    OneRequeued(w, i, procs[i := ReclaimHalf(5.0)]);
    assert procs[i := ReclaimHalf(5.0)][i := ReclaimDone] == procs[i := ReclaimDone];
  }

  lemma OneNotStale(w: nat, i: nat, procs: seq<Proc>)
    requires i < |procs| && procs[i] == ReclaimStart(5.0)
    ensures Step(OneRunning(w, procs, ["j"]), CancelStaleUpdate(i, 6.0)) == OneRunning(w, procs[i := ReclaimHalf(5.0)], ["j"])
  {
    var s := OneRunning(w, procs, ["j"]);
    assert CancelStale(s.db, 5.0, 6.0) == s.db;
    assert Settled(s.db, s.db) == {};
  }

  lemma OneRequeued(w: nat, i: nat, procs: seq<Proc>)
    requires i < |procs| && procs[i] == ReclaimHalf(5.0)
    ensures Step(OneRunning(w, procs, ["j"]), RequeueUpdate(i)) == OneQueued(procs[i := ReclaimDone], ["j"])
  {
    assert RequeueStale(OneRunning(w, procs, ["j"]).db, 5.0) == OneQueued([], []).db;
  }

  lemma {:induction false} RunConcat(s: Sys, as_: seq<Action>, bs: seq<Action>)
    ensures Run(s, as_ + bs) == Run(Run(s, as_), bs)
    decreases as_
  {
    if as_ == [] {
      assert [] + bs == bs;
    } else {
      assert (as_ + bs)[1..] == as_[1..] + bs;
      RunConcat(Step(s, as_[0]), as_[1..], bs);
    }
  }

  lemma OneCreated()
    ensures Step(START, Create("j", 0.0)) == OneQueued([], [])
  {
  }

  lemma OneSpawned(s: Sys, p: Proc, after: seq<Proc>)
    requires (p.DrainStart? || p.CancelStart? || p.ReclaimStart?) && after == s.procs + [p]
    ensures Step(s, Spawn(p)) == s.(procs := after)
  {
  }

  lemma OneLookedUp(i: nat, procs: seq<Proc>, after: seq<Proc>)
    requires i < |procs| && procs[i] == CancelStart("j") && after == procs[i := CancelSeen("j", Queued)]
    ensures Step(OneQueued(procs, []), LookUp(i)) == OneQueued(after, [])
  {
  }

  lemma OneMissed(w: nat, i: nat, procs: seq<Proc>, after: seq<Proc>)
    requires i < |procs| && procs[i] == CancelSeen("j", Queued) && after == procs[i := CancelMissed("j")]
    ensures Step(OneRunning(w, procs, ["j"]), CancelUpdate(i, 2.0)) == OneRunning(w, after, ["j"])
  {
  }

  lemma OneMarked(i: nat, procs: seq<Proc>, after: seq<Proc>)
    requires i < |procs| && procs[i] == CancelMissed("j") && after == procs[i := CancelDone("j")]
    ensures Step(OneQueued(procs, ["j"]), MarkUpdate(i)) == OneQueued(after, ["j"])
  {
    assert MarkCancelRequested(OneQueued(procs, ["j"]).db, "j") == OneQueued(procs, ["j"]).db;
  }

  lemma OneLost(i: nat, procs: seq<Proc>, after: seq<Proc>)
    requires i < |procs| && procs[i] == DrainClaimed("j") && after == procs[i := DrainLost("j")]
    ensures Step(OneQueued(procs, ["j"]), ClaimSelect(i, "j")) == OneQueued(after, ["j"])
  {
  }

  /** `cancel_job` reads the job in the queue; a worker claims it before the UPDATE, which then misses. */
  lemma CancelMisses() returns (as_: seq<Action>)
    ensures Run(START, as_) == OneRunning(1, [CancelMissed("j"), DrainClaimed("j")], ["j"])
  {
    hide Step;
    hide Run;
    OneCreated();
    as_ := First(Create("j", 0.0));
    OneSpawned(OneQueued([], []), CancelStart("j"), [CancelStart("j")]);
    as_ := Next(as_, Spawn(CancelStart("j")));
    OneLookedUp(0, [CancelStart("j")], [CancelSeen("j", Queued)]);
    as_ := Next(as_, LookUp(0));
    OneSpawned(OneQueued([CancelSeen("j", Queued)], []), DrainStart, [CancelSeen("j", Queued), DrainStart]);
    as_ := Next(as_, Spawn(DrainStart));
    OneClaimed(1, [CancelSeen("j", Queued), DrainStart], [CancelSeen("j", Queued), DrainClaimed("j")]);
    as_ := Next(as_, ClaimUpdate(1, "j", 1.0));
    OneMissed(1, 0, [CancelSeen("j", Queued), DrainClaimed("j")], [CancelMissed("j"), DrainClaimed("j")]);
    as_ := Next(as_, CancelUpdate(0, 2.0));
  }

  /** A reclaim between the two statements of `cancel_job` loses the cancellation: the call is over, and
      the job is queued without a flag. */
  lemma ReclaimLosesCancel() returns (as_: seq<Action>)
    ensures Run(START, as_) == OneQueued([CancelDone("j"), DrainClaimed("j"), ReclaimDone], ["j"])
  {
    hide Step;
    hide Run;
    as_ := CancelMisses();
    OneSpawned(OneRunning(1, [CancelMissed("j"), DrainClaimed("j")], ["j"]), ReclaimStart(5.0),
               [CancelMissed("j"), DrainClaimed("j"), ReclaimStart(5.0)]);
    as_ := Next(as_, Spawn(ReclaimStart(5.0)));
    OneReclaimed(1, 2, [CancelMissed("j"), DrainClaimed("j"), ReclaimStart(5.0)], [CancelMissed("j"), DrainClaimed("j"), ReclaimDone]);
    as_ := Next(as_, CancelStaleUpdate(2, 6.0));
    as_ := Next(as_, RequeueUpdate(2));
    OneMarked(0, [CancelMissed("j"), DrainClaimed("j"), ReclaimDone], [CancelDone("j"), DrainClaimed("j"), ReclaimDone]);
    as_ := Next(as_, MarkUpdate(0));
  }

  /** A reclaim between the two statements of `claim_next` hides the claim from the drain that made it. */
  lemma ReclaimLosesClaim() returns (as_: seq<Action>)
    ensures Run(START, as_) == OneQueued([DrainLost("j"), ReclaimDone], ["j"])
  {
    hide Step;
    hide Run;
    OneCreated();
    as_ := First(Create("j", 0.0));
    OneSpawned(OneQueued([], []), DrainStart, [DrainStart]);
    as_ := Next(as_, Spawn(DrainStart));
    OneClaimed(0, [DrainStart], [DrainClaimed("j")]);
    as_ := Next(as_, ClaimUpdate(0, "j", 1.0));
    OneSpawned(OneRunning(0, [DrainClaimed("j")], ["j"]), ReclaimStart(5.0), [DrainClaimed("j"), ReclaimStart(5.0)]);
    as_ := Next(as_, Spawn(ReclaimStart(5.0)));
    OneReclaimed(0, 1, [DrainClaimed("j"), ReclaimStart(5.0)], [DrainClaimed("j"), ReclaimDone]);
    as_ := Next(as_, CancelStaleUpdate(1, 6.0));
    as_ := Next(as_, RequeueUpdate(1));
    OneLost(0, [DrainClaimed("j"), ReclaimDone], [DrainLost("j"), ReclaimDone]);
    as_ := Next(as_, ClaimSelect(0, "j"));
  }

  lemma First(a: Action) returns (as_: seq<Action>)
    ensures Run(START, as_) == Step(START, a)
  {
    as_ := [a];
    assert [a][1..] == [];
  }

  lemma Next(as_: seq<Action>, a: Action) returns (as': seq<Action>)
    ensures Run(START, as') == Step(Run(START, as_), a)
  {
    hide Step;
    RunConcat(START, as_, [a]);
    assert [a][1..] == [];
    as' := as_ + [a];
  }
}
