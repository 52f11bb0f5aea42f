/** `bounded_gather`: every awaitable runs in its own task behind a semaphore; the caller awaits
    the tasks, with or without a deadline, and always drains them on the way out.

    The child tasks and the semaphore are a step system (`Advance`); the caller is imperative code.
    A schedule says in which order children move, finish, and when the caller is resumed, timed out
    or cancelled. Every theorem is for every schedule; a schedule that ends while the caller is still
    suspended gives `StillRunning`, so the invariants also speak about unfinished runs. */
module BoundedGather {
  import opened Asyncio

  datatype Status<+T> = Created | Queued | Running | Done(end: Ending<T>)

  /** `begun`: the wrapper coroutine made its first step. `ran`: it got a permit.
      `closed`: the wrapper closed its awaitable. */
  datatype Child<+T> = Child(status: Status<T>, cancelAsked: bool, begun: bool, ran: bool, closed: bool)

  datatype Tasks<+T> = Tasks(child: seq<Child<T>>, permits: nat)

  datatype Event<+T> =
    | Begin(i: nat)
    | Admit(i: nat)
    | Abandon(i: nat)
    | Finish(i: nat, end: Ending<T>)
    | Resume
    | Deadline
    | OuterCancel

  // ---- the children -----------------------------------------------------------------------

  /** One step of one child, `run_one`. An event that is not enabled changes nothing. */
  function Advance<T>(t: Tasks<T>, e: Event<T>): Tasks<T> {
    match e
    case Begin(i) =>
      if !(i < |t.child| && t.child[i].status.Created?) then t
      else if t.child[i].cancelAsked then Put(t, i, t.child[i].(status := Done(CancelledOut)), t.permits)
      else if t.permits > 0 then Put(t, i, t.child[i].(status := Running, begun := true, ran := true), t.permits - 1)
      else Put(t, i, t.child[i].(status := Queued, begun := true), t.permits)
    case Admit(i) =>
      if !(i < |t.child| && t.child[i].status.Queued? && !t.child[i].cancelAsked && t.permits > 0) then t
      else Put(t, i, t.child[i].(status := Running, ran := true), t.permits - 1)
    case Abandon(i) =>
      if !(i < |t.child| && t.child[i].status.Queued? && t.child[i].cancelAsked) then t
      else Put(t, i, t.child[i].(status := Done(CancelledOut), closed := true), t.permits)
    case Finish(i, end) =>
      if !(i < |t.child| && t.child[i].status.Running?) then t
      else Put(t, i, t.child[i].(status := Done(end)), t.permits + 1)
    case _ => t
  }

  function Put<T>(t: Tasks<T>, i: nat, c: Child<T>, permits: nat): Tasks<T>
    requires i < |t.child|
  {
    Tasks(t.child[i := c], permits)
  }

  /** `task.cancel()` on a task that has not finished. */
  function AskCancel<T>(t: Tasks<T>, i: nat): Tasks<T>
    requires i < |t.child|
  {
    if t.child[i].status.Done? then t else Put(t, i, t.child[i].(cancelAsked := true), t.permits)
  }

  function RunningCount<T>(cs: seq<Child<T>>): nat {
    if cs == [] then 0 else (if cs[0].status.Running? then 1 else 0) + RunningCount(cs[1..])
  }

  ghost predicate ChildOk<T>(c: Child<T>) {
    match c.status
    case Created => !c.begun && !c.ran && !c.closed
    case Queued => c.begun && !c.ran && !c.closed
    case Running => c.begun && c.ran && !c.closed
    case Done(end) => (c.closed <==> c.begun && !c.ran) && (c.ran ==> c.begun) && (!c.ran ==> end.CancelledOut?)
  }

  ghost predicate Ok<T>(t: Tasks<T>, limit: nat) {
    && t.permits + RunningCount(t.child) == limit
    && forall i :: 0 <= i < |t.child| ==> ChildOk(t.child[i])
  }

  predicate AllDone<T>(t: Tasks<T>) {
    forall i :: 0 <= i < |t.child| ==> t.child[i].status.Done?
  }

  /** What can never be undone between two instants of one run. */
  ghost predicate Evolves<T>(a: Tasks<T>, b: Tasks<T>) {
    && |a.child| == |b.child|
    && forall i :: 0 <= i < |a.child| ==> ChildEvolves(a.child[i], b.child[i])
  }

  ghost predicate ChildEvolves<T>(a: Child<T>, b: Child<T>) {
    && (a.status.Done? ==> b == a)
    && (a.begun ==> b.begun) && (a.ran ==> b.ran) && (a.cancelAsked ==> b.cancelAsked)
    && (b.closed && !a.closed ==> b.cancelAsked)
  }

  lemma {:induction false} RunningCountUpdate<T>(cs: seq<Child<T>>, i: nat, c: Child<T>)
    requires i < |cs|
    ensures RunningCount(cs[i := c]) + (if cs[i].status.Running? then 1 else 0)
         == RunningCount(cs) + (if c.status.Running? then 1 else 0)
  {
    if i == 0 {
      assert cs[i := c][1..] == cs[1..];
    } else {
      assert cs[i := c][1..] == cs[1..][i - 1 := c];
      RunningCountUpdate(cs[1..], i - 1, c);
    }
  }

  /** Every child step keeps the permit accounting and the bookkeeping, and undoes nothing. */
  lemma AdvanceKeeps<T>(t: Tasks<T>, e: Event<T>, limit: nat)
    requires Ok(t, limit)
    ensures Ok(Advance(t, e), limit) && Evolves(t, Advance(t, e))
  {
    var t' := Advance(t, e);
    AdvanceUndoesNothing(t, e);
    if t' != t {
      hide Evolves;
      RunningCountUpdate(t.child, e.i, t'.child[e.i]);
    }
  }

  lemma AdvanceUndoesNothing<T>(t: Tasks<T>, e: Event<T>)
    ensures Evolves(t, Advance(t, e))
  {
  }

  lemma AskCancelKeeps<T>(t: Tasks<T>, i: nat, limit: nat)
    requires Ok(t, limit) && i < |t.child|
    ensures Ok(AskCancel(t, i), limit) && Evolves(t, AskCancel(t, i))
  {
    RunningCountUpdate(t.child, i, AskCancel(t, i).child[i]);
  }

  // ---- what happened in a run -----------------------------------------------------------------

  /** The events of the schedule that were consumed, and the caller's own requests to cancel. */
  datatype Move<+T> = Happened(e: Event<T>) | Asked(i: nat)

  function Apply<T>(t: Tasks<T>, m: Move<T>): Tasks<T> {
    match m
    case Happened(e) => Advance(t, e)
    case Asked(i) => if i < |t.child| then AskCancel(t, i) else t
  }

  /** The tasks after the moves of `log`. */
  function Replay<T>(t: Tasks<T>, log: seq<Move<T>>): Tasks<T> {
    if log == [] then t else Apply(Replay(t, log[..|log| - 1]), log[|log| - 1])
  }

  function Events<T>(log: seq<Move<T>>): seq<Event<T>> {
    if log == [] then []
    else Events(log[..|log| - 1]) + if log[|log| - 1].Happened? then [log[|log| - 1].e] else []
  }

  /** `asyncio.create_task` for every awaitable, and the semaphore. */
  function Fresh<T>(n: nat, limit: nat): Tasks<T> {
    Tasks(seq(n, _ => Child(Created, false, false, false, false)), limit)
  }

  predicate NoAsks<T>(log: seq<Move<T>>) {
    forall k :: 0 <= k < |log| ==> log[k].Happened?
  }

  /** The caller's task was cancelled. */
  predicate Cancelled<T>(log: seq<Move<T>>) {
    exists k :: 0 <= k < |log| && log[k].Happened? && log[k].e.OuterCancel?
  }

  /** How often the caller was resumed when every child was done. */
  function Rings<T>(t: Tasks<T>, log: seq<Move<T>>): nat {
    if log == [] then 0
    else
      var (front, last) := (log[..|log| - 1], log[|log| - 1]);
      Rings(t, front) + if last.Happened? && last.e.Resume? && AllDone(Replay(t, front)) then 1 else 0
  }

  lemma Pushed<T>(t: Tasks<T>, log: seq<Move<T>>, m: Move<T>)
    ensures Replay(t, log + [m]) == Apply(Replay(t, log), m)
    ensures Events(log + [m]) == Events(log) + if m.Happened? then [m.e] else []
    ensures Rings(t, log + [m]) == Rings(t, log) + if m.Happened? && m.e.Resume? && AllDone(Replay(t, log)) then 1 else 0
    ensures NoAsks(log + [m]) <==> NoAsks(log) && m.Happened?
    ensures Cancelled(log + [m]) <==> Cancelled(log) || (m.Happened? && m.e.OuterCancel?)
  {
    assert (log + [m])[..|log|] == log && (log + [m])[|log|] == m;
    forall k | 0 <= k < |log| ensures (log + [m])[k] == log[k] {}
  }

  lemma {:induction false} NothingRuns<T>(cs: seq<Child<T>>)
    requires forall i :: 0 <= i < |cs| ==> !cs[i].status.Running?
    ensures RunningCount(cs) == 0
  {
    if cs != [] { NothingRuns(cs[1..]); }
  }

  lemma FreshOk<T>(n: nat, limit: nat)
    ensures Ok(Fresh<T>(n, limit), limit) && |Fresh<T>(n, limit).child| == n
  {
    NothingRuns(Fresh<T>(n, limit).child);
  }

  lemma ApplyKeeps<T>(t: Tasks<T>, m: Move<T>, limit: nat)
    requires Ok(t, limit)
    ensures Ok(Apply(t, m), limit) && Evolves(t, Apply(t, m))
  {
    match m
    case Happened(e) => AdvanceKeeps(t, e, limit);
    case Asked(i) => if i < |t.child| { AskCancelKeeps(t, i, limit); }
  }

  /** In any run whatsoever, at every instant: permits and bookkeeping are right, so at most `limit` children
      run; and what happened by then is not undone later. */
  lemma {:induction false} AtEveryInstant<T>(n: nat, limit: nat, log: seq<Move<T>>, k: nat)
    requires k <= |log|
    ensures var (mid, end) := (Replay(Fresh(n, limit), log[..k]), Replay(Fresh(n, limit), log));
            Ok(mid, limit) && RunningCount(mid.child) <= limit && |mid.child| == n && Evolves(mid, end) && Ok(end, limit)
    decreases |log|
  {
    hide Ok;
    hide Evolves;
    hide Replay;
    if log == [] {
      NothingYet(Fresh<T>(n, limit));
      FreshOk<T>(n, limit);
      StaysSame(Fresh<T>(n, limit), limit);
    } else {
      var (front, last) := (log[..|log| - 1], log[|log| - 1]);
      var (was, now) := (Replay(Fresh<T>(n, limit), front), Replay(Fresh<T>(n, limit), log));
      var m := if k == |log| then |front| else k;
      AtEveryInstant(n, limit, front, m);
      assert front + [last] == log && front[..m] == log[..m];
      Pushed(Fresh(n, limit), front, last);
      ApplyKeeps(was, last, limit);
      SameNumber(was, now);
      if k == |log| {
        assert log[..k] == log;
        StaysSame(now, limit);
      } else {
        EvolvesTrans(Replay(Fresh(n, limit), log[..k]), was, now);
      }
    }
  }

  lemma NothingYet<T>(t: Tasks<T>)
    ensures Replay(t, []) == t
  {
  }

  lemma StaysSame<T>(t: Tasks<T>, limit: nat)
    requires Ok(t, limit)
    ensures Evolves(t, t) && RunningCount(t.child) <= limit
  {
  }

  lemma SameNumber<T>(a: Tasks<T>, b: Tasks<T>)
    requires Evolves(a, b)
    ensures |a.child| == |b.child|
  {
  }

  lemma EvolvesTrans<T>(a: Tasks<T>, b: Tasks<T>, c: Tasks<T>)
    requires Evolves(a, b) && Evolves(b, c)
    ensures Evolves(a, c)
  {
    forall i | 0 <= i < |a.child| ensures ChildEvolves(a.child[i], c.child[i]) {
      assert ChildEvolves(a.child[i], b.child[i]) && ChildEvolves(b.child[i], c.child[i]);
    }
  }

  /** In any run, only who was asked to cancel counts as asked. */
  lemma {:induction false} OnlyAskedAreCancelled<T>(n: nat, limit: nat, log: seq<Move<T>>, i: nat)
    requires i < |Replay(Fresh<T>(n, limit), log).child| && Replay(Fresh<T>(n, limit), log).child[i].cancelAsked
    ensures exists k :: 0 <= k < |log| && log[k] == Asked(i)
  {
    if log != [] {
      var last := |log| - 1;
      var was := Replay(Fresh<T>(n, limit), log[..last]);
      AskedNowOrBefore(was, log[last], i);
      if log[last] != Asked(i) {
        OnlyAskedAreCancelled(n, limit, log[..last], i);
        var k :| 0 <= k < last && log[..last][k] == Asked(i);
        assert log[k] == Asked(i);
      }
    }
  }

  lemma AskedNowOrBefore<T>(t: Tasks<T>, m: Move<T>, i: nat)
    requires i < |Apply(t, m).child| && Apply(t, m).child[i].cancelAsked
    ensures i < |t.child| && (t.child[i].cancelAsked || m == Asked(i))
  {
  }

  // ---- no deadlock ------------------------------------------------------------------------

  function Advances<T>(t: Tasks<T>, es: seq<Event<T>>): Tasks<T>
    decreases es
  {
    if es == [] then t else Advances(Advance(t, es[0]), es[1..])
  }

  function Rank<T>(c: Child<T>): nat {
    match c.status case Created => 3 case Queued => 2 case Running => 1 case Done(_) => 0
  }

  function Work<T>(cs: seq<Child<T>>): nat {
    if cs == [] then 0 else Rank(cs[0]) + Work(cs[1..])
  }

  lemma {:induction false} WorkUpdate<T>(cs: seq<Child<T>>, i: nat, c: Child<T>)
    requires i < |cs|
    ensures Work(cs[i := c]) + Rank(cs[i]) == Work(cs) + Rank(c)
  {
    if i == 0 {
      assert cs[i := c][1..] == cs[1..];
    } else {
      assert cs[i := c][1..] == cs[1..][i - 1 := c];
      WorkUpdate(cs[1..], i - 1, c);
    }
  }

  /** While some child is unfinished, some child can move: the semaphore never blocks them all. */
  lemma SomeChildCanMove<T>(t: Tasks<T>, limit: nat) returns (e: Event<T>)
    requires Ok(t, limit) && limit >= 1 && !AllDone(t)
    ensures Work(Advance(t, e).child) < Work(t.child)
  {
    var i: nat :| i < |t.child| && !t.child[i].status.Done?;
    if j: nat :| j < |t.child| && t.child[j].status.Running? {
      e := Finish(j, CancelledOut);
    } else {
      NothingRuns(t.child);
      e := if t.child[i].status.Created? then Begin(i)
           else if t.child[i].cancelAsked then Abandon(i) else Admit(i);
    }
    WorkUpdate(t.child, e.i, Advance(t, e).child[e.i]);
  }

  /** How many events of `es` changed something. */
  function Effective<T(==)>(t: Tasks<T>, es: seq<Event<T>>): nat
    decreases es
  {
    if es == [] then 0 else (if Advance(t, es[0]) != t then 1 else 0) + Effective(Advance(t, es[0]), es[1..])
  }

  lemma EffectiveLowers<T>(t: Tasks<T>, e: Event<T>)
    requires Advance(t, e) != t
    ensures Work(Advance(t, e).child) < Work(t.child)
  {
    WorkUpdate(t.child, e.i, Advance(t, e).child[e.i]);
  }

  lemma {:induction false} NoWorkLeft<T>(cs: seq<Child<T>>)
    ensures Work(cs) == 0 <==> forall i :: 0 <= i < |cs| ==> cs[i].status.Done?
    ensures Work(cs) <= 3 * |cs|
  {
    if cs != [] { NoWorkLeft(cs[1..]); }
  }

  /** Every schedule drains: each effective event lowers the work left, of which there is at most three
      steps per child, so after that many every child is done; and until then some child can move. */
  lemma {:induction false} EveryScheduleDrains<T>(t: Tasks<T>, es: seq<Event<T>>, limit: nat)
    requires Ok(t, limit) && limit >= 1
    ensures Effective(t, es) + Work(Advances(t, es).child) <= Work(t.child) <= 3 * |t.child|
    ensures Effective(t, es) >= Work(t.child) ==> AllDone(Advances(t, es))
    ensures !AllDone(Advances(t, es)) ==> exists e :: Work(Advance(Advances(t, es), e).child) < Work(Advances(t, es).child)
    decreases es
  {
    NoWorkLeft(t.child);
    NoWorkLeft(Advances(t, es).child);
    if es != [] {
      if Advance(t, es[0]) != t { EffectiveLowers(t, es[0]); }
      AdvanceKeeps(t, es[0], limit);
      EveryScheduleDrains(Advance(t, es[0]), es[1..], limit);
    } else if !AllDone(t) {
      var e := SomeChildCanMove(t, limit);
    }
  }

  /** A child that is cancelled before its wrapper's first step ends without closing its awaitable. */
  lemma CancelledUnbegunIsNotClosed<T>()
    ensures var t: Tasks<T> := Tasks([Child(Created, false, false, false, false)], 1);
            Ok(t, 1) && Advance(AskCancel(t, 0), Begin(0)).child[0] == Child(Done(CancelledOut), true, false, false, false)
  {
    var c: Child<T> := Child(Created, false, false, false, false);
    assert RunningCount([c]) == RunningCount([c][1..]);
  }

  /** In any run, an awaitable that was never run is left open if and only if its wrapper was cancelled before
      its first step; cancelled while queued on the semaphore it is closed. */
  lemma LeftOpenIff<T>(n: nat, limit: nat, log: seq<Move<T>>, i: nat)
    requires i < |Replay(Fresh<T>(n, limit), log).child| && Replay(Fresh<T>(n, limit), log).child[i].status.Done?
    ensures var c := Replay(Fresh<T>(n, limit), log).child[i];
            && (!c.ran && !c.closed <==> !c.begun) && (c.closed <==> c.begun && !c.ran) && (!c.ran ==> c.status.end.CancelledOut?)
  {
    AtEveryInstant(n, limit, log, |log|);
    assert ChildOk(Replay(Fresh<T>(n, limit), log).child[i]);
  }

  // ---- the caller ---------------------------------------------------------------------------

  datatype Slot<+T> = Val(v: T) | Exn(e: string) | TimedOut

  datatype Wake = Woken | Elapsed | Interrupted | Suspended

  datatype Outcome<+T> =
    | BadLimit
    | Returned(slots: seq<Slot<T>>)
    | RaisedCancelled
    | RaisedFatal(e: string)
    | StillRunning

  /** The child ended with a value or an exception of its own. */
  predicate Own<T>(c: Child<T>) {
    c.status.Done? && (c.status.end.Value? || c.status.end.Raised?)
  }

  /** The slot shows the child as it is at one instant: its value or exception, or a timeout if it has not
      completed, or was cancelled. */
  predicate Shows<T(==)>(s: Slot<T>, c: Child<T>) {
    match c.status
    case Done(Value(v)) => s == Val(v)
    case Done(Raised(e)) => s == Exn(e)
    case Done(Fatal(e)) => s == Exn(e)
    case _ => s == TimedOut
  }

  predicate SlotsOf<T(==)>(slots: seq<Slot<T>>, t: Tasks<T>) {
    |slots| == |t.child| && forall i :: 0 <= i < |slots| ==> Shows(slots[i], t.child[i])
  }

  /** The first child, in input order, that ended without a value or exception to put into a slot. */
  predicate Breaks<T>(t: Tasks<T>, i: nat) {
    i < |t.child| && t.child[i].status.Done? && !Own(t.child[i]) && forall j :: 0 <= j < i ==> Own(t.child[j])
  }

  /** What `[await task for task in tasks]` comes to, given how the children ended. */
  ghost predicate Decides<T>(t: Tasks<T>, r: Outcome<T>) {
    match r
    case Returned(slots) => SlotsOf(slots, t) && forall i :: 0 <= i < |slots| ==> Own(t.child[i])
    case RaisedFatal(e) => exists i: nat :: Breaks(t, i) && t.child[i].status.end == Fatal(e)
    case RaisedCancelled => exists i: nat :: Breaks(t, i) && t.child[i].status.end.CancelledOut?
    case _ => false
  }

  /** Move `k` ends `asyncio.wait`: the deadline, a cancellation, or a resumption that finds all done. */
  predicate EndsWait<T>(t: Tasks<T>, log: seq<Move<T>>, k: nat)
    requires k < |log|
  {
    log[k].Happened? && (log[k].e.Deadline? || log[k].e.OuterCancel? || (log[k].e.Resume? && AllDone(Replay(t, log[..k]))))
  }

  /** The one instant at which `asyncio.wait` ended: nothing ended it before, and nobody was cancelled before. */
  ghost predicate WaitEnded<T>(t: Tasks<T>, log: seq<Move<T>>, k: nat) {
    k < |log| && EndsWait(t, log, k) && NoAsks(log[..k]) && forall j :: 0 <= j < k ==> !EndsWait(t, log, j)
  }

  /** The children decide what the list comprehension comes to: one breaks it, or all have their slot. */
  ghost predicate Settles<T>(t: Tasks<T>) {
    (exists i: nat :: Breaks(t, i)) || forall i :: 0 <= i < |t.child| ==> Own(t.child[i])
  }

  function FirstOpen<T>(cs: seq<Child<T>>): nat {
    if cs == [] || !cs[0].status.Done? then 0 else 1 + FirstOpen(cs[1..])
  }

  /** The child that the list comprehension awaits: the first that was unfinished when the caller last ran. */
  function Awaited<T>(t: Tasks<T>, log: seq<Move<T>>): nat {
    if log == [] then 0
    else
      var (front, last) := (log[..|log| - 1], log[|log| - 1]);
      if last.Happened? && last.e.Resume? then FirstOpen(Replay(t, front).child) else Awaited(t, front)
  }

  /** Move `k` ends the list comprehension: a resumption that finds it settled, or a cancellation that finds the
      awaited child done. */
  ghost predicate EndsOrder<T>(t: Tasks<T>, log: seq<Move<T>>, k: nat)
    requires k < |log|
  {
    var (mid, p) := (Replay(t, log[..k]), Awaited(t, log[..k]));
    log[k].Happened? && ((log[k].e.Resume? && Settles(mid)) || (log[k].e.OuterCancel? && p < |mid.child| && mid.child[p].status.Done?))
  }

  ghost predicate InOrder<T>(t: Tasks<T>, log: seq<Move<T>>) {
    forall j :: 0 <= j < |log| ==> !EndsOrder(t, log, j)
  }

  /** The one instant at which the list comprehension ended. */
  ghost predicate OrderEnded<T>(t: Tasks<T>, log: seq<Move<T>>, k: nat) {
    k < |log| && EndsOrder(t, log, k) && forall j :: 0 <= j < k ==> !EndsOrder(t, log, j)
  }

  /** The one instant at which the body of the `try` statement ended. */
  ghost predicate BodyEnded<T>(t: Tasks<T>, log: seq<Move<T>>, timeout: bool, k: nat) {
    if timeout then WaitEnded(t, log, k) else OrderEnded(t, log, k)
  }

  /** Whoever was unfinished in `mid` has been asked to cancel in `end`. */
  ghost predicate RestAsked<T>(mid: Tasks<T>, end: Tasks<T>) {
    && |mid.child| == |end.child|
    && forall i :: 0 <= i < |mid.child| && !mid.child[i].status.Done? ==> end.child[i].cancelAsked
  }

  /** Whoever was unfinished when move `k` happened is asked to cancel before anything else happens. */
  ghost predicate AskedAtOnce<T>(t: Tasks<T>, log: seq<Move<T>>, k: nat) {
    forall m :: k < m <= |log| && (m == |log| || log[m].Happened?) ==> RestAsked(Replay(t, log[..k]), Replay(t, log[..m]))
  }

  /** From `from` on the log holds nothing but requests to cancel. */
  predicate OnlyAsks<T>(log: seq<Move<T>>, from: nat) {
    forall j :: from <= j < |log| ==> !log[j].Happened?
  }

  lemma AskedNow<T>(t: Tasks<T>, log: seq<Move<T>>, k: nat)
    requires k < |log| && OnlyAsks(log, k + 1) && RestAsked(Replay(t, log[..k]), Replay(t, log))
    ensures AskedAtOnce(t, log, k)
  {
    hide RestAsked;
    hide Replay;
    assert log[..|log|] == log;
  }

  lemma RestStaysAsked<T>(mid: Tasks<T>, end: Tasks<T>, later: Tasks<T>)
    requires RestAsked(mid, end) && Evolves(end, later)
    ensures RestAsked(mid, later)
  {
    forall i | 0 <= i < |mid.child| && !mid.child[i].status.Done? ensures later.child[i].cancelAsked {
      assert ChildEvolves(end.child[i], later.child[i]);
    }
  }

  /** What one more move does to the list comprehension. */
  lemma OneMoreMove<T>(t: Tasks<T>, front: seq<Move<T>>, m: Move<T>)
    requires InOrder(t, front)
    ensures var (log, mid, p) := (front + [m], Replay(t, front), Awaited(t, front));
            && log[..|front|] == front
            && (forall j :: 0 <= j < |front| ==> !EndsOrder(t, log, j))
            && (EndsOrder(t, log, |front|) <==>
                  m.Happened? && ((m.e.Resume? && Settles(mid)) || (m.e.OuterCancel? && p < |mid.child| && mid.child[p].status.Done?)))
            && Awaited(t, log) == if m.Happened? && m.e.Resume? then FirstOpen(mid.child) else p
  {
    hide Replay;
    hide Settles;
    hide FirstOpen;
    var log := front + [m];
    assert log[..|front|] == front;
    forall j | 0 <= j < |front| ensures !EndsOrder(t, log, j) {
      assert log[..j] == front[..j] && log[j] == front[j];
      assert !EndsOrder(t, front, j);
    }
  }

  /** The child at `k` is open, all before have their slot: nothing is settled. */
  lemma OpenAt<T>(t: Tasks<T>, k: nat)
    requires k < |t.child| && !t.child[k].status.Done? && forall i :: 0 <= i < k ==> Own(t.child[i])
    ensures !Settles(t) && FirstOpen(t.child) == k
  {
    FirstOpenIs(t.child, k);
    forall i: nat ensures !Breaks(t, i) {
      if k < i { assert !Own(t.child[k]); }
    }
  }

  lemma {:induction false} FirstOpenIs<T>(cs: seq<Child<T>>, k: nat)
    requires k < |cs| && !cs[k].status.Done? && forall i :: 0 <= i < k ==> cs[i].status.Done?
    ensures FirstOpen(cs) == k
  {
    if k > 0 { FirstOpenIs(cs[1..], k - 1); }
  }

  lemma OrderEndStays<T>(t: Tasks<T>, front: seq<Move<T>>, log: seq<Move<T>>, k: nat)
    requires front <= log && OrderEnded(t, front, k)
    ensures OrderEnded(t, log, k)
  {
    hide Replay;
    hide Settles;
    forall j | 0 <= j <= k ensures EndsOrder(t, log, j) <==> EndsOrder(t, front, j) {
      assert log[..j] == front[..j] && log[j] == front[j];
    }
  }

  /** The list comprehension is at child `k`, all before have their slot, and the caller was just resumed. */
  ghost predicate Walking<T>(t: Tasks<T>, log: seq<Move<T>>, now: Tasks<T>, k: nat) {
    && k <= |now.child| && now == Replay(t, log) && (forall i :: 0 <= i < k ==> Own(now.child[i]))
    && if log == [] then k == 0 && AllCreated(now) else Last(log) == Happened(Resume) && InOrder(t, Front(log))
  }

  predicate AllCreated<T>(t: Tasks<T>) {
    forall i :: 0 <= i < |t.child| ==> t.child[i].status.Created?
  }

  /** It waits for child `k`. */
  ghost predicate Waiting<T>(t: Tasks<T>, log: seq<Move<T>>, now: Tasks<T>, k: nat) {
    && k < |now.child| && now == Replay(t, log) && (forall i :: 0 <= i < k ==> Own(now.child[i]))
    && InOrder(t, log) && Awaited(t, log) == k
  }

  /** It ended with the last move, which changed no child. */
  ghost predicate EndedNow<T>(t: Tasks<T>, log: seq<Move<T>>, now: Tasks<T>) {
    log != [] && OrderEnded(t, log, |log| - 1) && now == Replay(t, Front(log))
  }

  function Front<A>(s: seq<A>): seq<A>
    requires s != []
  {
    s[..|s| - 1]
  }

  function Last<A>(s: seq<A>): A
    requires s != []
  {
    s[|s| - 1]
  }

  lemma StartWaiting<T>(t: Tasks<T>, log: seq<Move<T>>, now: Tasks<T>, k: nat)
    requires Walking(t, log, now, k) && k < |now.child| && !now.child[k].status.Done?
    ensures Waiting(t, log, now, k)
  {
    hide EndsOrder;
    hide Replay;
    hide FirstOpen;
    hide Settles;
    if log != [] {
      hide Awaited;
      assert log == Front(log) + [Last(log)];
      Pushed(t, Front(log), Last(log));
      OpenAt(now, k);
      OneMoreMove(t, Front(log), Last(log));
    }
  }

  /** One move while child `k` is awaited. */
  lemma WaitingMoves<T>(t: Tasks<T>, log: seq<Move<T>>, now: Tasks<T>, k: nat, m: Move<T>)
    requires Waiting(t, log, now, k) && Evolves(now, Apply(now, m))
    ensures var (next, found) := (Apply(now, m), now.child[k].status.Done?);
            if found && m == Happened(Resume) then Walking(t, log + [m], next, k)
            else if found && m == Happened(OuterCancel) then EndedNow(t, log + [m], next)
            else Waiting(t, log + [m], next, k)
  {
    hide EndsOrder;
    hide Settles;
    hide Replay;
    hide Awaited;
    OneMoreMove(t, log, m);
    Pushed(t, log, m);
    OwnStays(now, Apply(now, m), k);
    if !now.child[k].status.Done? { OpenAt(now, k); }
  }

  /** The slots of the first `k` children, which keep them. */
  ghost predicate Collected<T>(slots: seq<Slot<T>>, now: Tasks<T>, k: nat) {
    |slots| == k <= |now.child| && forall i :: 0 <= i < k ==> Own(now.child[i]) && Shows(slots[i], now.child[i])
  }

  lemma CollectedStays<T>(slots: seq<Slot<T>>, a: Tasks<T>, b: Tasks<T>, k: nat)
    requires Collected(slots, a, k) && Evolves(a, b)
    ensures Collected(slots, b, k)
  {
    forall i | 0 <= i < k ensures b.child[i] == a.child[i] { assert ChildEvolves(a.child[i], b.child[i]); }
  }

  /** The walk ends when it is settled. */
  lemma WalkEnds<T>(t: Tasks<T>, log: seq<Move<T>>, now: Tasks<T>, k: nat)
    requires Walking(t, log, now, k) && log != [] && Settles(now)
    ensures EndedNow(t, log, now)
  {
    hide Replay;
    hide EndsOrder;
    hide Settles;
    assert log == Front(log) + [Last(log)];
    Pushed(t, Front(log), Last(log));
    OneMoreMove(t, Front(log), Last(log));
  }

  lemma WalkBreaks<T>(t: Tasks<T>, log: seq<Move<T>>, now: Tasks<T>, k: nat)
    requires Walking(t, log, now, k) && k < |now.child| && now.child[k].status.Done? && !Own(now.child[k])
    ensures log != [] && EndedNow(t, log, now) && Last(log) == Happened(Resume)
    ensures match now.child[k].status.end
            case Fatal(e) => Decides(now, RaisedFatal(e))
            case _ => Decides(now, RaisedCancelled)
  {
    hide InOrder;
    hide EndedNow;
    hide Replay;
    assert Breaks(now, k);
    assert log != [];
    WalkEnds(t, log, now, k);
  }

  lemma WalkGoesOn<T>(t: Tasks<T>, log: seq<Move<T>>, now: Tasks<T>, k: nat)
    requires Walking(t, log, now, k) && k < |now.child| && Own(now.child[k])
    ensures log != [] && Walking(t, log, now, k + 1)
    ensures forall slots, s :: Collected(slots, now, k) && Shows(s, now.child[k]) ==> Collected(slots + [s], now, k + 1)
  {
    hide InOrder;
    hide Replay;
  }

  lemma WalkDone<T>(t: Tasks<T>, log: seq<Move<T>>, now: Tasks<T>)
    requires Walking(t, log, now, |now.child|) && log != []
    ensures EndedNow(t, log, now) && Last(log) == Happened(Resume)
    ensures forall slots :: Collected(slots, now, |now.child|) ==> Decides(now, Returned(slots))
  {
    hide InOrder;
    hide EndedNow;
    hide Replay;
    assert Settles(now);
    WalkEnds(t, log, now, |now.child|);
  }

  /** The event loop as the caller sees it: the tasks, and the rest of the schedule. `log` is what happened,
      `whole` the schedule of the run. */
  class Loop<T(==)> {
    var tasks: Tasks<T>
    var schedule: seq<Event<T>>
    ghost var limit: nat
    ghost var log: seq<Move<T>>
    ghost var whole: seq<Event<T>>

    constructor (schedule: seq<Event<T>>)
      ensures this.schedule == schedule
    {
      this.schedule := schedule;
      tasks := Tasks([], 0);
      limit, log, whole := 0, [], schedule;
    }

    ghost function Origin(): Tasks<T>
      reads this
    {
      Fresh(|tasks.child|, limit)
    }

    /** The tasks are what the log makes of fresh ones, and its events are the schedule's, in order. */
    ghost predicate Valid()
      reads this
    {
      tasks == Replay(Origin(), log) && Events(log) + schedule == whole
    }

    ghost function Rung(): nat
      reads this
    {
      Rings(Origin(), log)
    }

    twostate predicate Went()
      reads this
    {
      && Evolves(old(tasks), tasks) && |tasks.child| == |old(tasks).child|
      && limit == old(limit) && whole == old(whole) && old(log) <= log
    }

    method Create(n: nat, limit: nat)
      modifies this`tasks, this`limit, this`log, this`whole
      ensures Valid() && this.limit == limit && |tasks.child| == n && log == [] && whole == schedule
    {
      tasks := Fresh(n, limit);
      this.limit, log, whole := limit, [], schedule;
    }

    /** The next event of the schedule happens. */
    method Next() returns (e: Event<T>)
      requires Valid() && schedule != []
      modifies this`tasks, this`schedule, this`log
      ensures Valid() && Went() && e == old(schedule)[0] && schedule == old(schedule)[1..]
      ensures log == old(log) + [Happened(e)] && tasks == Advance(old(tasks), e)
      ensures Rung() == old(Rung()) + if e.Resume? && AllDone(old(tasks)) then 1 else 0
      ensures NoAsks(old(log)) ==> NoAsks(log)
      ensures Cancelled(log) <==> Cancelled(old(log)) || e.OuterCancel?
    {
      e := schedule[0];
      Moved(Happened(e));
      assert Events(log) + [e] + schedule[1..] == Events(log) + schedule;
      tasks := Advance(tasks, e);
      log := log + [Happened(e)];
      schedule := schedule[1..];
    }

    lemma Moved(m: Move<T>)
      requires Valid()
      ensures Replay(Origin(), log + [m]) == Apply(tasks, m) && Evolves(tasks, Apply(tasks, m)) && |Apply(tasks, m).child| == |tasks.child|
      ensures Events(log + [m]) == Events(log) + if m.Happened? then [m.e] else []
      ensures Rings(Origin(), log + [m]) == Rung() + if m.Happened? && m.e.Resume? && AllDone(tasks) then 1 else 0
      ensures NoAsks(log + [m]) <==> NoAsks(log) && m.Happened?
      ensures Cancelled(log + [m]) <==> Cancelled(log) || (m.Happened? && m.e.OuterCancel?)
    {
      hide Ok;
      Pushed(Origin(), log, m);
      AtEveryInstant(|tasks.child|, limit, log, |log|);
      ApplyKeeps(tasks, m, limit);
      SameNumber(tasks, Apply(tasks, m));
    }

    /** `task.cancel()`. */
    method Cancel(i: nat)
      requires Valid() && i < |tasks.child| && !tasks.child[i].status.Done?
      modifies this`tasks, this`log
      ensures Valid() && Went() && tasks == AskCancel(old(tasks), i) && log == old(log) + [Asked(i)]
      ensures Rung() == old(Rung()) && (Cancelled(log) <==> Cancelled(old(log)))
    {
      hide Replay;
      hide Rings;
      hide Events;
      Moved(Asked(i));
      tasks := AskCancel(tasks, i);
      log := log + [Asked(i)];
    }

    /** The loop of the `finally` clause: cancel whatever has not finished. */
    method CancelUnfinished()
      requires Valid()
      modifies this`tasks, this`log
      ensures Valid() && Went() && Rung() == old(Rung()) && (Cancelled(log) <==> Cancelled(old(log)))
      ensures RestAsked(old(tasks), tasks) && OnlyAsks(log, |old(log)|)
    {
      hide Replay;
      hide Rings;
      hide Events;
      Unmoved();
      var i := 0;
      while i < |tasks.child|
        invariant Valid() && Went() && i <= |tasks.child| && Rung() == old(Rung()) && (Cancelled(log) <==> Cancelled(old(log)))
        invariant forall j :: 0 <= j < |tasks.child| ==> tasks.child[j].status == old(tasks).child[j].status
        invariant OnlyAsks(log, |old(log)|)
        invariant forall j :: 0 <= j < i && !tasks.child[j].status.Done? ==> tasks.child[j].cancelAsked
      {
        if !tasks.child[i].status.Done? {
          label before:
          Cancel(i);
          EvolvesTrans(old(tasks), old@before(tasks), tasks);
        }
        i := i + 1;
      }
    }

    lemma Unmoved()
      ensures Evolves(tasks, tasks)
    {
    }

    /** `await task`: cancelling the caller while it waits cancels the awaited task instead. It waits only as
        long as the task is not done and the schedule goes on. */
    method AwaitTask(k: nat) returns (w: Wake)
      requires Valid() && k < |tasks.child| && Rung() <= if AllDone(tasks) then 1 else 0
      requires Walking(Origin(), log, tasks, k)
      modifies this`tasks, this`schedule, this`log
      ensures Valid() && Went() && Rung() <= if AllDone(tasks) then 1 else 0
      ensures NoAsks(old(log)) ==> NoAsks(log) || Cancelled(log)
      ensures Cancelled(old(log)) ==> Cancelled(log)
      ensures w == Woken ==> tasks.child[k].status.Done? && Walking(Origin(), log, tasks, k)
      ensures w == Interrupted ==> Cancelled(log) && log != [] && EndedNow(Origin(), log, tasks)
      ensures w == Suspended ==> schedule == [] && Rung() == 0 && InOrder(Origin(), log)
      ensures w != Elapsed
    {
      hide Evolves;
      hide Replay;
      hide Rings;
      hide Events;
      hide InOrder;
      hide Walking;
      hide Settles;
      hide EndedNow;
      hide NoAsks;
      hide Cancelled;
      Unmoved();
      if tasks.child[k].status.Done? { return Woken; }
      StartWaiting(Origin(), log, tasks, k);
      while schedule != []
        invariant Valid() && Went() && Rung() == 0 && Waiting(Origin(), log, tasks, k)
        invariant NoAsks(old(log)) ==> NoAsks(log) || Cancelled(log)
        invariant Cancelled(old(log)) ==> Cancelled(log)
        decreases |schedule|
      {
        ghost var was, front := tasks, log;
        var e := Next();
        EvolvesTrans(old(tasks), was, tasks);
        WaitingMoves(Origin(), front, was, k, Happened(e));
        if e.Resume? && tasks.child[k].status.Done? { return Woken; }
        if e.OuterCancel? {
          if tasks.child[k].status.Done? { return Interrupted; }
          ghost var met, sofar := tasks, log;
          Cancel(k);
          EvolvesTrans(old(tasks), met, tasks);
          WaitingMoves(Origin(), sofar, met, k, Asked(k));
        }
      }
      return Suspended;
    }

    /** `asyncio.wait(tasks, timeout=...)`, the first thing that is waited for. */
    method WaitAll() returns (w: Wake)
      requires Valid() && log == []
      modifies this`tasks, this`schedule, this`log
      ensures Valid() && Went()
      ensures w != Suspended ==> log != [] && WaitEnded(Origin(), log, |log| - 1) && tasks == Replay(Origin(), log[..|log| - 1])
      ensures w == Woken ==> log[|log| - 1] == Happened(Resume) && AllDone(tasks)
      ensures w == Elapsed ==> log[|log| - 1] == Happened(Deadline)
      ensures w == Interrupted ==> Cancelled(log)
      ensures w == Suspended ==> schedule == [] && Rung() == 0 && NeverEnded(Origin(), log)
      ensures Rung() <= 1
    {
      Unmoved();
      while schedule != []
        invariant Valid() && Went() && Rung() == 0 && NoAsks(log)
        invariant forall j :: 0 <= j < |log| ==> !EndsWait(Origin(), log, j)
        decreases |schedule|
      {
        ghost var was, front := tasks, log;
        label before:
        var e := Next();
        EvolvesTrans(old(tasks), old@before(tasks), tasks);
        StillWaiting(Origin(), front, Happened(e));
        if e.Resume? && AllDone(tasks) { return Woken; }
        if e.Deadline? { return Elapsed; }
        if e.OuterCancel? { return Interrupted; }
      }
      return Suspended;
    }

    /** `asyncio.gather(*tasks, return_exceptions=True)`: a cancelled gather cancels its children
        again and raises only once they have all finished. */
    method GatherAll() returns (w: Wake)
      requires Valid() && Rung() <= 1
      modifies this`tasks, this`schedule, this`log
      ensures Valid() && Went() && (Cancelled(old(log)) ==> Cancelled(log))
      ensures w in {Woken, Interrupted} ==> AllDone(tasks)
      ensures w == Interrupted ==> Cancelled(log)
      ensures w == Suspended ==> schedule == [] && Rung() <= 1
      ensures w != Elapsed
    {
      Unmoved();
      if tasks.child == [] { return Woken; }
      var hit := false;
      while schedule != []
        invariant Valid() && Went() && Rung() <= 1
        invariant (hit || Cancelled(old(log))) ==> Cancelled(log)
        decreases |schedule|
      {
        label before:
        var e := Next();
        EvolvesTrans(old(tasks), old@before(tasks), tasks);
        if e.Resume? && AllDone(tasks) { return if hit then Interrupted else Woken; }
        if e.OuterCancel? {
          hit := true;
          label asking:
          CancelUnfinished();
          EvolvesTrans(old(tasks), old@asking(tasks), tasks);
        }
      }
      return Suspended;
    }
  }

  /** One more move of a wait that nothing had ended. */
  lemma StillWaiting<T>(t: Tasks<T>, front: seq<Move<T>>, m: Move<T>)
    requires NoAsks(front) && m.Happened? && forall j :: 0 <= j < |front| ==> !EndsWait(t, front, j)
    ensures forall j :: 0 <= j < |front| ==> !EndsWait(t, front + [m], j)
    ensures EndsWait(t, front + [m], |front|) ==> WaitEnded(t, front + [m], |front|)
    ensures EndsWait(t, front + [m], |front|) <==> m.e.Deadline? || m.e.OuterCancel? || (m.e.Resume? && AllDone(Replay(t, front)))
    ensures (front + [m])[..|front|] == front
  {
    var log := front + [m];
    assert log[..|front|] == front;
    forall j | 0 <= j < |front| ensures !EndsWait(t, log, j) {
      assert log[..j] == front[..j] && log[j] == front[j];
      assert !EndsWait(t, front, j);
    }
  }

  /** `[await task for task in tasks]`. */
  method AwaitInOrder<T>(loop: Loop<T>) returns (r: Outcome<T>)
    requires loop.Valid() && loop.log == []
    modifies loop`tasks, loop`schedule, loop`log
    ensures loop.Valid() && loop.Went() && loop.Rung() <= 1 && !r.BadLimit?
    ensures NoAsks(loop.log) || Cancelled(loop.log)
    ensures r.StillRunning? ==> loop.schedule == [] && loop.Rung() == 0 && InOrder(loop.Origin(), loop.log)
    ensures !r.StillRunning? ==>
      if loop.tasks.child == [] then r == Returned([]) && loop.log == []
      else loop.log != [] && EndedNow(loop.Origin(), loop.log, loop.tasks)
    ensures r.StillRunning? || loop.log == [] || (Last(loop.log) == Happened(Resume) && Decides(loop.tasks, r))
            || (r.RaisedCancelled? && Cancelled(loop.log))
  {
    hide Evolves;
    hide Rings;
    hide Replay;
    hide Events;
    hide Walking;
    hide EndedNow;
    hide InOrder;
    hide NoAsks;
    hide Cancelled;
    hide Collected;
    hide Decides;
    hide AllDone;
    loop.Unmoved();
    RestFresh(loop);
    var slots: seq<Slot<T>> := [];
    while |slots| < |loop.tasks.child|
      invariant loop.Valid() && loop.Went() && |slots| <= |loop.tasks.child|
      invariant loop.Rung() <= if AllDone(loop.tasks) then 1 else 0
      invariant NoAsks(loop.log) || Cancelled(loop.log)
      invariant Walking(loop.Origin(), loop.log, loop.tasks, |slots|) && (slots == [] <==> loop.log == [])
      invariant Collected(slots, loop.tasks, |slots|)
    {
      ghost var was := loop.tasks;
      var k := |slots|;
      var w := loop.AwaitTask(k);
      EvolvesTrans(old(loop.tasks), was, loop.tasks);
      CollectedStays(slots, was, loop.tasks, k);
      if w == Suspended { return StillRunning; }
      if w == Interrupted { return RaisedCancelled; }
      if Own(loop.tasks.child[k]) { WalkGoesOn(loop.Origin(), loop.log, loop.tasks, k); }
      match loop.tasks.child[k].status.end
      case Value(v) => slots := slots + [Val(v)];
      case Raised(e) => slots := slots + [Exn(e)];
      case Fatal(e) =>
        WalkBreaks(loop.Origin(), loop.log, loop.tasks, k);
        return RaisedFatal(e);
      case CancelledOut =>
        WalkBreaks(loop.Origin(), loop.log, loop.tasks, k);
        return RaisedCancelled;
    }
    if slots != [] { WalkDone(loop.Origin(), loop.log, loop.tasks); }
    return Returned(slots);
  }

  lemma OwnStays<T>(a: Tasks<T>, b: Tasks<T>, k: nat)
    requires Evolves(a, b) && k <= |a.child| && forall i :: 0 <= i < k ==> Own(a.child[i])
    ensures k <= |b.child| && forall i :: 0 <= i < k ==> Own(b.child[i])
  {
  }

  lemma RestFresh<T>(loop: Loop<T>)
    requires loop.log == [] && loop.Valid()
    ensures loop.Rung() == 0 && NoAsks(loop.log) && Walking(loop.Origin(), loop.log, loop.tasks, 0) && Collected([], loop.tasks, 0)
  {
  }

  /** The loop behind `asyncio.wait`: a slot for every child as it is now, and a request to cancel to whoever is
      unfinished. */
  method ShowAndAsk<T>(loop: Loop<T>) returns (slots: seq<Slot<T>>)
    requires loop.Valid()
    modifies loop`tasks, loop`log
    ensures loop.Valid() && loop.Went() && loop.Rung() == old(loop.Rung()) && (Cancelled(loop.log) <==> Cancelled(old(loop.log)))
    ensures SlotsOf(slots, old(loop.tasks)) && RestAsked(old(loop.tasks), loop.tasks) && OnlyAsks(loop.log, |old(loop.log)|)
  {
    hide Evolves;
    hide Rings;
    hide Replay;
    hide Events;
    hide Cancelled;
    loop.Unmoved();
    ghost var at := loop.tasks;
    slots := [];
    var i := 0;
    while i < |loop.tasks.child|
      invariant loop.Valid() && loop.Went() && i == |slots| <= |loop.tasks.child| == |at.child|
      invariant loop.Rung() == old(loop.Rung()) && (Cancelled(loop.log) <==> Cancelled(old(loop.log)))
      invariant OnlyAsks(loop.log, |old(loop.log)|)
      invariant forall j :: i <= j < |at.child| ==> loop.tasks.child[j] == at.child[j]
      invariant forall j :: 0 <= j < i ==> Shows(slots[j], at.child[j])
      invariant forall j :: 0 <= j < i && !at.child[j].status.Done? ==> loop.tasks.child[j].cancelAsked
    {
      var c := loop.tasks.child[i];
      if c.status.Done? && !c.status.end.CancelledOut? {
        slots := slots + [match c.status.end case Value(v) => Val(v) case Raised(e) => Exn(e) case Fatal(e) => Exn(e)];
      } else {
        if !c.status.Done? {
          ghost var was := loop.tasks;
          loop.Cancel(i);
          EvolvesTrans(at, was, loop.tasks);
        }
        slots := slots + [TimedOut];
      }
      i := i + 1;
    }
  }

  /** The branch with a deadline: the slots are those of the instant at which `asyncio.wait` ended, and whoever
      was unfinished then is asked to cancel. */
  method AwaitDeadline<T>(loop: Loop<T>) returns (r: Outcome<T>)
    requires loop.Valid() && loop.log == []
    modifies loop`tasks, loop`schedule, loop`log
    ensures loop.Valid() && loop.Went() && loop.Rung() <= 1 && !r.BadLimit? && !r.RaisedFatal?
    ensures r.StillRunning? ==> loop.schedule == [] && loop.Rung() == 0 && NeverEnded(loop.Origin(), loop.log)
    ensures r.RaisedCancelled? ==> Cancelled(loop.log) && loop.log != [] && WaitEnded(loop.Origin(), loop.log, |loop.log| - 1)
    ensures r.RaisedCancelled? ==> loop.tasks == Replay(loop.Origin(), Front(loop.log))
    ensures loop.tasks.child == [] ==> r == Returned([]) && loop.log == []
    ensures r.Returned? && loop.tasks.child != [] ==> AtWaitEnd(loop.Origin(), loop.log, r.slots)
  {
    hide Evolves;
    loop.Unmoved();
    if loop.tasks.child == [] {
      RestFresh(loop);
      return Returned([]);
    }
    var w := loop.WaitAll();
    if w == Suspended { return StillRunning; }
    if w == Interrupted { return RaisedCancelled; }
    ghost var k := |loop.log| - 1;
    ghost var at, front := loop.tasks, loop.log;
    hide Rings;
    hide Replay;
    hide Events;
    hide EndsWait;
    var slots := ShowAndAsk(loop);
    EvolvesTrans(old(loop.tasks), at, loop.tasks);
    WaitEndStays(loop.Origin(), front, loop.log, k);
    assert loop.log[..k] == front[..k];
    AskedNow(loop.Origin(), loop.log, k);
    return Returned(slots);
  }

  /** The slots show the children as they were when `asyncio.wait` ended without being cancelled, and all that
      were unfinished then are asked to cancel before anything else happens. */
  ghost predicate AtWaitEnd<T>(t: Tasks<T>, log: seq<Move<T>>, slots: seq<Slot<T>>) {
    exists k: nat :: WaitEnded(t, log, k) && log[k] != Happened(OuterCancel) && SlotsOf(slots, Replay(t, log[..k])) && AskedAtOnce(t, log, k)
  }

  ghost predicate NeverEnded<T>(t: Tasks<T>, log: seq<Move<T>>) {
    forall j :: 0 <= j < |log| ==> !EndsWait(t, log, j)
  }

  lemma WaitEndStays<T>(t: Tasks<T>, front: seq<Move<T>>, log: seq<Move<T>>, k: nat)
    requires front <= log && WaitEnded(t, front, k)
    ensures WaitEnded(t, log, k) && log[k] == front[k]
  {
    hide Replay;
    assert log[..k] == front[..k];
    forall j | 0 <= j <= k ensures EndsWait(t, log, j) <==> EndsWait(t, front, j) {
      assert log[..j] == front[..j] && log[j] == front[j];
    }
  }

  /** The list comprehension was resumed and its children decided the outcome, before any child was asked to
      cancel unless the caller was. */
  ghost predicate DecidedInOrder<T>(t: Tasks<T>, log: seq<Move<T>>, r: Outcome<T>) {
    exists k: nat :: && OrderEnded(t, log, k) && log[k] == Happened(Resume) && Decides(Replay(t, log[..k]), r)
                     && (NoAsks(log[..k + 1]) || Cancelled(log[..k + 1]))
  }

  /** All that were unfinished when the body of the `try` statement ended are asked to cancel before anything
      else happens. */
  ghost predicate LeavesNone<T>(t: Tasks<T>, log: seq<Move<T>>, timeout: bool) {
    forall k: nat :: BodyEnded(t, log, timeout, k) ==> AskedAtOnce(t, log, k)
  }

  ghost predicate HasEnded<T>(t: Tasks<T>, log: seq<Move<T>>, timeout: bool) {
    exists k: nat :: BodyEnded(t, log, timeout, k)
  }

  /** The status of child `i` when move `k` happened. */
  function StatusAt<T>(n: nat, limit: nat, log: seq<Move<T>>, k: nat, i: nat): Status<T>
    requires k < |log| && i < n
  {
    AtEveryInstant<T>(n, limit, log, k);
    Replay(Fresh(n, limit), log[..k]).child[i].status
  }

  /** How the body of the `try` statement was left. */
  ghost predicate BodyLeft<T>(n: nat, limit: nat, timeout: bool, log: seq<Move<T>>, now: Tasks<T>, r: Outcome<T>) {
    if n == 0 then log == []
    else if timeout && r.Returned? then AtWaitEnd(Fresh(n, limit), log, r.slots)
    else if timeout then log != [] && WaitEnded(Fresh(n, limit), log, |log| - 1) && now == Replay(Fresh(n, limit), Front(log))
    else log != [] && EndedNow(Fresh(n, limit), log, now)
  }

  /** The `finally` clause: whoever is unfinished is asked to cancel, and all are awaited. */
  method Drain<T>(loop: Loop<T>, n: nat, ghost limit: nat, ghost timeout: bool, r0: Outcome<T>) returns (r: Outcome<T>)
    requires loop.Valid() && loop.limit == limit && |loop.tasks.child| == n && loop.Rung() <= 1 && !r0.StillRunning?
    requires BodyLeft(n, limit, timeout, loop.log, loop.tasks, r0)
    modifies loop`tasks, loop`schedule, loop`log
    ensures loop.Valid() && loop.Went() && (Cancelled(old(loop.log)) ==> Cancelled(loop.log))
    ensures r == r0 || r.StillRunning? || (r.RaisedCancelled? && Cancelled(loop.log))
    ensures r.StillRunning? ==> loop.schedule == [] && loop.Rung() <= 1
    ensures !r.StillRunning? ==> AllDone(loop.tasks) && (n == 0 || HasEnded(Fresh(n, limit), loop.log, timeout))
    ensures LeavesNone(Fresh(n, limit), loop.log, timeout)
  {
    hide Evolves;
    hide Rings;
    hide Replay;
    hide Events;
    hide BodyLeft;
    hide LeavesNone;
    hide HasEnded;
    hide RestAsked;
    hide Cancelled;
    hide AllDone;
    hide OnlyAsks;
    hide Fresh;
    ghost var front, at, start, k := loop.log, loop.tasks, loop.Origin(), 0;
    loop.CancelUnfinished();
    ghost var asked, met := loop.log, loop.tasks;
    if n > 0 { k := BodyEndAsked(n, limit, front, asked, at, timeout, r0); }
    var w := loop.GatherAll();
    EvolvesTrans(at, met, loop.tasks);
    if n == 0 { NoChildren(limit, loop.log, timeout); } else { StaysAsked(n, limit, asked, loop.log, timeout, k); }
    if w == Suspended { return StillRunning; }
    if w == Interrupted { return RaisedCancelled; }
    return r0;
  }

  /** `bounded_gather` for `n` awaitables. */
  method BoundedGather<T>(loop: Loop<T>, n: nat, limit: int, timeout: bool) returns (r: Outcome<T>)
    modifies loop
    ensures r.BadLimit? <==> limit < 1
    ensures r.BadLimit? ==> loop.tasks == old(loop.tasks) && loop.schedule == old(loop.schedule)
    // The run is made of the schedule's events, in order, and of requests to cancel.
    ensures limit >= 1 ==> loop.tasks == Replay(Fresh(n, limit), loop.log) && Events(loop.log) + loop.schedule == old(loop.schedule)
    // At every instant of every run, finished or not, at most `limit` children run.
    ensures limit >= 1 ==> forall k :: 0 <= k <= |loop.log| ==> RunningCount(Replay(Fresh(n, limit), loop.log[..k]).child) <= limit
    ensures limit >= 1 ==> |loop.tasks.child| == n && Ok(loop.tasks, limit)
    // On return or raise the body had ended, and no child is left running.
    ensures limit >= 1 && !r.StillRunning? ==> AllDone(loop.tasks) && (n == 0 || HasEnded(Fresh(n, limit), loop.log, timeout))
    // Whoever was unfinished when the body ended is asked to cancel before anything else happens.
    ensures limit >= 1 ==> LeavesNone(Fresh(n, limit), loop.log, timeout)
    // It stays suspended only while the schedule goes on and it was not resumed twice with all children done.
    ensures r.StillRunning? ==> loop.schedule == [] && Rings(Fresh(n, limit), loop.log) <= 1
    // With a deadline: the slots of the instant at which `asyncio.wait` ended.
    ensures timeout && r.Returned? ==> (n == 0 && r.slots == []) || AtWaitEnd(Fresh(n, limit), loop.log, r.slots)
    ensures timeout ==> !r.RaisedFatal? && (r.RaisedCancelled? ==> Cancelled(loop.log))
    // Without one: the first child that did not end with a value or exception of its own, or all slots.
    ensures limit >= 1 && !timeout && !r.StillRunning? ==>
      (n == 0 && r == Returned([])) || DecidedInOrder(Fresh(n, limit), loop.log, r) || (r.RaisedCancelled? && Cancelled(loop.log))
    // What is in the slots: a child's own value or exception, and a timeout for whoever had neither.
    ensures timeout && r.Returned? ==> |r.slots| == n && forall k: nat, i: nat :: WaitEnded(Fresh(n, limit), loop.log, k) && i < n ==>
      match StatusAt(n, limit, loop.log, k, i)
      case Done(Value(v)) => r.slots[i] == Val(v)
      case Done(Raised(e)) => r.slots[i] == Exn(e)
      case Done(Fatal(e)) => r.slots[i] == Exn(e)
      case _ => r.slots[i] == TimedOut
    ensures !timeout && r.Returned? ==> |r.slots| == n == |loop.tasks.child| && forall i :: 0 <= i < n ==>
      match loop.tasks.child[i].status
      case Done(Value(v)) => r.slots[i] == Val(v)
      case Done(Raised(e)) => r.slots[i] == Exn(e)
      case _ => false
    ensures r.RaisedFatal? ==> exists i :: 0 <= i < |loop.tasks.child| && loop.tasks.child[i].status == Done(Fatal(r.e))
  {
    hide Evolves;
    hide Rings;
    hide Replay;
    hide Events;
    hide AtWaitEnd;
    hide LeavesNone;
    hide HasEnded;
    hide WaitEnded;
    hide BodyEnded;
    hide EndedNow;
    hide RestAsked;
    hide InOrder;
    hide NeverEnded;
    hide DecidedInOrder;
    hide Decides;
    hide NoAsks;
    hide Cancelled;
    hide AllDone;
    hide Ok;
    hide RunningCount;
    hide OnlyAsks;
    hide Fresh;
    if limit < 1 { return BadLimit; }
    loop.Create(n, limit);
    if timeout {
      r := AwaitDeadline(loop);
    } else {
      r := AwaitInOrder(loop);
    }
    assert loop.Origin() == Fresh(n, limit);
    if r.StillRunning? {
      Bounded(n, limit, loop.log);
      NotYet(Fresh(n, limit), loop.log, timeout);
      return;
    }
    ghost var front, at := loop.log, loop.tasks;
    if !timeout && n > 0 && Decides(at, r) && Last(front) == Happened(Resume) { Decided(Fresh(n, limit), front, at, r); }
    r := Drain(loop, n, limit, timeout, r);
    Bounded(n, limit, loop.log);
    if timeout && n > 0 && r.Returned? {
      ShownStays(n, limit, front, loop.log, r.slots);
      ShownMeans(n, limit, loop.log, r.slots);
    }
    if DecidedInOrder(Fresh(n, limit), front, r) {
      DecidedStays(Fresh(n, limit), front, loop.log, r);
      DecidedMeans(n, limit, loop.log, r);
    }
  }

  // ---- what the end of the body settles ------------------------------------------------------------

  ghost predicate EndedAndAsked<T>(t: Tasks<T>, log: seq<Move<T>>, timeout: bool, k: nat) {
    BodyEnded(t, log, timeout, k) && AskedAtOnce(t, log, k)
  }

  lemma NotYet<T>(t: Tasks<T>, log: seq<Move<T>>, timeout: bool)
    requires if timeout then NeverEnded(t, log) else InOrder(t, log)
    ensures LeavesNone(t, log, timeout)
  {
    hide Replay;
    hide EndsWait;
    hide EndsOrder;
    hide AskedAtOnce;
    forall k: nat ensures !BodyEnded(t, log, timeout, k) {}
  }

  lemma NoChildren<T>(limit: nat, log: seq<Move<T>>, timeout: bool)
    ensures LeavesNone(Fresh<T>(0, limit), log, timeout)
  {
    hide Replay;
    hide BodyEnded;
    hide Evolves;
    hide Ok;
    var t := Fresh<T>(0, limit);
    forall k | 0 <= k <= |log| ensures |Replay(t, log[..k]).child| == 0 { AtEveryInstant(0, limit, log, k); }
    forall k: nat | BodyEnded(t, log, timeout, k) ensures AskedAtOnce(t, log, k) { WithinLog(t, log, timeout, k); }
  }

  lemma WithinLog<T>(t: Tasks<T>, log: seq<Move<T>>, timeout: bool, k: nat)
    requires BodyEnded(t, log, timeout, k)
    ensures k < |log|
  {
  }

  lemma BodyEndStays<T>(t: Tasks<T>, front: seq<Move<T>>, log: seq<Move<T>>, timeout: bool, k: nat)
    requires front <= log && BodyEnded(t, front, timeout, k)
    ensures k < |front| && front[..k] == log[..k] && BodyEnded(t, log, timeout, k)
  {
    hide EndsWait;
    hide EndsOrder;
    if timeout { WaitEndStays(t, front, log, k); } else { OrderEndStays(t, front, log, k); }
  }

  /** Nothing that happens later changes where the body ended or takes a request to cancel back. */
  lemma CarryOn<T>(n: nat, limit: nat, front: seq<Move<T>>, log: seq<Move<T>>, timeout: bool, k: nat)
    requires front <= log && EndedAndAsked(Fresh(n, limit), front, timeout, k)
    ensures EndedAndAsked(Fresh(n, limit), log, timeout, k)
  {
    hide BodyEnded;
    hide RestAsked;
    hide Replay;
    var t := Fresh<T>(n, limit);
    BodyEndStays(t, front, log, timeout, k);
    assert front[..|front|] == front;
    forall m | k < m <= |log| && (m == |log| || log[m].Happened?) ensures RestAsked(Replay(t, log[..k]), Replay(t, log[..m])) {
      if m < |front| {
        assert front[..m] == log[..m];
      } else {
        AskedLater(n, limit, front, log[..m], Replay(t, log[..k]));
      }
    }
  }

  lemma AskedLater<T>(n: nat, limit: nat, front: seq<Move<T>>, log: seq<Move<T>>, mid: Tasks<T>)
    requires front <= log && RestAsked(mid, Replay(Fresh(n, limit), front))
    ensures RestAsked(mid, Replay(Fresh(n, limit), log))
  {
    hide RestAsked;
    hide Replay;
    hide Evolves;
    hide Ok;
    AtEveryInstant(n, limit, log, |front|);
    assert log[..|front|] == front;
    RestStaysAsked(mid, Replay(Fresh(n, limit), front), Replay(Fresh(n, limit), log));
  }

  lemma StaysAsked<T>(n: nat, limit: nat, asked: seq<Move<T>>, log: seq<Move<T>>, timeout: bool, k: nat)
    requires asked <= log && EndedAndAsked(Fresh(n, limit), asked, timeout, k)
    ensures LeavesNone(Fresh(n, limit), log, timeout) && HasEnded(Fresh(n, limit), log, timeout)
  {
    hide BodyEnded;
    hide AskedAtOnce;
    var t := Fresh<T>(n, limit);
    CarryOn(n, limit, asked, log, timeout, k);
    forall j: nat | BodyEnded(t, log, timeout, j) ensures j == k { OneBodyEnd(t, log, timeout, j, k); }
  }

  lemma OneBodyEnd<T>(t: Tasks<T>, log: seq<Move<T>>, timeout: bool, j: nat, k: nat)
    requires BodyEnded(t, log, timeout, j) && BodyEnded(t, log, timeout, k)
    ensures j == k
  {
    hide EndsWait;
    hide EndsOrder;
  }

  /** After the `finally` clause's requests, all that were unfinished when the body ended have been asked. */
  lemma BodyEndAsked<T>(n: nat, limit: nat, front: seq<Move<T>>, asked: seq<Move<T>>, at: Tasks<T>, timeout: bool, r: Outcome<T>)
    returns (k: nat)
    requires front <= asked && RestAsked(at, Replay(Fresh(n, limit), asked)) && OnlyAsks(asked, |front|)
    requires n > 0 && BodyLeft(n, limit, timeout, front, at, r)
    ensures EndedAndAsked(Fresh(n, limit), asked, timeout, k)
  {
    hide EndsWait;
    hide EndsOrder;
    hide RestAsked;
    hide Replay;
    if timeout && r.Returned? {
      var j: nat :| WaitEnded(Fresh(n, limit), front, j) && front[j] != Happened(OuterCancel)
                    && SlotsOf(r.slots, Replay(Fresh(n, limit), front[..j])) && AskedAtOnce(Fresh(n, limit), front, j);
      k := j;
      CarryOn(n, limit, front, asked, timeout, k);
    } else {
      k := |front| - 1;
      BodyEndStays(Fresh(n, limit), front, asked, timeout, k);
      AskedNow(Fresh(n, limit), asked, k);
    }
  }

  lemma ShownStays<T>(n: nat, limit: nat, front: seq<Move<T>>, log: seq<Move<T>>, slots: seq<Slot<T>>)
    requires front <= log && AtWaitEnd(Fresh(n, limit), front, slots)
    ensures AtWaitEnd(Fresh(n, limit), log, slots)
  {
    hide EndsWait;
    hide AskedAtOnce;
    hide Replay;
    hide SlotsOf;
    var t := Fresh<T>(n, limit);
    var k: nat :| WaitEnded(t, front, k) && front[k] != Happened(OuterCancel)
                  && SlotsOf(slots, Replay(t, front[..k])) && AskedAtOnce(t, front, k);
    CarryOn(n, limit, front, log, true, k);
    WaitEndStays(t, front, log, k);
    assert log[..k] == front[..k];
  }

  lemma Decided<T>(t: Tasks<T>, front: seq<Move<T>>, at: Tasks<T>, r: Outcome<T>)
    requires EndedNow(t, front, at) && Last(front) == Happened(Resume) && Decides(at, r) && (NoAsks(front) || Cancelled(front))
    ensures DecidedInOrder(t, front, r)
  {
    hide Decides;
    hide OrderEnded;
    assert front[..|front| - 1 + 1] == front;
  }

  lemma DecidedStays<T>(t: Tasks<T>, front: seq<Move<T>>, log: seq<Move<T>>, r: Outcome<T>)
    requires front <= log && DecidedInOrder(t, front, r)
    ensures DecidedInOrder(t, log, r)
  {
    hide Decides;
    hide EndsOrder;
    hide Replay;
    hide NoAsks;
    hide Cancelled;
    var k: nat :| OrderEnded(t, front, k) && front[k] == Happened(Resume) && Decides(Replay(t, front[..k]), r)
                  && (NoAsks(front[..k + 1]) || Cancelled(front[..k + 1]));
    OrderEndStays(t, front, log, k);
    assert log[..k] == front[..k] && log[k] == front[k] && log[..k + 1] == front[..k + 1];
  }

  /** With a deadline: what the slots show of the children at the instant the wait ended. */
  lemma ShownMeans<T>(n: nat, limit: nat, log: seq<Move<T>>, slots: seq<Slot<T>>)
    requires AtWaitEnd(Fresh(n, limit), log, slots)
    ensures |slots| == n && forall k: nat, i: nat :: WaitEnded(Fresh<T>(n, limit), log, k) && i < n ==>
              match StatusAt(n, limit, log, k, i)
              case Done(Value(v)) => slots[i] == Val(v)
              case Done(Raised(e)) => slots[i] == Exn(e)
              case Done(Fatal(e)) => slots[i] == Exn(e)
              case _ => slots[i] == TimedOut
  {
    hide EndsWait;
    hide AskedAtOnce;
    hide Replay;
    hide Evolves;
    hide Ok;
    var t := Fresh<T>(n, limit);
    var j: nat :| WaitEnded(t, log, j) && log[j] != Happened(OuterCancel) && SlotsOf(slots, Replay(t, log[..j])) && AskedAtOnce(t, log, j);
    AtEveryInstant(n, limit, log, j);
    forall k: nat | WaitEnded(t, log, k) ensures k == j { OneBodyEnd(t, log, true, j, k); }
  }

  /** Without one: what the outcome says of the children as they ended. */
  lemma DecidedMeans<T>(n: nat, limit: nat, log: seq<Move<T>>, r: Outcome<T>)
    requires DecidedInOrder(Fresh(n, limit), log, r)
    ensures var end := Replay(Fresh<T>(n, limit), log).child;
            && |end| == n
            && (r.Returned? ==> |r.slots| == n && forall i :: 0 <= i < n ==>
                  match end[i].status
                  case Done(Value(v)) => r.slots[i] == Val(v)
                  case Done(Raised(e)) => r.slots[i] == Exn(e)
                  case _ => false)
            && (r.RaisedFatal? ==> exists i :: 0 <= i < n && end[i].status == Done(Fatal(r.e)))
  {
    hide EndsOrder;
    hide NoAsks;
    hide Cancelled;
    hide Replay;
    hide Ok;
    var t := Fresh<T>(n, limit);
    var k: nat :| && OrderEnded(t, log, k) && log[k] == Happened(Resume) && Decides(Replay(t, log[..k]), r)
                  && (NoAsks(log[..k + 1]) || Cancelled(log[..k + 1]));
    AtEveryInstant(n, limit, log, k);
    AtEveryInstant(n, limit, log, |log|);
    assert log[..|log|] == log;
    var (mid, end) := (Replay(t, log[..k]), Replay(t, log));
    forall i | 0 <= i < n && mid.child[i].status.Done? ensures end.child[i] == mid.child[i] { assert ChildEvolves(mid.child[i], end.child[i]); }
  }

  lemma Bounded<T>(n: nat, limit: nat, log: seq<Move<T>>)
    ensures forall k :: 0 <= k <= |log| ==> RunningCount(Replay(Fresh<T>(n, limit), log[..k]).child) <= limit
    ensures Ok(Replay(Fresh<T>(n, limit), log), limit)
  {
    hide Ok;
    forall k | 0 <= k <= |log| ensures RunningCount(Replay(Fresh<T>(n, limit), log[..k]).child) <= limit {
      AtEveryInstant(n, limit, log, k);
    }
    AtEveryInstant(n, limit, log, |log|);
  }
}
