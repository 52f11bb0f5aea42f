/** `first_success`: race coroutines, at most `width` at a time, until one result is acceptable.

    The caller is imperative code; the event loop finishes active children in any order and in any
    batches, and may cancel the caller at any await. A schedule fixes those choices; every contract is
    for every schedule. A schedule that ends while the caller is suspended gives `StillRunning`. */
module FirstSuccess {
  import opened Asyncio
  import opened Wrappers

  /** `asked`: a cancellation was requested before the child ended. */
  datatype Status<+T> = Waiting | Active(asked: bool) | Ended(end: Ending<T>, asked: bool) | Closed

  datatype Event<+T> = Finish(i: nat, end: Ending<T>) | Wake | OuterCancel

  datatype Verdict = Yes | No | Boom(e: string)

  datatype Outcome<+T> =
    | BadLimit
    | Winner(i: nat, v: T)
    | NoAcceptable
    | RaisedCancelled
    | AcceptFailed(i: nat, e: string)
    | StillRunning

  datatype Woke = Batch | Interrupted | Suspended

  /** An ended child whose ending does not stop the race: it gave no value, or one that `accept` turned down. */
  predicate Unacceptable<T>(accept: Option<T -> Verdict>, s: Status<T>) {
    s.Ended? && (s.end.Value? ==> accept.Some? && accept.value(s.end.v) == No)
  }

  // ---- what happened in a run -----------------------------------------------------------------

  /** The caller starts, asks and closes children; the event loop does the rest. */
  datatype Move<+T> = Begun(i: nat) | Asked(i: nat) | Shut(i: nat) | Happened(e: Event<T>)

  function Apply<T>(cs: seq<Status<T>>, m: Move<T>): (r: seq<Status<T>>)
    ensures |r| == |cs|
  {
    match m
    case Begun(i) => if i < |cs| && cs[i].Waiting? then cs[i := Active(false)] else cs
    case Asked(i) => if i < |cs| && cs[i].Active? then cs[i := Active(true)] else cs
    case Shut(i) => if i < |cs| && cs[i].Waiting? then cs[i := Closed] else cs
    case Happened(e) =>
      if e.Finish? && e.i < |cs| && cs[e.i].Active? then cs[e.i := Ended(e.end, cs[e.i].asked)] else cs
  }

  /** The `n` children after the moves of `log`. */
  function Replay<T>(n: nat, log: seq<Move<T>>): (r: seq<Status<T>>)
    ensures |r| == n
  {
    if log == [] then seq(n, _ => Waiting) else Apply(Replay(n, log[..|log| - 1]), log[|log| - 1])
  }

  function Events<T>(log: seq<Move<T>>): seq<Event<T>> {
    if log == [] then []
    else Events(log[..|log| - 1]) + if log[|log| - 1].Happened? then [log[|log| - 1].e] else []
  }

  function ActiveCount<T>(cs: seq<Status<T>>): nat {
    if cs == [] then 0 else (if cs[0].Active? then 1 else 0) + ActiveCount(cs[1..])
  }

  /** At every instant of the run at most `width` children were active. */
  ghost predicate AtMost<T>(n: nat, log: seq<Move<T>>, width: nat) {
    forall k :: 0 <= k <= |log| ==> ActiveCount(Replay(n, log[..k])) <= width
  }

  /** Child `i` is the first in input order that has not been started. */
  ghost predicate NextInLine<T>(cs: seq<Status<T>>, i: nat) {
    i < |cs| && forall j :: 0 <= j < |cs| ==> (cs[j].Waiting? <==> i <= j)
  }

  /** Children are started in input order. */
  ghost predicate StartsInOrder<T>(n: nat, log: seq<Move<T>>) {
    forall k :: 0 <= k < |log| && log[k].Begun? ==> NextInLine(Replay(n, log[..k]), log[k].i)
  }

  /** All `width` places are taken, or no child is left to start. */
  ghost predicate Full<T>(cs: seq<Status<T>>, width: nat) {
    ActiveCount(cs) == width || forall i :: 0 <= i < |cs| ==> !cs[i].Waiting?
  }

  /** The caller ran right before event `k` and has now suspended itself: it runs until something other than
      the end of a child happens. */
  predicate Suspends<T>(log: seq<Move<T>>, k: nat)
    requires k < |log|
  {
    log[k].Happened? && (k == 0 || !log[k - 1].Happened? || !log[k - 1].e.Finish?)
  }

  /** Whenever the caller suspends itself, no place is left free that a child could take. */
  ghost predicate NeverIdle<T>(n: nat, log: seq<Move<T>>, width: nat) {
    forall k :: 0 <= k < |log| && Suspends(log, k) ==> Full(Replay(n, log[..k]), width)
  }

  ghost predicate Paced<T>(n: nat, log: seq<Move<T>>, width: nat) {
    AtMost(n, log, width) && StartsInOrder(n, log) && NeverIdle(n, log, width)
  }

  /** Move `m` keeps the pace. */
  ghost predicate InPace<T>(cs: seq<Status<T>>, log: seq<Move<T>>, m: Move<T>, width: nat) {
    && ActiveCount(Apply(cs, m)) <= width && (m.Begun? ==> NextInLine(cs, m.i))
    && (m.Happened? ==> JustEnded(log) || Full(cs, width))
  }

  predicate JustEnded<T>(log: seq<Move<T>>) {
    log != [] && log[|log| - 1].Happened? && log[|log| - 1].e.Finish?
  }

  lemma AtMostPushed<T>(n: nat, log: seq<Move<T>>, m: Move<T>, width: nat)
    requires AtMost(n, log, width) && ActiveCount(Replay(n, log + [m])) <= width
    ensures AtMost(n, log + [m], width)
  {
    hide ActiveCount;
    hide Replay;
    var all := log + [m];
    forall k | 0 <= k <= |all| ensures ActiveCount(Replay(n, all[..k])) <= width {
      if k <= |log| { assert all[..k] == log[..k]; } else { assert all[..k] == all; }
    }
  }

  lemma StartsPushed<T>(n: nat, log: seq<Move<T>>, m: Move<T>)
    requires StartsInOrder(n, log) && (m.Begun? ==> NextInLine(Replay(n, log), m.i))
    ensures StartsInOrder(n, log + [m])
  {
    hide NextInLine;
    hide Replay;
    var all := log + [m];
    forall k | 0 <= k < |all| && all[k].Begun? ensures NextInLine(Replay(n, all[..k]), all[k].i) {
      assert all[..k] == log[..k];
      if k == |log| { assert log[..k] == log; }
    }
  }

  lemma IdlePushed<T>(n: nat, log: seq<Move<T>>, m: Move<T>, width: nat)
    requires NeverIdle(n, log, width) && (m.Happened? ==> JustEnded(log) || Full(Replay(n, log), width))
    ensures NeverIdle(n, log + [m], width)
  {
    hide Full;
    hide Replay;
    var all := log + [m];
    forall k | 0 <= k < |all| && Suspends(all, k) ensures Full(Replay(n, all[..k]), width) {
      assert all[..k] == log[..k];
      if k == |log| {
        assert log[..k] == log;
      } else {
        assert Suspends(log, k);
      }
    }
  }

  lemma PacedPushed<T>(n: nat, log: seq<Move<T>>, m: Move<T>, width: nat)
    requires Paced(n, log, width) && InPace(Replay(n, log), log, m, width)
    ensures Paced(n, log + [m], width)
  {
    hide AtMost;
    hide StartsInOrder;
    hide NeverIdle;
    Pushed(n, log, m);
    AtMostPushed(n, log, m, width);
    StartsPushed(n, log, m);
    IdlePushed(n, log, m, width);
  }

  /** No child runs and no coroutine is left open. */
  ghost predicate Clean<T>(cs: seq<Status<T>>) {
    forall i :: 0 <= i < |cs| ==> cs[i].Ended? || cs[i].Closed?
  }

  /** How often the caller was woken when no child ran or was left open. */
  ghost function Rings<T>(n: nat, log: seq<Move<T>>): nat {
    if log == [] then 0
    else
      var (front, last) := (log[..|log| - 1], log[|log| - 1]);
      Rings(n, front) + if last.Happened? && last.e.Wake? && Clean(Replay(n, front)) then 1 else 0
  }

  predicate Cancelled<T>(log: seq<Move<T>>) {
    exists k :: 0 <= k < |log| && log[k].Happened? && log[k].e.OuterCancel?
  }

  /** Some child has ended in a way that stops the race: acceptably, or so that `accept` fails on it. */
  predicate Ready<T>(accept: Option<T -> Verdict>, cs: seq<Status<T>>) {
    exists i :: 0 <= i < |cs| && cs[i].Ended? && !Unacceptable(accept, cs[i])
  }

  /** Move `k` stops the race: the caller is cancelled, or woken when such a child is there. */
  predicate Stops<T>(n: nat, accept: Option<T -> Verdict>, log: seq<Move<T>>, k: nat)
    requires k < |log|
  {
    log[k].Happened? && (log[k].e.OuterCancel? || (log[k].e.Wake? && Ready(accept, Replay(n, log[..k]))))
  }

  ghost predicate NoStop<T>(n: nat, accept: Option<T -> Verdict>, log: seq<Move<T>>) {
    forall k :: 0 <= k < |log| ==> !Stops(n, accept, log, k)
  }

  /** The one instant at which the race was decided: at every earlier wake-up, whatever had ended by then
      was not acceptable. */
  ghost predicate FirstStop<T>(n: nat, accept: Option<T -> Verdict>, log: seq<Move<T>>, k: nat) {
    k < |log| && Stops(n, accept, log, k) && forall j :: 0 <= j < k ==> !Stops(n, accept, log, j)
  }

  lemma Pushed<T>(n: nat, log: seq<Move<T>>, m: Move<T>)
    ensures Replay(n, log + [m]) == Apply(Replay(n, log), m)
    ensures Events(log + [m]) == Events(log) + if m.Happened? then [m.e] else []
    ensures Rings(n, log + [m]) == Rings(n, log) + if m.Happened? && m.e.Wake? && Clean(Replay(n, log)) then 1 else 0
    ensures Cancelled(log + [m]) <==> Cancelled(log) || (m.Happened? && m.e.OuterCancel?)
  {
    var all := log + [m];
    assert all[..|log|] == log && all[|log|] == m;
    forall k | 0 <= k < |log| ensures all[k] == log[k] {}
  }

  /** One more move of a race that nothing had stopped. */
  lemma StopPushed<T>(n: nat, accept: Option<T -> Verdict>, log: seq<Move<T>>, m: Move<T>)
    requires NoStop(n, accept, log)
    ensures if m.Happened? && (m.e.OuterCancel? || (m.e.Wake? && Ready(accept, Replay(n, log))))
            then FirstStop(n, accept, log + [m], |log|) else NoStop(n, accept, log + [m])
    ensures (log + [m])[..|log|] == log
  {
    hide Ready;
    var all := log + [m];
    assert all[..|log|] == log && all[|log|] == m;
    forall k | 0 <= k < |log| ensures !Stops(n, accept, all, k) {
      assert all[..k] == log[..k] && all[k] == log[k];
      assert !Stops(n, accept, log, k);
    }
  }

  lemma FirstStopStays<T>(n: nat, accept: Option<T -> Verdict>, front: seq<Move<T>>, log: seq<Move<T>>, k: nat)
    requires front <= log && FirstStop(n, accept, front, k)
    ensures FirstStop(n, accept, log, k) && log[..k] == front[..k] && log[k] == front[k]
  {
    hide Ready;
    forall j | 0 <= j <= k ensures log[..j] == front[..j] && log[j] == front[j] {}
    forall j | 0 <= j < k ensures !Stops(n, accept, log, j) { assert !Stops(n, accept, front, j); }
    assert Stops(n, accept, front, k);
  }

  /** A child never goes back, and a child that ended keeps its ending. */
  ghost predicate Forward<T>(a: Status<T>, b: Status<T>) {
    match a
    case Waiting => true
    case Active(asked) => (b.Active? || b.Ended?) && (asked ==> b.asked)
    case _ => b == a
  }

  /** During the race no coroutine is closed. */
  ghost predicate NeverClosed<T>(cs: seq<Status<T>>) {
    forall i :: 0 <= i < |cs| ==> !cs[i].Closed?
  }

  lemma {:induction false} ActiveCountUpdate<T>(cs: seq<Status<T>>, i: nat, s: Status<T>)
    requires i < |cs|
    ensures ActiveCount(cs[i := s]) + (if cs[i].Active? then 1 else 0) == ActiveCount(cs) + (if s.Active? then 1 else 0)
  {
    if i == 0 {
      assert cs[i := s][1..] == cs[1..];
    } else {
      assert cs[i := s][1..] == cs[1..][i - 1 := s];
      ActiveCountUpdate(cs[1..], i - 1, s);
    }
  }

  /** Every active child is in `active`, so at most `|active|` children run. */
  lemma {:induction false} ActiveCountBound<T>(cs: seq<Status<T>>, active: set<nat>, from: nat)
    requires from <= |cs| && forall i :: from <= i < |cs| && cs[i].Active? ==> i in active
    ensures ActiveCount(cs[from..]) <= |active|
    decreases |cs| - from
  {
    if from < |cs| {
      assert cs[from..][1..] == cs[from + 1..];
      if cs[from].Active? {
        ActiveCountBound(cs, active - {from}, from + 1);
      } else {
        ActiveCountBound(cs, active, from + 1);
      }
    }
  }

  /** If `active` holds just the active children, `|active|` children run. */
  lemma {:induction false} ActiveCountIs<T>(cs: seq<Status<T>>, active: set<nat>, from: nat)
    requires from <= |cs| && forall i :: i in active <==> from <= i < |cs| && cs[i].Active?
    ensures ActiveCount(cs[from..]) == |active|
    decreases |cs| - from
  {
    if from < |cs| {
      assert cs[from..][1..] == cs[from + 1..];
      ActiveCountIs(cs, active - {from}, from + 1);
    } else {
      assert active == {};
    }
  }

  /** Children that have not been started are those at the end of the input. */
  ghost predicate Lines<T>(cs: seq<Status<T>>, waiting: seq<nat>) {
    && |waiting| <= |cs| && (forall i :: 0 <= i < |waiting| ==> waiting[i] == |cs| - |waiting| + i)
    && (forall i :: 0 <= i < |cs| ==> (cs[i].Waiting? <==> i >= |cs| - |waiting|))
  }

  lemma LinesStay<T>(cs: seq<Status<T>>, waiting: seq<nat>, i: nat, s: Status<T>)
    requires Lines(cs, waiting) && i < |cs| && !cs[i].Waiting? && !s.Waiting?
    ensures Lines(cs[i := s], waiting)
  {
  }

  /** With every place taken, or no child left, the caller may suspend itself. */
  lemma FullNow<T>(cs: seq<Status<T>>, waiting: seq<nat>, active: set<nat>, width: nat)
    requires Lines(cs, waiting) && (waiting == [] || |active| == width)
    requires forall i :: i in active <==> 0 <= i < |cs| && cs[i].Active?
    ensures Full(cs, width)
  {
    ActiveCountIs(cs, active, 0);
    assert cs[0..] == cs;
  }

  /** The coroutines and tasks of one race, and the rest of the schedule. `log` is what happened, `whole` the
      schedule of the race. */
  class Pool<T(==)> {
    var child: seq<Status<T>>
    var schedule: seq<Event<T>>
    ghost var log: seq<Move<T>>
    ghost var whole: seq<Event<T>>

    constructor (n: nat, schedule: seq<Event<T>>)
      ensures |child| == n && this.schedule == schedule && Fresh()
    {
      child := seq(n, _ => Waiting);
      this.schedule := schedule;
      log, whole := [], schedule;
    }

    ghost predicate Fresh()
      reads this
    {
      log == [] && whole == schedule && child == Replay(|child|, [])
    }

    /** The children are what the log makes of unstarted ones, and its events are the schedule's, in order. */
    ghost predicate Recorded()
      reads this
    {
      child == Replay(|child|, log) && Events(log) + schedule == whole
    }

    ghost function Rung(): nat
      reads this
    {
      Rings(|child|, log)
    }

    /** `active` covers the running children and `waiting` lists the unstarted ones. */
    ghost predicate Valid(waiting: seq<nat>, active: set<nat>, width: nat)
      reads this
    {
      && Recorded() && Paced(|child|, log, width) && |active| <= width
      && (forall i :: 0 <= i < |child| && child[i].Active? ==> i in active)
      && (forall i :: i in active ==> i < |child| && (child[i].Active? || child[i].Ended?))
      && Lines(child, waiting)
    }

    twostate predicate Went()
      reads this
    {
      && |child| == |old(child)| && whole == old(whole) && old(log) <= log && (Cancelled(old(log)) ==> Cancelled(log))
      && forall i :: 0 <= i < |child| ==> Forward(old(child)[i], child[i])
    }

    /** What a move does to the record. */
    lemma Moved(m: Move<T>, active: set<nat>, width: nat)
      requires Recorded() && Paced(|child|, log, width) && |active| <= width
      requires forall i :: 0 <= i < |child| && Apply(child, m)[i].Active? ==> i in active
      requires m.Begun? ==> NextInLine(child, m.i)
      requires m.Happened? ==> JustEnded(log) || Full(child, width)
      ensures Replay(|child|, log + [m]) == Apply(child, m) && Paced(|child|, log + [m], width)
      ensures Events(log + [m]) == Events(log) + if m.Happened? then [m.e] else []
      ensures Rings(|child|, log + [m]) == Rung() + if m.Happened? && m.e.Wake? && Clean(child) then 1 else 0
      ensures Cancelled(log + [m]) <==> Cancelled(log) || (m.Happened? && m.e.OuterCancel?)
    {
      hide Clean;
      hide Paced;
      hide Replay;
      hide Events;
      hide Rings;
      hide Cancelled;
      ActiveCountBound(Apply(child, m), active, 0);
      assert Apply(child, m)[0..] == Apply(child, m);
      Pushed(|child|, log, m);
      PacedPushed(|child|, log, m, width);
    }

    /** `active.add(asyncio.create_task(waiting.pop(0)))`. */
    method Start(waiting: seq<nat>, active: set<nat>, width: nat) returns (rest: seq<nat>, active': set<nat>)
      requires Valid(waiting, active, width) && waiting != [] && |active| < width
      modifies this`child, this`log
      ensures rest == waiting[1..] && active' == active + {waiting[0]} && waiting[0] !in active
      ensures Valid(rest, active', width) && Went() && child == old(child)[waiting[0] := Active(false)]
      ensures log == old(log) + [Begun(waiting[0])] && Rung() == old(Rung())
    {
      hide Paced;
      hide Rings;
      hide Replay;
      hide Events;
      var i := waiting[0];
      assert child[i].Waiting?;
      rest, active' := waiting[1..], active + {i};
      Moved(Begun(i), active', width);
      child := child[i := Active(false)];
      log := log + [Begun(i)];
    }

    /** The next event of the schedule happens. */
    method Next(ghost waiting: seq<nat>, ghost active: set<nat>, ghost width: nat) returns (e: Event<T>)
      requires Valid(waiting, active, width) && schedule != [] && (JustEnded(log) || Full(child, width))
      modifies this`child, this`schedule, this`log
      ensures Valid(waiting, active, width) && Went() && e == old(schedule)[0] && schedule == old(schedule)[1..]
      ensures log == old(log) + [Happened(e)] && child == Apply(old(child), Happened(e))
      ensures Rung() == old(Rung()) + if e.Wake? && Clean(old(child)) then 1 else 0
      ensures e.OuterCancel? ==> Cancelled(log)
    {
      hide Paced;
      hide Rings;
      hide Replay;
      hide Events;
      hide Clean;
      hide Cancelled;
      e := schedule[0];
      Moved(Happened(e), active, width);
      assert Events(log) + [e] + schedule[1..] == Events(log) + schedule;
      if e.Finish? && e.i < |child| && child[e.i].Active? {
        child := child[e.i := Ended(e.end, child[e.i].asked)];
      }
      log := log + [Happened(e)];
      schedule := schedule[1..];
    }

    /** `asyncio.wait(active, return_when=FIRST_COMPLETED)`: a nonempty batch of finished tasks. What had
        ended before is not acceptable, so nothing stops the race before the move that ends the wait. */
    method Wait(active: set<nat>, ghost waiting: seq<nat>, ghost width: nat, ghost accept: Option<T -> Verdict>)
      returns (w: Woke, done: set<nat>, pending: set<nat>)
      requires Valid(waiting, active, width) && active != {} && forall i :: i in active ==> child[i].Active?
      requires waiting == [] || |active| == width
      requires NoStop(|child|, accept, log) && Rung() == 0
      requires forall i :: 0 <= i < |child| && child[i].Ended? ==> Unacceptable(accept, child[i])
      modifies this`schedule, this`child, this`log
      ensures Valid(waiting, active, width) && Went()
      ensures w == Suspended ==> schedule == [] && Rung() == 0
      ensures w != Suspended ==> log != [] && NoStop(|child|, accept, log[..|log| - 1]) && child == Replay(|child|, log[..|log| - 1])
      ensures w == Interrupted ==> log[|log| - 1] == Happened(OuterCancel) && Cancelled(log) && Rung() == 0
      ensures w == Batch ==> log[|log| - 1] == Happened(Wake) && Rung() == if Clean(child) then 1 else 0
      ensures w == Batch ==> done != {} && done + pending == active && done !! pending
      ensures w == Batch ==> forall i :: i in active ==> (i in done <==> child[i].Ended?)
      ensures forall i :: 0 <= i < |child| && i !in active && child[i].Ended? ==> Unacceptable(accept, child[i])
      ensures NeverClosed(old(child)) ==> NeverClosed(child)
    {
      hide Paced;
      hide Rings;
      hide Replay;
      hide Events;
      hide NoStop;
      hide Cancelled;
      hide Unacceptable;
      hide Apply;
      hide Ready;
      hide Clean;
      hide Full;
      hide JustEnded;
      hide Lines;
      done, pending := {}, active;
      StillFull(child, log, waiting, active, width);
      while schedule != []
        invariant Valid(waiting, active, width) && Went() && NoStop(|child|, accept, log) && Rung() == 0
        invariant JustEnded(log) || Full(child, width)
        invariant forall i :: 0 <= i < |child| && i !in active && child[i].Ended? ==> Unacceptable(accept, child[i])
        invariant NeverClosed(old(child)) ==> NeverClosed(child)
        decreases |schedule|
      {
        ghost var front, was := log, child;
        var e := Next(waiting, active, width);
        StopPushed(|child|, accept, front, Happened(e));
        HappenedTouches(was, e);
        if e.Wake? {
          done := set i | i in active && child[i].Ended?;
          if done != {} { return Batch, done, active - done; }
          NobodyDone(child, active, done, accept);
          StillFull(child, log, waiting, active, width);
        }
        if e.OuterCancel? { return Interrupted, {}, active; }
        if e.Finish? { EndedJustNow(front, e); }
      }
      return Suspended, {}, active;
    }

    /** `other.cancel()` for every task of `tasks` that has not finished. */
    method CancelAll(tasks: set<nat>, ghost waiting: seq<nat>, ghost active: set<nat>, ghost width: nat)
      requires Valid(waiting, active, width) && tasks <= active
      modifies this`child, this`log
      ensures Valid(waiting, active, width) && Went() && Rung() == old(Rung())
      ensures forall i :: i in tasks && old(child)[i].Active? ==> child[i] == Active(true)
      ensures forall i :: 0 <= i < |child| && !old(child)[i].Active? ==> child[i] == old(child)[i]
      ensures tasks == {} ==> log == old(log)
    {
      hide Paced;
      hide Rings;
      hide Replay;
      hide Events;
      hide Cancelled;
      hide Lines;
      var todo := tasks;
      while todo != {}
        invariant todo <= tasks && Valid(waiting, active, width) && Went() && Rung() == old(Rung())
        invariant forall i :: i in tasks && old(child)[i].Active? ==> child[i].Active? && (i in todo || child[i].asked)
        invariant forall i :: 0 <= i < |child| && !old(child)[i].Active? ==> child[i] == old(child)[i]
        invariant tasks == {} ==> log == old(log)
        decreases |todo|
      {
        var i :| i in todo;
        todo := todo - {i};
        if child[i].Active? {
          Moved(Asked(i), active, width);
          LinesStay(child, waiting, i, Active(true));
          child := child[i := Active(true)];
          log := log + [Asked(i)];
        }
      }
    }

    /** `coro.close()` for every coroutine that was never started. */
    method CloseAll(waiting: seq<nat>, ghost active: set<nat>, ghost width: nat)
      requires Valid(waiting, active, width)
      modifies this`child, this`log
      ensures Valid([], active, width) && Went() && Rung() == old(Rung())
      ensures forall i :: 0 <= i < |child| ==> child[i] == if old(child)[i].Waiting? then Closed else old(child)[i]
      ensures waiting == [] ==> log == old(log)
    {
      hide Paced;
      hide Rings;
      hide Replay;
      hide Events;
      hide Cancelled;
      var k := 0;
      assert waiting[0..] == waiting;
      while k < |waiting|
        invariant k <= |waiting| && Valid(waiting[k..], active, width) && Went() && Rung() == old(Rung())
        invariant forall i :: 0 <= i < |child| ==>
          child[i] == if old(child)[i].Waiting? && i < |child| - |waiting| + k then Closed else old(child)[i]
        invariant k == 0 ==> log == old(log)
      {
        assert waiting[k..] == [waiting[k]] + waiting[k + 1..];
        assert child[waiting[k]].Waiting?;
        Moved(Shut(waiting[k]), active, width);
        child := child[waiting[k] := Closed];
        log := log + [Shut(waiting[k])];
        k := k + 1;
      }
      assert waiting[k..] == [];
    }

    /** `asyncio.gather(*active, return_exceptions=True)`. */
    method Drain(active: set<nat>, ghost width: nat) returns (w: Woke)
      requires Valid([], active, width)
      modifies this`schedule, this`child, this`log
      ensures Valid([], active, width) && Went()
      ensures w in {Batch, Interrupted} ==> forall i :: i in active ==> child[i].Ended?
      ensures w == Interrupted ==> Cancelled(log)
      ensures w == Suspended ==> schedule == [] && Rung() == old(Rung())
      ensures Rung() <= old(Rung()) + if active == {} then 0 else 1
      ensures active == {} ==> w == Batch && log == old(log) && schedule == old(schedule)
      ensures forall i :: 0 <= i < |child| && old(child)[i].Active? && old(child)[i].asked ==> child[i].asked
    {
      hide Paced;
      hide Rings;
      hide Replay;
      hide Events;
      hide Cancelled;
      if active == {} { return Batch; }
      var hit := false;
      while schedule != []
        invariant Valid([], active, width) && Went() && Rung() == old(Rung())
        invariant hit ==> Cancelled(log)
        decreases |schedule|
      {
        var e := Next([], active, width);
        if e.Wake? && forall i :: i in active ==> child[i].Ended? {
          return if hit then Interrupted else Batch;
        }
        if e.OuterCancel? {
          hit := true;
          CancelAll(active, [], active, width);
        }
      }
      return Suspended;
    }
  }

  /** Nothing to act on: no active child has ended, and what ended before is unacceptable. */
  lemma NotReady<T>(cs: seq<Status<T>>, active: set<nat>, accept: Option<T -> Verdict>)
    requires forall i :: i in active ==> i < |cs| && !cs[i].Ended?
    requires forall i :: 0 <= i < |cs| && i !in active && cs[i].Ended? ==> Unacceptable(accept, cs[i])
    ensures !Ready(accept, cs)
    ensures active != {} && (forall i :: i in active ==> cs[i].Active?) ==> !Clean(cs)
  {
    if active != {} {
      var i :| i in active;
      assert !cs[i].Ended?;
    }
  }

  /** A wake-up that finds no batch. */
  lemma NobodyDone<T>(cs: seq<Status<T>>, active: set<nat>, done: set<nat>, accept: Option<T -> Verdict>)
    requires forall i :: i in active ==> i < |cs| && (cs[i].Active? || cs[i].Ended?)
    requires done == (set i | i in active && cs[i].Ended?) && done == {} && active != {}
    requires forall i :: 0 <= i < |cs| && i !in active && cs[i].Ended? ==> Unacceptable(accept, cs[i])
    ensures !Ready(accept, cs) && !Clean(cs) && forall i :: i in active ==> cs[i].Active?
  {
    forall i | i in active ensures !cs[i].Ended? { assert i !in done; }
    NotReady(cs, active, accept);
  }

  lemma StillFull<T>(cs: seq<Status<T>>, log: seq<Move<T>>, waiting: seq<nat>, active: set<nat>, width: nat)
    requires Lines(cs, waiting) && (waiting == [] || |active| == width)
    requires forall i :: i in active ==> i < |cs| && cs[i].Active?
    requires forall i :: 0 <= i < |cs| && cs[i].Active? ==> i in active
    ensures JustEnded(log) || Full(cs, width)
  {
    FullNow(cs, waiting, active, width);
  }

  lemma EndedJustNow<T>(log: seq<Move<T>>, e: Event<T>)
    requires e.Finish?
    ensures JustEnded(log + [Happened(e)])
  {
  }

  /** An event touches only active children. */
  lemma HappenedTouches<T>(cs: seq<Status<T>>, e: Event<T>)
    ensures forall i :: 0 <= i < |cs| && !cs[i].Active? ==> Apply(cs, Happened(e))[i] == cs[i]
    ensures forall i :: 0 <= i < |cs| && cs[i].Active? ==> Apply(cs, Happened(e))[i].Active? || Apply(cs, Happened(e))[i].Ended?
    ensures !e.Finish? ==> Apply(cs, Happened(e)) == cs
  {
  }

  /** From the instant `a` at which the race was decided to `b`: what had ended is untouched, what ran
      was asked to cancel and ended, what had not started was closed. */
  ghost predicate Settled<T>(a: seq<Status<T>>, b: seq<Status<T>>) {
    |a| == |b| && forall i :: 0 <= i < |a| ==>
      match a[i]
      case Waiting => b[i].Closed?
      case Active(_) => b[i].Ended? && b[i].asked
      case _ => b[i] == a[i]
  }

  lemma SettledTwice<T>(a: seq<Status<T>>, b: seq<Status<T>>, c: seq<Status<T>>)
    requires Settled(b, c)
    ensures Settled(a, b) ==> Settled(a, c)
    ensures Clean(c) && (Clean(b) ==> b == c)
  {
    if Clean(b) {
      forall i | 0 <= i < |b| ensures b[i] == c[i] {}
    }
  }

  /** Why the race was decided as it was, given the children at that instant and the move that decided it. */
  ghost predicate Reason<T>(accept: Option<T -> Verdict>, at: seq<Status<T>>, m: Move<T>, r: Outcome<T>) {
    match r
    case Winner(i, v) => m == Happened(Wake) && i < |at| && at[i].Ended? && at[i].end == Value(v) && (accept.Some? ==> accept.value(v) == Yes)
    case AcceptFailed(i, e) =>
      m == Happened(Wake) && i < |at| && at[i].Ended? && at[i].end.Value? && accept.Some? && accept.value(at[i].end.v) == Boom(e)
    case RaisedCancelled => true
    case _ => false
  }

  /** One batch: look at its tasks in any order, stop at the first acceptable result or at a failing `accept`. */
  method Examine<T>(pool: Pool<T>, done: set<nat>, accept: Option<T -> Verdict>) returns (r: Option<Outcome<T>>)
    requires forall i :: i in done ==> i < |pool.child| && pool.child[i].Ended?
    ensures r.None? ==> forall i :: i in done ==> Unacceptable(accept, pool.child[i])
    ensures r.Some? ==> (r.value.Winner? || r.value.AcceptFailed?) && Reason(accept, pool.child, Happened(Wake), r.value)
    ensures r.Some? ==> Ready(accept, pool.child)
  {
    var todo := done;
    while todo != {}
      invariant todo <= done && forall i :: i in done - todo ==> Unacceptable(accept, pool.child[i])
      decreases |todo|
    {
      var i :| i in todo;
      todo := todo - {i};
      var end := pool.child[i].end;
      if end.Value? {
        if accept.None? { return Some(Winner(i, end.v)); }
        match accept.value(end.v)
        case Yes => return Some(Winner(i, end.v));
        case Boom(e) => return Some(AcceptFailed(i, e));
        case No =>
      }
    }
    return None;
  }

  /** Cancel the active tasks, close the unstarted coroutines, drain: the winner's branch and the
      `finally` clause both do this. */
  method CleanUp<T>(pool: Pool<T>, waiting: seq<nat>, active: set<nat>, ghost width: nat) returns (w: Woke)
    requires pool.Valid(waiting, active, width)
    modifies pool`child, pool`schedule, pool`log
    ensures pool.Valid([], active, width) && |pool.child| == |old(pool.child)|
    ensures old(pool.log) <= pool.log && pool.whole == old(pool.whole) && (Cancelled(old(pool.log)) ==> Cancelled(pool.log))
    ensures w != Suspended ==> Settled(old(pool.child), pool.child)
    ensures w == Interrupted ==> Cancelled(pool.log)
    ensures w == Suspended ==> pool.schedule == [] && pool.Rung() == old(pool.Rung())
    ensures pool.Rung() <= old(pool.Rung()) + if active == {} then 0 else 1
    ensures active == {} && waiting == [] ==> w == Batch && pool.log == old(pool.log)
  {
    hide Paced;
    hide Rings;
    hide Replay;
    hide Events;
    hide Cancelled;
    pool.CancelAll(active, waiting, active, width);
    label asked:
    pool.CloseAll(waiting, active, width);
    label closed:
    w := pool.Drain(active, width);
    if w != Suspended {
      forall i | 0 <= i < |pool.child|
        ensures match old(pool.child)[i]
                case Waiting => pool.child[i].Closed?
                case Active(_) => pool.child[i].Ended? && pool.child[i].asked
                case _ => pool.child[i] == old(pool.child)[i]
      {
        assert Forward(old@closed(pool.child)[i], pool.child[i]);
      }
    }
  }

  /** `while waiting and len(active) < width: active.add(create_task(waiting.pop(0)))`. */
  method Fill<T>(pool: Pool<T>, width: nat, waiting0: seq<nat>, active0: set<nat>, ghost accept: Option<T -> Verdict>)
    returns (waiting: seq<nat>, active: set<nat>)
    requires pool.Valid(waiting0, active0, width) && NoStop(|pool.child|, accept, pool.log)
    requires forall i :: i in active0 ==> pool.child[i].Active?
    modifies pool`child, pool`log
    ensures pool.Valid(waiting, active, width) && |pool.child| == |old(pool.child)| && pool.whole == old(pool.whole)
    ensures NoStop(|pool.child|, accept, pool.log) && pool.Rung() == old(pool.Rung())
    ensures |waiting| + |active| == |waiting0| + |active0| && (waiting == [] || |active| == width)
    ensures forall i :: i in active ==> pool.child[i].Active?
    ensures forall i :: 0 <= i < |pool.child| && pool.child[i].Ended? ==> old(pool.child)[i] == pool.child[i]
    ensures NeverClosed(old(pool.child)) ==> NeverClosed(pool.child)
  {
    hide NoStop;
    hide Paced;
    hide Rings;
    hide Replay;
    hide Events;
    waiting, active := waiting0, active0;
    while waiting != [] && |active| < width
      invariant pool.Valid(waiting, active, width) && |pool.child| == |old(pool.child)|
      invariant NoStop(|pool.child|, accept, pool.log) && pool.Rung() == old(pool.Rung())
      invariant |waiting| + |active| == |waiting0| + |active0|
      invariant forall i :: i in active ==> pool.child[i].Active?
      invariant forall i :: 0 <= i < |pool.child| && pool.child[i].Ended? ==> old(pool.child)[i] == pool.child[i]
      invariant NeverClosed(old(pool.child)) ==> NeverClosed(pool.child)
      decreases |waiting|
    {
      StopPushed(|pool.child|, accept, pool.log, Begun(waiting[0]));
      waiting, active := pool.Start(waiting, active, width);
    }
  }

  /** How the race stands between two turns: nothing has stopped it, what ended is not acceptable. */
  ghost predicate Racing<T>(pool: Pool<T>, waiting: seq<nat>, active: set<nat>, width: nat, accept: Option<T -> Verdict>)
    reads pool
  {
    && pool.Valid(waiting, active, width) && NoStop(|pool.child|, accept, pool.log) && NeverClosed(pool.child)
    && (forall i :: i in active ==> pool.child[i].Active?)
    && (forall i :: 0 <= i < |pool.child| && pool.child[i].Ended? ==> Unacceptable(accept, pool.child[i]))
    && pool.Rung() == (if pool.Rung() > 0 && Clean(pool.child) then 1 else 0)
  }

  /** The race was decided by the last move, for this reason. */
  ghost predicate Decided<T>(pool: Pool<T>, accept: Option<T -> Verdict>, r: Outcome<T>)
    reads pool
  {
    var k := |pool.log| - 1;
    && (r.Winner? || r.AcceptFailed? || r.RaisedCancelled?) && k >= 0 && FirstStop(|pool.child|, accept, pool.log, k)
    && pool.child == Replay(|pool.child|, pool.log[..k]) && Reason(accept, pool.child, pool.log[k], r)
  }

  /** One turn of the `while` loop up to a winner: fill, wait for a batch, look at it. */
  method NextBatch<T>(pool: Pool<T>, width: nat, accept: Option<T -> Verdict>, waiting0: seq<nat>, active0: set<nat>)
    returns (stop: Option<Outcome<T>>, waiting: seq<nat>, active: set<nat>)
    requires Racing(pool, waiting0, active0, width, accept) && width >= 1 && (waiting0 != [] || active0 != {})
    modifies pool`child, pool`schedule, pool`log
    ensures pool.Valid(waiting, active, width) && |pool.child| == |old(pool.child)| && pool.whole == old(pool.whole)
    ensures stop.None? ==> Racing(pool, waiting, active, width, accept) && |waiting| + |active| < |waiting0| + |active0|
    ensures stop == Some(StillRunning) ==> pool.schedule == [] && pool.Rung() == 0
    ensures stop.Some? && stop.value != StillRunning ==> Decided(pool, accept, stop.value)
    ensures stop.Some? ==> pool.Rung() <= if active == {} then 1 else 0
    ensures stop.Some? && stop.value.RaisedCancelled? ==> Cancelled(pool.log)
  {
    hide Paced;
    hide Rings;
    hide Replay;
    hide Events;
    hide Ready;
    hide Stops;
    hide Cancelled;
    hide Apply;
    hide Clean;
    hide Forward;
    hide Reason;
    hide Unacceptable;
    hide NoStop;
    hide FirstStop;
    hide Lines;
    hide NeverClosed;
    hide Decided;
    StillOpen(pool, waiting0, active0, width, accept);
    RacingMeans(pool, waiting0, active0, width, accept);
    hide Racing;
    // Something is active now, so the `break` on an empty `active` is never reached.
    waiting, active := Fill(pool, width, waiting0, active0, accept);
    var w, done, pending := pool.Wait(active, waiting, width, accept);
    if w == Suspended { stop := Some(StillRunning); return; }
    if w == Interrupted {
      AfterInterrupt(pool, accept);
      stop := Some(RaisedCancelled);
      return;
    }
    stop := LookAt(pool, waiting, active, done, pending, width, accept);
    active := pending;
  }

  /** The batch of a wake-up: the race goes on, or is decided by that wake-up. */
  method LookAt<T>(pool: Pool<T>, ghost waiting: seq<nat>, ghost active: set<nat>, done: set<nat>, ghost pending: set<nat>, ghost width: nat,
                   accept: Option<T -> Verdict>) returns (stop: Option<Outcome<T>>)
    requires pool.Valid(waiting, active, width) && NeverClosed(pool.child)
    requires pool.log != [] && NoStop(|pool.child|, accept, pool.log[..|pool.log| - 1])
    requires pool.child == Replay(|pool.child|, pool.log[..|pool.log| - 1]) && pool.log[|pool.log| - 1] == Happened(Wake)
    requires pool.Rung() == if Clean(pool.child) then 1 else 0
    requires done != {} && done + pending == active && done !! pending && forall i :: i in active ==> (i in done <==> pool.child[i].Ended?)
    requires forall i :: 0 <= i < |pool.child| && i !in active && pool.child[i].Ended? ==> Unacceptable(accept, pool.child[i])
    ensures pool.Valid(waiting, pending, width) && |pending| < |active|
    ensures if stop.None? then Racing(pool, waiting, pending, width, accept) else Decided(pool, accept, stop.value)
    ensures stop.Some? ==> stop.value.Winner? || stop.value.AcceptFailed?
    ensures pool.Rung() <= if pending == {} then 1 else 0
  {
    hide Paced;
    hide Rings;
    hide Replay;
    hide Events;
    hide Ready;
    hide Clean;
    hide Reason;
    hide Unacceptable;
    hide NoStop;
    hide FirstStop;
    hide Lines;
    hide NeverClosed;
    hide Decided;
    hide Racing;
    forall i | i in done ensures i < |pool.child| && pool.child[i].Ended? { assert i in active; }
    stop := Examine(pool, done, accept);
    AfterBatch(pool, waiting, active, done, pending, width, accept, stop);
  }

  lemma RacingMeans<T>(pool: Pool<T>, waiting: seq<nat>, active: set<nat>, width: nat, accept: Option<T -> Verdict>)
    requires Racing(pool, waiting, active, width, accept)
    ensures pool.Valid(waiting, active, width) && NoStop(|pool.child|, accept, pool.log) && NeverClosed(pool.child)
    ensures forall i :: i in active ==> i < |pool.child| && pool.child[i].Active?
    ensures forall i :: 0 <= i < |pool.child| && pool.child[i].Ended? ==> Unacceptable(accept, pool.child[i])
  {
  }

  lemma LastMove<T>(n: nat, accept: Option<T -> Verdict>, log: seq<Move<T>>)
    requires log != [] && NoStop(n, accept, log[..|log| - 1])
    ensures var (front, m) := (log[..|log| - 1], log[|log| - 1]);
            if m.Happened? && (m.e.OuterCancel? || (m.e.Wake? && Ready(accept, Replay(n, front))))
            then FirstStop(n, accept, log, |log| - 1) else NoStop(n, accept, log)
  {
    hide NoStop;
    hide FirstStop;
    hide Ready;
    hide Replay;
    assert log == log[..|log| - 1] + [log[|log| - 1]];
    StopPushed(n, accept, log[..|log| - 1], log[|log| - 1]);
  }

  lemma AfterInterrupt<T>(pool: Pool<T>, accept: Option<T -> Verdict>)
    requires pool.log != [] && NoStop(|pool.child|, accept, pool.log[..|pool.log| - 1])
    requires pool.child == Replay(|pool.child|, pool.log[..|pool.log| - 1]) && pool.log[|pool.log| - 1] == Happened(OuterCancel)
    ensures Decided(pool, accept, RaisedCancelled)
  {
    hide NoStop;
    hide FirstStop;
    hide Ready;
    hide Replay;
    LastMove(|pool.child|, accept, pool.log);
  }

  /** A batch that was looked at leaves the race going on, or decided by the wake-up that brought it. */
  lemma AfterBatch<T>(pool: Pool<T>, waiting: seq<nat>, active: set<nat>, done: set<nat>, pending: set<nat>, width: nat,
                      accept: Option<T -> Verdict>, stop: Option<Outcome<T>>)
    requires pool.Valid(waiting, active, width) && NeverClosed(pool.child)
    requires pool.log != [] && NoStop(|pool.child|, accept, pool.log[..|pool.log| - 1])
    requires pool.child == Replay(|pool.child|, pool.log[..|pool.log| - 1]) && pool.log[|pool.log| - 1] == Happened(Wake)
    requires pool.Rung() == if Clean(pool.child) then 1 else 0
    requires done != {} && done + pending == active && done !! pending && forall i :: i in active ==> (i in done <==> pool.child[i].Ended?)
    requires forall i :: 0 <= i < |pool.child| && i !in active && pool.child[i].Ended? ==> Unacceptable(accept, pool.child[i])
    requires stop.None? ==> forall i :: i in done ==> Unacceptable(accept, pool.child[i])
    requires stop.Some? ==> (stop.value.Winner? || stop.value.AcceptFailed?) && Reason(accept, pool.child, Happened(Wake), stop.value)
    requires stop.Some? ==> Ready(accept, pool.child)
    ensures pool.Valid(waiting, pending, width) && |pending| < |active|
    ensures if stop.None? then Racing(pool, waiting, pending, width, accept) else Decided(pool, accept, stop.value)
    ensures pool.Rung() <= if pending == {} then 1 else 0
  {
    hide NoStop;
    hide FirstStop;
    hide Ready;
    hide Replay;
    hide Paced;
    hide Events;
    hide Rings;
    hide Reason;
    hide Unacceptable;
    LastMove(|pool.child|, accept, pool.log);
    assert |active| == |done| + |pending| by { assert active == done + pending; }
    if stop == None { NothingReady(pool.child, accept); }
    if pending != {} {
      var i :| i in pending;
      assert i in active && !pool.child[i].Ended?;
    }
  }

  lemma NothingReady<T>(cs: seq<Status<T>>, accept: Option<T -> Verdict>)
    requires forall i :: 0 <= i < |cs| && cs[i].Ended? ==> Unacceptable(accept, cs[i])
    ensures !Ready(accept, cs)
  {
  }

  /** While something is waiting or active, the race has not rung. */
  lemma StillOpen<T>(pool: Pool<T>, waiting: seq<nat>, active: set<nat>, width: nat, accept: Option<T -> Verdict>)
    requires Racing(pool, waiting, active, width, accept) && (waiting != [] || active != {})
    ensures pool.Rung() == 0
  {
    hide Rings;
    hide Replay;
    if waiting != [] {
      assert waiting[0] in waiting;
      assert !Clean(pool.child) by { assert pool.child[waiting[0]].Waiting?; }
    } else {
      var i :| i in active;
      assert !Clean(pool.child) by { assert pool.child[i].Active?; }
    }
  }

  /** Where a race stands when the `try` body is left. */
  ghost predicate Left<T>(pool: Pool<T>, accept: Option<T -> Verdict>, r: Outcome<T>)
    reads pool
  {
    match r
    case NoAcceptable => NoStop(|pool.child|, accept, pool.log) && forall i :: 0 <= i < |pool.child| ==> Unacceptable(accept, pool.child[i])
    case StillRunning => pool.schedule == [] && pool.Rung() <= 1
    case BadLimit => false
    case _ => DecidedAt(|pool.child|, accept, pool.log, pool.child, r) && (r.RaisedCancelled? ==> Cancelled(pool.log))
  }

  /** The race was decided once, for this reason; since then the losers were asked, closed, or left alone. */
  ghost predicate DecidedAt<T>(n: nat, accept: Option<T -> Verdict>, log: seq<Move<T>>, cs: seq<Status<T>>, r: Outcome<T>) {
    exists k: nat :: FirstStop(n, accept, log, k) && Reason(accept, Replay(n, log[..k]), log[k], r)
      && (cs == Replay(n, log[..k]) || Settled(Replay(n, log[..k]), cs))
  }

  /** The race was decided once, for this reason, and the losers are settled from there. */
  ghost predicate SettledSince<T>(n: nat, accept: Option<T -> Verdict>, log: seq<Move<T>>, cs: seq<Status<T>>, r: Outcome<T>) {
    exists k: nat :: FirstStop(n, accept, log, k) && Reason(accept, Replay(n, log[..k]), log[k], r) && Settled(Replay(n, log[..k]), cs)
  }

  lemma StaysDecided<T>(n: nat, accept: Option<T -> Verdict>, front: seq<Move<T>>, at: seq<Status<T>>, log: seq<Move<T>>,
                        cs: seq<Status<T>>, r: Outcome<T>)
    requires front <= log && DecidedAt(n, accept, front, at, r) && Settled(at, cs)
    ensures SettledSince(n, accept, log, cs, r) && SettledSince(n, accept, log, cs, RaisedCancelled)
  {
    hide Settled;
    hide Replay;
    hide Stops;
    var k: nat :| FirstStop(n, accept, front, k) && Reason(accept, Replay(n, front[..k]), front[k], r)
      && (at == Replay(n, front[..k]) || Settled(Replay(n, front[..k]), at));
    InRange(n, accept, front, k);
    FirstStopStays(n, accept, front, log, k);
    SettledTwice(Replay(n, front[..k]), at, cs);
    assert Reason(accept, Replay(n, log[..k]), log[k], RaisedCancelled);
  }

  /** A child that had ended when the race was decided stays as it was. */
  lemma WinnerStays<T>(n: nat, accept: Option<T -> Verdict>, log: seq<Move<T>>, cs: seq<Status<T>>, r: Outcome<T>)
    requires SettledSince(n, accept, log, cs, r)
    ensures r.Winner? ==> r.i < |cs| && cs[r.i].Ended? && cs[r.i].end == Value(r.v) && (accept.Some? ==> accept.value(r.v) == Yes)
    ensures r.AcceptFailed? ==> r.i < |cs| && cs[r.i].Ended? && cs[r.i].end.Value? && accept.Some? && accept.value(cs[r.i].end.v) == Boom(r.e)
  {
    hide Replay;
    hide Stops;
    var k: nat :| FirstStop(n, accept, log, k) && Reason(accept, Replay(n, log[..k]), log[k], r) && Settled(Replay(n, log[..k]), cs);
    var at := Replay(n, log[..k]);
    if r.Winner? || r.AcceptFailed? { assert cs[r.i] == at[r.i]; }
  }

  lemma InRange<T>(n: nat, accept: Option<T -> Verdict>, log: seq<Move<T>>, k: nat)
    requires FirstStop(n, accept, log, k)
    ensures k < |log|
  {
  }

  /** The `try` body. On the way out `active` and `waiting` are what the `finally` clause still sees. */
  method Race<T>(pool: Pool<T>, width: nat, accept: Option<T -> Verdict>, all: seq<nat>)
    returns (r: Outcome<T>, waiting: seq<nat>, active: set<nat>)
    requires Racing(pool, all, {}, width, accept) && width >= 1 && pool.Rung() == 0
    modifies pool`child, pool`schedule, pool`log
    ensures pool.Valid(waiting, active, width) && |pool.child| == |old(pool.child)| && pool.whole == old(pool.whole)
    ensures Left(pool, accept, r) && pool.Rung() <= 1 && (r.NoAcceptable? ==> waiting == [] && active == {})
  {
    hide Paced;
    hide Rings;
    hide Replay;
    hide Events;
    hide Stops;
    hide NoStop;
    hide FirstStop;
    hide Cancelled;
    hide Reason;
    hide Settled;
    waiting, active := all, {};
    while waiting != [] || active != {}
      invariant Racing(pool, waiting, active, width, accept)
      invariant |pool.child| == |old(pool.child)| && pool.whole == old(pool.whole)
      decreases |waiting| + |active|
    {
      var stop;
      stop, waiting, active := NextBatch(pool, width, accept, waiting, active);
      if stop.Some? {
        r := stop.value;
        if r.StillRunning? { return; }
        if !r.Winner? {
          DecidedNow(|pool.child|, accept, pool.log, pool.child, r);
          return;
        }
        ghost var front, at := pool.log, pool.child;
        var d := CleanUp(pool, waiting, active, width);
        if d == Suspended { return StillRunning, [], active; }
        DecidedNow(|pool.child|, accept, front, at, r);
        StaysDecided(|pool.child|, accept, front, at, pool.log, pool.child, r);
        waiting := [];
        if d == Interrupted { r := RaisedCancelled; }
        return;
      }
    }
    AllOver(pool, waiting, active, width, accept);
    r := NoAcceptable;
  }

  lemma DecidedNow<T>(n: nat, accept: Option<T -> Verdict>, log: seq<Move<T>>, cs: seq<Status<T>>, r: Outcome<T>)
    requires log != [] && FirstStop(n, accept, log, |log| - 1)
    requires cs == Replay(n, log[..|log| - 1]) && Reason(accept, cs, log[|log| - 1], r)
    ensures DecidedAt(n, accept, log, cs, r)
  {
    hide Replay;
    hide FirstStop;
  }

  /** With nothing waiting or active, every child was started and ended. */
  lemma AllOver<T>(pool: Pool<T>, waiting: seq<nat>, active: set<nat>, width: nat, accept: Option<T -> Verdict>)
    requires Racing(pool, waiting, active, width, accept) && waiting == [] && active == {}
    ensures forall i :: 0 <= i < |pool.child| ==> Unacceptable(accept, pool.child[i])
  {
  }

  lemma FreshFacts<T>(pool: Pool<T>, accept: Option<T -> Verdict>, width: nat)
    requires pool.Fresh()
    ensures pool.Recorded() && Events(pool.log) == [] && pool.Rung() == 0 && !Cancelled(pool.log)
    ensures NoStop(|pool.child|, accept, pool.log) && Paced(|pool.child|, pool.log, width)
    ensures forall i :: 0 <= i < |pool.child| ==> pool.child[i].Waiting?
  {
    ActiveCountBound(pool.child, {}, 0);
    assert pool.child[0..] == pool.child;
  }

  /** `first_success` over the coroutines of a fresh pool. */
  method FirstSuccess<T>(pool: Pool<T>, limit: Option<int>, accept: Option<T -> Verdict>) returns (r: Outcome<T>)
    requires pool.Fresh()
    modifies pool`child, pool`schedule, pool`log
    // A bad limit is refused before anything starts, and nothing is closed.
    ensures r.BadLimit? <==> limit.Some? && limit.value < 1
    ensures r.BadLimit? ==> pool.child == old(pool.child) && pool.schedule == old(pool.schedule)
    // The run is made of the schedule's events, in order, and of starting, asking and closing children.
    ensures pool.child == Replay(|old(pool.child)|, pool.log) && Events(pool.log) + pool.schedule == old(pool.schedule)
    // At every instant of every run, finished or not, at most `limit` children run; they are started in input
    // order; and whenever the caller suspends itself, `limit` children run or none is left to start.
    ensures !r.BadLimit? ==> var width := if limit.Some? then limit.value else |pool.child|;
      AtMost(|pool.child|, pool.log, width) && StartsInOrder(|pool.child|, pool.log) && NeverIdle(|pool.child|, pool.log, width)
    // Every way out, by return or by raise, leaves no running child and no open coroutine.
    ensures !r.BadLimit? && !r.StillRunning? ==> Clean(pool.child)
    // Exhaustion: every child was started, ended, and was not acceptable, and nothing had stopped the race.
    ensures r.NoAcceptable? ==> NoStop(|pool.child|, accept, pool.log) && forall i :: 0 <= i < |pool.child| ==> Unacceptable(accept, pool.child[i])
    // Every other way out was decided at one instant, and settled the others from there.
    ensures r.Winner? || r.AcceptFailed? || r.RaisedCancelled? ==> SettledSince(|pool.child|, accept, pool.log, pool.child, r)
    ensures r.RaisedCancelled? ==> Cancelled(pool.log)
    // What the outcomes say of the children: the winner gave the value returned, accepted if anybody asked; an
    // exhausted race had no value but those turned down; only an `accept` that was given can fail.
    ensures r.Winner? ==> r.i < |pool.child| && pool.child[r.i].Ended? && pool.child[r.i].end == Value(r.v)
                          && (accept.Some? ==> accept.value(r.v) == Yes)
    ensures r.AcceptFailed? ==> r.i < |pool.child| && pool.child[r.i].Ended? && pool.child[r.i].end.Value?
                                && accept.Some? && accept.value(pool.child[r.i].end.v) == Boom(r.e)
    ensures r.NoAcceptable? ==> forall i :: 0 <= i < |pool.child| ==>
              pool.child[i].Ended? && (pool.child[i].end.Value? ==> accept.Some? && accept.value(pool.child[i].end.v) == No)
    // It stays suspended only while the schedule goes on and it was not woken twice with nothing left to do.
    ensures r.StillRunning? ==> pool.schedule == [] && Rings(|pool.child|, pool.log) <= 1
  {
    hide AtMost;
    hide StartsInOrder;
    hide NeverIdle;
    hide Rings;
    hide Replay;
    hide Events;
    hide Stops;
    hide NoStop;
    hide FirstStop;
    hide Cancelled;
    hide Reason;
    hide Settled;
    FreshFacts(pool, accept, if limit.Some? && limit.value >= 0 then limit.value else |pool.child|);
    if limit.Some? && limit.value < 1 { return BadLimit; }
    if pool.child == [] { return NoAcceptable; }
    var n := |pool.child|;
    var width: nat := if limit.None? then n else limit.value;
    var waiting := seq(n, i => i);
    forall i | 0 <= i < n ensures i in waiting { assert waiting[i] == i; }
    var active: set<nat> := {};
    r, waiting, active := Race(pool, width, accept, waiting);
    if r.StillRunning? { return; }
    ghost var front, at := pool.log, pool.child;
    // finally
    var w := CleanUp(pool, waiting, active, width);
    if w == Suspended { return StillRunning; }
    SettledTwice(at, at, pool.child);
    if r.NoAcceptable? { return; }
    StaysDecided(n, accept, front, at, pool.log, pool.child, r);
    WinnerStays(n, accept, pool.log, pool.child, r);
    if w == Interrupted { return RaisedCancelled; }
  }
}
