/** Matching JSON-RPC responses to requests (section 5 of the JSON-RPC 2.0 specification): requester threads
    and one reader thread share the table of pending requests. Each locked region, queue operation and write
    is one step. */
module JsonRpc {
  import opened Wrappers

  /** A received object: its method, if that is a string; its id, if it is not null; its content. */
  datatype Message = Message(method_: Option<string>, id: Option<string>, body: string)

  /** `int(msg_id)`: a number, an exception that is caught, or the `OverflowError` of an infinite float, which is
      not. */
  datatype Numeral = Number(v: int) | NoNumber | Overflows

  datatype Stage =
    | Registered
    | Sent
    | Broken
    | Answered(p: nat)
    | TimedOut

  /** A request: how far it is, and how much had been received when it was registered. */
  datatype Request = Request(stage: Stage, since: nat)

  /** The reader between taking a pending request out of the table and filling its inbox, or ended by an
      exception. */
  datatype Reader = Idle | Holding(id: nat, p: nat) | Dead

  /** `received` is everything the reader dispatched; inboxes hold positions in it, and `filled` remembers
      all that was ever put. `replies` are the agent's own requests that were answered. */
  datatype Client = Client(
    nextId: nat, requests: map<nat, Request>, pending: set<nat>, inbox: map<nat, seq<nat>>, filled: map<nat, seq<nat>>,
    reader: Reader, received: seq<Message>, replies: seq<string>)

  const START: Client := Client(0, map[], {}, map[], map[], Idle, [], [])

  datatype Event =
    | Register
    | Send(id: nat, ok: bool)
    | Take(id: nat)
    | GiveUp(id: nat)
    | Dispatch(msg: Message)
    | Put
    | BadLine

  function At(c: Client, id: nat, stage: Stage): Client
    requires id in c.requests
  {
    c.(requests := c.requests[id := c.requests[id].(stage := stage)])
  }

  /** `int(msg_id)` of a response. */
  function KeyOf(msg: Message, toInt: string -> Numeral): Option<int> {
    if msg.method_ == None && msg.id.Some? && toInt(msg.id.value).Number? then Some(toInt(msg.id.value).v) else None
  }

  /** The id of a response overflows. */
  predicate Kills(msg: Message, toInt: string -> Numeral) {
    msg.method_ == None && msg.id.Some? && toInt(msg.id.value) == Overflows
  }

  /** `_dispatch`, up to the pop. */
  function Received(c: Client, msg: Message, toInt: string -> Numeral): Client {
    var seen := c.(received := c.received + [msg]);
    if msg.method_.Some? && msg.id.Some? then seen.(replies := c.replies + [msg.id.value])
    else if Kills(msg, toInt) then seen.(reader := Dead)
    else
      match KeyOf(msg, toInt)
      case None => seen
      case Some(key) =>
        if key >= 0 && key in c.pending then seen.(pending := c.pending - {key}, reader := Holding(key, |c.received|)) else seen
  }

  function Do(c: Client, e: Event, toInt: string -> Numeral): Client {
    match e
    case Register =>
      var id := c.nextId + 1;
      c.(nextId := id, requests := c.requests[id := Request(Registered, |c.received|)], pending := c.pending + {id},
         inbox := c.inbox[id := []], filled := c.filled[id := []])
    case Send(id, ok) =>
      if id in c.requests && c.requests[id].stage == Registered then At(c, id, if ok then Sent else Broken) else c
    case Take(id) =>
      if id in c.requests && c.requests[id].stage == Sent && id in c.inbox && c.inbox[id] != [] then
        At(c, id, Answered(c.inbox[id][0])).(inbox := c.inbox[id := c.inbox[id][1..]])
      else c
    case GiveUp(id) =>
      if id in c.requests && c.requests[id].stage == Sent && id in c.inbox && c.inbox[id] == [] then At(c, id, TimedOut) else c
    case Dispatch(msg) => if c.reader == Idle then Received(c, msg, toInt) else c
    // A line that is not UTF-8.
    case BadLine => if c.reader == Idle then c.(reader := Dead) else c
    case Put =>
      if c.reader.Holding? && c.reader.id in c.inbox && c.reader.id in c.filled then
        var (id, p) := (c.reader.id, c.reader.p);
        c.(reader := Idle, inbox := c.inbox[id := c.inbox[id] + [p]], filled := c.filled[id := c.filled[id] + [p]])
      else c
  }

  function Exec(events: seq<Event>, toInt: string -> Numeral): Client {
    if events == [] then START else Do(Exec(events[..|events| - 1], toInt), events[|events| - 1], toInt)
  }

  // ---- what every interleaving keeps --------------------------------------------------------------------

  predicate Replies(msg: Message, id: nat, toInt: string -> Numeral) {
    KeyOf(msg, toInt) == Some(id)
  }

  /** Position `p` holds the first response to `id` received since `since`. */
  ghost predicate FirstReply(c: Client, id: nat, since: nat, p: nat, toInt: string -> Numeral) {
    since <= p < |c.received| && Replies(c.received[p], id, toInt)
    && forall q :: since <= q < p ==> !Replies(c.received[q], id, toInt)
  }

  ghost predicate NoReply(c: Client, id: nat, since: nat, toInt: string -> Numeral) {
    forall q :: since <= q < |c.received| ==> !Replies(c.received[q], id, toInt)
  }

  predicate Held(c: Client, id: nat) {
    c.reader.Holding? && c.reader.id == id
  }

  /** A request is pending with no response yet, or in the reader's hands, or filled once, for good: always
      with the first response to its id. */
  ghost predicate Matched(c: Client, id: nat, toInt: string -> Numeral)
    requires id in c.requests
  {
    var since := c.requests[id].since;
    && since <= |c.received| && id in c.inbox && id in c.filled
    && (if id in c.pending then !Held(c, id) && c.filled[id] == [] && NoReply(c, id, since, toInt)
        else if Held(c, id) then c.filled[id] == [] && FirstReply(c, id, since, c.reader.p, toInt)
        else |c.filled[id]| == 1 && FirstReply(c, id, since, c.filled[id][0], toInt))
    && (if c.requests[id].stage.Answered? then c.filled[id] == [c.requests[id].stage.p] && c.inbox[id] == []
        else c.inbox[id] == c.filled[id])
  }

  ghost predicate Sound(c: Client, toInt: string -> Numeral) {
    && (forall id :: id in c.requests <==> 1 <= id <= c.nextId)
    && (forall id :: id in c.pending ==> id in c.requests)
    && (c.reader.Holding? ==> c.reader.id in c.requests)
    && forall id :: id in c.requests ==> Matched(c, id, toInt)
  }

  /** The position of the response that the request's inbox holds or is about to. */
  function AnswerOf(c: Client, id: nat): nat
    requires id in c.filled
  {
    if Held(c, id) then c.reader.p else if c.filled[id] != [] then c.filled[id][0] else 0
  }

  lemma ReceivedGrows(c: Client, msg: Message, d: Client, id: nat, since: nat, p: nat, toInt: string -> Numeral)
    requires d.received == c.received + [msg] && since <= |c.received|
    ensures FirstReply(c, id, since, p, toInt) ==> FirstReply(d, id, since, p, toInt)
    ensures NoReply(c, id, since, toInt) && !Replies(msg, id, toInt) ==> NoReply(d, id, since, toInt)
    ensures NoReply(c, id, since, toInt) && Replies(msg, id, toInt) ==> FirstReply(d, id, since, |c.received|, toInt)
  {
    hide Replies;
  }

  lemma SameReceived(c: Client, d: Client, id: nat, since: nat, p: nat, toInt: string -> Numeral)
    requires d.received == c.received
    ensures FirstReply(c, id, since, p, toInt) == FirstReply(d, id, since, p, toInt)
    ensures NoReply(c, id, since, toInt) == NoReply(d, id, since, toInt)
  {
  }

  /** Registering leaves the other requests alone, and nothing received so far can answer the new one. */
  lemma RegisterKeeps(c: Client, toInt: string -> Numeral)
    requires Sound(c, toInt)
    ensures Sound(Do(c, Register, toInt), toInt)
  {
    hide FirstReply;
    hide NoReply;
    var d := Do(c, Register, toInt);
    forall id | id in d.requests ensures Matched(d, id, toInt) {
      if id in c.requests {
        assert Matched(c, id, toInt);
        SameReceived(c, d, id, c.requests[id].since, AnswerOf(c, id), toInt);
      } else {
        NothingYet(d, id, toInt);
      }
    }
  }

  lemma NothingYet(c: Client, id: nat, toInt: string -> Numeral)
    ensures NoReply(c, id, |c.received|, toInt)
  {
  }

  lemma OthersKeep(c: Client, e: Event, toInt: string -> Numeral)
    requires Sound(c, toInt) && (e.Send? || e.Take? || e.GiveUp? || e.BadLine?)
    ensures Sound(Do(c, e, toInt), toInt)
  {
    hide Matched;
    var d := Do(c, e, toInt);
    forall id | id in d.requests ensures Matched(d, id, toInt) {
      assert Matched(c, id, toInt);
      OthersMatch(c, e, toInt, id);
    }
  }

  lemma OthersMatch(c: Client, e: Event, toInt: string -> Numeral, id: nat)
    requires id in c.requests && Matched(c, id, toInt) && (e.Send? || e.Take? || e.GiveUp? || e.BadLine?)
    ensures id in Do(c, e, toInt).requests && Matched(Do(c, e, toInt), id, toInt)
  {
    hide FirstReply;
    hide NoReply;
    SameReceived(c, Do(c, e, toInt), id, c.requests[id].since, AnswerOf(c, id), toInt);
  }

  lemma PutKeeps(c: Client, toInt: string -> Numeral)
    requires Sound(c, toInt)
    ensures Sound(Do(c, Put, toInt), toInt)
  {
    hide FirstReply;
    hide NoReply;
    var d := Do(c, Put, toInt);
    forall id | id in d.requests ensures Matched(d, id, toInt) {
      assert Matched(c, id, toInt);
      SameReceived(c, d, id, c.requests[id].since, AnswerOf(c, id), toInt);
    }
  }

  lemma DispatchKeeps(c: Client, msg: Message, toInt: string -> Numeral)
    requires Sound(c, toInt) && c.reader == Idle
    ensures Sound(Received(c, msg, toInt), toInt)
  {
    hide FirstReply;
    hide NoReply;
    var d := Received(c, msg, toInt);
    forall id | id in d.requests ensures Matched(d, id, toInt) {
      assert Matched(c, id, toInt);
      ReceivedGrows(c, msg, d, id, c.requests[id].since, AnswerOf(c, id), toInt);
    }
  }

  lemma DoKeeps(c: Client, e: Event, toInt: string -> Numeral)
    requires Sound(c, toInt)
    ensures Sound(Do(c, e, toInt), toInt)
  {
    hide Sound;
    hide Received;
    match e
    case Register => RegisterKeeps(c, toInt);
    case Dispatch(msg) => if c.reader == Idle { DispatchKeeps(c, msg, toInt); }
    case Put => PutKeeps(c, toInt);
    case _ => OthersKeep(c, e, toInt);
  }

  lemma {:induction false} ExecSound(events: seq<Event>, toInt: string -> Numeral)
    ensures Sound(Exec(events, toInt), toInt)
  {
    hide Do;
    hide Matched;
    if events != [] {
      ExecSound(events[..|events| - 1], toInt);
      DoKeeps(Exec(events[..|events| - 1], toInt), events[|events| - 1], toInt);
    }
  }

  // ---- what the client promises ------------------------------------------------------------------------

  /** A new id was never used before. */
  lemma IdsAreFresh(events: seq<Event>, toInt: string -> Numeral)
    ensures var c := Exec(events, toInt);
            c.nextId + 1 !in c.requests && Do(c, Register, toInt).requests.Keys == c.requests.Keys + {c.nextId + 1}
  {
    hide Exec;
    ExecSound(events, toInt);
  }

  /** An inbox gets one message at most: the first response, without a method, whose `int(id)` is the
      request's id, received after the request was registered; and what a requester returns is that one. */
  lemma AnswersAreFirstReplies(events: seq<Event>, toInt: string -> Numeral, id: nat)
    requires id in Exec(events, toInt).requests
    ensures var c := Exec(events, toInt); var r := c.requests[id];
            && id in c.filled && |c.filled[id]| <= 1
            && (forall p :: p in c.filled[id] ==> FirstReply(c, id, r.since, p, toInt) && c.received[p].method_ == None)
            && (r.stage.Answered? ==> c.filled[id] == [r.stage.p])
  {
    hide Exec;
    hide FirstReply;
    hide NoReply;
    ExecSound(events, toInt);
    var c := Exec(events, toInt);
    assert Matched(c, id, toInt);
    forall p | p in c.filled[id]
      ensures FirstReply(c, id, c.requests[id].since, p, toInt) && p < |c.received| && c.received[p].method_ == None
    {
      FirstReplyIsReply(c, id, c.requests[id].since, p, toInt);
    }
  }

  lemma FirstReplyIsReply(c: Client, id: nat, since: nat, p: nat, toInt: string -> Numeral)
    requires FirstReply(c, id, since, p, toInt)
    ensures p < |c.received| && Replies(c.received[p], id, toInt) && c.received[p].method_ == None
  {
  }

  /** As long as no response was delivered, a response finds the inbox, timed out or not: the reader takes it
      and the next thing it does is to fill it. */
  lemma ReplyFindsItsInbox(events: seq<Event>, toInt: string -> Numeral, id: nat, msg: Message)
    requires var c := Exec(events, toInt);
             id in c.requests && c.reader == Idle && id in c.filled && c.filled[id] == [] && Replies(msg, id, toInt)
    ensures var c := Exec(events, toInt); var d := Do(c, Dispatch(msg), toInt);
            && d.reader == Holding(id, |c.received|) && id !in d.pending
            && id in Do(d, Put, toInt).filled && Do(d, Put, toInt).filled[id] == [|c.received|]
  {
    ExecSound(events, toInt);
    assert Matched(Exec(events, toInt), id, toInt);
  }

  /** A response to an id that is not waiting changes no table; neither does anything with a method. The reader
      goes on unless the id overflows. */
  lemma StrayMessagesChangeNothing(events: seq<Event>, toInt: string -> Numeral, msg: Message)
    requires var c := Exec(events, toInt);
             msg.method_.Some? || forall id :: id in c.requests && Replies(msg, id, toInt) ==> id in c.filled && c.filled[id] != []
    ensures var c := Exec(events, toInt); var d := Do(c, Dispatch(msg), toInt);
            && d.reader == (if c.reader == Idle && Kills(msg, toInt) then Dead else c.reader)
            && d.pending == c.pending && d.inbox == c.inbox && d.filled == c.filled && d.requests == c.requests
  {
    var c := Exec(events, toInt);
    ExecSound(events, toInt);
    var key := KeyOf(msg, toInt);
    if key.Some? && key.value >= 0 && key.value in c.pending {
      assert Matched(c, key.value, toInt) && Replies(msg, key.value, toInt);
    }
  }

  lemma DeadDelivers(c: Client, e: Event, toInt: string -> Numeral, id: nat)
    requires Sound(c, toInt) && c.reader == Dead && id in c.requests && id in c.filled
    ensures var d := Do(c, e, toInt); d.reader == Dead && id in d.requests && id in d.filled && d.filled[id] == c.filled[id]
  {
  }

  /** Once the reader has ended, no request registered before ever gets another message. */
  lemma {:induction false} NothingAfterReaderDies(before: seq<Event>, after: seq<Event>, toInt: string -> Numeral, id: nat)
    requires var c := Exec(before, toInt); c.reader == Dead && id in c.requests
    ensures var (c, d) := (Exec(before, toInt), Exec(before + after, toInt));
            d.reader == Dead && id in c.filled && id in d.requests && id in d.filled && d.filled[id] == c.filled[id]
    decreases |after|
  {
    hide Do;
    if after == [] {
      assert before + after == before;
      ExecSound(before, toInt);
      assert Matched(Exec(before, toInt), id, toInt);
    } else {
      var (front, e) := (after[..|after| - 1], after[|after| - 1]);
      NothingAfterReaderDies(before, front, toInt, id);
      assert (before + after)[..|before + after| - 1] == before + front;
      ExecSound(before + front, toInt);
      DeadDelivers(Exec(before + front, toInt), e, toInt, id);
    }
  }

  predicate WasSent(c: Client, id: nat) {
    id in c.requests && (c.requests[id].stage == Sent || c.requests[id].stage.Answered? || c.requests[id].stage == TimedOut)
  }

  /** Whoever waits for an answer, got one or gave up on it had its request written. */
  lemma {:induction false} WaitersWereSent(events: seq<Event>, toInt: string -> Numeral, id: nat)
    requires WasSent(Exec(events, toInt), id)
    ensures exists k :: 0 <= k < |events| && events[k] == Send(id, true)
  {
    if events != [] {
      var last := |events| - 1;
      var c := Exec(events[..last], toInt);
      SentNow(c, events[last], toInt, id);
      if WasSent(c, id) {
        WaitersWereSent(events[..last], toInt, id);
        var k :| 0 <= k < last && events[..last][k] == Send(id, true);
        assert events[k] == Send(id, true);
      }
    }
  }

  lemma SentNow(c: Client, e: Event, toInt: string -> Numeral, id: nat)
    requires WasSent(Do(c, e, toInt), id)
    ensures WasSent(c, id) || e == Send(id, true)
  {
    hide KeyOf;
  }

  /** The ids of the agent's own requests among these messages, in order. */
  function Asked(received: seq<Message>): seq<string> {
    if received == [] then []
    else
      var last := received[|received| - 1];
      Asked(received[..|received| - 1]) + if last.method_.Some? && last.id.Some? then [last.id.value] else []
  }

  /** Every request of the agent that was received is answered once, with its own id, in order. */
  lemma {:induction false} AgentIsAnswered(events: seq<Event>, toInt: string -> Numeral)
    ensures Exec(events, toInt).replies == Asked(Exec(events, toInt).received)
  {
    if events != [] {
      var (front, e) := (events[..|events| - 1], events[|events| - 1]);
      AgentIsAnswered(front, toInt);
      hide Do;
      AnswersOne(Exec(front, toInt), e, toInt);
    }
  }

  lemma AnswersOne(c: Client, e: Event, toInt: string -> Numeral)
    requires c.replies == Asked(c.received)
    ensures Do(c, e, toInt).replies == Asked(Do(c, e, toInt).received)
  {
    hide Asked;
    hide Received;
    if e.Dispatch? && c.reader == Idle { AnswersMessage(c, e.msg, toInt); }
  }

  lemma AnswersMessage(c: Client, msg: Message, toInt: string -> Numeral)
    requires c.replies == Asked(c.received)
    ensures Received(c, msg, toInt).replies == Asked(Received(c, msg, toInt).received)
  {
    AskedOneMore(c.received, msg);
    hide Asked;
  }

  lemma AskedOneMore(received: seq<Message>, msg: Message)
    ensures Asked(received + [msg]) == Asked(received) + if msg.method_.Some? && msg.id.Some? then [msg.id.value] else []
  {
    assert (received + [msg])[..|received|] == received;
  }

  /** One response whose id overflows, and no request that waits by then is ever answered. */
  lemma OverflowStarvesAll(before: seq<Event>, msg: Message, after: seq<Event>, toInt: string -> Numeral, id: nat)
    requires Kills(msg, toInt) && Exec(before, toInt).reader == Idle && id in Exec(before, toInt).pending
    ensures var d := Exec(before + [Dispatch(msg)] + after, toInt);
            d.reader == Dead && id in d.requests && id in d.filled && d.filled[id] == [] && !d.requests[id].stage.Answered?
  {
    var (c, run) := (Exec(before, toInt), before + [Dispatch(msg)]);
    assert run[..|before|] == before && Exec(run, toInt) == Do(c, Dispatch(msg), toInt);
    hide Exec;
    ExecSound(before, toInt);
    assert Matched(c, id, toInt);
    hide Do;
    NothingAfterReaderDies(run, after, toInt, id);
    ExecSound(run + after, toInt);
    assert Matched(Exec(run + after, toInt), id, toInt);
  }

  // ---- the object -----------------------------------------------------------------------------------------

  /** `_NdjsonClient`: each method is one locked region, queue operation or write. */
  class NdjsonClient {
    var nextId: nat
    var requests: map<nat, Request>
    var pending: set<nat>
    var inbox: map<nat, seq<nat>>
    var reader: Reader
    var received: seq<Message>
    var replies: seq<string>
    ghost var filled: map<nat, seq<nat>>
    const toInt: string -> Numeral

    ghost function State(): Client
      reads this
    {
      Client(nextId, requests, pending, inbox, filled, reader, received, replies)
    }

    constructor (toInt: string -> Numeral)
      ensures State() == START && Sound(State(), toInt) && this.toInt == toInt
    {
      nextId, requests, pending, inbox, filled := 0, map[], {}, map[], map[];
      reader, received, replies := Idle, [], [];
      this.toInt := toInt;
    }

    /** The first locked region of `request`. */
    method RegisterRequest() returns (id: nat)
      requires Sound(State(), toInt)
      modifies this
      ensures State() == Do(old(State()), Register, toInt) && Sound(State(), toInt)
      ensures id !in old(requests) && id in pending
    {
      DoKeeps(State(), Register, toInt);
      nextId := nextId + 1;
      id := nextId;
      requests := requests[id := Request(Registered, |received|)];
      inbox := inbox[id := []];
      filled := filled[id := []];
      pending := pending + {id};
    }

    /** `inbox.get`: the message, or nothing once the time is up. */
    method TakeReply(id: nat) returns (msg: Option<Message>)
      requires Sound(State(), toInt) && id in requests && requests[id].stage == Sent
      modifies this
      ensures Sound(State(), toInt)
      ensures msg.Some? ==> State() == Do(old(State()), Take(id), toInt) && Replies(msg.value, id, toInt)
      ensures msg.None? ==> State() == Do(old(State()), GiveUp(id), toInt) && requests[id].stage == TimedOut
    {
      assert Matched(State(), id, toInt);
      if inbox[id] == [] {
        DoKeeps(State(), GiveUp(id), toInt);
        requests := requests[id := requests[id].(stage := TimedOut)];
        return None;
      }
      DoKeeps(State(), Take(id), toInt);
      var p := inbox[id][0];
      inbox := inbox[id := inbox[id][1..]];
      requests := requests[id := requests[id].(stage := Answered(p))];
      return Some(received[p]);
    }

    /** `_dispatch`, up to the pop. */
    method DispatchMessage(msg: Message)
      requires Sound(State(), toInt) && reader == Idle
      modifies this
      ensures State() == Do(old(State()), Dispatch(msg), toInt) && Sound(State(), toInt)
    {
      DoKeeps(State(), Dispatch(msg), toInt);
      var p := |received|;
      received := received + [msg];
      if msg.method_.Some? && msg.id.Some? {
        replies := replies + [msg.id.value];
        return;
      }
      if msg.method_.Some? { return; }
      if msg.id.Some? {
        match toInt(msg.id.value)
        case Overflows => reader := Dead;
        case NoNumber =>
        case Number(key) =>
          if key >= 0 && key in pending {
            pending := pending - {key};
            reader := Holding(key, p);
          }
      }
    }

    /** `inbox.put(msg)`, outside the lock. */
    method PutReply()
      requires Sound(State(), toInt) && reader.Holding?
      modifies this
      ensures State() == Do(old(State()), Put, toInt) && Sound(State(), toInt)
      ensures reader == Idle
    {
      assert Matched(State(), reader.id, toInt);
      DoKeeps(State(), Put, toInt);
      inbox := inbox[reader.id := inbox[reader.id] + [reader.p]];
      filled := filled[reader.id := filled[reader.id] + [reader.p]];
      reader := Idle;
    }
  }
}
