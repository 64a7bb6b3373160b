/** One connection of the Blynk client (blynk_iot.c:356-413, 495-518, 745-769, 861-1032): the bytes that arrive, the
    requests that go out and the ticks of the clock meet in the table of awaited responses.

    The socket, the queue of requests and the write buffer are left out, and handlers do not end the connection. */
module BlynkConnection {
  import opened Bytes
  import opened BlynkFraming
  import opened BlynkAwaiting

  /** What the loop of `blynk_loop` comes to: bytes read, a request taken from the queue, timers looked at. */
  datatype Event = Received(data: bytes) | Requested(deadline: Tick, hasHandler: bool) | Ticked(now: Tick)

  // ---------- requests and their answers ----------

  datatype Entry = Entry(deadline: Tick, handler: Handler)

  /** The table as a map from ids, and what each handler was called with. */
  datatype Requests = Requests(
    connected: bool,
    nextId: nat,
    nextHandler: nat,
    waiting: map<nat, Entry>,
    outcome: map<Handler, nat>)

  datatype Action = Answer(id: nat, status: nat) | Request(deadline: Tick, hasHandler: bool) | Timers(now: Tick)

  predicate Expired(e: Entry, now: Tick) {
    e.deadline != 0 && TimerExpired(e.deadline, now)
  }

  function DueIds(waiting: map<nat, Entry>, now: Tick): set<nat> {
    set id | id in waiting && Expired(waiting[id], now)
  }

  function DueHandlers(waiting: map<nat, Entry>, now: Tick): set<Handler> {
    set id | id in waiting && Expired(waiting[id], now) :: waiting[id].handler
  }

  /** A request that finds no room ends the connection. */
  function Do(m: Requests, a: Action): Requests {
    if !m.connected then m
    else
      match a
      case Answer(id, status) =>
        if id in m.waiting
        then m.(waiting := m.waiting - {id}, outcome := m.outcome[m.waiting[id].handler := status])
        else m
      case Timers(now) =>
        var timeouts := map h | h in DueHandlers(m.waiting, now) :: STATUS_TIMEOUT;
        m.(waiting := m.waiting - DueIds(m.waiting, now), outcome := m.outcome + timeouts)
      case Request(deadline, hasHandler) =>
        if !hasHandler then m.(nextId := m.nextId + 1)
        else if |m.waiting| == 32
        then m.(connected := false, nextId := m.nextId + 1, nextHandler := m.nextHandler + 1)
        else m.(nextId := m.nextId + 1, nextHandler := m.nextHandler + 1,
                waiting := m.waiting[m.nextId := Entry(deadline, m.nextHandler)])
  }

  function DoAll(m: Requests, actions: seq<Action>): Requests
    decreases |actions|
  {
    if actions == [] then m else DoAll(Do(m, actions[0]), actions[1..])
  }

  lemma {:induction false} DoAllConcat(m: Requests, a: seq<Action>, b: seq<Action>)
    ensures DoAll(m, a + b) == DoAll(DoAll(m, a), b)
    decreases |a|
  {
    hide Do;
    if a == [] {
      assert a + b == b;
    } else {
      assert (a + b)[1..] == a[1..] + b;
      DoAllConcat(Do(m, a[0]), a[1..], b);
    }
  }

  lemma FirstOf(m: Requests, a: Action, rest: seq<Action>)
    ensures DoAll(m, [a] + rest) == DoAll(Do(m, a), rest)
  {
    assert ([a] + rest)[1..] == rest;
  }

  /** Ids and handlers are told apart, and no handler that waits was called. */
  ghost predicate Orderly(m: Requests) {
    && m.nextId >= 1
    && (forall id | id in m.waiting :: 1 <= id < m.nextId && m.waiting[id].handler < m.nextHandler)
    && (forall id | id in m.waiting :: m.waiting[id].handler !in m.outcome)
    && (forall id, id' | id in m.waiting && id' in m.waiting && id != id' ::
          m.waiting[id].handler != m.waiting[id'].handler)
    && (forall h | h in m.outcome :: h < m.nextHandler)
  }

  lemma DoOrderly(m: Requests, a: Action)
    requires Orderly(m)
    ensures Orderly(Do(m, a)) && forall h | h in m.outcome :: h in Do(m, a).outcome && Do(m, a).outcome[h] == m.outcome[h]
    ensures Do(m, a).connected ==> m.connected
  {
  }

  /** What a handler was called with is final. */
  lemma {:induction false} OutcomeIsFinal(m: Requests, actions: seq<Action>)
    requires Orderly(m)
    ensures
      var end := DoAll(m, actions);
      Orderly(end) && (end.connected ==> m.connected) &&
      forall h | h in m.outcome :: h in end.outcome && end.outcome[h] == m.outcome[h]
    decreases |actions|
  {
    hide Do, Orderly;
    if actions != [] {
      DoOrderly(m, actions[0]);
      OutcomeIsFinal(Do(m, actions[0]), actions[1..]);
    }
  }

  /** What becomes of one request, seen alone: the first answer with its id, or a timeout if its deadline comes first. */
  function Fate(actions: seq<Action>, id: nat, deadline: Tick): Option<nat>
    decreases |actions|
  {
    if actions == [] then None
    else
      match actions[0]
      case Answer(answered, status) =>
        if answered == id then Some(status) else Fate(actions[1..], id, deadline)
      case Timers(now) =>
        if deadline != 0 && TimerExpired(deadline, now) then Some(0xFFFF) else Fate(actions[1..], id, deadline)
      case Request(_, _) => Fate(actions[1..], id, deadline)
  }

  /** While the connection lasts no request disturbs another: each one's handler is called with its own fate, and a
      request that has met none still waits. */
  lemma {:induction false} EachMeetsItsFate(m: Requests, actions: seq<Action>, id: nat)
    requires Orderly(m) && id in m.waiting && DoAll(m, actions).connected
    ensures
      var e, end := m.waiting[id], DoAll(m, actions);
      match Fate(actions, id, e.deadline)
      case Some(status) => id !in end.waiting && e.handler in end.outcome && end.outcome[e.handler] == status
      case None => id in end.waiting && end.waiting[id] == e && e.handler !in end.outcome
    decreases |actions|
  {
    hide Do, Orderly;
    WaitingIsNotTold(m, id);
    if actions != [] {
      var next := Do(m, actions[0]);
      DoOrderly(m, actions[0]);
      OutcomeIsFinal(next, actions[1..]);
      FirstAction(m, actions, id);
      if id in next.waiting {
        EachMeetsItsFate(next, actions[1..], id);
      } else {
        OldIdStaysOut(next, actions[1..], id);
      }
    }
  }

  /** So does every request of a run, from the moment it gets its id. */
  lemma EveryRequestMeetsItsFate(m: Requests, actions: seq<Action>, k: nat)
    requires Orderly(m) && DoAll(m, actions).connected
    requires k < |actions| && actions[k].Request? && actions[k].hasHandler
    ensures
      var at, end := DoAll(m, actions[..k]), DoAll(m, actions);
      forall status ::
        at.nextHandler in end.outcome && end.outcome[at.nextHandler] == status <==>
        Fate(actions[k + 1..], at.nextId, actions[k].deadline) == Some(status)
  {
    hide Orderly, Fate;
    var at, rest := DoAll(m, actions[..k]), actions[k + 1..];
    OutcomeIsFinal(m, actions[..k]);
    assert actions == actions[..k] + ([actions[k]] + rest);
    DoAllConcat(m, actions[..k], [actions[k]] + rest);
    FirstOf(at, actions[k], rest);
    DoOrderly(at, actions[k]);
    OutcomeIsFinal(Do(at, actions[k]), rest);
    OutcomeIsFinal(at, [actions[k]] + rest);
    EachMeetsItsFate(Do(at, actions[k]), rest, at.nextId);
  }

  lemma NewIdIsFree(m: Requests)
    requires Orderly(m)
    ensures m.nextId !in m.waiting && m.nextId >= 1
  {
  }

  lemma WaitingIsNotTold(m: Requests, id: nat)
    requires Orderly(m) && id in m.waiting
    ensures m.waiting[id].handler !in m.outcome && id < m.nextId
  {
  }

  /** The action decides the request's fate, or leaves it as it is. */
  lemma FirstAction(m: Requests, actions: seq<Action>, id: nat)
    requires Orderly(m) && id in m.waiting && actions != [] && m.connected
    ensures
      var e, next := m.waiting[id], Do(m, actions[0]);
      if id in next.waiting
      then next.waiting[id] == e && Fate(actions, id, e.deadline) == Fate(actions[1..], id, e.deadline)
      else id < next.nextId && e.handler in next.outcome && Fate(actions, id, e.deadline) == Some(next.outcome[e.handler])
  {
  }

  /** An id is not given twice. */
  lemma {:induction false} OldIdStaysOut(m: Requests, actions: seq<Action>, id: nat)
    requires id < m.nextId && id !in m.waiting
    ensures id !in DoAll(m, actions).waiting
    decreases |actions|
  {
    if actions != [] {
      OldIdStaysOut(Do(m, actions[0]), actions[1..], id);
    }
  }

  // ---------- from bytes to answers ----------

  function Answers(frames: seq<Frame>): seq<Action> {
    if frames == [] then []
    else
      var f := frames[0];
      (if f.command == CMD_RESPONSE then [Answer(f.id, f.len)] else []) + Answers(frames[1..])
  }

  lemma {:induction false} AnswersConcat(a: seq<Frame>, b: seq<Frame>)
    ensures Answers(a + b) == Answers(a) + Answers(b)
  {
    if a == [] {
      assert a + b == b;
    } else {
      assert (a + b)[1..] == a[1..] + b;
      AnswersConcat(a[1..], b);
    }
  }

  /** The parser keeps its place from one read to the next. */
  function Actions(p: Parser, events: seq<Event>): seq<Action>
    requires |p.payload| == MAX_PAYLOAD
    decreases |events|
  {
    if events == [] then []
    else
      match events[0]
      case Received(data) => Answers(Run(p, data).1) + Actions(Run(p, data).0, events[1..])
      case Requested(deadline, hasHandler) => [Request(deadline, hasHandler)] + Actions(p, events[1..])
      case Ticked(now) => [Timers(now)] + Actions(p, events[1..])
  }

  /** Where the socket cuts the stream makes no difference. */
  lemma {:induction false} CutAnywhere(p: Parser, before: seq<Event>, a: bytes, b: bytes, after: seq<Event>)
    requires |p.payload| == MAX_PAYLOAD
    ensures Actions(p, before + [Received(a), Received(b)] + after) == Actions(p, before + [Received(a + b)] + after)
    decreases |before|
  {
    hide Run, Answers;
    var cut, whole := before + [Received(a), Received(b)] + after, before + [Received(a + b)] + after;
    if before == [] {
      var p1 := Run(p, a).0;
      assert cut[1..][1..] == after && whole[1..] == after && cut[1..][0] == Received(b);
      RunConcat(p, a, b);
      AnswersConcat(Run(p, a).1, Run(p1, b).1);
      var rest := Actions(Run(p1, b).0, after);
      assert Actions(p, cut) == Answers(Run(p, a).1) + (Answers(Run(p1, b).1) + rest);
      assert Actions(p, whole) == Answers(Run(p, a).1 + Run(p1, b).1) + rest;
    } else {
      assert cut[1..] == before[1..] + [Received(a), Received(b)] + after;
      assert whole[1..] == before[1..] + [Received(a + b)] + after;
      assert cut[0] == whole[0] == before[0];
      var p1 := if before[0].Received? then Run(p, before[0].data).0 else p;
      CutAnywhere(p1, before[1..], a, b, after);
    }
  }

  /** The status in the first response with this id. */
  function FirstStatus(ms: seq<Message>, id: nat): Option<nat> {
    if ms == [] then None
    else if ms[0].command == CMD_RESPONSE && ms[0].id == id then Some(ms[0].len)
    else FirstStatus(ms[1..], id)
  }

  lemma {:induction false} FateOfSeen(ms: seq<Message>, id: nat, deadline: Tick)
    requires forall x | x in ms :: WellFormed(x)
    ensures Fate(Answers(SeenAll(ms)), id, deadline) == FirstStatus(ms, id)
  {
    if ms != [] {
      FateOfSeen(ms[1..], id, deadline);
      assert SeenAll(ms) == [Seen(ms[0])] + SeenAll(ms[1..]);
      assert SeenAll(ms)[1..] == SeenAll(ms[1..]);
      var rest := Answers(SeenAll(ms[1..]));
      if ms[0].command == CMD_RESPONSE {
        assert ([Answer(ms[0].id, ms[0].len)] + rest)[1..] == rest;
      } else {
        assert [] + rest == rest;
      }
    }
  }

  /** From end to end: whatever messages a peer serializes, the handler that waits for `id` is called with the status of
      the first response with that id, and not at all if there is none. */
  lemma AnswersArrive(m: Requests, p: Parser, ms: seq<Message>, id: nat)
    requires Orderly(m) && m.connected && id in m.waiting
    requires |p.payload| == MAX_PAYLOAD && p.mode == Cmd
    requires forall x | x in ms :: WellFormed(x) && Fits(x)
    ensures
      var e, end := m.waiting[id], DoAll(m, Actions(p, [Received(SerializedAll(ms))]));
      match FirstStatus(ms, id)
      case Some(status) => id !in end.waiting && e.handler in end.outcome && end.outcome[e.handler] == status
      case None => id in end.waiting && end.waiting[id] == e && e.handler !in end.outcome
  {
    hide Do, Orderly, Run, Fate;
    var data := SerializedAll(ms);
    StreamRoundTrip(p, ms);
    assert [Received(data)][1..] == [];
    assert Answers(SeenAll(ms)) + [] == Answers(SeenAll(ms));
    FateOfSeen(ms, id, m.waiting[id].deadline);
    AnswersKeepConnected(m, SeenAll(ms));
    EachMeetsItsFate(m, Answers(SeenAll(ms)), id);
  }

  lemma {:induction false} AnswersKeepConnected(m: Requests, frames: seq<Frame>)
    requires m.connected
    ensures DoAll(m, Answers(frames)).connected
    decreases |frames|
  {
    if frames != [] {
      var f, rest := frames[0], Answers(frames[1..]);
      if f.command == CMD_RESPONSE {
        assert ([Answer(f.id, f.len)] + rest)[1..] == rest;
        AnswersKeepConnected(Do(m, Answer(f.id, f.len)), frames[1..]);
      } else {
        assert [] + rest == rest;
        AnswersKeepConnected(m, frames[1..]);
      }
    }
  }

  // ---------- the table of slots behind it ----------

  /** The slots in use hold exactly the requests that wait. */
  ghost predicate Stored(table: seq<Slot>, waiting: map<nat, Entry>) {
    && 0 !in waiting
    && forall id: nat, deadline: Tick, handler: Handler | id != 0 ::
         Slot(id, deadline, handler) in table <==> id in waiting && waiting[id] == Entry(deadline, handler)
  }

  /** The calls made are exactly the outcomes. */
  ghost predicate Told(fired: seq<Firing>, outcome: map<Handler, nat>) {
    forall h: Handler, status: nat :: Firing(h, status) in fired <==> h in outcome && outcome[h] == status
  }

  lemma StoredAt(table: seq<Slot>, waiting: map<nat, Entry>, i: nat)
    requires Stored(table, waiting) && i < |table| && Live(table[i])
    ensures table[i].id in waiting && waiting[table[i].id] == Entry(table[i].deadline, table[i].handler)
  {
    assert Slot(table[i].id, table[i].deadline, table[i].handler) in table;
  }

  lemma StoredOf(table: seq<Slot>, waiting: map<nat, Entry>, id: nat)
    requires Stored(table, waiting)
    ensures id in waiting ==> id != 0 && Slot(id, waiting[id].deadline, waiting[id].handler) in table
  {
  }

  lemma {:induction false} StoredSize(table: seq<Slot>, waiting: map<nat, Entry>)
    requires Stored(table, waiting)
    requires forall i, j | 0 <= i < j < |table| && Live(table[i]) && Live(table[j]) :: table[i].id != table[j].id
    ensures |waiting| == LiveSlots(table) <= |table|
    ensures LiveSlots(table) == |table| <==> forall i | 0 <= i < |table| :: Live(table[i])
    decreases |table|
  {
    if table == [] {
      forall id ensures id in waiting ==> Slot(id, waiting[id].deadline, waiting[id].handler) in table {
        StoredOf(table, waiting, id);
      }
      assert waiting == map[];
    } else {
      var s, rest := table[0], table[1..];
      assert table == [s] + rest;
      assert forall i | 0 <= i < |rest| :: rest[i] == table[i + 1];
      if Live(s) {
        StoredAt(table, waiting, 0);
        assert waiting.Keys == (waiting - {s.id}).Keys + {s.id};
        StoredSize(rest, waiting - {s.id});
      } else {
        StoredSize(rest, waiting);
      }
    }
  }

  /** Freed slots are requests that wait no longer. */
  lemma Freed(table: seq<Slot>, waiting: map<nat, Entry>, table': seq<Slot>, gone: set<nat>)
    requires Stored(table, waiting) && |table'| == |table|
    requires forall i | 0 <= i < |table| ::
      table'[i] == if Live(table[i]) && table[i].id in gone then table[i].(id := 0) else table[i]
    ensures Stored(table', waiting - gone)
  {
    forall id: nat, deadline: Tick, handler: Handler | id != 0
      ensures Slot(id, deadline, handler) in table' <==> Slot(id, deadline, handler) in table && id !in gone
    {
      var s := Slot(id, deadline, handler);
      if s in table {
        var i :| 0 <= i < |table| && table[i] == s;
        assert table'[i] == if id in gone then s.(id := 0) else s;
      }
      if s in table' {
        var i :| 0 <= i < |table'| && table'[i] == s;
        assert Live(table'[i]) && table[i] == s && id !in gone;
      }
    }
  }

  /** A free slot is filled. */
  lemma Filled(table: seq<Slot>, waiting: map<nat, Entry>, i: nat, s: Slot)
    requires Stored(table, waiting) && i < |table| && !Live(table[i]) && Live(s) && s.id !in waiting
    ensures Stored(table[i := s], waiting[s.id := Entry(s.deadline, s.handler)])
  {
    forall x: Slot | Live(x) ensures x in table[i := s] <==> x in table || x == s {
      if x in table {
        var k :| 0 <= k < |table| && table[k] == x;
        assert table[i := s][k] == x;
      }
      assert table[i := s][i] == s;
    }
    forall id: nat, deadline: Tick, handler: Handler | id != 0
      ensures Slot(id, deadline, handler) in table[i := s] <==>
              Slot(id, deadline, handler) in table || Slot(id, deadline, handler) == s
    {
      assert Live(Slot(id, deadline, handler));
    }
  }

  lemma ToldOnce(fired: seq<Firing>, outcome: map<Handler, nat>, f: Firing)
    requires Told(fired, outcome) && f.handler !in outcome
    ensures Told(fired + [f], outcome[f.handler := f.status])
  {
    forall h: Handler, status: nat
      ensures Firing(h, status) in fired + [f] <==> Firing(h, status) in fired || Firing(h, status) == f
    {
    }
  }

  lemma {:induction false} TimeoutsAre(table: seq<Slot>, waiting: map<nat, Entry>, now: Tick, f: Firing)
    requires Stored(table, waiting)
    ensures f in Timeouts(table, now) <==> f.status == STATUS_TIMEOUT && f.handler in DueHandlers(waiting, now)
  {
    InTimeouts(table, now, f);
    if i :| 0 <= i < |table| && Due(table[i], now) && table[i].handler == f.handler {
      StoredAt(table, waiting, i);
      assert Expired(waiting[table[i].id], now);
    }
    if id :| id in waiting && Expired(waiting[id], now) && waiting[id].handler == f.handler {
      StoredOf(table, waiting, id);
      var i :| 0 <= i < |table| && table[i] == Slot(id, waiting[id].deadline, waiting[id].handler);
      assert Due(table[i], now);
    }
  }

  lemma {:induction false} InTimeouts(table: seq<Slot>, now: Tick, f: Firing)
    ensures f in Timeouts(table, now) <==>
            f.status == STATUS_TIMEOUT &&
            exists i :: 0 <= i < |table| && Due(table[i], now) && table[i].handler == f.handler
  {
    if table != [] {
      var front, last := table[..|table| - 1], table[|table| - 1];
      InTimeouts(front, now, f);
      assert forall i | 0 <= i < |front| :: front[i] == table[i];
    }
  }

  lemma ToldTimeouts(table: seq<Slot>, waiting: map<nat, Entry>, now: Tick, fired: seq<Firing>, m: Requests)
    requires Stored(table, m.waiting) && Told(fired, m.outcome) && Orderly(m) && m.connected
    ensures Told(fired + Timeouts(table, now), Do(m, Timers(now)).outcome)
  {
    hide Stored, Timeouts;
    forall h: Handler, status: nat
      ensures Firing(h, status) in fired + Timeouts(table, now) <==>
              Firing(h, status) in fired || (status == STATUS_TIMEOUT && h in DueHandlers(m.waiting, now))
    {
      TimeoutsAre(table, m.waiting, now, Firing(h, status));
    }
  }

  /** The state of `blynk_private_t` for one connection. */
  class Connection {
    const parser: BlynkParser
    const table: AwaitingTable
    var connected: bool
    ghost var requests: Requests

    ghost predicate Valid()
      reads this, parser, table, table.awaiting
    {
      && parser.Valid() && table.Valid() && Orderly(requests)
      && requests.connected == connected && requests.nextId == table.nextId && requests.nextHandler == table.nextHandler
      && Stored(table.awaiting[..], requests.waiting) && Told(table.fired, requests.outcome)
    }

    /** The reset at the start of `blynk_loop`. */
    constructor ()
      ensures Valid() && fresh(parser) && fresh(table) && fresh(parser.payload) && fresh(table.awaiting)
      ensures requests == Requests(true, 1, 0, map[], map[]) && parser.State().mode == Cmd && table.fired == []
    {
      parser := new BlynkParser();
      table := new AwaitingTable();
      connected, requests := true, Requests(true, 1, 0, map[], map[]);
      new;
      assert Accounted(table.awaiting[..], 0, {}, []);
    }

    /** `handle_message`, as far as responses go. */
    method HandleMessage(f: Frame)
      requires Valid() && connected
      modifies this`requests, table`fired, table.awaiting
      ensures Valid() && connected && requests == DoAll(old(requests), Answers([f]))
    {
      hide Orderly, Stored, Told, Do;
      OneAction(requests, Answer(f.id, f.len));
      if f.command == CMD_RESPONSE {
        ghost var slots, fired, m := table.awaiting[..], table.fired, requests;
        table.HandleResponse(f.id, f.len);
        Answered(slots, table.awaiting[..], fired, table.fired, m, f.id, f.len);
        requests := Do(m, Answer(f.id, f.len));
        DoOrderly(m, Answer(f.id, f.len));
      }
    }

    /** What was read from the socket, byte by byte; every message is handled as it is complete. */
    method Receive(data: bytes)
      requires Valid() && connected
      modifies this`requests, parser, parser.payload, table`fired, table.awaiting
      ensures Valid() && connected
      ensures parser.State() == Run(old(parser.State()), data).0
      ensures requests == DoAll(old(requests), Answers(Run(old(parser.State()), data).1))
    {
      hide Orderly, Stored, Told, Do, Step;
      ghost var whole := Run(parser.State(), data);
      ghost var end := DoAll(requests, Answers(whole.1));
      assert data[0..] == data;
      for i := 0 to |data|
        invariant Valid() && connected && table.awaiting == old(table.awaiting)
        invariant Run(parser.State(), data[i..]).0 == whole.0
        invariant DoAll(requests, Answers(Run(parser.State(), data[i..]).1)) == end
      {
        assert data[i..][0] == data[i] && data[i..][1..] == data[i + 1..];
        ghost var m, out := requests, Step(parser.State(), data[i]).1;
        ghost var rest := Run(Step(parser.State(), data[i]).0, data[i + 1..]).1;
        AnswersConcat(out, rest);
        DoAllConcat(m, Answers(out), Answers(rest));
        OneAtMost(parser.State(), data[i]);
        var handled := |parser.delivered|;
        parser.Parse(data[i]);
        if |parser.delivered| > handled {
          assert out == [parser.delivered[handled]];
          HandleMessage(parser.delivered[handled]);
        }
      }
    }

    /** A request from the queue gets its id. Without a free slot for its handler the connection ends. */
    method TakeRequest(deadline: Tick, hasHandler: bool)
      requires Valid() && connected && table.nextId < 0xFFFF
      modifies this, table, table.awaiting
      ensures Valid() && table.awaiting == old(table.awaiting) && table.nextId == old(table.nextId) + 1
      ensures requests == Do(old(requests), Request(deadline, hasHandler))
    {
      hide Accounted, Told, Stored, Orderly, LiveSlots;
      ghost var slots, m := table.awaiting[..], requests;
      StoredSize(slots, m.waiting);
      NewIdIsFree(m);
      var id := table.GetId(deadline, hasHandler);
      if id == 0 {
        connected := false;
      }
      requests := Do(m, Request(deadline, hasHandler));
      DoOrderly(m, Request(deadline, hasHandler));
      if id != 0 && hasHandler {
        ghost var slot := Slot(id, deadline, m.nextHandler);
        ghost var i :| 0 <= i < SLOTS && !Live(slots[i]) && table.awaiting[..] == slots[i := slot];
        Filled(slots, m.waiting, i, slot);
      }
    }

    /** `handle_timers`. */
    method Tick(now: Tick)
      requires Valid() && connected
      modifies this`requests, table`fired, table.awaiting
      ensures Valid() && connected && requests == Do(old(requests), Timers(now))
    {
      hide Orderly, Stored, Told, Accounted;
      ghost var slots, fired, m := table.awaiting[..], table.fired, requests;
      table.HandleTimers(now);
      ToldTimeouts(slots, m.waiting, now, fired, m);
      TimersFree(slots, table.awaiting[..], m.waiting, now);
      requests := Do(m, Timers(now));
      DoOrderly(m, Timers(now));
    }

    /** Any run of events: the table of slots and the parser do what the map of requests does, and no handler is called
        twice. If the connection lasts, every request that waited at first has met its fate. */
    method RunEvents(events: seq<Event>)
      requires Valid() && connected && table.nextId + |events| <= 0xFFFF
      modifies this, parser, parser.payload, table, table.awaiting
      ensures Valid() && requests == DoAll(old(requests), Actions(old(parser.State()), events))
      ensures forall i, j | 0 <= i < j < |table.fired| :: table.fired[i].handler != table.fired[j].handler
      ensures connected ==>
                var actions := Actions(old(parser.State()), events);
                forall id | id in old(requests).waiting ::
                  var e := old(requests).waiting[id];
                  CalledWith(table.fired, e, Fate(actions, id, e.deadline))
    {
      hide Do, Orderly, Stored, Told, Run, Fate, CalledWith;
      ghost var actions := Actions(parser.State(), events);
      ghost var end := DoAll(requests, Actions(parser.State(), events));
      assert events[0..] == events;
      var i := 0;
      while i < |events| && connected
        invariant 0 <= i <= |events| && Valid() && table.awaiting == old(table.awaiting)
        invariant connected ==> table.nextId + (|events| - i) <= 0xFFFF
        invariant connected ==> DoAll(requests, Actions(parser.State(), events[i..])) == end
        invariant !connected ==> requests == end
      {
        ghost var p, m, rest := parser.State(), requests, events[i + 1..];
        assert events[i..][0] == events[i] && events[i..][1..] == rest;
        match events[i] {
          case Received(data) =>
            DoAllConcat(m, Answers(Run(p, data).1), Actions(Run(p, data).0, rest));
            Receive(data);
          case Requested(deadline, hasHandler) =>
            FirstOf(m, Request(deadline, hasHandler), Actions(p, rest));
            TakeRequest(deadline, hasHandler);
            Ended(requests, Actions(p, rest));
          case Ticked(now) =>
            FirstOf(m, Timers(now), Actions(p, rest));
            Tick(now);
        }
        i := i + 1;
      }
      forall i, j | 0 <= i < j < |table.fired| ensures table.fired[i].handler != table.fired[j].handler {
        AtMostOnce(table.awaiting[..], table.nextHandler, table.refused, table.fired, i, j);
      }
      if connected {
        forall id | id in old(requests).waiting
          ensures
            var e := old(requests).waiting[id];
            CalledWith(table.fired, e, Fate(actions, id, e.deadline))
        {
          CalledAsFated(old(requests), actions, id, table.fired);
        }
      }
    }
  }

  /** The handler of `e` was called with this status and no other, or not at all. */
  ghost predicate CalledWith(fired: seq<Firing>, e: Entry, fate: Option<nat>) {
    forall status: nat :: Firing(e.handler, status) in fired <==> fate == Some(status)
  }

  lemma CalledAsFated(m: Requests, actions: seq<Action>, id: nat, fired: seq<Firing>)
    requires Orderly(m) && id in m.waiting && DoAll(m, actions).connected && Told(fired, DoAll(m, actions).outcome)
    ensures CalledWith(fired, m.waiting[id], Fate(actions, id, m.waiting[id].deadline))
  {
    hide Orderly, Fate;
    EachMeetsItsFate(m, actions, id);
  }

  lemma OneAction(m: Requests, a: Action)
    ensures DoAll(m, [a]) == Do(m, a) && DoAll(m, []) == m
  {
    assert [a][1..] == [];
  }

  /** Nothing happens once the connection has ended. */
  lemma {:induction false} Ended(m: Requests, actions: seq<Action>)
    ensures !m.connected ==> DoAll(m, actions) == m
    decreases |actions|
  {
    if actions != [] {
      Ended(m, actions[1..]);
    }
  }

  lemma OneAtMost(p: Parser, d: byte)
    requires |p.payload| == MAX_PAYLOAD
    ensures |Step(p, d).1| <= 1
  {
  }

  /** A response frees the slot with its id, if there is one, and calls its handler. */
  lemma Answered(slots: seq<Slot>, slots': seq<Slot>, fired: seq<Firing>, fired': seq<Firing>, m: Requests, id: nat,
                 status: nat)
    requires m.connected && Orderly(m) && Stored(slots, m.waiting) && Told(fired, m.outcome) && |slots'| == |slots|
    requires forall i | 0 <= i < |slots| ::
      slots'[i] == if Live(slots[i]) && slots[i].id == id then slots[i].(id := 0) else slots[i]
    requires forall i | 0 <= i < |slots| && Live(slots[i]) && slots[i].id == id ::
      fired' == fired + [Firing(slots[i].handler, status)]
    requires (forall i | 0 <= i < |slots| && Live(slots[i]) :: slots[i].id != id) ==> fired' == fired
    ensures
      var n := Do(m, Answer(id, status));
      Stored(slots', n.waiting) && Told(fired', n.outcome) && n == m.(waiting := n.waiting, outcome := n.outcome)
  {
    hide Stored, Told;
    Freed(slots, m.waiting, slots', {id});
    if id in m.waiting {
      StoredOf(slots, m.waiting, id);
      var i :| 0 <= i < |slots| && slots[i] == Slot(id, m.waiting[id].deadline, m.waiting[id].handler);
      ToldOnce(fired, m.outcome, Firing(m.waiting[id].handler, status));
    } else {
      forall i | 0 <= i < |slots| && Live(slots[i]) ensures slots[i].id != id {
        StoredAt(slots, m.waiting, i);
      }
      assert m.waiting - {id} == m.waiting;
    }
  }

  lemma TimersFree(slots: seq<Slot>, slots': seq<Slot>, waiting: map<nat, Entry>, now: Tick)
    requires Stored(slots, waiting) && |slots'| == |slots|
    requires forall i | 0 <= i < |slots| ::
      slots'[i] == if Due(slots[i], now) then slots[i].(id := 0) else slots[i]
    ensures Stored(slots', waiting - DueIds(waiting, now))
  {
    hide Stored;
    forall i | 0 <= i < |slots| && Live(slots[i])
      ensures Due(slots[i], now) <==> slots[i].id in DueIds(waiting, now)
    {
      StoredAt(slots, waiting, i);
    }
    Freed(slots, waiting, slots', DueIds(waiting, now));
  }
}
