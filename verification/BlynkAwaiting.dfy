/** Blynk's table of awaited responses (blynk_iot.c:241-273, 495-518, 665-669, 745-769, 861-864): every registered handler
    fires at most once, by response or by timeout.

    The clock is read by the caller. Handlers do not touch the table. Runs end before the id counter reaches 0xFFFF, where
    the code overwrites the table. */
module BlynkAwaiting {
  /** BLYNK_MAX_AWAITING */
  const SLOTS: nat := 32
  const TICK_LIMIT: int := 0x1_0000_0000
  const STATUS_TIMEOUT: nat := 0xFFFF

  // ---------- ticks ----------

  type Tick = t: nat | t < TICK_LIMIT

  /** `(int32_t) x` for an unsigned 32-bit `x`. */
  function AsInt32(x: int): (r: int)
    requires 0 <= x < TICK_LIMIT
    ensures -0x8000_0000 <= r < 0x8000_0000
  {
    if x < 0x8000_0000 then x else x - TICK_LIMIT
  }

  predicate TimerExpired(deadline: Tick, now: Tick) {
    AsInt32((deadline - now) % TICK_LIMIT) <= 0
  }

  /** Against a clock that never wraps, `timerExpired` is right for every deadline less than 2^31 ticks ahead or at most
      2^31 ticks past. */
  lemma TimerAgrees(deadline: nat, now: nat)
    requires -0x8000_0000 <= deadline - now < 0x8000_0000
    ensures TimerExpired(deadline % TICK_LIMIT, now % TICK_LIMIT) <==> deadline <= now
  {
    WrappedDifference(deadline, now);
  }

  lemma WrappedDifference(a: nat, b: nat)
    ensures (a % TICK_LIMIT - b % TICK_LIMIT) % TICK_LIMIT == (a - b) % TICK_LIMIT
  {
    assert a == a / TICK_LIMIT * TICK_LIMIT + a % TICK_LIMIT;
    assert b == b / TICK_LIMIT * TICK_LIMIT + b % TICK_LIMIT;
  }

  /** In general it is right exactly when the deadline, reduced to the 2^32 ticks around now, keeps its side. */
  lemma TimerAgreesIff(deadline: nat, now: nat)
    ensures
      var d := (deadline - now) % TICK_LIMIT;
      (TimerExpired(deadline % TICK_LIMIT, now % TICK_LIMIT) <==> deadline <= now) <==>
        (if deadline <= now then d == 0 || d >= 0x8000_0000 else 0 < d < 0x8000_0000)
  {
    WrappedDifference(deadline, now);
  }

  // ---------- the table ----------

  /** A registration is known by its number; `data` and the function itself play no part in what is proved. */
  type Handler = nat

  datatype Slot = Slot(id: nat, deadline: Tick, handler: Handler)

  datatype Firing = Firing(handler: Handler, status: nat)

  predicate Live(s: Slot) { s.id != 0 }

  /** Slots in use carry different ids, all below the counter, and different registrations, all made already. */
  predicate TableOk(table: seq<Slot>, nextId: nat, nextHandler: nat) {
    && (forall i | 0 <= i < |table| && Live(table[i]) :: table[i].id < nextId && table[i].handler < nextHandler)
    && (forall i, j | 0 <= i < j < |table| && Live(table[i]) && Live(table[j]) ::
          table[i].id != table[j].id && table[i].handler != table[j].handler)
  }

  function Count(fired: seq<Firing>, h: Handler): nat {
    if fired == [] then 0 else (if fired[|fired| - 1].handler == h then 1 else 0) + Count(fired[..|fired| - 1], h)
  }

  predicate Waiting(table: seq<Slot>, h: Handler) {
    exists i :: 0 <= i < |table| && Live(table[i]) && table[i].handler == h
  }

  lemma CountAppend(fired: seq<Firing>, f: Firing, h: Handler)
    ensures Count(fired + [f], h) == Count(fired, h) + if f.handler == h then 1 else 0
  {
    assert (fired + [f])[..|fired|] == fired;
  }

  function LiveSlots(table: seq<Slot>): nat {
    if table == [] then 0 else (if Live(table[0]) then 1 else 0) + LiveSlots(table[1..])
  }

  lemma {:induction false} NoneLive(table: seq<Slot>)
    requires forall i | 0 <= i < |table| :: !Live(table[i])
    ensures LiveSlots(table) == 0
  {
    if table != [] {
      NoneLive(table[1..]);
    }
  }

  lemma {:induction false} LiveSlotsUpdate(table: seq<Slot>, i: nat, s: Slot)
    requires i < |table|
    ensures LiveSlots(table[i := s]) ==
            LiveSlots(table) - (if Live(table[i]) then 1 else 0) + if Live(s) then 1 else 0
  {
    if i == 0 {
      assert table[i := s][1..] == table[1..];
    } else {
      assert table[i := s][1..] == table[1..][i - 1 := s];
      LiveSlotsUpdate(table[1..], i - 1, s);
    }
  }

  /** Every registration so far is in exactly one place: it waits in one slot, it has fired exactly once, or there was no
      room for it. Nothing else has fired, and the numbers add up. */
  ghost predicate Accounted(table: seq<Slot>, nextHandler: nat, refused: set<Handler>, fired: seq<Firing>) {
    && (forall h | 0 <= h < nextHandler ::
          Count(fired, h) == if Waiting(table, h) || h in refused then 0 else 1)
    && (forall h | h >= nextHandler :: Count(fired, h) == 0 && h !in refused)
    && (forall h | h in refused :: !Waiting(table, h))
    && nextHandler == LiveSlots(table) + |fired| + |refused|
  }

  /** Filling a free slot with the next registration. */
  lemma RegisterKeeps(table: seq<Slot>, nextId: nat, nextHandler: nat, refused: set<Handler>, fired: seq<Firing>,
                      i: nat, deadline: Tick)
    requires TableOk(table, nextId, nextHandler) && Accounted(table, nextHandler, refused, fired)
    requires i < |table| && !Live(table[i]) && nextId > 0
    ensures
      var table' := table[i := Slot(nextId, deadline, nextHandler)];
      TableOk(table', nextId + 1, nextHandler + 1) && Accounted(table', nextHandler + 1, refused, fired)
  {
    var table' := table[i := Slot(nextId, deadline, nextHandler)];
    LiveSlotsUpdate(table, i, table'[i]);
    forall h: Handler ensures Waiting(table', h) <==> Waiting(table, h) || h == nextHandler {
      if Waiting(table, h) {
        var k :| 0 <= k < |table| && Live(table[k]) && table[k].handler == h;
        assert Live(table'[k]) && table'[k].handler == h;
      }
      if h == nextHandler {
        assert Live(table'[i]) && table'[i].handler == h;
      }
      if Waiting(table', h) {
        var k :| 0 <= k < |table'| && Live(table'[k]) && table'[k].handler == h;
        assert k != i ==> Live(table[k]) && table[k].handler == h;
      }
    }
    assert Count(fired, nextHandler) == 0;
  }

  /** A full table: the registration is refused. */
  lemma RefuseKeeps(table: seq<Slot>, nextId: nat, nextHandler: nat, refused: set<Handler>, fired: seq<Firing>)
    requires TableOk(table, nextId, nextHandler) && Accounted(table, nextHandler, refused, fired)
    ensures TableOk(table, nextId + 1, nextHandler + 1)
    ensures Accounted(table, nextHandler + 1, refused + {nextHandler}, fired)
  {
    assert Count(fired, nextHandler) == 0;
    assert nextHandler !in refused;
    assert !Waiting(table, nextHandler);
  }

  /** Calling the handler of a live slot and freeing the slot. */
  lemma FireKeeps(table: seq<Slot>, nextId: nat, nextHandler: nat, refused: set<Handler>, fired: seq<Firing>,
                  i: nat, status: nat)
    requires TableOk(table, nextId, nextHandler) && Accounted(table, nextHandler, refused, fired)
    requires i < |table| && Live(table[i])
    ensures
      var table' := table[i := table[i].(id := 0)];
      && TableOk(table', nextId, nextHandler)
      && Accounted(table', nextHandler, refused, fired + [Firing(table[i].handler, status)])
  {
    var table', f := table[i := table[i].(id := 0)], Firing(table[i].handler, status);
    LiveSlotsUpdate(table, i, table'[i]);
    assert Waiting(table, f.handler);
    forall h: Handler ensures Waiting(table', h) <==> Waiting(table, h) && h != f.handler {
      if Waiting(table', h) {
        var k :| 0 <= k < |table'| && Live(table'[k]) && table'[k].handler == h;
        assert k != i && Live(table[k]) && table[k].handler == h;
      }
      if Waiting(table, h) && h != f.handler {
        var k :| 0 <= k < |table| && Live(table[k]) && table[k].handler == h;
        assert Live(table'[k]) && table'[k].handler == h;
      }
    }
    forall h: Handler ensures Count(fired + [f], h) == Count(fired, h) + if h == f.handler then 1 else 0 {
      CountAppend(fired, f, h);
    }
  }

  /** In an accounted state no handler has fired twice, and none that still waits has fired at all. */
  lemma AtMostOnce(table: seq<Slot>, nextHandler: nat, refused: set<Handler>, fired: seq<Firing>, i: nat, j: nat)
    requires Accounted(table, nextHandler, refused, fired) && i < j < |fired|
    ensures fired[i].handler != fired[j].handler && !Waiting(table, fired[i].handler)
  {
    if fired[i].handler == fired[j].handler {
      CountTwice(fired, i, j);
    }
    CountOnce(fired, i);
  }

  lemma {:induction false} CountOnce(fired: seq<Firing>, i: nat)
    requires i < |fired|
    ensures Count(fired, fired[i].handler) >= 1
  {
    if i < |fired| - 1 {
      CountOnce(fired[..|fired| - 1], i);
    }
  }

  lemma {:induction false} CountTwice(fired: seq<Firing>, i: nat, j: nat)
    requires i < j < |fired| && fired[i].handler == fired[j].handler
    ensures Count(fired, fired[i].handler) >= 2
  {
    if j < |fired| - 1 {
      CountTwice(fired[..|fired| - 1], i, j);
    } else {
      CountOnce(fired[..|fired| - 1], i);
    }
  }

  class AwaitingTable {
    var nextId: nat
    var awaiting: array<Slot>
    /** The next registration number, the registrations the table had no room for, and the handlers called. */
    var nextHandler: nat
    ghost var refused: set<Handler>
    ghost var fired: seq<Firing>

    ghost predicate Shape()
      reads this, awaiting
    {
      awaiting.Length == SLOTS && 1 <= nextId && TableOk(awaiting[..], nextId, nextHandler)
    }

    ghost predicate Valid()
      reads this, awaiting
    {
      Shape() && Accounted(awaiting[..], nextHandler, refused, fired)
    }

    /** The reset at the start of a connection. */
    constructor ()
      ensures Valid() && nextId == 1 && fired == [] && nextHandler == 0 && refused == {}
      ensures fresh(awaiting) && awaiting.Length == 32
    {
      nextId, nextHandler, refused, fired := 1, 0, {}, [];
      awaiting := new Slot[SLOTS](_ => Slot(0, 0, 0));
      new;
      NoneLive(awaiting[..]);
    }

    /** `get_id`: a new id, and, with a handler, a slot that waits for it. Without a free slot the result is zero. */
    method GetId(deadline: Tick, hasHandler: bool) returns (id: nat)
      requires Valid() && nextId < 0xFFFF
      modifies this, awaiting
      ensures Valid() && awaiting == old(awaiting) && nextId == old(nextId) + 1 && fired == old(fired)
      ensures !hasHandler ==> id == old(nextId) && nextHandler == old(nextHandler) && awaiting[..] == old(awaiting[..])
      ensures hasHandler ==> nextHandler == old(nextHandler) + 1
      ensures hasHandler ==>
                if forall i | 0 <= i < SLOTS :: Live(old(awaiting[i]))
                then id == 0 && awaiting[..] == old(awaiting[..]) && refused == old(refused) + {old(nextHandler)}
                else id == old(nextId) && refused == old(refused) &&
                     exists i :: 0 <= i < SLOTS && !Live(old(awaiting[i])) &&
                       awaiting[..] == old(awaiting[..])[i := Slot(id, deadline, old(nextHandler))]
    {
      hide Accounted;
      id := nextId;
      nextId := nextId + 1;
      if !hasHandler {
        return;
      }
      var handler := nextHandler;
      nextHandler := nextHandler + 1;
      var i := 0;
      while i < SLOTS && awaiting[i].id != 0
        invariant 0 <= i <= SLOTS && forall k | 0 <= k < i :: Live(awaiting[k])
      {
        i := i + 1;
      }
      ghost var table := awaiting[..];
      if i < SLOTS {
        RegisterKeeps(table, id, handler, refused, fired, i, deadline);
        awaiting[i] := Slot(id, deadline, handler);
        assert awaiting[..] == table[i := Slot(id, deadline, handler)];
      } else {
        RefuseKeeps(table, id, handler, refused, fired);
        refused := refused + {handler};
        id := 0;
      }
    }

    /** Calls a slot's handler and frees the slot. */
    method Fire(i: nat, status: nat)
      requires Valid() && i < SLOTS && Live(awaiting[i])
      modifies this`fired, awaiting
      ensures Valid() && fired == old(fired) + [Firing(old(awaiting[i].handler), status)]
      ensures awaiting[..] == old(awaiting[..])[i := old(awaiting[i]).(id := 0)]
    {
      ghost var table := awaiting[..];
      FireKeeps(table, nextId, nextHandler, refused, fired, i, status);
      fired := fired + [Firing(awaiting[i].handler, status)];
      awaiting[i] := awaiting[i].(id := 0);
      assert awaiting[..] == table[i := table[i].(id := 0)];
    }

    /** `handle_message` for a response: the one slot with this id, if there is one, fires with the status received. */
    method HandleResponse(id: nat, status: nat)
      requires Valid()
      modifies this`fired, awaiting
      ensures Valid()
      ensures forall i | 0 <= i < SLOTS ::
                awaiting[i] == if Live(old(awaiting[i])) && old(awaiting[i]).id == id then old(awaiting[i]).(id := 0)
                               else old(awaiting[i])
      ensures forall i | 0 <= i < SLOTS && Live(old(awaiting[i])) && old(awaiting[i]).id == id ::
                fired == old(fired) + [Firing(old(awaiting[i]).handler, status)]
      ensures (forall i | 0 <= i < SLOTS && Live(old(awaiting[i])) :: old(awaiting[i]).id != id) ==> fired == old(fired)
    {
      hide Accounted;
      ghost var table := awaiting[..];
      for i := 0 to SLOTS
        modifies this`fired, awaiting
        invariant Valid()
        invariant forall k | i <= k < SLOTS :: awaiting[k] == table[k]
        invariant forall k | 0 <= k < i ::
          awaiting[k] == if Live(table[k]) && table[k].id == id then table[k].(id := 0) else table[k]
        invariant forall k | 0 <= k < i && Live(table[k]) && table[k].id == id ::
          fired == old(fired) + [Firing(table[k].handler, status)]
        invariant (forall k | 0 <= k < i && Live(table[k]) :: table[k].id != id) ==> fired == old(fired)
      {
        if awaiting[i].id != 0 && awaiting[i].id == id {
          assert table[i] == awaiting[i];
          Fire(i, status);
        }
      }
    }

    /** `handle_timers`: exactly the slots whose deadline is set and has expired fire, each with the timeout status. */
    method HandleTimers(now: Tick)
      requires Valid()
      modifies this`fired, awaiting
      ensures Valid()
      ensures forall i | 0 <= i < SLOTS ::
                awaiting[i] == if Due(old(awaiting[i]), now) then old(awaiting[i]).(id := 0) else old(awaiting[i])
      ensures fired == old(fired) + Timeouts(old(awaiting[..]), now)
    {
      hide Accounted, TableOk, Timeouts;
      NoTimeouts(awaiting[..], now);
      ghost var table := awaiting[..];
      for i := 0 to SLOTS
        modifies this`fired, awaiting
        invariant Valid()
        invariant forall k | i <= k < SLOTS :: awaiting[k] == table[k]
        invariant forall k | 0 <= k < i ::
          awaiting[k] == if Due(table[k], now) then table[k].(id := 0) else table[k]
        invariant fired == old(fired) + Timeouts(table[..i], now)
      {
        assert awaiting[i] == table[i];
        OneMoreSlot(table, i, now);
        if awaiting[i].id != 0 && awaiting[i].deadline != 0 && TimerExpired(awaiting[i].deadline, now) {
          Fire(i, STATUS_TIMEOUT);
        }
      }
      assert table[..SLOTS] == table;
    }
  }

  lemma NoTimeouts(table: seq<Slot>, now: Tick)
    ensures Timeouts(table[..0], now) == []
  {
  }

  lemma OneMoreSlot(table: seq<Slot>, i: nat, now: Tick)
    requires i < |table|
    ensures Timeouts(table[..i + 1], now) ==
            Timeouts(table[..i], now) + if Due(table[i], now) then [Firing(table[i].handler, STATUS_TIMEOUT)] else []
  {
    hide Due;
    assert table[..i + 1][..i] == table[..i];
  }

  predicate Due(s: Slot, now: Tick) {
    Live(s) && s.deadline != 0 && TimerExpired(s.deadline, now)
  }

  /** The handlers of the slots that are due, in the order of the slots. */
  function Timeouts(table: seq<Slot>, now: Tick): seq<Firing> {
    if table == [] then []
    else
      var last := table[|table| - 1];
      Timeouts(table[..|table| - 1], now) + if Due(last, now) then [Firing(last.handler, STATUS_TIMEOUT)] else []
  }
}
