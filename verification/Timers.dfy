/** A timer's list of events and the dispatch loop that puts periodic events back. Handlers do not touch the timer. */
module Timers {

  /** `id` stands for the handler and its parameter. A one-shot event has period 0. */
  datatype Event = Event(id: nat, periodic: bool, period: nat, timePoint: nat) {
    function Again(): Event { this.(timePoint := timePoint + period) }
  }

  predicate WellFormed(e: Event) {
    if e.periodic then e.period > 0 else e.period == 0
  }

  ghost predicate AllWellFormed(list: seq<Event>) {
    forall i {:trigger list[i]} :: 0 <= i < |list| ==> WellFormed(list[i])
  }

  ghost predicate AllPeriodic(list: seq<Event>) {
    forall i {:trigger list[i]} :: 0 <= i < |list| ==> list[i].periodic && list[i].period > 0
  }

  predicate Due(e: Event, now: nat) {
    e.timePoint <= now
  }

  ghost predicate NoneDue(list: seq<Event>, now: nat) {
    forall i {:trigger list[i]} :: 0 <= i < |list| ==> !Due(list[i], now)
  }

  // ---------------------------------------------------------------------------------------------
  // The list
  // ---------------------------------------------------------------------------------------------

  /** Insertion: in front of a later first event, behind an earlier or equal last one, and otherwise right behind the
      first event: the search for the place compares with the first event, which is not later, and stops there. */
  function Insert(list: seq<Event>, e: Event): seq<Event> {
    if list == [] then [e]
    else if e.timePoint < list[0].timePoint then [e] + list
    else if list[|list| - 1].timePoint <= e.timePoint then list + [e]
    else [list[0], e] + list[1..]
  }

  ghost predicate Sorted(list: seq<Event>) {
    forall i, j {:trigger list[i], list[j]} :: 0 <= i < j < |list| ==> list[i].timePoint <= list[j].timePoint
  }

  lemma InsertContents(list: seq<Event>, e: Event)
    ensures multiset(Insert(list, e)) == multiset(list) + multiset{e} && |Insert(list, e)| == |list| + 1
  {
    if list != [] {
      assert list == [list[0]] + list[1..];
    }
  }

  /** The list stays in order exactly when the event belongs in front, at the end, or between the first two. */
  lemma InsertSortedIff(list: seq<Event>, e: Event)
    requires Sorted(list)
    ensures Sorted(Insert(list, e)) <==>
      |list| < 2 || e.timePoint < list[0].timePoint || list[|list| - 1].timePoint <= e.timePoint ||
        e.timePoint <= list[1].timePoint
  {
    var t := Insert(list, e);
    if |list| >= 2 && list[0].timePoint <= e.timePoint < list[|list| - 1].timePoint {
      assert t[1] == e && t[2] == list[1];
      assert forall i {:trigger t[i]} :: 2 <= i < |t| ==> t[i] == list[i - 1];
    }
  }

  lemma InsertShort(list: seq<Event>, e: Event)
    requires Sorted(list) && |list| <= 2
    ensures Sorted(Insert(list, e))
  {
    InsertSortedIff(list, e);
  }

  // ---------------------------------------------------------------------------------------------
  // Sums over the list
  // ---------------------------------------------------------------------------------------------

  /** What an event adds to the timer's usage. */
  function Weight(e: Event): nat {
    if e.periodic then 100 else 1
  }

  function Usage(list: seq<Event>): nat {
    if list == [] then 0 else Weight(list[0]) + Usage(list[1..])
  }

  /** How often an event could at most be dispatched until `now`. */
  function Left(e: Event, now: nat): nat {
    if Due(e, now) then now - e.timePoint + 1 else 0
  }

  function Work(list: seq<Event>, now: nat): nat {
    if list == [] then 0 else Left(list[0], now) + Work(list[1..], now)
  }

  lemma {:induction false} SumsAppend(a: seq<Event>, b: seq<Event>, now: nat)
    ensures Usage(a + b) == Usage(a) + Usage(b) && Work(a + b, now) == Work(a, now) + Work(b, now)
  {
    if a == [] {
      assert a + b == b;
    } else {
      SumsAppend(a[1..], b, now);
      assert (a + b)[1..] == a[1..] + b;
    }
  }

  /** Wherever an event is inserted, it adds its own weight and its own work. */
  lemma InsertSums(list: seq<Event>, e: Event, now: nat)
    ensures Usage(Insert(list, e)) == Usage(list) + Weight(e)
    ensures Work(Insert(list, e), now) == Work(list, now) + Left(e, now)
  {
    assert [e][1..] == [];
    if list == [] {
    } else if e.timePoint < list[0].timePoint {
      SumsAppend([e], list, now);
    } else if list[|list| - 1].timePoint <= e.timePoint {
      SumsAppend(list, [e], now);
    } else {
      var t := Insert(list, e);
      assert t[1..] == [e] + list[1..];
      SumsAppend([e], list[1..], now);
    }
  }

  lemma InsertWellFormed(list: seq<Event>, e: Event)
    requires AllWellFormed(list) && WellFormed(e)
    ensures AllWellFormed(Insert(list, e))
  {
  }

  // ---------------------------------------------------------------------------------------------
  // Dispatching
  // ---------------------------------------------------------------------------------------------

  /** The list after the first event has been dispatched. */
  function AfterFirst(list: seq<Event>): seq<Event>
    requires list != []
  {
    if list[0].periodic then Insert(list[1..], list[0].Again()) else list[1..]
  }

  /** Dispatching takes work away, although a periodic event stays in the list. */
  lemma AfterFirstLess(list: seq<Event>, now: nat)
    requires list != [] && AllWellFormed(list) && Due(list[0], now)
    ensures Work(AfterFirst(list), now) < Work(list, now) && AllWellFormed(AfterFirst(list))
    ensures Usage(AfterFirst(list)) == Usage(list) - (if list[0].periodic then 0 else 1)
  {
    assert WellFormed(list[0]);
    if list[0].periodic {
      InsertSums(list[1..], list[0].Again(), now);
      InsertWellFormed(list[1..], list[0].Again());
    }
  }

  /** The events whose handlers are called, in order, and the list that is left. */
  function Dispatch(list: seq<Event>, now: nat): (seq<Event>, seq<Event>)
    requires AllWellFormed(list)
    decreases Work(list, now)
  {
    if list == [] || !Due(list[0], now) then ([], list)
    else
      AfterFirstLess(list, now);
      var (calls, rest) := Dispatch(AfterFirst(list), now);
      ([list[0]] + calls, rest)
  }

  function Called(list: seq<Event>, now: nat): seq<Event>
    requires AllWellFormed(list)
  {
    Dispatch(list, now).0
  }

  function Remaining(list: seq<Event>, now: nat): seq<Event>
    requires AllWellFormed(list)
  {
    Dispatch(list, now).1
  }

  lemma DispatchStep(list: seq<Event>, now: nat)
    requires AllWellFormed(list) && list != [] && Due(list[0], now)
    ensures AllWellFormed(AfterFirst(list)) && Work(AfterFirst(list), now) < Work(list, now)
    ensures Called(list, now) == [list[0]] + Called(AfterFirst(list), now)
    ensures Remaining(list, now) == Remaining(AfterFirst(list), now)
  {
    AfterFirstLess(list, now);
  }

  lemma {:induction false} DispatchKeeps(list: seq<Event>, now: nat)
    requires AllWellFormed(list)
    ensures var rest := Remaining(list, now); AllWellFormed(rest) && (rest == [] || !Due(rest[0], now))
    decreases Work(list, now)
  {
    if list != [] && Due(list[0], now) {
      DispatchStep(list, now);
      DispatchKeeps(AfterFirst(list), now);
    }
  }

  function Times(list: seq<Event>, id: nat): nat {
    if list == [] then 0 else (if list[0].id == id then 1 else 0) + Times(list[1..], id)
  }

  lemma TimesCons(e: Event, list: seq<Event>, id: nat)
    ensures Times([e] + list, id) == (if e.id == id then 1 else 0) + Times(list, id)
  {
    assert ([e] + list)[1..] == list;
  }

  ghost predicate UniqueIds(list: seq<Event>) {
    forall i, j {:trigger list[i], list[j]} :: 0 <= i < j < |list| ==> list[i].id != list[j].id
  }

  lemma InsertMembers(list: seq<Event>, e: Event)
    ensures forall x {:trigger x in Insert(list, e)} {:trigger x in list} :: x in Insert(list, e) <==>
              x == e || x in list
    ensures UniqueIds(list) && (forall i {:trigger list[i]} :: 0 <= i < |list| ==> list[i].id != e.id) ==>
              UniqueIds(Insert(list, e))
  {
    if list != [] { assert list == [list[0]] + list[1..]; }
  }

  /** An event of the list other than the first is in the list behind it, and has another identity. */
  lemma Behind(list: seq<Event>, e: Event)
    requires UniqueIds(list) && e in list && e != list[0]
    ensures e in list[1..] && e.id != list[0].id
  {
    var i :| 0 <= i < |list| && list[i] == e;
    assert list[1..][i - 1] == e;
  }

  lemma AfterFirstUnique(list: seq<Event>)
    requires UniqueIds(list) && list != []
    ensures UniqueIds(AfterFirst(list))
    ensures forall x {:trigger x in AfterFirst(list)} :: x in AfterFirst(list) <==>
              x in list[1..] || (list[0].periodic && x == list[0].Again())
  {
    InsertMembers(list[1..], list[0].Again());
  }

  /** `k` calls have moved a periodic event on by as many periods, and the last of them was due; a one-shot event was
      called once and is gone, or has not been called and is left. */
  ghost predicate Accounted(e: Event, k: nat, now: nat, rest: seq<Event>) {
    if e.periodic
    then e.(timePoint := e.timePoint + k * e.period) in rest && (k > 0 ==> e.timePoint + (k - 1) * e.period <= now)
    else (k == 1 && Due(e, now) && e !in rest) || (k == 0 && e in rest)
  }

  lemma OneMore(e: Event, k: nat, now: nat, rest: seq<Event>)
    requires e.periodic && Due(e, now) && Accounted(e.Again(), k, now, rest)
    ensures Accounted(e, k + 1, now, rest)
  {
    assert (k + 1) * e.period == k * e.period + e.period;
    assert k > 0 ==> k * e.period == (k - 1) * e.period + e.period;
  }

  lemma {:induction false} EachAccounted(list: seq<Event>, now: nat, e: Event)
    requires AllWellFormed(list) && UniqueIds(list) && e in list
    ensures Accounted(e, Times(Called(list, now), e.id), now, Remaining(list, now))
    decreases Work(list, now)
  {
    if !Due(list[0], now) {
      assert e.(timePoint := e.timePoint + 0 * e.period) == e;
    } else {
      DispatchStep(list, now);
      AfterFirstUnique(list);
      TimesCons(list[0], Called(AfterFirst(list), now), e.id);
      if e != list[0] {
        Behind(list, e);
        EachAccounted(AfterFirst(list), now, e);
      } else if e.periodic {
        EachAccounted(AfterFirst(list), now, e.Again());
        OneMore(e, Times(Called(AfterFirst(list), now), e.id), now, Remaining(list, now));
      } else {
        NotCalled(AfterFirst(list), now, e.id);
      }
    }
  }

  lemma {:induction false} NotCalled(list: seq<Event>, now: nat, id: nat)
    requires AllWellFormed(list) && forall x :: x in list ==> x.id != id
    ensures Times(Called(list, now), id) == 0 && forall x :: x in Remaining(list, now) ==> x.id != id
    decreases Work(list, now)
  {
    if list != [] && Due(list[0], now) {
      DispatchStep(list, now);
      InsertMembers(list[1..], list[0].Again());
      TimesCons(list[0], Called(AfterFirst(list), now), id);
      NotCalled(AfterFirst(list), now, id);
    }
  }

  // ---------------------------------------------------------------------------------------------
  // The loops of the interrupt
  // ---------------------------------------------------------------------------------------------

  /** One turn of the loop that runs in periodic mode: the first event is moved on by its period, which is 0 for a
      one-shot event, and put back. */
  function Turn(list: seq<Event>): seq<Event>
    requires list != []
  {
    Insert(list[1..], list[0].Again())
  }

  /** One pass of either loop, in periodic mode or not. */
  function Next(list: seq<Event>, turning: bool): seq<Event>
    requires list != []
  {
    if turning then Turn(list) else AfterFirst(list)
  }

  /** The list after `n` passes, or when it is empty. */
  function Turns(list: seq<Event>, n: nat, turning: bool): seq<Event>
    decreases n
  {
    if n == 0 || list == [] then list else Turns(Next(list, turning), n - 1, turning)
  }

  predicate Ended(list: seq<Event>, now: nat) {
    list == [] || !Due(list[0], now)
  }

  /** The loop has ended after `n` passes. */
  predicate EndedAfter(list: seq<Event>, now: nat, turning: bool, n: nat) {
    Ended(Turns(list, n, turning), now)
  }

  /** The event is put back as it was. */
  predicate Stays(e: Event, turning: bool) {
    e.period == 0 && (e.periodic || turning)
  }

  lemma PassLess(list: seq<Event>, now: nat, turning: bool)
    requires list != [] && Due(list[0], now)
    ensures if Stays(list[0], turning) then Work(Next(list, turning), now) == Work(list, now)
            else Work(Next(list, turning), now) < Work(list, now)
    ensures Usage(Next(list, turning)) == Usage(list) - (if list[0].periodic || turning then 0 else 1)
  {
    InsertSums(list[1..], list[0].Again(), now);
  }

  /** The index of the first event that does not stay, or the length of the list. */
  function FirstMoving(list: seq<Event>, turning: bool): (k: nat)
    ensures k <= |list| && (k < |list| ==> !Stays(list[k], turning))
    ensures forall i {:trigger list[i]} :: 0 <= i < k ==> Stays(list[i], turning)
  {
    if list == [] || !Stays(list[0], turning) then 0 else 1 + FirstMoving(list[1..], turning)
  }

  lemma FirstMovingIs(list: seq<Event>, k: nat, turning: bool)
    requires k < |list| && !Stays(list[k], turning)
    requires forall i {:trigger list[i]} :: 0 <= i < k ==> Stays(list[i], turning)
    ensures FirstMoving(list, turning) == k
  {
    if k > 0 {
      FirstMovingIs(list[1..], k - 1, turning);
    }
  }

  /** The events that stay, in front of the first one that does not, let it come to the front: the last of them is not
      earlier, and the others have one common time, as late as any at the end of the list. */
  predicate Yields(list: seq<Event>, turning: bool)
    requires list != []
  {
    var k := FirstMoving(list, turning);
    && 1 <= k < |list|
    && list[k].timePoint <= list[k - 1].timePoint
    && (k >= 2 ==>
          && list[|list| - 1].timePoint <= list[0].timePoint
          && list[k - 1].timePoint <= list[0].timePoint
          && forall i {:trigger list[i]} :: 0 <= i < k - 1 ==> list[i].timePoint == list[0].timePoint)
  }

  lemma YieldsNext(list: seq<Event>, turning: bool)
    requires list != [] && Yields(list, turning)
    ensures FirstMoving(Next(list, turning), turning) == FirstMoving(list, turning) - 1
    ensures FirstMoving(list, turning) >= 2 ==> Yields(Next(list, turning), turning)
  {
    var k, t := FirstMoving(list, turning), Next(list, turning);
    assert Stays(list[0], turning) && list[0].Again() == list[0];
    if k == 1 {
      assert t[0] == list[1];
      FirstMovingIs(t, 0, turning);
    } else {
      assert t == list[1..] + [list[0]];
      FirstMovingIs(t, k - 1, turning);
    }
  }

  lemma YieldsBefore(list: seq<Event>, t: seq<Event>, k: nat, turning: bool)
    requires |list| >= 2 && Stays(list[0], turning) && t == list[1..] + [list[0]]
    requires k == FirstMoving(t, turning) && Yields(t, turning)
    requires list[|list| - 1].timePoint <= list[0].timePoint && list[1].timePoint <= list[0].timePoint
    ensures Yields(list, turning)
  {
    assert forall i {:trigger list[i]} :: 1 <= i < |list| ==> list[i] == t[i - 1];
    FirstMovingIs(list, k + 1, turning);
  }

  lemma NextAtFront(list: seq<Event>, turning: bool)
    requires |list| >= 2 && Stays(list[0], turning) && list[1].timePoint <= list[0].timePoint
    ensures Next(list, turning) != [] && Next(list, turning)[0] == list[1]
    ensures !Stays(list[1], turning) ==> Yields(list, turning)
    ensures Yields(Next(list, turning), turning) ==> Yields(list, turning)
  {
    var c, t := list[0], Next(list, turning);
    assert c.Again() == c;
    if !Stays(list[1], turning) {
      FirstMovingIs(list, 1, turning);
    } else if list[|list| - 1].timePoint <= c.timePoint {
      assert t == list[1..] + [c];
      if Yields(t, turning) { YieldsBefore(list, t, FirstMoving(t, turning), turning); }
    } else {
      assert t == [list[1], c] + list[2..];
    }
  }

  /** Where they do not, events that stay are at the front for ever. */
  lemma TrappedNext(list: seq<Event>, now: nat, turning: bool)
    requires list != [] && Stays(list[0], turning) && Due(list[0], now) && !Yields(list, turning)
    ensures var t := Next(list, turning); t != [] && Stays(t[0], turning) && Due(t[0], now) && !Yields(t, turning)
  {
    if |list| >= 2 && list[1].timePoint <= list[0].timePoint {
      NextAtFront(list, turning);
    } else {
      assert list[0].Again() == list[0] && Next(list, turning) == list;
    }
  }

  /** Guard by guard, the loop comes to an end. */
  predicate Escapes(list: seq<Event>, now: nat, turning: bool)
    decreases Work(list, now), FirstMoving(list, turning)
  {
    if Ended(list, now) then true
    else
      PassLess(list, now, turning);
      if !Stays(list[0], turning) then Escapes(Next(list, turning), now, turning)
      else Yields(list, turning) && (YieldsNext(list, turning); Escapes(Next(list, turning), now, turning))
  }

  lemma {:induction false} EscapesEnds(list: seq<Event>, now: nat, turning: bool) returns (n: nat)
    requires Escapes(list, now, turning)
    ensures EndedAfter(list, now, turning, n)
    decreases Work(list, now), FirstMoving(list, turning)
  {
    if Ended(list, now) {
      n := 0;
    } else {
      PassLess(list, now, turning);
      if Stays(list[0], turning) { YieldsNext(list, turning); }
      n := EscapesEnds(Next(list, turning), now, turning);
      n := n + 1;
    }
  }

  lemma {:induction false} TrappedForever(list: seq<Event>, now: nat, n: nat, turning: bool)
    requires !Escapes(list, now, turning)
    ensures !EndedAfter(list, now, turning, n)
    decreases n
  {
    if n > 0 {
      PassLess(list, now, turning);
      if Stays(list[0], turning) && !Yields(list, turning) { TrappedNext(list, now, turning); }
      TrappedForever(Next(list, turning), now, n - 1, turning);
    }
  }

  /** Either loop ends, for any list and any periods, exactly when its guards let it. */
  lemma LoopEndsIff(list: seq<Event>, now: nat, turning: bool)
    ensures (exists n :: EndedAfter(list, now, turning, n)) <==> Escapes(list, now, turning)
  {
    if Escapes(list, now, turning) {
      var n := EscapesEnds(list, now, turning);
    } else {
      forall n ensures !EndedAfter(list, now, turning, n) { TrappedForever(list, now, n, turning); }
    }
  }

  /** So a period of zero hangs the interrupt, as soon as its event is due and earlier than the next, or alone. */
  lemma ZeroPeriodHangs(list: seq<Event>, now: nat, turning: bool)
    requires list != [] && list[0].periodic && list[0].period == 0 && Due(list[0], now)
    requires |list| >= 2 ==> list[0].timePoint < list[1].timePoint
    ensures forall n :: !EndedAfter(list, now, turning, n)
  {
    assert !Yields(list, turning) by { if |list| >= 2 && !Stays(list[1], turning) { FirstMovingIs(list, 1, turning); } }
    forall n ensures !EndedAfter(list, now, turning, n) { TrappedForever(list, now, n, turning); }
  }

  lemma EscapesNext(list: seq<Event>, now: nat, turning: bool)
    requires Escapes(list, now, turning) && !Ended(list, now)
    ensures Escapes(Next(list, turning), now, turning)
    ensures Usage(Next(list, turning)) == Usage(list) - (if list[0].periodic || turning then 0 else 1)
    ensures Work(Next(list, turning), now) <= Work(list, now)
    ensures Work(Next(list, turning), now) == Work(list, now) ==>
              FirstMoving(Next(list, turning), turning) < FirstMoving(list, turning)
  {
    PassLess(list, now, turning);
    if Stays(list[0], turning) { YieldsNext(list, turning); }
  }

  /** What the loop calls, and the list that it leaves. */
  function Settle(list: seq<Event>, now: nat, turning: bool): (seq<Event>, seq<Event>)
    requires Escapes(list, now, turning)
    decreases Work(list, now), FirstMoving(list, turning)
  {
    if Ended(list, now) then ([], list)
    else
      EscapesNext(list, now, turning);
      var (calls, rest) := Settle(Next(list, turning), now, turning);
      ([list[0]] + calls, rest)
  }

  function Turned(list: seq<Event>, now: nat, turning: bool): seq<Event>
    requires Escapes(list, now, turning)
  {
    Settle(list, now, turning).0
  }

  function Settled(list: seq<Event>, now: nat, turning: bool): seq<Event>
    requires Escapes(list, now, turning)
  {
    Settle(list, now, turning).1
  }

  lemma SettleStep(list: seq<Event>, now: nat, turning: bool)
    requires Escapes(list, now, turning) && !Ended(list, now)
    ensures Escapes(Next(list, turning), now, turning)
    ensures Turned(list, now, turning) == [list[0]] + Turned(Next(list, turning), now, turning)
    ensures Settled(list, now, turning) == Settled(Next(list, turning), now, turning)
  {
    EscapesNext(list, now, turning);
  }

  lemma SettleDone(list: seq<Event>, now: nat, turning: bool)
    requires Ended(list, now)
    ensures Escapes(list, now, turning) && Turned(list, now, turning) == [] && Settled(list, now, turning) == list
  {
  }

  lemma {:induction false} SettleWellFormed(list: seq<Event>, now: nat, turning: bool)
    requires AllWellFormed(list) && Escapes(list, now, turning)
    ensures AllWellFormed(Settled(list, now, turning))
    decreases Work(list, now), FirstMoving(list, turning)
  {
    if !Ended(list, now) {
      EscapesNext(list, now, turning);
      SettleStep(list, now, turning);
      assert WellFormed(list[0]);
      InsertWellFormed(list[1..], list[0].Again());
      SettleWellFormed(Next(list, turning), now, turning);
    }
  }

  /** With positive periods the loop outside of periodic mode ends, and dispatches; the loop of periodic mode does the
      same if there are periodic events only. */
  lemma {:induction false} SettleIsDispatch(list: seq<Event>, now: nat, turning: bool)
    requires AllWellFormed(list) && (turning ==> AllPeriodic(list))
    ensures Escapes(list, now, turning)
    ensures Turned(list, now, turning) == Called(list, now) && Settled(list, now, turning) == Remaining(list, now)
    decreases Work(list, now)
  {
    if !Ended(list, now) {
      assert WellFormed(list[0]);
      PassLess(list, now, turning);
      DispatchStep(list, now);
      SettleIsDispatch(Next(list, turning), now, turning);
    }
  }

  // ---------------------------------------------------------------------------------------------
  // The timer
  // ---------------------------------------------------------------------------------------------

  datatype Capability = PeriodicCapable | OneShotCapable | FixedFrequency | Dynamic

  const WORD: nat := 0x1_0000_0000_0000_0000

  /** How far the time is moved on by an interrupt: to the first event, in 64 bits, but within the tick limits. */
  function Tick(timePoint: nat, now: nat, minimal: nat, maximal: nat): nat {
    var tick := (timePoint - now) % WORD;
    if tick > maximal then maximal else if tick < minimal then minimal else tick
  }

  /** An event ahead within the limits is met exactly; an overdue one counts as one far ahead. */
  lemma TickIs(timePoint: nat, now: nat, minimal: nat, maximal: nat)
    ensures
      var tick := Tick(timePoint, now, minimal, maximal);
      && (now <= timePoint < now + WORD ==>
            var wait := timePoint - now;
            && (minimal <= wait <= maximal ==> tick == wait)
            && (wait > maximal ==> tick == maximal)
            && (wait < minimal && wait <= maximal ==> tick == minimal))
      && (maximal < WORD - (now - timePoint) < WORD ==> tick == maximal)
  {
    if maximal < WORD - (now - timePoint) < WORD {
      assert (timePoint - now) % WORD == WORD - (now - timePoint);
    }
  }

  /** Scheduling switches to periodic mode when the last event is periodic and every other one is already due. */
  ghost predicate GoesPeriodic(cap: Capability, list: seq<Event>, now: nat) {
    && (cap == Dynamic || cap == PeriodicCapable)
    && list != [] && list[|list| - 1].periodic
    && forall i {:trigger list[i]} :: 0 <= i < |list| - 1 ==> Due(list[i], now)
  }

  class Timer {
    const cap: Capability
    const minimal: nat
    const maximal: nat
    var isPeriodic: bool
    var usage: nat
    var now: nat
    var list: seq<Event>

    /** The events whose handlers were called so far. */
    ghost var calls: seq<Event>

    /** The usage counts one for each pending one-shot event and 100 for each periodic one. */
    ghost predicate Valid()
      reads this
    {
      usage == Usage(list)
    }

    /** The time that the next interrupt takes it to be. */
    function Later(): nat
      requires list != []
      reads this
    {
      now + if cap == FixedFrequency then minimal else Tick(list[0].timePoint, now, minimal, maximal)
    }

    constructor (cap: Capability, minimal: nat, maximal: nat)
      ensures Valid() && !isPeriodic && now == 0 && list == [] && calls == []
      ensures this.cap == cap && this.minimal == minimal && this.maximal == maximal
    {
      this.cap, this.minimal, this.maximal := cap, minimal, maximal;
      isPeriodic, usage, now, list, calls := false, 0, 0, [], [];
    }

    /** `current` is the time that the hardware tells. */
    method OneShot(current: nat, id: nat, time: nat)
      requires Valid()
      modifies this
      ensures Valid() && !isPeriodic && now == current && calls == old(calls)
      ensures list == Insert(old(list), Event(id, false, 0, current + time))
      ensures old(AllWellFormed(list)) ==> AllWellFormed(list)
    {
      now := current;
      var e := Event(id, false, 0, now + time);
      InsertSums(list, e, now);
      if AllWellFormed(list) { InsertWellFormed(list, e); }
      list := Insert(list, e);
      usage := usage + 1;
      if isPeriodic { isPeriodic := false; }
    }

    method Periodic(current: nat, id: nat, period: nat)
      requires Valid()
      modifies this
      ensures Valid() && now == current && calls == old(calls)
      ensures list == Insert(old(list), Event(id, true, period, current + period))
      ensures old(AllWellFormed(list)) && period > 0 ==> AllWellFormed(list)
      ensures isPeriodic == (old(isPeriodic) && old(list) == [] && (cap == Dynamic || cap == PeriodicCapable))
    {
      now := current;
      var e := Event(id, true, period, now + period);
      InsertSums(list, e, now);
      if AllWellFormed(list) && period > 0 { InsertWellFormed(list, e); }
      InsertContents(list, e);
      list := Insert(list, e);
      usage := usage + 100;
      if !(|list| == 1 && (cap == Dynamic || cap == PeriodicCapable)) {
        isPeriodic := false;
      }
    }

    /** Finds the event that the hardware is to wait for: the first one that is not due, or the last one. */
    method ScheduleNext() returns (next: int)
      modifies this`isPeriodic
      ensures isPeriodic == (old(isPeriodic) || GoesPeriodic(cap, list, now))
      ensures if list == [] then next == -1 else 0 <= next < |list|
      ensures forall i {:trigger list[i]} :: 0 <= i < next ==> Due(list[i], now)
      ensures 0 <= next < |list| - 1 ==> !Due(list[next], now)
    {
      if list == [] { return -1; }
      next := 0;
      while list[next].timePoint <= now && next + 1 < |list|
        invariant 0 <= next < |list|
        invariant forall i {:trigger list[i]} :: 0 <= i < next ==> Due(list[i], now)
        decreases |list| - next
      {
        next := next + 1;
      }
      if !isPeriodic && next + 1 == |list| && list[next].periodic && (cap == Dynamic || cap == PeriodicCapable) {
        isPeriodic := true;
      }
    }

    /** The loop of periodic mode. */
    method TurnAll()
      requires Valid() && Escapes(list, now, true)
      modifies this`list, this`calls
      ensures Valid() && list == Settled(old(list), now, true) && calls == old(calls) + Turned(old(list), now, true)
    {
      hide Turn, Turned, Settled, Usage, Work, Escapes;
      ghost var called := [];
      while list != [] && list[0].timePoint <= now
        invariant Valid() && Escapes(list, now, true) && calls == old(calls) + called
        invariant Settled(old(list), now, true) == Settled(list, now, true)
        invariant Turned(old(list), now, true) == called + Turned(list, now, true)
        decreases Work(list, now), FirstMoving(list, true)
      {
        EscapesNext(list, now, true);
        SettleStep(list, now, true);
        called := called + [list[0]];
        calls := calls + [list[0]];
        list := Turn(list);
      }
      SettleDone(list, now, true);
    }

    /** The loop otherwise: it pops the first event and puts it back if it is periodic. */
    method DispatchAll()
      requires Valid() && Escapes(list, now, false)
      modifies this`list, this`calls, this`usage
      ensures Valid() && list == Settled(old(list), now, false) && calls == old(calls) + Turned(old(list), now, false)
    {
      hide Insert, Turned, Settled, Usage, Work, Escapes, Event.Again, FirstMoving, Stays;
      ghost var called := [];
      while list != [] && list[0].timePoint <= now
        invariant Valid() && Escapes(list, now, false) && calls == old(calls) + called
        invariant Settled(old(list), now, false) == Settled(list, now, false)
        invariant Turned(old(list), now, false) == called + Turned(list, now, false)
        decreases Work(list, now), FirstMoving(list, false)
      {
        EscapesNext(list, now, false);
        SettleStep(list, now, false);
        ghost var next := Next(list, false);
        var e := list[0];
        list := list[1..];
        called := called + [e];
        calls := calls + [e];
        if e.periodic {
          list := Insert(list, e.Again());
        } else {
          usage := usage - 1;
        }
        assert list == next;
      }
      SettleDone(list, now, false);
    }

    /** The interrupt. It moves the time on to the first event, but by no more and no less than the tick limits, and
        calls the handlers of what is due then, the first event first. The loop that it comes to must be one that ends.
        `again` says whether the event scheduled first is a different node from the new first one. */
    method Handle(again: bool)
      requires Valid() && (list != [] ==> Escapes(list, Later(), isPeriodic))
      modifies this
      ensures Valid()
      ensures old(list) == [] ==> list == [] && now == old(now) && calls == old(calls) && isPeriodic == old(isPeriodic)
      ensures old(list) != [] ==> now == old(Later())
      ensures old(list) != [] && cap == FixedFrequency ==> now == old(now) + minimal
      ensures old(list) != [] && cap != FixedFrequency && old(now) <= old(list[0].timePoint) < old(now) + WORD ==>
                var wait := old(list[0].timePoint) - old(now);
                && (minimal <= wait <= maximal ==> now == old(list[0].timePoint))
                && (wait > maximal ==> now == old(now) + maximal)
                && (wait < minimal && wait <= maximal ==> now == old(now) + minimal)
      ensures old(list) != [] && cap != FixedFrequency
              && maximal < WORD - (old(now) - old(list[0].timePoint)) < WORD ==>
                now == old(now) + maximal
      ensures old(list) != [] && old(list[0].timePoint) <= now ==>
                |calls| > |old(calls)| && calls[|old(calls)|] == old(list[0])
      ensures old(list) != [] && now < old(list[0].timePoint) ==> list == old(list) && calls == old(calls)
      ensures old(list) != [] ==>
        && list == Settled(old(list), now, old(isPeriodic))
        && calls == old(calls) + Turned(old(list), now, old(isPeriodic))
      ensures old(list) != [] ==>
        isPeriodic == (old(isPeriodic) || GoesPeriodic(cap, old(list), now) || (again && GoesPeriodic(cap, list, now)))
      ensures old(AllWellFormed(list)) ==> AllWellFormed(list)
    {
      hide Settled, Turned, Usage, Next, Tick, AllWellFormed;
      if list == [] { return; }
      ghost var before, wasPeriodic := list, isPeriodic;
      if cap == FixedFrequency {
        now := now + minimal;
      } else {
        TickIs(list[0].timePoint, now, minimal, maximal);
        now := now + Tick(list[0].timePoint, now, minimal, maximal);
      }
      if AllWellFormed(before) { SettleWellFormed(before, now, wasPeriodic); }
      if Due(before[0], now) {
        SettleStep(before, now, wasPeriodic);
      } else {
        SettleDone(before, now, wasPeriodic);
      }
      if isPeriodic {
        TurnAll();
        return;
      }
      var scheduled := ScheduleNext();
      DispatchAll();
      if list != [] && again {
        scheduled := ScheduleNext();
      }
    }
  }

  // ---------------------------------------------------------------------------------------------
  // An interrupt that does not return
  // ---------------------------------------------------------------------------------------------

  /** Four events are enough to enter periodic mode with a due one-shot event left behind, after which the next
      interrupt calls the handler of that event for ever. */
  method FourEvents() returns (t: Timer)
    ensures fresh(t) && t.Valid() && t.isPeriodic && t.now == 15
    ensures t.list == [Event(0, true, 10, 20), Event(2, false, 0, 12), Event(3, true, 30, 30)] && t.Later() == 30
  {
    t := new Timer(Dynamic, 15, 100);
    t.Periodic(0, 0, 10);
    t.OneShot(0, 1, 11);
    t.OneShot(0, 2, 12);
    t.Periodic(0, 3, 30);
    ghost var list := t.list;
    assert list == [Event(0, true, 10, 10), Event(1, false, 0, 11), Event(2, false, 0, 12), Event(3, true, 30, 30)];
    DispatchStep(list, 15);
    assert AfterFirst(list) == [Event(1, false, 0, 11), Event(0, true, 10, 20), Event(2, false, 0, 12),
           Event(3, true, 30, 30)];
    DispatchStep(AfterFirst(list), 15);
    assert AfterFirst(AfterFirst(list)) == [Event(0, true, 10, 20), Event(2, false, 0, 12), Event(3, true, 30, 30)];
    SettleIsDispatch(list, 15, false);
    t.Handle(true);
  }

  lemma FirstTurn()
    ensures Turn([Event(0, true, 10, 20), Event(2, false, 0, 12), Event(3, true, 30, 30)]) ==
            [Event(2, false, 0, 12), Event(3, true, 30, 30), Event(0, true, 10, 30)]
    ensures Turn([Event(2, false, 0, 12), Event(3, true, 30, 30), Event(0, true, 10, 30)]) ==
            [Event(2, false, 0, 12), Event(3, true, 30, 30), Event(0, true, 10, 30)]
  {
    var a, c, l := Event(0, true, 10, 20), Event(2, false, 0, 12), Event(3, true, 30, 30);
    assert [a, c, l][1..] == [c, l];
    assert [c, l, a.Again()][1..] == [l, a.Again()];
  }

  lemma {:induction false} StuckForever(list: seq<Event>, n: nat)
    requires list != [] && Turn(list) == list
    ensures Turns(list, n, true) == list
    decreases n
  {
    if n > 0 {
      StuckForever(list, n - 1);
    }
  }

  lemma FourEventsHang(n: nat)
    ensures
      var list := [Event(0, true, 10, 20), Event(2, false, 0, 12), Event(3, true, 30, 30)];
      && AllWellFormed(list) && !Escapes(list, 30, true) && !EndedAfter(list, 30, true, n)
      && (n >= 1 ==> Turns(list, n, true)[0] == Event(2, false, 0, 12))
  {
    hide Turn;
    FirstTurn();
    var list := [Event(0, true, 10, 20), Event(2, false, 0, 12), Event(3, true, 30, 30)];
    var stuck := Turn(list);
    if n >= 1 { StuckForever(stuck, n - 1); }
    FirstMovingIs(stuck, 1, true);
    assert !Yields(stuck, true);
    assert !Escapes(stuck, 30, true);
    TrappedForever(list, 30, n, true);
  }
}
