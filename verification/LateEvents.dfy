/** Which events an interrupt leaves behind although they are due, for lists of any length and in any order. */
module LateEvents {
  import opened Timers

  /** A due event; with `oneShot`, a due one-shot event. */
  predicate Late(e: Event, now: nat, oneShot: bool) {
    Due(e, now) && (oneShot ==> !e.periodic)
  }

  predicate AnyLate(list: seq<Event>, now: nat, oneShot: bool) {
    exists i {:trigger list[i]} :: 0 <= i < |list| && Late(list[i], now, oneShot)
  }

  /** A late event stands behind one that is not due. */
  ghost predicate Blocked(list: seq<Event>, now: nat, oneShot: bool) {
    exists i, j :: BlockedAt(list, now, oneShot, i, j)
  }

  predicate BlockedAt(list: seq<Event>, now: nat, oneShot: bool, i: int, j: int) {
    0 <= i < j < |list| && !Due(list[i], now) && Late(list[j], now, oneShot)
  }

  /** The guard of the bad insertion: the first event comes back not due, is put right behind the next one, and so in
      front of a late event. */
  predicate Misplaces(list: seq<Event>, now: nat, oneShot: bool)
    requires list != []
  {
    && list[0].periodic && Due(list[0], now) && !Due(list[0].Again(), now)
    && |list| >= 3 && list[1].timePoint <= list[0].Again().timePoint < list[|list| - 1].timePoint
    && AnyLate(list[2..], now, oneShot)
  }

  /** The guard holds at some point of the dispatch. */
  predicate EverMisplaces(list: seq<Event>, now: nat, oneShot: bool)
    requires AllWellFormed(list)
    decreases Work(list, now)
  {
    list != [] && Due(list[0], now) &&
    (Misplaces(list, now, oneShot) || (AfterFirstLess(list, now); EverMisplaces(AfterFirst(list), now, oneShot)))
  }

  lemma BehindFirst(list: seq<Event>, now: nat, oneShot: bool)
    requires list != [] && Due(list[0], now)
    ensures Blocked(list[1..], now, oneShot) <==> Blocked(list, now, oneShot)
  {
    var rest := list[1..];
    if Blocked(list, now, oneShot) {
      var i, j :| BlockedAt(list, now, oneShot, i, j);
      assert BlockedAt(rest, now, oneShot, i - 1, j - 1);
    }
    if Blocked(rest, now, oneShot) {
      var i, j :| BlockedAt(rest, now, oneShot, i, j);
      assert BlockedAt(list, now, oneShot, i + 1, j + 1);
    }
  }

  /** Inserting an event blocks late ones only if it is not due itself and is put behind the first of several. */
  lemma InsertBlocks(rest: seq<Event>, e: Event, now: nat, oneShot: bool)
    requires e.periodic
    ensures Blocked(Insert(rest, e), now, oneShot) <==>
      || Blocked(rest, now, oneShot)
      || (!Due(e, now) && |rest| >= 2 && rest[0].timePoint <= e.timePoint < rest[|rest| - 1].timePoint &&
           AnyLate(rest[1..], now, oneShot))
  {
    var t := Insert(rest, e);
    if rest == [] {
    } else if e.timePoint < rest[0].timePoint {
      InFront(rest, e, now, oneShot);
    } else if rest[|rest| - 1].timePoint <= e.timePoint {
      AtTheEnd(rest, e, now, oneShot);
    } else {
      BehindTheFirst(rest, e, now, oneShot);
    }
  }

  lemma InFront(rest: seq<Event>, e: Event, now: nat, oneShot: bool)
    requires rest != [] && e.timePoint < rest[0].timePoint
    ensures Blocked([e] + rest, now, oneShot) <==> Blocked(rest, now, oneShot)
  {
    var t := [e] + rest;
    if Blocked(rest, now, oneShot) {
      var i, j :| BlockedAt(rest, now, oneShot, i, j);
      assert BlockedAt(t, now, oneShot, i + 1, j + 1);
    }
    if Blocked(t, now, oneShot) {
      var i, j :| BlockedAt(t, now, oneShot, i, j);
      assert t[i] == (if i == 0 then e else rest[i - 1]) && t[j] == rest[j - 1];
      if j > 1 { assert BlockedAt(rest, now, oneShot, if i == 0 then 0 else i - 1, j - 1); }
    }
  }

  lemma AtTheEnd(rest: seq<Event>, e: Event, now: nat, oneShot: bool)
    requires rest != [] && rest[|rest| - 1].timePoint <= e.timePoint && e.periodic
    ensures Blocked(rest + [e], now, oneShot) <==> Blocked(rest, now, oneShot)
  {
    var t := rest + [e];
    if Blocked(rest, now, oneShot) {
      var i, j :| BlockedAt(rest, now, oneShot, i, j);
      assert BlockedAt(t, now, oneShot, i, j);
    }
    if Blocked(t, now, oneShot) {
      var i, j :| BlockedAt(t, now, oneShot, i, j);
      var k := if j == |rest| then |rest| - 1 else j;
      assert t[i] == rest[i] && Late(rest[k], now, oneShot);
      assert BlockedAt(rest, now, oneShot, i, k);
    }
  }

  lemma BehindTheFirst(rest: seq<Event>, e: Event, now: nat, oneShot: bool)
    requires |rest| >= 2 && e.periodic && rest[0].timePoint <= e.timePoint
    ensures Blocked([rest[0], e] + rest[1..], now, oneShot) <==>
      Blocked(rest, now, oneShot) || (!Due(e, now) && AnyLate(rest[1..], now, oneShot))
  {
    var t := [rest[0], e] + rest[1..];
    if Blocked(rest, now, oneShot) {
      var i, j :| BlockedAt(rest, now, oneShot, i, j);
      assert BlockedAt(t, now, oneShot, if i == 0 then 0 else i + 1, j + 1);
    }
    if !Due(e, now) && AnyLate(rest[1..], now, oneShot) {
      var k :| 0 <= k < |rest[1..]| && Late(rest[1..][k], now, oneShot);
      assert BlockedAt(t, now, oneShot, 1, k + 2);
    }
    if Blocked(t, now, oneShot) {
      var i, j :| BlockedAt(t, now, oneShot, i, j);
      if i == 1 {
        assert t[j] == rest[1..][j - 2];
      } else if j > 1 {
        assert t[i] == rest[if i == 0 then 0 else i - 1] && t[j] == rest[j - 1];
        assert BlockedAt(rest, now, oneShot, if i == 0 then 0 else i - 1, j - 1);
      }
    }
  }

  lemma AfterFirstBlocked(list: seq<Event>, now: nat, oneShot: bool)
    requires list != [] && Due(list[0], now)
    ensures Blocked(AfterFirst(list), now, oneShot) <==> Blocked(list, now, oneShot) || Misplaces(list, now, oneShot)
  {
    BehindFirst(list, now, oneShot);
    if list[0].periodic {
      InsertBlocks(list[1..], list[0].Again(), now, oneShot);
      if |list| >= 3 { assert list[1..][1..] == list[2..]; }
    }
  }

  /** Late events are left exactly if one stood behind an event that was not due, or an insertion put one there. */
  lemma {:induction false} LeftIff(list: seq<Event>, now: nat, oneShot: bool)
    requires AllWellFormed(list)
    ensures AnyLate(Remaining(list, now), now, oneShot) <==>
              Blocked(list, now, oneShot) || EverMisplaces(list, now, oneShot)
    decreases Work(list, now)
  {
    if list == [] || !Due(list[0], now) {
      if AnyLate(list, now, oneShot) {
        var j :| 0 <= j < |list| && Late(list[j], now, oneShot);
        assert BlockedAt(list, now, oneShot, 0, j);
      }
    } else {
      DispatchStep(list, now);
      AfterFirstBlocked(list, now, oneShot);
      LeftIff(AfterFirst(list), now, oneShot);
    }
  }

  /** An interrupt leaves no due event exactly if no due event stood behind one that was not, and no periodic event
      that came back not due was put in front of a due one. */
  lemma NoneDueIff(list: seq<Event>, now: nat)
    requires AllWellFormed(list)
    ensures NoneDue(Remaining(list, now), now) <==> !Blocked(list, now, false) && !EverMisplaces(list, now, false)
  {
    LeftIff(list, now, false);
  }

  lemma SortedIsNotBlocked(list: seq<Event>, now: nat, oneShot: bool)
    requires Sorted(list)
    ensures !Blocked(list, now, oneShot)
  {
  }

  /** For a list in order it is the insertions alone. */
  lemma SortedLeavesNoneIff(list: seq<Event>, now: nat)
    requires AllWellFormed(list) && Sorted(list)
    ensures NoneDue(Remaining(list, now), now) <==> !EverMisplaces(list, now, false)
  {
    NoneDueIff(list, now);
    SortedIsNotBlocked(list, now, false);
  }

  // ---------------------------------------------------------------------------------------------
  // Lists in which nothing goes wrong
  // ---------------------------------------------------------------------------------------------

  /** At most the first two events are due. */
  predicate TwoDue(list: seq<Event>, now: nat) {
    forall i {:trigger list[i]} :: 2 <= i < |list| ==> !Due(list[i], now)
  }

  lemma AfterFirstTwoDue(list: seq<Event>, now: nat)
    requires list != [] && Due(list[0], now) && TwoDue(list, now)
    ensures TwoDue(AfterFirst(list), now)
  {
    var rest, t := list[1..], AfterFirst(list);
    assert forall i {:trigger rest[i]} :: 1 <= i < |rest| ==> !Due(list[i + 1], now);
  }

  lemma {:induction false} TwoNeverMisplace(list: seq<Event>, now: nat)
    requires AllWellFormed(list) && TwoDue(list, now)
    ensures !EverMisplaces(list, now, false)
    decreases Work(list, now)
  {
    if list != [] && Due(list[0], now) {
      AfterFirstLess(list, now);
      AfterFirstTwoDue(list, now);
      TwoNeverMisplace(AfterFirst(list), now);
      assert |list| >= 3 ==> forall i {:trigger list[2..][i]} :: 0 <= i < |list| - 2 ==> list[2..][i] == list[i + 2];
    }
  }

  /** Every due event is one-shot. */
  predicate DueOneShot(list: seq<Event>, now: nat) {
    forall i {:trigger list[i]} :: 0 <= i < |list| && Due(list[i], now) ==> !list[i].periodic
  }

  lemma {:induction false} OneShotsNeverMisplace(list: seq<Event>, now: nat)
    requires AllWellFormed(list) && DueOneShot(list, now)
    ensures !EverMisplaces(list, now, false)
    decreases Work(list, now)
  {
    if list != [] && Due(list[0], now) {
      AfterFirstLess(list, now);
      OneShotsNeverMisplace(list[1..], now);
    }
  }

  lemma {:induction false} ThreeNeverMisplace(list: seq<Event>, now: nat, oneShot: bool)
    requires AllWellFormed(list) && |list| <= 3
    ensures !EverMisplaces(list, now, oneShot)
    decreases Work(list, now)
  {
    if list != [] && Due(list[0], now) {
      AfterFirstLess(list, now);
      InsertContents(list[1..], list[0].Again());
      ThreeNeverMisplace(AfterFirst(list), now, oneShot);
      assert |list| == 3 ==> forall i {:trigger list[2..][i]} :: 0 <= i < |list| - 2 ==> list[2..][i] == list[2];
    }
  }

  /** Lists of any length that leave no due event, as long as none stands behind one that is not due: those with at
      most the first two events due, those with one-shot events due only, and those of up to three events. */
  lemma LeavesNone(list: seq<Event>, now: nat)
    requires AllWellFormed(list) && !Blocked(list, now, false)
    requires TwoDue(list, now) || DueOneShot(list, now) || |list| <= 3
    ensures NoneDue(Remaining(list, now), now)
  {
    NoneDueIff(list, now);
    if TwoDue(list, now) {
      TwoNeverMisplace(list, now);
    } else if DueOneShot(list, now) {
      OneShotsNeverMisplace(list, now);
    } else {
      ThreeNeverMisplace(list, now, false);
    }
  }

  /** With at most three events the list also stays in order. */
  lemma {:induction false} ThreeStaySorted(list: seq<Event>, now: nat)
    requires AllWellFormed(list) && Sorted(list) && |list| <= 3
    ensures Sorted(Remaining(list, now)) && |Remaining(list, now)| <= |list| && NoneDue(Remaining(list, now), now)
    decreases Work(list, now)
  {
    if list != [] && Due(list[0], now) {
      DispatchStep(list, now);
      InsertContents(list[1..], list[0].Again());
      InsertShort(list[1..], list[0].Again());
      ThreeStaySorted(AfterFirst(list), now);
    } else {
      SortedIsNotBlocked(list, now, false);
      LeavesNone(list, now);
    }
  }

  // ---------------------------------------------------------------------------------------------
  // How often events are called
  // ---------------------------------------------------------------------------------------------

  /** How often an event is due until `now`. */
  function TimesDue(e: Event, now: nat): nat
    requires WellFormed(e)
  {
    if !Due(e, now) then 0 else if e.periodic then (now - e.timePoint) / e.period + 1 else 1
  }

  lemma Multiples(a: nat, b: nat, p: nat)
    requires a < b
    ensures a * p + p <= b * p
  {
    assert b * p == (a + 1) * p + (b - a - 1) * p;
  }

  lemma Divided(d: nat, p: nat)
    requires p > 0
    ensures d / p * p <= d < d / p * p + p
  {
  }

  lemma QuotientIff(d: nat, p: nat, k: nat)
    requires p > 0 && k * p <= d
    ensures d < k * p + p <==> d / p == k
  {
    Divided(d, p);
    if d / p < k { Multiples(d / p, k, p); }
    if k < d / p { Multiples(k, d / p, p); }
  }

  /** `k` calls were as many as due exactly if the event, moved on by them, is not due. */
  lemma MovedOn(e: Event, k: nat, now: nat)
    requires WellFormed(e) && e.periodic && (k > 0 ==> e.timePoint + (k - 1) * e.period <= now)
    ensures k == TimesDue(e, now) <==> !Due(e.(timePoint := e.timePoint + k * e.period), now)
  {
    if k > 0 {
      assert k * e.period == (k - 1) * e.period + e.period;
      assert Due(e, now) by { assert (k - 1) * e.period >= 0; }
      QuotientIff(now - e.timePoint, e.period, k - 1);
    } else {
      assert k * e.period == 0;
    }
  }

  lemma {:induction false} RestUnique(list: seq<Event>, now: nat)
    requires AllWellFormed(list) && UniqueIds(list)
    ensures UniqueIds(Remaining(list, now))
    decreases Work(list, now)
  {
    if list != [] && Due(list[0], now) {
      DispatchStep(list, now);
      AfterFirstUnique(list);
      RestUnique(AfterFirst(list), now);
    }
  }

  /** What is left comes from an event of the list, which it agrees with but for the time point. */
  lemma {:induction false} Origin(list: seq<Event>, now: nat, x: Event) returns (e: Event)
    requires AllWellFormed(list) && x in Remaining(list, now)
    ensures e in list && x == e.(timePoint := x.timePoint) && (!x.periodic ==> x == e)
    decreases Work(list, now)
  {
    if list == [] || !Due(list[0], now) {
      e := x;
    } else {
      DispatchStep(list, now);
      e := Origin(AfterFirst(list), now, x);
      InsertMembers(list[1..], list[0].Again());
      if e !in list { e := list[0]; }
    }
  }

  lemma SameId(list: seq<Event>, x: Event, y: Event)
    requires UniqueIds(list) && x in list && y in list && x.id == y.id
    ensures x == y
  {
    var i :| 0 <= i < |list| && list[i] == x;
    var j :| 0 <= j < |list| && list[j] == y;
  }

  /** An event was called as often as it was due exactly if what is left of it is not due. */
  lemma CalledIff(list: seq<Event>, now: nat, e: Event)
    requires AllWellFormed(list) && UniqueIds(list) && e in list
    ensures WellFormed(e)
    ensures Times(Called(list, now), e.id) == TimesDue(e, now) <==>
      forall x :: x in Remaining(list, now) && x.id == e.id ==> !Due(x, now)
  {
    assert WellFormed(e);
    var k, rest := Times(Called(list, now), e.id), Remaining(list, now);
    EachAccounted(list, now, e);
    RestUnique(list, now);
    if e.periodic {
      MovedOn(e, k, now);
      forall x | x in rest && x.id == e.id ensures x == e.(timePoint := e.timePoint + k * e.period) {
        SameId(rest, x, e.(timePoint := e.timePoint + k * e.period));
      }
    } else {
      forall x | x in rest && x.id == e.id ensures x == e {
        var o := Origin(list, now, x);
        SameId(list, o, e);
      }
    }
  }

  /** Every event is called exactly as often as it is due, exactly if no due event stood behind one that was not, and
      none was put there. */
  lemma CalledAsDueIff(list: seq<Event>, now: nat)
    requires AllWellFormed(list) && UniqueIds(list)
    ensures forall e :: e in list ==> WellFormed(e)
    ensures (forall e :: e in list ==> Times(Called(list, now), e.id) == TimesDue(e, now)) <==>
      !Blocked(list, now, false) && !EverMisplaces(list, now, false)
  {
    var rest := Remaining(list, now);
    NoneDueIff(list, now);
    if NoneDue(rest, now) {
      forall e | e in list ensures Times(Called(list, now), e.id) == TimesDue(e, now) { CalledIff(list, now, e); }
    } else {
      var i :| 0 <= i < |rest| && Due(rest[i], now);
      var e := Origin(list, now, rest[i]);
      CalledIff(list, now, e);
      assert rest[i] in rest;
    }
  }

  /** So it is with at most three events in order. */
  lemma ThreeAreCalled(list: seq<Event>, now: nat, e: Event)
    requires AllWellFormed(list) && UniqueIds(list) && Sorted(list) && |list| <= 3 && e in list
    ensures WellFormed(e) && Times(Called(list, now), e.id) == TimesDue(e, now)
  {
    CalledAsDueIff(list, now);
    SortedIsNotBlocked(list, now, false);
    ThreeNeverMisplace(list, now, false);
  }

  // ---------------------------------------------------------------------------------------------
  // When periodic mode is safe
  // ---------------------------------------------------------------------------------------------

  lemma {:induction false} NotDueStays(list: seq<Event>, now: nat, e: Event)
    requires AllWellFormed(list) && e in list && !Due(e, now)
    ensures e in Remaining(list, now)
    decreases Work(list, now)
  {
    if Due(list[0], now) {
      DispatchStep(list, now);
      InsertMembers(list[1..], list[0].Again());
      var i :| 0 <= i < |list| && list[i] == e;
      assert list[1..][i - 1] == e;
      NotDueStays(AfterFirst(list), now, e);
    }
  }

  /** An interrupt leaves only periodic events exactly if every one-shot event was due, none of them stood behind an
      event that was not, and none was put there. */
  lemma OnlyPeriodicIff(list: seq<Event>, now: nat)
    requires AllWellFormed(list)
    ensures AllPeriodic(Remaining(list, now)) <==>
      && (forall e :: e in list && !e.periodic ==> Due(e, now))
      && !Blocked(list, now, true) && !EverMisplaces(list, now, true)
  {
    var rest := Remaining(list, now);
    LeftIff(list, now, true);
    DispatchKeeps(list, now);
    forall e | e in list && !e.periodic && !Due(e, now) ensures !AllPeriodic(rest) {
      NotDueStays(list, now, e);
    }
    if !AllPeriodic(rest) {
      var i :| 0 <= i < |rest| && !(rest[i].periodic && rest[i].period > 0);
      assert WellFormed(rest[i]);
      var e := Origin(list, now, rest[i]);
      assert Late(rest[i], now, true) || !Due(e, now);
    }
  }

  /** An interrupt that goes over to periodic mode does so with periodic events only, exactly if it never put an event
      that was not due in front of a due one-shot event. */
  lemma PeriodicModeSafeIff(cap: Capability, list: seq<Event>, now: nat)
    requires AllWellFormed(list) && GoesPeriodic(cap, list, now)
    ensures AllPeriodic(Remaining(list, now)) <==> !EverMisplaces(list, now, true)
  {
    OnlyPeriodicIff(list, now);
  }

  /** The scheduling after the dispatch never goes over to periodic mode but with a single, periodic event. */
  lemma AfterDispatchSafe(cap: Capability, list: seq<Event>, now: nat)
    requires AllWellFormed(list) && GoesPeriodic(cap, Remaining(list, now), now)
    ensures |Remaining(list, now)| == 1 && AllPeriodic(Remaining(list, now))
  {
    DispatchKeeps(list, now);
    var rest := Remaining(list, now);
    assert WellFormed(rest[|rest| - 1]);
  }

  /** With at most three events in order, periodic mode is never entered with a one-shot event in the list. */
  lemma ThreeAreSafe(cap: Capability, list: seq<Event>, now: nat)
    requires AllWellFormed(list) && Sorted(list) && |list| <= 3
    ensures AllWellFormed(Remaining(list, now))
    ensures GoesPeriodic(cap, list, now) || GoesPeriodic(cap, Remaining(list, now), now) ==>
              AllPeriodic(Remaining(list, now))
  {
    var rest := Remaining(list, now);
    DispatchKeeps(list, now);
    SortedIsNotBlocked(list, now, false);
    LeavesNone(list, now);
    if GoesPeriodic(cap, list, now) {
      PeriodicModeSafeIff(cap, list, now);
      ThreeNeverMisplace(list, now, true);
    }
    if GoesPeriodic(cap, rest, now) {
      assert forall i {:trigger rest[i]} :: 0 <= i < |rest| ==> WellFormed(rest[i]);
      assert forall i {:trigger rest[i]} :: 0 <= i < |rest| ==> i == |rest| - 1;
    }
  }
}
