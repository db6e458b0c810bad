/** Runs of the paging operations over any number of address spaces. */
module Runs {
  import opened Basics
  import opened PageTables
  import opened Addresses
  import opened AddressSpaces
  import opened Ranges
  import opened Spaces
  import opened Dropping

  /** One call: how far it came is part of the event, so panicking calls are events too. Between calls others take
      frames and give back some that are not tables. */
  datatype Event =
    | MapCall(root: Frame, start: int, reached: int, end: int, p: Address)
    | UnmapCall(root: Frame, start: int, reached: int, push: bool, before: seq<Frame>, after: seq<Frame>)
    | SwitchForeign
    | CloneCall(current: Frame, clone: Frame)
    | DropCall(root: Frame, given: seq<Frame>)
    | FramesMove(free: set<Frame>)

  /** What the contracts of the operations promise about a call. The page after the range of `map` is at most the
      last. */
  ghost predicate Step(s0: Snapshot, e: Event, s1: Snapshot) {
    && Tree(s0.mem, s0.owner) && Tree(s1.mem, s1.owner)
    && match e
       case MapCall(root, start, reached, end, p) =>
              Mapping(s0, s1, root, start, reached, end, p) && reached <= end < PAGES
       case UnmapCall(root, start, reached, push, before, after) =>
              Removed(s0, s1, root, start, reached, push, before, after)
       case SwitchForeign => WindowsSwitched(s0, s1)
       case CloneCall(current, clone) => Cloned(s0, s1, current, clone) && IsRoot(s0.owner, current)
       case DropCall(root, given) => LowerHalfDropped(s0, s1, root, given)
       case FramesMove(free) => s1 == s0.(free := free) && free !! s0.owner.Keys && free <= s0.mem.Keys
  }

  ghost predicate Run(states: seq<Snapshot>, events: seq<Event>) {
    && |states| == |events| + 1
    && forall i {:trigger events[i]} :: 0 <= i < |events| ==> Step(states[i], events[i], states[i + 1])
  }

  /** The space in which a call may add tables. */
  function Actor(e: Event): Frame {
    match e
    case MapCall(root, _, _, _, _) => root
    case UnmapCall(root, _, _, _, _, _) => root
    case SwitchForeign => 0
    case CloneCall(current, _) => current
    case DropCall(root, _) => root
    case FramesMove(_) => 0
  }

  lemma StepGrowsSlots(s0: Snapshot, e: Event, s1: Snapshot)
    requires Step(s0, e, s1) && !e.DropCall?
    ensures OwnersKept(s0, s1) && SlotsGrow(s0, s1, Actor(e))
  {
    match e
    case MapCall(root, _, _, _, _) => EvolvesGrowsSlots(s0, s1, root);
    case UnmapCall(root, _, _, _, _, _) => EvolvesGrowsSlots(s0, s1, root);
    case SwitchForeign => SwitchGrowsSlots(s0, s1, 0);
    case CloneCall(_, _) =>
    case FramesMove(_) => SameGrowsSlots(s0, s1, 0);
  }

  lemma SameGrowsSlots(s0: Snapshot, s1: Snapshot, root: Frame)
    requires s1.mem == s0.mem && s1.owner == s0.owner
    ensures SlotsGrow(s0, s1, root)
  {
    forall r, k: Index | IsRoot(s0.owner, r) && !IsWindow(k) ensures SlotGrows(s0, s1, root, r, k) {}
  }

  /** Dropping clears the slots of the lower half of one space, and no other. */
  lemma DropSlots(s0: Snapshot, s1: Snapshot, root: Frame, given: seq<Frame>, r: Frame, k: Index)
    requires LowerHalfDropped(s0, s1, root, given) && !IsWindow(k)
    ensures IsRoot(s0.owner, r) <==> IsRoot(s1.owner, r)
    ensures IsRoot(s0.owner, r) ==> Follow(s1.mem, r, k) == if r == root && k < 256 then None else Follow(s0.mem, r, k)
  {
    hide Droppable, StillUsed;
    WalkOne(s0.mem, r, k);
    WalkOne(s1.mem, r, k);
    assert Proper([k]);
    if IsRoot(s0.owner, r) && r != root { assert WalkKept(s0, s1, r, [k]); }
  }

  lemma DropParts(s0: Snapshot, s1: Snapshot, root: Frame, given: seq<Frame>)
    requires LowerHalfDropped(s0, s1, root, given)
    ensures Droppable(s0, root) && Droppable(s1, root) && IsRoot(s0.owner, root)
    ensures LowerWalksGone(s0.mem, s1.mem, root) && OthersKept(s0, s1, root)
    ensures forall r, k: Index {:trigger Apart(s0, root, r, k)} :: IsRoot(s0.owner, r) && r != root && k < 256 ==>
              Apart(s0, root, r, k)
  {
  }

  // ---------------------------------------------------------------------------------------------
  // Sharing
  // ---------------------------------------------------------------------------------------------

  lemma StepShares(s0: Snapshot, e: Event, s1: Snapshot, r1: Frame, r2: Frame, k: Index)
    requires Step(s0, e, s1) && !IsWindow(k) && r1 != r2 && IsRoot(s0.owner, r1) && IsRoot(s0.owner, r2)
    requires Follow(s0.mem, r1, k).Some? && Follow(s0.mem, r2, k) == Follow(s0.mem, r1, k)
    ensures IsRoot(s1.owner, r1) && IsRoot(s1.owner, r2)
    ensures Follow(s1.mem, r1, k) == Follow(s1.mem, r2, k) == Follow(s0.mem, r1, k)
  {
    match e
    case DropCall(root, given) =>
      DropParts(s0, s1, root, given);
      assert (r1 == root && k < 256 ==> Apart(s0, root, r2, k)) && (r2 == root && k < 256 ==> Apart(s0, root, r1, k));
      DropSlots(s0, s1, root, given, r1, k);
      DropSlots(s0, s1, root, given, r2, k);
    case _ =>
      StepGrowsSlots(s0, e, s1);
      StaysShared(s0, s1, Actor(e), r1, r2, k);
  }

  /** Two spaces that share the PDPT of slot `k` go on sharing it, whatever is called. */
  lemma {:induction false} SharedForever(states: seq<Snapshot>, events: seq<Event>, r1: Frame, r2: Frame, k: Index,
                                         i: nat)
    requires Run(states, events) && i < |states| && !IsWindow(k) && r1 != r2
    requires IsRoot(states[0].owner, r1) && IsRoot(states[0].owner, r2)
    requires Follow(states[0].mem, r1, k).Some? && Follow(states[0].mem, r2, k) == Follow(states[0].mem, r1, k)
    ensures IsRoot(states[i].owner, r1) && IsRoot(states[i].owner, r2)
    ensures Follow(states[i].mem, r1, k) == Follow(states[i].mem, r2, k) == Follow(states[0].mem, r1, k)
  {
    if i > 0 {
      SharedForever(states, events, r1, r2, k, i - 1);
      assert Step(states[i - 1], events[i - 1], states[i]);
      StepShares(states[i - 1], events[i - 1], states[i], r1, r2, k);
    }
  }

  /** After a clone, for each kernel slot present at that time, both spaces agree on all of it in every later
      state of every run, although each of them may be mapped into and unmapped from. */
  lemma KernelSharedForever(s: Snapshot, states: seq<Snapshot>, events: seq<Event>, current: Frame, clone: Frame,
                            n: int, i: nat)
    requires Run(states, events) && i < |states|
    requires Step(s, CloneCall(current, clone), states[0])
    requires ProperPage(n) && PathOf(n)[0] >= 258 && Follow(states[0].mem, current, PathOf(n)[0]).Some?
    ensures Leaf(states[i].mem, clone, n) == Leaf(states[i].mem, current, n)
  {
    var k := PathOf(n)[0];
    assert states[0].mem[clone][k] == states[0].mem[current][k];
    SharedForever(states, events, current, clone, k, i);
    SlotShared(states[i].mem, clone, current, k, n);
  }

  /** The call adds tables to the space of `r`, or takes pages from it. */
  predicate ActsOn(e: Event, r: Frame) {
    match e
    case MapCall(root, _, _, _, _) => root == r
    case UnmapCall(root, _, _, _, _, _) => root == r
    case SwitchForeign => false
    case CloneCall(current, _) => current == r
    case DropCall(root, _) => root == r
    case FramesMove(_) => false
  }

  lemma StepLeavesEmpty(s0: Snapshot, e: Event, s1: Snapshot, r: Frame, k: Index)
    requires Step(s0, e, s1) && !IsWindow(k) && IsRoot(s0.owner, r) && Follow(s0.mem, r, k).None? && !ActsOn(e, r)
    ensures IsRoot(s1.owner, r) && Follow(s1.mem, r, k).None?
  {
    if e.DropCall? {
      DropSlots(s0, s1, e.root, e.given, r, k);
    } else {
      StepGrowsSlots(s0, e, s1);
      var actor: Frame := if e.SwitchForeign? || e.FramesMove? then (if r == 0 then 1 else 0) else Actor(e);
      if e.SwitchForeign? { SwitchGrowsSlots(s0, s1, actor); }
      if e.FramesMove? { SameGrowsSlots(s0, s1, actor); }
      assert SlotGrows(s0, s1, actor, r, k);
    }
  }

  lemma {:induction false} SlotStaysEmpty(states: seq<Snapshot>, events: seq<Event>, r: Frame, k: Index, i: nat)
    requires Run(states, events) && i < |states| && !IsWindow(k)
    requires IsRoot(states[0].owner, r) && Follow(states[0].mem, r, k).None?
    requires forall j {:trigger events[j]} :: 0 <= j < i ==> !ActsOn(events[j], r)
    ensures IsRoot(states[i].owner, r) && Follow(states[i].mem, r, k).None?
  {
    if i > 0 {
      SlotStaysEmpty(states, events, r, k, i - 1);
      var s0, e, s1 := states[i - 1], events[i - 1], states[i];
      assert Step(s0, e, s1);
      StepLeavesEmpty(s0, e, s1, r, k);
    }
  }

  /** A kernel page that is mapped any number of calls after a clone, none of them on the clone, is seen by the clone
      if and only if its slot was present when the clone was made: an absent slot is copied as absent and filled in one
      space only. */
  lemma LaterMappingShared(s: Snapshot, states: seq<Snapshot>, events: seq<Event>, current: Frame, clone: Frame,
                           i: nat, n: int)
    requires Run(states, events) && 1 <= i < |states|
    requires Step(s, CloneCall(current, clone), states[0])
    requires forall j {:trigger events[j]} :: 0 <= j < i ==> !ActsOn(events[j], clone)
    requires events[i - 1].MapCall? && events[i - 1].root == current && events[i - 1].start <= n < events[i - 1].reached
    requires ProperPage(n) && PathOf(n)[0] >= 258
    ensures Leaf(states[i].mem, clone, n) == Leaf(states[i].mem, current, n) <==>
              Follow(states[0].mem, current, PathOf(n)[0]).Some?
  {
    var k := PathOf(n)[0];
    assert states[0].mem[clone][k] == states[0].mem[current][k];
    assert Step(states[i - 1], events[i - 1], states[i]);
    assert Leaf(states[i].mem, current, n).Some?;
    if Follow(states[0].mem, current, k).Some? {
      SharedForever(states, events, current, clone, k, i);
      SlotShared(states[i].mem, clone, current, k, n);
    } else {
      SlotStaysEmpty(states, events, clone, k, i);
      WalkOne(states[i].mem, clone, k);
      WalkBelowNone(states[i].mem, clone, [k], PathOf(n));
    }
  }

  // ---------------------------------------------------------------------------------------------
  // Isolation
  // ---------------------------------------------------------------------------------------------

  /** No two spaces share anything in the lower half. */
  ghost predicate LowerHalvesApart(s: Snapshot) {
    forall r1, r2, k: Index {:trigger Apart(s, r1, r2, k)} ::
      IsRoot(s.owner, r1) && IsRoot(s.owner, r2) && r1 != r2 && k < 256 ==> Apart(s, r1, r2, k)
  }

  lemma StepKeepsApart(s0: Snapshot, e: Event, s1: Snapshot)
    requires Step(s0, e, s1) && LowerHalvesApart(s0)
    ensures LowerHalvesApart(s1)
  {
    forall r1, r2, k: Index | IsRoot(s1.owner, r1) && IsRoot(s1.owner, r2) && r1 != r2 && k < 256
      ensures Apart(s1, r1, r2, k)
    {
      if e.DropCall? {
        DropSlots(s0, s1, e.root, e.given, r1, k);
        DropSlots(s0, s1, e.root, e.given, r2, k);
        assert Apart(s0, r1, r2, k);
      } else {
        StepGrowsSlots(s0, e, s1);
        NewRootIsEmpty(s0, e, s1, r1, k);
        NewRootIsEmpty(s0, e, s1, r2, k);
        if r1 in s0.owner && r2 in s0.owner {
          assert Apart(s0, r1, r2, k);
          StaysApart(s0, s1, Actor(e), r1, r2, k);
        }
      }
    }
  }

  /** A space that a call adds has nothing in its lower half, and in the upper one what the cloned space has. */
  lemma NewRootIsEmpty(s0: Snapshot, e: Event, s1: Snapshot, r: Frame, k: Index)
    requires Step(s0, e, s1) && IsRoot(s1.owner, r) && !IsWindow(k)
    ensures r in s0.owner || Follow(s1.mem, r, k).None? || (k >= 256 && e.CloneCall? && r == e.clone)
    ensures r in s0.owner ==> IsRoot(s0.owner, r)
  {
    match e
    case MapCall(root, _, _, _, _) => NoNewRoot(s0, s1, root, r);
    case UnmapCall(root, _, _, _, _, _) => NoNewRoot(s0, s1, root, r);
    case SwitchForeign =>
      if r !in s0.owner && r in s1.mem {
        assert !s1.mem[r][k].present;
      }
    case CloneCall(_, clone) =>
      if r !in s0.owner {
        assert r in {clone};
        assert k < 256 ==> !s1.mem[clone][k].present;
      }
    case DropCall(root, given) => DropSlots(s0, s1, root, given, r, k);
    case FramesMove(_) =>
  }

  /** The call edits the space of `r`. */
  predicate Edits(e: Event, r: Frame) {
    (e.MapCall? || e.UnmapCall? || e.DropCall?) && e.root == r
  }

  /** One call that does not edit the space of `r` leaves its lower half alone. */
  lemma StepIsolates(s0: Snapshot, e: Event, s1: Snapshot, r: Frame, n: int)
    requires Step(s0, e, s1) && LowerHalvesApart(s0) && IsRoot(s0.owner, r) && !Edits(e, r)
    requires ProperPage(n) && PathOf(n)[0] < 256
    ensures IsRoot(s1.owner, r) && Leaf(s1.mem, r, n) == Leaf(s0.mem, r, n)
  {
    ProperPageIsProper(n);
    match e
    case MapCall(root, _, _, _, _) => assert Apart(s0, root, r, PathOf(n)[0]); EvolvesIsolates(s0, s1, root, r, n);
    case UnmapCall(root, _, _, _, _, _) => assert Apart(s0, root, r, PathOf(n)[0]); EvolvesIsolates(s0, s1, root, r, n);
    case SwitchForeign => ProperWalkUnchanged(s0.mem, s1.mem, s0.owner, r, PathOf(n));
    case CloneCall(_, _) => assert SameLeaves(s0.mem, s1.mem, r);
    case DropCall(root, given) =>
      DropParts(s0, s1, root, given);
      assert WalkKept(s0, s1, r, PathOf(n));
    case FramesMove(_) =>
  }

  /** Isolation over whole runs: while only other spaces are edited, no lower-half page of a space ever translates
      differently. */
  lemma {:induction false} LowerHalfIsolated(states: seq<Snapshot>, events: seq<Event>, r: Frame, n: int, i: nat)
    requires Run(states, events) && i < |states|
    requires LowerHalvesApart(states[0]) && IsRoot(states[0].owner, r)
    requires forall j {:trigger events[j]} :: 0 <= j < |events| ==> !Edits(events[j], r)
    requires ProperPage(n) && PathOf(n)[0] < 256
    ensures LowerHalvesApart(states[i]) && IsRoot(states[i].owner, r)
    ensures Leaf(states[i].mem, r, n) == Leaf(states[0].mem, r, n)
  {
    hide LowerHalvesApart, Step, Walk, PathOf;
    if i > 0 {
      LowerHalfIsolated(states, events, r, n, i - 1);
      assert Step(states[i - 1], events[i - 1], states[i]);
      StepKeepsApart(states[i - 1], events[i - 1], states[i]);
      StepIsolates(states[i - 1], events[i - 1], states[i], r, n);
    }
  }

  lemma {:induction false} ApartForever(states: seq<Snapshot>, events: seq<Event>, i: nat)
    requires Run(states, events) && i < |states| && LowerHalvesApart(states[0])
    ensures LowerHalvesApart(states[i])
  {
    hide LowerHalvesApart, Step;
    if i > 0 {
      ApartForever(states, events, i - 1);
      assert Step(states[i - 1], events[i - 1], states[i]);
      StepKeepsApart(states[i - 1], events[i - 1], states[i]);
    }
  }

  // ---------------------------------------------------------------------------------------------
  // Tables in use
  // ---------------------------------------------------------------------------------------------

  /** No page of the range is mapped to a table, or to memory that does not exist. */
  ghost predicate MapsNoTable(s: Snapshot, root: Frame, start: int, end: int) {
    forall n {:trigger Leaf(s.mem, root, n)} :: start <= n < end && ProperPage(n) && Leaf(s.mem, root, n).Some? ==>
      Leaf(s.mem, root, n).value !in s.owner && Leaf(s.mem, root, n).value in s.mem
  }

  /** Where `unmap` gives frames back, they are not tables. */
  ghost predicate Careful(s: Snapshot, e: Event) {
    e.UnmapCall? && e.push ==> MapsNoTable(s, e.root, e.start, e.reached)
  }

  ghost predicate CarefulRun(states: seq<Snapshot>, events: seq<Event>) {
    Run(states, events) && forall i {:trigger events[i]} :: 0 <= i < |events| ==> Careful(states[i], events[i])
  }

  /** Giving back frames that are no tables keeps tables and free frames apart. */
  lemma RemovedStaysSound(s0: Snapshot, s1: Snapshot, root: Frame, start: int, reached: int, push: bool,
                          before: seq<Frame>, after: seq<Frame>)
    requires Sound(s0) && Tree(s1.mem, s1.owner) && Removed(s0, s1, root, start, reached, push, before, after)
    requires push ==> MapsNoTable(s0, root, start, reached)
    ensures Sound(s1)
  {
    var gone := if push then LeafFrames(s0.mem, root, start, reached) else [];
    forall f | f in gone ensures f !in s0.owner && f in s0.mem {
      var i :| 0 <= i < |gone| && gone[i] == f;
      assert ProperPage(start + i) && Leaf(s0.mem, root, start + i) == Some(f);
    }
    RemovedFree(s0, s1, root, start, reached, push, before, after);
  }

  lemma RemovedFree(s0: Snapshot, s1: Snapshot, root: Frame, start: int, reached: int, push: bool, before: seq<Frame>,
                    after: seq<Frame>)
    requires Removed(s0, s1, root, start, reached, push, before, after)
    ensures ProperRange(start, reached) && AllMapped(s0.mem, root, start, reached)
    ensures s1.owner == s0.owner && s1.mem.Keys == s0.mem.Keys
    ensures
      var gone := if push then LeafFrames(s0.mem, root, start, reached) else [];
      s1.free == s0.free + (set f | f in gone)
  {
  }

  /** All tables are in use, and none of them is free. */
  ghost predicate InUse(s: Snapshot) {
    Sound(s) && AllReached(s)
  }

  lemma StepKeepsUse(s0: Snapshot, e: Event, s1: Snapshot)
    requires Step(s0, e, s1) && Careful(s0, e) && InUse(s0)
    ensures InUse(s1)
  {
    match e
    case MapCall(root, _, _, _, _) => EvolvesKeepsReached(s0, s1, root);
    case UnmapCall(root, start, reached, push, before, after) =>
      RemovedStaysSound(s0, s1, root, start, reached, push, before, after);
      EvolvesKeepsReached(s0, s1, root);
    case SwitchForeign =>
      forall f | f in s1.owner && f !in s0.owner ensures IsRoot(s1.owner, f) {
        var e := s1.mem[f][0];
      }
      EntriesKeepReached(s0, s1);
    case CloneCall(_, _) =>
    case DropCall(root, given) => DropParts(s0, s1, root, given);
    case FramesMove(_) => ReachedFree(s0, s1);
  }

  /** Every state of every run has all its tables in use, each at its place in some space, and none of them free. */
  lemma {:induction false} InUseForever(states: seq<Snapshot>, events: seq<Event>, i: nat)
    requires CarefulRun(states, events) && i < |states| && InUse(states[0])
    ensures InUse(states[i])
  {
    hide Step, InUse, Careful;
    if i > 0 {
      InUseForever(states, events, i - 1);
      assert Step(states[i - 1], events[i - 1], states[i]) && Careful(states[i - 1], events[i - 1]);
      StepKeepsUse(states[i - 1], events[i - 1], states[i]);
    }
  }

  /** So every space can be dropped in every state, as no two of them share anything in the lower half. */
  lemma AlwaysDroppable(states: seq<Snapshot>, events: seq<Event>, i: nat, r: Frame)
    requires CarefulRun(states, events) && i < |states| && InUse(states[0]) && LowerHalvesApart(states[0])
    requires IsRoot(states[i].owner, r)
    ensures Droppable(states[i], r)
  {
    InUseForever(states, events, i);
    ApartForever(states, events, i);
    hide Walk, AllReached, Sound, Run;
    forall r', k: Index | IsRoot(states[i].owner, r') && r' != r && k < 256 ensures Apart(states[i], r, r', k) {}
  }

  lemma DropInOneSpace(s0: Snapshot, s1: Snapshot, root: Frame, given: seq<Frame>)
    requires LowerHalfDropped(s0, s1, root, given) && OneSpace(s0, root)
    ensures OneSpace(s1, root)
  {
    hide OneSpace, Sound, Walk, Droppable;
    DropParts(s0, s1, root, given);
    forall r | IsRoot(s1.owner, r) ensures r == root {
      DropSlots(s0, s1, root, given, r, 0);
      OneSpaceTable(s0, root, r);
      WalkNothing(s0.mem, root);
    }
    DroppableAlone(s1, root);
  }

  lemma UnmapInOneSpace(s0: Snapshot, s1: Snapshot, root: Frame, start: int, reached: int, push: bool,
                        before: seq<Frame>, after: seq<Frame>)
    requires OneSpace(s0, root) && Tree(s1.mem, s1.owner) && Removed(s0, s1, root, start, reached, push, before, after)
    requires push ==> MapsNoTable(s0, root, start, reached)
    ensures OneSpace(s1, root)
  {
    OneSpaceEditable(s0, root);
    hide OneSpace, Sound, Walk, Tree;
    RemovedStaysSound(s0, s1, root, start, reached, push, before, after);
    EvolvesKeepsOneSpace(s0, s1, root);
  }

  lemma StepInOneSpace(s0: Snapshot, e: Event, s1: Snapshot, root: Frame)
    requires Step(s0, e, s1) && Careful(s0, e) && OneSpace(s0, root) && (Edits(e, root) || e.FramesMove?)
    ensures OneSpace(s1, root)
  {
    match e
    case MapCall(_, _, _, _, _) => EvolvesKeepsOneSpace(s0, s1, root);
    case UnmapCall(_, start, reached, push, before, after) =>
      UnmapInOneSpace(s0, s1, root, start, reached, push, before, after);
    case DropCall(_, given) => DropInOneSpace(s0, s1, root, given);
    case FramesMove(_) =>
  }

  /** While there is one space, every state of every run of mapping, unmapping and dropping in it has all its tables in
      that space. */
  lemma {:induction false} OneSpaceForever(states: seq<Snapshot>, events: seq<Event>, root: Frame, i: nat)
    requires CarefulRun(states, events) && i < |states| && OneSpace(states[0], root)
    requires forall j {:trigger events[j]} :: 0 <= j < |events| ==> Edits(events[j], root) || events[j].FramesMove?
    ensures OneSpace(states[i], root)
  {
    hide Step, OneSpace, Careful;
    if i > 0 {
      OneSpaceForever(states, events, root, i - 1);
      assert Step(states[i - 1], events[i - 1], states[i]) && Careful(states[i - 1], events[i - 1]);
      StepInOneSpace(states[i - 1], events[i - 1], states[i], root);
    }
  }

  // ---------------------------------------------------------------------------------------------
  // The last page
  // ---------------------------------------------------------------------------------------------

  /** The page that no range of `map` reaches into: such a range ends at address zero, and is skipped. */
  const LAST: nat := PAGES - 1

  lemma LastIsKernel()
    ensures ProperPage(LAST) && PathOf(LAST)[0] == 511
  {
  }

  ghost predicate LastFree(s: Snapshot) {
    forall r {:trigger IsRoot(s.owner, r)} :: IsRoot(s.owner, r) ==> Leaf(s.mem, r, LAST).None?
  }

  /** An operation on one space that does not map the page leaves it unmapped in all of them. */
  lemma EvolvesLeavesFree(s0: Snapshot, s1: Snapshot, root: Frame, r: Frame)
    requires Tree(s0.mem, s0.owner) && Evolves(s0, s1, root) && LastFree(s0) && IsRoot(s0.owner, r)
    requires Leaf(s1.mem, root, LAST).None?
    ensures Leaf(s1.mem, r, LAST).None?
  {
    LastIsKernel();
    hide PathOf, Walk;
    if Apart(s0, root, r, 511) {
      EvolvesIsolates(s0, s1, root, r, LAST);
    } else {
      ApartOrShared(s0, root, r, 511);
      EvolvesGrowsSlots(s0, s1, root);
      StaysShared(s0, s1, root, r, root, 511);
      SlotShared(s1.mem, r, root, 511, LAST);
    }
  }

  lemma MapLeavesFree(s0: Snapshot, s1: Snapshot, root: Frame, start: int, reached: int, end: int, p: Address)
    requires Mapping(s0, s1, root, start, reached, end, p) && LastFree(s0) && reached <= LAST && IsRoot(s0.owner, root)
    ensures Leaf(s1.mem, root, LAST).None?
  {
    LastIsKernel();
    hide PathOf, Walk;
    assert Leaf(s1.mem, root, LAST) == Leaf(s0.mem, root, LAST);
  }

  lemma UnmapLeavesFree(s0: Snapshot, s1: Snapshot, root: Frame, start: int, reached: int, push: bool,
                        before: seq<Frame>, after: seq<Frame>)
    requires Removed(s0, s1, root, start, reached, push, before, after) && LastFree(s0) && IsRoot(s0.owner, root)
    ensures Leaf(s1.mem, root, LAST).None?
  {
    LastIsKernel();
    hide PathOf, Walk;
    assert Leaf(s1.mem, root, LAST) == if start <= LAST < reached then None else Leaf(s0.mem, root, LAST);
  }

  lemma OldRootStaysFree(s0: Snapshot, e: Event, s1: Snapshot, r: Frame)
    requires Step(s0, e, s1) && LastFree(s0) && IsRoot(s0.owner, r)
    ensures Leaf(s1.mem, r, LAST).None?
  {
    LastIsKernel();
    ProperPageIsProper(LAST);
    hide PathOf, Walk;
    match e
    case MapCall(root, start, reached, end, p) =>
      MapLeavesFree(s0, s1, root, start, reached, end, p);
      EvolvesLeavesFree(s0, s1, root, r);
    case UnmapCall(root, start, reached, push, before, after) =>
      UnmapLeavesFree(s0, s1, root, start, reached, push, before, after);
      EvolvesLeavesFree(s0, s1, root, r);
    case SwitchForeign => ProperWalkUnchanged(s0.mem, s1.mem, s0.owner, r, PathOf(LAST));
    case CloneCall(_, _) => assert SameLeaves(s0.mem, s1.mem, r);
    case DropCall(root, given) =>
      DropParts(s0, s1, root, given);
      if r == root {
        assert Walk(s1.mem, root, PathOf(LAST)) == Walk(s0.mem, root, PathOf(LAST));
      } else {
        assert WalkKept(s0, s1, r, PathOf(LAST));
      }
    case FramesMove(_) =>
  }

  lemma StepKeepsLastFree(s0: Snapshot, e: Event, s1: Snapshot)
    requires Step(s0, e, s1) && LastFree(s0)
    ensures LastFree(s1)
  {
    LastIsKernel();
    forall r | IsRoot(s1.owner, r) ensures Leaf(s1.mem, r, LAST).None? {
      NewRootIsEmpty(s0, e, s1, r, 511);
      if r in s0.owner {
        OldRootStaysFree(s0, e, s1, r);
      } else if e.CloneCall? && r == e.clone {
        CloneTranslates(s0, s1, e.current, r, LAST);
      } else {
        WalkOne(s1.mem, r, 511);
        WalkBelowNone(s1.mem, r, [511], PathOf(LAST));
      }
    }
  }

  /** If no space maps the last page at the start, none ever does. */
  lemma {:induction false} LastFreeForever(states: seq<Snapshot>, events: seq<Event>, i: nat)
    requires Run(states, events) && i < |states| && LastFree(states[0])
    ensures LastFree(states[i])
  {
    hide Step, LastFree;
    if i > 0 {
      LastFreeForever(states, events, i - 1);
      assert Step(states[i - 1], events[i - 1], states[i]);
      StepKeepsLastFree(states[i - 1], events[i - 1], states[i]);
    }
  }

  /** So `unmap` never leaves its tables: of a range whose loops begin above their end it always meets a page that is
      not mapped, and above the windows it may be asked for any such range. */
  lemma TurnedAroundPanics(states: seq<Snapshot>, events: seq<Event>, i: nat, root: Frame, start: int, end: int)
    requires Run(states, events) && i < |states| && LastFree(states[0]) && IsRoot(states[i].owner, root)
    requires 0 <= end < start < PAGES
    ensures !AllMapped(states[i].mem, root, start, PAGES)
    ensures start >= 0x8_1000_0000 ==> StopsInside(states[i].mem, root, start, end)
  {
    LastFreeForever(states, events, i);
    LastIsKernel();
    if start >= 0x8_1000_0000 { TurnedAroundRange(states[i].mem, root, start, end, LAST); }
    assert Leaf(states[i].mem, root, LAST).None?;
  }

  /** What holds when the kernel has taken over, of one space in which the last page is free. */
  ghost predicate FirstState(s: Snapshot) {
    InUse(s) && LowerHalvesApart(s) && LastFree(s)
  }

  lemma AloneIsFirst(s: Snapshot, root: Frame)
    requires OneSpace(s, root) && Leaf(s.mem, root, LAST).None?
    ensures FirstState(s)
  {
    OneSpaceDroppable(s, root);
    forall r | IsRoot(s.owner, r) ensures r == root { OneSpaceTable(s, root, r); }
  }
}
