/** The kernel's source of virtual address ranges, and what it means for mapping them. */
module AddressRanges {
  import opened Basics
  import opened PageTables
  import opened Addresses
  import opened AddressSpaces
  import opened Ranges

  /** Ranges are handed out downwards from here. */
  const TOP: Address := 0xFFFF_FFFF_8000_0000

  /** The first address above the paging windows. */
  const FLOOR: Address := UPPER_START + 2 * 0x80_0000_0000

  /** What `fetch_sub` leaves: the new lowest address, which is also the one handed out. */
  function Lowered(lowest: Address, size: Address): Address {
    (lowest - RoundUp(size)) % WORD
  }

  class AddressSource {
    var lowest: Address

    constructor ()
      ensures lowest == 0xFFFF_FFFF_8000_0000
    {
      lowest := TOP;
    }

    /** Fails, with a panic, only when the new lowest address has left the upper half. */
    method Allocate(size: Address) returns (r: Option<Address>)
      modifies this
      ensures lowest == Lowered(old(lowest), size)
      ensures r == if lowest < 0xFFFF_8000_0000_0000 then None else Some(lowest)
    {
      var realSize := (size + 4095) % WORD;
      realSize := realSize - realSize % PAGE;
      lowest := (lowest - realSize) % WORD;
      if lowest < UPPER_START {
        return None;
      }
      return Some(lowest);
    }
  }

  /** A range that was handed out lies below everything handed out before if and only if its size is at most the
      lowest address so far; a larger size wraps around and is not noticed. */
  lemma BelowIffFits(lowest: Address, size: Address)
    requires lowest % PAGE == 0 && Lowered(lowest, size) >= UPPER_START
    ensures Lowered(lowest, size) % PAGE == 0
    ensures Lowered(lowest, size) + size <= lowest <==> size <= lowest
    ensures size <= lowest ==> Lowered(lowest, size) + RoundUp(size) == lowest
  {
    var whole := RoundUp(size);
    if size <= lowest {
      RoundUpBelow(size, lowest);
      assert Lowered(lowest, size) == lowest - whole;
    } else if size <= WORD - PAGE {
      assert Lowered(lowest, size) == lowest - whole + WORD;
    } else {
      assert whole == 0;
      assert Lowered(lowest, size) == lowest;
    }
  }

  lemma RoundUpBelow(size: Address, a: Address)
    requires a % PAGE == 0 && size <= a
    ensures RoundUp(size) <= a
  {
    assert a <= WORD - PAGE;
  }

  lemma HugeSizeOverlaps()
    ensures Lowered(TOP, WORD - PAGE) == TOP + PAGE
  {
  }

  // ---------------------------------------------------------------------------------------------
  // Runs of allocating and mapping
  // ---------------------------------------------------------------------------------------------

  /** A range that was handed out, in pages. */
  datatype Range = Range(first: int, end: int)

  /** `mapped` are the indices of the ranges that a call of `map` was made for. */
  datatype State = State(lowest: Address, ranges: seq<Range>, mapped: set<nat>, s: Snapshot)

  /** Number of the page at an aligned address of the upper half. */
  function Page(a: Address): int {
    a / PAGE - 0xF_FFF0_0000_0000
  }

  /** Pages that only handed-out ranges are mapped in. */
  predicate Managed(n: int) {
    Page(FLOOR) <= n < Page(TOP)
  }

  datatype Event =
    | Reserve(size: Address)
    | MapRange(i: nat, reached: int, p: Address)
    | MapElsewhere(start: int, reached: int, end: int, p: Address)
    | Unmap(start: int, reached: int, push: bool, before: seq<Frame>, after: seq<Frame>)

  /** One step. A panic while mapping is a step too: `reached` says how far the call came. A range that begins in the
      windows is refused by `map`. */
  ghost predicate Step(root: Frame, t: State, e: Event, t': State) {
    match e
    case Reserve(size) =>
      && size <= t.lowest && Lowered(t.lowest, size) >= UPPER_START
      && t' == t.(lowest := Lowered(t.lowest, size),
         ranges := t.ranges + [Range(Page(Lowered(t.lowest, size)), Page(t.lowest))])
    case MapRange(i, reached, p) =>
      && i < |t.ranges| && i !in t.mapped && Page(FLOOR) <= t.ranges[i].first <= reached <= t.ranges[i].end
      && Mapping(t.s, t'.s, root, t.ranges[i].first, reached, t.ranges[i].end, p)
      && t' == t.(mapped := t.mapped + {i}, s := t'.s)
    case MapElsewhere(start, reached, end, p) =>
      && start <= reached <= end && (forall n :: start <= n < end ==> !Managed(n))
      && Mapping(t.s, t'.s, root, start, reached, end, p)
      && t' == t.(s := t'.s)
    case Unmap(start, reached, push, before, after) =>
      && Removed(t.s, t'.s, root, start, reached, push, before, after)
      && t' == t.(s := t'.s)
  }

  ghost predicate Run(root: Frame, states: seq<State>, events: seq<Event>) {
    && |states| == |events| + 1
    && states[0].lowest == TOP && states[0].ranges == [] && states[0].mapped == {}
    && (forall n {:trigger Leaf(states[0].s.mem, root, n)} :: Managed(n) && ProperPage(n) ==>
           Leaf(states[0].s.mem, root, n).None?)
    && forall k {:trigger events[k]} :: 0 <= k < |events| ==> Step(root, states[k], events[k], states[k + 1])
  }

  /** Pages below the lowest address, and pages of ranges that were not mapped yet. */
  predicate Untouched(t: State, n: int) {
    || Page(FLOOR) <= n < Page(t.lowest)
    || exists i :: 0 <= i < |t.ranges| && i !in t.mapped && Page(FLOOR) <= t.ranges[i].first <= n < t.ranges[i].end
  }

  ghost predicate Inv(root: Frame, t: State) {
    && t.lowest % PAGE == 0 && UPPER_START <= t.lowest <= TOP
    && (forall i {:trigger t.ranges[i]} :: 0 <= i < |t.ranges| ==>
           Page(t.lowest) <= t.ranges[i].first <= t.ranges[i].end <= Page(TOP))
    && (forall i, j {:trigger t.ranges[i], t.ranges[j]} :: 0 <= i < j < |t.ranges| ==>
           t.ranges[j].end <= t.ranges[i].first)
    && (forall n {:trigger Leaf(t.s.mem, root, n)} :: Untouched(t, n) && ProperPage(n) ==> Leaf(t.s.mem, root, n).None?)
  }

  lemma ReserveKeeps(root: Frame, t: State, size: Address, t': State)
    requires Inv(root, t) && Step(root, t, Reserve(size), t')
    ensures Inv(root, t')
  {
    BelowIffFits(t.lowest, size);
    forall n | Untouched(t', n) && ProperPage(n) ensures Leaf(t'.s.mem, root, n).None? {
      if i :| 0 <= i < |t'.ranges| && i !in t'.mapped && Page(FLOOR) <= t'.ranges[i].first <= n < t'.ranges[i].end {
        if i < |t.ranges| { assert t.ranges[i] == t'.ranges[i]; }
      }
      assert Untouched(t, n);
    }
  }

  lemma MappingElsewhere(root: Frame, s: Snapshot, s': Snapshot, first: int, reached: int, end: int, p: Address, n: int)
    requires Mapping(s, s', root, first, reached, end, p) && ProperPage(n) && !(first <= n < reached)
    ensures Leaf(s'.mem, root, n) == Leaf(s.mem, root, n)
  {
  }

  lemma MapRangeKeeps(root: Frame, t: State, i: nat, reached: int, p: Address, t': State)
    requires Inv(root, t) && Step(root, t, MapRange(i, reached, p), t')
    ensures Inv(root, t')
  {
    forall n | Untouched(t', n) && ProperPage(n) ensures Leaf(t'.s.mem, root, n).None? {
      assert t.ranges[i].first >= Page(t.lowest);
      assert Untouched(t, n);
      MappingElsewhere(root, t.s, t'.s, t.ranges[i].first, reached, t.ranges[i].end, p, n);
    }
  }

  lemma OtherStepsKeep(root: Frame, t: State, e: Event, t': State)
    requires Inv(root, t) && Step(root, t, e, t') && (e.MapElsewhere? || e.Unmap?)
    ensures Inv(root, t')
  {
    forall n | Untouched(t', n) && ProperPage(n) ensures Leaf(t'.s.mem, root, n).None? {
      assert Untouched(t, n) && Managed(n);
      match e
      case MapElsewhere(start, reached, end, p) => MappingElsewhere(root, t.s, t'.s, start, reached, end, p, n);
      case Unmap(start, reached, push, before, after) =>
        assert Leaf(t'.s.mem, root, n) == if start <= n < reached then None else Leaf(t.s.mem, root, n);
    }
  }

  lemma {:induction false} RunInv(root: Frame, states: seq<State>, events: seq<Event>, k: nat)
    requires Run(root, states, events) && k < |states|
    ensures Inv(root, states[k])
  {
    if k == 0 {
    } else {
      RunInv(root, states, events, k - 1);
      assert Step(root, states[k - 1], events[k - 1], states[k - 1 + 1]);
      match events[k - 1]
      case Reserve(size) => ReserveKeeps(root, states[k - 1], size, states[k]);
      case MapRange(i, reached, p) => MapRangeKeeps(root, states[k - 1], i, reached, p, states[k]);
      case MapElsewhere(_, _, _, _) => OtherStepsKeep(root, states[k - 1], events[k - 1], states[k]);
      case Unmap(_, _, _, _, _) => OtherStepsKeep(root, states[k - 1], events[k - 1], states[k]);
    }
  }

  /** Ranges handed out in one run never overlap. */
  lemma RangesDisjoint(root: Frame, states: seq<State>, events: seq<Event>, k: nat, i: nat, j: nat, n: int)
    requires Run(root, states, events) && k < |states| && i < |states[k].ranges| && j < |states[k].ranges|
    requires states[k].ranges[i].first <= n < states[k].ranges[i].end
    requires states[k].ranges[j].first <= n < states[k].ranges[j].end
    ensures i == j && Page(UPPER_START) <= n < Page(TOP)
  {
    RunInv(root, states, events, k);
  }

  /** Mapping a range for the first time never panics as already mapped, whatever was allocated, mapped and unmapped
      in between, and whatever it is mapped to. */
  lemma NeverAlreadyMapped(root: Frame, states: seq<State>, events: seq<Event>, k: nat, i: nat, n: int, p: Address)
    requires Run(root, states, events) && k < |states| && i < |states[k].ranges| && i !in states[k].mapped
    requires Page(FLOOR) <= states[k].ranges[i].first <= n < states[k].ranges[i].end
    ensures ProperPage(n) && !ClashAt(states[k].s.mem, root, states[k].ranges[i].first, n, p)
  {
    RunInv(root, states, events, k);
    assert Untouched(states[k], n);
  }
}
