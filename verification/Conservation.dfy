/** Frames are conserved: every frame is free, a table, or mapped at exactly one managed page. */
module Conservation {
  import opened Basics
  import opened PageTables
  import opened Addresses
  import opened AddressSpaces
  import opened Ranges
  import opened Spaces
  import opened Dropping

  /** The frame `f` is mapped at some managed page. */
  ghost predicate InUse(m: Memory, root: Frame, managed: set<int>, f: Frame) {
    exists n {:trigger Leaf(m, root, n)} :: n in managed && ProperPage(n) && Leaf(m, root, n) == Some(f)
  }

  /** Free frames, tables and frames of managed pages partition the set `all`, and no two managed pages share
      a frame. */
  ghost predicate Conserved(s: Snapshot, root: Frame, managed: set<int>, all: set<Frame>) {
    Whole(
      && Sound(s) && IsRoot(s.owner, root) && all <= s.mem.Keys
      && (forall n {:trigger n in managed} :: n in managed ==> ProperPage(n) && Leaf(s.mem, root, n).Some?)
      && (forall n {:trigger Leaf(s.mem, root, n)} :: n in managed && ProperPage(n) && Leaf(s.mem, root, n).Some? ==>
            Leaf(s.mem, root, n).value !in s.free && Leaf(s.mem, root, n).value !in s.owner)
      && (forall n, k {:trigger Leaf(s.mem, root, n), Leaf(s.mem, root, k)} ::
            n in managed && k in managed && n != k && ProperPage(n) && ProperPage(k) && Leaf(s.mem, root, n).Some? ==>
              Leaf(s.mem, root, n) != Leaf(s.mem, root, k))
      && (forall f {:trigger f in all} :: f in all <==> f in s.free || f in s.owner || InUse(s.mem, root, managed, f)))
  }

  lemma ConservedPage(s: Snapshot, root: Frame, managed: set<int>, all: set<Frame>, n: int)
    requires Conserved(s, root, managed, all) && n in managed
    ensures ProperPage(n) && Leaf(s.mem, root, n).Some?
    ensures Leaf(s.mem, root, n).value !in s.free && Leaf(s.mem, root, n).value !in s.owner
  {
  }

  lemma Using(m: Memory, root: Frame, managed: set<int>, n: int)
    requires n in managed && ProperPage(n) && Leaf(m, root, n).Some?
    ensures InUse(m, root, managed, Leaf(m, root, n).value)
  {
  }

  /** One page of `vm::map`: `f` is popped and mapped at page `n`. */
  ghost predicate FramePlaced(s0: Snapshot, s1: Snapshot, root: Frame, n: int, f: Frame) {
    f in s0.free && Mapping(s0.(free := s0.free - {f}), s1, root, n, n + 1, n + 1, f * PAGE)
  }

  lemma PlacedLeaves(s0: Snapshot, s1: Snapshot, root: Frame, n: int, f: Frame)
    requires Sound(s0) && FramePlaced(s0, s1, root, n, f) && ProperPage(n)
    ensures Sound(s1) && IsRoot(s1.owner, root) && Leaf(s1.mem, root, n) == Some(f) && f !in s1.free && f !in s1.owner
    ensures s1.mem.Keys == s0.mem.Keys
    ensures forall k {:trigger Leaf(s1.mem, root, k)} :: ProperPage(k) && k != n ==>
              Leaf(s1.mem, root, k) == Leaf(s0.mem, root, k)
    ensures s1.free <= s0.free - {f} && s0.owner.Keys <= s1.owner.Keys
    ensures s1.owner.Keys - s0.owner.Keys == (s0.free - {f}) - s1.free
  {
    MappedOnePage(s0.(free := s0.free - {f}), s1, root, n, f);
  }

  lemma PlacedKeepsUses(m0: Memory, m1: Memory, root: Frame, managed: set<int>, n: int, f: Frame, g: Frame)
    requires ProperPage(n) && n !in managed && Leaf(m1, root, n) == Some(f)
    requires forall k {:trigger Leaf(m1, root, k)} :: ProperPage(k) && k != n ==> Leaf(m1, root, k) == Leaf(m0, root, k)
    ensures InUse(m1, root, managed + {n}, g) <==> g == f || InUse(m0, root, managed, g)
  {
    if InUse(m1, root, managed + {n}, g) {
      var k :| k in managed + {n} && ProperPage(k) && Leaf(m1, root, k) == Some(g);
      if k != n {
        Using(m0, root, managed, k);
      }
    }
    if InUse(m0, root, managed, g) {
      var k :| k in managed && ProperPage(k) && Leaf(m0, root, k) == Some(g);
      assert Leaf(m1, root, k) == Some(g);
      Using(m1, root, managed + {n}, k);
    }
    if g == f {
      Using(m1, root, managed + {n}, n);
    }
  }

  lemma PlacedPage(s0: Snapshot, s1: Snapshot, root: Frame, managed: set<int>, all: set<Frame>, n: int, f: Frame,
                   k: int)
    requires Conserved(s0, root, managed, all) && FramePlaced(s0, s1, root, n, f) && ProperPage(n) && n !in managed
    requires k in managed
    ensures ProperPage(k) && Leaf(s1.mem, root, k) == Leaf(s0.mem, root, k) && Leaf(s1.mem, root, k).Some?
    ensures Leaf(s1.mem, root, k) != Some(f)
    ensures Leaf(s1.mem, root, k).value !in s1.free && Leaf(s1.mem, root, k).value !in s1.owner
  {
    hide FramePlaced;
    ConservedPage(s0, root, managed, all, k);
    ConservedSound(s0, root, managed, all);
    PlacedLeaves(s0, s1, root, n, f);
    FramePlacedFree(s0, s1, root, n, f);
    assert Leaf(s0.mem, root, k).value !in s1.owner.Keys - s0.owner.Keys;
  }

  lemma FramePlacedFree(s0: Snapshot, s1: Snapshot, root: Frame, n: int, f: Frame)
    requires FramePlaced(s0, s1, root, n, f)
    ensures f in s0.free
  {
  }

  lemma ConservedSound(s: Snapshot, root: Frame, managed: set<int>, all: set<Frame>)
    requires Conserved(s, root, managed, all)
    ensures Sound(s) && IsRoot(s.owner, root)
  {
  }

  /** A popped frame is placed at an unmanaged page only: at a managed one `map` finds another frame, and panics. */
  lemma PlacedUnmanaged(s0: Snapshot, s1: Snapshot, root: Frame, managed: set<int>, all: set<Frame>, n: int, f: Frame)
    requires Conserved(s0, root, managed, all) && FramePlaced(s0, s1, root, n, f) && ProperPage(n)
    ensures n !in managed
  {
    AdvanceOne(f * PAGE, 0);
    assert !ClashAt(s0.mem, root, n, n, f * PAGE);
  }

  lemma PlacedFrames(s0: Snapshot, s1: Snapshot, root: Frame, managed: set<int>, all: set<Frame>, n: int, f: Frame,
                     g: Frame)
    requires Conserved(s0, root, managed, all) && FramePlaced(s0, s1, root, n, f) && ProperPage(n) && n !in managed
    ensures g in all <==> g in s1.free || g in s1.owner || InUse(s1.mem, root, managed + {n}, g)
  {
    hide FramePlaced, Walk, Sound;
    ConservedSound(s0, root, managed, all);
    PlacedLeaves(s0, s1, root, n, f);
    FramePlacedFree(s0, s1, root, n, f);
    PlacedKeepsUses(s0.mem, s1.mem, root, managed, n, f, g);
    assert g in s1.owner.Keys - s0.owner.Keys <==> g in (s0.free - {f}) - s1.free;
  }

  /** Placing a frame at an unmanaged page conserves frames. */
  lemma PlacedConserves(s0: Snapshot, s1: Snapshot, root: Frame, managed: set<int>, all: set<Frame>, n: int, f: Frame)
    requires Conserved(s0, root, managed, all) && FramePlaced(s0, s1, root, n, f) && ProperPage(n) && n !in managed
    ensures Conserved(s1, root, managed + {n}, all)
  {
    hide FramePlaced, Walk, Sound, InUse;
    ConservedSound(s0, root, managed, all);
    PlacedLeaves(s0, s1, root, n, f);
    forall k | k in managed
      ensures ProperPage(k) && Leaf(s1.mem, root, k) == Leaf(s0.mem, root, k) && Leaf(s1.mem, root, k).Some?
      ensures Leaf(s1.mem, root, k) != Some(f)
      ensures Leaf(s1.mem, root, k).value !in s1.free && Leaf(s1.mem, root, k).value !in s1.owner
    {
      PlacedPage(s0, s1, root, managed, all, n, f, k);
    }
    forall g
      ensures g in all <==> g in s1.free || g in s1.owner || InUse(s1.mem, root, managed + {n}, g)
    {
      PlacedFrames(s0, s1, root, managed, all, n, f, g);
    }
  }

  /** Everything about a frame that was popped and placed at one page. */
  lemma FreshPlaced(s0: Snapshot, s1: Snapshot, root: Frame, managed: set<int>, all: set<Frame>, n: int, f: Frame)
    requires Conserved(s0, root, managed, all) && FramePlaced(s0, s1, root, n, f) && ProperPage(n)
    ensures n !in managed && Conserved(s1, root, managed + {n}, all) && LeafAdded(s0.mem, s1.mem, root, n)
  {
    hide FramePlaced, Conserved, Sound;
    ConservedSound(s0, root, managed, all);
    PlacedLeaves(s0, s1, root, n, f);
    PlacedUnmanaged(s0, s1, root, managed, all, n, f);
    PlacedConserves(s0, s1, root, managed, all, n, f);
  }

  // ---------------------------------------------------------------------------------------------
  // Giving frames back
  // ---------------------------------------------------------------------------------------------

  function Pages(start: int, end: int): (ps: set<int>)
    ensures forall n :: n in ps <==> start <= n < end
    decreases end - start
  {
    if end <= start then {} else Pages(start, end - 1) + {end - 1}
  }

  /** `unmap` with `push` of managed pages gives back each of their frames once, and none that was free. */
  lemma GivenBackOnce(s0: Snapshot, s1: Snapshot, root: Frame, managed: set<int>, all: set<Frame>, start: int, n: int,
                      before: seq<Frame>, after: seq<Frame>)
    requires Conserved(s0, root, managed, all) && Removed(s0, s1, root, start, n, true, before, after)
    requires Pages(start, n) <= managed
    ensures var gone := LeafFrames(s0.mem, root, start, n);
            && after == before + gone && NoDuplicates(gone)
            && (forall f :: f in gone ==> f !in s0.free && f !in s0.owner && f in s1.free)
            && (forall f :: f in s1.free ==> f in s0.free || f in gone)
  {
    var gone := LeafFrames(s0.mem, root, start, n);
    forall i | 0 <= i < |gone|
      ensures gone[i] !in s0.free && gone[i] !in s0.owner
    {
      assert start + i in Pages(start, n);
      ConservedPage(s0, root, managed, all, start + i);
    }
    forall i, j | 0 <= i < j < |gone|
      ensures gone[i] != gone[j]
    {
      assert start + i in Pages(start, n) && start + j in Pages(start, n);
      assert Leaf(s0.mem, root, start + i) == Some(gone[i]) && Leaf(s0.mem, root, start + j) == Some(gone[j]);
    }
  }

  lemma InLeafFrames(m: Memory, root: Frame, start: int, n: int, f: Frame)
    requires ProperRange(start, n) && AllMapped(m, root, start, n)
    ensures f in LeafFrames(m, root, start, n) <==> InUse(m, root, Pages(start, n), f)
  {
    var fs := LeafFrames(m, root, start, n);
    if f in fs {
      var i :| 0 <= i < |fs| && fs[i] == f;
      assert start + i in Pages(start, n);
      Using(m, root, Pages(start, n), start + i);
    }
    if InUse(m, root, Pages(start, n), f) {
      var k :| k in Pages(start, n) && ProperPage(k) && Leaf(m, root, k) == Some(f);
      assert Leaf(m, root, start + (k - start)) == Some(fs[k - start]);
    }
  }

  lemma RemovedUses(m0: Memory, m1: Memory, root: Frame, managed: set<int>, start: int, n: int, f: Frame)
    requires Unmapped(m0, m1, root, start, n) && Pages(start, n) <= managed
    ensures InUse(m1, root, managed - Pages(start, n), f) ==> InUse(m0, root, managed, f)
    ensures InUse(m0, root, managed, f) ==>
              InUse(m1, root, managed - Pages(start, n), f) || InUse(m0, root, Pages(start, n), f)
    ensures InUse(m0, root, Pages(start, n), f) ==> InUse(m0, root, managed, f)
  {
    if InUse(m1, root, managed - Pages(start, n), f) {
      var k :| k in managed - Pages(start, n) && ProperPage(k) && Leaf(m1, root, k) == Some(f);
      assert Leaf(m0, root, k) == Some(f);
      Using(m0, root, managed, k);
    }
    if InUse(m0, root, managed, f) {
      var k :| k in managed && ProperPage(k) && Leaf(m0, root, k) == Some(f);
      if k in Pages(start, n) {
        Using(m0, root, Pages(start, n), k);
      } else {
        assert Leaf(m1, root, k) == Some(f);
        Using(m1, root, managed - Pages(start, n), k);
      }
    }
    if InUse(m0, root, Pages(start, n), f) {
      var k :| k in Pages(start, n) && ProperPage(k) && Leaf(m0, root, k) == Some(f);
      Using(m0, root, managed, k);
    }
  }

  lemma RemovedMeans(s0: Snapshot, s1: Snapshot, root: Frame, start: int, n: int, before: seq<Frame>, after: seq<Frame>)
    requires Removed(s0, s1, root, start, n, true, before, after)
    ensures ProperRange(start, n) && AllMapped(s0.mem, root, start, n) && Unmapped(s0.mem, s1.mem, root, start, n)
    ensures s1.owner == s0.owner && s1.free == s0.free + (set f | f in LeafFrames(s0.mem, root, start, n))
  {
  }

  lemma RemovedPage(s0: Snapshot, s1: Snapshot, root: Frame, managed: set<int>, all: set<Frame>, start: int, n: int,
                    before: seq<Frame>, after: seq<Frame>, k: int)
    requires Conserved(s0, root, managed, all) && Removed(s0, s1, root, start, n, true, before, after)
    requires Pages(start, n) <= managed && k in managed - Pages(start, n)
    ensures ProperPage(k) && Leaf(s1.mem, root, k) == Leaf(s0.mem, root, k) && Leaf(s1.mem, root, k).Some?
    ensures Leaf(s1.mem, root, k).value !in s1.free && Leaf(s1.mem, root, k).value !in s1.owner
  {
    hide Removed;
    ConservedPage(s0, root, managed, all, k);
    RemovedMeans(s0, s1, root, start, n, before, after);
    var g := Leaf(s0.mem, root, k).value;
    InLeafFrames(s0.mem, root, start, n, g);
    assert !InUse(s0.mem, root, Pages(start, n), g);
  }

  lemma RemovedFrames(s0: Snapshot, s1: Snapshot, root: Frame, managed: set<int>, all: set<Frame>, start: int, n: int,
                      before: seq<Frame>, after: seq<Frame>, f: Frame)
    requires Conserved(s0, root, managed, all) && Removed(s0, s1, root, start, n, true, before, after)
    requires Pages(start, n) <= managed
    ensures f in all <==> f in s1.free || f in s1.owner || InUse(s1.mem, root, managed - Pages(start, n), f)
  {
    hide Removed;
    RemovedMeans(s0, s1, root, start, n, before, after);
    RemovedUses(s0.mem, s1.mem, root, managed, start, n, f);
    InLeafFrames(s0.mem, root, start, n, f);
  }

  lemma RemovedSound(s0: Snapshot, s1: Snapshot, root: Frame, managed: set<int>, all: set<Frame>, start: int, n: int,
                     before: seq<Frame>, after: seq<Frame>)
    requires Conserved(s0, root, managed, all) && Removed(s0, s1, root, start, n, true, before, after)
    requires Pages(start, n) <= managed && Tree(s1.mem, s1.owner)
    ensures Sound(s1) && IsRoot(s1.owner, root) && all <= s1.mem.Keys
  {
    GivenBackOnce(s0, s1, root, managed, all, start, n, before, after);
    RemovedMeans(s0, s1, root, start, n, before, after);
    forall f | f in s1.free
      ensures f in s1.mem && f !in s1.owner
    {
      if f !in s0.free {
        assert f in LeafFrames(s0.mem, root, start, n);
        InLeafFrames(s0.mem, root, start, n, f);
        RemovedUses(s0.mem, s1.mem, root, managed, start, n, f);
        assert f in all;
      }
    }
  }

  /** Unmapping managed pages with `push` conserves frames. */
  lemma RemovedConserves(s0: Snapshot, s1: Snapshot, root: Frame, managed: set<int>, all: set<Frame>, start: int,
                         n: int, before: seq<Frame>, after: seq<Frame>)
    requires Conserved(s0, root, managed, all) && Removed(s0, s1, root, start, n, true, before, after)
    requires Pages(start, n) <= managed && Tree(s1.mem, s1.owner)
    ensures Conserved(s1, root, managed - Pages(start, n), all)
  {
    hide Removed;
    RemovedSound(s0, s1, root, managed, all, start, n, before, after);
    forall k | k in managed - Pages(start, n)
      ensures ProperPage(k) && Leaf(s1.mem, root, k) == Leaf(s0.mem, root, k) && Leaf(s1.mem, root, k).Some?
      ensures Leaf(s1.mem, root, k).value !in s1.free && Leaf(s1.mem, root, k).value !in s1.owner
    {
      RemovedPage(s0, s1, root, managed, all, start, n, before, after, k);
    }
    forall f
      ensures f in all <==> f in s1.free || f in s1.owner || InUse(s1.mem, root, managed - Pages(start, n), f)
    {
      RemovedFrames(s0, s1, root, managed, all, start, n, before, after, f);
    }
  }

  // ---------------------------------------------------------------------------------------------
  // Runs
  // ---------------------------------------------------------------------------------------------

  /** What users of virtual memory do: one page of `vm::map`, or `vm::unmap` of a range, in the space of a root. */
  datatype Use =
    | Take(n: int, f: Frame)
    | GiveBack(start: int, end: int, before: seq<Frame>, after: seq<Frame>)

  ghost predicate UseStep(s0: Snapshot, u: Use, s1: Snapshot, root: Frame) {
    match u
    case Take(n, f) => ProperPage(n) && FramePlaced(s0, s1, root, n, f)
    case GiveBack(start, end, before, after) =>
           Tree(s1.mem, s1.owner) && Removed(s0, s1, root, start, end, true, before, after)
  }

  /** Users map pages that they do not have, and unmap pages that they have. */
  predicate Honest(u: Use, managed: set<int>) {
    match u
    case Take(n, _) => n !in managed
    case GiveBack(start, end, _, _) => Pages(start, end) <= managed
  }

  function ManagedAfter(managed: set<int>, us: seq<Use>): set<int>
  {
    if us == [] then managed
    else
      var before := ManagedAfter(managed, us[..|us| - 1]);
      match us[|us| - 1]
      case Take(n, _) => before + {n}
      case GiveBack(start, end, _, _) => before - Pages(start, end)
  }

  /** Over any run, no frame is lost, doubled, or in two places. */
  lemma {:induction false} RunConserves(states: seq<Snapshot>, us: seq<Use>, root: Frame, managed: set<int>,
                                        all: set<Frame>, i: nat)
    requires |states| == |us| + 1 && i <= |us|
    requires forall j {:trigger us[j]} :: 0 <= j < |us| ==>
               UseStep(states[j], us[j], states[j + 1], root) && Honest(us[j], ManagedAfter(managed, us[..j]))
    requires Conserved(states[0], root, managed, all)
    ensures Conserved(states[i], root, ManagedAfter(managed, us[..i]), all)
  {
    if i > 0 {
      RunConserves(states, us, root, managed, all, i - 1);
      assert us[..i][..i - 1] == us[..i - 1];
      var m := ManagedAfter(managed, us[..i - 1]);
      match us[i - 1]
      case Take(n, f) => PlacedConserves(states[i - 1], states[i], root, m, all, n, f);
      case GiveBack(start, end, before, after) =>
        RemovedConserves(states[i - 1], states[i], root, m, all, start, end, before, after);
    }
  }
}
