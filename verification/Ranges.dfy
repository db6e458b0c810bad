/** Ranges of pages: what map and unmap do to one, and where their loops stand. */
module Ranges {
  import opened Basics
  import opened PageTables
  import opened Addresses
  import opened AddressSpaces

  /** Pages `start` up to `end` translate to consecutive frames from `p`, all others as before. */
  ghost predicate Mapped(m0: Memory, m1: Memory, root: Frame, start: int, end: int, p: Address) {
    forall n {:trigger Leaf(m1, root, n)} :: ProperPage(n) ==>
      Leaf(m1, root, n) == if start <= n < end then Some(FrameOf(Advance(p, n - start))) else Leaf(m0, root, n)
  }

  /** Pages `start` up to `end` translate to nothing, all others as before. */
  ghost predicate Unmapped(m0: Memory, m1: Memory, root: Frame, start: int, end: int) {
    forall n {:trigger Leaf(m1, root, n)} :: ProperPage(n) ==>
      Leaf(m1, root, n) == if start <= n < end then None else Leaf(m0, root, n)
  }

  /** Mapping page `n` to `p` panics: it is mapped, and not to the address `p`. */
  ghost predicate Clash(m: Memory, root: Frame, n: int, p: Address)
    requires 0 <= n < PAGES
  {
    Leaf(m, root, n).Some? && p != Leaf(m, root, n).value * PAGE
  }

  ghost predicate ClashAt(m: Memory, root: Frame, start: int, n: int, p: Address)
    requires 0 <= n < PAGES && start <= n
  {
    Clash(m, root, n, Advance(p, n - start))
  }

  ghost predicate ClashFree(m: Memory, root: Frame, start: int, end: int, p: Address) {
    forall n {:trigger ClashAt(m, root, start, n, p)} :: start <= n < end && ProperPage(n) ==>
             !ClashAt(m, root, start, n, p)
  }

  ghost predicate ProperRange(start: int, end: int) {
    forall n :: start <= n < end ==> ProperPage(n)
  }

  /** Some page of the range lies below the table at `q`. */
  ghost predicate Needed(q: Path, start: int, end: int) {
    exists n :: start <= n < end && ProperPage(n) && q <= PathOf(n)
  }

  ghost predicate OnlyNeededTables(s0: Snapshot, s1: Snapshot, start: int, end: int) {
    forall f :: f in s1.owner && f !in s0.owner ==> Needed(s1.owner[f].path, start, end)
  }

  /** The state in the middle of mapping `start` up to `end`: everything below `cur` is done. */
  ghost predicate Mapping(s0: Snapshot, s: Snapshot, root: Frame, start: int, cur: int, end: int, p: Address) {
    Whole(
      && Sound(s) && Evolves(s0, s, root) && TablesFromFree(s0, s)
      && Mapped(s0.mem, s.mem, root, start, cur, p)
      && ClashFree(s0.mem, root, start, cur, p)
      && OnlyNeededTables(s0, s, start, end))
  }

  lemma MappingStarts(s: Snapshot, root: Frame, start: int, end: int, p: Address)
    requires Sound(s) && IsRoot(s.owner, root)
    ensures Mapping(s, s, root, start, start, end, p)
  {
    EvolvesRefl(s, root);
  }

  lemma MappingTable(s0: Snapshot, s: Snapshot, s': Snapshot, root: Frame, start: int, cur: int, end: int, p: Address,
                     q: Path)
    requires Sound(s0) && Mapping(s0, s, root, start, cur, end, p) && TableEnsured(s, s', root, q)
    requires start <= cur < end && ProperPage(cur) && q <= PathOf(cur)
    ensures Mapping(s0, s', root, start, cur, end, p)
  {
    hide Walk, PathOf, ClashFree, TablesKept, NewTablesAdded, WritesOwnTables;
    EvolvesTrans(s0, s, s', root);
    hide Sound, Tree;
    assert Needed(q, start, end);
  }

  lemma MappingPage(s0: Snapshot, s: Snapshot, s': Snapshot, root: Frame, start: int, cur: int, end: int, p: Address)
    requires Sound(s0) && Mapping(s0, s, root, start, cur, end, p)
    requires start <= cur < end && ProperPage(cur)
    requires Sound(s') && Evolves(s, s', root) && TablesFromFree(s, s') && s'.owner == s.owner
    requires !Clash(s0.mem, root, cur, Advance(p, cur - start))
    requires LeafChanged(s.mem, s'.mem, root, cur, Some(FrameOf(Advance(p, cur - start))))
    ensures Mapping(s0, s', root, start, cur + 1, end, p)
  {
    EvolvesTrans(s0, s, s', root);
    MappedExtends(s0.mem, s.mem, s'.mem, root, start, cur, p);
    ClashFreeExtends(s0.mem, root, start, cur, p);
    SameTablesNeeded(s0, s, s', start, end);
  }

  lemma SameTablesNeeded(s0: Snapshot, s: Snapshot, s': Snapshot, start: int, end: int)
    requires OnlyNeededTables(s0, s, start, end) && s'.owner == s.owner
    ensures OnlyNeededTables(s0, s', start, end)
  {
  }

  lemma ClashFreeExtends(m: Memory, root: Frame, start: int, cur: int, p: Address)
    requires ClashFree(m, root, start, cur, p) && start <= cur && ProperPage(cur)
    requires !Clash(m, root, cur, Advance(p, cur - start))
    ensures ClashFree(m, root, start, cur + 1, p)
  {
  }

  lemma MappedExtends(m0: Memory, m: Memory, m': Memory, root: Frame, start: int, cur: int, p: Address)
    requires Mapped(m0, m, root, start, cur, p) && start <= cur
    requires LeafChanged(m, m', root, cur, Some(FrameOf(Advance(p, cur - start))))
    ensures Mapped(m0, m', root, start, cur + 1, p)
  {
  }

  // ---------------------------------------------------------------------------------------------
  // The loops of map
  // ---------------------------------------------------------------------------------------------

  /** A call of `map`: the state it started in, the space, the pages, and the addresses of the first page. */
  datatype Request = Request(s0: Snapshot, root: Frame, start: int, end: int, v: nat, p: Address)

  /** The loops of `map` stand at page `n`, having done everything below; `v` and `p` keep up with them. */
  ghost predicate MapStands(s: Snapshot, current: Frame, id: Window, r: Request, n: int, v: nat, p: Address) {
    Whole(
      && Sound(r.s0) && Editable(s, current, id, r.root)
      && ProperRange(r.start, r.end) && r.start <= n <= r.end
      && Mapping(r.s0, s, r.root, r.start, n, r.end, r.p)
      && v == r.v + PAGE * (n - r.start) && p == Advance(r.p, n - r.start))
  }

  lemma MapStandsInside(s: Snapshot, current: Frame, id: Window, r: Request, n: int, v: nat, p: Address)
    requires MapStands(s, current, id, r, n, v, p)
    ensures r.start <= n <= r.end && Sound(s) && Editable(s, current, id, r.root) && p == Advance(r.p, n - r.start)
    ensures n < r.end ==> ProperPage(n) && Proper(PathOf(n))
  {
    if n < r.end {
      assert ProperPage(n);
      ProperPageIsProper(n);
    }
  }

  /** The page at which the loops stand still translates as it did at the start. */
  lemma PageUntouched(s: Snapshot, current: Frame, id: Window, r: Request, n: int, v: nat, p: Address)
    requires MapStands(s, current, id, r, n, v, p) && n < r.end && ProperPage(n)
    ensures ProperPage(n) && Leaf(s.mem, r.root, n) == Leaf(r.s0.mem, r.root, n)
  {
  }

  /** What one page written below the table at `q` does. */
  ghost predicate PageWritten(s: Snapshot, s': Snapshot, current: Frame, id: Window, root: Frame, n: int,
                              t: Option<Frame>) {
    Whole(
      && Editable(s', current, id, root) && (Sound(s) ==> Sound(s'))
      && Evolves(s, s', root) && TablesFromFree(s, s') && s'.owner == s.owner
      && LeafChanged(s.mem, s'.mem, root, n, t))
  }

  lemma WritePage(s: Snapshot, current: Frame, id: Window, root: Frame, n: int, q: Path, i: Index, e: Entry)
    requires Editable(s, current, id, root)
    requires |q| == 3 && ProperPage(n) && PathOf(n) == q + [i] && Walk(s.mem, root, q).Some?
    requires Walk(s.mem, root, q).value in s.mem
    ensures var s' := s.(mem := Put(s.mem, Walk(s.mem, root, q).value, i, e));
            && PageWritten(s, s', current, id, root, n, if e.present then Some(e.address) else None)
            && Walk(s'.mem, root, q).Some?
  {
    ProperPageIsProper(n);
    assert q[0] == PathOf(n)[0];
    LeafStep(s, root, q, i, e, n);
    InstalledStays(s, s.(mem := Put(s.mem, Walk(s.mem, root, q).value, i, e)), current, id, root);
    assert TableKept(s, s.(mem := Put(s.mem, Walk(s.mem, root, q).value, i, e)), root, q);
  }

  lemma MapStandsAtNext(s: Snapshot, s': Snapshot, current: Frame, id: Window, r: Request, n: int, v: nat, p: Address)
    requires MapStands(s, current, id, r, n, v, p) && n < r.end && ProperPage(n)
    requires PageWritten(s, s', current, id, r.root, n, Some(FrameOf(p))) && !Clash(r.s0.mem, r.root, n, p)
    ensures MapStands(s', current, id, r, n + 1, v + PAGE, (p + PAGE) % WORD)
  {
    hide Evolves, Editable;
    MappingPage(r.s0, s, s', r.root, r.start, n, r.end, r.p);
    AdvanceOne(r.p, n - r.start);
  }

  lemma MapStandsWithTable(s: Snapshot, s': Snapshot, current: Frame, id: Window, r: Request, n: int, v: nat,
                           p: Address, q: Path)
    requires MapStands(s, current, id, r, n, v, p) && n < r.end && ProperPage(n) && q <= PathOf(n)
    requires Editable(s', current, id, r.root) && TableEnsured(s, s', r.root, q)
    ensures MapStands(s', current, id, r, n, v, p)
  {
    MappingTable(r.s0, s, s', r.root, r.start, n, r.end, r.p, q);
  }

  // ---------------------------------------------------------------------------------------------
  // The loops of unmap
  // ---------------------------------------------------------------------------------------------

  ghost predicate AllMapped(m: Memory, root: Frame, start: int, end: int) {
    forall n {:trigger Leaf(m, root, n)} :: start <= n < end && ProperPage(n) ==> Leaf(m, root, n).Some?
  }

  /** The frames of the pages `start` up to `end`, in address order. */
  ghost function LeafFrames(m: Memory, root: Frame, start: int, end: int): (fs: seq<Frame>)
    requires ProperRange(start, end) && AllMapped(m, root, start, end)
    ensures |fs| == if start <= end then end - start else 0
    ensures forall i :: 0 <= i < |fs| ==> ProperPage(start + i) && Leaf(m, root, start + i) == Some(fs[i])
    decreases end - start
  {
    if end <= start then [] else
      assert ProperPage(end - 1) && Leaf(m, root, end - 1).Some?;
      LeafFrames(m, root, start, end - 1) + [Leaf(m, root, end - 1).value]
  }

  /** A call of `unmap`: the state it started in, the space, the pages, the first address, whether frames
      are given back, and those given back before. */
  datatype Removal = Removal(s0: Snapshot, root: Frame, start: int, end: int, v: nat, push: bool, pushed: seq<Frame>)

  /** The frames that `unmap` has given back when it stands at page `n`. */
  ghost function GivenBack(r: Removal, n: int): seq<Frame>
    requires ProperRange(r.start, n) && AllMapped(r.s0.mem, r.root, r.start, n)
  {
    if r.push then LeafFrames(r.s0.mem, r.root, r.start, n) else []
  }

  ghost predicate UnmapStands(s: Snapshot, current: Frame, id: Window, r: Removal, n: int, v: nat, pushed: seq<Frame>) {
    Whole(
      && Tree(r.s0.mem, r.s0.owner) && Editable(s, current, id, r.root)
      && ProperRange(r.start, r.end) && r.start <= n <= r.end
      && Evolves(r.s0, s, r.root) && s.owner == r.s0.owner
      && Unmapped(r.s0.mem, s.mem, r.root, r.start, n) && AllMapped(r.s0.mem, r.root, r.start, n)
      && pushed == r.pushed + GivenBack(r, n)
      && s.free == r.s0.free + (set f | f in GivenBack(r, n))
      && v == r.v + PAGE * (n - r.start))
  }

  lemma UnmapStandsInside(s: Snapshot, current: Frame, id: Window, r: Removal, n: int, v: nat, pushed: seq<Frame>)
    requires UnmapStands(s, current, id, r, n, v, pushed)
    ensures r.start <= n <= r.end && Editable(s, current, id, r.root) && v == r.v + PAGE * (n - r.start)
    ensures n < r.end ==> ProperPage(n) && Proper(PathOf(n)) && Leaf(s.mem, r.root, n) == Leaf(r.s0.mem, r.root, n)
  {
    if n < r.end {
      assert ProperPage(n);
      ProperPageIsProper(n);
    }
  }

  /** The effect of `unmap` on the translation function and the frames, up to page `n`. */
  ghost predicate Removed(s0: Snapshot, s1: Snapshot, root: Frame, start: int, n: int, push: bool,
                          pushed0: seq<Frame>, pushed1: seq<Frame>) {
    Whole(
      && ProperRange(start, n) && AllMapped(s0.mem, root, start, n)
      && Evolves(s0, s1, root) && s1.owner == s0.owner
      && Unmapped(s0.mem, s1.mem, root, start, n)
      && var gone := if push then LeafFrames(s0.mem, root, start, n) else [];
         pushed1 == pushed0 + gone && s1.free == s0.free + (set f | f in gone))
  }

  /** Where the loops of `unmap` come to stop: at the page `end` that they compare with or, when they begin above it,
      behind the last page of all; they panic earlier where a page is not mapped. */
  function UnmapLimit(start: int, end: int): int {
    if start <= end then end else PAGES
  }

  /** The pages from `start` up to `stop` are all that `unmap` may come to. */
  ghost predicate StopsAt(m: Memory, root: Frame, start: int, end: int, stop: int) {
    && start <= stop <= UnmapLimit(start, end) && ProperRange(start, stop)
    && (stop == UnmapLimit(start, end) || (start < stop && ProperPage(stop - 1) && Leaf(m, root, stop - 1).None?))
  }

  /** `unmap` comes to its end, or to a page that is not mapped, before it comes to the windows. */
  ghost predicate StopsInside(m: Memory, root: Frame, start: int, end: int) {
    exists stop :: StopsAt(m, root, start, end, stop)
  }

  /** Where the end test of the loops holds nothing is left to do, and elsewhere there is, or the tables end. */
  lemma UnmapGoesOn(s: Snapshot, current: Frame, id: Window, r: Removal, n: int, v: nat, pushed: seq<Frame>, end: int)
    requires UnmapStands(s, current, id, r, n, v, pushed) && StopsAt(r.s0.mem, r.root, r.start, end, r.end)
    requires 0 <= end < PAGES
    ensures n == end ==> r.start <= end && n == r.end
    ensures n != end && n < PAGES ==> n < r.end
    ensures n <= UnmapLimit(r.start, end) && (n == PAGES ==> end < r.start)
  {
    if n == r.end && r.end != UnmapLimit(r.start, end) {
      assert false;
    }
  }

  lemma UnmapStandsMeans(s: Snapshot, current: Frame, id: Window, r: Removal, n: int, v: nat, pushed: seq<Frame>)
    requires UnmapStands(s, current, id, r, n, v, pushed)
    ensures Removed(r.s0, s, r.root, r.start, n, r.push, r.pushed, pushed)
    ensures AllMapped(r.s0.mem, r.root, r.start, n)
    ensures !r.push ==> pushed == r.pushed
  {
  }

  lemma UnmapStarts(s: Snapshot, current: Frame, id: Window, r: Removal, end: int)
    requires Editable(s, current, id, r.root) && r.s0 == s && StopsAt(s.mem, r.root, r.start, end, r.end)
    ensures UnmapStands(s, current, id, r, r.start, r.v, r.pushed)
  {
    EvolvesRefl(s, r.root);
  }

  lemma UnmappedExtends(m0: Memory, m: Memory, m': Memory, root: Frame, start: int, cur: int)
    requires Unmapped(m0, m, root, start, cur) && start <= cur && LeafChanged(m, m', root, cur, None)
    ensures Unmapped(m0, m', root, start, cur + 1)
  {
  }

  lemma UnmapStandsAtNext(s: Snapshot, s1: Snapshot, current: Frame, id: Window, r: Removal, n: int, v: nat,
                          pushed: seq<Frame>, f: Frame)
    requires UnmapStands(s, current, id, r, n, v, pushed) && n < r.end && ProperPage(n)
    requires PageWritten(s, s1, current, id, r.root, n, None) && s1.free == s.free
    requires Leaf(r.s0.mem, r.root, n) == Some(f)
    ensures r.push ==> UnmapStands(s1.(free := s1.free + {f}), current, id, r, n + 1, v + PAGE, pushed + [f])
    ensures !r.push ==> UnmapStands(s1, current, id, r, n + 1, v + PAGE, pushed)
  {
    hide Evolves, Editable, Sound;
    EvolvesTrans(r.s0, s, s1, r.root);
    UnmappedExtends(r.s0.mem, s.mem, s1.mem, r.root, r.start, n);
    FreeIsIrrelevant(r.s0, s1, current, id, r.root, s1.free + {f});
    if r.push {
      assert GivenBack(r, n + 1) == GivenBack(r, n) + [f];
    }
  }

  /** Editing and evolving do not look at the free frames. */
  lemma FreeIsIrrelevant(s0: Snapshot, s: Snapshot, current: Frame, id: Window, root: Frame, free: set<Frame>)
    requires Editable(s, current, id, root) && Evolves(s0, s, root)
    ensures Editable(s.(free := free), current, id, root) && Evolves(s0, s.(free := free), root)
  {
    var s' := s.(free := free);
    forall q: Path | Proper(q) && |q| <= 3
      ensures TableKept(s0, s', root, q)
    {
      assert TableKept(s0, s, root, q);
    }
    forall f | f in s'.owner && f !in s0.owner
      ensures Added(s0, s', root, f)
    {
      assert Added(s0, s, root, f);
    }
  }

  // ---------------------------------------------------------------------------------------------
  // Arguments of map and unmap
  // ---------------------------------------------------------------------------------------------

  /** Rounded outwards to pages, the range is empty, or turned around by the wrap at the top. */
  predicate NothingToDo(start: Address, end: Address) {
    RoundUp(end) <= RoundDown(start)
  }

  /** For a range in one canonical half the guard keeps all of it out of the paging windows. */
  lemma RangeIsProper(start: Address, end: Address)
    requires InOneHalf(start, end) && !StartsInPagingArea(start) && !NothingToDo(start, end)
    ensures ProperRange(PageOf(RoundDown(start)), PageOf(RoundUp(end)))
    ensures PageOf(RoundDown(start)) < PageOf(RoundUp(end))
    ensures RoundDown(start) + PAGE * (PageOf(RoundUp(end)) - PageOf(RoundDown(start))) == RoundUp(end)
  {
    var s, e := RoundDown(start), RoundUp(end);
    PageOfHalf(s);
    PageOfHalf(e);
    hide PageOf, RoundDown, RoundUp;
    assert s == s / PAGE * PAGE && e == e / PAGE * PAGE;
  }

  /** `unmap` stays inside of its tables, whatever is mapped, for a range in one half that is not turned around. */
  lemma OrdinaryRange(m: Memory, root: Frame, start: Address, end: Address)
    requires RoundDown(start) <= RoundUp(end)
    requires NothingToDo(start, end) || (InOneHalf(start, end) && !StartsInPagingArea(start))
    ensures StopsInside(m, root, PageOf(RoundDown(start)), PageOf(RoundUp(end)))
  {
    var first, last := PageOf(RoundDown(start)), PageOf(RoundUp(end));
    if !NothingToDo(start, end) {
      RangeIsProper(start, end);
    }
    assert StopsAt(m, root, first, last, last);
  }

  /** Above the windows, and in the lower half below a page that is not mapped, `unmap` stays inside of its tables for
      a turned-around range as well. */
  lemma TurnedAroundRange(m: Memory, root: Frame, start: int, end: int, hole: int)
    requires 0 <= end < start < PAGES
    requires start >= 0x8_1000_0000 || (start <= hole < 0x8_0000_0000 && Leaf(m, root, hole).None?)
    ensures StopsInside(m, root, start, end)
  {
    assert StopsAt(m, root, start, end, if start >= 0x8_1000_0000 then PAGES else hole + 1);
  }

  /** Exactly the pages `ps` became mapped, all of them to something. */
  ghost predicate LeavesAdded(m0: Memory, m1: Memory, root: Frame, ps: set<int>) {
    forall n {:trigger Leaf(m1, root, n)} :: ProperPage(n) ==>
      if n in ps then Leaf(m1, root, n).Some? else Leaf(m1, root, n) == Leaf(m0, root, n)
  }

  ghost predicate LeafAdded(m0: Memory, m1: Memory, root: Frame, n: int) {
    LeavesAdded(m0, m1, root, {n})
  }

  lemma NothingAdded(m: Memory, root: Frame)
    ensures LeavesAdded(m, m, root, {})
  {
  }

  lemma NotAddedYet(m0: Memory, m1: Memory, root: Frame, ps: set<int>, n: int)
    requires LeavesAdded(m0, m1, root, ps) && n !in ps && ProperPage(n)
    ensures Leaf(m1, root, n) == Leaf(m0, root, n)
  {
  }

  lemma AddLeaf(m0: Memory, m: Memory, m1: Memory, root: Frame, ps: set<int>, n: int)
    requires LeavesAdded(m0, m, root, ps) && LeafAdded(m, m1, root, n)
    ensures LeavesAdded(m0, m1, root, ps + {n})
  {
    forall k | ProperPage(k)
      ensures if k in ps + {n} then Leaf(m1, root, k).Some? else Leaf(m1, root, k) == Leaf(m0, root, k)
    {
      assert k != n ==> Leaf(m1, root, k) == Leaf(m, root, k);
    }
  }

  /** `vm::map` of `at` alone touches exactly one page, and a proper one. */
  ghost predicate SinglePage(at: Address) {
    && at + PAGE < WORD
    && RoundDown(at) == at && RoundUp(at + PAGE) == at + PAGE
    && InOneHalf(at, at + PAGE) && !StartsInPagingArea(at) && !NothingToDo(at, at + PAGE)
    && PageOf(at + PAGE) == PageOf(at) + 1 && ProperPage(PageOf(at))
  }

  /** Stepping through an aligned range page by page, each step is one proper page. */
  lemma PageOfStep(base: Address, end: Address, at: nat)
    requires base % PAGE == 0 && at % PAGE == 0 && base <= at < end <= WORD - PAGE
    requires InOneHalf(base, end) && !StartsInPagingArea(base)
    ensures SinglePage(at)
    ensures PageOf(at) == PageOf(base) + (at - base) / PAGE < PageOf(RoundUp(end))
    ensures PageOf(RoundUp(end)) - PageOf(base) == (RoundUp(end) - base) / PAGE
  {
    var e := RoundUp(end);
    AlignedStep(end, at);
    AlignedStep(at + PAGE, at);
    RangeIsProper(base, end);
    RangeIsProper(at, at + PAGE);
    PageOfHalf(base);
    PageOfHalf(at);
    PageOfHalf(at + PAGE);
    PageOfHalf(e);
    WholePages(at, base);
    WholePages(e, base);
    WholePages(e, at);
  }

  lemma AlignedStep(end: Address, at: nat)
    requires at % PAGE == 0 && at < end <= WORD - PAGE
    ensures RoundDown(at) == at && at + PAGE <= RoundUp(end)
    ensures end == at + PAGE ==> RoundUp(end) == end
  {
    var e := RoundUp(end);
    assert (e - at) % PAGE == 0;
  }
}
