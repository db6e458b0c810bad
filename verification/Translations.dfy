/** What the contracts of map and unmap mean for addresses, tables and each other. */
module Translations {
  import opened Basics
  import opened PageTables
  import opened Addresses
  import opened AddressSpaces
  import opened Ranges

  /** The physical address that the MMU makes of `v`. */
  function Translated(m: Memory, root: Frame, v: Address): Option<int> {
    match Leaf(m, root, PageOf(v))
    case Some(f) => Some(f * PAGE + v % PAGE)
    case None => None
  }

  /** A canonical address lies in a page range exactly if its page number does. */
  lemma PageInRange(start: Address, end: Address, v: Address)
    requires InOneHalf(start, end) && !NothingToDo(start, end) && Canonical(v)
    ensures RoundDown(start) <= v < RoundUp(end) <==> PageOf(RoundDown(start)) <= PageOf(v) < PageOf(RoundUp(end))
    ensures RoundDown(start) <= v < RoundUp(end) ==>
              (v - RoundDown(start)) / PAGE == PageOf(v) - PageOf(RoundDown(start))
  {
    var s, e := RoundDown(start), RoundUp(end);
    PageOfHalf(s);
    PageOfHalf(e);
    PageOfHalf(v);
    AlignedOrder(s, v);
    AlignedOrder(e, v);
    if s <= v {
      WholePages(v, s);
    }
  }

  lemma AlignedOrder(x: nat, v: nat)
    requires x % PAGE == 0
    ensures x <= v <==> x / PAGE <= v / PAGE
  {
  }

  /** `k` pages and an offset after `p`, for physical addresses that fit an entry. */
  lemma FrameAfter(p: Address, d: nat)
    requires p % PAGE == 0 && p + d < 0x10_0000_0000_0000
    ensures FrameOf(Advance(p, d / PAGE)) * PAGE + d % PAGE == p + d
  {
    assert d == PAGE * (d / PAGE) + d % PAGE;
    assert (p + PAGE * (d / PAGE)) / PAGE == p / PAGE + d / PAGE;
  }

  lemma ProperAddress(v: Address)
    requires Canonical(v) && !StartsInPagingArea(v)
    ensures ProperPage(PageOf(v))
  {
    PageOfHalf(v);
  }

  /** Refinement, in addresses: a finished `map` makes every address of the rounded range translate to
      its offset from `p`, and every other canonical address outside the paging windows as before. */
  lemma MapTranslates(s0: Snapshot, s1: Snapshot, root: Frame, start: Address, end: Address, p: Address, v: Address)
    requires InOneHalf(start, end) && !NothingToDo(start, end) && !StartsInPagingArea(start)
    requires Mapping(s0, s1, root, PageOf(RoundDown(start)), PageOf(RoundUp(end)), PageOf(RoundUp(end)), p)
    requires p % PAGE == 0 && p + (RoundUp(end) - RoundDown(start)) <= 0x10_0000_0000_0000
    requires Canonical(v) && !StartsInPagingArea(v)
    ensures Translated(s1.mem, root, v) ==
            if RoundDown(start) <= v < RoundUp(end) then Some(p + (v - RoundDown(start)))
              else Translated(s0.mem, root, v)
  {
    hide Mapping;
    PageInRange(start, end, v);
    ProperAddress(v);
    MappingLeaf(s0, s1, root, PageOf(RoundDown(start)), PageOf(RoundUp(end)), p, PageOf(v));
    if RoundDown(start) <= v < RoundUp(end) {
      FrameAfter(p, v - RoundDown(start));
      OffsetOfRange(RoundDown(start), v);
    }
  }

  lemma OffsetOfRange(s: nat, v: nat)
    requires s % PAGE == 0 && s <= v
    ensures (v - s) % PAGE == v % PAGE
  {
  }

  lemma MappingLeaf(s0: Snapshot, s1: Snapshot, root: Frame, first: int, end: int, p: Address, n: int)
    requires Mapping(s0, s1, root, first, end, end, p) && ProperPage(n)
    ensures Leaf(s1.mem, root, n) == if first <= n < end then Some(FrameOf(Advance(p, n - first)))
            else Leaf(s0.mem, root, n)
  {
  }

  /** With `map` and then `unmap` without giving back, on pages that were not mapped, nothing translates
      differently from the start. */
  lemma MapUnmapRestores(s0: Snapshot, s1: Snapshot, s2: Snapshot, root: Frame, first: int, end: int, p: Address,
                         before: seq<Frame>, after: seq<Frame>)
    requires Mapping(s0, s1, root, first, end, end, p) && Removed(s1, s2, root, first, end, false, before, after)
    requires forall n :: first <= n < end && ProperPage(n) ==> Leaf(s0.mem, root, n).None?
    ensures SameLeaves(s0.mem, s2.mem, root) && after == before && s2.free == s1.free
  {
    forall n | ProperPage(n)
      ensures Leaf(s2.mem, root, n) == Leaf(s0.mem, root, n)
    {
      assert Leaf(s2.mem, root, n) == if first <= n < end then None else Leaf(s1.mem, root, n);
    }
  }

  /** And the other way round: unmapping a range and mapping the same frames again. */
  lemma UnmapMapRestores(s0: Snapshot, s1: Snapshot, s2: Snapshot, root: Frame, first: int, end: int, p: Address,
                         before: seq<Frame>, after: seq<Frame>)
    requires Removed(s0, s1, root, first, end, false, before, after) && Mapping(s1, s2, root, first, end, end, p)
    requires forall n :: first <= n < end && ProperPage(n) ==>
               Leaf(s0.mem, root, n) == Some(FrameOf(Advance(p, n - first)))
    ensures SameLeaves(s0.mem, s2.mem, root)
  {
    forall n | ProperPage(n)
      ensures Leaf(s2.mem, root, n) == Leaf(s0.mem, root, n)
    {
      assert Leaf(s1.mem, root, n) == if first <= n < end then None else Leaf(s0.mem, root, n);
    }
  }

  // ---------------------------------------------------------------------------------------------
  // Minimal tables
  // ---------------------------------------------------------------------------------------------

  /** A finished `map` has created a table at `q` exactly if there was none and some page of the range lies
      below; that table is one popped frame, and no other frame was popped. */
  lemma MinimalTables(s0: Snapshot, s1: Snapshot, root: Frame, first: int, end: int, p: Address, q: Path)
    requires Mapping(s0, s1, root, first, end, end, p) && 1 <= |q| <= 3 && Proper(q) && Walk(s0.mem, root, q).None?
    ensures Walk(s1.mem, root, q).Some? <==> Needed(q, first, end)
    ensures Walk(s1.mem, root, q).Some? ==> Walk(s1.mem, root, q).value in s0.free - s1.free
  {
    if Needed(q, first, end) {
      var n :| first <= n < end && ProperPage(n) && q <= PathOf(n);
      MappingLeaf(s0, s1, root, first, end, p, n);
      AboveWalk(s1.mem, root, q, PathOf(n));
    }
    if Walk(s1.mem, root, q).Some? {
      PlaceOfWalk(s1.mem, s1.owner, root, q);
      var t := Walk(s1.mem, root, q).value;
      assert TableKept(s0, s1, root, q);
      assert t in s1.owner.Keys - s0.owner.Keys;
    }
  }

  lemma PoppedIsTable(s0: Snapshot, s1: Snapshot, root: Frame, first: int, end: int, p: Address, f: Frame)
    requires Mapping(s0, s1, root, first, end, end, p) && f in s0.free - s1.free
    ensures f in s1.owner
    ensures var q := s1.owner[f].path;
            && 1 <= |q| <= 3 && Proper(q) && Needed(q, first, end)
            && Walk(s0.mem, root, q).None? && Walk(s1.mem, root, q) == Some(f)
  {
    assert f in s1.owner.Keys - s0.owner.Keys;
    assert Added(s0, s1, root, f);
  }

  // ---------------------------------------------------------------------------------------------
  // Arguments at the edges
  // ---------------------------------------------------------------------------------------------

  /** A range that is asked for is skipped in silence if and only if it reaches into the last page of the
      address space: its rounded end wraps around to zero. */
  lemma SkippedIffLastPage(start: Address, end: Address)
    requires start < end
    ensures NothingToDo(start, end) <==> end > WORD - PAGE
  {
  }

  /** For the same ranges, but for those from the first page on, the loops of `unmap` begin above the page that they
      compare with, so that they panic or go on outside of the tables, and never end. */
  lemma TurnedAroundIffLastPage(start: Address, end: Address)
    requires start < end && Canonical(start) && Canonical(end)
    ensures PageOf(RoundUp(end)) < PageOf(RoundDown(start)) <==> end > WORD - PAGE && start >= PAGE
  {
    var s, e := RoundDown(start), RoundUp(end);
    PageOfHalf(s);
    if end <= WORD - PAGE {
      PageOfHalf(e);
    }
  }

  /** Mapping "one page" at an address below the last two pages touches one page if and only if the address
      is aligned; otherwise it touches two, the second of which was never popped for. */
  lemma OnePageIffAligned(at: Address)
    requires at <= WORD - 3 * PAGE
    ensures (RoundUp(at + PAGE) - RoundDown(at)) / PAGE == if at % PAGE == 0 then 1 else 2
  {
    var k := at / PAGE;
    assert at == k * PAGE + at % PAGE;
    if at % PAGE != 0 {
      RoundUpUnique(at + PAGE, (k + 2) * PAGE);
    } else {
      RoundUpUnique(at + PAGE, (k + 1) * PAGE);
    }
  }

  /** `get_physical_address` answers with the start of the frame: the address the MMU would use if and only if
      the question was about the start of a page. */
  lemma PhysicalAddressIffAligned(m: Memory, root: Frame, v: Address)
    requires Leaf(m, root, PageOf(v)).Some?
    ensures Translated(m, root, v) == Some(Leaf(m, root, PageOf(v)).value * PAGE) <==> v % PAGE == 0
  {
  }
}
