/** Several address spaces: installing one in the foreign slot, sharing kernel tables, isolation. */
module Spaces {
  import opened Basics
  import opened PageTables
  import opened Addresses
  import opened AddressSpaces
  import opened Ranges

  /** The same tables, up to the window entries of the PML4s. */
  ghost predicate SameProperEntries(m0: Memory, m1: Memory, owner: Owner) {
    forall f, i: Index {:trigger m1[f][i]} ::
      f in owner && f in m0 && f in m1 && (owner[f].path == [] ==> !IsWindow(i)) ==> m1[f][i] == m0[f][i]
  }

  lemma {:induction false} ProperWalkUnchanged(m0: Memory, m1: Memory, owner: Owner, r: Frame, q: Path)
    requires Tree(m0, owner) && IsRoot(owner, r) && Proper(q) && |q| <= 4
    requires m1.Keys == m0.Keys && SameProperEntries(m0, m1, owner)
    ensures Walk(m1, r, q) == Walk(m0, r, q)
    decreases |q|
  {
    if q != [] {
      var q0 := q[..|q| - 1];
      ProperWalkUnchanged(m0, m1, owner, r, q0);
      if Walk(m0, r, q0).Some? {
        PlaceOfWalk(m0, owner, r, q0);
        assert q0 == [] ==> q == [q[0]];
        assert m1[Walk(m0, r, q0).value][q[|q| - 1]] == m0[Walk(m0, r, q0).value][q[|q| - 1]];
      }
    }
  }

  /** Only windows were switched: every old space translates every proper page as before. */
  ghost predicate WindowsSwitched(s0: Snapshot, s1: Snapshot) {
    && s1.mem.Keys == s0.mem.Keys && s1.free == s0.free && OwnersKept(s0, s1)
    && s1.owner.Keys - s0.owner.Keys !! s0.free
    && SameProperEntries(s0.mem, s1.mem, s0.owner)
    && (forall f, i: Index {:trigger s1.mem[f][i]} ::
          f in s1.owner && f !in s0.owner && f in s1.mem ==>
            IsRoot(s1.owner, f) && (!IsWindow(i) ==> !s1.mem[f][i].present))
    && (forall f {:trigger s1.mem[f]} :: f in s0.mem && f !in s1.owner ==> s1.mem[f] == s0.mem[f])
  }

  /** A frame that can become the root of a foreign space: one already, or a zeroed frame of no use yet. */
  ghost predicate CanBeRoot(s: Snapshot, f: Frame) {
    f in s.mem && (IsRoot(s.owner, f) || (f !in s.owner && f !in s.free && s.mem[f] == EMPTY_TABLE))
  }

  function Installed(m: Memory, current: Frame, f: Frame, e: Entry, e': Entry): Memory
    requires current in m && f in m
  {
    Put(Put(m, current, FOREIGN, e), f, SELF, e')
  }

  lemma InstallKeepsTree(s: Snapshot, current: Frame, f: Frame, e: Entry, e': Entry)
    requires Sound(s) && IsRoot(s.owner, current) && CanBeRoot(s, f)
    requires e.present && e.address == f && e'.present && e'.address == f
    ensures var m, owner := Installed(s.mem, current, f, e, e'), s.owner[f := Place([], f)];
            Tree(m, owner) && IsRoot(owner, f) && IsRoot(owner, current)
  {
    var m, owner := Installed(s.mem, current, f, e, e'), s.owner[f := Place([], f)];
    assert WellPlaced(s.owner, current);
    forall g | g in owner
      ensures WellPlaced(owner, g) && ChildrenPlaced(m, owner, g)
    {
      if g in s.owner {
        assert WellPlaced(s.owner, g) && ChildrenPlaced(s.mem, s.owner, g);
      }
    }
    forall r | IsRoot(owner, r)
      ensures Windows(m, owner, r)
    {
      if r in s.owner {
        assert IsRoot(s.owner, r) && Windows(s.mem, s.owner, r);
      }
    }
  }

  lemma InstallSwitchesWindows(s: Snapshot, current: Frame, f: Frame, e: Entry, e': Entry)
    requires Sound(s) && IsRoot(s.owner, current) && CanBeRoot(s, f)
    requires e.present && e.address == f && e'.present && e'.address == f
    ensures var s' := Snapshot(Installed(s.mem, current, f, e, e'), s.owner[f := Place([], f)], s.free);
            && Sound(s') && WindowsSwitched(s, s') && Editable(s', current, FOREIGN, f)
            && Editable(s', current, SELF, current)
  {
    var s' := Snapshot(Installed(s.mem, current, f, e, e'), s.owner[f := Place([], f)], s.free);
    InstallKeepsTree(s, current, f, e, e');
    assert Windows(s'.mem, s'.owner, current);
    assert f in s.owner ==> s'.owner == s.owner;
  }

  /** As soon as the foreign slot leads to `f`, that PML4 shows up where the PDPT of the slot would. */
  lemma InstalledTableVisible(m: Memory, current: Frame, f: Frame, e: Entry)
    requires current in m && f in m && Follow(m, current, SELF) == Some(current)
    requires e.present && e.address == f
    ensures Leaf(Put(m, current, FOREIGN, e), current, PageOf(PdptAddress(SELF, FOREIGN))) == Some(f)
  {
    var m' := Put(m, current, FOREIGN, e);
    RecursiveMapping(m', current, SELF, current, [FOREIGN]);
    WalkOne(m', current, FOREIGN);
  }

  /** Writing the foreign slot does not hide the PML4 itself. */
  lemma RootStillVisible(m: Memory, current: Frame, e: Entry)
    requires current in m && Follow(m, current, SELF) == Some(current)
    ensures Leaf(Put(m, current, FOREIGN, e), current, PageOf(Pml4Address(SELF))) == Some(current)
  {
    RecursiveMapping(Put(m, current, FOREIGN, e), current, SELF, current, []);
  }

  lemma ReleaseKeepsTree(s: Snapshot, current: Frame, e: Entry)
    requires Sound(s) && Editable(s, current, SELF, current) && !e.present
    ensures var s' := s.(mem := Put(s.mem, current, FOREIGN, e));
            && Sound(s') && Editable(s', current, SELF, current) && Follow(s'.mem, current, FOREIGN).None?
            && WindowsSwitched(s, s')
  {
    var m' := Put(s.mem, current, FOREIGN, e);
    forall g | g in s.owner
      ensures ChildrenPlaced(m', s.owner, g)
    {
      assert ChildrenPlaced(s.mem, s.owner, g);
    }
    forall r | IsRoot(s.owner, r)
      ensures Windows(m', s.owner, r)
    {
      assert Windows(s.mem, s.owner, r);
    }
  }

  // ---------------------------------------------------------------------------------------------
  // PDPTs stay in their slots
  // ---------------------------------------------------------------------------------------------

  /** A present slot never leads to another PDPT, and an empty one is filled only in the space of `root`, with
      a table that is new. */
  ghost predicate SlotGrows(s0: Snapshot, s1: Snapshot, root: Frame, r: Frame, k: Index) {
    match Follow(s0.mem, r, k)
    case Some(t) => Follow(s1.mem, r, k) == Some(t)
    case None => Follow(s1.mem, r, k).Some? ==> r == root && Follow(s1.mem, r, k).value !in s0.owner
  }

  ghost predicate SlotsGrow(s0: Snapshot, s1: Snapshot, root: Frame) {
    forall r, k: Index {:trigger SlotGrows(s0, s1, root, r, k)} ::
      IsRoot(s0.owner, r) && !IsWindow(k) ==> SlotGrows(s0, s1, root, r, k)
  }

  lemma EvolvesGrowsSlots(s0: Snapshot, s1: Snapshot, root: Frame)
    requires Evolves(s0, s1, root) && s0.owner.Keys <= s0.mem.Keys
    ensures SlotsGrow(s0, s1, root)
  {
    forall r, k: Index | IsRoot(s0.owner, r) && !IsWindow(k)
      ensures SlotGrows(s0, s1, root, r, k)
    {
      if r == root {
        WalkOne(s0.mem, root, k);
        WalkOne(s1.mem, root, k);
        assert Proper([k]) && TableKept(s0, s1, root, [k]);
      } else {
        assert !Belongs(s0, root, r);
      }
    }
  }

  lemma SwitchGrowsSlots(s0: Snapshot, s1: Snapshot, root: Frame)
    requires WindowsSwitched(s0, s1)
    ensures SlotsGrow(s0, s1, root)
  {
    forall r, k: Index | IsRoot(s0.owner, r) && !IsWindow(k)
      ensures SlotGrows(s0, s1, root, r, k)
    {
      if r in s0.mem {
        assert s1.mem[r][k] == s0.mem[r][k];
      }
    }
  }

  lemma SlotsGrowTrans(s0: Snapshot, s1: Snapshot, s2: Snapshot, root: Frame)
    requires OwnersKept(s0, s1) && SlotsGrow(s0, s1, root) && SlotsGrow(s1, s2, root)
    ensures SlotsGrow(s0, s2, root)
  {
    forall r, k: Index | IsRoot(s0.owner, r) && !IsWindow(k)
      ensures SlotGrows(s0, s2, root, r, k)
    {
      assert SlotGrows(s0, s1, root, r, k) && SlotGrows(s1, s2, root, r, k);
    }
  }

  lemma NoNewRoot(s0: Snapshot, s1: Snapshot, root: Frame, r: Frame)
    requires Evolves(s0, s1, root) && IsRoot(s1.owner, r)
    ensures r in s0.owner && IsRoot(s0.owner, r)
  {
    var added := Added(s0, s1, root, r);
  }

  // ---------------------------------------------------------------------------------------------
  // Sharing and isolation
  // ---------------------------------------------------------------------------------------------

  /** Two spaces whose slot `k` is the same translate all of it alike. */
  lemma SlotShared(m: Memory, r1: Frame, r2: Frame, k: Index, n: int)
    requires 0 <= n < PAGES && PathOf(n)[0] == k
    requires Follow(m, r1, k) == Follow(m, r2, k)
    ensures Leaf(m, r1, n) == Leaf(m, r2, n)
  {
    SlotWalk(m, r1, r2, PathOf(n));
  }

  /** In slot `k`, the space of `r` shares nothing with the space of `root`. */
  ghost predicate Apart(s: Snapshot, root: Frame, r: Frame, k: Index) {
    r != root && (Follow(s.mem, r, k).None? || Follow(s.mem, r, k) != Follow(s.mem, root, k))
  }

  lemma {:induction false} ApartWalkUnchanged(s0: Snapshot, s1: Snapshot, root: Frame, r: Frame, q: Path)
    requires Tree(s0.mem, s0.owner) && Evolves(s0, s1, root) && IsRoot(s0.owner, r)
    requires Proper(q) && |q| <= 4 && (q == [] || Apart(s0, root, r, q[0]))
    ensures Walk(s1.mem, r, q) == Walk(s0.mem, r, q)
    decreases |q|
  {
    if q != [] {
      var q0 := q[..|q| - 1];
      ApartWalkUnchanged(s0, s1, root, r, q0);
      if Walk(s0.mem, r, q0).Some? {
        PlaceOfWalk(s0.mem, s0.owner, r, q0);
        assert q0 != [] ==> q[0] == q0[0];
        assert !Belongs(s0, root, Walk(s0.mem, r, q0).value);
      }
    }
  }

  /** Isolation: an operation on one space changes no translation of a space that is apart from it there. */
  lemma EvolvesIsolates(s0: Snapshot, s1: Snapshot, root: Frame, r: Frame, n: int)
    requires Tree(s0.mem, s0.owner) && Evolves(s0, s1, root) && IsRoot(s0.owner, r)
    requires ProperPage(n) && Apart(s0, root, r, PathOf(n)[0])
    ensures Leaf(s1.mem, r, n) == Leaf(s0.mem, r, n)
  {
    ProperPageIsProper(n);
    ApartWalkUnchanged(s0, s1, root, r, PathOf(n));
  }

  /** Spaces that are apart in a slot stay apart. */
  lemma StaysApart(s0: Snapshot, s1: Snapshot, root: Frame, r1: Frame, r2: Frame, k: Index)
    requires Tree(s0.mem, s0.owner) && SlotsGrow(s0, s1, root) && !IsWindow(k)
    requires IsRoot(s0.owner, r1) && IsRoot(s0.owner, r2) && Apart(s0, r1, r2, k)
    ensures Apart(s1, r1, r2, k)
  {
    assert SlotGrows(s0, s1, root, r1, k) && SlotGrows(s0, s1, root, r2, k);
    forall r | r == r1 || r == r2
      ensures Follow(s0.mem, r, k).Some? ==> Follow(s0.mem, r, k).value in s0.owner
    {
      WalkOne(s0.mem, r, k);
      if Follow(s0.mem, r, k).Some? {
        PlaceOfWalk(s0.mem, s0.owner, r, [k]);
      }
    }
  }

  /** Spaces that share the PDPT of a slot go on sharing it. */
  lemma StaysShared(s0: Snapshot, s1: Snapshot, root: Frame, r1: Frame, r2: Frame, k: Index)
    requires SlotsGrow(s0, s1, root) && !IsWindow(k)
    requires IsRoot(s0.owner, r1) && IsRoot(s0.owner, r2) && Follow(s0.mem, r1, k) == Follow(s0.mem, r2, k)
    requires r1 == r2 || Follow(s0.mem, r1, k).Some?
    ensures Follow(s1.mem, r1, k) == Follow(s1.mem, r2, k)
    ensures Follow(s0.mem, r1, k).Some? ==> Follow(s1.mem, r1, k) == Follow(s0.mem, r1, k)
  {
    assert SlotGrows(s0, s1, root, r1, k) && SlotGrows(s0, s1, root, r2, k);
  }

  /** In a slot, a space is apart from another or shares all of it. */
  lemma ApartOrShared(s: Snapshot, root: Frame, r: Frame, k: Index)
    ensures Apart(s, root, r, k) || Follow(s.mem, r, k) == Follow(s.mem, root, k)
  {
  }

  // ---------------------------------------------------------------------------------------------
  // Tables in use
  // ---------------------------------------------------------------------------------------------

  /** The table `f` hangs at its place in the space of `r`. */
  ghost predicate Reached(s: Snapshot, r: Frame, f: Frame) {
    IsRoot(s.owner, r) && f in s.owner && Walk(s.mem, r, s.owner[f].path) == Some(f)
  }

  ghost predicate InSomeSpace(s: Snapshot, f: Frame) {
    exists r :: Reached(s, r, f)
  }

  /** Every table is in use. */
  ghost predicate AllReached(s: Snapshot) {
    forall f {:trigger InSomeSpace(s, f)} :: f in s.owner ==> InSomeSpace(s, f)
  }

  /** A table that is reached in one space stays reached while another, or the same, is edited. */
  lemma ReachedStays(s0: Snapshot, s1: Snapshot, root: Frame, r: Frame, f: Frame)
    requires Tree(s0.mem, s0.owner) && Evolves(s0, s1, root) && Reached(s0, r, f)
    ensures Reached(s1, r, f) || Reached(s1, root, f)
  {
    assert WellPlaced(s0.owner, f);
    var p := s0.owner[f].path;
    assert TableKept(s0, s1, root, p);
    if p == [] || Apart(s0, root, r, p[0]) {
      ApartWalkUnchanged(s0, s1, root, r, p);
    } else {
      ApartOrShared(s0, root, r, p[0]);
      SlotWalk(s0.mem, r, root, p);
    }
  }

  /** Two spaces whose slot is the same walk alike through it. */
  lemma SlotWalk(m: Memory, r1: Frame, r2: Frame, p: Path)
    requires p != [] && Follow(m, r1, p[0]) == Follow(m, r2, p[0])
    ensures Walk(m, r1, p) == Walk(m, r2, p)
  {
    var k := p[0];
    assert p == [k] + p[1..];
    if Follow(m, r1, k).Some? {
      WalkThrough(m, r1, k, Follow(m, r1, k).value, p[1..]);
      WalkThrough(m, r2, k, Follow(m, r1, k).value, p[1..]);
    } else {
      WalkOne(m, r1, k);
      WalkOne(m, r2, k);
      WalkBelowNone(m, r1, [k], p);
      WalkBelowNone(m, r2, [k], p);
    }
  }

  lemma EvolvesKeepsReached(s0: Snapshot, s1: Snapshot, root: Frame)
    requires Tree(s0.mem, s0.owner) && Evolves(s0, s1, root) && AllReached(s0)
    ensures AllReached(s1)
  {
    forall f | f in s1.owner ensures InSomeSpace(s1, f) {
      if f in s0.owner {
        assert InSomeSpace(s0, f);
        var r :| Reached(s0, r, f);
        ReachedStays(s0, s1, root, r, f);
      } else {
        assert Added(s0, s1, root, f);
        assert Reached(s1, root, f);
      }
    }
  }

  /** New tables, if any, are roots, and old ones are reached as before. */
  lemma EntriesKeepReached(s0: Snapshot, s1: Snapshot)
    requires Tree(s0.mem, s0.owner) && AllReached(s0) && s1.mem.Keys == s0.mem.Keys && OwnersKept(s0, s1)
    requires SameProperEntries(s0.mem, s1.mem, s0.owner)
    requires forall f :: f in s1.owner && f !in s0.owner ==> IsRoot(s1.owner, f)
    ensures AllReached(s1)
  {
    forall f | f in s1.owner ensures InSomeSpace(s1, f) {
      if f in s0.owner {
        assert InSomeSpace(s0, f) && WellPlaced(s0.owner, f);
        var r :| Reached(s0, r, f);
        ProperWalkUnchanged(s0.mem, s1.mem, s0.owner, r, s0.owner[f].path);
        assert Reached(s1, r, f);
      } else {
        WalkNothing(s1.mem, f);
        assert Reached(s1, f, f);
      }
    }
  }

  lemma ZeroingKeepsReached(s2: Snapshot, s3: Snapshot, f: Frame)
    requires Tree(s2.mem, s2.owner) && AllReached(s2) && f !in s2.owner && f in s2.mem
    requires s3 == s2.(mem := s2.mem[f := EMPTY_TABLE])
    ensures AllReached(s3)
  {
    EntriesKeepReached(s2, s3);
  }

  // ---------------------------------------------------------------------------------------------
  // Frames taken
  // ---------------------------------------------------------------------------------------------

  /** Of the free frames `f` was taken, and those that became the new tables; no other. */
  ghost predicate TakenForTables(s0: Snapshot, s1: Snapshot, f: Frame) {
    f in s0.free && s1.free <= s0.free && f !in s1.free && s1.owner.Keys - s0.owner.Keys == s0.free - s1.free - {f}
  }

  lemma TakenAndMapped(s0: Snapshot, s1: Snapshot, f: Frame, root: Frame, start: int, cur: int, end: int, p: Address)
    requires f in s0.free && Mapping(s0.(free := s0.free - {f}), s1, root, start, cur, end, p)
    ensures TakenForTables(s0, s1, f)
  {
    assert s0.free - s1.free - {f} == (s0.free - {f}) - s1.free;
  }

  // ---------------------------------------------------------------------------------------------
  // Cloning
  // ---------------------------------------------------------------------------------------------

  /** A write to a frame that is no table. */
  lemma DataWriteKeepsTree(m: Memory, m': Memory, owner: Owner)
    requires Tree(m, owner) && m'.Keys == m.Keys && forall f :: f in owner ==> m'[f] == m[f]
    ensures Tree(m', owner)
  {
    forall g | g in owner
      ensures ChildrenPlaced(m', owner, g)
    {
      assert ChildrenPlaced(m, owner, g);
    }
    forall r | IsRoot(owner, r)
      ensures Windows(m', owner, r)
    {
      assert Windows(m, owner, r);
    }
  }

  /** Copying a proper slot from one PML4 to another keeps the tree invariant: the PDPT is shared. */
  lemma CopySlotKeepsTree(m: Memory, owner: Owner, current: Frame, f: Frame, k: Index)
    requires Tree(m, owner) && IsRoot(owner, current) && IsRoot(owner, f) && !IsWindow(k)
    ensures Tree(Put(m, f, k, m[current][k]), owner)
  {
    var m' := Put(m, f, k, m[current][k]);
    forall g | g in owner
      ensures ChildrenPlaced(m', owner, g)
    {
      assert ChildrenPlaced(m, owner, g) && ChildrenPlaced(m, owner, current);
    }
    forall r | IsRoot(owner, r)
      ensures Windows(m', owner, r)
    {
      assert Windows(m, owner, r);
    }
  }

  /** Tables may have been added to the current space, but no space translates any page differently. */
  ghost predicate RootPrepared(s0: Snapshot, s1: Snapshot, current: Frame) {
    && OwnersKept(s0, s1) && SlotsGrow(s0, s1, current) && (AllReached(s0) ==> AllReached(s1))
    && (forall r {:trigger SameLeaves(s0.mem, s1.mem, r)} :: IsRoot(s0.owner, r) ==> SameLeaves(s0.mem, s1.mem, r))
  }

  /** The only roots added are among `fs`. */
  ghost predicate NewRoots(s0: Snapshot, s1: Snapshot, fs: set<Frame>) {
    forall g {:trigger IsRoot(s1.owner, g)} :: IsRoot(s1.owner, g) && g !in s0.owner ==> g in fs
  }

  /** `f` became the PML4 of a new space that shares the kernel slots of `current`. */
  ghost predicate Cloned(s0: Snapshot, s1: Snapshot, current: Frame, f: Frame) {
    && Sound(s1) && f in s0.free && f !in s0.owner && IsRoot(s1.owner, f)
    && RootPrepared(s0, s1, current) && NewRoots(s0, s1, {f})
    && f in s1.mem && current in s1.mem
    && (forall k: Index {:trigger s1.mem[f][k]} :: 258 <= k < 512 ==> s1.mem[f][k] == s1.mem[current][k])
    && (forall k: Index {:trigger s1.mem[f][k]} :: k < 256 || k == FOREIGN ==> !s1.mem[f][k].present)
    && Follow(s1.mem, f, SELF) == Some(f)
  }

  /** The new space agrees with the old one on all kernel slots and maps nothing in the lower half. */
  lemma CloneTranslates(s0: Snapshot, s1: Snapshot, current: Frame, f: Frame, n: int)
    requires Cloned(s0, s1, current, f) && ProperPage(n) && IsRoot(s0.owner, current)
    ensures PathOf(n)[0] >= 258 ==> Leaf(s1.mem, f, n) == Leaf(s1.mem, current, n) == Leaf(s0.mem, current, n)
    ensures PathOf(n)[0] < 256 ==> Leaf(s1.mem, f, n).None?
  {
    var k := PathOf(n)[0];
    if k >= 258 {
      assert s1.mem[f][k] == s1.mem[current][k];
      assert SameLeaves(s0.mem, s1.mem, current);
      SlotShared(s1.mem, f, current, k, n);
    } else {
      assert !s1.mem[f][k].present;
      WalkOne(s1.mem, f, k);
      assert [k] <= PathOf(n);
      WalkBelowNone(s1.mem, f, [k], PathOf(n));
    }
  }

  /** A page-aligned address one page below the top at most, outside the windows, names one proper page. */
  lemma OnePage(temp: Address)
    requires temp % PAGE == 0 && UPPER_START + 2 * 0x80_0000_0000 <= temp < WORD - PAGE
    ensures RoundDown(temp) == temp && RoundUp(temp + PAGE) == temp + PAGE
    ensures InOneHalf(temp, temp + PAGE) && !StartsInPagingArea(temp) && !NothingToDo(temp, temp + PAGE)
    ensures PageOf(temp + PAGE) == PageOf(temp) + 1 && ProperPage(PageOf(temp))
  {
    RangeIsProper(temp, temp + PAGE);
  }

  lemma NoClash(s: Snapshot, current: Frame, n: int, p: Address)
    requires ProperPage(n) && Leaf(s.mem, current, n).None?
    ensures !ClashAt(s.mem, current, n, n, p)
  {
  }

  /** Popping a frame keeps everything sound. */
  lemma FrameTaken(s: Snapshot, current: Frame, f: Frame)
    requires Sound(s) && Editable(s, current, SELF, current) && f in s.free
    ensures var s' := s.(free := s.free - {f}); Sound(s') && Editable(s', current, SELF, current)
    ensures f in s.mem && f !in s.owner
  {
  }

  lemma FrameTakenAnywhere(s: Snapshot, current: Frame, id: Window, root: Frame, f: Frame)
    requires Sound(s) && Editable(s, current, id, root) && f in s.free
    ensures var s' := s.(free := s.free - {f}); Sound(s') && Editable(s', current, id, root)
  {
  }

  /** After mapping the single page `n` to the frame `f`. */
  lemma MappedOnePage(s1: Snapshot, s2: Snapshot, current: Frame, n: int, f: Frame)
    requires Mapping(s1, s2, current, n, n + 1, n + 1, f * PAGE) && ProperPage(n)
    requires f !in s1.free && f !in s1.owner && f in s1.mem
    ensures Leaf(s2.mem, current, n) == Some(f) && f !in s2.owner && f !in s2.free && f in s2.mem
    ensures forall k {:trigger Leaf(s2.mem, current, k)} :: ProperPage(k) && k != n ==>
              Leaf(s2.mem, current, k) == Leaf(s1.mem, current, k)
  {
    AdvanceOne(f * PAGE, 0);
    FrameOfItsAddress(f);
    assert f !in s2.owner.Keys - s1.owner.Keys;
  }

  lemma FrameOfItsAddress(f: Frame)
    ensures FrameOf(f * PAGE) == f
  {
  }

  /** The MMU reads no entry of a data frame. */
  lemma DataFrameAvoided(s: Snapshot, current: Frame, n: int, f: Frame)
    requires Editable(s, current, SELF, current) && 0 <= n < PAGES && f !in s.owner
    ensures Avoids(s.mem, current, PathOf(n), f)
  {
    forall k | 0 <= k < 4
      ensures Walk(s.mem, current, PathOf(n)[..k]) != Some(f)
    {
      if Walk(s.mem, current, PathOf(n)[..k]).Some? {
        TableOfWalk(s.mem, s.owner, current, PathOf(n)[..k]);
      }
    }
  }

  /** Zeroing a data frame changes nothing but that frame. */
  lemma ZeroedFrame(s2: Snapshot, s3: Snapshot, current: Frame, f: Frame)
    requires Sound(s2) && Editable(s2, current, SELF, current) && f !in s2.owner && f in s2.mem
    requires s3 == s2.(mem := s2.mem[f := EMPTY_TABLE])
    ensures Sound(s3) && Editable(s3, current, SELF, current) && SameLeaves(s2.mem, s3.mem, current)
    ensures forall n {:trigger Leaf(s3.mem, current, n)} :: ProperPage(n) ==>
              Leaf(s3.mem, current, n) == Leaf(s2.mem, current, n)
  {
    DataWriteKeepsTree(s2.mem, s3.mem, s2.owner);
    forall n | ProperPage(n)
      ensures Leaf(s3.mem, current, n) == Leaf(s2.mem, current, n)
    {
      DataWriteInvisible(s2.mem, s3.mem, s2.owner, current, PathOf(n));
    }
  }

  /** Popped, mapped, zeroed, unmapped: the frame is empty and the translations are those of the start. */
  lemma PreparedRoot(s0: Snapshot, s1: Snapshot, s2: Snapshot, s3: Snapshot, s4: Snapshot, current: Frame, n: int,
                     f: Frame, pushed: seq<Frame>)
    requires Sound(s0) && Editable(s0, current, SELF, current) && f in s0.free && s1 == s0.(free := s0.free - {f})
    requires ProperPage(n) && Leaf(s0.mem, current, n).None?
    requires Mapping(s1, s2, current, n, n + 1, n + 1, f * PAGE)
    requires s3 == s2.(mem := s2.mem[f := EMPTY_TABLE]) && SameLeaves(s2.mem, s3.mem, current)
    requires Removed(s3, s4, current, n, n + 1, false, pushed, pushed) && Sound(s3)
    requires Editable(s4, current, SELF, current)
    ensures RootPrepared(s0, s4, current) && NewRoots(s0, s4, {}) && Sound(s4)
    ensures f in s4.mem && s4.mem[f] == EMPTY_TABLE && f !in s4.owner && f !in s4.free
    ensures Follow(s4.mem, current, FOREIGN) == Follow(s0.mem, current, FOREIGN)
  {
    MappedOnePage(s1, s2, current, n, f);
    EvolvesGrowsSlots(s1, s2, current);
    ZeroingGrowsNothing(s2, s3, current, f);
    EvolvesGrowsSlots(s3, s4, current);
    SlotsGrowTrans(s2, s3, s4, current);
    SlotsGrowTrans(s1, s2, s4, current);
    SlotsGrowFree(s0, s1, s4, current);
    PreparedReached(s0, s1, s2, s3, s4, current, n, f, pushed);
    forall g | IsRoot(s4.owner, g)
      ensures g in s0.owner
    {
      NoNewRoot(s1, s2, current, g);
    }
    forall r | IsRoot(s0.owner, r)
      ensures SameLeaves(s0.mem, s4.mem, r)
    {
      forall k | ProperPage(k)
        ensures Leaf(s4.mem, r, k) == Leaf(s0.mem, r, k)
      {
        PreparedLeaf(s0, s1, s2, s3, s4, current, n, f, pushed, r, k);
      }
    }
  }

  lemma PreparedReached(s0: Snapshot, s1: Snapshot, s2: Snapshot, s3: Snapshot, s4: Snapshot, current: Frame, n: int,
                        f: Frame, pushed: seq<Frame>)
    requires Sound(s0) && s1 == s0.(free := s0.free - {f}) && Mapping(s1, s2, current, n, n + 1, n + 1, f * PAGE)
    requires s3 == s2.(mem := s2.mem[f := EMPTY_TABLE]) && f !in s2.owner && f in s2.mem
    requires Removed(s3, s4, current, n, n + 1, false, pushed, pushed) && Sound(s3)
    ensures AllReached(s0) ==> AllReached(s4)
  {
    if AllReached(s0) {
      hide Walk, AllReached, Evolves;
      ReachedFree(s0, s1);
      EvolvesKeepsReached(s1, s2, current);
      ZeroingKeepsReached(s2, s3, f);
      EvolvesKeepsReached(s3, s4, current);
    }
  }

  lemma ReachedFree(s0: Snapshot, s1: Snapshot)
    requires AllReached(s0) && s1.mem == s0.mem && s1.owner == s0.owner
    ensures AllReached(s1)
  {
    forall f | f in s1.owner ensures InSomeSpace(s1, f) {
      assert InSomeSpace(s0, f);
      var r :| Reached(s0, r, f);
      assert Reached(s1, r, f);
    }
  }

  lemma SlotsGrowFree(s0: Snapshot, s1: Snapshot, s4: Snapshot, current: Frame)
    requires s1.mem == s0.mem && s1.owner == s0.owner && SlotsGrow(s1, s4, current)
    ensures SlotsGrow(s0, s4, current)
  {
    forall r, k: Index | IsRoot(s0.owner, r) && !IsWindow(k)
      ensures SlotGrows(s0, s4, current, r, k)
    {
      assert SlotGrows(s1, s4, current, r, k);
    }
  }

  lemma ZeroingGrowsNothing(s2: Snapshot, s3: Snapshot, current: Frame, f: Frame)
    requires Tree(s2.mem, s2.owner) && f !in s2.owner && f in s2.mem && s3 == s2.(mem := s2.mem[f := EMPTY_TABLE])
    ensures SlotsGrow(s2, s3, current)
  {
    forall r, k: Index | IsRoot(s2.owner, r) && !IsWindow(k)
      ensures SlotGrows(s2, s3, current, r, k)
    {
      assert r != f;
    }
  }

  /** One page of the current space, while a frame is mapped, zeroed and unmapped in it. */
  lemma PreparedCurrent(s1: Snapshot, s2: Snapshot, s3: Snapshot, s4: Snapshot, current: Frame, n: int, f: Frame,
                        pushed: seq<Frame>, k: int)
    requires ProperPage(n) && Leaf(s1.mem, current, n).None? && ProperPage(k)
    requires Mapping(s1, s2, current, n, n + 1, n + 1, f * PAGE) && SameLeaves(s2.mem, s3.mem, current)
    requires Removed(s3, s4, current, n, n + 1, false, pushed, pushed)
    ensures Leaf(s4.mem, current, k) == Leaf(s1.mem, current, k)
  {
    hide Walk, PathOf, Evolves, Sound;
    assert Leaf(s3.mem, current, k) == Leaf(s2.mem, current, k);
    assert Leaf(s4.mem, current, k) == if k == n then None else Leaf(s3.mem, current, k);
    assert k != n ==> Leaf(s2.mem, current, k) == Leaf(s1.mem, current, k);
  }

  /** One page of one space, while a frame is mapped, zeroed and unmapped in the current space. */
  lemma PreparedLeaf(s0: Snapshot, s1: Snapshot, s2: Snapshot, s3: Snapshot, s4: Snapshot, current: Frame, n: int,
                     f: Frame, pushed: seq<Frame>, r: Frame, k: int)
    requires Sound(s0) && IsRoot(s0.owner, current) && f in s0.free && s1 == s0.(free := s0.free - {f})
    requires ProperPage(n) && Leaf(s0.mem, current, n).None?
    requires Mapping(s1, s2, current, n, n + 1, n + 1, f * PAGE) && f !in s2.owner && f in s2.mem
    requires s3 == s2.(mem := s2.mem[f := EMPTY_TABLE]) && SameLeaves(s2.mem, s3.mem, current)
    requires Removed(s3, s4, current, n, n + 1, false, pushed, pushed) && Sound(s3)
    requires SlotsGrow(s1, s2, current) && SlotsGrow(s2, s3, current) && SlotsGrow(s3, s4, current)
    requires IsRoot(s0.owner, r) && ProperPage(k)
    ensures Leaf(s4.mem, r, k) == Leaf(s0.mem, r, k)
  {
    var i := PathOf(k)[0];
    ProperPageIsProper(k);
    PreparedCurrent(s1, s2, s3, s4, current, n, f, pushed, k);
    hide Walk, SameLeaves, SlotsGrow, PathOf, Unmapped, Mapped;
    if Apart(s1, current, r, i) {
      EvolvesIsolates(s1, s2, current, r, k);
      DataWriteInvisible(s2.mem, s3.mem, s2.owner, r, PathOf(k));
      StaysApart(s1, s2, current, current, r, i);
      StaysApart(s2, s3, current, current, r, i);
      EvolvesIsolates(s3, s4, current, r, k);
    } else {
      ApartOrShared(s0, current, r, i);
      SlotShared(s0.mem, r, current, i, k);
      StaysShared(s1, s2, current, r, current, i);
      StaysShared(s2, s3, current, r, current, i);
      StaysShared(s3, s4, current, r, current, i);
      SlotShared(s4.mem, r, current, i, k);
    }
  }

  /** Slots 258 up to `k` of the new PML4 `f` have been copied. */
  ghost predicate Copying(s0: Snapshot, s: Snapshot, current: Frame, f: Frame, k: nat) {
    Whole(
      && Sound(s) && Editable(s, current, FOREIGN, f) && Editable(s, current, SELF, current)
      && 258 <= k <= 512 && f !in s0.owner && f != current
      && s.mem.Keys == s0.mem.Keys && s.owner == s0.owner[f := Place([], f)] && s.free == s0.free
      && f in s.mem && current in s.mem
      && SameProperEntries(s0.mem, s.mem, s0.owner)
      && (forall g {:trigger s.mem[g]} :: g in s0.mem && g !in s.owner ==> s.mem[g] == s0.mem[g])
      && (forall i: Index {:trigger s.mem[f][i]} :: 258 <= i < k ==> s.mem[f][i] == s.mem[current][i])
      && (forall i: Index {:trigger s.mem[f][i]} :: i < 256 || i == FOREIGN || i >= k ==> !s.mem[f][i].present))
  }

  lemma CopyingStarts(s0: Snapshot, s: Snapshot, current: Frame, f: Frame)
    requires Sound(s) && Editable(s, current, FOREIGN, f) && Editable(s, current, SELF, current)
    requires f !in s0.owner && f in s0.mem && s0.mem[f] == EMPTY_TABLE && IsRoot(s0.owner, current)
    requires WindowsSwitched(s0, s) && s.owner == s0.owner[f := Place([], f)]
    requires forall k: Index :: !IsWindow(k) ==> s.mem[f][k] == s0.mem[f][k]
    requires !s.mem[f][FOREIGN].present
    ensures Copying(s0, s, current, f, 258)
  {
  }

  lemma CopyingNext(s0: Snapshot, s: Snapshot, current: Frame, f: Frame, k: Index)
    requires Copying(s0, s, current, f, k) && IsRoot(s0.owner, current)
    ensures Copying(s0, s.(mem := Put(s.mem, f, k, s.mem[current][k])), current, f, k + 1)
  {
    CopySlotKeepsTree(s.mem, s.owner, current, f, k);
  }

  lemma CopyingTables(s0: Snapshot, s: Snapshot, current: Frame, f: Frame, k: nat)
    requires Copying(s0, s, current, f, k)
    ensures 258 <= k <= 512 && Sound(s) && Editable(s, current, FOREIGN, f) && Editable(s, current, SELF, current)
    ensures f in s.mem && current in s.mem
  {
  }

  lemma EditableRoots(s: Snapshot, current: Frame, id: Window, root: Frame)
    requires Editable(s, current, id, root)
    ensures Tree(s.mem, s.owner) && IsRoot(s.owner, current) && IsRoot(s.owner, root) && current in s.mem
    ensures root in s.mem
  {
    assert WellPlaced(s.owner, current);
  }

  /** All slots copied: the space is a clone. */
  lemma CopyingDone(s0: Snapshot, s1: Snapshot, s: Snapshot, current: Frame, f: Frame)
    requires f in s0.free && f !in s0.owner && RootPrepared(s0, s1, current) && NewRoots(s0, s1, {})
    requires Tree(s1.mem, s1.owner) && IsRoot(s1.owner, current) && Copying(s1, s, current, f, 512)
    ensures Cloned(s0, s, current, f)
  {
    assert Windows(s.mem, s.owner, f);
    if AllReached(s0) { EntriesKeepReached(s1, s); }
    forall g | IsRoot(s.owner, g) && g !in s0.owner
      ensures g in {f}
    {
      assert g != f ==> IsRoot(s1.owner, g);
    }
    forall r | IsRoot(s0.owner, r)
      ensures SameLeaves(s0.mem, s.mem, r)
    {
      assert SameLeaves(s0.mem, s1.mem, r) && IsRoot(s1.owner, r);
      forall n | ProperPage(n)
        ensures Leaf(s.mem, r, n) == Leaf(s0.mem, r, n)
      {
        ProperPageIsProper(n);
        ProperWalkUnchanged(s1.mem, s.mem, s1.owner, r, PathOf(n));
        assert Leaf(s1.mem, r, n) == Leaf(s0.mem, r, n);
      }
    }
    forall r, k: Index | IsRoot(s0.owner, r) && !IsWindow(k)
      ensures SlotGrows(s0, s, current, r, k)
    {
      assert SlotGrows(s0, s1, current, r, k);
      assert s.mem[r][k] == s1.mem[r][k];
    }
  }
}
