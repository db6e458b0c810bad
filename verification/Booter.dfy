/** The boot loader's page tables, edited by following pointers instead of through the tables themselves, and what it
    leaves mapped for the kernel. */
module Booter {
  import opened Basics
  import opened PageTables
  import opened Addresses
  import opened AddressSpaces
  import opened Ranges
  import opened Rights
  import opened Dropping
  import opened Paging
  import opened Runs
  import opened AddressRanges

  // ---------------------------------------------------------------------------------------------
  // The self entry that the kernel will add
  // ---------------------------------------------------------------------------------------------

  /** The loader has no self entry; the kernel writes one as its first act. */
  function WithSelf(m: Memory, root: Frame): Memory
    requires root in m
  {
    Put(m, root, SELF, m[root][SELF].(present := true, address := root))
  }

  lemma SelfCommutes(m: Memory, root: Frame, f: Frame, i: Index, e: Entry)
    requires root in m && f in m && (f == root ==> i != SELF)
    ensures WithSelf(Put(m, f, i, e), root) == Put(WithSelf(m, root), f, i, e)
    ensures WithSelf(m, root)[f][i] == m[f][i]
  {
    if f == root {
      var s := m[root][SELF].(present := true, address := root);
      assert m[f][i := e][SELF := s] == m[f][SELF := s][i := e];
    }
  }

  lemma SelfBesideNew(m: Memory, root: Frame, c: Frame, t: Table)
    requires root in m && c != root
    ensures WithSelf(m[c := t], root) == WithSelf(m, root)[c := t]
  {
  }

  /** Walks that stay out of the windows do not see the self entry. */
  lemma {:induction false} SelfInvisible(m: Memory, owner: Owner, root: Frame, q: Path)
    requires root in m && Tree(WithSelf(m, root), owner) && IsRoot(owner, root) && Proper(q) && |q| <= 4
    ensures Walk(m, root, q) == Walk(WithSelf(m, root), root, q)
    decreases |q|
  {
    if q != [] {
      var q0 := q[..|q| - 1];
      SelfInvisible(m, owner, root, q0);
      var w := WithSelf(m, root);
      if Walk(w, root, q0).Some? {
        PlaceOfWalk(w, owner, root, q0);
        var t := Walk(w, root, q0).value;
        assert t == root ==> q0 == [] && q[|q| - 1] != SELF;
      }
    }
  }

  /** A new root alone: a sound space in which nothing is mapped. */
  lemma EmptySpace(m: Memory, root: Frame, free: set<Frame>)
    requires root in m && m[root] == EMPTY_TABLE && root !in free && free <= m.Keys
    ensures
      var s := Snapshot(WithSelf(m, root), map[root := Place([], root)], free);
      && Sound(s) && Editable(s, root, SELF, root) && OneSpace(s, root)
      && (forall i: Index :: i != SELF ==> Walk(s.mem, root, [i]).None?)
      && (forall n {:trigger Leaf(s.mem, root, n)} :: ProperPage(n) ==> Leaf(s.mem, root, n).None?)
  {
    var s := Snapshot(WithSelf(m, root), map[root := Place([], root)], free);
    assert WellPlaced(s.owner, root) && ChildrenPlaced(s.mem, s.owner, root);
    assert Windows(s.mem, s.owner, root);
    forall i: Index | i != SELF ensures Walk(s.mem, root, [i]).None? {
      WalkOne(s.mem, root, i);
    }
    forall n | ProperPage(n) ensures Leaf(s.mem, root, n).None? {
      ProperPageIsProper(n);
      var q := PathOf(n);
      WalkOne(s.mem, root, q[0]);
      WalkBelowNone(s.mem, root, [q[0]], q);
    }
  }

  /** The state with a new, linked table `c`. */
  function WithTable(m: Memory, table: Frame, i: Index, c: Frame): Memory
    requires table in m && table != c
  {
    Put(m[c := EMPTY_TABLE], table, i, m[table][i].(present := true, readWrite := true, address := c))
  }

  lemma WithTableLinks(m: Memory, root: Frame, table: Frame, i: Index, c: Frame)
    requires root in m && table in m && c in m && c != root && c != table && (table == root ==> i != SELF)
    ensures WithSelf(m, root)[table][i] == m[table][i]
    ensures WithSelf(WithTable(m, table, i, c), root) ==
            Link(WithSelf(m, root), table, i, m[table][i].(present := true, readWrite := true, address := c), c)
  {
    var e := m[table][i].(present := true, readWrite := true, address := c);
    SelfCommutes(m, root, table, i, e);
    SelfBesideNew(Put(m, table, i, e), root, c, EMPTY_TABLE);
    assert WithTable(m, table, i, c) == Put(m, table, i, e)[c := EMPTY_TABLE];
  }

  lemma TableAdded(m: Memory, owner: Owner, free: set<Frame>, root: Frame, table: Frame, q: Path, i: Index, c: Frame)
    requires root in m && table in m && !m[table][i].present && c in free
    requires var s := Snapshot(WithSelf(m, root), owner, free);
             Sound(s) && Editable(s, root, SELF, root) && |q| < 3 && Proper(q + [i]) && Proper(q) &&
               Walk(s.mem, root, q) == Some(table)
    ensures c != table && c != root && c in m && table in owner && c !in owner
    ensures
      var s := Snapshot(WithSelf(m, root), owner, free);
      var s' := Snapshot(WithSelf(WithTable(m, table, i, c), root), owner[c := ChildPlace(owner[table], i, c)],
        free - {c});
      && Sound(s') && Editable(s', root, SELF, root) && TableEnsured(s, s', root, q + [i])
      && Walk(s'.mem, root, q + [i]) == Some(c)
  {
    var s := Snapshot(WithSelf(m, root), owner, free);
    var e := m[table][i].(present := true, readWrite := true, address := c);
    var path := q + [i];
    assert path[..|path| - 1] == q;
    assert table == root ==> q == [] by { BelongsOfWalk(s, root, q); BelongsOfWalk(s, root, []); }
    BelongsOfWalk(s, root, q);
    WalkSnoc(s.mem, root, q, i);
    hide Walk, Tree, TableEnsured;
    WithTableLinks(m, root, table, i, c);
    hide WithTable, WithSelf, Link;
    CreateIsLink(s, root, SELF, root, path, table, e, c);
    CreateEnsures(s, root, SELF, root, path, table, e, c);
  }

  /** Tables keep their places and frames. */
  ghost predicate Keeps(s0: Snapshot, s1: Snapshot, root: Frame) {
    OwnersKept(s0, s1) && TablesKept(s0, s1, root)
  }

  lemma KeepsTrans(s0: Snapshot, s1: Snapshot, s2: Snapshot, root: Frame)
    requires Keeps(s0, s1, root) && Keeps(s1, s2, root)
    ensures Keeps(s0, s2, root)
  {
    TablesKeptTrans(s0, s1, s2, root);
  }

  lemma KeepsRefl(s: Snapshot, root: Frame)
    ensures Keeps(s, s, root)
  {
  }

  lemma KeptTable(s0: Snapshot, s1: Snapshot, root: Frame, q: Path, t: Frame)
    requires Keeps(s0, s1, root) && Proper(q) && |q| <= 3 && Walk(s0.mem, root, q) == Some(t)
    ensures Walk(s1.mem, root, q) == Some(t)
  {
    assert TableKept(s0, s1, root, q);
  }

  /** What a pointer to a table gives access to. */
  lemma PointedTable(m: Memory, owner: Owner, free: set<Frame>, root: Frame, q: Path, i: Index)
    requires root in m
    requires var s := Snapshot(WithSelf(m, root), owner, free);
             Editable(s, root, SELF, root) && |q| <= 3 && Proper(q + [i]) && Proper(q) && Walk(s.mem, root, q).Some?
    ensures
      var w := WithSelf(m, root);
      var t := Walk(w, root, q).value;
      && t in m && t in w && t in owner && w[t][i] == m[t][i] && (t == root ==> i != SELF)
      && Walk(w, root, q + [i]) == if m[t][i].present then Some(m[t][i].address) else None
  {
    var w := WithSelf(m, root);
    PlaceOfWalk(w, owner, root, q);
    assert Walk(w, root, q).value == root ==> q == [];
    WalkSnoc(w, root, q, i);
  }

  lemma AlreadyThere(s: Snapshot, root: Frame, q: Path)
    requires Sound(s) && Editable(s, root, SELF, root) && Walk(s.mem, root, q).Some?
    ensures TableEnsured(s, s, root, q)
  {
    EvolvesRefl(s, root);
  }

  lemma MappingKeepsOneSpace(s: Snapshot, s': Snapshot, root: Frame, first: int, reached: int, end: int, p: Address)
    requires Mapping(s, s', root, first, reached, end, p)
    ensures OneSpace(s, root) ==> OneSpace(s', root)
  {
    if OneSpace(s, root) {
      hide OneSpace;
      EvolvesKeepsOneSpace(s, s', root);
    }
  }

  /** `n` of the frames that were free are tables now. */
  ghost predicate Took(f0: set<Frame>, o0: set<Frame>, f1: set<Frame>, o1: set<Frame>, n: nat) {
    |f1| + n == |f0| && f1 + o1 == f0 + o0
  }

  lemma TookMore(f0: set<Frame>, o0: set<Frame>, f1: set<Frame>, o1: set<Frame>, f2: set<Frame>, o2: set<Frame>,
                 n: nat, k: nat)
    requires Took(f0, o0, f1, o1, n) && Took(f1, o1, f2, o2, k)
    ensures Took(f0, o0, f2, o2, n + k)
  {
  }

  lemma TookCounts(f0: set<Frame>, o0: set<Frame>, f1: set<Frame>, o1: set<Frame>, n: nat)
    requires Took(f0, o0, f1, o1, n)
    ensures |f1| + n == |f0| && f1 + o1 == f0 + o0
  {
  }

  /** Entries from `i` on are absent. */
  predicate AbsentFrom(t: Table, i: nat) {
    forall k: Index :: i <= k ==> !t[k].present
  }

  lemma AllAbsent()
    ensures AbsentFrom(EMPTY_TABLE, 0)
  {
  }

  /** `t1` differs from `t0` in entry `i` only. */
  predicate SameBut(t0: Table, t1: Table, i: Index) {
    forall k: Index :: k != i ==> t1[k] == t0[k]
  }

  /** `m1` differs from `m0` in frame `f` only. */
  ghost predicate OnlyFrame(m0: Memory, m1: Memory, f: Frame) {
    m1.Keys == m0.Keys && forall g {:trigger m1[g]} :: g in m1 && g != f ==> m1[g] == m0[g]
  }

  lemma OtherFrame(m0: Memory, m1: Memory, f: Frame, g: Frame)
    requires OnlyFrame(m0, m1, f) && g in m0 && g != f
    ensures g in m1 && m1[g] == m0[g]
  {
  }

  lemma AbsentNext(t0: Table, t1: Table, i: Index)
    requires AbsentFrom(t0, i) && SameBut(t0, t1, i)
    ensures AbsentFrom(t1, i + 1)
  {
  }

  /** A frame that is free no more is a table. */
  lemma MappingKeepsFrames(s: Snapshot, s': Snapshot, root: Frame, first: int, reached: int, end: int, p: Address)
    requires Mapping(s, s', root, first, reached, end, p)
    ensures s'.free <= s.free && s'.free + s'.owner.Keys == s.free + s.owner.Keys
  {
    assert s'.owner.Keys == s.owner.Keys + (s'.owner.Keys - s.owner.Keys);
  }

  lemma FewerFreeReady(s: Snapshot, root: Frame, free: set<Frame>)
    requires Sound(s) && Editable(s, root, SELF, root) && free <= s.free
    ensures Sound(s.(free := free)) && Editable(s.(free := free), root, SELF, root)
    ensures OneSpace(s, root) ==> OneSpace(s.(free := free), root)
  {
    if OneSpace(s, root) {
      FewerFree(s, root, free);
    }
  }

  lemma StandsKeepOneSpace(s: Snapshot, root: Frame, r: Request, n: int, v: nat, p: Address)
    requires MapStands(s, root, SELF, r, n, v, p) && r.root == root
    ensures OneSpace(r.s0, root) ==> OneSpace(s, root)
  {
    MappingKeepsOneSpace(r.s0, s, root, r.start, n, r.end, r.p);
  }

  lemma WrittenKeeps(s: Snapshot, s': Snapshot, root: Frame, n: int, t: Option<Frame>)
    requires PageWritten(s, s', root, SELF, root, n, t)
    ensures Keeps(s, s', root)
  {
  }

  /** Writing the entry of the page at which the loops stand takes them one page further. */
  lemma PageStored(m: Memory, owner: Owner, free: set<Frame>, root: Frame, pt: Frame, r: Request, at: Cursor, v: nat,
                   p: Address)
    requires root in m && r.root == root && at.InTables() && at.Page() < r.end && at.Page() < PAGES
    requires var s := Snapshot(WithSelf(m, root), owner, free);
             MapStands(s, root, SELF, r, at.Page(), v, p) && Walk(s.mem, root, at.TablePath()) == Some(pt)
    requires !Clash(r.s0.mem, root, at.Page(), p)
    ensures pt in m && pt in owner
    ensures
      var s := Snapshot(WithSelf(m, root), owner, free);
      var e := m[pt][at.pte].(present := true, readWrite := true, address := FrameOf(p));
      var s1 := Snapshot(WithSelf(Put(m, pt, at.pte, e), root), owner, free);
      && MapStands(s1, root, SELF, r, at.Page() + 1, v + PAGE, (p + PAGE) % WORD)
      && Keeps(s, s1, root) && Walk(s1.mem, root, at.TablePath()) == Some(pt)
  {
    hide MapStands, Editable, Sound, Walk, PageWritten, Keeps;
    var s, q, n := Snapshot(WithSelf(m, root), owner, free), at.TablePath(), at.Page();
    at.PathOfPage();
    MapStandsInside(s, root, SELF, r, n, v, p);
    assert Proper(q + [at.pte]) && Proper(q);
    PointedTable(m, owner, free, root, q, at.pte);
    var e := m[pt][at.pte].(present := true, readWrite := true, address := FrameOf(p));
    WritePage(s, root, SELF, root, n, q, at.pte, e);
    SelfCommutes(m, root, pt, at.pte, e);
    var s1 := s.(mem := Put(s.mem, pt, at.pte, e));
    MapStandsAtNext(s, s1, root, SELF, r, n, v, p);
    WrittenKeeps(s, s1, root, n, Some(FrameOf(p)));
    KeptTable(s, s1, root, q, pt);
  }

  lemma TableNext(s: Snapshot, s': Snapshot, root: Frame, r: Request, n: int, v: nat, p: Address, q: Path)
    requires MapStands(s, root, SELF, r, n, v, p) && r.root == root && n < r.end && ProperPage(n) && q <= PathOf(n)
    requires Editable(s', root, SELF, root) && TableEnsured(s, s', root, q)
    ensures MapStands(s', root, SELF, r, n, v, p) && Keeps(s, s', root)
  {
    hide MapStands;
    MapStandsWithTable(s, s', root, SELF, r, n, v, p, q);
  }

  // ---------------------------------------------------------------------------------------------
  // Rights
  // ---------------------------------------------------------------------------------------------

  /** What the loader makes present is writable, and nothing is for user code. */
  ghost predicate LoaderRights(m: Memory, owner: Owner) {
    forall f, i: Index {:trigger m[f][i]} :: f in owner && f in m ==>
             !m[f][i].user && (m[f][i].present ==> m[f][i].readWrite)
  }

  lemma RightsOfStore(m: Memory, owner: Owner, f: Frame, i: Index, target: Frame)
    requires LoaderRights(m, owner) && f in m && f in owner
    ensures LoaderRights(Put(m, f, i, m[f][i].(present := true, readWrite := true, address := target)), owner)
  {
  }

  lemma RightsOfTable(m: Memory, owner: Owner, f: Frame, i: Index, c: Frame, place: Place)
    requires LoaderRights(m, owner) && f in m && f in owner && c != f
    ensures LoaderRights(WithTable(m, f, i, c), owner[c := place])
  {
  }

  /** A walk that meets only such entries ends at a page that may be written, but not by user code. */
  lemma KernelMayWrite(m: Memory, owner: Owner, root: Frame, n: int)
    requires Tree(m, owner) && IsRoot(owner, root) && ProperPage(n) && Leaf(m, root, n).Some?
    requires forall f, i: Index {:trigger m[f][i]} :: f in owner && f in m && (f == root ==> i != SELF) ==>
               !m[f][i].user && (m[f][i].present ==> m[f][i].readWrite)
    ensures MayWrite(m, root, n) && !UserMay(m, root, n)
  {
    ProperPageIsProper(n);
    var q := PathOf(n);
    forall k | 1 <= k <= 4 ensures LevelRights(m, root, n, k) == Some(Attributes(false, true)) {
      var p := q[..k];
      assert q[..k][..k - 1] == q[..k - 1];
      AboveWalk(m, root, p, q);
      PlaceOfWalk(m, owner, root, q[..k - 1]);
    }
    assert LevelRights(m, root, n, 1) == Some(Attributes(false, true));
  }

  // ---------------------------------------------------------------------------------------------
  // The first 64 MiB
  // ---------------------------------------------------------------------------------------------

  /** The pages of the first 64 MiB. */
  const IDENTITY: nat := 0x4000

  ghost predicate FirstMapped(m: Memory, root: Frame) {
    forall n {:trigger Leaf(m, root, n)} :: ProperPage(n) ==> Leaf(m, root, n) == if n < IDENTITY then Some(n) else None
  }

  ghost predicate NothingMapped(m: Memory, root: Frame) {
    forall n {:trigger Leaf(m, root, n)} :: ProperPage(n) ==> Leaf(m, root, n).None?
  }

  /** The first `i` page tables of the identity mapping are filled. */
  ghost predicate AtTable(s: Snapshot, root: Frame, r: Request, i: nat) {
    && i <= 32 && r.root == root && r.start == 0 && r.v == 0 && r.p == 0 && r.end == IDENTITY
    && MapStands(s, root, SELF, r, i * 512, i * 0x20_0000, i * 0x20_0000)
  }

  lemma AtTableInside(s: Snapshot, root: Frame, r: Request, i: nat)
    requires AtTable(s, root, r, i)
    ensures Sound(s) && Editable(s, root, SELF, root) && (OneSpace(r.s0, root) ==> OneSpace(s, root))
  {
    MapStandsInside(s, root, SELF, r, i * 512, i * 0x20_0000, i * 0x20_0000);
    StandsKeepOneSpace(s, root, r, i * 512, i * 0x20_0000, i * 0x20_0000);
  }

  /** Mapping the first 64 MiB to themselves starts in an empty space. */
  lemma IdentityStarts(s: Snapshot, root: Frame)
    requires Sound(s) && Editable(s, root, SELF, root)
    ensures AtTable(s, root, Request(s, root, 0, IDENTITY, 0, 0), 0)
  {
    MappingStarts(s, root, 0, IDENTITY, 0);
    AdvanceOne(0, 0);
  }

  lemma IdentityTableNext(s: Snapshot, s': Snapshot, root: Frame, r: Request, i: Index, q: Path)
    requires i < 32 && AtTable(s, root, r, i) && q <= [0, 0, i]
    requires Editable(s', root, SELF, root) && TableEnsured(s, s', root, q)
    ensures AtTable(s', root, r, i) && Keeps(s, s', root)
  {
    hide MapStands, Editable, TableEnsured, Keeps;
    PathOfLinear(0, 0, i, 0);
    assert PathOf(i * 512) == [0, 0, i, 0];
    assert q <= [0, 0, i, 0];
    TableNext(s, s', root, r, i * 512, i * 0x20_0000, i * 0x20_0000, q);
  }

  /** The counters of page `j` of page table `i`. */
  function IdentityCursor(i: Index, j: Index): (at: Cursor)
    requires i < 32
    ensures at.InTables() && at.pte == j && at.TablePath() == [0, 0, i] && at.Page() == i * 512 + j < IDENTITY
    ensures ProperPage(at.Page())
  {
    Cursor(0, 0, i, j)
  }

  lemma IdentityStored(m: Memory, owner: Owner, free: set<Frame>, root: Frame, pt: Frame, r: Request, i: Index,
                       j: Index, p: Address)
    requires root in m && r.root == root && i < 32 && r.start == 0 && r.end == IDENTITY && p == i * 0x20_0000 + j * PAGE
    requires var s := Snapshot(WithSelf(m, root), owner, free);
             MapStands(s, root, SELF, r, i * 512 + j, p, p) && Walk(s.mem, root, [0, 0, i]) == Some(pt)
    requires NothingMapped(r.s0.mem, root) && LoaderRights(m, owner)
    ensures pt in m
    ensures
      var s := Snapshot(WithSelf(m, root), owner, free);
      var m' := Put(m, pt, j, m[pt][j].(present := true, readWrite := true, address := FrameOf(p)));
      var s1 := Snapshot(WithSelf(m', root), owner, free);
      && MapStands(s1, root, SELF, r, i * 512 + j + 1, p + PAGE, p + PAGE) && LoaderRights(m', owner)
      && Keeps(s, s1, root) && Walk(s1.mem, root, [0, 0, i]) == Some(pt)
  {
    hide MapStands, Walk, Keeps, LoaderRights, PathOf, WithSelf, FrameOf, Cursor.Page, Cursor.TablePath;
    var at := IdentityCursor(i, j);
    assert Leaf(r.s0.mem, root, at.Page()).None?;
    PageStored(m, owner, free, root, pt, r, at, p, p);
    RightsOfStore(m, owner, pt, j, FrameOf(p));
  }

  lemma IdentityEnds(s: Snapshot, root: Frame, r: Request)
    requires AtTable(s, root, r, 32) && NothingMapped(r.s0.mem, root)
    ensures FirstMapped(s.mem, root)
  {
    assert Mapped(r.s0.mem, s.mem, root, 0, IDENTITY, 0);
    hide MapStands, Walk, Advance, FrameOf;
    forall n | ProperPage(n) ensures Leaf(s.mem, root, n) == if n < IDENTITY then Some(n) else None {
      if n < IDENTITY { IdentityFrame(0, n); }
    }
  }

  /** Lower-half pages are mapped to themselves, if at all. */
  ghost predicate LowerIdentity(m: Memory, root: Frame) {
    forall n {:trigger Leaf(m, root, n)} :: ProperPage(n) && n < 0x8_0000_0000 && Leaf(m, root, n).Some? ==>
             Leaf(m, root, n) == Some(n)
  }

  lemma LowerRange(start: Address, end: Address)
    requires end <= LOWER_END && !NothingToDo(start, end)
    ensures InOneHalf(start, end) && !StartsInPagingArea(start)
    ensures PageOf(RoundDown(start)) == start / PAGE < PageOf(RoundUp(end)) <= 0x8_0000_0000
  {
    PageOfHalf(RoundDown(start));
    PageOfHalf(RoundUp(end));
  }

  /** Whatever was mapped, and the whole upper half, translates as before. */
  ghost predicate MappedKept(m0: Memory, m1: Memory, root: Frame) {
    forall n {:trigger Leaf(m1, root, n)} :: ProperPage(n) && (n >= 0x8_0000_0000 || Leaf(m0, root, n).Some?) ==>
      Leaf(m1, root, n) == Leaf(m0, root, n)
  }

  /** The first 64 MiB are mapped to themselves, and of the upper half nothing is mapped. */
  ghost predicate StartMapped(m: Memory, root: Frame) {
    && (forall n {:trigger Leaf(m, root, n)} :: 0 <= n < IDENTITY ==> Leaf(m, root, n) == Some(n))
    && FreeFrom(m, root, 0x8_0000_0000)
  }

  lemma StartStaysMapped(m0: Memory, m1: Memory, root: Frame)
    requires StartMapped(m0, root) && MappedKept(m0, m1, root)
    ensures StartMapped(m1, root)
  {
    forall n | 0 <= n < IDENTITY ensures Leaf(m1, root, n) == Some(n) {
      assert Leaf(m0, root, n) == Some(n);
    }
  }

  lemma TopIsFree(m: Memory, root: Frame)
    requires StartMapped(m, root)
    ensures FreeFrom(m, root, Page(TOP))
  {
  }

  /** The pages of the rounded range. */
  predicate IdentityRange(start: Address, end: Address, n: int) {
    !NothingToDo(start, end) && start / PAGE <= n < PageOf(RoundUp(end))
  }

  /** The pages of the rounded range are mapped to themselves, and all others translate as before. */
  ghost predicate SelfAdded(m0: Memory, m1: Memory, root: Frame, start: Address, end: Address) {
    forall n {:trigger Leaf(m1, root, n)} :: ProperPage(n) ==>
      Leaf(m1, root, n) == if IdentityRange(start, end, n) then Some(n) else Leaf(m0, root, n)
  }

  /** What the lower half looks like when the kernel starts: the first 64 MiB and the two ranges of video memory, each
      page mapped to itself, and nothing else. */
  ghost predicate LowerHalfIs(m: Memory, root: Frame, videoStart: Address, videoEnd: Address, bufferStart: Address,
                              bufferEnd: Address) {
    forall n {:trigger Leaf(m, root, n)} :: 0 <= n < 0x8_0000_0000 ==>
      Leaf(m, root, n) ==
        if n < IDENTITY || IdentityRange(videoStart, videoEnd, n) || IdentityRange(bufferStart, bufferEnd, n)
          then Some(n) else None
  }

  lemma LowerHalfBuilt(m0: Memory, m1: Memory, m2: Memory, m3: Memory, root: Frame, videoStart: Address,
                       videoEnd: Address, bufferStart: Address, bufferEnd: Address, k: nat, i: nat, kernelAt: Address,
                       stackAt: Address, initrdAt: Address)
    requires FirstMapped(m0, root) && SelfAdded(m0, m1, root, videoStart, videoEnd)
    requires SelfAdded(m1, m2, root, bufferStart, bufferEnd)
    requires Layout(m2, m3, root, k, i, kernelAt, stackAt, initrdAt)
    ensures LowerHalfIs(m3, root, videoStart, videoEnd, bufferStart, bufferEnd)
  {
    hide IdentityRange, Walk;
    forall n | 0 <= n < 0x8_0000_0000
      ensures Leaf(m3, root, n) ==
        if n < IDENTITY || IdentityRange(videoStart, videoEnd, n) || IdentityRange(bufferStart, bufferEnd, n)
          then Some(n) else None
    {
      assert ProperPage(n);
      assert Leaf(m3, root, n) == Leaf(m2, root, n);
      assert Leaf(m2, root, n) == if IdentityRange(bufferStart, bufferEnd, n) then Some(n) else Leaf(m1, root, n);
      assert Leaf(m1, root, n) == if IdentityRange(videoStart, videoEnd, n) then Some(n) else Leaf(m0, root, n);
    }
  }

  /** On the way to some page of the range a table is missing. */
  ghost predicate TableMissingIn(m: Memory, root: Frame, first: int, end: int) {
    exists n {:trigger PathOf(n)} :: 0 <= n < PAGES && first <= n < end && Walk(m, root, PathOf(n)[..3]).None?
  }

  ghost predicate AnyMapped(m: Memory, root: Frame, start: Address, end: Address) {
    exists n {:trigger Leaf(m, root, n)} :: IdentityRange(start, end, n) && ProperPage(n) && Leaf(m, root, n).Some?
  }

  /** Video memory or the back buffer does not start at a page, and some of it is mapped when its turn comes. */
  ghost predicate ScreenClashes(videoStart: Address, videoEnd: Address, bufferStart: Address, bufferEnd: Address) {
    || (videoStart % PAGE != 0 && exists n :: n < IDENTITY && IdentityRange(videoStart, videoEnd, n))
    || (bufferStart % PAGE != 0 && exists n ::
           (n < IDENTITY || IdentityRange(videoStart, videoEnd, n)) && IdentityRange(bufferStart, bufferEnd, n))
  }

  lemma MappedOnScreen(m0: Memory, m1: Memory, root: Frame, videoStart: Address, videoEnd: Address,
                       bufferStart: Address, bufferEnd: Address)
    requires FirstMapped(m0, root) && videoEnd <= LOWER_END && bufferEnd <= LOWER_END
    ensures AnyMapped(m0, root, videoStart, videoEnd) <==>
              exists n :: n < IDENTITY && IdentityRange(videoStart, videoEnd, n)
    ensures SelfAdded(m0, m1, root, videoStart, videoEnd) ==>
              (AnyMapped(m1, root, bufferStart, bufferEnd) <==> exists n ::
                 (n < IDENTITY || IdentityRange(videoStart, videoEnd, n)) && IdentityRange(bufferStart, bufferEnd, n))
  {
    RangeIsLow(videoStart, videoEnd);
    RangeIsLow(bufferStart, bufferEnd);
    hide IdentityRange, Walk, PathOf;
    if n :| n < IDENTITY && IdentityRange(videoStart, videoEnd, n) { assert Leaf(m0, root, n).Some?; }
    if SelfAdded(m0, m1, root, videoStart, videoEnd) {
      if n :| (n < IDENTITY || IdentityRange(videoStart, videoEnd, n)) && IdentityRange(bufferStart, bufferEnd, n) {
        assert Leaf(m1, root, n).Some?;
      }
    }
  }

  lemma RangeIsLow(start: Address, end: Address)
    requires end <= LOWER_END
    ensures forall n {:trigger IdentityRange(start, end, n)} :: IdentityRange(start, end, n) ==>
              0 <= n < 0x8_0000_0000 && ProperPage(n)
  {
    if !NothingToDo(start, end) { LowerRange(start, end); }
  }

  lemma IdentityFrame(p: Address, n: int)
    requires p / PAGE <= n < 0x8_0000_0000
    ensures ProperPage(n) && Advance(p, n - p / PAGE) == n * PAGE + p % PAGE && FrameOf(n * PAGE + p % PAGE) == n
  {
    var k := p / PAGE;
    assert p + PAGE * (n - k) == n * PAGE + p % PAGE;
  }

  lemma IdentityLeaves(m0: Memory, m1: Memory, root: Frame, first: int, reached: int, p: Address)
    requires Mapped(m0, m1, root, first, reached, p) && LowerIdentity(m0, root)
    requires first == p / PAGE && first <= reached <= 0x8_0000_0000
    ensures forall n {:trigger Leaf(m1, root, n)} :: ProperPage(n) ==>
              Leaf(m1, root, n) == if first <= n < reached then Some(n) else Leaf(m0, root, n)
    ensures LowerIdentity(m1, root) && MappedKept(m0, m1, root)
  {
    hide Advance, FrameOf, Walk, PathOf;
    forall n | ProperPage(n) ensures Leaf(m1, root, n) == if first <= n < reached then Some(n) else Leaf(m0, root, n) {
      if first <= n < reached { IdentityFrame(p, n); }
    }
  }

  lemma IdentityClash(m: Memory, root: Frame, first: int, n: int, p: Address)
    requires LowerIdentity(m, root) && first == p / PAGE && first <= n < 0x8_0000_0000
    ensures ProperPage(n) && (ClashAt(m, root, first, n, p) <==> p % PAGE != 0 && Leaf(m, root, n).Some?)
  {
    hide Advance, Walk, PathOf;
    IdentityFrame(p, n);
    assert Leaf(m, root, n).Some? ==> Leaf(m, root, n) == Some(n);
  }

  lemma IdentityMapped(s: Snapshot, s': Snapshot, root: Frame, first: int, reached: int, end: int, p: Address)
    requires Mapping(s, s', root, first, reached, end, p) && LowerIdentity(s.mem, root)
    requires first == p / PAGE && first <= reached <= end <= 0x8_0000_0000
    ensures LowerIdentity(s'.mem, root)
    ensures MappedKept(s.mem, s'.mem, root)
    ensures forall n {:trigger Leaf(s'.mem, root, n)} :: ProperPage(n) ==>
              Leaf(s'.mem, root, n) == if first <= n < reached then Some(n) else Leaf(s.mem, root, n)
    ensures forall n {:trigger ClashAt(s.mem, root, first, n, p)} {:trigger Leaf(s.mem, root, n)} ::
              first <= n < end ==>
              ProperPage(n) && (ClashAt(s.mem, root, first, n, p) <==> p % PAGE != 0 && Leaf(s.mem, root, n).Some?)
    ensures p % PAGE != 0 ==> forall n {:trigger Leaf(s.mem, root, n)} :: first <= n < reached ==>
              Leaf(s.mem, root, n).None?
  {
    assert Mapped(s.mem, s'.mem, root, first, reached, p) && ClashFree(s.mem, root, first, reached, p);
    hide Mapping, Mapped, MappedKept, LowerIdentity, ClashAt, Walk, PathOf;
    IdentityLeaves(s.mem, s'.mem, root, first, reached, p);
    forall n | first <= n < end
      ensures ProperPage(n) && (ClashAt(s.mem, root, first, n, p) <==> p % PAGE != 0 && Leaf(s.mem, root, n).Some?)
    {
      IdentityClash(s.mem, root, first, n, p);
    }
    forall n | first <= n < reached && p % PAGE != 0 ensures Leaf(s.mem, root, n).None? {
      assert !ClashAt(s.mem, root, first, n, p);
    }
  }

  /** On the way to some page of video memory, of the back buffer or of what is installed, a table is missing. */
  ghost predicate TableMissingOnTheWay(m: Memory, root: Frame, videoStart: Address, videoEnd: Address,
                                       bufferStart: Address, bufferEnd: Address, kernelLength: nat, initrdLength: nat) {
    var k, i := PagesFor(SectorBytes(kernelLength)), PagesFor(SectorBytes(initrdLength));
    || TableMissingIn(m, root, videoStart / PAGE, PageOf(RoundUp(videoEnd)))
    || TableMissingIn(m, root, bufferStart / PAGE, PageOf(RoundUp(bufferEnd)))
    || TableMissingIn(m, root, Page(TOP), Page(TOP) + k + 2 + i)
  }

  /** How many pages hold `length` bytes. */
  function PagesFor(length: nat): nat {
    (length + PAGE - 1) / PAGE
  }

  function SectorBytes(sectors: nat): nat {
    sectors * 512 % 0x1_0000_0000
  }

  /** The frames of `k` pages from `p` on. */
  function FramesAt(p: Address, k: nat): set<Frame> {
    if k == 0 then {} else FramesAt(p, k - 1) + {FrameOf(Advance(p, k - 1))}
  }

  lemma {:induction false} FramesAtAre(p: Address, k: nat, f: Frame)
    ensures f in FramesAt(p, k) <==> exists i {:trigger Advance(p, i)} :: 0 <= i < k && f == FrameOf(Advance(p, i))
  {
    if k > 0 {
      FramesAtAre(p, k - 1, f);
      if f in FramesAt(p, k) && f !in FramesAt(p, k - 1) { assert f == FrameOf(Advance(p, k - 1)); }
    }
  }

  lemma TableMissingWider(m: Memory, root: Frame, first: int, end: int, first': int, end': int)
    requires TableMissingIn(m, root, first, end) && first' <= first && end <= end'
    ensures TableMissingIn(m, root, first', end')
  {
  }

  /** The frames that the kernel, its stack and the ramdisk lie in. */
  function Images(kernelLength: nat, initrdLength: nat, kernelAt: Address, stackAt: Address,
                  initrdAt: Address): set<Frame> {
    FramesAt(kernelAt, PagesFor(SectorBytes(kernelLength))) + FramesAt(stackAt, 1)
    + FramesAt(initrdAt, PagesFor(SectorBytes(initrdLength)))
  }

  /** Nothing is mapped from page `n` on. */
  ghost predicate FreeFrom(m: Memory, root: Frame, n: int) {
    forall k {:trigger Leaf(m, root, k)} :: ProperPage(k) && n <= k ==> Leaf(m, root, k).None?
  }

  lemma StillFree(m0: Memory, m1: Memory, root: Frame, first: int, end: int, p: Address)
    requires FreeFrom(m0, root, first) && Mapped(m0, m1, root, first, end, p) && first <= end
    ensures FreeFrom(m1, root, end) && FreeFrom(m1, root, end + 1)
  {
  }

  /** Everything fits below the last page of the address space. */
  predicate Fits(kernelLength: nat, initrdLength: nat) {
    PagesFor(kernelLength * 512 % 0x1_0000_0000) + PagesFor(initrdLength * 512 % 0x1_0000_0000) + 2 < 0x7_FFFF
  }

  /** Where the end of the kernel, of the stack and of the ramdisk lie. */
  lemma Ends(kernelLength: nat, initrdLength: nat)
    requires Fits(kernelLength, initrdLength)
    ensures SectorBytes(kernelLength) <= 0x7FFF_F000
    ensures
      var k := PagesFor(SectorBytes(kernelLength));
      var e := TOP + k * PAGE;
      && e % WORD == e && e % PAGE == 0 && e <= WORD - 3 * PAGE && Page(e) == Page(TOP) + k
      && Page(e + 2 * PAGE) == Page(TOP) + k + 2 && e + 2 * PAGE + SectorBytes(initrdLength) <= WORD - PAGE
  {
  }

  /** Rounding up in 32 bits. */
  lemma KernelEnd(length: nat)
    requires length <= 0x7FFF_F000
    ensures (length + 4095) % 0x1_0000_0000 / PAGE * PAGE == PagesFor(length) * PAGE
  {
  }

  lemma TopRange(virtual: Address, length: nat)
    requires virtual % PAGE == 0 && TOP <= virtual && virtual + length <= WORD - PAGE
    ensures RoundDown(virtual) == virtual && PageOf(virtual) == Page(virtual) && InOneHalf(virtual, virtual + length)
    ensures NothingToDo(virtual, virtual + length) <==> length == 0
    ensures !StartsInPagingArea(virtual)
    ensures length > 0 ==> PageOf(RoundUp(virtual + length)) == Page(virtual) + PagesFor(length)
  {
    var e := virtual + PagesFor(length) * PAGE;
    RoundUpUnique(virtual + length, e);
    PageOfHalf(virtual);
    if e < WORD { PageOfHalf(e); }
  }

  /** The kernel, one page free, the stack, the ramdisk: all from `TOP` on, the rest as before. */
  ghost predicate Layout(m0: Memory, m: Memory, root: Frame, k: nat, i: nat, kernelAt: Address, stackAt: Address,
                         initrdAt: Address) {
    var t := Page(TOP);
    forall n {:trigger Leaf(m, root, n)} :: ProperPage(n) ==>
      Leaf(m, root, n) ==
        if t <= n < t + k then Some(FrameOf(Advance(kernelAt, n - t)))
        else if n == t + k then None
        else if n == t + k + 1 then Some(FrameOf(stackAt))
        else if t + k + 2 <= n < t + k + 2 + i then Some(FrameOf(Advance(initrdAt, n - (t + k + 2))))
        else Leaf(m0, root, n)
  }

  lemma LaidOut(m0: Memory, m1: Memory, m2: Memory, m3: Memory, root: Frame, k: nat, i: nat, kernelAt: Address,
                stackAt: Address, initrdAt: Address)
    requires FreeFrom(m0, root, Page(TOP))
    requires Mapped(m0, m1, root, Page(TOP), Page(TOP) + k, kernelAt)
    requires Mapped(m1, m2, root, Page(TOP) + k + 1, Page(TOP) + k + 2, stackAt)
    requires Mapped(m2, m3, root, Page(TOP) + k + 2, Page(TOP) + k + 2 + i, initrdAt)
    ensures Layout(m0, m3, root, k, i, kernelAt, stackAt, initrdAt)
  {
    AdvanceOne(stackAt, 0);
  }

  /** The last page of the address space is free: everything fits below. */
  lemma LastPageFree(m0: Memory, m: Memory, root: Frame, kernelLength: nat, initrdLength: nat, kernelAt: Address,
                     stackAt: Address, initrdAt: Address)
    requires StartMapped(m0, root) && Fits(kernelLength, initrdLength)
    requires Layout(m0, m, root, PagesFor(SectorBytes(kernelLength)), PagesFor(SectorBytes(initrdLength)), kernelAt,
             stackAt, initrdAt)
    ensures Leaf(m, root, LAST).None?
  {
    LastIsKernel();
    assert SectorBytes(kernelLength) == kernelLength * 512 % 0x1_0000_0000;
    assert SectorBytes(initrdLength) == initrdLength * 512 % 0x1_0000_0000;
    hide Walk, PathOf, SectorBytes, PagesFor;
    assert Leaf(m, root, LAST) == Leaf(m0, root, LAST);
  }

  class Loader {
    var mem: Memory
    /** The PML4. */
    var vas: Frame
    /** Frames that the allocator has not handed out. */
    var free: set<Frame>
    ghost var owner: Owner

    /** The state as it will be with the self entry. */
    ghost function Now(): Snapshot
      reads this
      requires vas in mem
    {
      Snapshot(WithSelf(mem, vas), owner, free)
    }

    ghost predicate Ready()
      reads this
    {
      vas in mem && Sound(Now()) && Editable(Now(), vas, SELF, vas) && LoaderRights(mem, owner)
    }

    ghost predicate OneSpaceHere()
      reads this
    {
      Ready() && OneSpace(Now(), vas)
    }

    /** The pointer `table` is the table at `q`. */
    ghost predicate Points(table: Frame, q: Path)
      reads this
    {
      vas in mem && Walk(Now().mem, vas, q) == Some(table)
    }

    /** Creates the table at `q + [i]`, all zero, and links it into its parent `table`. */
    method AddTable(table: Frame, ghost q: Path, i: Index) returns (ok: bool, child: Frame)
      requires Ready() && |q| < 3 && Proper(q + [i]) && Proper(q) && Points(table, q)
      requires table in mem && !mem[table][i].present
      modifies this`mem, this`free, this`owner
      ensures ok ==> Ready() && TableEnsured(old(Now()), Now(), vas, q + [i]) && Points(child, q + [i])
      ensures ok ==> child != table && child in mem && mem[child] == EMPTY_TABLE
      ensures ok ==> table in mem && SameBut(old(mem)[table], mem[table], i)
      ensures ok ==> child in old(free) && free == old(free) - {child} && owner.Keys == old(owner).Keys + {child}
      ensures ok ==> Took(old(free), old(owner).Keys, free, owner.Keys, 1)
      ensures !ok ==> Ready() && Now() == old(Now()) && free == {}
    {
      hide Sound, Editable, TableEnsured, Walk, LoaderRights;
      child := 0;
      if free == {} {
        return false, child;
      }
      child :| child in free;
      TableAdded(mem, owner, free, vas, table, q, i, child);
      RightsOfTable(mem, owner, table, i, child, ChildPlace(owner[table], i, child));
      free := free - {child};
      mem := mem[child := EMPTY_TABLE];
      mem := Put(mem, table, i, mem[table][i].(present := true, readWrite := true, address := child));
      owner := owner[child := ChildPlace(owner[table], i, child)];
      ok := true;
    }

    /** Creates the table if it is missing; the permissions of an existing entry stay. */
    method EnsureTable(table: Frame, ghost q: Path, i: Index) returns (ok: bool, child: Frame)
      requires Ready() && |q| < 3 && Proper(q + [i]) && Proper(q) && Points(table, q)
      modifies this`mem, this`free, this`owner
      ensures ok ==> Ready() && TableEnsured(old(Now()), Now(), vas, q + [i]) && Points(child, q + [i])
      ensures !ok ==> Ready() && Now() == old(Now()) && free == {} && Walk(Now().mem, vas, q + [i]).None?
    {
      hide Sound, Editable, Walk;
      PointedTable(mem, owner, free, vas, q, i);
      if !mem[table][i].present {
        ok, child := AddTable(table, q, i);
        return;
      }
      AlreadyThere(Now(), vas, q + [i]);
      return true, mem[table][i].address;
    }

    /** Maps one page, unless that panics. */
    method MapPage(pt: Frame, ghost r: Request, at: Cursor, ghost v: nat, p: Address) returns (outcome: Outcome)
      requires vas in mem && r.root == vas && at.InTables() && at.Page() < r.end && LoaderRights(mem, owner)
      requires MapStands(Now(), vas, SELF, r, at.Page(), v, p) && Points(pt, at.TablePath())
      modifies this`mem
      ensures vas in mem && Points(pt, at.TablePath()) && Keeps(old(Now()), Now(), vas) && LoaderRights(mem, owner)
      ensures outcome == Done ==> MapStands(Now(), vas, SELF, r, at.Page() + 1, v + PAGE, (p + PAGE) % WORD)
      ensures outcome != Done ==>
                outcome == AlreadyMapped && Now() == old(Now()) && Clash(r.s0.mem, r.root, at.Page(), p)
    {
      hide MapStands, Editable, Sound, Walk, Keeps, LoaderRights;
      ghost var s, q, n := Now(), at.TablePath(), at.Page();
      MapStandsInside(s, vas, SELF, r, n, v, p);
      PageUntouched(s, vas, SELF, r, n, v, p);
      at.PathOfPage();
      assert Proper(q + [at.pte]) && Proper(q);
      PointedTable(mem, owner, free, vas, q, at.pte);
      var e := mem[pt][at.pte];
      if e.present && p != e.address * PAGE {
        KeepsRefl(s, vas);
        return AlreadyMapped;
      }
      PageStored(mem, owner, free, vas, pt, r, at, v, p);
      RightsOfStore(mem, owner, pt, at.pte, FrameOf(p));
      mem := Put(mem, pt, at.pte, e.(present := true, readWrite := true, address := FrameOf(p)));
      outcome := Done;
    }

    /** The loops of `map` stand at the counters `at`. */
    ghost predicate MapAt(r: Request, at: Cursor, end: Cursor, v: nat, p: Address)
      reads this
    {
      && vas in mem && r.root == vas && MapStands(Now(), vas, SELF, r, at.Page(), v, p) && LoaderRights(mem, owner)
      && end.InTables() && end.Page() == r.end
    }

    /** Why the loops of `map` stopped at the page of `at`. */
    ghost predicate MapPanicked(r: Request, at: Cursor, outcome: Outcome)
      reads this
    {
      && r.start <= at.Page() < r.end <= PAGES
      && (outcome == AlreadyMapped || outcome == OutOfFrames)
      && (outcome == AlreadyMapped ==> ClashAt(r.s0.mem, r.root, r.start, at.Page(), r.p))
      && (outcome == OutOfFrames ==> free == {} && vas in mem && Walk(Now().mem, vas, PathOf(at.Page())[..3]).None?)
    }

    method MapPages(pt: Frame, ghost r: Request, start: Cursor, end: Cursor, v0: nat, p0: Address)
      returns (at: Cursor, v: nat, p: Address, outcome: Outcome)
      requires MapAt(r, start, end, v0, p0) && start.InTables() && Points(pt, start.TablePath())
      modifies this`mem
      ensures MapAt(r, at, end, v, p) && Keeps(old(Now()), Now(), vas)
      ensures at == start.(pte := at.pte) && at.pte <= 512
      ensures outcome == Done ==> at == end || at.pte == 512
      ensures outcome != Done ==> MapPanicked(r, at, outcome)
    {
      hide MapStands, Editable, Sound, Keeps, Walk, PathOf, TableEnsured, LoaderRights;
      at, v, p := start, v0, p0;
      KeepsRefl(Now(), vas);
      while at != end && at.pte < 512
        invariant MapAt(r, at, end, v, p) && Points(pt, start.TablePath()) && Keeps(old(Now()), Now(), vas)
        invariant at == start.(pte := at.pte) && at.pte <= 512
        decreases 512 - at.pte
      {
        EndTestIff(at, end);
        MapStandsInside(Now(), vas, SELF, r, at.Page(), v, p);
        ghost var s := Now();
        outcome := MapPage(pt, r, at, v, p);
        KeepsTrans(old(Now()), s, Now(), vas);
        if outcome != Done {
          return;
        }
        assert at.(pte := at.pte + 1).Page() == at.Page() + 1;
        at, v, p := at.(pte := at.pte + 1), v + PAGE, (p + PAGE) % WORD;
      }
      outcome := Done;
    }

    method MapPageTables(pd: Frame, ghost r: Request, start: Cursor, end: Cursor, v0: nat, p0: Address)
      returns (at: Cursor, v: nat, p: Address, outcome: Outcome)
      requires MapAt(r, start, end, v0, p0) && start.InTables() && Points(pd, start.TablePath()[..2])
      modifies this`mem, this`free, this`owner
      ensures MapAt(r, at, end, v, p) && Keeps(old(Now()), Now(), vas)
      ensures at == start.(pde := at.pde, pte := at.pte) && at.pde <= 512 && at.pte <= 512
      ensures outcome == Done ==> at == end || (at.pde == 512 && at.pte == 0)
      ensures outcome != Done ==> MapPanicked(r, at, outcome)
    {
      hide MapStands, Editable, Sound, Keeps, Walk, PathOf, TableEnsured, LoaderRights;
      at, v, p := start, v0, p0;
      KeepsRefl(Now(), vas);
      while at != end && at.pde < 512
        invariant MapAt(r, at, end, v, p) && Points(pd, start.TablePath()[..2]) && Keeps(old(Now()), Now(), vas)
        invariant at == start.(pde := at.pde, pte := at.pte) && at.pde <= 512 && at.pte < 512
        invariant at.pde == 512 ==> at.pte == 0
        decreases 512 - at.pde
      {
        EndTestIff(at, end);
        MapStandsInside(Now(), vas, SELF, r, at.Page(), v, p);
        ghost var s, q := Now(), at.TablePath();
        at.PathOfPage();
        assert q[..2] == start.TablePath()[..2] && q == q[..2] + [at.pde];
        var ok, pt := EnsureTable(pd, q[..2], at.pde);
        if !ok {
          assert PathOf(at.Page())[..3] == q;
          return at, v, p, OutOfFrames;
        }
        TableNext(s, Now(), vas, r, at.Page(), v, p, q);
        ghost var s1 := Now();
        at, v, p, outcome := MapPages(pt, r, at, end, v, p);
        KeepsTrans(s, s1, Now(), vas);
        KeepsTrans(old(Now()), s, Now(), vas);
        if outcome != Done || at == end {
          return;
        }
        KeptTable(s, Now(), vas, q[..2], pd);
        assert at.(pde := at.pde + 1, pte := 0).Page() == at.Page();
        at := at.(pde := at.pde + 1, pte := 0);
      }
      outcome := Done;
    }

    method MapDirectories(pdpt: Frame, ghost r: Request, start: Cursor, end: Cursor, v0: nat, p0: Address)
      returns (at: Cursor, v: nat, p: Address, outcome: Outcome)
      requires MapAt(r, start, end, v0, p0) && start.InTables() && Points(pdpt, start.TablePath()[..1])
      modifies this`mem, this`free, this`owner
      ensures MapAt(r, at, end, v, p) && Keeps(old(Now()), Now(), vas)
      ensures at == start.(pdpte := at.pdpte, pde := at.pde, pte := at.pte) && at.pdpte <= 512
      ensures outcome == Done ==> at == end || (at.pdpte == 512 && at.pde == 0 && at.pte == 0)
      ensures outcome != Done ==> MapPanicked(r, at, outcome)
    {
      hide MapStands, Editable, Sound, Keeps, Walk, PathOf, TableEnsured, LoaderRights;
      at, v, p := start, v0, p0;
      KeepsRefl(Now(), vas);
      while at != end && at.pdpte < 512
        invariant MapAt(r, at, end, v, p) && Points(pdpt, start.TablePath()[..1]) && Keeps(old(Now()), Now(), vas)
        invariant at == start.(pdpte := at.pdpte, pde := at.pde, pte := at.pte) && at.pdpte <= 512 && at.pde < 512
        invariant at.pte < 512
        invariant at.pdpte == 512 ==> at.pde == 0 && at.pte == 0
        decreases 512 - at.pdpte
      {
        EndTestIff(at, end);
        MapStandsInside(Now(), vas, SELF, r, at.Page(), v, p);
        ghost var s, q := Now(), at.TablePath();
        at.PathOfPage();
        assert q[..1] == start.TablePath()[..1] && q[..2] == q[..1] + [at.pdpte] && q[..2] <= PathOf(at.Page());
        var ok, pd := EnsureTable(pdpt, q[..1], at.pdpte);
        if !ok {
          WalkBelowNone(Now().mem, vas, q[..2], PathOf(at.Page())[..3]);
          return at, v, p, OutOfFrames;
        }
        TableNext(s, Now(), vas, r, at.Page(), v, p, q[..2]);
        ghost var s1 := Now();
        at, v, p, outcome := MapPageTables(pd, r, at, end, v, p);
        KeepsTrans(s, s1, Now(), vas);
        KeepsTrans(old(Now()), s, Now(), vas);
        if outcome != Done || at == end {
          return;
        }
        KeptTable(s, Now(), vas, q[..1], pdpt);
        assert at.(pdpte := at.pdpte + 1, pde := 0).Page() == at.Page();
        at := at.(pdpte := at.pdpte + 1, pde := 0);
      }
      outcome := Done;
    }

    method MapSpace(ghost r: Request, start: Cursor, end: Cursor, v0: nat, p0: Address)
      returns (at: Cursor, v: nat, p: Address, outcome: Outcome)
      requires MapAt(r, start, end, v0, p0) && start.InTables()
      modifies this`mem, this`free, this`owner
      ensures MapAt(r, at, end, v, p)
      ensures outcome == Done ==> at == end
      ensures outcome != Done ==> MapPanicked(r, at, outcome)
    {
      hide MapStands, Editable, Sound, Keeps, Walk, PathOf, TableEnsured, LoaderRights;
      at, v, p := start, v0, p0;
      while at != end
        invariant MapAt(r, at, end, v, p)
        invariant at.pdpte < 512 && at.pde < 512 && at.pte < 512
        decreases 512 - at.pml4e
      {
        MapStandsInside(Now(), vas, SELF, r, at.Page(), v, p);
        assert at.pml4e < 512;
        EndTestIff(at, end);
        ghost var s, q := Now(), at.TablePath();
        at.PathOfPage();
        assert q[..1] == [] + [at.pml4e] && q[..1] <= PathOf(at.Page());
        WalkNothing(Now().mem, vas);
        var ok, pdpt := EnsureTable(vas, [], at.pml4e);
        if !ok {
          WalkBelowNone(Now().mem, vas, q[..1], PathOf(at.Page())[..3]);
          return at, v, p, OutOfFrames;
        }
        TableNext(s, Now(), vas, r, at.Page(), v, p, q[..1]);
        at, v, p, outcome := MapDirectories(pdpt, r, at, end, v, p);
        if outcome != Done || at == end {
          return;
        }
        assert at.(pml4e := at.pml4e + 1, pdpte := 0).Page() == at.Page();
        at := at.(pml4e := at.pml4e + 1, pdpte := 0);
      }
      outcome := Done;
    }

    /** Maps the pages of [`virtualStart`, `virtualEnd`) to consecutive frames from `physicalStart`. This is the
        contract of the kernel's `map`, but for the guard of the paging windows, which the loader does not have. */
    method Map(virtualStart: Address, virtualEnd: Address, physicalStart: Address)
      returns (outcome: Outcome, ghost reached: int)
      requires Ready()
      requires !NothingToDo(virtualStart, virtualEnd) ==>
                 InOneHalf(virtualStart, virtualEnd) && !StartsInPagingArea(virtualStart)
      modifies this`mem, this`free, this`owner
      ensures Ready()
      ensures OneSpace(old(Now()), vas) ==> OneSpace(Now(), vas)
      ensures free <= old(free) && free + owner.Keys == old(free) + old(owner).Keys
      ensures NothingToDo(virtualStart, virtualEnd) ==> Now() == old(Now()) && outcome == Done
      ensures !NothingToDo(virtualStart, virtualEnd) ==>
                var first, end := PageOf(RoundDown(virtualStart)), PageOf(RoundUp(virtualEnd));
                && Mapping(old(Now()), Now(), vas, first, reached, end, physicalStart)
                && (outcome == Done ==> reached == end)
                && (outcome != Done ==> first <= reached < end)
                && (outcome == AlreadyMapped ==> ClashAt(old(Now()).mem, vas, first, reached, physicalStart))
                && (outcome == OutOfFrames ==> free == {} && Walk(Now().mem, vas, PathOf(reached)[..3]).None?)
                && (outcome == Done || outcome == AlreadyMapped || outcome == OutOfFrames)
    {
      reached := 0;
      var v: nat := RoundDown(virtualStart);
      var e := RoundUp(virtualEnd);
      if e <= v {
        return Done, reached;
      }
      RangeIsProper(virtualStart, virtualEnd);
      IndicesOfAddress(v);
      IndicesOfAddress(e);
      ghost var r := Request(Now(), vas, PageOf(v), PageOf(e), v, physicalStart);
      MappingStarts(Now(), vas, r.start, r.end, physicalStart);
      AdvanceOne(physicalStart, 0);
      var at, p;
      at, v, p, outcome := MapSpace(r, CursorAt(v), CursorAt(e), v, physicalStart);
      reached := at.Page();
      MappingKeepsOneSpace(r.s0, Now(), vas, r.start, reached, r.end, physicalStart);
      MappingKeepsFrames(r.s0, Now(), vas, r.start, reached, r.end, physicalStart);
    }

    // -------------------------------------------------------------------------------------------
    // Booting
    // -------------------------------------------------------------------------------------------

    /** Fills page table `i`: the pages of the two megabytes from `i * 2` MiB on, each to itself. */
    method IdentityTable(pt: Frame, ghost r: Request, i: Index)
      requires vas in mem && i < 32 && AtTable(Now(), vas, r, i) && Points(pt, [0, 0, i])
      requires NothingMapped(r.s0.mem, vas) && LoaderRights(mem, owner)
      modifies this`mem
      ensures vas in mem && Keeps(old(Now()), Now(), vas) && LoaderRights(mem, owner)
      ensures AtTable(Now(), vas, r, i + 1)
      ensures OnlyFrame(old(mem), mem, pt)
    {
      hide MapStands, Editable, Sound, Walk, Keeps, LoaderRights;
      KeepsRefl(Now(), vas);
      var j: nat := 0;
      while j < 512
        invariant 0 <= j <= 512
        invariant vas in mem && Points(pt, [0, 0, i]) && Keeps(old(Now()), Now(), vas) && LoaderRights(mem, owner)
        invariant MapStands(Now(), vas, SELF, r, i * 512 + j, i * 0x20_0000 + j * PAGE, i * 0x20_0000 + j * PAGE)
        invariant OnlyFrame(old(mem), mem, pt)
      {
        ghost var s := Now();
        var p := i * 0x20_0000 + j * PAGE;
        IdentityStored(mem, owner, free, vas, pt, r, i, j, p);
        mem := Put(mem, pt, j, mem[pt][j].(present := true, readWrite := true, address := FrameOf(p)));
        KeepsTrans(old(Now()), s, Now(), vas);
        j := j + 1;
      }
    }

    /** A new PML4 with nothing below. */
    method NewSpace() returns (ok: bool)
      requires free <= mem.Keys
      modifies this
      ensures ok ==>
                Ready() && OneSpace(Now(), vas) && NothingMapped(Now().mem, vas) && !mem[vas][0].present &&
                  Points(vas, [])
      ensures ok ==> vas in old(free) && free == old(free) - {vas} && owner.Keys == {vas}
      ensures ok <==> old(free) != {}
    {
      if free == {} {
        return false;
      }
      var c :| c in free;
      vas, free := c, free - {c};
      mem := mem[vas := EMPTY_TABLE];
      owner := map[vas := Place([], vas)];
      EmptySpace(mem, vas, free);
      ok := true;
    }

    /** The tables down to the page directory of the first gigabyte. */
    method NewDirectory(ghost r: Request) returns (ok: bool, pd: Frame)
      requires Ready() && !mem[vas][0].present && Points(vas, []) && r == Request(Now(), vas, 0, IDENTITY, 0, 0)
      modifies this`mem, this`free, this`owner
      ensures ok ==>
                Ready() && Points(pd, [0, 0]) && pd in mem && mem[pd] == EMPTY_TABLE &&
                  AtTable(Now(), vas, r, 0)
      ensures ok ==> Took(old(free), old(owner).Keys, free, owner.Keys, 2)
      ensures !ok ==> |old(free)| < 2
    {
      hide Took, Editable, Sound, Walk, AtTable, Keeps, LoaderRights, TableEnsured, WithSelf, PathOf;
      IdentityStarts(Now(), vas);
      assert [] + [0] == [0] && [0] + [0] == [0, 0];
      pd := 0;
      var table;
      ok, table := AddTable(vas, [], 0);
      if !ok { return; }
      IdentityTableNext(r.s0, Now(), vas, r, 0, [0]);
      ghost var s := Now();
      ghost var f1, o1 := free, owner.Keys;
      ok, pd := AddTable(table, [0], 0);
      if !ok {
        assert old(free) == {table};
        return;
      }
      IdentityTableNext(s, Now(), vas, r, 0, [0, 0]);
      TookMore(old(free), old(owner).Keys, f1, o1, free, owner.Keys, 1, 1);
    }

    /** Adds page table `i` to the page directory and fills it. */
    method IdentityNext(pd: Frame, ghost r: Request, i: Index) returns (ok: bool)
      requires Ready() && Points(pd, [0, 0]) && pd in mem && i < 32
      requires AtTable(Now(), vas, r, i) && NothingMapped(r.s0.mem, vas)
      requires AbsentFrom(mem[pd], i)
      modifies this`mem, this`free, this`owner
      ensures ok ==> Ready() && Points(pd, [0, 0]) && pd in mem
      ensures ok ==> AtTable(Now(), vas, r, i + 1)
      ensures ok ==> AbsentFrom(mem[pd], i + 1)
      ensures ok ==> Took(old(free), old(owner).Keys, free, owner.Keys, 1)
      ensures !ok ==> old(free) == {}
    {
      hide Editable, Sound, Walk, AtTable, Keeps, NothingMapped, OneSpace, LoaderRights, WithSelf, TableEnsured,
           PathOf;
      ghost var s, s0 := Now(), mem[pd];
      assert !mem[pd][i].present;
      hide AbsentFrom, Took, SameBut, OnlyFrame;
      assert [0, 0] + [i] == [0, 0, i];
      var pt;
      ok, pt := AddTable(pd, [0, 0], i);
      if !ok { return; }
      AbsentNext(s0, mem[pd], i);
      IdentityTableNext(s, Now(), vas, r, i, [0, 0, i]);
      KeptTable(s, Now(), vas, [0, 0], pd);
      ghost var s1, m1 := Now(), mem;
      IdentityTable(pt, r, i);
      KeptTable(s1, Now(), vas, [0, 0], pd);
      OtherFrame(m1, mem, pt, pd);
      AtTableInside(Now(), vas, r, i + 1);
    }

    /** Adds and fills the 32 page tables. */
    method FillTables(pd: Frame, ghost r: Request) returns (ok: bool)
      requires Ready() && Points(pd, [0, 0]) && pd in mem && r.root == vas
      requires AtTable(Now(), vas, r, 0) && NothingMapped(r.s0.mem, vas) && AbsentFrom(mem[pd], 0)
      modifies this`mem, this`free, this`owner
      ensures ok ==> Ready() && AtTable(Now(), vas, r, 32) && Took(old(free), old(owner).Keys, free, owner.Keys, 32)
      ensures !ok ==> |old(free)| < 32
    {
      hide Editable, Sound, Walk, AtTable, Keeps, NothingMapped, OneSpace, LoaderRights, WithSelf, TableEnsured,
           PathOf;
      assert Took(old(free), old(owner).Keys, free, owner.Keys, 0);
      hide Took, AbsentFrom, FirstMapped;
      var i: nat := 0;
      while i < 32
        invariant 0 <= i <= 32 && Ready() && Points(pd, [0, 0]) && pd in mem
        invariant Took(old(free), old(owner).Keys, free, owner.Keys, i)
        invariant AtTable(Now(), vas, r, i) && AbsentFrom(mem[pd], i)
      {
        ghost var f1, o1 := free, owner.Keys;
        TookCounts(old(free), old(owner).Keys, f1, o1, i);
        ok := IdentityNext(pd, r, i);
        if !ok { return; }
        TookMore(old(free), old(owner).Keys, f1, o1, free, owner.Keys, i, 1);
        i := i + 1;
      }
      ok := true;
    }

    /** Makes an address space in which exactly the first 64 MiB are mapped, each address to itself. That takes 35
        frames: one table of each of the upper levels, and 32 page tables. */
    method PrepareLongMode() returns (outcome: Outcome)
      requires free <= mem.Keys
      modifies this
      ensures outcome == Done ==> Ready() && OneSpace(Now(), vas) && FirstMapped(Now().mem, vas)
      ensures outcome == Done || outcome == OutOfFrames
      ensures outcome == Done <==> |old(free)| >= 35
      ensures outcome == Done ==> |free| == |old(free)| - 35 && old(free) == free + owner.Keys
    {
      hide Editable, Sound, Walk, AtTable, Keeps, NothingMapped, OneSpace, LoaderRights, WithSelf, TableEnsured,
           PathOf;
      var ok := NewSpace();
      if !ok { return OutOfFrames; }
      assert Took(old(free), {}, free, owner.Keys, 1);
      hide Took, AbsentFrom, FirstMapped;
      ghost var r := Request(Now(), vas, 0, IDENTITY, 0, 0);
      ghost var f1, o1 := free, owner.Keys;
      TookCounts(old(free), {}, f1, o1, 1);
      var pd;
      ok, pd := NewDirectory(r);
      if !ok { return OutOfFrames; }
      ghost var f2, o2 := free, owner.Keys;
      TookCounts(f1, o1, f2, o2, 2);
      AllAbsent();
      ok := FillTables(pd, r);
      if !ok { return OutOfFrames; }
      TookMore(old(free), {}, f1, o1, f2, o2, 1, 2);
      TookMore(old(free), {}, f2, o2, free, owner.Keys, 3, 32);
      TookCounts(old(free), {}, free, owner.Keys, 35);
      IdentityEnds(Now(), vas, r);
      AtTableInside(Now(), vas, r, 32);
      outcome := Done;
    }

    /** Maps physical memory at its own addresses, over whatever of it is mapped so already. Only from an address that
        is not page-aligned that panics, exactly if some of it is mapped. */
    method MapIdentity(start: Address, end: Address) returns (outcome: Outcome)
      requires Ready() && LowerIdentity(Now().mem, vas) && end <= LOWER_END
      modifies this`mem, this`free, this`owner
      ensures Ready() && LowerIdentity(Now().mem, vas)
      ensures OneSpace(old(Now()), vas) ==> OneSpace(Now(), vas)
      ensures MappedKept(old(Now()).mem, Now().mem, vas)
      ensures outcome == Done || outcome == OutOfFrames || outcome == AlreadyMapped
      ensures outcome == OutOfFrames ==>
                free == {} && TableMissingIn(Now().mem, vas, start / PAGE, PageOf(RoundUp(end)))
      ensures free <= old(free) && free + owner.Keys == old(free) + old(owner).Keys
      ensures outcome == Done ==> start % PAGE == 0 || !AnyMapped(old(Now()).mem, vas, start, end)
      ensures outcome == AlreadyMapped ==> start % PAGE != 0 && AnyMapped(old(Now()).mem, vas, start, end)
      ensures outcome == Done ==> SelfAdded(old(Now()).mem, Now().mem, vas, start, end)
    {
      hide Sound, Editable, OneSpace, LoaderRights, Walk, WithSelf, Advance, FrameOf, RoundUp, RoundDown, PageOf;
      ghost var reached;
      ghost var s := Now();
      if !NothingToDo(start, end) {
        LowerRange(start, end);
      }
      outcome, reached := Map(start, end, start);
      if !NothingToDo(start, end) {
        IdentityMapped(s, Now(), vas, start / PAGE, reached, PageOf(RoundUp(end)), start);
      }
    }

    /** Takes the frames of `length` bytes at `p` from the allocator and maps them at an address above `TOP` where
        nothing is mapped. */
    method InstallBytes(virtual: Address, length: nat, p: Address) returns (outcome: Outcome)
      requires Ready() && virtual % PAGE == 0 && TOP <= virtual && virtual + length <= WORD - PAGE
      requires FreeFrom(Now().mem, vas, Page(virtual))
      modifies this`mem, this`free, this`owner
      ensures Ready()
      ensures OneSpace(old(Now()), vas) ==> OneSpace(Now(), vas)
      ensures outcome == Done ==>
                Mapped(old(Now()).mem, Now().mem, vas, Page(virtual), Page(virtual) + PagesFor(length), p)
      ensures outcome != Done ==> outcome == OutOfFrames && free == {}
      ensures outcome != Done ==> TableMissingIn(Now().mem, vas, Page(virtual), Page(virtual) + PagesFor(length))
      ensures var taken := FramesAt(p, PagesFor(length));
              free <= old(free) - taken && free + owner.Keys == (old(free) - taken) + old(owner).Keys
    {
      hide Sound, Editable, OneSpace, LoaderRights, Walk, WithSelf, FramesAt;
      ghost var s0 := Now();
      FewerFreeReady(s0, vas, free - FramesAt(p, PagesFor(length)));
      free := free - FramesAt(p, PagesFor(length));
      ghost var s := Now();
      TopRange(virtual, length);
      ghost var reached;
      outcome, reached := Map(virtual, virtual + length, p);
    }

    /** Maps the kernel; `kernelLength` counts sectors of 512 bytes, in 32 bits. */
    method InstallKernel(kernelLength: nat, p: Address) returns (outcome: Outcome, kernelEnd: Address)
      requires Ready() && FreeFrom(Now().mem, vas, Page(TOP)) && SectorBytes(kernelLength) <= 0x7FFF_F000
      modifies this`mem, this`free, this`owner
      ensures Ready() && kernelEnd == (TOP + PagesFor(SectorBytes(kernelLength)) * PAGE) % WORD
      ensures OneSpace(old(Now()), vas) ==> OneSpace(Now(), vas)
      ensures outcome == Done ==>
                Mapped(old(Now()).mem, Now().mem, vas, Page(TOP), Page(TOP) + PagesFor(SectorBytes(kernelLength)), p)
      ensures outcome != Done ==> outcome == OutOfFrames && free == {}
      ensures var k := PagesFor(SectorBytes(kernelLength));
              && (outcome != Done ==> TableMissingIn(Now().mem, vas, Page(TOP), Page(TOP) + k))
              && free <= old(free) - FramesAt(p, k)
              && free + owner.Keys == (old(free) - FramesAt(p, k)) + old(owner).Keys
    {
      hide FramesAt, Mapped, FreeFrom, Sound, Editable, OneSpace, LoaderRights, Walk, WithSelf, TableMissingIn, Page;
      var length := SectorBytes(kernelLength);
      KernelEnd(length);
      hide PagesFor, SectorBytes;
      outcome := InstallBytes(TOP, length, p);
      kernelEnd := (TOP + (length + 4095) % 0x1_0000_0000 / PAGE * PAGE) % WORD;
    }

    /** Leaves one page free and maps the stack behind it. */
    method InstallKernelStack(kernelEnd: Address, p: Address) returns (outcome: Outcome, newEnd: Address)
      requires Ready() && kernelEnd % PAGE == 0 && TOP <= kernelEnd <= WORD - 3 * PAGE
      requires FreeFrom(Now().mem, vas, Page(kernelEnd))
      modifies this`mem, this`free, this`owner
      ensures Ready() && newEnd == kernelEnd + 2 * PAGE
      ensures OneSpace(old(Now()), vas) ==> OneSpace(Now(), vas)
      ensures outcome == Done ==> Mapped(old(Now()).mem, Now().mem, vas, Page(kernelEnd) + 1, Page(kernelEnd) + 2, p)
      ensures outcome != Done ==> outcome == OutOfFrames && free == {}
      ensures outcome != Done ==> TableMissingIn(Now().mem, vas, Page(kernelEnd) + 1, Page(kernelEnd) + 2)
      ensures free <= old(free) - FramesAt(p, 1) && free + owner.Keys == (old(free) - FramesAt(p, 1)) + old(owner).Keys
    {
      newEnd := kernelEnd + PAGE;
      outcome := InstallBytes(newEnd, PAGE, p);
      newEnd := newEnd + PAGE;
    }

    /** The kernel, its stack and the initial ramdisk, as the boot loader's main program installs them. */
    method Install(kernelLength: nat, initrdLength: nat, kernelAt: Address, stackAt: Address, initrdAt: Address)
      returns (outcome: Outcome, kernelEnd: Address)
      requires Ready() && FreeFrom(Now().mem, vas, Page(TOP)) && Fits(kernelLength, initrdLength)
      modifies this`mem, this`free, this`owner
      ensures Ready()
      ensures OneSpace(old(Now()), vas) ==> OneSpace(Now(), vas)
      ensures outcome == Done ==> Layout(old(Now()).mem, Now().mem, vas, PagesFor(SectorBytes(kernelLength)),
                                         PagesFor(SectorBytes(initrdLength)), kernelAt, stackAt, initrdAt)
      ensures outcome == Done ==> kernelEnd == TOP + (PagesFor(SectorBytes(kernelLength)) + 2) * PAGE
      ensures outcome != Done ==> outcome == OutOfFrames && free == {}
      ensures outcome != Done ==>
                var last := Page(TOP) + PagesFor(SectorBytes(kernelLength)) + 2 + PagesFor(SectorBytes(initrdLength));
                TableMissingIn(Now().mem, vas, Page(TOP), last)
      ensures free <= old(free)
      ensures old(free) + old(owner).Keys <=
                free + owner.Keys + Images(kernelLength, initrdLength, kernelAt, stackAt, initrdAt)
      ensures outcome == Done ==> free !! Images(kernelLength, initrdLength, kernelAt, stackAt, initrdAt)
    {
      hide TableMissingIn, FramesAt, Layout, Mapped, FreeFrom, Sound, Editable, OneSpace, LoaderRights, Walk, WithSelf,
           Fits, Page, PagesFor, SectorBytes;
      Ends(kernelLength, initrdLength);
      ghost var m0 := Now().mem;
      ghost var f0, o0 := free, owner.Keys;
      ghost var k, i, t := PagesFor(SectorBytes(kernelLength)), PagesFor(SectorBytes(initrdLength)), Page(TOP);
      outcome, kernelEnd := InstallKernel(kernelLength, kernelAt);
      if outcome != Done {
        TableMissingWider(Now().mem, vas, t, t + k, t, t + k + 2 + i);
        return;
      }
      assert f0 + o0 <= free + owner.Keys + FramesAt(kernelAt, k);
      ghost var m1 := Now().mem;
      StillFree(m0, m1, vas, Page(TOP), Page(TOP) + k, kernelAt);
      outcome, kernelEnd := InstallKernelStack(kernelEnd, stackAt);
      if outcome != Done {
        TableMissingWider(Now().mem, vas, t + k + 1, t + k + 2, t, t + k + 2 + i);
        return;
      }
      assert f0 + o0 <= free + owner.Keys + FramesAt(kernelAt, k) + FramesAt(stackAt, 1);
      ghost var m2 := Now().mem;
      StillFree(m1, m2, vas, Page(TOP) + k + 1, Page(TOP) + k + 2, stackAt);
      outcome := InstallBytes(kernelEnd, SectorBytes(initrdLength), initrdAt);
      if outcome != Done {
        TableMissingWider(Now().mem, vas, t + k + 2, t + k + 2 + i, t, t + k + 2 + i);
      } else {
        LaidOut(m0, m1, m2, Now().mem, vas, k, PagesFor(SectorBytes(initrdLength)), kernelAt, stackAt, initrdAt);
      }
    }

    /** Maps video memory and the back buffer, over the first 64 MiB. */
    method MapScreen(videoStart: Address, videoEnd: Address, bufferStart: Address, bufferEnd: Address)
      returns (outcome: Outcome, ghost between: Memory)
      requires Ready() && OneSpace(Now(), vas) && FirstMapped(Now().mem, vas)
      requires videoEnd <= LOWER_END && bufferEnd <= LOWER_END
      modifies this`mem, this`free, this`owner
      ensures Ready() && OneSpace(Now(), vas) && LowerIdentity(Now().mem, vas)
      ensures StartMapped(Now().mem, vas) && FreeFrom(Now().mem, vas, Page(TOP))
      ensures outcome == Done || outcome == OutOfFrames || outcome == AlreadyMapped
      ensures outcome == OutOfFrames ==> free == {}
      ensures outcome == OutOfFrames ==>
                || TableMissingIn(Now().mem, vas, videoStart / PAGE, PageOf(RoundUp(videoEnd)))
                || TableMissingIn(Now().mem, vas, bufferStart / PAGE, PageOf(RoundUp(bufferEnd)))
      ensures outcome == AlreadyMapped ==> ScreenClashes(videoStart, videoEnd, bufferStart, bufferEnd)
      ensures outcome == Done ==> !ScreenClashes(videoStart, videoEnd, bufferStart, bufferEnd)
      ensures outcome == Done ==>
                && SelfAdded(old(Now()).mem, between, vas, videoStart, videoEnd)
                && SelfAdded(between, Now().mem, vas, bufferStart, bufferEnd)
      ensures free <= old(free) && free + owner.Keys == old(free) + old(owner).Keys
    {
      hide Sound, Editable, OneSpace, LoaderRights, WithSelf, Walk, AnyMapped, IdentityRange, SelfAdded, TableMissingIn;
      ghost var first := Now().mem;
      between := first;
      MappedOnScreen(first, first, vas, videoStart, videoEnd, bufferStart, bufferEnd);
      assert StartMapped(between, vas) && LowerIdentity(between, vas);
      hide StartMapped, LowerIdentity, MappedKept, FreeFrom;
      TopIsFree(between, vas);
      outcome := MapIdentity(videoStart, videoEnd);
      StartStaysMapped(between, Now().mem, vas);
      between := Now().mem;
      TopIsFree(between, vas);
      if outcome != Done { return; }
      MappedOnScreen(first, between, vas, videoStart, videoEnd, bufferStart, bufferEnd);
      outcome := MapIdentity(bufferStart, bufferEnd);
      StartStaysMapped(between, Now().mem, vas);
      TopIsFree(Now().mem, vas);
    }

    /** The boot loader's main program, as far as it concerns mappings. `before` is the memory just before the kernel
        is installed. */
    method Boot(videoStart: Address, videoEnd: Address, bufferStart: Address, bufferEnd: Address, kernelLength: nat,
                initrdLength: nat, kernelAt: Address, stackAt: Address, initrdAt: Address)
      returns (outcome: Outcome, kernelEnd: Address, ghost before: Memory)
      requires free <= mem.Keys && Fits(kernelLength, initrdLength)
      requires videoEnd <= LOWER_END && bufferEnd <= LOWER_END
      modifies this
      ensures outcome == Done || outcome == OutOfFrames || outcome == AlreadyMapped
      ensures outcome == AlreadyMapped ==> ScreenClashes(videoStart, videoEnd, bufferStart, bufferEnd)
      ensures outcome == Done ==> !ScreenClashes(videoStart, videoEnd, bufferStart, bufferEnd)
      ensures outcome == Done ==>
                Ready() && OneSpace(Now(), vas) && LowerIdentity(before, vas) && StartMapped(before, vas)
      ensures outcome == Done ==> Layout(before, Now().mem, vas, PagesFor(SectorBytes(kernelLength)),
                                         PagesFor(SectorBytes(initrdLength)), kernelAt, stackAt, initrdAt)
      ensures outcome == Done ==> LowerHalfIs(Now().mem, vas, videoStart, videoEnd, bufferStart, bufferEnd)
      ensures outcome == Done ==> Leaf(Now().mem, vas, LAST).None?
      ensures outcome == Done ==>
                var pages := (kernelLength * 512 % 0x1_0000_0000 + 0xFFF) / 0x1000;
                kernelEnd == 0xFFFF_FFFF_8000_0000 + (pages + 2) * 0x1000
      ensures outcome == Done ==> free !! Images(kernelLength, initrdLength, kernelAt, stackAt, initrdAt)
      ensures outcome == OutOfFrames ==>
                || |old(free)| < 35
                || (OneSpaceHere() && free == {} &&
                     TableMissingOnTheWay(Now().mem, vas, videoStart, videoEnd, bufferStart, bufferEnd, kernelLength,
                                          initrdLength) &&
                     old(free) <= owner.Keys + Images(kernelLength, initrdLength, kernelAt, stackAt, initrdAt))
    {
      hide Sound, Editable, OneSpace, LoaderRights, Layout, Fits, WithSelf, Walk, StartMapped, LowerIdentity,
           MappedKept, FreeFrom, SelfAdded, LowerHalfIs, FramesAt, FirstMapped, TableMissingIn, Images;
      kernelEnd, before := 0, mem;
      outcome := PrepareLongMode();
      if outcome != Done { return; }
      ghost var m0, m1 := Now().mem, before;
      outcome, m1 := MapScreen(videoStart, videoEnd, bufferStart, bufferEnd);
      if outcome != Done { return; }
      before := Now().mem;
      outcome, kernelEnd := Install(kernelLength, initrdLength, kernelAt, stackAt, initrdAt);
      if outcome == Done {
        LastPageFree(before, Now().mem, vas, kernelLength, initrdLength, kernelAt, stackAt, initrdAt);
        LowerHalfBuilt(m0, m1, before, Now().mem, vas, videoStart, videoEnd, bufferStart, bufferEnd,
                       PagesFor(SectorBytes(kernelLength)), PagesFor(SectorBytes(initrdLength)), kernelAt, stackAt,
                       initrdAt);
      }
    }
  }

  /** The kernel's first act on its page tables: the self entry. From then on every operation of the kernel finds
      what it relies on, and nothing translates differently. */
  method Initialize(loader: Loader, kernel: Machine)
    requires loader.Ready() && OneSpace(loader.Now(), loader.vas)
    requires kernel.mem == loader.mem && kernel.cr3 == loader.vas && kernel.free == loader.free
    requires kernel.owner == loader.owner
    modifies kernel`mem
    ensures Sound(kernel.Now()) && Editable(kernel.Now(), kernel.cr3, SELF, kernel.cr3)
    ensures OneSpace(kernel.Now(), kernel.cr3)
    ensures SameLeaves(loader.mem, kernel.mem, kernel.cr3)
    ensures old(Leaf(loader.Now().mem, loader.vas, LAST).None?) ==> FirstState(kernel.Now())
    ensures forall n {:trigger MayWrite(kernel.mem, kernel.cr3, n)} {:trigger UserMay(kernel.mem, kernel.cr3, n)} ::
              ProperPage(n) && Leaf(kernel.mem, kernel.cr3, n).Some? ==>
                MayWrite(kernel.mem, kernel.cr3, n) && !UserMay(kernel.mem, kernel.cr3, n)
  {
    var r := kernel.cr3;
    kernel.mem := Put(kernel.mem, r, SELF, kernel.mem[r][SELF].(present := true, address := r));
    assert kernel.Now() == loader.Now();
    if Leaf(kernel.mem, r, LAST).None? { AloneIsFirst(kernel.Now(), r); }
    forall n | ProperPage(n) ensures Leaf(kernel.mem, r, n) == Leaf(loader.mem, r, n) {
      ProperPageIsProper(n);
      SelfInvisible(loader.mem, loader.owner, r, PathOf(n));
    }
    forall n | ProperPage(n) && Leaf(kernel.mem, r, n).Some?
      ensures MayWrite(kernel.mem, r, n) && !UserMay(kernel.mem, r, n)
    {
      KernelMayWrite(kernel.mem, kernel.owner, r, n);
    }
  }

  /** The loader's `map` and the kernel's `map`, asked for the same range in spaces that translate alike, leave
      spaces that translate alike. */
  lemma SameTranslations(s0: Snapshot, s1: Snapshot, r: Frame, t0: Snapshot, t1: Snapshot, q: Frame, first: int,
                         end: int, p: Address)
    requires Mapping(s0, s1, r, first, end, end, p) && Mapping(t0, t1, q, first, end, end, p)
    requires forall n {:trigger Leaf(s0.mem, r, n)} :: ProperPage(n) ==> Leaf(s0.mem, r, n) == Leaf(t0.mem, q, n)
    ensures forall n {:trigger Leaf(s1.mem, r, n)} :: ProperPage(n) ==> Leaf(s1.mem, r, n) == Leaf(t1.mem, q, n)
  {
    forall n | ProperPage(n) ensures Leaf(s1.mem, r, n) == Leaf(t1.mem, q, n) {
      assert Leaf(s0.mem, r, n) == Leaf(t0.mem, q, n);
      assert Leaf(t1.mem, q, n) == if first <= n < end then Some(FrameOf(Advance(p, n - first)))
             else Leaf(t0.mem, q, n);
    }
  }
}
