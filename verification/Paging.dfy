/** The paging operations of the kernel, reaching every table through the addresses at which the current
    page tables show it. */
module Paging {
  import opened Basics
  import opened PageTables
  import opened Addresses
  import opened AddressSpaces
  import opened Ranges
  import opened Rights
  import opened Spaces
  import opened Dropping
  import opened Conservation

  /** How an operation ends; everything but `Done` halts the machine. */
  datatype Outcome = Done | AlreadyMapped | NotMapped | OutOfFrames | OutOfTables | PagingArea

  /** The four loop counters. A counter may stand at 512 until the loop around it carries. */
  datatype Cursor = Cursor(pml4e: nat, pdpte: nat, pde: nat, pte: nat) {
    function Page(): nat {
      Linear(pml4e, pdpte, pde, pte)
    }

    predicate InTables() {
      pml4e < 512 && pdpte < 512 && pde < 512 && pte < 512
    }

    /** The path of the page table that the counters stand in. */
    function TablePath(): Path
      requires InTables()
    {
      [pml4e, pdpte, pde]
    }

    lemma PathOfPage()
      requires InTables()
      ensures Page() < PAGES && PathOf(Page()) == TablePath() + [pte]
    {
      PathOfLinear(pml4e, pdpte, pde, pte);
    }
  }

  /** The end test of the loops, four comparisons of counters, is met at one page and at no other. */
  lemma EndTestIff(x: Cursor, y: Cursor)
    requires x.InTables() && y.InTables()
    ensures x == y <==> x.Page() == y.Page()
  {
    if x.Page() == y.Page() {
      LinearInjective(x.pml4e, x.pdpte, x.pde, x.pte, y.pml4e, y.pdpte, y.pde, y.pte);
    }
  }

  function CursorAt(v: Address): Cursor {
    Cursor(Pml4Index(v), PdptIndex(v), PdIndex(v), PtIndex(v))
  }

  /** Frames ran out for a table on the way to page `n`: all that were free are tables now, but for one. */
  ghost predicate TableMissing(s0: Snapshot, s1: Snapshot, root: Frame, n: int) {
    && s1.free == {} && (exists f :: TakenForTables(s0, s1, f))
    && 0 <= n < PAGES && Walk(s1.mem, root, PathOf(n)[..3]).None?
  }

  lemma ZeroingKeepsRights(s2: Snapshot, s3: Snapshot, root: Frame, f: Frame)
    requires Editable(s2, root, SELF, root) && f !in s2.owner && f in s2.mem
    requires s3 == s2.(mem := s2.mem[f := EMPTY_TABLE])
    ensures RightsSame(s2.mem, s3.mem, root)
  {
    forall q: Path | Proper(q) && |q| <= 3 ensures Walk(s3.mem, root, q) == Walk(s2.mem, root, q) {
      DataWriteInvisible(s2.mem, s3.mem, s2.owner, root, q);
    }
    SameEntriesSameRights(s2.mem, s3.mem, s2.owner, root);
  }

  /** What was taken and granted for the temporary mapping, once the frame is zeroed and unmapped. */
  lemma PreparedGrants(s0: Snapshot, s2: Snapshot, s3: Snapshot, s4: Snapshot, root: Frame, n: int, f: Frame,
                       pushed: seq<Frame>, a: Attributes)
    requires TakenForTables(s0, s2, f) && Granting(s0.mem, s2.mem, root, n, n + 1, n + 1, a)
    requires Editable(s2, root, SELF, root) && f !in s2.owner && f in s2.mem
    requires s3 == s2.(mem := s2.mem[f := EMPTY_TABLE])
    requires Removed(s3, s4, root, n, n + 1, false, pushed, pushed) && RightsSame(s3.mem, s4.mem, root)
    ensures TakenForTables(s0, s4, f) && Granting(s0.mem, s4.mem, root, n, n + 1, n + 1, a)
  {
    ZeroingKeepsRights(s2, s3, root, f);
    hide Granting, RightsSame;
    GrantingStays(s0.mem, s2.mem, s3.mem, root, n, n + 1, a);
    GrantingStays(s0.mem, s3.mem, s4.mem, root, n, n + 1, a);
  }

  lemma CopyingKeepsRights(s1: Snapshot, s: Snapshot, current: Frame, f: Frame)
    requires Tree(s1.mem, s1.owner) && IsRoot(s1.owner, current) && Copying(s1, s, current, f, 512)
    ensures RightsSame(s1.mem, s.mem, current)
  {
    forall q: Path | Proper(q) && |q| <= 3 ensures Walk(s.mem, current, q) == Walk(s1.mem, current, q) {
      ProperWalkUnchanged(s1.mem, s.mem, s1.owner, current, q);
    }
    forall g, i: Index | g in s1.owner && g in s1.mem && (IsRoot(s1.owner, g) ==> !IsWindow(i))
      ensures s.mem[g][i] == s1.mem[g][i]
    {
      assert WellPlaced(s1.owner, g);
    }
    SameEntriesSameRights(s1.mem, s.mem, s1.owner, current);
  }

  lemma CopyingGrants(s0: Snapshot, s1: Snapshot, s: Snapshot, current: Frame, n: int, f: Frame, a: Attributes)
    requires Tree(s1.mem, s1.owner) && IsRoot(s1.owner, current) && Copying(s1, s, current, f, 512)
    requires Granting(s0.mem, s1.mem, current, n, n + 1, n + 1, a)
    ensures Granting(s0.mem, s.mem, current, n, n + 1, n + 1, a)
  {
    CopyingKeepsRights(s1, s, current, f);
    GrantingStays(s0.mem, s1.mem, s.mem, current, n, n + 1, a);
  }

  /** Every frame that cloning took is a table now: the root, or one for the temporary mapping. */
  lemma CopyingOwners(s0: Snapshot, s1: Snapshot, s: Snapshot, current: Frame, f: Frame)
    requires Copying(s1, s, current, f, 512) && TakenForTables(s0, s1, f) && f !in s0.owner
    ensures s.free <= s0.free && s.owner.Keys - s0.owner.Keys == s0.free - s.free
  {
    assert s.owner == s1.owner[f := Place([], f)] && s.free == s1.free;
    assert s.owner.Keys - s0.owner.Keys == (s1.owner.Keys - s0.owner.Keys) + {f};
    assert s0.free - s.free == (s0.free - s1.free - {f}) + {f};
  }

  /** Where the entry that is to be cleared is, and what it holds. */
  lemma EntryToRemove(s: Snapshot, root: Frame, q: Path, f: Frame, c: Frame)
    requires 1 <= |q| <= 3 && TakingOut(s, root, q, f, c)
    ensures Leaf(s.mem, root, PageOf(TableAddress(SELF, q[..|q| - 1]))) == Some(f)
    ensures f in s.mem && s.mem[f][q[|q| - 1]].address == c
  {
    assert Droppable(s, root) && Walk(s.mem, root, q) == Some(c) && Walk(s.mem, root, q[..|q| - 1]) == Some(f);
    hide *;
    DroppableEditable(s, root);
    Visible(s, root, SELF, root, q[..|q| - 1]);
    assert q == q[..|q| - 1] + [q[|q| - 1]];
    WalkSnoc(s.mem, root, q[..|q| - 1], q[|q| - 1]);
    EntryFollowed(s.mem, f, q[|q| - 1], c);
  }

  lemma EntryFollowed(m: Memory, f: Frame, i: Index, c: Frame)
    requires Follow(m, f, i) == Some(c)
    ensures f in m && m[f][i].address == c
  {
  }

  /** User code may use the pages exactly if the attributes say so, and they may be written exactly if the attributes
      ask for write and user access. */
  ghost predicate UsableAs(m: Memory, root: Frame, pages: set<int>, a: Attributes) {
    forall n {:trigger n in pages} :: n in pages ==>
      && ProperPage(n) && (UserMay(m, root, n) <==> a.user) && (MayWrite(m, root, n) <==> a.user && a.readWrite)
  }

  /** The pages from `start` up to `n` are mapped to popped frames. */
  ghost predicate FreshUpTo(m0: Memory, s: Snapshot, current: Frame, id: Window, root: Frame, start: int, n: int,
                            managed: set<int>, all: set<Frame>, a: Attributes) {
    Whole(
      && start <= n && ProperRange(start, n) && Pages(start, n) !! managed
      && Conserved(s, root, managed + Pages(start, n), all) && Editable(s, current, id, root)
      && LeavesAdded(m0, s.mem, root, Pages(start, n)) && Granting(m0, s.mem, root, start, n, n, a))
  }

  lemma FreshStarts(s: Snapshot, current: Frame, id: Window, root: Frame, start: int, managed: set<int>,
                    all: set<Frame>, a: Attributes)
    requires Conserved(s, root, managed, all) && Editable(s, current, id, root)
    ensures FreshUpTo(s.mem, s, current, id, root, start, start, managed, all, a)
  {
    hide Conserved, Editable, LeavesAdded, Granting;
    assert managed + Pages(start, start) == managed;
    NothingAdded(s.mem, root);
    GrantingStarts(s.mem, root, start, start, a);
  }

  lemma FreshNext(m0: Memory, s: Snapshot, s': Snapshot, current: Frame, id: Window, root: Frame, start: int, n: int,
                  managed: set<int>, all: set<Frame>, a: Attributes)
    requires FreshUpTo(m0, s, current, id, root, start, n, managed, all, a)
    requires Conserved(s', root, managed + Pages(start, n) + {n}, all) && Editable(s', current, id, root)
    requires LeafAdded(s.mem, s'.mem, root, n) && n !in managed + Pages(start, n) && ProperPage(n)
    requires Granting(s.mem, s'.mem, root, n, n + 1, n + 1, a)
    ensures FreshUpTo(m0, s', current, id, root, start, n + 1, managed, all, a)
  {
    hide Conserved, Editable, LeavesAdded, Granting;
    assert Pages(start, n + 1) == Pages(start, n) + {n};
    assert managed + Pages(start, n) + {n} == managed + Pages(start, n + 1);
    AddLeaf(m0, s.mem, s'.mem, root, Pages(start, n), n);
    GrantingTrans(m0, s.mem, s'.mem, root, start, n, n + 1, a);
  }

  lemma FreshMeans(m0: Memory, s: Snapshot, current: Frame, id: Window, root: Frame, start: int, n: int,
                   managed: set<int>, all: set<Frame>, a: Attributes)
    requires FreshUpTo(m0, s, current, id, root, start, n, managed, all, a)
    ensures Conserved(s, root, managed + Pages(start, n), all) && Editable(s, current, id, root)
    ensures LeavesAdded(m0, s.mem, root, Pages(start, n)) && Pages(start, n) !! managed
    ensures Granting(m0, s.mem, root, start, n, n, a)
    ensures UsableAs(s.mem, root, Pages(start, n), a)
  {
    hide Conserved, Editable, LeavesAdded, Granting, UserMay, MayWrite;
    forall k | k in Pages(start, n)
      ensures ProperPage(k) && (UserMay(s.mem, root, k) <==> a.user)
      ensures MayWrite(s.mem, root, k) <==> a.user && a.readWrite
    {
      MapGrants(m0, s.mem, root, start, n, a, k);
    }
  }

  class Machine {
    /** The contents of all frames, as tables. */
    var mem: Memory
    /** The PML4 that the MMU walks. */
    var cr3: Frame
    var free: set<Frame>
    /** Every frame ever given back, in order. */
    var pushed: seq<Frame>
    ghost var owner: Owner

    ghost function Now(): Snapshot
      reads this
    {
      Snapshot(mem, owner, free)
    }

    /** What the MMU makes of an address; it faults on one that is not canonical. */
    function Translate(v: Address): Option<Frame>
      reads this
    {
      if Canonical(v) then Leaf(mem, cr3, PageOf(v)) else None
    }

    method Load(table: Address, i: Index) returns (e: Entry)
      requires Translate(table).Some? && Translate(table).value in mem
      ensures e == mem[Translate(table).value][i]
    {
      var f := Translate(table).value;
      e := mem[f][i];
    }

    method Store(table: Address, i: Index, e: Entry)
      requires Translate(table).Some? && Translate(table).value in mem
      modifies this`mem
      ensures mem == Put(old(mem), old(Translate(table).value), i, e)
    {
      var f := Translate(table).value;
      mem := Put(mem, f, i, e);
    }

    /** The frame source, as an oracle. */
    method Pop() returns (r: Option<Frame>)
      modifies this`free
      ensures r.None? ==> old(free) == {} && free == old(free)
      ensures r.Some? ==> r.value in old(free) && free == old(free) - {r.value}
    {
      if free == {} {
        return None;
      }
      var f :| f in free;
      free := free - {f};
      return Some(f);
    }

    method Push(f: Frame)
      modifies this`free, this`pushed
      ensures free == old(free) + {f} && pushed == old(pushed) + [f]
    {
      free := free + {f};
      pushed := pushed + [f];
    }

    /** Constructs an empty table at an address, entry by entry. */
    method ConstructTable(table: Address, ghost f: Frame)
      requires f in mem && Translate(table) == Some(f) && Avoids(mem, cr3, PathOf(PageOf(table)), f)
      modifies this`mem
      ensures mem == old(mem)[f := EMPTY_TABLE]
    {
      var i := 0;
      while i < 512
        invariant 0 <= i <= 512
        invariant mem.Keys == old(mem).Keys
        invariant forall g :: g in mem && g != f ==> mem[g] == old(mem)[g]
        invariant forall j :: 0 <= j < i ==> mem[f][j] == EMPTY
      {
        AvoidedWriteInvisible(old(mem), mem, cr3, PathOf(PageOf(table)), f);
        Store(table, i, EMPTY);
        i := i + 1;
      }
      assert mem[f] == EMPTY_TABLE;
    }

    /** Pops a frame for the missing table at `q`, links it below its parent and constructs it empty. */
    method CreateTable(id: Window, ghost root: Frame, q: Path, ghost f: Frame) returns (ok: bool)
      requires Sound(Now()) && Editable(Now(), cr3, id, root) && 1 <= |q| <= 3 && Proper(q)
      requires Walk(mem, root, q[..|q| - 1]) == Some(f) && Walk(mem, root, q).None?
      modifies this`mem, this`free, this`owner
      ensures ok ==> Editable(Now(), cr3, id, root) && TableEnsured(old(Now()), Now(), root, q)
      ensures ok ==> RightsKeptBut(old(mem), mem, root, q)
      ensures !ok ==> Now() == old(Now()) && free == {}
    {
      hide Walk, Tree, TableEnsured, RightsKeptBut, PathOf, Editable;
      ghost var s0 := Now();
      var parent, i := TableAddress(id, q[..|q| - 1]), q[|q| - 1];
      Visible(s0, cr3, id, root, q[..|q| - 1]);
      var frame := Pop();
      if frame.None? {
        return false;
      }
      var c := frame.value;
      var e := Load(parent, i);
      e := e.(present := true, address := c);
      Store(parent, i, e);
      CreateIsLink(s0, cr3, id, root, q, f, e, c);
      CreateEnsures(s0, cr3, id, root, q, f, e, c);
      NewTableVisible(Linked(s0, f, i, e, c), cr3, id, root, q, c, mem);
      ConstructTable(TableAddress(id, q), c);
      owner := owner[c := ChildPlace(owner[f], i, c)];
      assert Now() == Linked(s0, f, i, e, c);
      CreateGrants(s0, Now(), root, q, f, e);
      ok := true;
    }

    /** Sets the permission bits of the entry that leads to the table at `q`. */
    method SetPermissions(id: Window, ghost root: Frame, q: Path, user: bool, readWrite: bool)
      requires Sound(Now()) && Editable(Now(), cr3, id, root) && 1 <= |q| <= 3 && Proper(q)
      requires Walk(mem, root, q).Some?
      modifies this`mem
      ensures Editable(Now(), cr3, id, root) && TableEnsured(old(Now()), Now(), root, q)
      ensures RightsKeptBut(old(mem), mem, root, q) && RightsOn(mem, root, q) == Some(Attributes(user, readWrite))
    {
      var parent, i := TableAddress(id, q[..|q| - 1]), q[|q| - 1];
      ghost var s0 := Now();
      assert q == q[..|q| - 1] + [i];
      Visible(Now(), cr3, id, root, q[..|q| - 1]);
      var e := Load(parent, i);
      e := e.(user := user, readWrite := readWrite);
      Store(parent, i, e);
      RewriteStep(s0, root, q[..|q| - 1], Walk(s0.mem, root, q[..|q| - 1]).value, i, e);
      InstalledStays(s0, Now(), cr3, id, root);
      assert TableKept(s0, Now(), root, q);
      WriteGrants(s0, Now(), root, q[..|q| - 1], Walk(s0.mem, root, q[..|q| - 1]).value, i, e);
    }

    /** One of the three "create the table if it is missing, then set the permissions" blocks of `map`:
        the table at `q`, whose parent exists. */
    method EnsureTable(id: Window, ghost root: Frame, q: Path, user: bool, readWrite: bool) returns (ok: bool)
      requires Sound(Now()) && Editable(Now(), cr3, id, root) && 1 <= |q| <= 3 && Proper(q)
      requires Walk(mem, root, q[..|q| - 1]).Some?
      modifies this`mem, this`free, this`owner
      ensures ok ==> Editable(Now(), cr3, id, root) && TableEnsured(old(Now()), Now(), root, q)
      ensures ok ==>
                RightsKeptBut(old(mem), mem, root, q) && RightsOn(mem, root, q) == Some(Attributes(user, readWrite))
      ensures ok ==> Walk(mem, root, q).Some?
      ensures !ok ==> Now() == old(Now()) && free == {} && Walk(mem, root, q).None?
    {
      ghost var s0 := Now();
      Visible(Now(), cr3, id, root, q[..|q| - 1]);
      var e := Load(TableAddress(id, q[..|q| - 1]), q[|q| - 1]);
      if !e.present {
        ok := CreateTable(id, root, q, Walk(mem, root, q[..|q| - 1]).value);
        if !ok {
          return;
        }
      } else {
        EvolvesRefl(s0, root);
      }
      ghost var s1 := Now();
      SetPermissions(id, root, q, user, readWrite);
      TableEnsuredTrans(s0, s1, Now(), root, q);
      RightsKeptTrans(s0.mem, s1.mem, mem, root, q);
      ok := true;
    }

    /** Maps one page, unless that panics. */
    method MapPage(id: Window, ghost r: Request, at: Cursor, ghost v: nat, p: Address, attributes: Attributes)
      returns (outcome: Outcome)
      requires at.InTables() && MapStands(Now(), cr3, id, r, at.Page(), v, p) && at.Page() < r.end
      requires Walk(mem, r.root, at.TablePath()).Some?
      modifies this`mem
      ensures outcome == Done ==> MapStands(Now(), cr3, id, r, at.Page() + 1, v + PAGE, (p + PAGE) % WORD)
      ensures outcome == Done ==> Walk(mem, r.root, at.TablePath()).Some?
      ensures outcome == Done ==>
                RightsKeptBut(old(mem), mem, r.root, at.TablePath() + [at.pte]) &&
                  RightsOn(mem, r.root, at.TablePath() + [at.pte]) == Some(attributes)
      ensures outcome != Done ==>
                outcome == AlreadyMapped && Now() == old(Now()) && Clash(r.s0.mem, r.root, at.Page(), p)
    {
      hide MapStands, Editable, Sound, PageWritten, RightsKeptBut, RightsOn, PathOf;
      ghost var s, q, n := Now(), at.TablePath(), at.Page();
      MapStandsInside(s, cr3, id, r, n, v, p);
      PageUntouched(s, cr3, id, r, n, v, p);
      at.PathOfPage();
      WalkSnoc(mem, r.root, q, at.pte);
      Visible(s, cr3, id, r.root, q);
      var pt := PtAddress(id, at.pml4e, at.pdpte, at.pde);
      var e := Load(pt, at.pte);
      if e.present && p != e.address * PAGE {
        return AlreadyMapped;
      }
      e := e.(present := true, address := FrameOf(p), user := attributes.user, readWrite := attributes.readWrite);
      Store(pt, at.pte, e);
      ghost var s1 := s.(mem := Put(s.mem, Walk(s.mem, r.root, q).value, at.pte, e));
      WritePage(s, cr3, id, r.root, n, q, at.pte, e);
      MapStandsAtNext(s, s1, cr3, id, r, n, v, p);
      PageGrants(s, s1, cr3, id, r.root, n, q, at.pte, e);
      assert Now() == s1;
      outcome := Done;
    }

    /** The loops of `map` stand at the counters `at`. */
    ghost predicate MapAt(id: Window, r: Request, at: Cursor, end: Cursor, v: nat, p: Address, attributes: Attributes)
      reads this
    {
      && MapStands(Now(), cr3, id, r, at.Page(), v, p)
      && Granting(r.s0.mem, mem, r.root, r.start, at.Page(), r.end, attributes)
      && end.InTables() && end.Page() == r.end
    }

    /** Why the loops of `map` stopped at the page of `at`. */
    ghost predicate MapPanicked(r: Request, at: Cursor, outcome: Outcome)
      reads this
    {
      && r.start <= at.Page() < r.end <= PAGES
      && (outcome == AlreadyMapped || outcome == OutOfFrames)
      && (outcome == AlreadyMapped ==> ClashAt(r.s0.mem, r.root, r.start, at.Page(), r.p))
      && (outcome == OutOfFrames ==> free == {} && Walk(mem, r.root, PathOf(at.Page())[..3]).None?)
    }

    /** The innermost loop: the pages of one page table. */
    method MapPages(id: Window, ghost r: Request, start: Cursor, end: Cursor, v0: nat, p0: Address,
                    attributes: Attributes)
      returns (at: Cursor, v: nat, p: Address, outcome: Outcome)
      requires MapAt(id, r, start, end, v0, p0, attributes) && start.InTables()
      requires Walk(mem, r.root, start.TablePath()).Some? && GrantedAlong(mem, r.root, start.TablePath(), attributes)
      modifies this`mem
      ensures MapAt(id, r, at, end, v, p, attributes) && Walk(mem, r.root, start.TablePath()).Some?
      ensures GrantedAlong(mem, r.root, start.TablePath(), attributes)
      ensures at == start.(pte := at.pte) && at.pte <= 512
      ensures outcome == Done ==> at == end || at.pte == 512
      ensures outcome != Done ==> MapPanicked(r, at, outcome)
    {
      hide MapStands, Editable, Sound, Granting, GrantedAlong, RightsKeptBut, RightsOn, TableEnsured, Walk, PathOf;
      at, v, p := start, v0, p0;
      while at != end && at.pte < 512
        invariant MapAt(id, r, at, end, v, p, attributes) && Walk(mem, r.root, start.TablePath()).Some?
        invariant GrantedAlong(mem, r.root, start.TablePath(), attributes)
        invariant at == start.(pte := at.pte) && at.pte <= 512
        decreases 512 - at.pte
      {
        EndTestIff(at, end);
        MapStandsInside(Now(), cr3, id, r, at.Page(), v, p);
        ghost var m := mem;
        outcome := MapPage(id, r, at, v, p, attributes);
        if outcome != Done {
          return;
        }
        at.PathOfPage();
        GrantNext(m, mem, r, at.Page(), at.TablePath(), at.pte, attributes);
        assert at.(pte := at.pte + 1).Page() == at.Page() + 1;
        at, v, p := at.(pte := at.pte + 1), v + PAGE, (p + PAGE) % WORD;
      }
      outcome := Done;
    }

    /** The loop over the page tables of one page directory. */
    method MapPageTables(id: Window, ghost r: Request, start: Cursor, end: Cursor, v0: nat, p0: Address,
                         attributes: Attributes)
      returns (at: Cursor, v: nat, p: Address, outcome: Outcome)
      requires MapAt(id, r, start, end, v0, p0, attributes) && start.InTables()
      requires Walk(mem, r.root, start.TablePath()[..2]).Some?
      requires GrantedAlong(mem, r.root, start.TablePath()[..2], attributes)
      modifies this`mem, this`free, this`owner
      ensures MapAt(id, r, at, end, v, p, attributes) && Walk(mem, r.root, start.TablePath()[..2]).Some?
      ensures GrantedAlong(mem, r.root, start.TablePath()[..2], attributes)
      ensures at == start.(pde := at.pde, pte := at.pte) && at.pde <= 512 && at.pte <= 512
      ensures outcome == Done ==> at == end || (at.pde == 512 && at.pte == 0)
      ensures outcome != Done ==> MapPanicked(r, at, outcome)
    {
      hide MapStands, Editable, Sound, Granting, GrantedAlong, RightsKeptBut, RightsOn, TableEnsured, Walk, PathOf;
      at, v, p := start, v0, p0;
      while at != end && at.pde < 512
        invariant MapAt(id, r, at, end, v, p, attributes) && Walk(mem, r.root, start.TablePath()[..2]).Some?
        invariant GrantedAlong(mem, r.root, start.TablePath()[..2], attributes)
        invariant at == start.(pde := at.pde, pte := at.pte) && at.pde <= 512 && at.pte < 512
        invariant at.pde == 512 ==> at.pte == 0
        decreases 512 - at.pde
      {
        EndTestIff(at, end);
        MapStandsInside(Now(), cr3, id, r, at.Page(), v, p);
        ghost var s := Now();
        at.PathOfPage();
        assert at.TablePath()[..2] == start.TablePath()[..2];
        var ok := EnsureTable(id, r.root, at.TablePath(), attributes.user, attributes.user);
        if !ok {
          assert PathOf(at.Page())[..3] == at.TablePath();
          return at, v, p, OutOfFrames;
        }
        ghost var q := at.TablePath();
        MapStandsWithTable(s, Now(), cr3, id, r, at.Page(), v, p, q);
        GrantLevel(s.mem, mem, r, at.Page(), q, attributes);
        at, v, p, outcome := MapPages(id, r, at, end, v, p, attributes);
        AboveWalk(mem, r.root, q[..2], q);
        GrantedShorter(mem, r.root, q, attributes);
        if outcome != Done || at == end {
          return;
        }
        assert at.(pde := at.pde + 1, pte := 0).Page() == at.Page();
        at := at.(pde := at.pde + 1, pte := 0);
      }
      outcome := Done;
    }

    /** The loop over the page directories of one PDPT. */
    method MapDirectories(id: Window, ghost r: Request, start: Cursor, end: Cursor, v0: nat, p0: Address,
                          attributes: Attributes)
      returns (at: Cursor, v: nat, p: Address, outcome: Outcome)
      requires MapAt(id, r, start, end, v0, p0, attributes) && start.InTables()
      requires Walk(mem, r.root, start.TablePath()[..1]).Some?
      requires GrantedAlong(mem, r.root, start.TablePath()[..1], attributes)
      modifies this`mem, this`free, this`owner
      ensures MapAt(id, r, at, end, v, p, attributes) && Walk(mem, r.root, start.TablePath()[..1]).Some?
      ensures at == start.(pdpte := at.pdpte, pde := at.pde, pte := at.pte) && at.pdpte <= 512
      ensures outcome == Done ==> at == end || (at.pdpte == 512 && at.pde == 0 && at.pte == 0)
      ensures outcome != Done ==> MapPanicked(r, at, outcome)
    {
      hide MapStands, Editable, Sound, Granting, GrantedAlong, RightsKeptBut, RightsOn, TableEnsured, Walk, PathOf;
      at, v, p := start, v0, p0;
      while at != end && at.pdpte < 512
        invariant MapAt(id, r, at, end, v, p, attributes) && Walk(mem, r.root, start.TablePath()[..1]).Some?
        invariant GrantedAlong(mem, r.root, start.TablePath()[..1], attributes)
        invariant at == start.(pdpte := at.pdpte, pde := at.pde, pte := at.pte) && at.pdpte <= 512 && at.pde < 512
        invariant at.pte < 512
        invariant at.pdpte == 512 ==> at.pde == 0 && at.pte == 0
        decreases 512 - at.pdpte
      {
        EndTestIff(at, end);
        MapStandsInside(Now(), cr3, id, r, at.Page(), v, p);
        ghost var s := Now();
        at.PathOfPage();
        ghost var q := at.TablePath();
        assert q[..1] == start.TablePath()[..1];
        var pd: Path := [at.pml4e, at.pdpte];
        assert pd == q[..2] && pd[..1] == q[..1] && pd <= PathOf(at.Page());
        var ok := EnsureTable(id, r.root, pd, attributes.user, attributes.readWrite);
        if !ok {
          WalkBelowNone(mem, r.root, pd, PathOf(at.Page())[..3]);
          return at, v, p, OutOfFrames;
        }
        MapStandsWithTable(s, Now(), cr3, id, r, at.Page(), v, p, pd);
        GrantLevel(s.mem, mem, r, at.Page(), pd, attributes);
        at, v, p, outcome := MapPageTables(id, r, at, end, v, p, attributes);
        AboveWalk(mem, r.root, q[..1], q[..2]);
        GrantedShorter(mem, r.root, pd, attributes);
        if outcome != Done || at == end {
          return;
        }
        assert at.(pdpte := at.pdpte + 1, pde := 0).Page() == at.Page();
        at := at.(pdpte := at.pdpte + 1, pde := 0);
      }
      outcome := Done;
    }

    /** The outermost loop, over the PDPTs. It never runs past the last slot: the range ends before. */
    method MapSpace(id: Window, ghost r: Request, start: Cursor, end: Cursor, v0: nat, p0: Address,
                    attributes: Attributes)
      returns (at: Cursor, v: nat, p: Address, outcome: Outcome)
      requires MapAt(id, r, start, end, v0, p0, attributes) && start.InTables()
      modifies this`mem, this`free, this`owner
      ensures MapAt(id, r, at, end, v, p, attributes)
      ensures outcome == Done ==> at == end
      ensures outcome != Done ==> MapPanicked(r, at, outcome)
    {
      hide MapStands, Editable, Sound, Granting, GrantedAlong, RightsKeptBut, RightsOn, TableEnsured, Walk, PathOf;
      at, v, p := start, v0, p0;
      while at != end
        invariant MapAt(id, r, at, end, v, p, attributes)
        invariant at.pdpte < 512 && at.pde < 512 && at.pte < 512
        decreases 512 - at.pml4e
      {
        MapStandsInside(Now(), cr3, id, r, at.Page(), v, p);
        assert at.pml4e < 512;
        EndTestIff(at, end);
        ghost var s := Now();
        at.PathOfPage();
        var pdpt: Path := [at.pml4e];
        assert pdpt == at.TablePath()[..1] && pdpt[..0] == [] && pdpt <= PathOf(at.Page());
        WalkNothing(mem, r.root);
        var ok := EnsureTable(id, r.root, pdpt, attributes.user, attributes.readWrite);
        if !ok {
          WalkBelowNone(mem, r.root, pdpt, PathOf(at.Page())[..3]);
          return at, v, p, OutOfFrames;
        }
        MapStandsWithTable(s, Now(), cr3, id, r, at.Page(), v, p, pdpt);
        GrantLevel(s.mem, mem, r, at.Page(), pdpt, attributes);
        at, v, p, outcome := MapDirectories(id, r, at, end, v, p, attributes);
        if outcome != Done || at == end {
          return;
        }
        assert at.(pml4e := at.pml4e + 1, pdpte := 0).Page() == at.Page();
        at := at.(pml4e := at.pml4e + 1, pdpte := 0);
      }
      outcome := Done;
    }

    /** Maps the pages of [`virtualStart`, `virtualEnd`) to consecutive frames from `physicalStart`, in the
        space shown in slot `id`. Without a panic the whole range is mapped; with one, `reached` is the page
        that caused it and everything below is mapped. */
    method Map(id: Window, ghost root: Frame, virtualStart: Address, virtualEnd: Address, physicalStart: Address,
               attributes: Attributes)
      returns (outcome: Outcome, ghost reached: int)
      requires Sound(Now()) && Editable(Now(), cr3, id, root)
      requires !StartsInPagingArea(virtualStart) && !NothingToDo(virtualStart, virtualEnd) ==>
                 InOneHalf(virtualStart, virtualEnd)
      modifies this`mem, this`free, this`owner
      ensures outcome == PagingArea <==> 0xFFFF_8000_0000_0000 <= virtualStart < 0xFFFF_8100_0000_0000
      ensures StartsInPagingArea(virtualStart) || NothingToDo(virtualStart, virtualEnd) ==> Now() == old(Now())
      ensures NothingToDo(virtualStart, virtualEnd) && outcome != PagingArea ==> outcome == Done
      ensures Sound(Now()) && Editable(Now(), cr3, id, root)
      ensures !StartsInPagingArea(virtualStart) && !NothingToDo(virtualStart, virtualEnd) ==>
                var first, end := PageOf(RoundDown(virtualStart)), PageOf(RoundUp(virtualEnd));
                && Mapping(old(Now()), Now(), root, first, reached, end, physicalStart)
                && Granting(old(mem), mem, root, first, reached, end, attributes)
                && (outcome == Done ==> reached == end)
                && (outcome != Done ==> first <= reached < end)
                && (outcome == AlreadyMapped ==> ClashAt(old(mem), root, first, reached, physicalStart))
                && (outcome == OutOfFrames ==> free == {} && Walk(mem, root, PathOf(reached)[..3]).None?)
                && (outcome == Done || outcome == AlreadyMapped || outcome == OutOfFrames)
    {
      reached := 0;
      if StartsInPagingArea(virtualStart) {
        return PagingArea, reached;
      }
      var v: nat := RoundDown(virtualStart);
      var e := RoundUp(virtualEnd);
      if e <= v {
        return Done, reached;
      }
      RangeIsProper(virtualStart, virtualEnd);
      IndicesOfAddress(v);
      IndicesOfAddress(e);
      ghost var r := Request(Now(), root, PageOf(v), PageOf(e), v, physicalStart);
      MappingStarts(Now(), root, r.start, r.end, physicalStart);
      AdvanceOne(physicalStart, 0);
      GrantingStarts(mem, root, r.start, r.end, attributes);
      var at, p;
      at, v, p, outcome := MapSpace(id, r, CursorAt(v), CursorAt(e), v, physicalStart, attributes);
      reached := at.Page();
    }

    /** The loops of `unmap` stand at the counters `at`. */
    ghost predicate UnmapAt(id: Window, r: Removal, at: Cursor, end: Cursor, v: nat)
      reads this
    {
      && UnmapStands(Now(), cr3, id, r, at.Page(), v, pushed) && RightsSame(r.s0.mem, mem, r.root)
      && end.InTables() && StopsAt(r.s0.mem, r.root, r.start, end.Page(), r.end)
    }

    ghost predicate UnmapPanicked(r: Removal, at: Cursor, outcome: Outcome)
    {
      r.start <= at.Page() < r.end <= PAGES && outcome == NotMapped && Leaf(r.s0.mem, r.root, at.Page()).None?
    }

    /** Unmaps one page and gives its frame back, unless there is nothing mapped. */
    method UnmapPage(id: Window, ghost r: Removal, at: Cursor, ghost v: nat, push: bool) returns (outcome: Outcome)
      requires at.InTables() && UnmapStands(Now(), cr3, id, r, at.Page(), v, pushed) && at.Page() < r.end
      requires r.push == push
      requires Walk(mem, r.root, at.TablePath()).Some?
      modifies this`mem, this`free, this`pushed
      ensures outcome == Done ==> UnmapStands(Now(), cr3, id, r, at.Page() + 1, v + PAGE, pushed)
      ensures outcome == Done ==> Walk(mem, r.root, at.TablePath()).Some? && RightsSame(old(mem), mem, r.root)
      ensures outcome != Done ==> outcome == NotMapped && Leaf(r.s0.mem, r.root, at.Page()).None?
      ensures outcome != Done ==> Now() == old(Now()) && pushed == old(pushed)
    {
      hide UnmapStands, Editable, PageWritten, PathOf, RightsSame, RightsOn;
      ghost var s, q, n := Now(), at.TablePath(), at.Page();
      UnmapStandsInside(s, cr3, id, r, n, v, pushed);
      at.PathOfPage();
      WalkSnoc(mem, r.root, q, at.pte);
      Visible(s, cr3, id, r.root, q);
      var pt := PtAddress(id, at.pml4e, at.pdpte, at.pde);
      var e := Load(pt, at.pte);
      if !e.present {
        return NotMapped;
      }
      e := e.(present := false);
      Store(pt, at.pte, e);
      ghost var s1 := s.(mem := Put(s.mem, Walk(s.mem, r.root, q).value, at.pte, e));
      WritePage(s, cr3, id, r.root, n, q, at.pte, e);
      UnmapStandsAtNext(s, s1, cr3, id, r, n, v, pushed, e.address);
      PageKeepsRights(s, s1, cr3, id, r.root, n, q, at.pte, e);
      assert Now() == s1;
      if push {
        Push(e.address);
      }
      outcome := Done;
    }

    method UnmapPages(id: Window, ghost r: Removal, start: Cursor, end: Cursor, v0: nat, push: bool)
      returns (at: Cursor, v: nat, outcome: Outcome)
      requires UnmapAt(id, r, start, end, v0) && start.InTables() && r.push == push
      requires Walk(mem, r.root, start.TablePath()).Some?
      modifies this`mem, this`free, this`pushed
      ensures UnmapAt(id, r, at, end, v) && Walk(mem, r.root, start.TablePath()).Some?
      ensures at == start.(pte := at.pte) && at.pte <= 512
      ensures outcome == Done ==> at == end || at.pte == 512
      ensures outcome != Done ==> UnmapPanicked(r, at, outcome)
    {
      hide UnmapStands, Editable, Walk, PathOf, RightsSame;
      at, v := start, v0;
      while at != end && at.pte < 512
        invariant UnmapAt(id, r, at, end, v) && Walk(mem, r.root, start.TablePath()).Some?
        invariant at == start.(pte := at.pte) && at.pte <= 512
        decreases 512 - at.pte
      {
        EndTestIff(at, end);
        UnmapGoesOn(Now(), cr3, id, r, at.Page(), v, pushed, end.Page());
        UnmapStandsInside(Now(), cr3, id, r, at.Page(), v, pushed);
        ghost var m := mem;
        outcome := UnmapPage(id, r, at, v, push);
        if outcome != Done {
          return;
        }
        RightsSameTrans(r.s0.mem, m, mem, r.root);
        assert at.(pte := at.pte + 1).Page() == at.Page() + 1;
        at, v := at.(pte := at.pte + 1), v + PAGE;
      }
      outcome := Done;
    }

    /** The entry that leads to the table at `q` is present; otherwise the page below it is not mapped. */
    method TablePresent(id: Window, ghost root: Frame, q: Path, ghost n: nat) returns (present: bool)
      requires Editable(Now(), cr3, id, root) && 1 <= |q| <= 3
      requires Walk(mem, root, q[..|q| - 1]).Some?
      requires n < PAGES && q <= PathOf(n)
      ensures present <==> Walk(mem, root, q).Some?
      ensures !present ==> Leaf(mem, root, n).None?
    {
      Visible(Now(), cr3, id, root, q[..|q| - 1]);
      var e := Load(TableAddress(id, q[..|q| - 1]), q[|q| - 1]);
      present := e.present;
      if !present {
        WalkBelowNone(mem, root, q, PathOf(n));
      }
    }

    method UnmapPageTables(id: Window, ghost r: Removal, start: Cursor, end: Cursor, v0: nat, push: bool)
      returns (at: Cursor, v: nat, outcome: Outcome)
      requires UnmapAt(id, r, start, end, v0) && start.InTables() && r.push == push
      requires Walk(mem, r.root, start.TablePath()[..2]).Some?
      modifies this`mem, this`free, this`pushed
      ensures UnmapAt(id, r, at, end, v) && Walk(mem, r.root, start.TablePath()[..2]).Some?
      ensures at == start.(pde := at.pde, pte := at.pte) && at.pde <= 512
      ensures outcome == Done ==> at == end || (at.pde == 512 && at.pte == 0)
      ensures outcome != Done ==> UnmapPanicked(r, at, outcome)
    {
      hide UnmapStands, Editable, Walk, PathOf, RightsSame;
      at, v := start, v0;
      while at != end && at.pde < 512
        invariant UnmapAt(id, r, at, end, v) && Walk(mem, r.root, start.TablePath()[..2]).Some?
        invariant at == start.(pde := at.pde, pte := at.pte) && at.pde <= 512 && at.pte < 512
        invariant at.pde == 512 ==> at.pte == 0
        decreases 512 - at.pde
      {
        EndTestIff(at, end);
        UnmapGoesOn(Now(), cr3, id, r, at.Page(), v, pushed, end.Page());
        UnmapStandsInside(Now(), cr3, id, r, at.Page(), v, pushed);
        at.PathOfPage();
        ghost var q := at.TablePath();
        assert q[..2] == start.TablePath()[..2];
        var present := TablePresent(id, r.root, at.TablePath(), at.Page());
        if !present {
          return at, v, NotMapped;
        }
        at, v, outcome := UnmapPages(id, r, at, end, v, push);
        AboveWalk(mem, r.root, q[..2], q);
        if outcome != Done || at == end {
          return;
        }
        assert at.(pde := at.pde + 1, pte := 0).Page() == at.Page();
        at := at.(pde := at.pde + 1, pte := 0);
      }
      outcome := Done;
    }

    method UnmapDirectories(id: Window, ghost r: Removal, start: Cursor, end: Cursor, v0: nat, push: bool)
      returns (at: Cursor, v: nat, outcome: Outcome)
      requires UnmapAt(id, r, start, end, v0) && start.InTables() && r.push == push
      requires Walk(mem, r.root, start.TablePath()[..1]).Some?
      modifies this`mem, this`free, this`pushed
      ensures UnmapAt(id, r, at, end, v)
      ensures at == start.(pdpte := at.pdpte, pde := at.pde, pte := at.pte) && at.pdpte <= 512
      ensures outcome == Done ==> at == end || (at.pdpte == 512 && at.pde == 0 && at.pte == 0)
      ensures outcome != Done ==> UnmapPanicked(r, at, outcome)
    {
      hide UnmapStands, Editable, Walk, PathOf, RightsSame;
      at, v := start, v0;
      while at != end && at.pdpte < 512
        invariant UnmapAt(id, r, at, end, v) && Walk(mem, r.root, start.TablePath()[..1]).Some?
        invariant at == start.(pdpte := at.pdpte, pde := at.pde, pte := at.pte) && at.pdpte <= 512 && at.pde < 512
        invariant at.pte < 512
        invariant at.pdpte == 512 ==> at.pde == 0 && at.pte == 0
        decreases 512 - at.pdpte
      {
        EndTestIff(at, end);
        UnmapGoesOn(Now(), cr3, id, r, at.Page(), v, pushed, end.Page());
        UnmapStandsInside(Now(), cr3, id, r, at.Page(), v, pushed);
        at.PathOfPage();
        ghost var q := at.TablePath();
        assert q[..1] == start.TablePath()[..1];
        var pd: Path := [at.pml4e, at.pdpte];
        assert pd == q[..2] && pd[..1] == q[..1] && pd <= PathOf(at.Page());
        var present := TablePresent(id, r.root, pd, at.Page());
        if !present {
          return at, v, NotMapped;
        }
        at, v, outcome := UnmapPageTables(id, r, at, end, v, push);
        AboveWalk(mem, r.root, q[..1], q[..2]);
        if outcome != Done || at == end {
          return;
        }
        assert at.(pdpte := at.pdpte + 1, pde := 0).Page() == at.Page();
        at := at.(pdpte := at.pdpte + 1, pde := 0);
      }
      outcome := Done;
    }

    method UnmapSpace(id: Window, ghost r: Removal, start: Cursor, end: Cursor, v0: nat, push: bool)
      returns (at: Cursor, v: nat, outcome: Outcome)
      requires UnmapAt(id, r, start, end, v0) && start.InTables() && r.push == push
      modifies this`mem, this`free, this`pushed
      ensures UnmapAt(id, r, at, end, v)
      ensures outcome == Done ==> at == end
      ensures start == end ==> outcome == Done && Now() == old(Now()) && pushed == old(pushed)
      ensures outcome != Done ==> UnmapPanicked(r, at, outcome) || (outcome == OutOfTables && at.Page() == PAGES)
    {
      hide UnmapStands, Editable, Walk, PathOf, RightsSame;
      at, v := start, v0;
      while at != end
        invariant UnmapAt(id, r, at, end, v)
        invariant at.pml4e <= 512 && at.pdpte < 512 && at.pde < 512 && at.pte < 512
        invariant at.pml4e == 512 ==> at.pdpte == 0 && at.pde == 0 && at.pte == 0
        invariant start == end ==> at == end && Now() == old(Now()) && pushed == old(pushed)
        decreases 512 - at.pml4e
      {
        UnmapGoesOn(Now(), cr3, id, r, at.Page(), v, pushed, end.Page());
        UnmapStandsInside(Now(), cr3, id, r, at.Page(), v, pushed);
        if at.pml4e == 512 {
          return at, v, OutOfTables;
        }
        EndTestIff(at, end);
        at.PathOfPage();
        var pdpt: Path := [at.pml4e];
        assert pdpt == at.TablePath()[..1] && pdpt[..0] == [] && pdpt <= PathOf(at.Page());
        WalkNothing(mem, r.root);
        var present := TablePresent(id, r.root, pdpt, at.Page());
        if !present {
          return at, v, NotMapped;
        }
        at, v, outcome := UnmapDirectories(id, r, at, end, v, push);
        if outcome != Done || at == end {
          return;
        }
        assert at.(pml4e := at.pml4e + 1, pdpte := 0).Page() == at.Page();
        at := at.(pml4e := at.pml4e + 1, pdpte := 0);
      }
      outcome := Done;
    }

    /** Unmaps the pages of [`virtualStart`, `virtualEnd`) in the space shown in slot `id`, giving their
        frames back in address order when `push` is set. It panics exactly at the first page of the range
        that is not mapped; `reached` is that page. The end test is only met by a range that is not turned
        around; otherwise the loops come to the end of the last PML4 slot and go on outside of the tables. */
    method Unmap(id: Window, ghost root: Frame, virtualStart: Address, virtualEnd: Address, push: bool)
      returns (outcome: Outcome, ghost reached: int)
      requires Editable(Now(), cr3, id, root)
      requires StopsInside(mem, root, PageOf(RoundDown(virtualStart)), PageOf(RoundUp(virtualEnd)))
      modifies this`mem, this`free, this`pushed
      ensures PageOf(RoundDown(virtualStart)) == PageOf(RoundUp(virtualEnd)) ==>
                outcome == Done && Now() == old(Now()) && pushed == old(pushed)
      ensures !push ==> pushed == old(pushed)
      ensures Editable(Now(), cr3, id, root) && RightsSame(old(mem), mem, root)
      ensures var first, end := PageOf(RoundDown(virtualStart)), PageOf(RoundUp(virtualEnd));
              && first <= reached <= UnmapLimit(first, end)
              && Removed(old(Now()), Now(), root, first, reached, push, old(pushed), pushed)
              && match outcome
                 case Done => first <= end == reached
                 case NotMapped =>
                        reached < UnmapLimit(first, end) && ProperPage(reached) && Leaf(old(mem), root, reached).None?
                 case OutOfTables => end < first && reached == PAGES
                 case _ => false
      ensures var first, end := PageOf(RoundDown(virtualStart)), PageOf(RoundUp(virtualEnd));
              && (outcome == Done <==> first <= end && AllMapped(old(mem), root, first, end))
              && (outcome == OutOfTables <==> end < first && AllMapped(old(mem), root, first, PAGES))
    {
      hide UnmapStands, Editable, Removed, StopsAt, Walk, PathOf, RoundDown, RoundUp, RightsSame;
      var v: nat, e := RoundDown(virtualStart), RoundUp(virtualEnd);
      IndicesOfAddress(v);
      IndicesOfAddress(e);
      ghost var stop :| StopsAt(mem, root, PageOf(v), PageOf(e), stop);
      ghost var r := Removal(Now(), root, PageOf(v), stop, v, push, pushed);
      UnmapStarts(Now(), cr3, id, r, PageOf(e));
      RightsSameRefl(mem, root);
      var at;
      at, v, outcome := UnmapSpace(id, r, CursorAt(v), CursorAt(e), v, push);
      reached := at.Page();
      UnmapGoesOn(Now(), cr3, id, r, reached, v, pushed, PageOf(e));
      UnmapStandsInside(Now(), cr3, id, r, reached, v, pushed);
      UnmapStandsMeans(Now(), cr3, id, r, reached, v, pushed);
    }

    /** The address of the frame that `addr` lies in, in the space shown in slot `id`; a panic if there is none.
        The offset into the page is not added. */
    method GetPhysicalAddress(id: Window, ghost root: Frame, addr: Address) returns (r: Option<Address>)
      requires Editable(Now(), cr3, id, root)
      ensures r == match Leaf(mem, root, PageOf(addr)) case Some(f) => Some(f * PAGE) case None => None
    {
      hide Editable;
      var a, b, c, d := Pml4Index(addr), PdptIndex(addr), PdIndex(addr), PtIndex(addr);
      ghost var q: Path := [a, b, c];
      IndicesOfAddress(addr);
      assert PathOf(PageOf(addr)) == q + [d] && q[..2] == [a, b] && q[..1] == [a] && q[..0] == [];
      Visible(Now(), cr3, id, root, []);
      WalkSnoc(mem, root, [], a);
      assert [] + [a] == [a];
      var e := Load(Pml4Address(id), a);
      if e.present {
        Visible(Now(), cr3, id, root, [a]);
        WalkSnoc(mem, root, [a], b);
        assert [a] + [b] == [a, b];
        e := Load(PdptAddress(id, a), b);
        if e.present {
          Visible(Now(), cr3, id, root, [a, b]);
          WalkSnoc(mem, root, [a, b], c);
          assert [a, b] + [c] == q;
          e := Load(PdAddress(id, a, b), c);
          if e.present {
            Visible(Now(), cr3, id, root, q);
            WalkSnoc(mem, root, q, d);
            e := Load(PtAddress(id, a, b, c), d);
            if e.present {
              return Some(e.address * PAGE);
            }
          } else {
            WalkBelowNone(mem, root, q, q + [d]);
          }
        } else {
          WalkBelowNone(mem, root, [a, b], q + [d]);
        }
      } else {
        WalkBelowNone(mem, root, [a], q + [d]);
      }
      return None;
    }

    /** Installs the space of `frame` in the foreign slot, which is free, and gives it its self entry. */
    method SetForeign(frame: Frame)
      requires Sound(Now()) && Editable(Now(), cr3, SELF, cr3)
      requires Follow(mem, cr3, FOREIGN).None? && CanBeRoot(Now(), frame)
      modifies this`mem, this`owner
      ensures Sound(Now()) && Editable(Now(), cr3, FOREIGN, frame) && Editable(Now(), cr3, SELF, cr3)
      ensures WindowsSwitched(old(Now()), Now())
      ensures owner == old(owner)[frame := Place([], frame)]
      ensures forall k: Index :: !IsWindow(k) ==> mem[frame][k] == old(mem)[frame][k]
      ensures frame !in old(owner) ==> !mem[frame][FOREIGN].present
    {
      ghost var s0 := Now();
      Visible(s0, cr3, SELF, cr3, []);
      var e := Load(Pml4Address(SELF), FOREIGN);
      e := e.(present := true, address := frame);
      Store(Pml4Address(SELF), FOREIGN, e);
      InstalledTableVisible(s0.mem, cr3, frame, e);
      var e' := Load(PdptAddress(SELF, FOREIGN), SELF);
      e' := e'.(present := true, address := frame);
      Store(PdptAddress(SELF, FOREIGN), SELF, e');
      owner := owner[frame := Place([], frame)];
      InstallSwitchesWindows(s0, cr3, frame, e, e');
      assert mem == Installed(s0.mem, cr3, frame, e, e');
    }

    /** Empties the foreign slot. */
    method ReleaseForeign()
      requires Sound(Now()) && Editable(Now(), cr3, SELF, cr3)
      modifies this`mem
      ensures Sound(Now()) && Editable(Now(), cr3, SELF, cr3) && Follow(mem, cr3, FOREIGN).None?
      ensures WindowsSwitched(old(Now()), Now())
    {
      hide Sound, WindowsSwitched;
      ghost var s0 := Now();
      Visible(s0, cr3, SELF, cr3, []);
      var e := Load(Pml4Address(SELF), FOREIGN);
      e := e.(present := true, address := 0);
      Store(Pml4Address(SELF), FOREIGN, e);
      RootStillVisible(s0.mem, cr3, e);
      PutTwice(s0.mem, cr3, FOREIGN, e, e.(present := false));
      e := e.(present := false);
      Store(Pml4Address(SELF), FOREIGN, e);
      ReleaseKeepsTree(s0, cr3, e);
    }

    /** Pops a frame and zeroes it through a temporary mapping. */
    method PrepareRoot(temp: Address) returns (r: Option<Frame>)
      requires Sound(Now()) && Editable(Now(), cr3, SELF, cr3) && Follow(mem, cr3, FOREIGN).None?
      requires temp % PAGE == 0 && UPPER_START + 2 * 0x80_0000_0000 <= temp < WORD - PAGE
      requires Leaf(mem, cr3, PageOf(temp)).None?
      modifies this`mem, this`free, this`owner, this`pushed
      ensures r.Some? ==>
                && Sound(Now()) && Editable(Now(), cr3, SELF, cr3) && Follow(mem, cr3, FOREIGN).None?
                && r.value in old(free) && r.value !in owner && r.value !in free && r.value in mem
                && mem[r.value] == EMPTY_TABLE
                && RootPrepared(old(Now()), Now(), cr3) && NewRoots(old(Now()), Now(), {})
                && TakenForTables(old(Now()), Now(), r.value)
      ensures r.None? ==> free == {} && (Now() == old(Now()) || TableMissing(old(Now()), Now(), cr3, PageOf(temp)))
      ensures r.Some? ==>
                Granting(old(mem), mem, cr3, PageOf(temp), PageOf(temp) + 1, PageOf(temp) + 1, Attributes(false, true))
      ensures pushed == old(pushed)
    {
      hide Editable, Removed, Evolves, Sound, Mapping, RootPrepared, NewRoots, ClashAt, Granting, RightsSame, Walk,
           TakenForTables, PathOf;
      ghost var s0, n := Now(), PageOf(temp);
      r := Pop();
      if r.None? {
        return;
      }
      var f := r.value;
      ghost var s1 := Now();
      OnePage(temp);
      FrameTaken(s0, cr3, f);
      ghost var reached;
      var outcome;
      NoClash(s1, cr3, n, f * PAGE);
      outcome, reached := Map(SELF, cr3, temp, temp + PAGE, f * PAGE, Attributes(false, true));
      ghost var s2 := Now();
      TakenAndMapped(s0, s2, f, cr3, n, reached, n + 1, f * PAGE);
      if outcome != Done {
        return None;
      }
      MappedOnePage(s1, s2, cr3, n, f);
      DataFrameAvoided(s2, cr3, n, f);
      ConstructTable(temp, f);
      ghost var s3 := Now();
      ZeroedFrame(s2, s3, cr3, f);
      OrdinaryRange(mem, cr3, temp, temp + PAGE);
      outcome, reached := Unmap(SELF, cr3, temp, temp + PAGE, false);
      PreparedRoot(s0, s1, s2, s3, Now(), cr3, n, f, pushed);
      PreparedGrants(s0, s2, s3, Now(), cr3, n, f, pushed, Attributes(false, true));
    }

    /** Installs a zeroed frame in the foreign slot. */
    method InstallEmpty(f: Frame)
      requires Sound(Now()) && Editable(Now(), cr3, SELF, cr3) && Follow(mem, cr3, FOREIGN).None?
      requires f in mem && f !in owner && f !in free && mem[f] == EMPTY_TABLE
      modifies this`mem, this`owner
      ensures Copying(old(Now()), Now(), cr3, f, 258)
    {
      hide Editable, Sound, Copying, WindowsSwitched, Walk, Tree;
      ghost var s1 := Now();
      EditableRoots(s1, cr3, SELF, cr3);
      SetForeign(f);
      CopyingStarts(s1, Now(), cr3, f);
    }

    /** Copies the entries of all kernel slots into the PML4 installed in the foreign slot. */
    method CopyKernelSlots(ghost f: Frame, ghost s1: Snapshot)
      requires Copying(s1, Now(), cr3, f, 258) && IsRoot(s1.owner, cr3)
      modifies this`mem
      ensures Copying(s1, Now(), cr3, f, 512)
    {
      hide Editable, Sound, Copying;
      var k := 258;
      while k < 512
        invariant 258 <= k <= 512 && Copying(s1, Now(), cr3, f, k)
      {
        CopyingTables(s1, Now(), cr3, f, k);
        Visible(Now(), cr3, SELF, cr3, []);
        Visible(Now(), cr3, FOREIGN, f, []);
        CopyingNext(s1, Now(), cr3, f, k);
        var e := Load(Pml4Address(SELF), k);
        Store(Pml4Address(FOREIGN), k, e);
        k := k + 1;
      }
    }

    /** Creates an address space that shares all kernel slots with the current one and leaves it installed
        in the foreign slot. It fails only when it runs out of frames. */
    method CloneKernel(temp: Address) returns (r: Option<Frame>)
      requires Sound(Now()) && Editable(Now(), cr3, SELF, cr3) && Follow(mem, cr3, FOREIGN).None?
      requires temp % PAGE == 0 && UPPER_START + 2 * 0x80_0000_0000 <= temp < WORD - PAGE
      requires Leaf(mem, cr3, PageOf(temp)).None?
      modifies this`mem, this`free, this`owner, this`pushed
      ensures r.None? ==> free == {} && (Now() == old(Now()) || TableMissing(old(Now()), Now(), cr3, PageOf(temp)))
      ensures r.Some? ==>
                && Sound(Now()) && Editable(Now(), cr3, SELF, cr3) && Editable(Now(), cr3, FOREIGN, r.value)
                && Cloned(old(Now()), Now(), cr3, r.value)
                && free <= old(free) && owner.Keys - old(owner).Keys == old(free) - free
      ensures r.Some? ==>
                Granting(old(mem), mem, cr3, PageOf(temp), PageOf(temp) + 1, PageOf(temp) + 1, Attributes(false, true))
      ensures pushed == old(pushed)
    {
      hide Editable, Sound, RootPrepared, NewRoots, Cloned, Copying, Granting, RightsSame, TableMissing,
           TakenForTables, Walk, PathOf, WindowsSwitched, Tree;
      ghost var s0 := Now();
      r := PrepareRoot(temp);
      if r.None? {
        return;
      }
      ghost var s1 := Now();
      var f := r.value;
      FrameTaken(s0, cr3, f);
      EditableRoots(s1, cr3, SELF, cr3);
      InstallEmpty(f);
      CopyKernelSlots(f, s1);
      CopyingTables(s1, Now(), cr3, f, 512);
      CopyingDone(s0, s1, Now(), cr3, f);
      CopyingGrants(s0, s1, Now(), cr3, PageOf(temp), f, Attributes(false, true));
      CopyingOwners(s0, s1, Now(), cr3, f);
    }

    /** Gives back the table at `q` and clears the entry that leads to it. */
    method RemoveTable(q: Path, ghost f: Frame, ghost c: Frame)
      requires 1 <= |q| <= 3 && TakingOut(Now(), cr3, q, f, c)
      modifies this`mem, this`free, this`pushed, this`owner
      ensures f in old(mem) && Now() == TakenOut(old(Now()), f, q[|q| - 1], c) && pushed == old(pushed) + [c]
    {
      hide TakingOut, Leaf, PageOf, Canonical, StartsInPagingArea, TableAddress, Without;
      EntryToRemove(Now(), cr3, q, f, c);
      var parent, i := TableAddress(SELF, q[..|q| - 1]), q[|q| - 1];
      var e := Load(parent, i);
      Push(e.address);
      Store(parent, i, e.(present := false));
      owner := Without(owner, c);
    }

    /** Looks at entry `k` of the table at `prefix`, while tables below it are being taken out. */
    method LoadChild(ghost s0: Snapshot, prefix: Path, k: Index, ghost given: seq<Frame>) returns (e: Entry)
      requires Dropped(s0, Now(), cr3, prefix, k, given) && Walk(s0.mem, cr3, prefix).Some?
      requires |prefix| <= 2 && Proper(prefix + [k]) && Proper(prefix)
      ensures Droppable(Now(), cr3) && Walk(mem, cr3, prefix).Some?
      ensures Walk(mem, cr3, prefix + [k]) == if e.present then Some(e.address) else None
    {
      hide Droppable, Editable, Dropped;
      DroppedSpace(s0, Now(), cr3, prefix, k, given);
      ChildFound(Now(), cr3, prefix, k);
      Visible(Now(), cr3, SELF, cr3, prefix);
      e := Load(TableAddress(SELF, prefix), k);
    }

    /** Takes out all page tables of the page directory at (`pml4e`, `pdpte`). */
    method DropPageTables(pml4e: Index, pdpte: Index) returns (ghost given: seq<Frame>)
      requires Droppable(Now(), cr3) && pml4e < 256 && Walk(mem, cr3, [pml4e, pdpte]).Some?
      modifies this`mem, this`free, this`pushed, this`owner
      ensures Dropped(old(Now()), Now(), cr3, [pml4e, pdpte], 512, given) && pushed == old(pushed) + given
    {
      hide Droppable, Dropped, Emptied, TakingOut, Walk;
      ghost var s0, prefix: Path := Now(), [pml4e, pdpte];
      given := [];
      DroppedNothing(s0, cr3, prefix);
      var pde: nat := 0;
      while pde < 512
        invariant 0 <= pde <= 512
        invariant Dropped(s0, Now(), cr3, prefix, pde, given) && pushed == old(pushed) + given
      {
        ghost var s1 := Now();
        var e := LoadChild(s0, [pml4e, pdpte], pde, given);
        if !e.present {
          DropSkips(s0, s1, cr3, prefix, pde, given);
        } else {
          PageTableIsEmpty(s1, cr3, prefix + [pde]);
          EntryTaken(s0, s1, s1, cr3, prefix, pde, given, [], e.address);
          assert prefix + [pde] == [pml4e, pdpte, pde];
          RemoveTable([pml4e, pdpte, pde], Walk(mem, cr3, prefix).value, e.address);
          assert given + [] + [e.address] == given + [e.address];
          given := given + [e.address];
        }
        pde := pde + 1;
      }
    }

    /** Takes out everything below the PDPT at `pml4e`. */
    method DropDirectories(pml4e: Index) returns (ghost given: seq<Frame>)
      requires Droppable(Now(), cr3) && pml4e < 256 && Walk(mem, cr3, [pml4e]).Some?
      modifies this`mem, this`free, this`pushed, this`owner
      ensures Dropped(old(Now()), Now(), cr3, [pml4e], 512, given) && pushed == old(pushed) + given
    {
      hide Droppable, Dropped, Emptied, TakingOut, Walk;
      ghost var s0, prefix: Path := Now(), [pml4e];
      given := [];
      DroppedNothing(s0, cr3, prefix);
      var pdpte: nat := 0;
      while pdpte < 512
        invariant 0 <= pdpte <= 512
        invariant Dropped(s0, Now(), cr3, prefix, pdpte, given) && pushed == old(pushed) + given
      {
        ghost var s1 := Now();
        var e := LoadChild(s0, [pml4e], pdpte, given);
        if !e.present {
          DropSkips(s0, s1, cr3, prefix, pdpte, given);
        } else {
          assert prefix + [pdpte] == [pml4e, pdpte];
          ghost var below := DropPageTables(pml4e, pdpte);
          ghost var s2 := Now();
          DroppedEmpties(s1, s2, cr3, [pml4e, pdpte], below);
          EntryTaken(s0, s1, s2, cr3, prefix, pdpte, given, below, e.address);
          RemoveTable([pml4e, pdpte], Walk(mem, cr3, prefix).value, e.address);
          given := given + below + [e.address];
        }
        pdpte := pdpte + 1;
      }
    }

    /** Takes out all tables of the lower half, giving back each once, lower slots first and children before parents. */
    method DropSpace() returns (ghost given: seq<Frame>)
      requires Droppable(Now(), cr3)
      modifies this`mem, this`free, this`pushed, this`owner
      ensures Dropped(old(Now()), Now(), cr3, [], 256, given) && pushed == old(pushed) + given
      ensures NoDuplicates(given) && InOrder(old(owner), given)
    {
      hide Droppable, Dropped, Emptied, TakingOut, Walk, NoDuplicates, InOrder;
      WalkNothing(mem, cr3);
      ghost var s0, prefix: Path := Now(), [];
      given := [];
      DroppedNothing(s0, cr3, prefix);
      var pml4e: nat := 0;
      while pml4e < 256
        invariant 0 <= pml4e <= 256
        invariant Dropped(s0, Now(), cr3, prefix, pml4e, given) && pushed == old(pushed) + given
      {
        ghost var s1 := Now();
        assert prefix + [pml4e] == [pml4e];
        var e := LoadChild(s0, [], pml4e, given);
        if !e.present {
          DropSkips(s0, s1, cr3, prefix, pml4e, given);
        } else {
          ghost var below := DropDirectories(pml4e);
          ghost var s2 := Now();
          DroppedEmpties(s1, s2, cr3, [pml4e], below);
          EntryTaken(s0, s1, s2, cr3, prefix, pml4e, given, below, e.address);
          RemoveTable([pml4e], Walk(mem, cr3, prefix).value, e.address);
          given := given + below + [e.address];
        }
        pml4e := pml4e + 1;
      }
      DroppedInOrder(s0, Now(), cr3, prefix, pml4e, given);
    }

    /** Clears the presence of all lower-half slots without giving anything back. */
    method CutLowerHalf()
      requires Sound(Now()) && Editable(Now(), cr3, SELF, cr3)
      modifies this`mem
      ensures Cut(old(Now()), Now(), cr3, 256)
    {
      hide Sound, Editable;
      ghost var s0 := Now();
      CutNothing(s0, cr3);
      var pml4e: nat := 0;
      while pml4e < 256
        invariant 0 <= pml4e <= 256 && Cut(s0, Now(), cr3, pml4e)
      {
        Visible(Now(), cr3, SELF, cr3, []);
        CutNext(s0, Now(), cr3, pml4e);
        var e := Load(Pml4Address(SELF), pml4e);
        Store(Pml4Address(SELF), pml4e, e.(present := false));
        pml4e := pml4e + 1;
      }
    }

    /** Drops everything that is mapped in the lower half. With `push` the tables below are given back: each exactly
        once, and no mapped frame. Without, their frames are lost. Other spaces see no difference, as long as they share
        nothing with this one in the lower half. */
    method DropBootloaderMapping(push: bool) returns (ghost given: seq<Frame>)
      requires Sound(Now()) && Editable(Now(), cr3, SELF, cr3)
      requires push ==> Droppable(Now(), cr3)
      modifies this`mem, this`free, this`pushed, this`owner
      ensures Sound(Now()) && Editable(Now(), cr3, SELF, cr3) && LowerHalfGone(old(mem), mem, cr3)
      ensures pushed == old(pushed) + given && free == old(free) + (set f | f in given)
      ensures push ==>
                && NoDuplicates(given) && InOrder(old(owner), given)
                && (forall f {:trigger f in given} :: f in given <==> ToGo(old(Now()), cr3, [], 256, f))
      ensures !push ==> given == []
      ensures old(Droppable(Now(), cr3)) ==>
                LowerHalfDropped(old(Now()), Now(), cr3, given)
      ensures !old(Droppable(Now(), cr3)) ==> owner == old(owner)
    {
      hide Sound, Editable, Droppable, InOrder, NoDuplicates, ToGo, Dropped, Cut, LowerHalfDropped, LowerHalfGone;
      ghost var s0 := Now();
      if !push {
        CutLowerHalf();
        CutParts(s0, Now(), cr3, 256);
        CutIsGone(s0, Now(), cr3);
        if Droppable(s0, cr3) {
          CutOffStaysDroppable(s0, Now(), cr3);
          CutIsDropped(s0, Now(), cr3);
          owner := StillUsed(s0, cr3);
          DroppableEditable(Now(), cr3);
        }
        return [];
      }
      given := DropSpace();
      DroppedSpace(s0, Now(), cr3, [], 256, given);
      DroppableEditable(Now(), cr3);
      DroppedFree(s0, Now(), cr3, given);
      DroppedIsGone(s0, Now(), cr3, given);
    }

    /** Pops a frame and maps it at the page of an aligned address. */
    method MapFreshPage(id: Window, ghost root: Frame, at: Address, attributes: Attributes, ghost managed: set<int>,
                        ghost all: set<Frame>)
      returns (outcome: Outcome)
      requires Conserved(Now(), root, managed, all) && Editable(Now(), cr3, id, root)
      requires SinglePage(at)
      modifies this`mem, this`free, this`owner
      ensures outcome == Done ==> Conserved(Now(), root, managed + {PageOf(at)}, all) && Editable(Now(), cr3, id, root)
      ensures outcome == Done ==> LeafAdded(old(mem), mem, root, PageOf(at)) && PageOf(at) !in managed
      ensures outcome == Done ==> Granting(old(mem), mem, root, PageOf(at), PageOf(at) + 1, PageOf(at) + 1, attributes)
      ensures outcome == Done ==> ProperPage(PageOf(at))
      ensures outcome == Done ==> (UserMay(mem, root, PageOf(at)) <==> attributes.user)
      ensures outcome == Done ==> (MayWrite(mem, root, PageOf(at)) <==> attributes.user && attributes.readWrite)
      ensures outcome == OutOfFrames ==>
                free == {} && (Now() == old(Now()) || TableMissing(old(Now()), Now(), root, PageOf(at)))
      ensures outcome == AlreadyMapped ==>
                Leaf(old(mem), root, PageOf(at)).Some? && exists f :: TakenForTables(old(Now()), Now(), f)
      ensures outcome == Done || outcome == OutOfFrames || outcome == AlreadyMapped
    {
      hide Conserved, Editable, Mapping, Sound, Granting, Walk, LeavesAdded, RoundUp, RoundDown, PageOf, UserMay,
           MayWrite;
      ghost var s0, n := Now(), PageOf(at);
      var frame := Pop();
      if frame.None? {
        return OutOfFrames;
      }
      ConservedSound(s0, root, managed, all);
      FrameTakenAnywhere(s0, cr3, id, root, frame.value);
      ghost var reached;
      outcome, reached := Map(id, root, at, at + PAGE, frame.value * PAGE, attributes);
      TakenAndMapped(s0, Now(), frame.value, root, n, reached, n + 1, frame.value * PAGE);
      if outcome == Done {
        MapGrants(s0.mem, mem, root, n, n + 1, attributes, n);
        assert FramePlaced(s0, Now(), root, n, frame.value);
        FreshPlaced(s0, Now(), root, managed, all, n, frame.value);
      }
    }

    /** `vm::map` without a physical address: pops one frame for each page of the range. The range starts at a
        page, lies in one half and ends before the last page of the address space. Where it panics, everything up to the
        page `reached` is mapped, as it is in the state `last`, and the last frame popped is lost. */
    method MapFresh(id: Window, ghost root: Frame, base: Address, end: Address, attributes: Attributes,
                    ghost managed: set<int>, ghost all: set<Frame>)
      returns (outcome: Outcome, ghost mapped: set<int>, ghost reached: int, ghost last: Snapshot)
      requires Conserved(Now(), root, managed, all) && Editable(Now(), cr3, id, root)
      requires base % PAGE == 0 && end <= WORD - PAGE
      requires base < end ==> InOneHalf(base, end) && !StartsInPagingArea(base)
      modifies this`mem, this`free, this`owner
      ensures mapped == if base < end then Pages(PageOf(base), PageOf(RoundUp(end))) else {}
      ensures outcome == Done ==> Conserved(Now(), root, managed + mapped, all) && Editable(Now(), cr3, id, root)
      ensures outcome == Done ==> LeavesAdded(old(mem), mem, root, mapped) && mapped !! managed
      ensures outcome == Done && base < end ==>
                var first, last := PageOf(base), PageOf(RoundUp(end));
                Granting(old(mem), mem, root, first, last, last, attributes)
      ensures outcome == Done ==> UsableAs(mem, root, mapped, attributes)
      ensures outcome != Done ==>
                && reached in mapped && Conserved(last, root, managed + Pages(PageOf(base), reached), all)
                && LeavesAdded(old(mem), last.mem, root, Pages(PageOf(base), reached))
                && (Now() == last || exists f :: TakenForTables(last, Now(), f))
      ensures outcome == OutOfFrames ==> free == {} && (Now() == last || TableMissing(last, Now(), root, reached))
      ensures outcome == AlreadyMapped ==> ProperPage(reached) && Leaf(old(mem), root, reached).Some?
      ensures outcome == Done || outcome == OutOfFrames || outcome == AlreadyMapped
    {
      hide Conserved, Editable, Walk, LeavesAdded, PageOf, Granting, UserMay, MayWrite, TakenForTables, FreshUpTo,
           UsableAs;
      mapped := if base < end then Pages(PageOf(base), PageOf(RoundUp(end))) else {};
      ghost var n0 := PageOf(base);
      FreshStarts(Now(), cr3, id, root, n0, managed, all, attributes);
      var at: nat := base;
      reached, last := n0, Now();
      if base < end {
        PageOfStep(base, end, base);
      }
      while at < end
        invariant at % PAGE == 0 && base <= at && (if base < end then at < end + PAGE else at == base)
        invariant FreshUpTo(old(mem), Now(), cr3, id, root, n0, n0 + (at - base) / PAGE, managed, all, attributes)
        decreases end + PAGE - at
      {
        reached, last := PageOf(at), Now();
        PageOfStep(base, end, at);
        FreshMeans(old(mem), last, cr3, id, root, n0, reached, managed, all, attributes);
        outcome := MapFreshPage(id, root, at, attributes, managed + Pages(n0, reached), all);
        if outcome != Done {
          if ProperPage(reached) { NotAddedYet(old(mem), last.mem, root, Pages(n0, reached), reached); }
          return;
        }
        FreshNext(old(mem), last, Now(), cr3, id, root, n0, reached, managed, all, attributes);
        WholePages(at - base, 0);
        at := at + PAGE;
      }
      if base < end {
        RoundUpUnique(end, at);
      }
      FreshMeans(old(mem), Now(), cr3, id, root, n0, n0 + (at - base) / PAGE, managed, all, attributes);
      outcome := Done;
    }
  }
}
