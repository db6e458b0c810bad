/** Address spaces as translation functions, and the relations that the paging operations keep. */
module AddressSpaces {
  import opened Basics
  import opened PageTables
  import opened Addresses

  /** The state that paging works on: memory, the places of all tables, and the free frames. */
  datatype Snapshot = Snapshot(mem: Memory, owner: Owner, free: set<Frame>)

  ghost predicate Sound(s: Snapshot) {
    Whole(
      && Tree(s.mem, s.owner)
      && s.owner.Keys !! s.free
      && s.free <= s.mem.Keys)
  }

  /** What a page translates to in the space of `root`. */
  function Leaf(m: Memory, root: Frame, n: int): Option<Frame>
    requires 0 <= n < PAGES
  {
    Walk(m, root, PathOf(n))
  }

  function FrameOf(p: Address): Frame {
    (p / PAGE) % 0x100_0000_0000
  }

  /** The address reached after stepping over `k` pages, with 64-bit wrap-around. */
  function Advance(p: Address, k: nat): Address {
    (p + PAGE * k) % WORD
  }

  lemma AdvanceOne(p: Address, k: nat)
    ensures Advance(p, 0) == p
    ensures Advance(p, k + 1) == (Advance(p, k) + PAGE) % WORD
  {
  }

  /** The table hangs in the space of `root`. */
  ghost predicate Belongs(s: Snapshot, root: Frame, f: Frame)
    requires f in s.owner
  {
    f == root || (s.owner[f].path != [] && Follow(s.mem, root, s.owner[f].path[0]) == Some(s.owner[f].top))
  }

  ghost predicate OwnersKept(s0: Snapshot, s1: Snapshot) {
    forall f :: f in s0.owner ==> f in s1.owner && s1.owner[f] == s0.owner[f]
  }

  /** No frame is written but the tables in the space of `root`. */
  ghost predicate WritesOwnTables(s0: Snapshot, s1: Snapshot, root: Frame) {
    Whole(
      && s1.mem.Keys == s0.mem.Keys
      && (forall f :: f in s0.mem && f !in s1.owner ==> s1.mem[f] == s0.mem[f])
      && (forall f :: f in s0.mem && f in s0.owner && !Belongs(s0, root, f) ==> s1.mem[f] == s0.mem[f])
      && (root in s0.mem ==>
             s1.mem[root][SELF] == s0.mem[root][SELF] && s1.mem[root][FOREIGN] == s0.mem[root][FOREIGN]))
  }

  /** A table keeps its place, and a place that was empty is never given to a table that hung elsewhere. */
  ghost predicate TableKept(s0: Snapshot, s1: Snapshot, root: Frame, q: Path) {
    match Walk(s0.mem, root, q)
    case Some(t) => Walk(s1.mem, root, q) == Some(t)
    case None => Walk(s1.mem, root, q).Some? ==> Walk(s1.mem, root, q).value !in s0.owner
  }

  ghost predicate TablesKept(s0: Snapshot, s1: Snapshot, root: Frame) {
    forall q: Path {:trigger TableKept(s0, s1, root, q)} :: Proper(q) && |q| <= 3 ==> TableKept(s0, s1, root, q)
  }

  /** A table that exists in `s1` only. */
  ghost predicate Added(s0: Snapshot, s1: Snapshot, root: Frame, f: Frame)
    requires f in s1.owner
  {
    var p := s1.owner[f].path;
    p != [] && |p| <= 3 && Proper(p) && Walk(s1.mem, root, p) == Some(f) && Walk(s0.mem, root, p).None?
  }

  ghost predicate NewTablesAdded(s0: Snapshot, s1: Snapshot, root: Frame) {
    forall f {:trigger Added(s0, s1, root, f)} :: f in s1.owner && f !in s0.owner ==> Added(s0, s1, root, f)
  }

  /** Whatever an operation on the space of `root` does: it adds tables to that space, never moves or drops
      one, and writes to no frame but the tables of that space. */
  ghost predicate Evolves(s0: Snapshot, s1: Snapshot, root: Frame) {
    Whole(
      && IsRoot(s0.owner, root)
      && OwnersKept(s0, s1)
      && WritesOwnTables(s0, s1, root)
      && TablesKept(s0, s1, root)
      && NewTablesAdded(s0, s1, root))
  }

  /** Every popped frame became one table and every new table came from the free frames. */
  ghost predicate TablesFromFree(s0: Snapshot, s1: Snapshot) {
    s1.free <= s0.free && s1.owner.Keys - s0.owner.Keys == s0.free - s1.free
  }

  lemma EvolvesRefl(s: Snapshot, root: Frame)
    requires IsRoot(s.owner, root)
    ensures Evolves(s, s, root) && TablesFromFree(s, s)
  {
  }

  lemma BelongsStable(s0: Snapshot, s1: Snapshot, root: Frame, f: Frame)
    requires f in s0.owner && WellPlaced(s0.owner, f)
    requires OwnersKept(s0, s1) && TablesKept(s0, s1, root)
    ensures Belongs(s1, root, f) <==> Belongs(s0, root, f)
  {
    var p := s0.owner[f].path;
    if p != [] {
      WalkOne(s0.mem, root, p[0]);
      WalkOne(s1.mem, root, p[0]);
      assert Proper([p[0]]) && TableKept(s0, s1, root, [p[0]]);
    }
  }

  lemma TablesKeptTrans(s0: Snapshot, s1: Snapshot, s2: Snapshot, root: Frame)
    requires OwnersKept(s0, s1) && TablesKept(s0, s1, root) && TablesKept(s1, s2, root)
    ensures TablesKept(s0, s2, root)
  {
    forall q: Path | Proper(q) && |q| <= 3
      ensures TableKept(s0, s2, root, q)
    {
      assert TableKept(s0, s1, root, q) && TableKept(s1, s2, root, q);
    }
  }

  lemma NewTablesTrans(s0: Snapshot, s1: Snapshot, s2: Snapshot, root: Frame)
    requires OwnersKept(s1, s2) && TablesKept(s0, s1, root) && TablesKept(s1, s2, root)
    requires NewTablesAdded(s0, s1, root) && NewTablesAdded(s1, s2, root)
    ensures NewTablesAdded(s0, s2, root)
  {
    forall f | f in s2.owner && f !in s0.owner
      ensures Added(s0, s2, root, f)
    {
      var p := s2.owner[f].path;
      if f in s1.owner {
        assert Added(s0, s1, root, f) && TableKept(s1, s2, root, p);
      } else {
        assert Added(s1, s2, root, f) && TableKept(s0, s1, root, p);
      }
    }
  }

  lemma WritesTrans(s0: Snapshot, s1: Snapshot, s2: Snapshot, root: Frame)
    requires forall f :: f in s0.owner ==> WellPlaced(s0.owner, f)
    requires OwnersKept(s0, s1) && OwnersKept(s1, s2) && TablesKept(s0, s1, root)
    requires WritesOwnTables(s0, s1, root) && WritesOwnTables(s1, s2, root)
    ensures WritesOwnTables(s0, s2, root)
  {
    forall f | f in s0.mem && f in s0.owner && !Belongs(s0, root, f)
      ensures s2.mem[f] == s0.mem[f]
    {
      BelongsStable(s0, s1, root, f);
    }
  }

  lemma EvolvesTrans(s0: Snapshot, s1: Snapshot, s2: Snapshot, root: Frame)
    requires forall f :: f in s0.owner ==> WellPlaced(s0.owner, f)
    requires Evolves(s0, s1, root) && Evolves(s1, s2, root)
    ensures Evolves(s0, s2, root)
    ensures TablesFromFree(s0, s1) && TablesFromFree(s1, s2) ==> TablesFromFree(s0, s2)
  {
    hide WritesOwnTables, TablesKept, NewTablesAdded;
    WritesTrans(s0, s1, s2, root);
    TablesKeptTrans(s0, s1, s2, root);
    NewTablesTrans(s0, s1, s2, root);
    if TablesFromFree(s0, s1) && TablesFromFree(s1, s2) {
      assert s2.owner.Keys - s0.owner.Keys == (s2.owner.Keys - s1.owner.Keys) + (s1.owner.Keys - s0.owner.Keys);
    }
  }

  // ---------------------------------------------------------------------------------------------
  // The three kinds of writes that map and unmap make
  // ---------------------------------------------------------------------------------------------

  /** No page translates differently. */
  ghost predicate SameLeaves(m0: Memory, m1: Memory, root: Frame) {
    forall n {:trigger Leaf(m1, root, n)} :: ProperPage(n) ==> Leaf(m1, root, n) == Leaf(m0, root, n)
  }

  /** Exactly page `n` translates differently, to `t`. */
  ghost predicate LeafChanged(m0: Memory, m1: Memory, root: Frame, n: int, t: Option<Frame>) {
    forall k {:trigger Leaf(m1, root, k)} :: ProperPage(k) ==>
             Leaf(m1, root, k) == if k == n then t else Leaf(m0, root, k)
  }

  function Linked(s: Snapshot, f: Frame, i: Index, e: Entry, c: Frame): Snapshot
    requires f in s.mem && f in s.owner && c in s.mem && e.present && e.address == c
  {
    Snapshot(Link(s.mem, f, i, e, c), s.owner[c := ChildPlace(s.owner[f], i, c)], s.free - {c})
  }

  /** The state in which a missing table is about to be added below (`f`, `i`). */
  ghost predicate ReadyToLink(s: Snapshot, root: Frame, f: Frame, i: Index, e: Entry, c: Frame) {
    && Sound(s) && IsRoot(s.owner, root) && c in s.free
    && LinkPre(s.mem, s.owner, f, i, e, c)
    && Walk(s.mem, root, s.owner[f].path) == Some(f)
  }

  lemma BelongsOfWalk(s: Snapshot, root: Frame, q: Path)
    requires Tree(s.mem, s.owner) && IsRoot(s.owner, root) && Proper(q) && |q| <= 3 && Walk(s.mem, root, q).Some?
    ensures var f := Walk(s.mem, root, q).value; f in s.owner && s.owner[f].path == q && Belongs(s, root, f)
  {
    PlaceOfWalk(s.mem, s.owner, root, q);
  }

  lemma LinkSound(s: Snapshot, root: Frame, f: Frame, i: Index, e: Entry, c: Frame)
    requires ReadyToLink(s, root, f, i, e, c)
    ensures Sound(Linked(s, f, i, e, c))
  {
    LinkKeepsTree(s.mem, s.owner, f, i, e, c);
  }

  lemma LinkTables(s: Snapshot, root: Frame, f: Frame, i: Index, e: Entry, c: Frame)
    requires ReadyToLink(s, root, f, i, e, c)
    ensures var s' := Linked(s, f, i, e, c);
            && TablesKept(s, s', root) && NewTablesAdded(s, s', root) && SameLeaves(s.mem, s'.mem, root)
            && Walk(s'.mem, root, s.owner[f].path + [i]) == Some(c)
  {
    var s' := Linked(s, f, i, e, c);
    var here := s.owner[f].path + [i];
    forall q: Path | Proper(q) && |q| <= 3
      ensures TableKept(s, s', root, q)
    {
      LinkLocal(s.mem, s.owner, f, i, e, c, root, q);
    }
    LinkLocal(s.mem, s.owner, f, i, e, c, root, here);
    assert Added(s, s', root, c);
    forall n | ProperPage(n)
      ensures Leaf(s'.mem, root, n) == Leaf(s.mem, root, n)
    {
      ProperPageIsProper(n);
      assert |here| <= 3;
      LinkLocal(s.mem, s.owner, f, i, e, c, root, PathOf(n));
    }
  }

  lemma LinkStep(s: Snapshot, root: Frame, f: Frame, i: Index, e: Entry, c: Frame)
    requires ReadyToLink(s, root, f, i, e, c)
    ensures var s' := Linked(s, f, i, e, c);
            && Sound(s') && Evolves(s, s', root) && TablesFromFree(s, s') && SameLeaves(s.mem, s'.mem, root)
            && Walk(s'.mem, root, s.owner[f].path + [i]) == Some(c)
  {
    var s' := Linked(s, f, i, e, c);
    LinkSound(s, root, f, i, e, c);
    LinkTables(s, root, f, i, e, c);
    BelongsOfWalk(s, root, s.owner[f].path);
    LinkWrites(s, root, f, i, e, c);
    assert s'.owner.Keys - s.owner.Keys == {c} == s.free - s'.free;
  }

  lemma LinkWrites(s: Snapshot, root: Frame, f: Frame, i: Index, e: Entry, c: Frame)
    requires f in s.mem && f in s.owner && c in s.mem && e.present && e.address == c && c !in s.owner
    requires Belongs(s, root, f) && Proper(s.owner[f].path + [i]) && (f == root ==> s.owner[f].path == [])
    requires root in s.owner
    ensures WritesOwnTables(s, Linked(s, f, i, e, c), root)
  {
    assert f == root ==> (s.owner[f].path + [i])[0] == i;
  }

  /** An entry is about to be written that leads where the old one did. */
  ghost predicate ReadyToRewrite(s: Snapshot, root: Frame, q: Path, f: Frame, i: Index, e: Entry) {
    && Tree(s.mem, s.owner) && IsRoot(s.owner, root) && |q| < 3 && Proper(q + [i]) && Proper(q)
    && Walk(s.mem, root, q) == Some(f)
    && f in s.mem && e.present == s.mem[f][i].present && e.address == s.mem[f][i].address
  }

  lemma RewriteTables(s: Snapshot, root: Frame, q: Path, f: Frame, i: Index, e: Entry)
    requires ReadyToRewrite(s, root, q, f, i, e)
    ensures var s' := s.(mem := Put(s.mem, f, i, e)); TablesKept(s, s', root) && SameLeaves(s.mem, s'.mem, root)
  {
    var s' := s.(mem := Put(s.mem, f, i, e));
    forall p: Path | Proper(p) && |p| <= 3
      ensures TableKept(s, s', root, p)
    {
      PutSameTarget(s.mem, f, i, e, root, p);
    }
    forall n | ProperPage(n)
      ensures Leaf(s'.mem, root, n) == Leaf(s.mem, root, n)
    {
      PutSameTarget(s.mem, f, i, e, root, PathOf(n));
    }
  }

  /** Writing to a table of the space of `root`, but not to its windows, is writing to its own tables. */
  lemma PutWrites(s: Snapshot, root: Frame, f: Frame, i: Index, e: Entry)
    requires f in s.mem && f in s.owner && Belongs(s, root, f) && (f == root ==> !IsWindow(i))
    ensures WritesOwnTables(s, s.(mem := Put(s.mem, f, i, e)), root)
  {
  }

  /** Writing an entry without changing where it leads. */
  lemma RewriteStep(s: Snapshot, root: Frame, q: Path, f: Frame, i: Index, e: Entry)
    requires Sound(s) && ReadyToRewrite(s, root, q, f, i, e)
    ensures var s' := s.(mem := Put(s.mem, f, i, e));
            && Sound(s') && Evolves(s, s', root) && TablesFromFree(s, s') && SameLeaves(s.mem, s'.mem, root)
  {
    BelongsOfWalk(s, root, q);
    assert f == root ==> (q + [i])[0] == i;
    RewriteTables(s, root, q, f, i, e);
    RewriteKeepsTree(s.mem, s.owner, f, i, e);
    hide Tree, TablesKept, SameLeaves, Walk, Belongs;
    PutWrites(s, root, f, i, e);
    hide WritesOwnTables;
  }

  lemma RewriteKeepsTree(m: Memory, owner: Owner, f: Frame, i: Index, e: Entry)
    requires Tree(m, owner) && f in m
    requires e.present == m[f][i].present && e.address == m[f][i].address
    ensures Tree(Put(m, f, i, e), owner)
  {
    var m' := Put(m, f, i, e);
    forall g | g in owner
      ensures ChildrenPlaced(m', owner, g)
    {
      assert ChildrenPlaced(m, owner, g);
    }
    forall r | IsRoot(owner, r)
      ensures Windows(m', owner, r)
    {
      assert Windows(m, owner, r);
    }
  }

  lemma LeafWriteKeepsTree(m: Memory, owner: Owner, f: Frame, i: Index, e: Entry)
    requires Tree(m, owner) && f in owner && |owner[f].path| == 3
    ensures Tree(Put(m, f, i, e), owner)
  {
    var m' := Put(m, f, i, e);
    forall g | g in owner
      ensures ChildrenPlaced(m', owner, g)
    {
      assert ChildrenPlaced(m, owner, g);
    }
    forall r | IsRoot(owner, r)
      ensures Windows(m', owner, r)
    {
      assert Windows(m, owner, r);
      assert r != f;
    }
  }

  /** The entry of page `n` is about to be written. */
  ghost predicate ReadyToWrite(s: Snapshot, root: Frame, q: Path, f: Frame, i: Index, n: int) {
    && Tree(s.mem, s.owner) && IsRoot(s.owner, root) && |q| == 3 && Proper(q) && Walk(s.mem, root, q) == Some(f)
    && f in s.mem
    && ProperPage(n) && PathOf(n) == q + [i]
    && f in s.owner && s.owner[f].path == q
  }

  lemma LeafTables(s: Snapshot, root: Frame, q: Path, f: Frame, i: Index, e: Entry, n: int)
    requires ReadyToWrite(s, root, q, f, i, n)
    ensures TablesKept(s, s.(mem := Put(s.mem, f, i, e)), root)
  {
    var s' := s.(mem := Put(s.mem, f, i, e));
    forall p: Path | Proper(p) && |p| <= 3
      ensures TableKept(s, s', root, p)
    {
      PutLocal(s.mem, s.owner, f, i, e, root, p);
    }
  }

  lemma LeafWritten(s: Snapshot, root: Frame, q: Path, f: Frame, i: Index, e: Entry, n: int)
    requires ReadyToWrite(s, root, q, f, i, n)
    ensures LeafChanged(s.mem, Put(s.mem, f, i, e), root, n, if e.present then Some(e.address) else None)
  {
    forall k | ProperPage(k)
      ensures Leaf(Put(s.mem, f, i, e), root, k) == if k == n then (if e.present then Some(e.address) else None)
              else Leaf(s.mem, root, k)
    {
      if k == n {
        PutHere(s.mem, s.owner, f, i, e, root);
      } else {
        PathsDiffer(k, n);
        ProperPageIsProper(k);
        assert !(q + [i] <= PathOf(k));
        PutLocal(s.mem, s.owner, f, i, e, root, PathOf(k));
      }
    }
  }

  /** Writing the entry of one page. */
  lemma LeafStep(s: Snapshot, root: Frame, q: Path, i: Index, e: Entry, n: int)
    requires Tree(s.mem, s.owner) && IsRoot(s.owner, root) && |q| == 3 && Proper(q) && Walk(s.mem, root, q).Some?
    requires ProperPage(n) && PathOf(n) == q + [i]
    requires Walk(s.mem, root, q).value in s.mem
    ensures var s' := s.(mem := Put(s.mem, Walk(s.mem, root, q).value, i, e));
            && Tree(s'.mem, s'.owner) && Evolves(s, s', root) && TablesFromFree(s, s')
            && (Sound(s) ==> Sound(s'))
            && LeafChanged(s.mem, s'.mem, root, n, if e.present then Some(e.address) else None)
  {
    var f := Walk(s.mem, root, q).value;
    BelongsOfWalk(s, root, q);
    LeafTables(s, root, q, f, i, e, n);
    LeafWritten(s, root, q, f, i, e, n);
    LeafWriteKeepsTree(s.mem, s.owner, f, i, e);
    assert f != root;
    hide Tree, TablesKept, LeafChanged, Walk, Belongs, PathOf;
    PutWrites(s, root, f, i, e);
    hide WritesOwnTables;
  }

  // ---------------------------------------------------------------------------------------------
  // Editing through a window
  // ---------------------------------------------------------------------------------------------

  /** A space that is installed in a slot stays installed there. */
  lemma InstalledStays(s0: Snapshot, s1: Snapshot, current: Frame, id: Window, root: Frame)
    requires Tree(s0.mem, s0.owner) && Evolves(s0, s1, root) && IsRoot(s0.owner, current)
    requires Follow(s0.mem, current, id) == Some(root)
    ensures IsRoot(s1.owner, root) && IsRoot(s1.owner, current)
    ensures Follow(s1.mem, current, id) == Some(root)
  {
    assert IsWindow(id);
    assert current != root ==> !Belongs(s0, root, current);
  }

  /** The space of `root` can be edited through slot `id` of the current space. */
  ghost predicate Editable(s: Snapshot, current: Frame, id: Window, root: Frame) {
    Whole(
      && Tree(s.mem, s.owner)
      && IsRoot(s.owner, current) && IsRoot(s.owner, root)
      && Follow(s.mem, current, id) == Some(root))
  }

  /** Every table in the space of `root` is visible at its address. */
  lemma Visible(s: Snapshot, current: Frame, id: Window, root: Frame, q: Path)
    requires Editable(s, current, id, root) && |q| <= 3
    ensures Leaf(s.mem, current, PageOf(TableAddress(id, q))) == Walk(s.mem, root, q)
    ensures Walk(s.mem, root, q).Some? ==> Walk(s.mem, root, q).value in s.owner && Walk(s.mem, root, q).value in s.mem
  {
    assert Windows(s.mem, s.owner, root);
    RecursiveMapping(s.mem, current, id, root, q);
    if Walk(s.mem, root, q).Some? {
      TableOfWalk(s.mem, s.owner, root, q);
    }
  }

  /** The table at `q` exists and nothing but missing tables on the way changed. */
  ghost predicate TableEnsured(s0: Snapshot, s1: Snapshot, root: Frame, q: Path) {
    Whole(
      && Sound(s1) && Evolves(s0, s1, root) && TablesFromFree(s0, s1) && SameLeaves(s0.mem, s1.mem, root)
      && Walk(s1.mem, root, q).Some?
      && (forall f :: f in s1.owner && f !in s0.owner ==> s1.owner[f].path == q))
  }

  lemma TableEnsuredTrans(s0: Snapshot, s1: Snapshot, s2: Snapshot, root: Frame, q: Path)
    requires Sound(s0) && TableEnsured(s0, s1, root, q) && TableEnsured(s1, s2, root, q)
    ensures TableEnsured(s0, s2, root, q)
  {
    EvolvesTrans(s0, s1, s2, root);
  }

  /** A frame `c` is about to become the missing table at `q`, below the table `f`. */
  ghost predicate ReadyToCreate(s: Snapshot, current: Frame, id: Window, root: Frame, q: Path, f: Frame, e: Entry,
                                c: Frame) {
    && Sound(s) && Editable(s, current, id, root) && 1 <= |q| <= 3 && Proper(q)
    && Walk(s.mem, root, q[..|q| - 1]) == Some(f) && Walk(s.mem, root, q).None?
    && c in s.free && e.present && e.address == c
  }

  lemma CreateIsLink(s: Snapshot, current: Frame, id: Window, root: Frame, q: Path, f: Frame, e: Entry, c: Frame)
    requires ReadyToCreate(s, current, id, root, q, f, e, c)
    ensures ReadyToLink(s, root, f, q[|q| - 1], e, c) && s.owner[f].path == q[..|q| - 1]
  {
    assert q == q[..|q| - 1] + [q[|q| - 1]];
    BelongsOfWalk(s, root, q[..|q| - 1]);
  }

  lemma CreateEnsures(s: Snapshot, current: Frame, id: Window, root: Frame, q: Path, f: Frame, e: Entry, c: Frame)
    requires ReadyToCreate(s, current, id, root, q, f, e, c)
    requires ReadyToLink(s, root, f, q[|q| - 1], e, c) && s.owner[f].path == q[..|q| - 1]
    ensures var s' := Linked(s, f, q[|q| - 1], e, c);
            && TableEnsured(s, s', root, q) && Editable(s', current, id, root)
            && Walk(s'.mem, root, q) == Some(c) && s'.owner[c].path == q
  {
    var s' := Linked(s, f, q[|q| - 1], e, c);
    assert q == q[..|q| - 1] + [q[|q| - 1]];
    LinkStep(s, root, f, q[|q| - 1], e, c);
    InstalledStays(s, s', current, id, root);
  }

  /** A new table is visible at its address as soon as the entry that leads to it is written. */
  lemma NewTableVisible(s': Snapshot, current: Frame, id: Window, root: Frame, q: Path, c: Frame, m: Memory)
    requires Editable(s', current, id, root) && 1 <= |q| <= 3 && Proper(q)
    requires Walk(s'.mem, root, q) == Some(c) && c in s'.owner && s'.owner[c].path == q
    requires m.Keys == s'.mem.Keys && forall g :: g in m && g != c ==> m[g] == s'.mem[g]
    ensures var path := PathOf(PageOf(TableAddress(id, q)));
            Walk(m, current, path) == Some(c) && Avoids(m, current, path, c)
  {
    Visible(s', current, id, root, q);
    assert Windows(s'.mem, s'.owner, root);
    TableAddressPath(id, q);
    WindowAvoidsTable(s'.mem, s'.owner, current, id, root, q, c);
    AvoidedWriteInvisible(s'.mem, m, current, WindowPath(id, q), c);
  }
}
