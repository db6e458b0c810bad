/** Taking the tables of the lower half out of a space: what dropping the boot loader's mapping does. */
module Dropping {
  import opened Basics
  import opened PageTables
  import opened Addresses
  import opened AddressSpaces
  import opened Ranges
  import opened Spaces

  /** There is one address space, and all of its tables are in use. */
  ghost predicate OneSpace(s: Snapshot, root: Frame) {
    Whole(
      && Sound(s) && IsRoot(s.owner, root)
      && (forall f {:trigger s.owner[f]} :: f in s.owner ==> Walk(s.mem, root, s.owner[f].path) == Some(f)))
  }

  lemma OneSpaceTable(s: Snapshot, root: Frame, f: Frame)
    requires OneSpace(s, root) && f in s.owner
    ensures Walk(s.mem, root, s.owner[f].path) == Some(f) && WellPlaced(s.owner, f)
  {
  }

  lemma OneSpaceEditable(s: Snapshot, root: Frame)
    requires OneSpace(s, root)
    ensures Editable(s, root, SELF, root) && Sound(s)
  {
    assert Windows(s.mem, s.owner, root);
  }

  /** In one space every table is referenced by exactly one entry outside the windows: the one that its
      place names. */
  lemma UniqueParent(s: Snapshot, root: Frame, f1: Frame, i1: Index, f2: Frame, i2: Index)
    requires OneSpace(s, root) && f1 in s.owner && f2 in s.owner && |s.owner[f1].path| < 3 && |s.owner[f2].path| < 3
    requires Proper(s.owner[f1].path + [i1]) && Proper(s.owner[f2].path + [i2])
    requires Follow(s.mem, f1, i1).Some? && Follow(s.mem, f1, i1) == Follow(s.mem, f2, i2)
    ensures f1 == f2 && i1 == i2
  {
    PlaceOfChild(s.mem, s.owner, f1, i1);
    PlaceOfChild(s.mem, s.owner, f2, i2);
    var p1, p2 := s.owner[f1].path, s.owner[f2].path;
    assert (p1 + [i1])[..|p1|] == p1 && (p2 + [i2])[..|p2|] == p2;
    assert (p1 + [i1])[|p1|] == i1 && (p2 + [i2])[|p2|] == i2;
    OneSpaceTable(s, root, f1);
    OneSpaceTable(s, root, f2);
  }

  /** Every table but the root has such a parent. */
  lemma HasParent(s: Snapshot, root: Frame, c: Frame)
    requires OneSpace(s, root) && c in s.owner && c != root
    ensures var p := s.owner[c].path;
            && p != [] && Walk(s.mem, root, p[..|p| - 1]).Some? && Walk(s.mem, root, p[..|p| - 1]).value in s.owner
            && Follow(s.mem, Walk(s.mem, root, p[..|p| - 1]).value, p[|p| - 1]) == Some(c)
  {
    OneSpaceTable(s, root, c);
    var p := s.owner[c].path;
    PlaceOfWalk(s.mem, s.owner, root, p[..|p| - 1]);
  }

  /** Mapping and unmapping keep all tables in use: a table keeps its place, and a new one is linked. */
  lemma EvolvesKeepsOneSpace(s0: Snapshot, s1: Snapshot, root: Frame)
    requires OneSpace(s0, root) && Sound(s1) && Evolves(s0, s1, root)
    ensures OneSpace(s1, root)
  {
    forall f | f in s1.owner
      ensures Walk(s1.mem, root, s1.owner[f].path) == Some(f)
    {
      if f in s0.owner {
        OneSpaceTable(s0, root, f);
        assert TableKept(s0, s1, root, s0.owner[f].path);
      } else {
        assert Added(s0, s1, root, f);
      }
    }
  }

  lemma FewerFree(s: Snapshot, root: Frame, free: set<Frame>)
    requires OneSpace(s, root) && free <= s.free
    ensures OneSpace(s.(free := free), root)
  {
  }

  // ---------------------------------------------------------------------------------------------
  // Many spaces
  // ---------------------------------------------------------------------------------------------

  /** All tables are in use, and in the lower half the space of `root` shares nothing with another. */
  ghost predicate Droppable(s: Snapshot, root: Frame) {
    Whole(
      && Sound(s) && IsRoot(s.owner, root) && AllReached(s)
      && (forall r, k: Index {:trigger Apart(s, root, r, k)} :: IsRoot(s.owner, r) && r != root && k < 256 ==>
             Apart(s, root, r, k)))
  }

  lemma DroppableEditable(s: Snapshot, root: Frame)
    requires Droppable(s, root)
    ensures Editable(s, root, SELF, root) && Sound(s)
  {
    assert Windows(s.mem, s.owner, root);
  }

  /** A space that is alone can be dropped. */
  lemma OneSpaceDroppable(s: Snapshot, root: Frame)
    requires OneSpace(s, root)
    ensures Droppable(s, root)
  {
    forall f | f in s.owner ensures InSomeSpace(s, f) {
      OneSpaceTable(s, root, f);
      assert Reached(s, root, f);
    }
    forall r | IsRoot(s.owner, r) ensures r == root {
      OneSpaceTable(s, root, r);
    }
  }

  /** And a space that can be dropped and is alone has all the tables. */
  lemma DroppableAlone(s: Snapshot, root: Frame)
    requires Droppable(s, root) && forall r {:trigger IsRoot(s.owner, r)} :: IsRoot(s.owner, r) ==> r == root
    ensures OneSpace(s, root)
  {
    forall f | f in s.owner ensures Walk(s.mem, root, s.owner[f].path) == Some(f) {
      assert InSomeSpace(s, f);
      var r :| Reached(s, r, f);
    }
  }

  /** A table of the lower half that hangs under a PDPT of the space of `root` is reached from `root`. */
  lemma HangsHere(s: Snapshot, root: Frame, g: Frame)
    requires Droppable(s, root) && g in s.owner && s.owner[g].path != [] && s.owner[g].path[0] < 256
    requires Follow(s.mem, root, s.owner[g].path[0]) == Some(s.owner[g].top)
    ensures Reached(s, root, g)
  {
    assert InSomeSpace(s, g) && WellPlaced(s.owner, g);
    var r :| Reached(s, r, g);
    PlaceOfWalk(s.mem, s.owner, r, s.owner[g].path);
    assert r != root ==> Apart(s, root, r, s.owner[g].path[0]);
  }

  ghost predicate WalkKept(s0: Snapshot, s1: Snapshot, r: Frame, p: Path) {
    Walk(s1.mem, r, p) == Walk(s0.mem, r, p)
  }

  /** The other spaces are there as before, and so is everything that they reach. */
  ghost predicate OthersKept(s0: Snapshot, s1: Snapshot, root: Frame) {
    && (forall r {:trigger IsRoot(s1.owner, r)} :: IsRoot(s1.owner, r) <==> IsRoot(s0.owner, r))
    && (forall r, p: Path {:trigger WalkKept(s0, s1, r, p)} ::
          IsRoot(s0.owner, r) && r != root && Proper(p) && |p| <= 4 ==> WalkKept(s0, s1, r, p))
  }

  lemma OthersKeptTrans(s0: Snapshot, s1: Snapshot, s2: Snapshot, root: Frame)
    requires OthersKept(s0, s1, root) && OthersKept(s1, s2, root)
    ensures OthersKept(s0, s2, root)
  {
    forall r, p: Path | IsRoot(s0.owner, r) && r != root && Proper(p) && |p| <= 4 ensures WalkKept(s0, s2, r, p) {
      assert IsRoot(s1.owner, r);
      assert WalkKept(s0, s1, r, p) && WalkKept(s1, s2, r, p);
    }
  }

  // ---------------------------------------------------------------------------------------------
  // Taking out one table
  // ---------------------------------------------------------------------------------------------

  predicate Below(q: Path, p: Path) {
    q < p
  }

  /** The table `c` at `q` in the lower half has no tables below it any more. */
  ghost predicate Removable(s: Snapshot, root: Frame, q: Path, c: Frame) {
    && Droppable(s, root) && 1 <= |q| <= 3 && q[0] < 256 && Walk(s.mem, root, q) == Some(c)
    && forall g {:trigger Reached(s, root, g)} :: Reached(s, root, g) ==> !Below(q, s.owner[g].path)
  }

  function Without(owner: Owner, c: Frame): Owner {
    map f | f in owner && f != c :: owner[f]
  }

  /** The table at `q` is given back and its entry cleared. */
  function TakenOut(s: Snapshot, f: Frame, i: Index, c: Frame): Snapshot
    requires f in s.mem
  {
    Snapshot(Put(s.mem, f, i, s.mem[f][i].(present := false)), Without(s.owner, c), s.free + {c})
  }

  ghost predicate TakingOut(s: Snapshot, root: Frame, q: Path, f: Frame, c: Frame) {
    && Removable(s, root, q, c) && f in s.mem && f in s.owner && c in s.owner
    && s.owner[f].path == q[..|q| - 1] && s.owner[c].path == q && Walk(s.mem, root, q[..|q| - 1]) == Some(f)
  }

  lemma TakingOutPlaces(s: Snapshot, root: Frame, q: Path, c: Frame)
    requires Removable(s, root, q, c)
    ensures Walk(s.mem, root, q[..|q| - 1]).Some? && TakingOut(s, root, q, Walk(s.mem, root, q[..|q| - 1]).value, c)
  {
    PlaceOfWalk(s.mem, s.owner, root, q);
    PlaceOfWalk(s.mem, s.owner, root, q[..|q| - 1]);
  }

  lemma TakeOutWalk(s: Snapshot, root: Frame, q: Path, f: Frame, c: Frame, p: Path)
    requires TakingOut(s, root, q, f, c) && Proper(p) && |p| <= 4
    ensures Walk(TakenOut(s, f, q[|q| - 1], c).mem, root, p) == if q <= p then None else Walk(s.mem, root, p)
  {
    var s', i := TakenOut(s, f, q[|q| - 1], c), q[|q| - 1];
    assert q == q[..|q| - 1] + [i];
    if q <= p {
      assert WellPlaced(s.owner, f);
      PutHere(s.mem, s.owner, f, i, s.mem[f][i].(present := false), root);
      WalkBelowNone(s'.mem, root, q, p);
    } else {
      PutLocal(s.mem, s.owner, f, i, s.mem[f][i].(present := false), root, p);
    }
  }

  /** No other table hangs under the one that is taken out. */
  lemma TopStays(s: Snapshot, root: Frame, q: Path, f: Frame, c: Frame, g: Frame)
    requires TakingOut(s, root, q, f, c) && g in s.owner && g != c
    ensures s.owner[g].top != c
  {
    if s.owner[g].top == c {
      var p := s.owner[g].path;
      assert WellPlaced(s.owner, g);
      assert p[..1] == q && p[0] == q[0];
      assert if |p| == 1 then p == q else Below(q, p);
      WalkOne(s.mem, root, q[0]);
      HangsHere(s, root, g);
    }
  }

  /** In the lower half, no other PML4 leads where that of `root` does. */
  lemma EntryOfRoot(s: Snapshot, root: Frame, g: Frame, j: Index, c: Frame)
    requires Droppable(s, root) && IsRoot(s.owner, g) && j < 256
    requires Follow(s.mem, g, j) == Some(c) && Follow(s.mem, root, j) == Some(c)
    ensures g == root
  {
    assert g != root ==> Apart(s, root, g, j);
  }

  /** Below, no table at the same place leads to the same table. */
  lemma EntryBelow(s: Snapshot, root: Frame, p: Path, g: Frame, t: Frame, f: Frame)
    requires Droppable(s, root) && g in s.owner && s.owner[g] == Place(p, t) && p != [] && p[0] < 256
    requires Follow(s.mem, root, p[0]) == Some(t) && Walk(s.mem, root, p) == Some(f)
    ensures g == f
  {
    HangsHere(s, root, g);
  }

  /** Where the table that is taken out hangs. */
  lemma TakenPlace(s: Snapshot, root: Frame, q: Path, f: Frame, c: Frame)
    requires TakingOut(s, root, q, f, c)
    ensures Droppable(s, root) && Tree(s.mem, s.owner) && c in s.owner && s.owner[c].path == q && 1 <= |q| <= 3
    ensures q[0] < 256 && Follow(s.mem, root, q[0]) == Some(s.owner[c].top)
    ensures Walk(s.mem, root, q[..|q| - 1]) == Some(f) && (|q| == 1 ==> s.owner[c].top == c && f == root)
  {
    PlaceOfWalk(s.mem, s.owner, root, q);
    if |q| == 1 {
      assert q == [q[0]];
      WalkOne(s.mem, root, q[0]);
    }
  }

  /** Only one entry leads to the table that is taken out. */
  lemma OneEntry(s: Snapshot, root: Frame, q: Path, f: Frame, c: Frame, g: Frame, j: Index)
    requires TakingOut(s, root, q, f, c) && g in s.owner && g in s.mem
    requires |s.owner[g].path| < 3 && Proper(s.owner[g].path + [j])
    requires s.mem[g][j].present && s.mem[g][j].address == c
    ensures g == f && j == q[|q| - 1]
  {
    TakenPlace(s, root, q, f, c);
    assert WellPlaced(s.owner, g);
    PlaceOfChild(s.mem, s.owner, g, j);
    hide TakingOut, Droppable, Tree, WellPlaced, Walk, ChildrenPlaced;
    var p := s.owner[g].path;
    assert p + [j] == q;
    assert p == q[..|q| - 1] && j == q[|q| - 1];
    if p == [] {
      EntryOfRoot(s, root, g, j, c);
    } else {
      assert p[0] == q[0];
      EntryBelow(s, root, p, g, s.owner[g].top, f);
    }
  }

  /** No entry that stays leads to it. */
  lemma EntryGone(s: Snapshot, root: Frame, q: Path, f: Frame, c: Frame, g: Frame, j: Index)
    requires TakingOut(s, root, q, f, c) && g in s.owner && g in s.mem
    requires |s.owner[g].path| < 3 && Proper(s.owner[g].path + [j])
    requires TakenOut(s, f, q[|q| - 1], c).mem[g][j].present
    ensures s.mem[g][j].present && s.mem[g][j].address != c
  {
    if s.mem[g][j].present && s.mem[g][j].address == c {
      OneEntry(s, root, q, f, c, g, j);
    }
  }

  lemma WellPlacedWithout(owner: Owner, c: Frame, g: Frame)
    requires g in owner && g != c && WellPlaced(owner, g) && owner[g].top != c
    ensures WellPlaced(Without(owner, c), g)
  {
  }

  /** An entry that is present afterwards was so before, and does not lead to `c`. */
  ghost predicate EntryKept(m: Memory, m': Memory, c: Frame, g: Frame, j: Index)
    requires g in m && g in m'
  {
    m'[g][j].present ==> m[g][j].present && m'[g][j].address == m[g][j].address != c
  }

  lemma ChildrenWithout(m: Memory, m': Memory, owner: Owner, c: Frame, g: Frame)
    requires g in owner && g in m && g in m' && g != c && ChildrenPlaced(m, owner, g)
    requires |owner[g].path| < 3 ==> forall j: Index {:trigger EntryKept(m, m', c, g, j)} ::
               (owner[g].path == [] ==> !IsWindow(j)) ==> EntryKept(m, m', c, g, j)
    ensures ChildrenPlaced(m', Without(owner, c), g)
  {
    if |owner[g].path| < 3 {
      forall j: Index | m'[g][j].present && (owner[g].path == [] ==> !IsWindow(j))
        ensures m[g][j].present && m'[g][j].address == m[g][j].address != c
      {
        assert EntryKept(m, m', c, g, j);
      }
    }
  }

  lemma TakeOutEntry(s: Snapshot, root: Frame, q: Path, f: Frame, c: Frame, g: Frame, j: Index)
    requires TakingOut(s, root, q, f, c) && g in s.owner && g in s.mem && |s.owner[g].path| < 3
    requires Proper(s.owner[g].path)
    requires s.owner[g].path == [] ==> !IsWindow(j)
    ensures EntryKept(s.mem, TakenOut(s, f, q[|q| - 1], c).mem, c, g, j)
  {
    var m', p := TakenOut(s, f, q[|q| - 1], c).mem, s.owner[g].path;
    if p == [] { assert p + [j] == [j]; } else { assert (p + [j])[0] == p[0]; }
    if m'[g][j].present {
      EntryGone(s, root, q, f, c, g, j);
      assert m'[g][j].address == s.mem[g][j].address;
    }
  }

  lemma TakeOutPlaces(s: Snapshot, root: Frame, q: Path, f: Frame, c: Frame, g: Frame)
    requires TakingOut(s, root, q, f, c) && g in s.owner && g in s.mem && g != c
    ensures WellPlaced(Without(s.owner, c), g)
    ensures ChildrenPlaced(TakenOut(s, f, q[|q| - 1], c).mem, Without(s.owner, c), g)
  {
    assert q != [];
    hide ChildrenPlaced, Walk, Removable, EntryKept;
    var m', p := TakenOut(s, f, q[|q| - 1], c).mem, s.owner[g].path;
    TopStays(s, root, q, f, c, g);
    TakingOutTable(s, root, q, f, c, g);
    WellPlacedWithout(s.owner, c, g);
    if |p| < 3 {
      forall j: Index | p == [] ==> !IsWindow(j)
        ensures EntryKept(s.mem, m', c, g, j)
      {
        TakeOutEntry(s, root, q, f, c, g, j);
      }
    }
    ChildrenWithout(s.mem, m', s.owner, c, g);
  }

  lemma TakingOutTable(s: Snapshot, root: Frame, q: Path, f: Frame, c: Frame, g: Frame)
    requires TakingOut(s, root, q, f, c) && g in s.owner
    ensures g in s.mem && WellPlaced(s.owner, g) && ChildrenPlaced(s.mem, s.owner, g)
  {
  }

  lemma WindowsKept(m: Memory, owner: Owner, owner': Owner, r: Frame, f: Frame, i: Index, e: Entry)
    requires Windows(m, owner, r) && f in m && (r == f ==> !IsWindow(i))
    requires forall x {:trigger IsRoot(owner', x)} :: IsRoot(owner, x) ==> IsRoot(owner', x)
    ensures Windows(Put(m, f, i, e), owner', r)
  {
    assert Follow(Put(m, f, i, e), r, SELF) == Follow(m, r, SELF) &&
           Follow(Put(m, f, i, e), r, FOREIGN) == Follow(m, r, FOREIGN);
  }

  lemma WindowsOfRoot(s: Snapshot, root: Frame, r: Frame)
    requires Droppable(s, root) && IsRoot(s.owner, r)
    ensures Windows(s.mem, s.owner, r)
  {
  }

  lemma TakeOutWindows(s: Snapshot, root: Frame, q: Path, f: Frame, c: Frame, r: Frame)
    requires TakingOut(s, root, q, f, c) && IsRoot(Without(s.owner, c), r)
    ensures Windows(TakenOut(s, f, q[|q| - 1], c).mem, Without(s.owner, c), r)
  {
    hide Windows, Droppable, Walk;
    var i := q[|q| - 1];
    WindowsOfRoot(s, root, r);
    if r == f {
      assert |q| == 1;
    }
    WindowsKept(s.mem, s.owner, Without(s.owner, c), r, f, i, s.mem[f][i].(present := false));
  }

  lemma TakeOutTree(s: Snapshot, root: Frame, q: Path, f: Frame, c: Frame)
    requires TakingOut(s, root, q, f, c)
    ensures Tree(TakenOut(s, f, q[|q| - 1], c).mem, Without(s.owner, c))
  {
    var m', owner' := TakenOut(s, f, q[|q| - 1], c).mem, Without(s.owner, c);
    hide WellPlaced, ChildrenPlaced, Windows, Walk;
    forall g | g in owner'
      ensures WellPlaced(owner', g) && ChildrenPlaced(m', owner', g)
    {
      TakeOutPlaces(s, root, q, f, c, g);
    }
    forall r | IsRoot(owner', r)
      ensures Windows(m', owner', r)
    {
      TakeOutWindows(s, root, q, f, c, r);
    }
  }

  /** Other spaces do not reach the table whose entry is cleared. */
  lemma NotElsewhere(s: Snapshot, root: Frame, q: Path, f: Frame, c: Frame, r: Frame, p: Path)
    requires TakingOut(s, root, q, f, c) && IsRoot(s.owner, r) && r != root && Proper(p) && |p| <= 3
    ensures Walk(s.mem, r, p) != Some(f)
  {
    if Walk(s.mem, r, p).Some? {
      PlaceOfWalk(s.mem, s.owner, r, p);
    }
    PlaceOfWalk(s.mem, s.owner, root, q[..|q| - 1]);
    if p == q[..|q| - 1] && p != [] {
      assert p[0] == q[0];
      assert Apart(s, root, r, q[0]);
    }
  }

  lemma {:induction false} TakeOutElsewhere(s: Snapshot, root: Frame, q: Path, f: Frame, c: Frame, r: Frame, p: Path)
    requires TakingOut(s, root, q, f, c) && IsRoot(s.owner, r) && r != root && Proper(p) && |p| <= 4
    ensures Walk(TakenOut(s, f, q[|q| - 1], c).mem, r, p) == Walk(s.mem, r, p)
    decreases |p|
  {
    if p != [] {
      var p0 := p[..|p| - 1];
      TakeOutElsewhere(s, root, q, f, c, r, p0);
      NotElsewhere(s, root, q, f, c, r, p0);
    }
  }

  lemma TakeOutTable(s: Snapshot, root: Frame, q: Path, f: Frame, c: Frame, r: Frame, g: Frame)
    requires TakingOut(s, root, q, f, c) && Reached(s, r, g) && g != c
    ensures Reached(TakenOut(s, f, q[|q| - 1], c), r, g)
  {
    assert WellPlaced(s.owner, g);
    var p := s.owner[g].path;
    if r == root {
      TakeOutWalk(s, root, q, f, c, p);
      assert q <= p ==> p == q || Below(q, p);
    } else {
      TakeOutElsewhere(s, root, q, f, c, r, p);
    }
  }

  lemma TakeOutApart(s: Snapshot, root: Frame, q: Path, f: Frame, c: Frame, r: Frame, k: Index)
    requires TakingOut(s, root, q, f, c) && IsRoot(s.owner, r) && r != root && k < 256
    ensures Apart(TakenOut(s, f, q[|q| - 1], c), root, r, k)
  {
    assert Apart(s, root, r, k);
    TakeOutElsewhere(s, root, q, f, c, r, [k]);
    WalkOne(s.mem, r, k);
    WalkOne(TakenOut(s, f, q[|q| - 1], c).mem, r, k);
    TakeOutWalk(s, root, q, f, c, [k]);
    WalkOne(s.mem, root, k);
    WalkOne(TakenOut(s, f, q[|q| - 1], c).mem, root, k);
  }

  lemma TakeOutSpace(s: Snapshot, root: Frame, q: Path, f: Frame, c: Frame)
    requires TakingOut(s, root, q, f, c)
    ensures Droppable(TakenOut(s, f, q[|q| - 1], c), root)
  {
    var s' := TakenOut(s, f, q[|q| - 1], c);
    TakeOutTree(s, root, q, f, c);
    DroppableEditable(s, root);
    hide Walk, Tree;
    forall g | g in s'.owner ensures InSomeSpace(s', g) {
      assert InSomeSpace(s, g);
      var r :| Reached(s, r, g);
      TakeOutTable(s, root, q, f, c, r, g);
    }
    forall r, k: Index | IsRoot(s'.owner, r) && r != root && k < 256 ensures Apart(s', root, r, k) {
      TakeOutApart(s, root, q, f, c, r, k);
    }
    assert s.owner[c].path == q != [];
  }

  lemma TakeOut(s: Snapshot, root: Frame, q: Path, f: Frame, c: Frame)
    requires TakingOut(s, root, q, f, c)
    ensures Droppable(TakenOut(s, f, q[|q| - 1], c), root)
    ensures forall p: Path {:trigger Walk(TakenOut(s, f, q[|q| - 1], c).mem, root, p)} :: Proper(p) && |p| <= 4 ==>
              Walk(TakenOut(s, f, q[|q| - 1], c).mem, root, p) == if q <= p then None else Walk(s.mem, root, p)
    ensures OthersKept(s, TakenOut(s, f, q[|q| - 1], c), root)
  {
    TakeOutSpace(s, root, q, f, c);
    hide Droppable, Walk, Removable;
    var s' := TakenOut(s, f, q[|q| - 1], c);
    forall p: Path | Proper(p) && |p| <= 4
      ensures Walk(s'.mem, root, p) == if q <= p then None else Walk(s.mem, root, p)
    {
      TakeOutWalk(s, root, q, f, c, p);
    }
    forall r, p: Path | IsRoot(s.owner, r) && r != root && Proper(p) && |p| <= 4 ensures WalkKept(s, s', r, p) {
      TakeOutElsewhere(s, root, q, f, c, r, p);
    }
    assert s.owner[c].path == q != [];
  }

  // ---------------------------------------------------------------------------------------------
  // Taking out all tables below a prefix, slot by slot
  // ---------------------------------------------------------------------------------------------

  /** The path `p` goes through one of the first `k` entries of the table at `prefix`. */
  predicate Under(p: Path, prefix: Path, k: nat) {
    prefix < p && p[|prefix|] < k
  }

  /** The order in which the loops meet tables: children before their parent, lower entries first. */
  predicate Before(p: Path, q: Path) {
    if q == [] then p != []
    else if p == [] then false
    else if p[0] != q[0] then p[0] < q[0]
    else Before(p[1..], q[1..])
  }

  lemma {:induction false} BelowComesFirst(p: Path, q: Path)
    requires Below(q, p)
    ensures Before(p, q)
    decreases |q|
  {
    if q != [] {
      BelowComesFirst(p[1..], q[1..]);
    }
  }

  lemma {:induction false} LowerComesFirst(p: Path, q: Path, prefix: Path, k: Index)
    requires Under(p, prefix, k) && prefix + [k] <= q
    ensures Before(p, q)
    decreases |prefix|
  {
    if prefix == [] {
      assert q[0] == k;
    } else {
      assert q[0] == prefix[0] && (prefix + [k])[1..] == prefix[1..] + [k];
      LowerComesFirst(p[1..], q[1..], prefix[1..], k);
    }
  }

  ghost predicate InOrder(owner: Owner, xs: seq<Frame>) {
    forall i, j {:trigger xs[i], xs[j]} :: 0 <= i < j < |xs| && xs[i] in owner && xs[j] in owner ==>
      Before(owner[xs[i]].path, owner[xs[j]].path)
  }

  lemma OrderJoin(owner: Owner, xs: seq<Frame>, ys: seq<Frame>)
    requires InOrder(owner, xs) && InOrder(owner, ys)
    requires forall x, y {:trigger owner[x], owner[y]} :: x in xs && y in ys && x in owner && y in owner ==>
               Before(owner[x].path, owner[y].path)
    ensures InOrder(owner, xs + ys)
  {
    forall i, j | 0 <= i < j < |xs + ys| && (xs + ys)[i] in owner && (xs + ys)[j] in owner
      ensures Before(owner[(xs + ys)[i]].path, owner[(xs + ys)[j]].path)
    {
      if i < |xs| <= j { assert xs[i] in xs && ys[j - |xs|] in ys; }
    }
  }

  /** The table `f` is reached from `root` below the first `k` entries of the table at `prefix`. */
  ghost predicate ToGo(s: Snapshot, root: Frame, prefix: Path, k: nat, f: Frame) {
    Reached(s, root, f) && Under(s.owner[f].path, prefix, k)
  }

  /** Everything that `root` reached below the first `k` entries of the table at `prefix` is gone: the tables were given
      back, once each and nothing else with them, and no other walk changed in any space. */
  ghost predicate Dropped(s0: Snapshot, s1: Snapshot, root: Frame, prefix: Path, k: nat, given: seq<Frame>) {
    Whole(
      && Droppable(s1, root) && s1.mem.Keys == s0.mem.Keys
      && (forall f {:trigger f in s1.owner} :: f in s1.owner <==> f in s0.owner && !ToGo(s0, root, prefix, k, f))
      && (forall f {:trigger s1.owner[f]} :: f in s1.owner ==> s1.owner[f] == s0.owner[f])
      && (forall p: Path {:trigger Walk(s1.mem, root, p)} :: Proper(p) && |p| <= 4 ==>
            Walk(s1.mem, root, p) == if Under(p, prefix, k) then None else Walk(s0.mem, root, p))
      && OthersKept(s0, s1, root)
      && (forall f {:trigger f in given} :: f in given <==> ToGo(s0, root, prefix, k, f))
      && NoDuplicates(given) && InOrder(s0.owner, given)
      && s1.free == s0.free + (set f | f in given))
  }

  lemma DroppedNothing(s: Snapshot, root: Frame, prefix: Path)
    requires Droppable(s, root)
    ensures Dropped(s, s, root, prefix, 0, [])
  {
    forall f ensures !ToGo(s, root, prefix, 0, f) {}
    assert forall r, p: Path :: WalkKept(s, s, r, p);
  }

  /** No table hangs below an entry that is not present. */
  lemma NothingBelow(s: Snapshot, root: Frame, q: Path, f: Frame)
    requires Reached(s, root, f) && Walk(s.mem, root, q).None?
    ensures !(q <= s.owner[f].path)
  {
    if q <= s.owner[f].path {
      WalkBelowNone(s.mem, root, q, s.owner[f].path);
    }
  }

  lemma UnderNext(p: Path, prefix: Path, k: Index)
    ensures Under(p, prefix, k + 1) <==> Under(p, prefix, k) || prefix + [k] <= p
    ensures Under(p, prefix, 512) <==> prefix < p
    ensures !(Under(p, prefix, k) && prefix + [k] <= p)
    ensures prefix + [k] <= p <==> p == prefix + [k] || Below(prefix + [k], p)
  {
  }

  /** An entry that is not present is skipped. */
  lemma SkipOwner(s0: Snapshot, root: Frame, prefix: Path, k: Index, f: Frame)
    requires Walk(s0.mem, root, prefix + [k]).None?
    ensures ToGo(s0, root, prefix, k + 1, f) <==> ToGo(s0, root, prefix, k, f)
  {
    if Reached(s0, root, f) {
      UnderNext(s0.owner[f].path, prefix, k);
      NothingBelow(s0, root, prefix + [k], f);
    }
  }

  lemma SkipWalk(m0: Memory, m1: Memory, root: Frame, prefix: Path, k: Index, p: Path)
    requires Walk(m1, root, prefix + [k]).None?
    requires Walk(m1, root, p) == if Under(p, prefix, k) then None else Walk(m0, root, p)
    ensures Walk(m1, root, p) == if Under(p, prefix, k + 1) then None else Walk(m0, root, p)
  {
    UnderNext(p, prefix, k);
    if prefix + [k] <= p {
      WalkBelowNone(m1, root, prefix + [k], p);
    }
  }

  lemma DroppedWalk(s0: Snapshot, s1: Snapshot, root: Frame, prefix: Path, k: nat, given: seq<Frame>, p: Path)
    requires Dropped(s0, s1, root, prefix, k, given) && Proper(p) && |p| <= 4
    ensures Walk(s1.mem, root, p) == if Under(p, prefix, k) then None else Walk(s0.mem, root, p)
  {
  }

  lemma DropSkips(s0: Snapshot, s1: Snapshot, root: Frame, prefix: Path, k: Index, given: seq<Frame>)
    requires Dropped(s0, s1, root, prefix, k, given) && |prefix| <= 2 && Proper(prefix + [k])
    requires Walk(s1.mem, root, prefix + [k]).None?
    ensures Dropped(s0, s1, root, prefix, k + 1, given)
  {
    hide Droppable, Walk, Under, ToGo, OthersKept;
    UnderNext(prefix + [k], prefix, k);
    DroppedWalk(s0, s1, root, prefix, k, given, prefix + [k]);
    forall f
      ensures ToGo(s0, root, prefix, k + 1, f) <==> ToGo(s0, root, prefix, k, f)
    {
      SkipOwner(s0, root, prefix, k, f);
    }
    forall p: Path | Proper(p) && |p| <= 4
      ensures Walk(s1.mem, root, p) == if Under(p, prefix, k + 1) then None else Walk(s0.mem, root, p)
    {
      DroppedWalk(s0, s1, root, prefix, k, given, p);
      SkipWalk(s0.mem, s1.mem, root, prefix, k, p);
    }
  }

  ghost predicate ToEmpty(s: Snapshot, root: Frame, q: Path, f: Frame) {
    Reached(s, root, f) && Below(q, s.owner[f].path)
  }

  /** All tables that `root` reached strictly below the table at `q` are gone; walks that stay above it did not
      change. */
  ghost predicate Emptied(s1: Snapshot, s2: Snapshot, root: Frame, q: Path, given: seq<Frame>) {
    Whole(
      && Droppable(s2, root) && s2.mem.Keys == s1.mem.Keys
      && (forall f {:trigger f in s2.owner} :: f in s2.owner <==> f in s1.owner && !ToEmpty(s1, root, q, f))
      && (forall f {:trigger s2.owner[f]} :: f in s2.owner ==> s2.owner[f] == s1.owner[f])
      && (forall p: Path {:trigger Walk(s2.mem, root, p)} :: Proper(p) && |p| <= 4 && !Below(q, p) ==>
            Walk(s2.mem, root, p) == Walk(s1.mem, root, p))
      && (forall p: Path {:trigger Walk(s2.mem, root, p)} :: |p| <= 3 && Below(q, p) && Proper(p) ==>
             Walk(s2.mem, root, p).None?)
      && OthersKept(s1, s2, root)
      && (forall f {:trigger f in given} :: f in given <==> ToEmpty(s1, root, q, f))
      && NoDuplicates(given) && InOrder(s1.owner, given)
      && s2.free == s1.free + (set f | f in given))
  }

  lemma DroppedInOrder(s0: Snapshot, s1: Snapshot, root: Frame, prefix: Path, k: nat, given: seq<Frame>)
    requires Dropped(s0, s1, root, prefix, k, given)
    ensures NoDuplicates(given) && InOrder(s0.owner, given)
  {
  }

  lemma DroppedEmpties(s1: Snapshot, s2: Snapshot, root: Frame, q: Path, given: seq<Frame>)
    requires Dropped(s1, s2, root, q, 512, given)
    ensures Emptied(s1, s2, root, q, given)
  {
    assert forall p: Path :: Under(p, q, 512) <==> Below(q, p);
    assert forall f :: ToGo(s1, root, q, 512, f) <==> ToEmpty(s1, root, q, f);
  }

  /** A page table has no tables below it. */
  lemma PageTableIsEmpty(s: Snapshot, root: Frame, q: Path)
    requires Droppable(s, root) && |q| == 3
    ensures Emptied(s, s, root, q, [])
  {
    forall f ensures !ToEmpty(s, root, q, f) {
      if f in s.owner { assert WellPlaced(s.owner, f); }
    }
    assert forall r, p: Path :: WalkKept(s, s, r, p);
  }

  lemma EmptiedRemovable(s1: Snapshot, s2: Snapshot, root: Frame, q: Path, given: seq<Frame>, c: Frame)
    requires Emptied(s1, s2, root, q, given) && 1 <= |q| <= 3 && q[0] < 256 && Walk(s1.mem, root, q) == Some(c)
    ensures Removable(s2, root, q, c)
  {
    assert !Below(q, q);
    forall g | Reached(s2, root, g) ensures !Below(q, s2.owner[g].path) {
      EmptiedReached(s1, s2, root, q, given, g);
    }
  }

  /** What is still reached from `root` is what was reached and does not lie below the table at `q`. */
  lemma EmptiedReached(s1: Snapshot, s2: Snapshot, root: Frame, q: Path, given: seq<Frame>, g: Frame)
    requires Emptied(s1, s2, root, q, given)
    ensures Reached(s2, root, g) <==> Reached(s1, root, g) && !ToEmpty(s1, root, q, g)
  {
    hide Walk, InOrder, NoDuplicates, AllReached;
    if g in s2.owner { assert WellPlaced(s2.owner, g); }
  }

  /** The state after the tables below entry `k` and then the table at that entry are taken out. */
  ghost predicate DropMoves(s0: Snapshot, s1: Snapshot, s2: Snapshot, root: Frame, prefix: Path, k: Index,
                            given: seq<Frame>, below: seq<Frame>, f: Frame, c: Frame) {
    Whole(
      && |prefix| <= 2 && (prefix + [k])[0] < 256
      && Dropped(s0, s1, root, prefix, k, given)
      && Emptied(s1, s2, root, prefix + [k], below)
      && TakingOut(s2, root, prefix + [k], f, c))
  }

  /** Of what `root` reached there is left what does not lie below the first `k` entries. */
  lemma DroppedReached(s0: Snapshot, s1: Snapshot, root: Frame, prefix: Path, k: nat, given: seq<Frame>, g: Frame)
    requires Dropped(s0, s1, root, prefix, k, given)
    ensures Reached(s1, root, g) <==> Reached(s0, root, g) && !ToGo(s0, root, prefix, k, g)
  {
    hide Walk, InOrder, NoDuplicates, AllReached, Under;
    if g in s1.owner { assert WellPlaced(s1.owner, g); }
  }

  lemma DropTaking(s0: Snapshot, s1: Snapshot, s2: Snapshot, root: Frame, prefix: Path, k: Index, given: seq<Frame>,
                   below: seq<Frame>, f: Frame, c: Frame)
    requires DropMoves(s0, s1, s2, root, prefix, k, given, below, f, c)
    ensures Reached(s2, root, c) && s2.owner[c].path == prefix + [k]
  {
  }

  /** The table that is taken out last was reached all the time. */
  lemma DropChild(s0: Snapshot, s1: Snapshot, s2: Snapshot, root: Frame, prefix: Path, k: Index, given: seq<Frame>,
                  below: seq<Frame>, f: Frame, c: Frame)
    requires DropMoves(s0, s1, s2, root, prefix, k, given, below, f, c)
    ensures Reached(s0, root, c) && Reached(s1, root, c) && Reached(s2, root, c)
    ensures s0.owner[c].path == s1.owner[c].path == s2.owner[c].path == prefix + [k]
  {
    hide Walk, InOrder, NoDuplicates, Removable, Droppable, OthersKept, ToGo, ToEmpty;
    DropTaking(s0, s1, s2, root, prefix, k, given, below, f, c);
    EmptiedReached(s1, s2, root, prefix + [k], below, c);
    DroppedReached(s0, s1, root, prefix, k, given, c);
  }

  lemma DropOwners(s0: Snapshot, s1: Snapshot, s2: Snapshot, root: Frame, prefix: Path, k: Index, given: seq<Frame>,
                   below: seq<Frame>, f: Frame, c: Frame, g: Frame)
    requires DropMoves(s0, s1, s2, root, prefix, k, given, below, f, c)
    ensures g in s2.owner && g != c <==> g in s0.owner && !ToGo(s0, root, prefix, k + 1, g)
    ensures g in given + below + [c] <==> ToGo(s0, root, prefix, k + 1, g)
    ensures g in given ==> g !in below && g != c
    ensures g in below ==> g != c
    ensures g in s2.owner ==> g in s0.owner && s2.owner[g] == s0.owner[g]
  {
    hide Walk, InOrder, NoDuplicates, Droppable, OthersKept, TakingOut, Under, Reached;
    var q := prefix + [k];
    assert !Below(q, q);
    hide Below;
    DropChild(s0, s1, s2, root, prefix, k, given, below, f, c);
    DroppedReached(s0, s1, root, prefix, k, given, g);
    DropSame(s0, root, q, c, g);
    UnderNext(q, prefix, k);
    if g in s0.owner { UnderNext(s0.owner[g].path, prefix, k); }
    assert g in given + below + [c] <==> g in given || g in below || g == c;
  }

  /** No two tables are reached at one place. */
  lemma DropSame(s: Snapshot, root: Frame, q: Path, c: Frame, g: Frame)
    requires Reached(s, root, c) && s.owner[c].path == q
    ensures Reached(s, root, g) && s.owner[g].path == q ==> g == c
    ensures Reached(s, root, g) ==> g in s.owner
  {
  }

  lemma DropWalks(s0: Snapshot, s1: Snapshot, s2: Snapshot, root: Frame, prefix: Path, k: Index, given: seq<Frame>,
                  below: seq<Frame>, f: Frame, c: Frame, p: Path)
    requires DropMoves(s0, s1, s2, root, prefix, k, given, below, f, c) && Proper(p) && |p| <= 4
    ensures Walk(TakenOut(s2, f, k, c).mem, root, p) == if Under(p, prefix, k + 1) then None else Walk(s0.mem, root, p)
  {
    hide InOrder, NoDuplicates, Droppable, OthersKept, ToGo, ToEmpty, Reached, Under;
    var q := prefix + [k];
    assert q[|q| - 1] == k;
    TakeOutWalk(s2, root, q, f, c, p);
    UnderNext(p, prefix, k);
    if !(q <= p) {
      assert Walk(s2.mem, root, p) == Walk(s1.mem, root, p);
    }
  }

  lemma DropLists(s0: Snapshot, s1: Snapshot, s2: Snapshot, root: Frame, prefix: Path, k: Index, given: seq<Frame>,
                  below: seq<Frame>, f: Frame, c: Frame)
    requires DropMoves(s0, s1, s2, root, prefix, k, given, below, f, c)
    ensures NoDuplicates(given + below + [c])
    ensures s2.free + {c} == s0.free + (set g | g in given + below + [c])
  {
    hide TakingOut, Droppable, Walk, OthersKept, ToGo, ToEmpty;
    forall g
      ensures g in given ==> g !in below && g != c
      ensures g in below ==> g != c
    {
      DropOwners(s0, s1, s2, root, prefix, k, given, below, f, c, g);
    }
    NoDuplicatesJoin(given, below);
    NoDuplicatesJoin(given + below, [c]);
  }

  lemma DropPlaces(s0: Snapshot, s1: Snapshot, s2: Snapshot, root: Frame, prefix: Path, k: Index, given: seq<Frame>,
                   below: seq<Frame>, f: Frame, c: Frame)
    requires DropMoves(s0, s1, s2, root, prefix, k, given, below, f, c)
    ensures s2.mem.Keys == s0.mem.Keys && f in s2.mem && TakingOut(s2, root, prefix + [k], f, c)
  {
    hide Droppable, Under, Walk, OthersKept, ToGo, ToEmpty, TakingOut;
    DropFits(s0, s1, s2, root, prefix, k, given, below, f, c);
  }

  lemma DropFits(s0: Snapshot, s1: Snapshot, s2: Snapshot, root: Frame, prefix: Path, k: Index, given: seq<Frame>,
                 below: seq<Frame>, f: Frame, c: Frame)
    requires DropMoves(s0, s1, s2, root, prefix, k, given, below, f, c)
    ensures f in s2.mem && TakingOut(s2, root, prefix + [k], f, c)
  {
  }

  lemma DropOrder(s0: Snapshot, s1: Snapshot, s2: Snapshot, root: Frame, prefix: Path, k: Index, given: seq<Frame>,
                  below: seq<Frame>, f: Frame, c: Frame)
    requires DropMoves(s0, s1, s2, root, prefix, k, given, below, f, c)
    ensures InOrder(s0.owner, given + below + [c])
  {
    hide TakingOut, Droppable, Under, Walk, OthersKept, Reached;
    var o, q := s0.owner, prefix + [k];
    DropListed(s0, s1, s2, root, prefix, k, given, below, f, c);
    hide DropMoves;
    forall x, y | x in given && y in below + [c] && x in o && y in o ensures Before(o[x].path, o[y].path) {
      LowerComesFirst(o[x].path, o[y].path, prefix, k);
    }
    forall x | x in below && x in o ensures Before(o[x].path, q) {
      BelowComesFirst(o[x].path, q);
    }
    OrderJoin(o, below, [c]);
    OrderJoin(o, given, below + [c]);
    assert given + below + [c] == given + (below + [c]);
  }

  /** Where the tables given back hung at the start. */
  lemma DropListed(s0: Snapshot, s1: Snapshot, s2: Snapshot, root: Frame, prefix: Path, k: Index, given: seq<Frame>,
                   below: seq<Frame>, f: Frame, c: Frame)
    requires DropMoves(s0, s1, s2, root, prefix, k, given, below, f, c)
    ensures InOrder(s0.owner, given) && InOrder(s0.owner, below)
    ensures forall x {:trigger x in given} :: x in given ==> x in s0.owner && Under(s0.owner[x].path, prefix, k)
    ensures forall x {:trigger x in below} :: x in below ==> x in s0.owner && Below(prefix + [k], s0.owner[x].path)
    ensures c in s0.owner && s0.owner[c].path == prefix + [k]
  {
    hide Droppable, Under, Walk, OthersKept, TakingOut;
    DropChild(s0, s1, s2, root, prefix, k, given, below, f, c);
    forall x | x in below ensures x in s1.owner && s1.owner[x] == s0.owner[x] &&
           Below(prefix + [k], s1.owner[x].path) {}
  }

  lemma DropOthers(s0: Snapshot, s1: Snapshot, s2: Snapshot, root: Frame, prefix: Path, k: Index, given: seq<Frame>,
                   below: seq<Frame>, f: Frame, c: Frame)
    requires DropMoves(s0, s1, s2, root, prefix, k, given, below, f, c) && f in s2.mem
    ensures OthersKept(s0, TakenOut(s2, f, k, c), root) && Droppable(TakenOut(s2, f, k, c), root)
  {
    hide Droppable, Removable, Walk, OthersKept, InOrder, NoDuplicates, ToGo, ToEmpty, Reached, Tree;
    assert (prefix + [k])[|prefix + [k]| - 1] == k;
    TakeOut(s2, root, prefix + [k], f, c);
    OthersKeptTrans(s0, s1, s2, root);
    OthersKeptTrans(s0, s2, TakenOut(s2, f, k, c), root);
  }

  lemma DropTakes(s0: Snapshot, s1: Snapshot, s2: Snapshot, root: Frame, prefix: Path, k: Index, given: seq<Frame>,
                  below: seq<Frame>, f: Frame, c: Frame)
    requires DropMoves(s0, s1, s2, root, prefix, k, given, below, f, c) && f in s2.mem
    ensures Dropped(s0, TakenOut(s2, f, k, c), root, prefix, k + 1, given + below + [c])
  {
    hide TakingOut, Droppable, DropMoves, InOrder, NoDuplicates, Under, ToGo, OthersKept, Walk;
    DropLists(s0, s1, s2, root, prefix, k, given, below, f, c);
    DropOrder(s0, s1, s2, root, prefix, k, given, below, f, c);
    DropPlaces(s0, s1, s2, root, prefix, k, given, below, f, c);
    DropOthers(s0, s1, s2, root, prefix, k, given, below, f, c);
    var s3 := TakenOut(s2, f, k, c);
    forall g
      ensures g in s3.owner <==> g in s0.owner && !ToGo(s0, root, prefix, k + 1, g)
      ensures g in given + below + [c] <==> ToGo(s0, root, prefix, k + 1, g)
      ensures g in s3.owner ==> g in s0.owner && s3.owner[g] == s0.owner[g]
    {
      DropOwners(s0, s1, s2, root, prefix, k, given, below, f, c, g);
    }
    forall p: Path | Proper(p) && |p| <= 4
      ensures Walk(s3.mem, root, p) == if Under(p, prefix, k + 1) then None else Walk(s0.mem, root, p)
    {
      DropWalks(s0, s1, s2, root, prefix, k, given, below, f, c, p);
    }
  }

  lemma DroppedSpace(s0: Snapshot, s1: Snapshot, root: Frame, prefix: Path, k: nat, given: seq<Frame>)
    requires Dropped(s0, s1, root, prefix, k, given)
    ensures Droppable(s1, root) && Editable(s1, root, SELF, root)
    ensures Proper(prefix) && |prefix| <= 3 ==> Walk(s1.mem, root, prefix) == Walk(s0.mem, root, prefix)
  {
    hide Droppable, Walk, OthersKept, InOrder, NoDuplicates, ToGo;
    DroppableEditable(s1, root);
    assert !Under(prefix, prefix, k);
  }

  /** The entry `k` of the table at `prefix` is found present: the table that it leads to. */
  lemma ChildFound(s: Snapshot, root: Frame, prefix: Path, k: Index)
    requires Droppable(s, root) && |prefix| <= 2 && Proper(prefix + [k]) && Proper(prefix)
    requires Walk(s.mem, root, prefix).Some?
    ensures var f := Walk(s.mem, root, prefix).value;
            f in s.mem && Walk(s.mem, root, prefix + [k]) == if s.mem[f][k].present then Some(s.mem[f][k].address)
              else None
  {
    PlaceOfWalk(s.mem, s.owner, root, prefix);
    WalkSnoc(s.mem, root, prefix, k);
  }

  /** Once the tables below entry `k` are gone, the table at that entry can be taken out. */
  lemma ReadyToTake(s0: Snapshot, s1: Snapshot, s2: Snapshot, root: Frame, prefix: Path, k: Index, given: seq<Frame>,
                    below: seq<Frame>, c: Frame)
    requires |prefix| <= 2 && (prefix + [k])[0] < 256 && Proper(prefix)
    requires Dropped(s0, s1, root, prefix, k, given) && Emptied(s1, s2, root, prefix + [k], below)
    requires Walk(s1.mem, root, prefix + [k]) == Some(c)
    ensures Walk(s2.mem, root, prefix).Some?
    ensures DropMoves(s0, s1, s2, root, prefix, k, given, below, Walk(s2.mem, root, prefix).value, c)
  {
    hide Dropped, InOrder, NoDuplicates, Droppable, OthersKept, Walk;
    var q := prefix + [k];
    EmptiedRemovable(s1, s2, root, q, below, c);
    TakingOutPlaces(s2, root, q, c);
    assert q[..|q| - 1] == prefix;
  }

  /** Taking out the table at entry `k`, once the tables below it are gone. */
  lemma EntryTaken(s0: Snapshot, s1: Snapshot, s2: Snapshot, root: Frame, prefix: Path, k: Index, given: seq<Frame>,
                   below: seq<Frame>, c: Frame)
    requires |prefix| <= 2 && (prefix + [k])[0] < 256 && Proper(prefix)
    requires Dropped(s0, s1, root, prefix, k, given) && Emptied(s1, s2, root, prefix + [k], below)
    requires Walk(s1.mem, root, prefix + [k]) == Some(c)
    ensures Walk(s2.mem, root, prefix).Some?
    ensures var f := Walk(s2.mem, root, prefix).value;
            && f in s2.mem && TakingOut(s2, root, prefix + [k], f, c)
            && Dropped(s0, TakenOut(s2, f, k, c), root, prefix, k + 1, given + below + [c])
  {
    hide Dropped, Emptied, Droppable, DropMoves, Removable;
    ReadyToTake(s0, s1, s2, root, prefix, k, given, below, c);
    var f := Walk(s2.mem, root, prefix).value;
    DropPlaces(s0, s1, s2, root, prefix, k, given, below, f, c);
    DropTakes(s0, s1, s2, root, prefix, k, given, below, f, c);
  }

  /** Nothing was written but the first `k` slots, which are absent. */
  ghost predicate OnlySlotsCleared(m0: Memory, m1: Memory, root: Frame, k: nat) {
    && m1.Keys == m0.Keys && root in m0 && k <= 512
    && (forall f {:trigger m1[f]} :: f in m0 && f != root ==> m1[f] == m0[f])
    && (forall i: Index {:trigger m1[root][i]} :: if i < k then !m1[root][i].present else m1[root][i] == m0[root][i])
  }

  /** The lower half of a space that has lost its first `k` slots. */
  ghost predicate Cut(s0: Snapshot, s1: Snapshot, root: Frame, k: nat) {
    Whole(
      && Sound(s1) && Editable(s1, root, SELF, root) && s1.owner == s0.owner && s1.free == s0.free
      && OnlySlotsCleared(s0.mem, s1.mem, root, k)
      && (forall p: Path {:trigger Walk(s1.mem, root, p)} :: Proper(p) && |p| <= 4 ==>
            Walk(s1.mem, root, p) == if Under(p, [], k) then None else Walk(s0.mem, root, p)))
  }

  lemma CutNothing(s: Snapshot, root: Frame)
    requires Sound(s) && Editable(s, root, SELF, root)
    ensures Cut(s, s, root, 0)
  {
  }

  /** Clearing the presence of one slot. */
  lemma CutWalk(s: Snapshot, root: Frame, k: Index, e: Entry, p: Path)
    requires Tree(s.mem, s.owner) && IsRoot(s.owner, root) && root in s.mem && !e.present && Proper(p) && |p| <= 4
    requires !IsWindow(k)
    ensures Walk(Put(s.mem, root, k, e), root, p) == if [k] <= p then None else Walk(s.mem, root, p)
  {
    assert [] + [k] == [k];
    if [k] <= p {
      PutHere(s.mem, s.owner, root, k, e, root);
      WalkBelowNone(Put(s.mem, root, k, e), root, [k], p);
    } else {
      PutLocal(s.mem, s.owner, root, k, e, root, p);
    }
  }

  lemma CutParts(s0: Snapshot, s1: Snapshot, root: Frame, k: nat)
    requires Cut(s0, s1, root, k)
    ensures Sound(s1) && Tree(s1.mem, s1.owner) && IsRoot(s1.owner, root) && s1.owner == s0.owner && s1.free == s0.free
    ensures OnlySlotsCleared(s0.mem, s1.mem, root, k) && Editable(s1, root, SELF, root)
    ensures forall p: Path {:trigger Walk(s1.mem, root, p)} :: Proper(p) && |p| <= 4 ==>
              Walk(s1.mem, root, p) == if Under(p, [], k) then None else Walk(s0.mem, root, p)
  {
  }

  lemma SlotsClearedNext(m0: Memory, m1: Memory, root: Frame, k: Index)
    requires OnlySlotsCleared(m0, m1, root, k)
    ensures OnlySlotsCleared(m0, Put(m1, root, k, m1[root][k].(present := false)), root, k + 1)
  {
  }

  lemma CutNextWalk(s0: Snapshot, s1: Snapshot, root: Frame, k: Index, e: Entry, p: Path)
    requires Cut(s0, s1, root, k) && !IsWindow(k) && root in s1.mem && !e.present && Proper(p) && |p| <= 4
    ensures Walk(Put(s1.mem, root, k, e), root, p) == if Under(p, [], k + 1) then None else Walk(s0.mem, root, p)
  {
    CutParts(s0, s1, root, k);
    hide Cut, Sound, Editable, Tree, Walk, IsRoot, OnlySlotsCleared;
    CutWalk(s1, root, k, e, p);
    UnderNext(p, [], k);
    assert [] + [k] == [k];
  }

  lemma CutNext(s0: Snapshot, s1: Snapshot, root: Frame, k: Index)
    requires Cut(s0, s1, root, k) && !IsWindow(k) && root in s1.mem
    ensures Cut(s0, s1.(mem := Put(s1.mem, root, k, s1.mem[root][k].(present := false))), root, k + 1)
  {
    var e := s1.mem[root][k].(present := false);
    var s2 := s1.(mem := Put(s1.mem, root, k, e));
    CutParts(s0, s1, root, k);
    CutTree(s1, root, k, e);
    SlotsClearedNext(s0.mem, s1.mem, root, k);
    hide Sound, Editable, Tree, Walk, IsRoot, OnlySlotsCleared, Under;
    forall p: Path | Proper(p) && |p| <= 4
      ensures Walk(s2.mem, root, p) == if Under(p, [], k + 1) then None else Walk(s0.mem, root, p)
    {
      CutNextWalk(s0, s1, root, k, e, p);
    }
  }

  lemma CutTree(s: Snapshot, root: Frame, k: Index, e: Entry)
    requires Sound(s) && IsRoot(s.owner, root) && !IsWindow(k) && !e.present && root in s.mem
    ensures Tree(s.mem, s.owner)
    ensures var s' := s.(mem := Put(s.mem, root, k, e)); Sound(s') && Editable(s', root, SELF, root)
  {
    var m' := Put(s.mem, root, k, e);
    forall g | g in s.owner
      ensures ChildrenPlaced(m', s.owner, g)
    {
      assert ChildrenPlaced(s.mem, s.owner, g);
    }
    forall r | IsRoot(s.owner, r)
      ensures Windows(m', s.owner, r)
    {
      assert Windows(s.mem, s.owner, r);
    }
  }

  /** The tables that are in use once the slots of the lower half are absent. The frames of the others are lost: they
      are neither tables nor free. */
  ghost function StillUsed(s: Snapshot, root: Frame): Owner {
    map f | f in s.owner && !ToGo(s, root, [], 256, f) :: s.owner[f]
  }

  /** All slots of the lower half were cleared, in a state in which that was possible. */
  ghost predicate CutOff(s0: Snapshot, s1: Snapshot, root: Frame) {
    Droppable(s0, root) && Cut(s0, s1, root, 256)
  }

  lemma CutOffParts(s0: Snapshot, s1: Snapshot, root: Frame)
    requires CutOff(s0, s1, root)
    ensures Sound(s0) && Tree(s0.mem, s0.owner) && IsRoot(s0.owner, root) && AllReached(s0)
    ensures forall r, k: Index {:trigger Apart(s0, root, r, k)} :: IsRoot(s0.owner, r) && r != root && k < 256 ==>
              Apart(s0, root, r, k)
  {
  }

  /** A table that hangs under a slot of the lower half is lost with it. */
  lemma LostWithSlot(s0: Snapshot, s1: Snapshot, root: Frame, g: Frame)
    requires CutOff(s0, s1, root) && g in s0.owner && s0.owner[g].path != [] && s0.owner[g].path[0] < 256
    requires Follow(s0.mem, root, s0.owner[g].path[0]) == Some(s0.owner[g].top)
    ensures ToGo(s0, root, [], 256, g)
  {
    HangsHere(s0, root, g);
  }

  lemma LostTop(s0: Snapshot, root: Frame, c: Frame)
    requires Tree(s0.mem, s0.owner) && ToGo(s0, root, [], 256, c)
    ensures s0.owner[c].path != [] && s0.owner[c].path[0] < 256
    ensures Follow(s0.mem, root, s0.owner[c].path[0]) == Some(s0.owner[c].top)
  {
    assert WellPlaced(s0.owner, c);
    PlaceOfWalk(s0.mem, s0.owner, root, s0.owner[c].path);
  }

  lemma UsedIsPlaced(s0: Snapshot, s1: Snapshot, root: Frame, g: Frame)
    requires CutOff(s0, s1, root) && g in StillUsed(s0, root)
    ensures WellPlaced(StillUsed(s0, root), g)
  {
    CutOffParts(s0, s1, root);
    assert WellPlaced(s0.owner, g);
    var t := s0.owner[g].top;
    if s0.owner[g].path != [] && ToGo(s0, root, [], 256, t) {
      LostTop(s0, root, t);
      LostWithSlot(s0, s1, root, g);
    }
  }

  /** No entry of a table that is still used leads to a lost one. */
  lemma UsedChild(s0: Snapshot, s1: Snapshot, root: Frame, g: Frame, j: Index)
    requires CutOff(s0, s1, root) && g in StillUsed(s0, root) && g in s0.mem && g in s1.mem
    requires |s0.owner[g].path| < 3 && Proper(s0.owner[g].path + [j]) && s1.mem[g][j].present
    ensures s0.mem[g][j] == s1.mem[g][j] && s0.mem[g][j].address in StillUsed(s0, root)
    ensures s0.owner[s0.mem[g][j].address] == ChildPlace(s0.owner[g], j, s0.mem[g][j].address)
  {
    CutOffParts(s0, s1, root);
    CutParts(s0, s1, root, 256);
    var c, p := s0.mem[g][j].address, s0.owner[g].path;
    assert g == root ==> j >= 256;
    assert WellPlaced(s0.owner, g);
    assert p == [] && g != root && j < 256 ==> Apart(s0, root, g, j);
    PlaceOfChild(s0.mem, s0.owner, g, j);
    if ToGo(s0, root, [], 256, c) {
      LostTop(s0, root, c);
      assert (p + [j])[0] == if p == [] then j else p[0];
      if p != [] { LostWithSlot(s0, s1, root, g); }
    }
  }

  lemma UsedTree(s0: Snapshot, s1: Snapshot, root: Frame)
    requires CutOff(s0, s1, root)
    ensures Tree(s1.mem, StillUsed(s0, root))
  {
    var owner := StillUsed(s0, root);
    CutOffParts(s0, s1, root);
    CutParts(s0, s1, root, 256);
    hide ToGo, Walk, CutOff;
    forall g | g in owner ensures WellPlaced(owner, g) && ChildrenPlaced(s1.mem, owner, g) {
      UsedIsPlaced(s0, s1, root, g);
      if |owner[g].path| < 3 {
        forall j: Index | s1.mem[g][j].present && (owner[g].path == [] ==> !IsWindow(j))
          ensures s1.mem[g][j].address in owner
          ensures owner[s1.mem[g][j].address] == ChildPlace(owner[g], j, s1.mem[g][j].address)
        {
          assert owner[g].path != [] ==> (owner[g].path + [j])[0] == owner[g].path[0];
          UsedChild(s0, s1, root, g, j);
        }
      }
    }
    forall r | IsRoot(owner, r) ensures Windows(s1.mem, owner, r) {
      assert Windows(s1.mem, s1.owner, r);
      if Follow(s1.mem, r, FOREIGN).Some? {
        RootIsUsed(s0, root, Follow(s1.mem, r, FOREIGN).value);
      }
    }
  }

  lemma RootIsUsed(s: Snapshot, root: Frame, r: Frame)
    ensures IsRoot(StillUsed(s, root), r) <==> IsRoot(s.owner, r)
  {
  }

  /** Other spaces do not look at the slots that are cleared. */
  lemma {:induction false} CutElsewhere(s0: Snapshot, s1: Snapshot, root: Frame, r: Frame, p: Path)
    requires CutOff(s0, s1, root) && IsRoot(s0.owner, r) && r != root && Proper(p) && |p| <= 4
    ensures Walk(s1.mem, r, p) == Walk(s0.mem, r, p)
    decreases |p|
  {
    if p != [] {
      var p0 := p[..|p| - 1];
      CutElsewhere(s0, s1, root, r, p0);
      CutOffParts(s0, s1, root);
      CutParts(s0, s1, root, 256);
      if Walk(s0.mem, r, p0).Some? {
        PlaceOfWalk(s0.mem, s0.owner, r, p0);
        assert Walk(s0.mem, r, p0).value != root;
      }
    }
  }

  lemma UsedReached(s0: Snapshot, s1: Snapshot, root: Frame, r: Frame, g: Frame)
    requires CutOff(s0, s1, root) && g in StillUsed(s0, root) && Reached(s0, r, g)
    ensures Reached(s1.(owner := StillUsed(s0, root)), r, g)
  {
    CutOffParts(s0, s1, root);
    assert WellPlaced(s0.owner, g);
    if r == root {
      CutParts(s0, s1, root, 256);
      assert Walk(s1.mem, root, s0.owner[g].path) == Walk(s0.mem, root, s0.owner[g].path);
    } else {
      CutElsewhere(s0, s1, root, r, s0.owner[g].path);
    }
  }

  /** Without giving anything back, too, the tables that are left are all in use, and other spaces see no difference. */
  lemma CutOffStaysDroppable(s0: Snapshot, s1: Snapshot, root: Frame)
    requires CutOff(s0, s1, root)
    ensures var s2 := s1.(owner := StillUsed(s0, root)); Droppable(s2, root) && OthersKept(s0, s2, root)
  {
    var s2 := s1.(owner := StillUsed(s0, root));
    CutOffParts(s0, s1, root);
    CutParts(s0, s1, root, 256);
    UsedTree(s0, s1, root);
    hide CutOff, Walk, ToGo, Tree;
    forall r ensures IsRoot(s2.owner, r) <==> IsRoot(s0.owner, r) { RootIsUsed(s0, root, r); }
    forall g | g in s2.owner ensures InSomeSpace(s2, g) {
      assert InSomeSpace(s0, g);
      var r :| Reached(s0, r, g);
      UsedReached(s0, s1, root, r, g);
    }
    forall r, p: Path | IsRoot(s0.owner, r) && r != root && Proper(p) && |p| <= 4 ensures WalkKept(s0, s2, r, p) {
      CutElsewhere(s0, s1, root, r, p);
    }
  }

  /** What a space translates after its lower half is gone. */
  ghost predicate LowerHalfGone(m0: Memory, m1: Memory, root: Frame) {
    forall n {:trigger Leaf(m1, root, n)} :: ProperPage(n) ==>
      Leaf(m1, root, n) == if PathOf(n)[0] < 256 then None else Leaf(m0, root, n)
  }

  ghost predicate LowerWalksGone(m0: Memory, m1: Memory, root: Frame) {
    forall p: Path {:trigger Walk(m1, root, p)} :: Proper(p) && |p| <= 4 ==>
      Walk(m1, root, p) == if Under(p, [], 256) then None else Walk(m0, root, p)
  }

  lemma WalksAreGone(m0: Memory, m1: Memory, root: Frame)
    requires LowerWalksGone(m0, m1, root)
    ensures LowerHalfGone(m0, m1, root)
  {
    forall n | ProperPage(n)
      ensures Leaf(m1, root, n) == if PathOf(n)[0] < 256 then None else Leaf(m0, root, n)
    {
      ProperPageIsProper(n);
      assert Walk(m1, root, PathOf(n)) == Leaf(m1, root, n);
    }
  }

  lemma CutIsGone(s0: Snapshot, s1: Snapshot, root: Frame)
    requires Cut(s0, s1, root, 256)
    ensures LowerWalksGone(s0.mem, s1.mem, root) && LowerHalfGone(s0.mem, s1.mem, root) && s1.mem.Keys == s0.mem.Keys
  {
    WalksAreGone(s0.mem, s1.mem, root);
  }

  /** The lower half of one space was dropped; the frames `given` of its tables were given back, or lost. */
  ghost predicate LowerHalfDropped(s0: Snapshot, s1: Snapshot, root: Frame, given: seq<Frame>) {
    Whole(
      && Droppable(s0, root) && Droppable(s1, root)
      && LowerWalksGone(s0.mem, s1.mem, root) && OthersKept(s0, s1, root)
      && s1.owner == StillUsed(s0, root) && s1.free == s0.free + (set f | f in given))
  }

  lemma DroppedFree(s0: Snapshot, s1: Snapshot, root: Frame, given: seq<Frame>)
    requires Dropped(s0, s1, root, [], 256, given)
    ensures s1.free == s0.free + (set f | f in given)
  {
  }

  lemma DroppedIsGone(s0: Snapshot, s1: Snapshot, root: Frame, given: seq<Frame>)
    requires Droppable(s0, root) && Dropped(s0, s1, root, [], 256, given)
    ensures LowerHalfDropped(s0, s1, root, given) && LowerHalfGone(s0.mem, s1.mem, root)
    ensures forall f {:trigger f in given} :: f in given <==> ToGo(s0, root, [], 256, f)
  {
    hide Droppable, Walk, Under, ToGo, OthersKept, NoDuplicates, InOrder;
    assert LowerWalksGone(s0.mem, s1.mem, root);
    WalksAreGone(s0.mem, s1.mem, root);
    assert s1.owner == StillUsed(s0, root);
  }

  lemma CutIsDropped(s0: Snapshot, s1: Snapshot, root: Frame)
    requires CutOff(s0, s1, root)
    ensures LowerHalfDropped(s0, s1.(owner := StillUsed(s0, root)), root, [])
  {
    CutOffStaysDroppable(s0, s1, root);
    CutParts(s0, s1, root, 256);
    hide Droppable, Walk, Under, ToGo, OthersKept, CutOff;
    CutIsGone(s0, s1, root);
  }
}
