/** Four-level x86-64 page tables as values: physical memory, the walk of the MMU, the tree of tables
    and what one write to one table does to every walk. */
module PageTables {

  datatype Option<+T> = None | Some(value: T)

  /** A physical frame number, as wide as the 40-bit `address` field of an entry. */
  type Frame = f: int | 0 <= f < 0x100_0000_0000

  type Index = i: int | 0 <= i < 512

  /** One entry of any of the four levels. Lock, cache and statistics bits are not modelled. */
  datatype Entry = Entry(present: bool, readWrite: bool, user: bool, address: Frame)

  const EMPTY: Entry := Entry(false, false, false, 0)

  function Cleared(n: nat): (t: seq<Entry>)
    ensures |t| == n && forall i :: 0 <= i < n ==> t[i] == EMPTY
  {
    seq(n, _ => EMPTY)
  }

  type Table = t: seq<Entry> | |t| == 512 witness Cleared(512)

  /** The table that a constructor of any of the four levels leaves behind. */
  const EMPTY_TABLE: Table := Cleared(512)

  type Memory = map<Frame, Table>

  /** Indices from the root downwards; four of them name a page. */
  type Path = seq<Index>

  /** The slots of a PML4 through which tables are reached: the space itself and a foreign one. */
  const SELF: Index := 256
  const FOREIGN: Index := 257

  predicate IsWindow(i: Index) {
    i == SELF || i == FOREIGN
  }

  type Window = i: Index | IsWindow(i) witness SELF

  /** Paths that do not enter a paging window. */
  predicate Proper(q: Path) {
    q == [] || !IsWindow(q[0])
  }

  function Follow(m: Memory, t: Frame, i: Index): Option<Frame> {
    if t in m && m[t][i].present then Some(m[t][i].address) else None
  }

  /** The hardware walk from the table `r` along `q`. */
  function Walk(m: Memory, r: Frame, q: Path): Option<Frame>
    decreases |q|
  {
    if q == [] then Some(r)
    else match Walk(m, r, q[..|q| - 1])
      case None => None
      case Some(t) => Follow(m, t, q[|q| - 1])
  }

  lemma WalkNothing(m: Memory, r: Frame)
    ensures Walk(m, r, []) == Some(r)
  {
  }

  lemma WalkSnoc(m: Memory, r: Frame, q: Path, i: Index)
    ensures Walk(m, r, q + [i]) ==
            match Walk(m, r, q) case None => None case Some(t) => Follow(m, t, i)
  {
    assert (q + [i])[..|q + [i]| - 1] == q;
  }

  lemma WalkOne(m: Memory, r: Frame, i: Index)
    ensures Walk(m, r, [i]) == Follow(m, r, i)
  {
    assert [] + [i] == [i];
    WalkSnoc(m, r, [], i);
  }

  /** A walk whose first index leads to `t` continues from `t`. */
  lemma {:induction false} WalkThrough(m: Memory, r: Frame, k: Index, t: Frame, q: Path)
    requires Follow(m, r, k) == Some(t)
    ensures Walk(m, r, [k] + q) == Walk(m, t, q)
    decreases |q|
  {
    if q == [] {
      assert [k] + q == [k];
      WalkOne(m, r, k);
    } else {
      var q0 := q[..|q| - 1];
      WalkThrough(m, r, k, t, q0);
      assert [k] + q == ([k] + q0) + [q[|q| - 1]];
      WalkSnoc(m, r, [k] + q0, q[|q| - 1]);
    }
  }

  /** Nothing lies below a missing table. */
  lemma {:induction false} WalkBelowNone(m: Memory, r: Frame, p: Path, q: Path)
    requires Walk(m, r, p).None? && p <= q
    ensures Walk(m, r, q).None?
    decreases |q|
  {
    if p == q {
    } else {
      assert p <= q[..|q| - 1];
      WalkBelowNone(m, r, p, q[..|q| - 1]);
    }
  }

  lemma AboveWalk(m: Memory, r: Frame, p: Path, q: Path)
    requires Walk(m, r, q).Some? && p <= q
    ensures Walk(m, r, p).Some?
  {
    if Walk(m, r, p).None? {
      WalkBelowNone(m, r, p, q);
    }
  }

  /** The walk along `q` reads no entry of `f`. */
  ghost predicate Avoids(m: Memory, r: Frame, q: Path, f: Frame) {
    forall k :: 0 <= k < |q| ==> Walk(m, r, q[..k]) != Some(f)
  }

  /** What `f` holds does not matter to a walk that reads no entry of it. */
  lemma {:induction false} AvoidedWriteInvisible(m: Memory, m': Memory, r: Frame, q: Path, f: Frame)
    requires Avoids(m, r, q, f)
    requires m'.Keys == m.Keys && forall g :: g in m && g != f ==> m'[g] == m[g]
    ensures Walk(m', r, q) == Walk(m, r, q) && Avoids(m', r, q, f)
    decreases |q|
  {
    if q != [] {
      var q0 := q[..|q| - 1];
      assert forall k :: 0 <= k < |q0| ==> q0[..k] == q[..k];
      AvoidedWriteInvisible(m, m', r, q0, f);
      assert Walk(m, r, q[..|q0|]) != Some(f);
    }
  }

  // ---------------------------------------------------------------------------------------------
  // The tree of tables
  // ---------------------------------------------------------------------------------------------

  /** Where a table hangs: its path, and the PDPT it hangs under (itself for a PML4 or a PDPT). Two
      address spaces may share a PDPT, never anything smaller. */
  datatype Place = Place(path: Path, top: Frame)

  type Owner = map<Frame, Place>

  function ChildPlace(p: Place, i: Index, child: Frame): Place {
    Place(p.path + [i], if p.path == [] then child else p.top)
  }

  ghost predicate IsRoot(owner: Owner, r: Frame) {
    r in owner && owner[r] == Place([], r)
  }

  /** Every child of the table `f` hangs where `f` says it does. Page tables (paths of length three)
      have no child tables. */
  ghost predicate ChildrenPlaced(m: Memory, owner: Owner, f: Frame)
    requires f in owner && f in m
  {
    |owner[f].path| < 3 ==>
      forall i: Index :: m[f][i].present && (owner[f].path == [] ==> !IsWindow(i)) ==>
        m[f][i].address in owner && owner[m[f][i].address] == ChildPlace(owner[f], i, m[f][i].address)
  }

  ghost predicate Windows(m: Memory, owner: Owner, r: Frame) {
    && Follow(m, r, SELF) == Some(r)
    && (Follow(m, r, FOREIGN).Some? ==> IsRoot(owner, Follow(m, r, FOREIGN).value))
  }

  ghost predicate WellPlaced(owner: Owner, f: Frame)
    requires f in owner
  {
    && |owner[f].path| <= 3
    && Proper(owner[f].path)
    && (owner[f].path == [] ==> owner[f].top == f)
    && (owner[f].path != [] ==> owner[f].top in owner && owner[owner[f].top] == Place(owner[f].path[..1], owner[f].top))
  }

  /** The tree invariant for any number of address spaces. */
  ghost predicate Tree(m: Memory, owner: Owner) {
    && owner.Keys <= m.Keys
    && (forall f {:trigger WellPlaced(owner, f)} {:trigger ChildrenPlaced(m, owner, f)} ::
          f in owner ==> WellPlaced(owner, f) && ChildrenPlaced(m, owner, f))
    && (forall r {:trigger Windows(m, owner, r)} :: IsRoot(owner, r) ==> Windows(m, owner, r))
  }

  lemma PlaceOfChild(m: Memory, owner: Owner, t: Frame, i: Index)
    requires Tree(m, owner) && t in owner && |owner[t].path| < 3 && Proper(owner[t].path + [i])
    requires Follow(m, t, i).Some?
    ensures var c := Follow(m, t, i).value; c in owner && owner[c] == ChildPlace(owner[t], i, c)
  {
    assert ChildrenPlaced(m, owner, t);
    assert owner[t].path == [] ==> (owner[t].path + [i])[0] == i;
  }

  /** A walk that stays out of the windows meets every table at the place it hangs. */
  lemma {:induction false} PlaceOfWalk(m: Memory, owner: Owner, r: Frame, q: Path)
    requires Tree(m, owner) && IsRoot(owner, r) && Proper(q) && |q| <= 3
    requires Walk(m, r, q).Some?
    ensures var f := Walk(m, r, q).value;
            && f in owner && owner[f].path == q
            && (q != [] ==> Follow(m, r, q[0]) == Some(owner[f].top))
    decreases |q|
  {
    if q != [] {
      var q0, i := q[..|q| - 1], q[|q| - 1];
      assert q == q0 + [i];
      assert q0 != [] ==> q[0] == q0[0];
      PlaceOfWalk(m, owner, r, q0);
      PlaceOfChild(m, owner, Walk(m, r, q0).value, i);
    }
  }

  /** Any walk of at most three steps from a root ends at a table, also through the windows. */
  lemma {:induction false} TableOfWalk(m: Memory, owner: Owner, r: Frame, q: Path)
    requires Tree(m, owner) && IsRoot(owner, r) && |q| <= 3 && Walk(m, r, q).Some?
    ensures Walk(m, r, q).value in owner && |owner[Walk(m, r, q).value].path| <= |q|
    decreases |q|
  {
    if q != [] {
      var q0, i := q[..|q| - 1], q[|q| - 1];
      TableOfWalk(m, owner, r, q0);
      var t := Walk(m, r, q0).value;
      assert WellPlaced(owner, t) && ChildrenPlaced(m, owner, t);
      if owner[t].path == [] {
        assert IsRoot(owner, t);
        assert Windows(m, owner, t);
      }
    }
  }

  // ---------------------------------------------------------------------------------------------
  // Reaching tables through the windows
  // ---------------------------------------------------------------------------------------------

  function Pad(n: nat): (p: Path)
    ensures |p| == n && forall i :: 0 <= i < n ==> p[i] == SELF
  {
    if n == 0 then [] else [SELF] + Pad(n - 1)
  }

  /** The path of the window page that shows the table at `q` of the space installed in slot `id`. */
  function WindowPath(id: Window, q: Path): (p: Path)
    requires |q| <= 3
    ensures |p| == 4
  {
    [id] + Pad(3 - |q|) + q
  }

  /** The self entry may be taken any number of times. */
  lemma {:induction false} SkipSelf(m: Memory, root: Frame, n: nat, q: Path)
    requires Follow(m, root, SELF) == Some(root)
    ensures Walk(m, root, Pad(n) + q) == Walk(m, root, q)
  {
    if n == 0 {
      assert Pad(n) + q == q;
    } else {
      assert Pad(n) + q == [SELF] + (Pad(n - 1) + q);
      WalkThrough(m, root, SELF, root, Pad(n - 1) + q);
      SkipSelf(m, root, n - 1, q);
    }
  }

  lemma WindowWalk(m: Memory, current: Frame, id: Window, root: Frame, n: nat, q: Path)
    requires Follow(m, current, id) == Some(root) && Follow(m, root, SELF) == Some(root)
    ensures Walk(m, current, [id] + Pad(n) + q) == Walk(m, root, q)
  {
    assert [id] + Pad(n) + q == [id] + (Pad(n) + q);
    WalkThrough(m, current, id, root, Pad(n) + q);
    SkipSelf(m, root, n, q);
  }

  /** Recursive mapping: the MMU, walking the window page from the current root, lands on the frame of
      the table at `q` below `root`, or fails exactly when there is no such table. */
  lemma WindowShowsTable(m: Memory, current: Frame, id: Window, root: Frame, q: Path)
    requires |q| <= 3
    requires Follow(m, current, id) == Some(root) && Follow(m, root, SELF) == Some(root)
    ensures Walk(m, current, WindowPath(id, q)) == Walk(m, root, q)
  {
    WindowWalk(m, current, id, root, 3 - |q|, q);
  }

  /** On its way to a window page the MMU reads the current root and the tables above the one shown. */
  lemma WindowReads(m: Memory, current: Frame, id: Window, root: Frame, q: Path, k: nat)
    requires |q| <= 3 && k < 4
    requires Follow(m, current, id) == Some(root) && Follow(m, root, SELF) == Some(root)
    ensures Walk(m, current, WindowPath(id, q)[..k]) ==
            if k == 0 then Some(current) else Walk(m, root, if k + |q| <= 4 then [] else q[..k + |q| - 4])
  {
    if k > 0 {
      if k + |q| <= 4 {
        assert WindowPath(id, q)[..k] == [id] + Pad(k - 1) + [];
        WindowWalk(m, current, id, root, k - 1, []);
      } else {
        assert WindowPath(id, q)[..k] == [id] + Pad(3 - |q|) + q[..k + |q| - 4];
        WindowWalk(m, current, id, root, 3 - |q|, q[..k + |q| - 4]);
      }
    }
  }

  /** The MMU reads nothing of a table in order to show it. */
  lemma WindowAvoidsTable(m: Memory, owner: Owner, current: Frame, id: Window, root: Frame, q: Path, c: Frame)
    requires Tree(m, owner) && IsRoot(owner, root) && IsRoot(owner, current)
    requires 1 <= |q| <= 3 && Proper(q) && c in owner && owner[c].path == q
    requires Follow(m, current, id) == Some(root) && Follow(m, root, SELF) == Some(root)
    ensures Avoids(m, current, WindowPath(id, q), c)
  {
    forall k | 0 <= k < |WindowPath(id, q)|
      ensures Walk(m, current, WindowPath(id, q)[..k]) != Some(c)
    {
      WindowReads(m, current, id, root, q, k);
      var p := if k + |q| <= 4 then [] else q[..k + |q| - 4];
      if k > 0 && Walk(m, root, p).Some? {
        PlaceOfWalk(m, owner, root, p);
      }
    }
  }

  // ---------------------------------------------------------------------------------------------
  // One write to one table
  // ---------------------------------------------------------------------------------------------

  function Put(m: Memory, f: Frame, i: Index, e: Entry): Memory
    requires f in m
  {
    m[f := m[f][i := e]]
  }

  lemma PutTwice(m: Memory, f: Frame, i: Index, e: Entry, e': Entry)
    requires f in m
    ensures Put(Put(m, f, i, e), f, i, e') == Put(m, f, i, e')
  {
    assert m[f][i := e][i := e'] == m[f][i := e'];
  }

  /** A write to entry `i` of the table `f` is invisible to every proper walk that does not pass
      through that entry. */
  lemma {:induction false} PutLocal(m: Memory, owner: Owner, f: Frame, i: Index, e: Entry, r: Frame, q: Path)
    requires Tree(m, owner) && IsRoot(owner, r) && f in owner
    requires Proper(q) && |q| <= 4 && !(owner[f].path + [i] <= q)
    ensures Walk(Put(m, f, i, e), r, q) == Walk(m, r, q)
    decreases |q|
  {
    if q != [] {
      var q0, j := q[..|q| - 1], q[|q| - 1];
      assert q == q0 + [j];
      assert !(owner[f].path + [i] <= q0);
      PutLocal(m, owner, f, i, e, r, q0);
      if Walk(m, r, q0).Some? {
        PlaceOfWalk(m, owner, r, q0);
        assert !(Walk(m, r, q0).value == f && i == j);
      }
    }
  }

  /** What a walk that ends at the written entry sees. */
  lemma PutHere(m: Memory, owner: Owner, f: Frame, i: Index, e: Entry, r: Frame)
    requires Tree(m, owner) && IsRoot(owner, r) && f in owner && |owner[f].path| <= 3
    requires Proper(owner[f].path) && Walk(m, r, owner[f].path) == Some(f)
    ensures Walk(Put(m, f, i, e), r, owner[f].path + [i]) == if e.present then Some(e.address) else None
  {
    var p := owner[f].path;
    assert !(p + [i] <= p);
    PutLocal(m, owner, f, i, e, r, p);
    WalkSnoc(Put(m, f, i, e), r, p, i);
  }

  /** Rewriting an entry without touching presence or address changes no walk at all. */
  lemma {:induction false} PutSameTarget(m: Memory, f: Frame, i: Index, e: Entry, r: Frame, q: Path)
    requires f in m && e.present == m[f][i].present && e.address == m[f][i].address
    ensures Walk(Put(m, f, i, e), r, q) == Walk(m, r, q)
    decreases |q|
  {
    if q != [] {
      PutSameTarget(m, f, i, e, r, q[..|q| - 1]);
    }
  }

  /** The contents of frames that are not tables do not matter to a walk. */
  lemma {:induction false} DataWriteInvisible(m: Memory, m': Memory, owner: Owner, r: Frame, q: Path)
    requires Tree(m, owner) && IsRoot(owner, r) && |q| <= 4
    requires forall f :: f in owner ==> f in m' && m'[f] == m[f]
    ensures Walk(m', r, q) == Walk(m, r, q)
    decreases |q|
  {
    if q != [] {
      var q0 := q[..|q| - 1];
      DataWriteInvisible(m, m', owner, r, q0);
      if Walk(m, r, q0).Some? {
        TableOfWalk(m, owner, r, q0);
      }
    }
  }

  /** Linking a new zeroed table `c` below the entry (`f`, `i`), in any state of the old contents of `c`. */
  function Link(m: Memory, f: Frame, i: Index, e: Entry, c: Frame): Memory
    requires f in m && c in m && e.present && e.address == c
  {
    Put(m, f, i, e)[c := EMPTY_TABLE]
  }

  ghost predicate LinkPre(m: Memory, owner: Owner, f: Frame, i: Index, e: Entry, c: Frame) {
    && Tree(m, owner)
    && f in owner && |owner[f].path| < 3 && Proper(owner[f].path + [i])
    && c in m && c !in owner
    && !m[f][i].present && e.present && e.address == c
  }

  /** A new table keeps the tree invariant. */
  lemma LinkKeepsTree(m: Memory, owner: Owner, f: Frame, i: Index, e: Entry, c: Frame)
    requires LinkPre(m, owner, f, i, e, c)
    ensures Tree(Link(m, f, i, e, c), owner[c := ChildPlace(owner[f], i, c)])
  {
    var m', owner' := Link(m, f, i, e, c), owner[c := ChildPlace(owner[f], i, c)];
    assert WellPlaced(owner, f);
    assert c != f;
    assert (owner[f].path + [i])[..1] == if owner[f].path == [] then [i] else owner[f].path[..1];
    forall g | g in owner'
      ensures WellPlaced(owner', g) && ChildrenPlaced(m', owner', g)
    {
      if g != c {
        assert WellPlaced(owner, g) && ChildrenPlaced(m, owner, g);
      }
    }
    forall r | IsRoot(owner', r)
      ensures Windows(m', owner', r)
    {
      assert r != c;
      assert IsRoot(owner, r) && Windows(m, owner, r);
      if Follow(m', r, FOREIGN).Some? {
        assert Follow(m', r, FOREIGN) == Follow(m, r, FOREIGN);
      }
    }
  }

  /** A new table changes no proper walk but the one that leads to it. */
  lemma {:induction false} LinkLocal(m: Memory, owner: Owner, f: Frame, i: Index, e: Entry, c: Frame, r: Frame, q: Path)
    requires LinkPre(m, owner, f, i, e, c)
    requires IsRoot(owner, r) && Proper(q) && |q| <= 4 && Walk(m, r, owner[f].path) == Some(f)
    ensures q != owner[f].path + [i] ==> Walk(Link(m, f, i, e, c), r, q) == Walk(m, r, q)
    ensures q == owner[f].path + [i] ==> Walk(Link(m, f, i, e, c), r, q) == Some(c) && Walk(m, r, q).None?
    decreases |q|
  {
    var m' := Link(m, f, i, e, c);
    var here := owner[f].path + [i];
    WalkSnoc(m, r, owner[f].path, i);
    assert Walk(m, r, here).None?;
    if q != [] {
      var q0, j := q[..|q| - 1], q[|q| - 1];
      assert q == q0 + [j];
      LinkLocal(m, owner, f, i, e, c, r, q0);
      if q0 == here {
        assert Follow(m', c, j).None?;
        WalkBelowNone(m, r, here, q);
      } else if Walk(m, r, q0).Some? {
        PlaceOfWalk(m, owner, r, q0);
        var t := Walk(m, r, q0).value;
        assert t != c;
        if t == f {
          assert owner[f].path == q0;
          assert q == here <==> i == j;
        } else {
          assert q0 != owner[f].path;
        }
      } else {
        assert q0 != owner[f].path;
      }
    }
  }
}
