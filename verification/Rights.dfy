/** Access rights: the bits of the four entries on the way to a page, what `map` makes of them, and what the MMU
    concludes from all four. */
module Rights {
  import opened Basics
  import opened PageTables
  import opened Addresses
  import opened AddressSpaces
  import opened Ranges

  datatype Attributes = Attributes(user: bool, readWrite: bool)

  /** The bits of the entry that a walk along `p` reads last, if there is a table that holds it. */
  function RightsOn(m: Memory, root: Frame, p: Path): Option<Attributes>
    requires p != []
  {
    match Walk(m, root, p[..|p| - 1])
    case None => None
    case Some(t) => if t in m then Some(RightsOf(m[t][p[|p| - 1]])) else None
  }

  function RightsOf(e: Entry): Attributes {
    Attributes(e.user, e.readWrite)
  }

  /** The bits that `map` sets in an entry of each level. In the entries of page directories, write access follows
      the attribute for user access. */
  function Granted(a: Attributes, level: nat): Attributes {
    if level == 3 then Attributes(a.user, a.user) else a
  }

  /** Paths of entries outside of the windows. */
  predicate NamesEntry(p: Path) {
    1 <= |p| <= 4 && Proper(p)
  }

  ghost predicate RightsKept(m: Memory, m': Memory, root: Frame, p: Path)
    requires NamesEntry(p)
  {
    RightsOn(m, root, p).Some? ==> RightsOn(m', root, p) == RightsOn(m, root, p)
  }

  /** The bits of all entries stay as they were, but for the one at `q`. */
  ghost predicate RightsKeptBut(m: Memory, m': Memory, root: Frame, q: Path) {
    forall p {:trigger RightsKept(m, m', root, p)} :: NamesEntry(p) && p != q ==> RightsKept(m, m', root, p)
  }

  lemma RightsKeptTrans(m: Memory, m': Memory, m'': Memory, root: Frame, q: Path)
    requires RightsKeptBut(m, m', root, q) && RightsKeptBut(m', m'', root, q)
    ensures RightsKeptBut(m, m'', root, q)
  {
    forall p | NamesEntry(p) && p != q ensures RightsKept(m, m'', root, p) {
      assert RightsKept(m, m', root, p) && RightsKept(m', m'', root, p);
    }
  }

  /** The tables that the space of `root` had stay as they were, but for entry `i` of `f`. */
  ghost predicate EntryWritten(s: Snapshot, m': Memory, f: Frame, i: Index, e: Entry) {
    f in s.mem && f in m' && m'[f] == s.mem[f][i := e] && forall g :: g in s.owner && g != f ==>
      g in m' && g in s.mem && m'[g] == s.mem[g]
  }

  /** Writing one entry changes the bits of that entry and of no other. */
  lemma WriteGrants(s: Snapshot, s': Snapshot, root: Frame, q: Path, f: Frame, i: Index, e: Entry)
    requires Tree(s.mem, s.owner) && IsRoot(s.owner, root) && Proper(q + [i]) && Proper(q) && |q| <= 3
    requires Walk(s.mem, root, q) == Some(f) && EntryWritten(s, s'.mem, f, i, e) && TablesKept(s, s', root)
    ensures RightsKeptBut(s.mem, s'.mem, root, q + [i]) && RightsOn(s'.mem, root, q + [i]) == Some(RightsOf(e))
  {
    hide Tree, Proper;
    assert (q + [i])[..|q + [i]| - 1] == q;
    assert TableKept(s, s', root, q);
    assert |q + [i]| <= 4;
    forall p | NamesEntry(p) && p != q + [i] ensures RightsKept(s.mem, s'.mem, root, p) {
      OtherEntryKept(s, s', root, q, f, i, e, p);
    }
  }

  lemma OtherEntryKept(s: Snapshot, s': Snapshot, root: Frame, q: Path, f: Frame, i: Index, e: Entry, p: Path)
    requires Tree(s.mem, s.owner) && IsRoot(s.owner, root) && Proper(q) && |q| <= 3
    requires Walk(s.mem, root, q) == Some(f) && EntryWritten(s, s'.mem, f, i, e) && TablesKept(s, s', root)
    requires NamesEntry(p) && p != q + [i]
    ensures RightsKept(s.mem, s'.mem, root, p)
  {
    var p0 := p[..|p| - 1];
    assert p == p0 + [p[|p| - 1]];
    assert TableKept(s, s', root, p0);
    if Walk(s.mem, root, p0).Some? {
      PlaceOfWalk(s.mem, s.owner, root, p0);
      PlaceOfWalk(s.mem, s.owner, root, q);
    }
  }

  /** What a link writes to tables that exist. */
  lemma LinkWritesEntry(s: Snapshot, f: Frame, i: Index, e: Entry)
    requires s.owner.Keys <= s.mem.Keys && f in s.owner && e.present && e.address in s.mem && e.address !in s.owner
    ensures EntryWritten(s, Linked(s, f, i, e, e.address).mem, f, i, e)
  {
  }

  lemma PutWritesEntry(s: Snapshot, f: Frame, i: Index, e: Entry)
    requires s.owner.Keys <= s.mem.Keys && f in s.mem
    ensures EntryWritten(s, Put(s.mem, f, i, e), f, i, e)
  {
  }

  lemma EvolvesKeepsTables(s: Snapshot, s': Snapshot, root: Frame)
    requires Evolves(s, s', root)
    ensures TablesKept(s, s', root)
  {
  }

  lemma CreateGrants(s: Snapshot, s': Snapshot, root: Frame, q: Path, f: Frame, e: Entry)
    requires Sound(s) && IsRoot(s.owner, root) && 1 <= |q| <= 3 && Proper(q)
    requires Walk(s.mem, root, q[..|q| - 1]) == Some(f)
    requires f in s.mem && f in s.owner && e.present && e.address in s.mem && e.address in s.free
    requires s' == Linked(s, f, q[|q| - 1], e, e.address) && TableEnsured(s, s', root, q)
    ensures RightsKeptBut(s.mem, s'.mem, root, q)
  {
    hide Walk, Linked, EntryWritten, RightsKeptBut, RightsOn, TablesKept, Evolves;
    var q0, i := q[..|q| - 1], q[|q| - 1];
    assert q == q0 + [i];
    assert Tree(s.mem, s.owner) && e.address !in s.owner;
    EvolvesKeepsTables(s, s', root);
    LinkWritesEntry(s, f, i, e);
    hide Tree;
    WriteGrants(s, s', root, q0, f, i, e);
  }

  lemma PageGrants(s: Snapshot, s': Snapshot, current: Frame, id: Window, root: Frame, n: int, q: Path, i: Index,
                   e: Entry)
    requires Editable(s, current, id, root) && ProperPage(n) && |q| == 3 && PathOf(n) == q + [i]
    requires Walk(s.mem, root, q).Some? && Walk(s.mem, root, q).value in s.mem
    requires s' == s.(mem := Put(s.mem, Walk(s.mem, root, q).value, i, e))
    requires PageWritten(s, s', current, id, root, n, if e.present then Some(e.address) else None)
    ensures RightsKeptBut(s.mem, s'.mem, root, q + [i]) && RightsOn(s'.mem, root, q + [i]) == Some(RightsOf(e))
  {
    hide Walk, LeafChanged, EntryWritten, RightsKeptBut, RightsOn, TablesKept, Evolves, Sound;
    ProperPageIsProper(n);
    assert q[0] == PathOf(n)[0];
    hide PathOf;
    assert Tree(s.mem, s.owner);
    EvolvesKeepsTables(s, s', root);
    PutWritesEntry(s, Walk(s.mem, root, q).value, i, e);
    hide Tree;
    WriteGrants(s, s', root, q, Walk(s.mem, root, q).value, i, e);
  }

  // ---------------------------------------------------------------------------------------------
  // The loops of map
  // ---------------------------------------------------------------------------------------------

  /** The entries on the way to a page done have the bits of `a`, and those on the way to no page of the range have
      the bits that they had. */
  ghost predicate Granting(m0: Memory, m: Memory, root: Frame, start: int, cur: int, end: int, a: Attributes) {
    Whole(forall p {:trigger GrantedAt(m0, m, root, start, cur, end, a, p)} :: NamesEntry(p) ==>
            GrantedAt(m0, m, root, start, cur, end, a, p))
  }

  ghost predicate GrantedAt(m0: Memory, m: Memory, root: Frame, start: int, cur: int, end: int, a: Attributes, p: Path)
    requires NamesEntry(p)
  {
    && (Needed(p, start, cur) ==> RightsOn(m, root, p) == Some(Granted(a, |p|)))
    && (!Needed(p, start, end) ==> RightsKept(m0, m, root, p))
  }

  /** All entries along `q` have the bits of `a`. */
  ghost predicate GrantedAlong(m: Memory, root: Frame, q: Path, a: Attributes) {
    forall j {:trigger q[..j]} :: 1 <= j <= |q| ==> RightsOn(m, root, q[..j]) == Some(Granted(a, j))
  }

  lemma GrantedShorter(m: Memory, root: Frame, q: Path, a: Attributes)
    requires q != [] && GrantedAlong(m, root, q, a)
    ensures GrantedAlong(m, root, q[..|q| - 1], a)
  {
    var q0 := q[..|q| - 1];
    forall j | 1 <= j <= |q0| ensures RightsOn(m, root, q0[..j]) == Some(Granted(a, j)) {
      assert q0[..j] == q[..j];
    }
  }

  lemma GrantingStarts(m: Memory, root: Frame, start: int, end: int, a: Attributes)
    ensures Granting(m, m, root, start, start, end, a)
  {
    forall p | NamesEntry(p) ensures GrantedAt(m, m, root, start, start, end, a, p) {
    }
  }

  /** Setting the bits of the entry at `q`, which leads to the page where the loops stand. */
  lemma GrantTable(m0: Memory, m: Memory, m': Memory, root: Frame, start: int, cur: int, end: int, a: Attributes,
                   q: Path)
    requires Granting(m0, m, root, start, cur, end, a) && start <= cur < end && ProperPage(cur)
    requires NamesEntry(q) && q <= PathOf(cur)
    requires RightsKeptBut(m, m', root, q) && RightsOn(m', root, q) == Some(Granted(a, |q|))
    ensures Granting(m0, m', root, start, cur, end, a)
  {
    hide RightsOn;
    assert Needed(q, start, end);
    forall p | NamesEntry(p) ensures GrantedAt(m0, m', root, start, cur, end, a, p) {
      assert GrantedAt(m0, m, root, start, cur, end, a, p);
      if p != q {
        assert RightsKept(m, m', root, p);
      }
    }
  }

  lemma GrantPage(m0: Memory, m: Memory, m': Memory, root: Frame, start: int, cur: int, end: int, a: Attributes)
    requires Granting(m0, m, root, start, cur, end, a) && start <= cur < end && ProperPage(cur)
    requires RightsKeptBut(m, m', root, PathOf(cur)) && RightsOn(m', root, PathOf(cur)) == Some(a)
    requires GrantedAlong(m, root, PathOf(cur)[..3], a)
    ensures Granting(m0, m', root, start, cur + 1, end, a)
  {
    ProperPageIsProper(cur);
    var q := PathOf(cur);
    GrantTable(m0, m, m', root, start, cur, end, a, q);
    forall p | NamesEntry(p) ensures GrantedAt(m0, m', root, start, cur + 1, end, a, p) {
      assert GrantedAt(m0, m', root, start, cur, end, a, p);
      if Needed(p, start, cur + 1) && !Needed(p, start, cur) {
        NeededAtLast(p, start, cur);
        assert p == q[..|p|];
        assert |p| == 4 ==> p == q;
        assert |p| <= 3 ==> p == q[..3][..|p|];
        assert p != q ==> RightsKept(m, m', root, p);
      }
    }
  }

  lemma NeededAtLast(p: Path, start: int, cur: int)
    requires Needed(p, start, cur + 1) && !Needed(p, start, cur) && 0 <= cur < PAGES
    ensures p <= PathOf(cur)
  {
    var n :| start <= n < cur + 1 && ProperPage(n) && p <= PathOf(n);
    assert n == cur;
  }

  /** Setting the bits of an entry leaves those of other entries along a path alone. */
  lemma GrantKeepsAlong(m: Memory, m': Memory, root: Frame, q: Path, p: Path, a: Attributes)
    requires |q| <= 4 && Proper(q) && |q| < |p| && GrantedAlong(m, root, q, a) && RightsKeptBut(m, m', root, p)
    ensures GrantedAlong(m', root, q, a)
  {
    hide RightsOn;
    forall j | 1 <= j <= |q| ensures RightsOn(m', root, q[..j]) == Some(Granted(a, j)) {
      assert RightsKept(m, m', root, q[..j]);
    }
  }

  /** The loops enter the next level: the entry at `q` has got its bits. */
  lemma GrantLevel(m: Memory, m': Memory, r: Request, n: int, q: Path, a: Attributes)
    requires Granting(r.s0.mem, m, r.root, r.start, n, r.end, a) && r.start <= n < r.end && ProperPage(n)
    requires 1 <= |q| <= 3 && q <= PathOf(n) && (|q| == 1 || GrantedAlong(m, r.root, q[..|q| - 1], a))
    requires RightsKeptBut(m, m', r.root, q) && RightsOn(m', r.root, q) == Some(Granted(a, |q|))
    ensures Granting(r.s0.mem, m', r.root, r.start, n, r.end, a) && GrantedAlong(m', r.root, q, a)
  {
    hide RightsOn, RightsKeptBut, Granting;
    ProperPageIsProper(n);
    assert Proper(q) by { assert q[0] == PathOf(n)[0]; }
    GrantTable(r.s0.mem, m, m', r.root, r.start, n, r.end, a, q);
    var q0 := q[..|q| - 1];
    assert q0 == [] || GrantedAlong(m, r.root, q0, a);
    GrantKeepsAlong(m, m', r.root, q0, q, a);
    forall j | 1 <= j <= |q| ensures RightsOn(m', r.root, q[..j]) == Some(Granted(a, j)) {
      if j < |q| {
        assert q[..j] == q0[..j];
      } else {
        assert q[..j] == q;
      }
    }
  }

  /** The loops go on to the next page. */
  lemma GrantNext(m: Memory, m': Memory, r: Request, n: int, q: Path, i: Index, a: Attributes)
    requires Granting(r.s0.mem, m, r.root, r.start, n, r.end, a) && r.start <= n < r.end && ProperPage(n)
    requires |q| == 3 && PathOf(n) == q + [i] && GrantedAlong(m, r.root, q, a)
    requires RightsKeptBut(m, m', r.root, q + [i]) && RightsOn(m', r.root, q + [i]) == Some(a)
    ensures Granting(r.s0.mem, m', r.root, r.start, n + 1, r.end, a) && GrantedAlong(m', r.root, q, a)
  {
    hide RightsOn, RightsKeptBut, Granting, GrantedAlong;
    ProperPageIsProper(n);
    assert q[0] == PathOf(n)[0] && PathOf(n)[..3] == q;
    GrantPage(r.s0.mem, m, m', r.root, r.start, n, r.end, a);
    GrantKeepsAlong(m, m', r.root, q, q + [i], a);
  }

  /** Granting one range and then, behind it, another. */
  lemma GrantingTrans(m0: Memory, m: Memory, m': Memory, root: Frame, start: int, cur: int, end: int, a: Attributes)
    requires start <= cur <= end
    requires Granting(m0, m, root, start, cur, cur, a) && Granting(m, m', root, cur, end, end, a)
    ensures Granting(m0, m', root, start, end, end, a)
  {
    hide RightsOn;
    forall p | NamesEntry(p) ensures GrantedAt(m0, m', root, start, end, end, a, p) {
      assert GrantedAt(m0, m, root, start, cur, cur, a, p) && GrantedAt(m, m', root, cur, end, end, a, p);
      assert Needed(p, start, end) <==> Needed(p, start, cur) || Needed(p, cur, end);
    }
  }

  /** The bits of all entries stay as they were. */
  ghost predicate RightsSame(m: Memory, m': Memory, root: Frame) {
    forall p {:trigger RightsKept(m, m', root, p)} :: NamesEntry(p) ==> RightsKept(m, m', root, p)
  }

  lemma RightsSameTrans(m: Memory, m': Memory, m'': Memory, root: Frame)
    requires RightsSame(m, m', root) && RightsSame(m', m'', root)
    ensures RightsSame(m, m'', root)
  {
    forall p | NamesEntry(p) ensures RightsKept(m, m'', root, p) {
      assert RightsKept(m, m', root, p) && RightsKept(m', m'', root, p);
    }
  }

  /** Writing an entry with the bits that it has. */
  lemma SameBits(m: Memory, m': Memory, root: Frame, q: Path, a: Attributes)
    requires NamesEntry(q) && RightsKeptBut(m, m', root, q) && RightsOn(m, root, q) == Some(a) == RightsOn(m', root, q)
    ensures RightsSame(m, m', root)
  {
    forall p | NamesEntry(p) ensures RightsKept(m, m', root, p) {
      if p == q { assert RightsKept(m, m', root, q); }
    }
  }

  /** Clearing the presence of one page. */
  lemma PageKeepsRights(s: Snapshot, s': Snapshot, current: Frame, id: Window, root: Frame, n: int, q: Path, i: Index,
                        e: Entry)
    requires Editable(s, current, id, root) && ProperPage(n) && |q| == 3 && PathOf(n) == q + [i]
    requires Walk(s.mem, root, q).Some? && Walk(s.mem, root, q).value in s.mem
    requires s' == s.(mem := Put(s.mem, Walk(s.mem, root, q).value, i, e))
    requires PageWritten(s, s', current, id, root, n, if e.present then Some(e.address) else None)
    requires RightsOf(e) == RightsOf(s.mem[Walk(s.mem, root, q).value][i])
    ensures RightsSame(s.mem, s'.mem, root)
  {
    PageGrants(s, s', current, id, root, n, q, i, e);
    assert (q + [i])[..|q + [i]| - 1] == q;
    assert RightsOn(s.mem, root, q + [i]) == Some(RightsOf(e));
    ProperPageIsProper(n);
    hide RightsOn, PageWritten, Editable, Walk, PathOf;
    SameBits(s.mem, s'.mem, root, q + [i], RightsOf(e));
  }

  lemma RightsSameRefl(m: Memory, root: Frame)
    ensures RightsSame(m, m, root)
  {
  }

  /** Leaving all bits alone afterwards changes nothing about what was granted. */
  lemma GrantingStays(m0: Memory, m: Memory, m': Memory, root: Frame, start: int, end: int, a: Attributes)
    requires Granting(m0, m, root, start, end, end, a) && RightsSame(m, m', root)
    ensures Granting(m0, m', root, start, end, end, a)
  {
    hide RightsOn;
    forall p | NamesEntry(p) ensures GrantedAt(m0, m', root, start, end, end, a, p) {
      assert GrantedAt(m0, m, root, start, end, end, a, p) && RightsKept(m, m', root, p);
    }
  }

  /** As long as the tables of the space hold what they held, but in the windows, all bits stay. */
  lemma SameEntriesSameRights(m: Memory, m': Memory, owner: Owner, root: Frame)
    requires Tree(m, owner) && IsRoot(owner, root)
    requires forall q: Path {:trigger Walk(m', root, q)} :: Proper(q) && |q| <= 3 ==>
               Walk(m', root, q) == Walk(m, root, q)
    requires m'.Keys == m.Keys
    requires forall g, i: Index {:trigger m'[g][i]} :: g in owner && g in m && (IsRoot(owner, g) ==> !IsWindow(i)) ==>
               m'[g][i] == m[g][i]
    ensures RightsSame(m, m', root)
  {
    forall p | NamesEntry(p) ensures RightsKept(m, m', root, p) {
      var p0 := p[..|p| - 1];
      assert Walk(m', root, p0) == Walk(m, root, p0);
      if Walk(m, root, p0).Some? {
        PlaceOfWalk(m, owner, root, p0);
        var t := Walk(m, root, p0).value;
        assert IsRoot(owner, t) ==> p0 == [] && p[|p| - 1] == p[0];
        assert t in m && m'[t][p[|p| - 1]] == m[t][p[|p| - 1]];
      }
    }
  }

  // ---------------------------------------------------------------------------------------------
  // What the MMU concludes
  // ---------------------------------------------------------------------------------------------

  /** The bits at each of the four levels on the way to page `n`. */
  function LevelRights(m: Memory, root: Frame, n: int, k: nat): Option<Attributes>
    requires 0 <= n < PAGES && 1 <= k <= 4
  {
    RightsOn(m, root, PathOf(n)[..k])
  }

  /** User code may use a page only if all four entries say so. */
  ghost predicate UserMay(m: Memory, root: Frame, n: int)
    requires 0 <= n < PAGES
  {
    forall k :: 1 <= k <= 4 ==> LevelRights(m, root, n, k).Some? && LevelRights(m, root, n, k).value.user
  }

  /** A page is writable only if all four entries say so. */
  ghost predicate MayWrite(m: Memory, root: Frame, n: int)
    requires 0 <= n < PAGES
  {
    forall k :: 1 <= k <= 4 ==> LevelRights(m, root, n, k).Some? && LevelRights(m, root, n, k).value.readWrite
  }

  /** The range of pages shares the first `k` entries on the way to page `n`. */
  ghost predicate Shares(n: int, k: nat, start: int, end: int)
    requires 0 <= n < PAGES && 1 <= k <= 4
  {
    Needed(PathOf(n)[..k], start, end)
  }

  lemma LevelAfterMap(m0: Memory, m1: Memory, root: Frame, start: int, end: int, a: Attributes, n: int, k: nat)
    requires Granting(m0, m1, root, start, end, end, a) && ProperPage(n) && 1 <= k <= 4
    requires start <= n < end || LevelRights(m0, root, n, k).Some?
    ensures start <= n < end ==> Shares(n, k, start, end)
    ensures LevelRights(m1, root, n, k) == if Shares(n, k, start, end) then Some(Granted(a, k))
            else LevelRights(m0, root, n, k)
  {
    hide RightsOn;
    ProperPageIsProper(n);
    var p := PathOf(n)[..k];
    assert NamesEntry(p) && p <= PathOf(n);
    assert GrantedAt(m0, m1, root, start, end, end, a, p);
    assert start <= n < end ==> Needed(p, start, end);
  }

  /** What `map` grants: user code may use the pages exactly as asked for, but writable they are only when user access
      is asked for as well. */
  lemma MapGrants(m0: Memory, m1: Memory, root: Frame, start: int, end: int, a: Attributes, n: int)
    requires Granting(m0, m1, root, start, end, end, a) && ProperPage(n) && start <= n < end
    ensures UserMay(m1, root, n) <==> a.user
    ensures MayWrite(m1, root, n) <==> a.user && a.readWrite
  {
    hide Granting, LevelRights, Shares;
    forall k | 1 <= k <= 4 ensures LevelRights(m1, root, n, k) == Some(Granted(a, k)) {
      LevelAfterMap(m0, m1, root, start, end, a, n, k);
    }
    assert LevelRights(m1, root, n, 1) == Some(a) && LevelRights(m1, root, n, 3) == Some(Granted(a, 3));
  }

  lemma SharesMore(n: int, k: nat, j: nat, start: int, end: int)
    requires 0 <= n < PAGES && 1 <= j <= k <= 4 && Shares(n, k, start, end)
    ensures Shares(n, j, start, end)
  {
    var i :| start <= i < end && ProperPage(i) && PathOf(n)[..k] <= PathOf(i);
    assert PathOf(n)[..j] == PathOf(n)[..k][..j] <= PathOf(i);
  }

  lemma SharesAll(n: int, start: int, end: int)
    requires ProperPage(n) && Shares(n, 4, start, end)
    ensures start <= n < end
  {
    ProperPageIsProper(n);
    var i :| start <= i < end && ProperPage(i) && PathOf(n)[..4] <= PathOf(i);
    assert PathOf(n)[..4] == PathOf(n);
    if i != n {
      PathsDiffer(i, n);
    }
  }

  /** What `map` does to the rights of other pages: one that user code may use stays so unless a page of the same
      512 GiB is mapped without user access, and a writable one stays writable unless a page of the same 512 GiB is
      mapped read-only, or one of the same 2 MiB without user access. */
  lemma OthersKeepRightsIff(m0: Memory, m1: Memory, root: Frame, start: int, end: int, a: Attributes, n: int)
    requires Granting(m0, m1, root, start, end, end, a) && ProperPage(n) && !(start <= n < end)
    requires UserMay(m0, root, n) || MayWrite(m0, root, n)
    ensures UserMay(m0, root, n) ==> (UserMay(m1, root, n) <==> !Shares(n, 1, start, end) || a.user)
    ensures MayWrite(m0, root, n) ==>
              (MayWrite(m1, root, n) <==>
                (Shares(n, 1, start, end) ==> a.readWrite) && (Shares(n, 3, start, end) ==> a.user))
  {
    hide Granting, LevelRights, Shares;
    forall k | 1 <= k <= 4
      ensures LevelRights(m1, root, n, k) == if Shares(n, k, start, end) then Some(Granted(a, k))
              else LevelRights(m0, root, n, k)
      ensures Shares(n, k, start, end) ==> Shares(n, 1, start, end) && k < 4
    {
      LevelAfterMap(m0, m1, root, start, end, a, n, k);
      if Shares(n, k, start, end) {
        SharesMore(n, k, 1, start, end);
        if k == 4 { SharesAll(n, start, end); }
      }
    }
    assert LevelRights(m1, root, n, 1) == if Shares(n, 1, start, end) then Some(a) else LevelRights(m0, root, n, 1);
    assert Shares(n, 3, start, end) ==> LevelRights(m1, root, n, 3) == Some(Granted(a, 3));
  }
}
