/** Virtual addresses: 64-bit arithmetic, page numbers, the four indices of a page and the addresses
    at which the page tables show up. */
module Addresses {
  import opened Basics
  import opened PageTables

  const WORD: nat := 0x1_0000_0000_0000_0000
  const PAGES: nat := 0x10_0000_0000

  type Address = a: int | 0 <= a < WORD

  const LOWER_END: nat := 0x8000_0000_0000
  const UPPER_START: nat := 0xFFFF_8000_0000_0000

  function RoundDown(a: Address): (r: Address)
    ensures r % PAGE == 0 && r <= a < r + PAGE
  {
    a - a % PAGE
  }

  /** Adding 4095 wraps around at the top of the address space. */
  function RoundUp(a: Address): (r: Address)
    ensures r % PAGE == 0
    ensures a <= WORD - PAGE ==> a <= r < a + PAGE
    ensures a > WORD - PAGE ==> r == 0
  {
    RoundDown((a + 4095) % WORD)
  }

  lemma RoundUpUnique(a: Address, r: nat)
    requires r % PAGE == 0 && a <= r < a + PAGE && a <= WORD - PAGE
    ensures RoundUp(a) == r
  {
  }

  /** The four index fields, as shifted and masked out of an address. */
  function Pml4Index(a: Address): Index { (a / 0x80_0000_0000) % 512 }
  function PdptIndex(a: Address): Index { (a / 0x4000_0000) % 512 }
  function PdIndex(a: Address): Index { (a / 0x20_0000) % 512 }
  function PtIndex(a: Address): Index { (a / 0x1000) % 512 }

  /** The number of the page that `a` lies in, among the 2^36 pages that the four indices can tell apart. */
  function PageOf(a: Address): (n: nat)
    ensures n < PAGES
  {
    (a / PAGE) % PAGES
  }

  /** The index path of a page. */
  function PathOf(n: nat): (q: Path)
    requires n < PAGES
    ensures |q| == 4
  {
    [n / 0x800_0000, (n / 0x4_0000) % 512, (n / 0x200) % 512, n % 512]
  }

  /** Four counters read in base 512; a counter that stands at 512 is a pending carry. */
  function Linear(a: nat, b: nat, c: nat, d: nat): nat {
    ((a * 512 + b) * 512 + c) * 512 + d
  }

  lemma LinearOfPath(n: nat)
    requires n < PAGES
    ensures Linear(PathOf(n)[0], PathOf(n)[1], PathOf(n)[2], PathOf(n)[3]) == n
  {
    assert n / 512 / 512 == n / 0x4_0000 && n / 512 / 512 / 512 == n / 0x800_0000;
  }

  lemma PathOfLinear(a: Index, b: Index, c: Index, d: Index)
    ensures Linear(a, b, c, d) < PAGES
    ensures PathOf(Linear(a, b, c, d)) == [a, b, c, d]
  {
    var n := Linear(a, b, c, d);
    assert n / 512 == (a * 512 + b) * 512 + c;
    assert n / 0x4_0000 == a * 512 + b;
    assert n / 0x800_0000 == a;
  }

  /** Shifting in steps and shifting at once agree. */
  lemma ShiftInSteps(v: nat)
    ensures v / 0x1000 / 512 == v / 0x20_0000
    ensures v / 0x20_0000 / 512 == v / 0x4000_0000
    ensures v / 0x4000_0000 / 512 == v / 0x80_0000_0000
  {
  }

  /** The low 36 bits of a page number, cut into four fields. */
  lemma FieldsOfPage(p: nat)
    ensures var n := p % PAGES;
            && n % 512 == p % 512 && (n / 0x200) % 512 == (p / 512) % 512
            && (n / 0x4_0000) % 512 == (p / 512 / 512) % 512 && n / 0x800_0000 == (p / 512 / 512 / 512) % 512
  {
    var hi, n := p / PAGES, p % PAGES;
    DropMultiple(hi * 0x800_0000, n);
    DropMultiple(hi * 0x4_0000, n / 0x200);
    DropMultiple(hi * 0x200, n / 0x4_0000);
    DropMultiple(hi, n / 0x800_0000);
    assert p == (hi * 0x800_0000) * 512 + n;
    assert p / 512 == (hi * 0x4_0000) * 512 + n / 512;
    assert p / 512 / 512 == (hi * 0x200) * 512 + n / 0x4_0000;
    assert p / 512 / 512 / 512 == hi * 512 + n / 0x800_0000;
  }

  lemma DropMultiple(k: nat, y: nat)
    ensures (k * 512 + y) % 512 == y % 512
  {
  }

  /** Counters within their tables are told apart by the page they stand at. */
  lemma LinearInjective(a: Index, b: Index, c: Index, d: Index, a': Index, b': Index, c': Index, d': Index)
    requires Linear(a, b, c, d) == Linear(a', b', c', d')
    ensures a == a' && b == b' && c == c' && d == d'
  {
    PathOfLinear(a, b, c, d);
    PathOfLinear(a', b', c', d');
    assert [a, b, c, d][0] == [a', b', c', d'][0] && [a, b, c, d][1] == [a', b', c', d'][1];
    assert [a, b, c, d][2] == [a', b', c', d'][2] && [a, b, c, d][3] == [a', b', c', d'][3];
  }

  lemma IndicesOfAddress(v: Address)
    ensures PathOf(PageOf(v)) == [Pml4Index(v), PdptIndex(v), PdIndex(v), PtIndex(v)]
    ensures Linear(Pml4Index(v), PdptIndex(v), PdIndex(v), PtIndex(v)) == PageOf(v)
  {
    ShiftInSteps(v);
    FieldsOfPage(v / 0x1000);
    LinearOfPath(PageOf(v));
  }

  lemma PathsDiffer(n: nat, k: nat)
    requires n < PAGES && k < PAGES && n != k
    ensures PathOf(n) != PathOf(k)
  {
    LinearOfPath(n);
    LinearOfPath(k);
  }

  /** Pages whose PML4 slot is not a paging window. */
  predicate ProperPage(n: int) {
    0 <= n < PAGES && !(0x8_0000_0000 <= n < 0x8_1000_0000)
  }

  lemma ProperPageIsProper(n: nat)
    requires n < PAGES
    ensures ProperPage(n) <==> Proper(PathOf(n))
  {
  }

  /** Rounded outwards to pages, the range stays in one canonical half. */
  predicate InOneHalf(start: Address, end: Address) {
    RoundUp(end) <= LOWER_END || RoundDown(start) >= UPPER_START
  }

  /** Page numbers of addresses in the two halves. */
  lemma PageOfHalf(a: Address)
    ensures a <= LOWER_END ==> PageOf(a) == a / PAGE
    ensures a >= UPPER_START ==> PageOf(a) == a / PAGE - 0xF_FFF0_0000_0000
  {
  }

  lemma WholePages(x: nat, y: nat)
    requires y % PAGE == 0 && y <= x
    ensures (x - y) / PAGE == x / PAGE - y / PAGE
    ensures (x + PAGE) / PAGE == x / PAGE + 1
  {
  }

  /** Bits 48 to 63 repeat bit 47. The MMU faults on any other address. */
  predicate Canonical(v: Address) {
    v < LOWER_END || v >= UPPER_START
  }

  /** The guard of `map`: only the first address is looked at. */
  predicate StartsInPagingArea(v: Address) {
    UPPER_START <= v < UPPER_START + 2 * 0x80_0000_0000
  }

  // ---------------------------------------------------------------------------------------------
  // Where tables are visible
  // ---------------------------------------------------------------------------------------------

  /** The address generator: everything goes through the formula for page tables. */
  function PtAddress(id: Window, a: Index, b: Index, c: Index): (v: Address)
    ensures StartsInPagingArea(v) && Canonical(v)
  {
    assert IsWindow(id);
    0xFFFF_0000_0000_0000 + id * 0x80_0000_0000 + a * 0x4000_0000 + b * 0x20_0000 + c * 0x1000
  }

  function PdAddress(id: Window, a: Index, b: Index): (v: Address)
    ensures Canonical(v)
  {
    PtAddress(id, 256, a, b)
  }

  function PdptAddress(id: Window, a: Index): (v: Address)
    ensures Canonical(v)
  {
    PtAddress(id, 256, 256, a)
  }

  function Pml4Address(id: Window): (v: Address)
    ensures Canonical(v)
  {
    PtAddress(id, 256, 256, 256)
  }

  /** The address of the table at path `q`. */
  function TableAddress(id: Window, q: Path): (v: Address)
    requires |q| <= 3
    ensures StartsInPagingArea(v) && Canonical(v)
  {
    if |q| == 0 then Pml4Address(id)
    else if |q| == 1 then PdptAddress(id, q[0])
    else if |q| == 2 then PdAddress(id, q[0], q[1])
    else PtAddress(id, q[0], q[1], q[2])
  }

  lemma PtAddressPath(id: Window, a: Index, b: Index, c: Index)
    ensures PathOf(PageOf(PtAddress(id, a, b, c))) == [id, a, b, c]
  {
    var v := PtAddress(id, a, b, c);
    assert v / PAGE == 0xF_FFF0_0000_0000 + Linear(id, a, b, c);
    PathOfLinear(id, a, b, c);
    assert PageOf(v) == Linear(id, a, b, c);
  }

  lemma TableAddressPath(id: Window, q: Path)
    requires |q| <= 3
    ensures PathOf(PageOf(TableAddress(id, q))) == WindowPath(id, q)
  {
    if |q| == 0 { PtAddressPath(id, 256, 256, 256); }
    else if |q| == 1 { PtAddressPath(id, 256, 256, q[0]); }
    else if |q| == 2 { PtAddressPath(id, 256, q[0], q[1]); }
    else { PtAddressPath(id, q[0], q[1], q[2]); }
    var p := PathOf(PageOf(TableAddress(id, q)));
    assert forall i :: 0 <= i < 4 ==> p[i] == WindowPath(id, q)[i];
  }

  /** The four table accessors name canonical addresses in the area that `map` refuses. Translated by the MMU from the
      current root, they land on the frame of the table they name below `root`, or on nothing when that table does not
      exist. */
  lemma RecursiveMapping(m: Memory, current: Frame, id: Window, root: Frame, q: Path)
    requires |q| <= 3
    requires Follow(m, current, id) == Some(root) && Follow(m, root, SELF) == Some(root)
    ensures StartsInPagingArea(TableAddress(id, q)) && Canonical(TableAddress(id, q))
    ensures Walk(m, current, PathOf(PageOf(TableAddress(id, q)))) == Walk(m, root, q)
  {
    TableAddressPath(id, q);
    WindowShowsTable(m, current, id, root, q);
  }
}
