/** The allocator of interrupt vectors: aligned blocks out of 224 vectors, searched downwards from the priority's first
    vector, then upwards, then again for half the size. Sizes are powers of two up to 32. */
module InterruptVectors {

  const VECTORS: nat := 224

  /** Vector number of the first allocatable vector. */
  const FIRST: nat := 32

  type Byte = x: int | 0 <= x < 256

  /** A device, or nobody. */
  type Owner = nat

  const NOBODY: Owner := 0

  predicate IsSize(n: nat) {
    n == 1 || n == 2 || n == 4 || n == 8 || n == 16 || n == 32
  }

  predicate Aligned(r: int, n: nat) {
    n > 0 && r % n == 0
  }

  /** The vector that a search starts from: the priority's first vector, rounded up to the size, in eight bits. */
  function Start(priority: Byte, n: nat): nat
    requires IsSize(n)
  {
    (priority * 16 + n - 1) / n * n % 256
  }

  lemma AlignedGap(q: int, r: int, n: nat)
    requires IsSize(n) && Aligned(q, n) && Aligned(r, n) && q < r
    ensures q + n <= r
  {
    if n == 1 { }
    else if n == 2 { assert q % 2 == r % 2 == 0; }
    else if n == 4 { assert q % 4 == r % 4 == 0; }
    else if n == 8 { assert q % 8 == r % 8 == 0; }
    else if n == 16 { assert q % 16 == r % 16 == 0; }
    else { assert q % 32 == r % 32 == 0; }
  }

  lemma AlignedStep(r: int, n: nat)
    requires IsSize(n) && Aligned(r, n)
    ensures Aligned(r - n, n) && Aligned(r + n, n)
  {
    if n == 1 { }
    else if n == 2 { assert (r - 2) % 2 == (r + 2) % 2 == r % 2; }
    else if n == 4 { assert (r - 4) % 4 == (r + 4) % 4 == r % 4; }
    else if n == 8 { assert (r - 8) % 8 == (r + 8) % 8 == r % 8; }
    else if n == 16 { assert (r - 16) % 16 == (r + 16) % 16 == r % 16; }
    else { assert (r - 32) % 32 == (r + 32) % 32 == r % 32; }
  }

  /** Shifting the priority up and taking eight bits keeps its last four bits. */
  lemma LastFourBits(q: nat, m: nat)
    requires m < 16
    ensures (q * 256 + m * 16) % 256 == m * 16
  {
  }

  lemma Rounded2(k: nat) ensures (k * 2 + 1) / 2 * 2 == k * 2 {}
  lemma Rounded4(k: nat) ensures (k * 4 + 3) / 4 * 4 == k * 4 {}
  lemma Rounded8(k: nat) ensures (k * 8 + 7) / 8 * 8 == k * 8 {}
  lemma Rounded16(k: nat) ensures (k * 16 + 15) / 16 * 16 == k * 16 {}
  lemma Rounded32(k: nat) ensures (k * 32 + 31) / 32 * 32 == k * 32 && (k * 32 + 47) / 32 * 32 == k * 32 + 32 {}

  lemma StartOf32(priority: Byte)
    ensures Start(priority, 32) == if priority % 2 == 1 then (priority % 16 + 1) % 16 * 16 else priority % 16 * 16
  {
    var q, m := priority / 16, priority % 16;
    var h := priority / 2;
    Rounded32(h);
    if priority % 2 == 0 {
      assert priority * 16 == h * 32 == q * 256 + m * 16;
      LastFourBits(q, m);
    } else {
      assert priority * 16 == h * 32 + 16;
      assert h * 32 + 32 == q * 256 + (m + 1) * 16;
      if m == 15 { LastFourBits(q + 1, 0); } else { LastFourBits(q, m + 1); }
    }
  }

  lemma StartOfSmall(priority: Byte, n: nat)
    requires IsSize(n) && n < 32
    ensures Start(priority, n) == priority % 16 * 16
  {
    var x := priority * 16;
    assert x == priority / 16 * 256 + priority % 16 * 16;
    LastFourBits(priority / 16, priority % 16);
    if n == 1 { assert (x + 1 - 1) / 1 * 1 == x; }
    else if n == 2 { Rounded2(priority * 8); }
    else if n == 4 { Rounded4(priority * 4); }
    else if n == 8 { Rounded8(priority * 2); }
    else { Rounded16(priority); }
  }

  /** The start of a search in terms of the priority's last four bits. */
  lemma StartOf(priority: Byte, n: nat)
    requires IsSize(n)
    ensures Start(priority, n) == if n == 32 && priority % 2 == 1 then (priority % 16 + 1) % 16 * 16
            else priority % 16 * 16
  {
    if n == 32 { StartOf32(priority); } else { StartOfSmall(priority, n); }
  }

  lemma Multiple1(k: nat) ensures Aligned(k, 1) {}
  lemma Multiple2(k: nat) ensures Aligned(k * 2, 2) {}
  lemma Multiple4(k: nat) ensures Aligned(k * 4, 4) {}
  lemma Multiple8(k: nat) ensures Aligned(k * 8, 8) {}
  lemma Multiple16(k: nat) ensures Aligned(k * 16, 16) {}
  lemma Multiple32(k: nat) ensures Aligned(k * 32, 32) {}

  lemma SixteenAligned(k: nat, n: nat)
    requires IsSize(n) && n <= 16
    ensures Aligned(k * 16, n)
  {
    hide Aligned;
    if n == 1 { Multiple1(k * 16); }
    else if n == 2 { Multiple2(k * 8); assert k * 8 * 2 == k * 16; }
    else if n == 4 { Multiple4(k * 4); assert k * 4 * 4 == k * 16; }
    else if n == 8 { Multiple8(k * 2); assert k * 2 * 8 == k * 16; }
    else { Multiple16(k); }
  }

  lemma StartAligned(priority: Byte, n: nat)
    requires IsSize(n)
    ensures Aligned(Start(priority, n), n)
  {
    hide Aligned, Start;
    StartOf(priority, n);
    if n <= 16 {
      SixteenAligned(priority % 16, n);
    } else {
      var h := if priority % 2 == 1 then (priority % 16 + 1) % 16 / 2 else priority % 16 / 2;
      Multiple32(h);
      EvenHalf(priority, h);
    }
  }

  lemma EvenHalf(priority: Byte, h: nat)
    requires h == if priority % 2 == 1 then (priority % 16 + 1) % 16 / 2 else priority % 16 / 2
    ensures h * 32 == if priority % 2 == 1 then (priority % 16 + 1) % 16 * 16 else priority % 16 * 16
  {
    var m := priority % 16;
    assert m % 2 == priority % 2;
  }

  lemma Fits(r: int, n: nat)
    requires IsSize(n) && Aligned(r, n) && r < VECTORS
    ensures r + n <= VECTORS
  {
    AlignedGap(r, VECTORS, n);
  }

  /** No search of this call, at its size or at any it falls back to, starts behind the last vector. */
  predicate Inside(priority: Byte, n: nat)
    requires IsSize(n)
  {
    Start(priority, n) < VECTORS && (n > 1 ==> Inside(priority, n / 2))
  }

  /** That is so for the lower thirteen priorities at any size, for the next one up to sixteen vectors, and for no
      other. */
  lemma InsideIff(priority: Byte, n: nat)
    requires IsSize(n)
    ensures Inside(priority, n) <==> priority % 16 < 13 || (priority % 16 == 13 && n <= 16)
  {
    StartOf(priority, n);
    if n > 1 {
      InsideIff(priority, n / 2);
    }
  }

  // ---------------------------------------------------------------------------------------------
  // What a search finds
  // ---------------------------------------------------------------------------------------------

  predicate FreeBlock(taken: seq<bool>, r: int, n: nat) {
    0 <= r && r + n <= |taken| && forall i :: r <= i < r + n ==> !taken[i]
  }

  ghost predicate NoneFree(taken: seq<bool>, n: nat) {
    forall r {:trigger FreeBlock(taken, r, n)} :: Aligned(r, n) ==> !FreeBlock(taken, r, n)
  }

  /** `r` is the nearest free block at or below `start`, or there is none and `r` is the lowest above it. */
  ghost predicate Best(taken: seq<bool>, start: nat, r: int, n: nat) {
    && Aligned(r, n) && FreeBlock(taken, r, n)
    && (r <= start ==> forall q {:trigger FreeBlock(taken, q, n)} :: r < q <= start && Aligned(q, n) ==>
           !FreeBlock(taken, q, n))
    && (r > start ==> forall q {:trigger FreeBlock(taken, q, n)} :: q < r && Aligned(q, n) ==> !FreeBlock(taken, q, n))
  }

  /** `m` is `n`, or half of it, or half of that, and so on. */
  predicate Halving(m: nat, n: nat) {
    m == n || (n > 1 && Halving(m, n / 2))
  }

  lemma HalvingAtMost(m: nat, n: nat)
    requires Halving(m, n)
    ensures m <= n
  {
  }

  /** A block of the largest possible size, best placed. */
  ghost predicate Answer(taken: seq<bool>, priority: Byte, n: nat, m: nat, r: int) {
    && IsSize(m) && Halving(m, n)
    && Best(taken, Start(priority, m), r, m)
    && forall k: nat {:trigger NoneFree(taken, k)} :: IsSize(k) && m < k && Halving(k, n) ==> NoneFree(taken, k)
  }

  lemma AnswerAtOnce(taken: seq<bool>, priority: Byte, n: nat, r: int)
    requires IsSize(n) && Best(taken, Start(priority, n), r, n)
    ensures Answer(taken, priority, n, n, r)
  {
    forall k: nat | n < k ensures !Halving(k, n) {
      if Halving(k, n) { HalvingAtMost(k, n); }
    }
  }

  lemma AnswerHalved(taken: seq<bool>, priority: Byte, n: nat, m: nat, r: int)
    requires IsSize(n) && n > 1 && NoneFree(taken, n) && Answer(taken, priority, n / 2, m, r)
    ensures Answer(taken, priority, n, m, r) && m != n
  {
    HalvingAtMost(m, n / 2);
  }

  lemma AllTaken(taken: seq<bool>)
    requires |taken| == VECTORS && NoneFree(taken, 1)
    ensures forall v :: 0 <= v < VECTORS ==> taken[v]
  {
    forall v | 0 <= v < VECTORS ensures taken[v] {
      assert Aligned(v, 1) && !FreeBlock(taken, v, 1);
    }
  }

  lemma FoundIsFree(taken: seq<bool>, start: nat, r: int, n: nat)
    ensures Best(taken, start, r, n) ==> !NoneFree(taken, n)
    ensures Best(taken, start, r, n) && n > 0 ==> 0 <= r < |taken| && !taken[r] && r + n <= |taken|
  {
  }

  /** The answer is determined: two searches that meet the description return the same block. */
  lemma AnswerUnique(taken: seq<bool>, priority: Byte, n: nat, m: nat, r: int, m': nat, r': int)
    requires IsSize(n) && Answer(taken, priority, n, m, r) && Answer(taken, priority, n, m', r')
    ensures m == m' && r == r'
  {
    FoundIsFree(taken, Start(priority, m), r, m);
    FoundIsFree(taken, Start(priority, m'), r', m');
  }

  ghost function Block(r: int, n: nat): (block: set<int>)
    ensures forall v :: v in block <==> r <= v < r + n
  {
    if n == 0 then {} else Block(r, n - 1) + {r + n - 1}
  }

  datatype Result = Granted(vector: Byte, size: nat) | Panicked

  /** Grants do not overlap, and what they still have is exactly what is marked as taken. */
  ghost predicate Covers(grants: seq<set<int>>, taken: seq<bool>) {
    && (forall g, h {:trigger grants[g], grants[h]} :: 0 <= g < h < |grants| ==> grants[g] !! grants[h])
    && (forall g, v {:trigger v in grants[g]} :: 0 <= g < |grants| && v in grants[g] ==> 0 <= v < |taken| && taken[v])
    && (forall v {:trigger taken[v]} :: 0 <= v < |taken| && taken[v] ==> IsGranted(grants, v))
  }

  ghost predicate IsGranted(grants: seq<set<int>>, v: int) {
    exists g {:trigger grants[g]} :: 0 <= g < |grants| && v in grants[g]
  }

  lemma CoversBlock(grants: seq<set<int>>, taken: seq<bool>, taken': seq<bool>, r: int, n: nat)
    requires Covers(grants, taken) && FreeBlock(taken, r, n) && |taken'| == |taken|
    requires forall v {:trigger taken'[v]} :: 0 <= v < |taken| ==> taken'[v] == (taken[v] || r <= v < r + n)
    ensures Covers(grants + [Block(r, n)], taken')
  {
    var block, all := Block(r, n), grants + [Block(r, n)];
    forall g, h | 0 <= g < h < |all| ensures all[g] !! all[h] {
      if h == |grants| {
        forall v | v in grants[g] ensures v !in block { assert taken[v]; }
      }
    }
    forall v | 0 <= v < |taken'| && taken'[v] ensures IsGranted(all, v) {
      if taken[v] {
        var g :| 0 <= g < |grants| && v in grants[g];
        assert v in all[g];
      } else {
        assert v in all[|grants|];
      }
    }
  }

  ghost function WithoutVector(grants: seq<set<int>>, x: int): (rest: seq<set<int>>)
    ensures |rest| == |grants| && forall g {:trigger rest[g]} :: 0 <= g < |grants| ==> rest[g] == grants[g] - {x}
  {
    seq(|grants|, g requires 0 <= g < |grants| => grants[g] - {x})
  }

  lemma CoversWithout(grants: seq<set<int>>, taken: seq<bool>, x: int)
    requires Covers(grants, taken) && 0 <= x < |taken|
    ensures Covers(WithoutVector(grants, x), taken[x := false])
  {
    var rest := WithoutVector(grants, x);
    forall v | 0 <= v < |taken| && taken[x := false][v] ensures IsGranted(rest, v) {
      assert taken[v];
      var g :| 0 <= g < |grants| && v in grants[g];
      assert v in rest[g];
    }
  }

  /** How `free_isr` ends: it frees, panics, or reads in front of the array. */
  datatype FreeOutcome = Freed | NotTaken | Outside

  class Vectors {
    const marked: array<bool>
    const owners: array<Owner>

    /** The vectors that each grant so far still has. */
    ghost var grants: seq<set<int>>

    ghost predicate Valid()
      reads this, marked
    {
      marked.Length == owners.Length == VECTORS && Covers(grants, marked[..])
    }

    constructor ()
      ensures Valid() && fresh(marked) && fresh(owners) && grants == []
      ensures forall v :: 0 <= v < VECTORS ==> !marked[v] && owners[v] == NOBODY
    {
      marked := new bool[VECTORS](_ => false);
      owners := new Owner[VECTORS](_ => NOBODY);
      grants := [];
    }

    method IsFree(r: nat, n: nat) returns (good: bool)
      requires r + n <= marked.Length
      ensures good <==> FreeBlock(marked[..], r, n)
    {
      good := true;
      var i := 0;
      while i < n
        invariant i <= n
        invariant good
        invariant forall k :: r <= k < r + i ==> !marked[k]
      {
        if marked[r + i] {
          good := false;
          break;
        }
        i := i + 1;
      }
    }

    method Take(r: nat, n: nat, owner: Owner)
      requires Valid() && FreeBlock(marked[..], r, n)
      modifies this, marked, owners
      ensures Valid() && grants == old(grants) + [Block(r, n)]
      ensures forall v :: 0 <= v < VECTORS ==> marked[v] == (old(marked[v]) || r <= v < r + n)
      ensures forall v :: 0 <= v < VECTORS ==> owners[v] == if r <= v < r + n then owner else old(owners[v])
    {
      hide Covers;
      var i := 0;
      while i < n
        invariant i <= n && grants == old(grants)
        invariant forall v :: 0 <= v < VECTORS ==> marked[v] == (old(marked[v]) || r <= v < r + i)
        invariant forall v :: 0 <= v < VECTORS ==> owners[v] == if r <= v < r + i then owner else old(owners[v])
      {
        marked[r + i] := true;
        owners[r + i] := owner;
        i := i + 1;
      }
      CoversBlock(grants, old(marked[..]), marked[..], r, n);
      grants := grants + [Block(r, n)];
    }

    /** The first scan. It ends at vector 0. */
    method ScanDown(start: nat, n: nat) returns (r: int)
      requires marked.Length == VECTORS && IsSize(n) && Aligned(start, n) && start < VECTORS
      ensures r >= 0 ==> Best(marked[..], start, r, n) && r <= start
      ensures r < 0 ==> forall q {:trigger FreeBlock(marked[..], q, n)} :: q <= start && Aligned(q, n) ==>
                !FreeBlock(marked[..], q, n)
    {
      r := start;
      while true
        invariant 0 <= r <= start && Aligned(r, n)
        invariant forall q {:trigger FreeBlock(marked[..], q, n)} :: r < q <= start && Aligned(q, n) ==>
                    !FreeBlock(marked[..], q, n)
        decreases r
      {
        Fits(r, n);
        var good := IsFree(r, n);
        if good { return; }
        if r == 0 { break; }
        AlignedGap(0, r, n);
        AlignedStep(r, n);
        forall q | r - n < q < r && Aligned(q, n) ensures false { AlignedGap(r - n, q, n); }
        r := r - n;
      }
      r := -1;
    }

    /** The second scan. */
    method ScanUp(start: nat, n: nat) returns (r: int)
      requires marked.Length == VECTORS && IsSize(n) && Aligned(start, n) && start < VECTORS
      requires forall q {:trigger FreeBlock(marked[..], q, n)} :: q <= start && Aligned(q, n) ==>
                 !FreeBlock(marked[..], q, n)
      ensures r >= 0 ==> Best(marked[..], start, r, n) && r > start
      ensures r < 0 ==> NoneFree(marked[..], n)
    {
      r := start;
      while r < VECTORS
        invariant start <= r && Aligned(r, n)
        invariant forall q {:trigger FreeBlock(marked[..], q, n)} :: q < r && Aligned(q, n) ==>
                    !FreeBlock(marked[..], q, n)
      {
        Fits(r, n);
        var good := IsFree(r, n);
        if good { return; }
        AlignedStep(r, n);
        forall q | r < q < r + n && Aligned(q, n) ensures false { AlignedGap(r, q, n); }
        r := r + n;
      }
      r := -1;
    }

    /** Both scans, for one size. */
    method AllocateSize(start: nat, n: nat, owner: Owner) returns (r: int)
      requires Valid() && IsSize(n) && Aligned(start, n) && start < VECTORS
      modifies this, marked, owners
      ensures Valid()
      ensures r < 0 ==> NoneFree(old(marked[..]), n)
      ensures r < 0 ==> grants == old(grants) && marked[..] == old(marked[..]) && owners[..] == old(owners[..])
      ensures r >= 0 ==>
        && Best(old(marked[..]), start, r, n)
        && grants == old(grants) + [Block(r, n)]
        && (forall v :: 0 <= v < VECTORS ==> marked[v] == (old(marked[v]) || r <= v < r + n))
        && (forall v :: 0 <= v < VECTORS ==> owners[v] == if r <= v < r + n then owner else old(owners[v]))
    {
      r := ScanDown(start, n);
      if r < 0 {
        r := ScanUp(start, n);
      }
      if r >= 0 {
        Take(r, n, owner);
      }
    }

    /** Allocates the largest block of the requested size, or of that size halved any number of times, that is free;
        fails, changing nothing, only for size 0 and when every vector is taken. The fallback forgets the owner.
        `acquisitions` says how often the lock is taken before it is released: the fallback takes it again, and as it is
        not recursive, a call with more than one acquisition does not return. */
    method Allocate(priority: Byte, count: nat, owner: Owner) returns (result: Result, acquisitions: nat)
      requires Valid()
      requires count == 0 || (IsSize(count) && Inside(priority, count))
      modifies this, marked, owners
      ensures Valid()
      ensures acquisitions == 0 <==> count == 0
      ensures acquisitions <= 1 <==> count <= 1 || !NoneFree(old(marked[..]), count)
      ensures acquisitions <= 1 && result.Granted? ==> result.size == count
      ensures result.Panicked? <==> count == 0 || forall v :: 0 <= v < VECTORS ==> old(marked[v])
      ensures result.Panicked? ==>
                grants == old(grants) && marked[..] == old(marked[..]) && owners[..] == old(owners[..])
      ensures result.Granted? ==>
        var r := result.vector - FIRST;
        && Answer(old(marked[..]), priority, count, result.size, r)
        && grants == old(grants) + [Block(r, result.size)]
        && (forall v :: 0 <= v < VECTORS ==> marked[v] == (old(marked[v]) || r <= v < r + result.size))
        && (forall v :: 0 <= v < VECTORS ==>
              owners[v] == if r <= v < r + result.size then (if result.size == count then owner else NOBODY)
                else old(owners[v]))
      decreases count
    {
      hide Covers, Answer, NoneFree, Best, Halving;
      if count == 0 { return Panicked, 0; }
      var start := Start(priority, count);
      StartAligned(priority, count);
      var r := AllocateSize(start, count, owner);
      if r >= 0 {
        FoundIsFree(old(marked[..]), start, r, count);
        AnswerAtOnce(old(marked[..]), priority, count, r);
        return Granted(r + FIRST, count), 1;
      }
      if count != 1 {
        result, acquisitions := Allocate(priority, count / 2, NOBODY);
        if result.Granted? {
          AnswerHalved(old(marked[..]), priority, count, result.size, result.vector - FIRST);
        }
        acquisitions := acquisitions + 1;
        return;
      }
      AllTaken(marked[..]);
      return Panicked, 1;
    }

    /** Allocates one vector: the nearest free one at or below the priority's first, otherwise the lowest above. */
    method AllocateOne(priority: Byte, owner: Owner) returns (result: Result)
      requires Valid() && Inside(priority, 1)
      modifies this, marked, owners
      ensures Valid()
      ensures result.Panicked? <==> forall v :: 0 <= v < VECTORS ==> old(marked[v])
      ensures result.Panicked? ==>
                grants == old(grants) && marked[..] == old(marked[..]) && owners[..] == old(owners[..])
      ensures result.Granted? ==>
        var r := result.vector - FIRST;
        && 0 <= r < VECTORS && !old(marked[r])
        && Best(old(marked[..]), Start(priority, 1), r, 1)
        && (forall v :: 0 <= v < VECTORS ==> marked[v] == (old(marked[v]) || v == r))
        && (forall v :: 0 <= v < VECTORS ==> owners[v] == if v == r then owner else old(owners[v]))
        && grants == old(grants) + [Block(r, 1)]
    {
      hide Covers;
      var acquisitions;
      result, acquisitions := Allocate(priority, 1, owner);
      if result.Granted? {
        assert result.size == 1;
        assert FreeBlock(old(marked[..]), result.vector - FIRST, 1);
      }
    }

    /** Frees one vector, whichever grant it came from; panics, changing nothing, when it is not taken; and reads in
        front of the array for the numbers of exceptions. */
    method Free(number: Byte) returns (outcome: FreeOutcome)
      requires Valid()
      modifies this, marked, owners
      ensures Valid()
      ensures outcome == Outside <==> number < 32
      ensures outcome == Freed <==> number >= FIRST && old(marked[number - FIRST])
      ensures outcome == Freed ==>
        && grants == WithoutVector(old(grants), number - FIRST)
        && marked[..] == old(marked[..])[number - FIRST := false]
        && owners[..] == old(owners[..])[number - FIRST := NOBODY]
      ensures outcome != Freed ==>
                grants == old(grants) && marked[..] == old(marked[..]) && owners[..] == old(owners[..])
    {
      hide Covers, WithoutVector;
      if number < FIRST { return Outside; }
      if !marked[number - FIRST] { return NotTaken; }
      CoversWithout(grants, marked[..], number - FIRST);
      marked[number - FIRST] := false;
      owners[number - FIRST] := NOBODY;
      grants := WithoutVector(grants, number - FIRST);
      assert marked[..] == old(marked[..])[number - FIRST := false];
      return Freed;
    }
  }

  /** A state in which the fallback is entered: only vector 1 is free, and two are asked for. */
  lemma FallbackEntered()
    ensures
      var taken := seq(VECTORS, v => v != 1);
      NoneFree(taken, 2) && Answer(taken, 0, 2, 1, 1)
  {
    var taken := seq(VECTORS, v => v != 1);
    assert Start(0, 1) == 0;
    forall r | Aligned(r, 2) ensures !FreeBlock(taken, r, 2) {
      if 0 <= r && r + 2 <= VECTORS {
        assert r != 1;
        assert taken[r];
      }
    }
    assert FreeBlock(taken, 1, 1) && taken[0];
    assert Halving(1, 1) && Halving(1, 2);
    forall k: nat | IsSize(k) && 1 < k && Halving(k, 2) ensures NoneFree(taken, k) {
      HalvingAtMost(k, 2);
    }
  }
}
