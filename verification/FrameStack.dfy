/** The global stack of free frames: a list of chunks, each kept in a free frame of its own. Some of the frames pushed
    are not stored but become the next chunk. */
module FrameStack {
  import opened Basics

  /** A physical frame, by its address. */
  type Frame = nat

  /** Frames that one chunk stores. */
  const MAX: nat := 506

  /** The fill of the last chunk at which the spare chunk is made. */
  const SPARE_AT: nat := MAX - 100

  // ---------------------------------------------------------------------------------------------
  // The stack as a value
  // ---------------------------------------------------------------------------------------------

  /** `full` chunks come before the last one, which stores `top` frames; behind it there may be a spare one.
      `contents` are the stored frames, oldest first; `backing` are the frames that the chunks are kept in. */
  datatype View =
    | Empty
    | Stack(full: nat, top: nat, spare: bool, contents: seq<Frame>, backing: seq<Frame>)
  {
    function Contents(): seq<Frame> { if Empty? then [] else contents }

    function Backing(): seq<Frame> { if Empty? then [] else backing }

    /** Every chunk before the last is full, and a last chunk that is nearly full has a spare behind it. */
    predicate Inv() {
      Stack? ==>
        && |contents| == full * MAX + top
        && |backing| == full + 1 + (if spare then 1 else 0)
        && top <= MAX
        && (top > SPARE_AT ==> spare)
    }
  }

  function Pushed(v: View, frame: Frame): View {
    if v.Empty? then Stack(0, 0, false, [], [frame])
    else if v.top == SPARE_AT && !v.spare then v.(spare := true, backing := v.backing + [frame])
    else if v.top == MAX then v.(full := v.full + 1, top := 1, spare := false, contents := v.contents + [frame])
    else v.(top := v.top + 1, contents := v.contents + [frame])
  }

  /** What `pop` does: return a frame, panic because nothing is stored, or read in front of the last chunk's array
      because that chunk is drained while others are not. */
  datatype Outcome = Frame(frame: Frame) | OutOfMemory | Drained

  function PopOutcome(v: View): Outcome {
    if v.Empty? || |v.contents| == 0 then OutOfMemory
    else if v.top == 0 then Drained
    else Frame(v.contents[|v.contents| - 1])
  }

  function Popped(v: View): View {
    if PopOutcome(v).Frame? then v.(top := v.top - 1, contents := v.contents[..|v.contents| - 1]) else v
  }

  lemma PushInv(v: View, frame: Frame)
    requires v.Inv()
    ensures Pushed(v, frame).Inv()
    ensures multiset(Pushed(v, frame).Contents()) + multiset(Pushed(v, frame).Backing()) ==
            multiset(v.Contents()) + multiset(v.Backing()) + multiset{frame}
  {
  }

  /** Where a frame is to be stored, popping gives it back and leaves the frames as they were. */
  lemma PushPop(v: View, frame: Frame)
    requires v.Inv()
    ensures
      var p := Pushed(v, frame);
      if p.Contents() != v.Contents()
      then PopOutcome(p) == Outcome.Frame(frame) && Popped(p).Contents() == v.Contents() &&
        Popped(p).Backing() == v.Backing()
      else p.Backing() == v.Backing() + [frame]
  {
    var p := Pushed(v, frame);
    if v.Stack? && p.contents == v.contents + [frame] {
      assert p.contents[..|p.contents| - 1] == v.contents;
      assert |p.contents| != |v.contents|;
    }
  }

  // ---------------------------------------------------------------------------------------------
  // Runs
  // ---------------------------------------------------------------------------------------------

  datatype Op = DoPush(frame: Frame) | DoPop

  function Do(v: View, op: Op): View {
    match op
    case DoPush(frame) => Pushed(v, frame)
    case DoPop => Popped(v)
  }

  function GivenBy(op: Op): multiset<Frame> {
    if op.DoPush? then multiset{op.frame} else multiset{}
  }

  function TakenBy(v: View, op: Op): multiset<Frame> {
    if op.DoPop? && PopOutcome(v).Frame? then multiset{PopOutcome(v).frame} else multiset{}
  }

  function After(v: View, ops: seq<Op>): View {
    if ops == [] then v else Do(After(v, ops[..|ops| - 1]), ops[|ops| - 1])
  }

  /** The frames pushed, and the frames returned, in a run. */
  function Given(ops: seq<Op>): multiset<Frame> {
    if ops == [] then multiset{} else Given(ops[..|ops| - 1]) + GivenBy(ops[|ops| - 1])
  }

  function Taken(v: View, ops: seq<Op>): multiset<Frame> {
    if ops == [] then multiset{}
    else Taken(v, ops[..|ops| - 1]) + TakenBy(After(v, ops[..|ops| - 1]), ops[|ops| - 1])
  }

  function Held(v: View): multiset<Frame> {
    multiset(v.Contents()) + multiset(v.Backing())
  }

  lemma StepInv(v: View, op: Op)
    requires v.Inv()
    ensures Do(v, op).Inv() && Held(Do(v, op)) + TakenBy(v, op) == Held(v) + GivenBy(op)
  {
    match op
    case DoPush(frame) => PushInv(v, frame);
    case DoPop =>
      if PopOutcome(v).Frame? {
        assert v.contents == v.contents[..|v.contents| - 1] + [PopOutcome(v).frame];
      }
  }

  lemma LastOf(v: View, ops: seq<Op>)
    requires ops != []
    ensures
      var before, op := ops[..|ops| - 1], ops[|ops| - 1];
      && After(v, ops) == Do(After(v, before), op)
      && Given(ops) == Given(before) + GivenBy(op)
      && Taken(v, ops) == Taken(v, before) + TakenBy(After(v, before), op)
  {
  }

  lemma AfterOne(v: View, ops: seq<Op>, op: Op)
    ensures After(v, ops + [op]) == Do(After(v, ops), op)
  {
    assert (ops + [op])[..|ops|] == ops;
  }

  lemma Balance(given: multiset<Frame>, g: multiset<Frame>, held: multiset<Frame>, held': multiset<Frame>,
                taken: multiset<Frame>, t: multiset<Frame>)
    requires given == held + taken && held' + t == held + g
    ensures given + g == held' + (taken + t)
  {
    assert given + g == held + g + taken;
    assert held' + t + taken == held' + (taken + t);
  }

  /** In every run from the empty stack, the chunks before the last stay full, the spare chunk is there when it is
      needed, and the frames pushed are exactly those stored, those returned and those that chunks are kept in. */
  lemma {:induction false} RunInv(ops: seq<Op>)
    ensures After(Empty, ops).Inv()
    ensures Given(ops) == Held(After(Empty, ops)) + Taken(Empty, ops)
  {
    if ops == [] {
    } else {
      hide View.Inv, Held, Do, After, Given, Taken, GivenBy, TakenBy;
      var before, op := ops[..|ops| - 1], ops[|ops| - 1];
      var v := After(Empty, before);
      RunInv(before);
      StepInv(v, op);
      LastOf(Empty, ops);
      Balance(Given(before), GivenBy(op), Held(v), Held(Do(v, op)), Taken(Empty, before), TakenBy(v, op));
    }
  }

  lemma TopIsStored(ops: seq<Op>)
    ensures
      var v := After(Empty, ops);
      v.Stack? ==> v.top <= |v.contents| && (v.full > 0 <==> v.top < |v.contents|)
  {
    hide After;
    RunInv(ops);
  }

  function Pushes(frames: seq<Frame>): (ops: seq<Op>)
    ensures |ops| == |frames|
  {
    if frames == [] then [] else Pushes(frames[..|frames| - 1]) + [DoPush(frames[|frames| - 1])]
  }

  function Pops(n: nat): (ops: seq<Op>)
    ensures |ops| == n
  {
    if n == 0 then [] else Pops(n - 1) + [DoPop]
  }

  /** A chunk takes 507 frames: 506 to store, and one for the chunk behind it. */
  const PERIOD: nat := MAX + 1

  /** The stack after `k + 2` pushes in a row. */
  ghost predicate Grown(v: View, k: nat) {
    && v.Stack? && v.full == k / PERIOD
    && v.top == (if k % PERIOD < SPARE_AT then k % PERIOD + 1 else k % PERIOD)
    && (v.spare <==> k % PERIOD >= SPARE_AT)
  }

  lemma NextInPeriod(k: nat)
    ensures if k % PERIOD < PERIOD - 1 then (k + 1) / PERIOD == k / PERIOD && (k + 1) % PERIOD == k % PERIOD + 1
            else (k + 1) / PERIOD == k / PERIOD + 1 && (k + 1) % PERIOD == 0
  {
  }

  lemma GrownNext(v: View, k: nat, frame: Frame)
    requires Grown(v, k)
    ensures Grown(Pushed(v, frame), k + 1)
  {
    NextInPeriod(k);
  }

  /** What `n` pushes in a row leave: how many chunks before the last, and how many frames in the last. */
  lemma {:induction false} AfterPushes(frames: seq<Frame>)
    requires |frames| > 1
    ensures
      var k := |frames| - 2;
      var v := After(Empty, Pushes(frames));
      && v.Stack? && v.full == k / 507
      && v.top == (if k % 507 < 406 then k % 507 + 1 else k % 507)
      && (v.spare <==> k % 507 >= 406)
  {
    var before := frames[..|frames| - 1];
    AfterOne(Empty, Pushes(before), DoPush(frames[|frames| - 1]));
    if |frames| == 2 {
      AfterOne(Empty, Pushes(before[..0]), DoPush(before[0]));
    } else {
      AfterPushes(before);
      GrownNext(After(Empty, Pushes(before)), |before| - 2, frames[|frames| - 1]);
    }
  }

  /** The stack after `n` frames were popped from its last chunk. */
  function Shortened(v: View, n: nat): View
    requires v.Stack? && n <= v.top <= |v.contents|
  {
    v.(top := v.top - n, contents := v.contents[..|v.contents| - n])
  }

  lemma ShortenedNext(v: View, n: nat)
    requires v.Stack? && n <= v.top <= |v.contents|
    ensures Shortened(v, 0) == v
    ensures n < v.top ==> Do(Shortened(v, n), DoPop) == Shortened(v, n + 1)
  {
    var rest := v.contents[..|v.contents| - n];
    if n < v.top {
      assert rest[..|rest| - 1] == v.contents[..|v.contents| - n - 1];
    }
  }

  lemma ShortenedOutcome(v: View, n: nat)
    requires v.Stack? && n <= v.top <= |v.contents| && (v.full > 0 <==> v.top < |v.contents|)
    ensures PopOutcome(Shortened(v, n)) ==
      if n < v.top then Outcome.Frame(v.contents[|v.contents| - 1 - n]) else if v.full > 0 then Drained else OutOfMemory
  {
  }

  lemma {:induction false} AfterPops(v: View, ops: seq<Op>, n: nat)
    requires v == After(Empty, ops) && v.Stack? && n <= v.top <= |v.contents|
    ensures After(Empty, ops + Pops(n)) == Shortened(v, n)
  {
    hide After, Do, Shortened;
    if n == 0 {
      assert ops + Pops(0) == ops;
      ShortenedNext(v, 0);
    } else {
      AfterPops(v, ops, n - 1);
      AfterOne(Empty, ops + Pops(n - 1), DoPop);
      assert ops + Pops(n) == ops + Pops(n - 1) + [DoPop];
      ShortenedNext(v, n - 1);
    }
  }

  /** When `pop` is wrong: after any run it reads outside the chunk exactly when the last chunk stores nothing
      although an earlier one does. */
  lemma DrainedIff(ops: seq<Op>)
    ensures
      var v := After(Empty, ops);
      PopOutcome(v) == Drained <==> v.Stack? && v.top == 0 && v.full > 0
  {
    RunInv(ops);
  }

  /** After any run, exactly as many pops in a row work as the last chunk stores frames, and they return them newest
      first; the next one is wrong as soon as there is a chunk before. */
  lemma PopsThatWork(ops: seq<Op>, n: nat)
    requires After(Empty, ops).Stack? && n <= After(Empty, ops).top
    ensures After(Empty, ops).top <= |After(Empty, ops).contents|
    ensures
      var v := After(Empty, ops);
      PopOutcome(After(Empty, ops + Pops(n))) ==
        if n < v.top then Outcome.Frame(v.contents[|v.contents| - 1 - n]) else if v.full > 0 then Drained
          else OutOfMemory
  {
    hide After, Shortened, PopOutcome;
    TopIsStored(ops);
    AfterPops(After(Empty, ops), ops, n);
    ShortenedOutcome(After(Empty, ops), n);
  }

  /** So 509 pushes and two pops suffice: the second pop is wrong, with 506 frames stored. */
  lemma DrainedAfter509(frames: seq<Frame>)
    requires |frames| == 509
    ensures
      var v := After(Empty, Pushes(frames) + Pops(1));
      PopOutcome(v) == Drained && |v.Contents()| == 506
  {
    AfterPushes(frames);
    PopsThatWork(Pushes(frames), 1);
    AfterPops(After(Empty, Pushes(frames)), Pushes(frames), 1);
    RunInv(Pushes(frames));
  }

  // ---------------------------------------------------------------------------------------------
  // The frames of a memory map
  // ---------------------------------------------------------------------------------------------

  const MIB: nat := 1024 * 1024

  /** The kind of an entry that is usable memory. */
  const USABLE: nat := 1

  datatype Entry = Entry(base: nat, length: nat, kind: nat) {
    function End(): nat { base + length }
  }

  predicate Offers(e: Entry) {
    e.kind == USABLE && (e.base >= MIB || e.End() > MIB)
  }

  function FirstFrame(e: Entry): nat {
    if e.base < MIB then MIB else (e.base + PAGE - 1) / PAGE * PAGE
  }

  function Frames(from: nat, end: nat): seq<Frame>
    decreases end - from
  {
    if from >= end then [] else [from] + Frames(from + PAGE, end)
  }

  function FramesOf(e: Entry): seq<Frame> {
    if Offers(e) then Frames(FirstFrame(e), e.End()) else []
  }

  function Available(entries: seq<Entry>): seq<Frame> {
    if entries == [] then [] else Available(entries[..|entries| - 1]) + FramesOf(entries[|entries| - 1])
  }

  lemma {:induction false} FramesAre(from: nat, end: nat)
    requires from % PAGE == 0
    ensures forall f {:trigger f in Frames(from, end)} :: f in Frames(from, end) <==> from <= f < end && f % PAGE == 0
    ensures forall i, j :: 0 <= i < j < |Frames(from, end)| ==> Frames(from, end)[i] < Frames(from, end)[j]
    decreases end - from
  {
    if from < end {
      FramesAre(from + PAGE, end);
      var rest := Frames(from + PAGE, end);
      assert Frames(from, end) == [from] + rest;
      forall f: Frame ensures f in Frames(from, end) <==> from <= f < end && f % PAGE == 0 {
        assert f in Frames(from, end) <==> f == from || f in rest;
        if f % PAGE == 0 && from < f { NextAligned(from, f); }
      }
      forall j | 0 <= j < |rest| ensures from < rest[j] { assert rest[j] in rest; }
    }
  }

  lemma NextAligned(from: nat, f: nat)
    requires from % PAGE == 0 && f % PAGE == 0 && from < f
    ensures from + PAGE <= f
  {
  }

  lemma FramesOfAre(e: Entry, f: Frame)
    ensures f in FramesOf(e) <==> f >= MIB && f % PAGE == 0 && Covers(e, f)
  {
    FramesAre(FirstFrame(e), e.End());
  }

  /** The frame starts in the entry, which is usable. */
  predicate Covers(e: Entry, f: Frame) {
    e.kind == 1 && e.base <= f < e.base + e.length
  }

  ghost predicate Covered(entries: seq<Entry>, f: Frame) {
    exists i :: 0 <= i < |entries| && Covers(entries[i], f)
  }

  lemma CoveredSnoc(entries: seq<Entry>, e: Entry, f: Frame)
    ensures Covered(entries + [e], f) <==> Covered(entries, f) || Covers(e, f)
  {
    var all := entries + [e];
    assert all[|entries|] == e;
    if Covered(entries, f) {
      var i :| 0 <= i < |entries| && Covers(entries[i], f);
      assert all[i] == entries[i];
    }
  }

  /** Exactly the aligned frames from one megabyte on that start in a usable entry are pushed. */
  lemma {:induction false} AvailableAre(entries: seq<Entry>, f: Frame)
    ensures f in Available(entries) <==> f >= 0x10_0000 && f % 0x1000 == 0 && Covered(entries, f)
  {
    if entries == [] {
    } else {
      var before, e := entries[..|entries| - 1], entries[|entries| - 1];
      AvailableAre(before, f);
      FramesOfAre(e, f);
      assert entries == before + [e];
      hide Covered, FramesOf;
      CoveredSnoc(before, e, f);
    }
  }

  lemma AvailableLast(entries: seq<Entry>, e: Entry)
    ensures Available(entries + [e]) == Available(entries) + FramesOf(e)
  {
    hide FramesOf;
    assert (entries + [e])[..|entries|] == entries;
  }

  lemma Regroup<T>(xs: seq<T>, ys: seq<T>, zs: seq<T>)
    ensures xs + ys + zs == xs + (ys + zs)
  {
  }

  lemma AvailableJoinOne(entries: seq<Entry>, more: seq<Entry>, e: Entry)
    requires Available(entries + more) == Available(entries) + Available(more)
    ensures Available(entries + (more + [e])) == Available(entries) + Available(more + [e])
  {
    hide Available, FramesOf;
    AvailableLast(more, e);
    AvailableLast(entries + more, e);
    Regroup(entries, more, [e]);
    Regroup(Available(entries), Available(more), FramesOf(e));
  }

  lemma LastAgain<T>(xs: seq<T>)
    requires xs != []
    ensures xs[..|xs| - 1] + [xs[|xs| - 1]] == xs
  {
  }

  lemma {:induction false} AvailableJoin(entries: seq<Entry>, more: seq<Entry>)
    ensures Available(entries + more) == Available(entries) + Available(more)
  {
    if more == [] {
      assert entries + more == entries;
    } else {
      hide *;
      var before, e := more[..|more| - 1], more[|more| - 1];
      LastAgain(more);
      AvailableJoin(entries, before);
      AvailableJoinOne(entries, before, e);
    }
  }

  lemma Around<T>(xs: seq<T>, i: nat)
    requires i < |xs|
    ensures xs[..i] + [xs[i]] + xs[i + 1..] == xs
  {
  }

  lemma Ascending(e: Entry)
    ensures forall j, k :: 0 <= j < k < |FramesOf(e)| ==> FramesOf(e)[j] < FramesOf(e)[k]
  {
    FramesAre(FirstFrame(e), e.End());
  }

  /** Their order: the frames of an entry, in ascending order, come after those of the entries before it and before
      those of the entries behind it. */
  lemma InOrder(entries: seq<Entry>, i: nat)
    requires i < |entries|
    ensures Available(entries) == Available(entries[..i]) + FramesOf(entries[i]) + Available(entries[i + 1..])
    ensures forall j, k :: 0 <= j < k < |FramesOf(entries[i])| ==> FramesOf(entries[i])[j] < FramesOf(entries[i])[k]
  {
    Ascending(entries[i]);
    hide *;
    Around(entries, i);
    AvailableLast(entries[..i], entries[i]);
    AvailableJoin(entries[..i] + [entries[i]], entries[i + 1..]);
  }

  ghost predicate Disjoint(entries: seq<Entry>) {
    forall i, j :: 0 <= i < |entries| && 0 <= j < |entries| && i != j ==>
             entries[i].End() <= entries[j].base || entries[j].End() <= entries[i].base
  }

  /** No frame is pushed twice when the usable entries do not overlap. */
  lemma {:induction false} NoFrameTwice(entries: seq<Entry>)
    requires Disjoint(entries)
    ensures NoDuplicates(Available(entries))
  {
    if entries == [] {
    } else {
      var before, e := entries[..|entries| - 1], entries[|entries| - 1];
      NoFrameTwice(before);
      FramesAre(FirstFrame(e), e.End());
      forall f | f in FramesOf(e) ensures f !in Available(before) {
        FramesOfAre(e, f);
        AvailableAre(before, f);
        assert forall i :: 0 <= i < |before| ==>
                 before[i] == entries[i] && (entries[i].End() <= e.base || e.End() <= entries[i].base);
      }
      NoDuplicatesJoin(Available(before), FramesOf(e));
    }
  }

  /** Every frame of an entry lies in it to its end exactly when the entry ends on a page boundary, or has none. */
  lemma WholeIff(e: Entry)
    ensures (forall f :: f in FramesOf(e) ==> f + PAGE <= e.End()) <==> FramesOf(e) == [] || e.End() % PAGE == 0
  {
    if FramesOf(e) != [] {
      var last := (e.End() - 1) / PAGE * PAGE;
      var some := FramesOf(e)[0];
      FramesOfAre(e, some);
      FramesOfAre(e, last);
      assert last in FramesOf(e);
      forall f | f in FramesOf(e) && e.End() % PAGE == 0 ensures f + PAGE <= e.End() {
        FramesOfAre(e, f);
        NextAligned(f, e.End());
      }
    }
  }

  lemma {:induction false} FramesSnoc(from: nat, n: nat)
    ensures Frames(from, from + n * PAGE + PAGE) == Frames(from, from + n * PAGE) + [from + n * PAGE]
    decreases n
  {
    if n > 0 {
      FramesSnoc(from + PAGE, n - 1);
    } else {
      assert Frames(from + PAGE, from + PAGE) == [];
    }
  }

  /** Frames that start in the last page still come before its end. */
  lemma {:induction false} FramesUpTo(from: nat, end: nat, limit: nat)
    requires end <= limit < end + PAGE && from <= limit && (limit - from) % PAGE == 0
    ensures Frames(from, end) == Frames(from, limit)
    decreases limit + PAGE - from
  {
    if from < end {
      FramesUpTo(from + PAGE, end, limit);
    }
  }

  lemma EmptyMap()
    ensures After(Empty, Pushes(Available([]))) == Empty
  {
  }

  lemma AvailableSnoc(entries: seq<Entry>, i: nat)
    requires i < |entries|
    ensures Available(entries[..i + 1]) == Available(entries[..i]) + FramesOf(entries[i])
  {
    assert entries[..i + 1][..i] == entries[..i];
  }

  lemma PushesSnoc(frames: seq<Frame>, frame: Frame)
    ensures After(Empty, Pushes(frames + [frame])) == Pushed(After(Empty, Pushes(frames)), frame)
  {
    assert (frames + [frame])[..|frames|] == frames;
    AfterOne(Empty, Pushes(frames), DoPush(frame));
  }

  // ---------------------------------------------------------------------------------------------
  // The linked chunks
  // ---------------------------------------------------------------------------------------------

  type Buffer = b: seq<Frame> | |b| == MAX witness seq(MAX, _ => 0)

  class Chunk {
    var prev: Chunk?
    var next: Chunk?
    var size: nat
    var stack: Buffer

    /** The frame that the chunk is kept in. */
    ghost const frame: Frame

    constructor (frame: Frame)
      ensures prev == null && next == null && size == 0 && this.frame == frame
    {
      prev, next, size := null, null, 0;
      stack := seq(MAX, _ => 0);
      this.frame := frame;
    }
  }

  class GlobalStack {
    var first: Chunk?
    var last: Chunk?
    var size: nat

    /** The chunks from the first on, how many are before the last one, and the frames they store and are kept in. */
    ghost var chunks: seq<Chunk>
    ghost var full: nat
    ghost var contents: seq<Frame>
    ghost var backing: seq<Frame>

    ghost function Repr(): set<Chunk>
      reads this
    {
      set c | c in chunks
    }

    ghost predicate Linked()
      reads this, chunks
    {
      && (forall i, j {:trigger chunks[i], chunks[j]} :: 0 <= i < j < |chunks| ==> chunks[i] != chunks[j])
      && (forall i {:trigger chunks[i].next} :: 0 <= i < |chunks| ==>
             chunks[i].next == if i + 1 < |chunks| then chunks[i + 1] else null)
      && (forall i {:trigger chunks[i].prev} :: 0 <= i < |chunks| ==>
             chunks[i].prev == if i > 0 then chunks[i - 1] else null)
      && |backing| == |chunks|
      && (forall i {:trigger backing[i]} :: 0 <= i < |chunks| ==> backing[i] == chunks[i].frame)
    }

    ghost predicate Sized()
      reads this, chunks
    {
      && full < |chunks| <= full + 2
      && (forall i {:trigger chunks[i]} :: 0 <= i < |chunks| && i != full ==>
             chunks[i].size == if i < full then MAX else 0)
      && chunks[full].size <= MAX
      && (chunks[full].size > SPARE_AT ==> |chunks| == full + 2)
      && size == |contents| == full * MAX + chunks[full].size
    }

    /** The chunk stores the frames from `at` on. */
    static ghost predicate Holds(c: Chunk, frames: seq<Frame>, at: nat)
      reads c
    {
      && c.size <= MAX && at + c.size <= |frames|
      && forall j {:trigger c.stack[j]} :: 0 <= j < c.size ==> c.stack[j] == frames[at + j]
    }

    ghost predicate Stored()
      reads this, chunks
    {
      forall i {:trigger chunks[i]} :: 0 <= i < |chunks| && i <= full ==> Holds(chunks[i], contents, i * MAX)
    }

    ghost predicate Valid()
      reads this, chunks
    {
      Whole(
        && Linked()
        && if chunks == [] then first == null && last == null && contents == [] && size == 0 && full == 0
           else Sized() && Stored() && first == chunks[0] && last == chunks[full])
    }

    ghost function View(): View
      reads this, chunks
      requires Valid()
    {
      if chunks == [] then Empty
      else Stack(full, chunks[full].size, |chunks| == full + 2, contents, backing)
    }

    constructor ()
      ensures Valid() && View() == Empty && chunks == []
    {
      first, last, size := null, null, 0;
      chunks, full, contents, backing := [], 0, [], [];
    }

    /** The last chunk, and the one behind it. */
    lemma AtLast()
      requires Valid() && chunks != []
      ensures full < |chunks| && last == chunks[full] && last.size <= MAX
      ensures last.next == (if |chunks| == full + 2 then chunks[full + 1] else null)
      ensures last.size > SPARE_AT ==> |chunks| == full + 2
      ensures |chunks| == full + 2 ==> chunks[full + 1].size == 0 && chunks[full + 1].next == null
      ensures last != first <==> full > 0
    {
      assert chunks[full] == last && chunks[0] == first;
    }

    method AddSpare(frame: Frame)
      requires Valid() && chunks != [] && last.size == SPARE_AT && last.next == null
      modifies this, Repr()
      ensures Valid() && View() == Pushed(old(View()), frame)
      ensures fresh(Repr() - old(Repr()))
    {
      AtLast();
      var spare := new Chunk(frame);
      last.next := spare;
      spare.prev := last;
      chunks := chunks + [spare];
      backing := backing + [frame];
    }

    /** Appends to the last chunk. */
    method Store(frame: Frame)
      requires Valid() && chunks != [] && last.size < MAX && !(last.size == SPARE_AT && last.next == null)
      modifies this, Repr()
      ensures Valid() && View() == Pushed(old(View()), frame) && chunks == old(chunks)
    {
      AtLast();
      last.stack := last.stack[last.size := frame];
      last.size := last.size + 1;
      size := size + 1;
      contents := contents + [frame];
    }

    /** The full last chunk becomes one of those before the last. */
    method Advance()
      requires Valid() && chunks != [] && last.size == MAX
      modifies this`last, this`full
      ensures Valid() && old(View()).Stack? && View() == old(View()).(full := old(full) + 1, top := 0, spare := false)
    {
      AtLast();
      last := last.next;
      full := full + 1;
      assert Holds(chunks[full], contents, full * MAX);
    }

    method Push(frame: Frame)
      requires Valid()
      modifies this, Repr()
      ensures Valid() && View() == Pushed(old(View()), frame)
      ensures fresh(Repr() - old(Repr()))
    {
      if first == null {
        first := new Chunk(frame);
        last := first;
        chunks, full, backing := [first], 0, [frame];
        return;
      }
      AtLast();
      if last.size == SPARE_AT && last.next == null {
        AddSpare(frame);
        return;
      }
      if last.size == MAX {
        Advance();
      }
      AtLast();
      Store(frame);
    }

    /** Pushes the frames of one entry. */
    method PushEntry(e: Entry, ghost done: seq<Frame>)
      requires Valid() && View() == After(Empty, Pushes(done))
      modifies this, Repr()
      ensures Valid() && View() == After(Empty, Pushes(done + FramesOf(e)))
      ensures fresh(Repr() - old(Repr()))
    {
      hide After, Pushes, Pushed, Valid, View;
      if Offers(e) {
        var first := FirstFrame(e);
        var frame := first;
        assert done + Frames(first, frame) == done;
        while frame < e.End()
          invariant Valid() && fresh(Repr() - old(Repr()))
          invariant first <= frame < e.End() + PAGE && (frame - first) % PAGE == 0
          invariant View() == After(Empty, Pushes(done + Frames(first, frame)))
          decreases e.End() + PAGE - frame
        {
          FramesSnoc(first, (frame - first) / PAGE);
          PushesSnoc(done + Frames(first, frame), frame);
          assert done + Frames(first, frame + PAGE) == done + Frames(first, frame) + [frame];
          Push(frame);
          frame := frame + PAGE;
        }
        FramesUpTo(first, e.End(), frame);
      } else {
        assert done + [] == done;
      }
    }

    method PushMap(entries: seq<Entry>)
      requires Valid() && View() == Empty
      modifies this, Repr()
      ensures Valid() && View() == After(Empty, Pushes(Available(entries)))
    {
      hide Valid, View, After, Pushes, Pushed, Available;
      EmptyMap();
      assert entries[..0] == [];
      var i := 0;
      while i < |entries|
        invariant i <= |entries| && Valid() && fresh(Repr() - old(Repr()))
        invariant View() == After(Empty, Pushes(Available(entries[..i])))
      {
        AvailableSnoc(entries, i);
        PushEntry(entries[i], Available(entries[..i]));
        i := i + 1;
      }
      assert entries[..i] == entries;
    }

    /** A stack of the frames of a memory map. */
    constructor FromMap(entries: seq<Entry>)
      ensures Valid() && View() == After(Empty, Pushes(Available(entries)))
    {
      first, last, size := null, null, 0;
      chunks, full, contents, backing := [], 0, [], [];
      new;
      assert Valid() && View() == Empty;
      PushMap(entries);
    }

    /** Takes the newest frame out of the last chunk. */
    method TakeTop() returns (frame: Frame)
      requires Valid() && chunks != [] && last.size > 0
      modifies this, Repr()
      ensures Valid() && PopOutcome(old(View())) == Outcome.Frame(frame) && View() == Popped(old(View()))
      ensures chunks == old(chunks) && last == old(last) && first == old(first) && last.size == old(last.size) - 1
      ensures last.next == old(last.next)
    {
      AtLast();
      last.size := last.size - 1;
      frame := last.stack[last.size];
      size := size - 1;
      contents := contents[..|contents| - 1];
    }

    /** The last test looks behind the spare chunk: there always is one then. */
    method Pop() returns (outcome: Outcome)
      requires Valid()
      modifies this, Repr()
      ensures Valid() && outcome == PopOutcome(old(View())) && View() == Popped(old(View()))
      ensures chunks == old(chunks)
    {
      if size == 0 { return OutOfMemory; }
      if last.size == 0 { return Drained; }
      AtLast();
      var frame := TakeTop();
      if last != first && last.size == MAX - 50 {
        var behind := last.next.next;
      }
      return Outcome.Frame(frame);
    }
  }
}
