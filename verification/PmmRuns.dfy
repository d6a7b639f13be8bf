/** Arbitrary runs of the physical storage manager, as the code performs them. */
module PmmRuns {
  import opened Words
  import opened PmmTiling
  import opened PmmFacts
  import opened PmmAllocation
  import opened PmmRelease
  import opened PmmCanonical
  import opened PmmMemory

  datatype Op = Create(base: nat, bytes: nat) | Alloc(size: nat, align: nat) | Free(ptr: nat)

  /** Memory, what its clients hold (address and requested size), and for each region
      the largest number of USED blocks it ever had, its table included. */
  datatype State = State(m: Memory, held: set<(nat, nat)>, peaks: seq<nat>)

  const BOOT: State := State(seq(MAX_REGIONS, i => None), {}, seq(MAX_REGIONS, i => 0))

  function UsedIn(m: Memory, j: nat): nat
    requires j < |m|
  {
    if m[j].None? then 0 else UsedCount(m[j].value.t)
  }

  /** Every peak is raised to what memory shows now. */
  function Raised(peaks: seq<nat>, m: Memory): (r: seq<nat>)
    ensures |r| == |peaks|
    ensures forall j :: 0 <= j < |peaks| ==> peaks[j] <= r[j] && (j < |m| ==> UsedIn(m, j) <= r[j])
  {
    seq(|peaks|, j requires 0 <= j < |peaks| =>
      if j < |m| && UsedIn(m, j) > peaks[j] then UsedIn(m, j) else peaks[j])
  }

  /** The state a call leaves behind. */
  function Now(s: State, m: Memory, held: set<(nat, nat)>): State {
    State(m, held, Raised(s.peaks, m))
  }

  /** What the kernel may expect of its clients: they free only what they hold. */
  ghost predicate Asked(s: State, op: Op) {
    match op
    case Create(base, bytes) =>
      && bytes >= 2048 && base + bytes < WORD
      && forall j :: 0 <= j < |s.m| && s.m[j].Some? ==> Separate(s.m[j].value, base, bytes)
    case Alloc(size, _) => size > 0
    case Free(p) => exists x <- s.held :: x.0 == p
  }

  /** When the code does what it is asked: the request fits where it is put, and,
      for the closed test of the code, no USED block ends at the pointer. */
  ghost predicate Legal(s: State, op: Op, closed: bool)
    requires Shapely(s.m)
  {
    Asked(s, op) &&
    match op
    case Create(_, _) => true
    case Alloc(size, align) => Fitting(s.m, 0, size, align)
    case Free(p) => !closed || !UsedEndsAt(s.m, p)
  }

  /** One call, with the closed free test of the code or the half-open one; None
      when the kernel panics. */
  ghost function Step(s: State, op: Op, closed: bool): Option<State>
    requires Shapely(s.m) && Asked(s, op)
  {
    match op
    case Create(base, bytes) =>
      (match CreateFrom(s.m, 0, base, bytes)
       case None => None
       case Some(m) => Some(Now(s, m, s.held)))
    case Alloc(size, align) =>
      (match Requested(s.m, size, align)
       case Halt => None
       case Return(None, m) => Some(Now(s, m, s.held))
       case Return(Some(p), m) => Some(Now(s, m, s.held + {(p, size)})))
    case Free(p) =>
      Some(Now(s, FreeFrom(s.m, 0, p, closed), set x | x in s.held && x.0 != p))
  }

  /** What every reachable state satisfies. */
  ghost predicate Safe(s: State) {
    && |s.m| == MAX_REGIONS && Inv(s.m)
    && s.held == LiveIn(s.m)
    && |s.peaks| == MAX_REGIONS
    && (forall j :: 0 <= j < MAX_REGIONS ==> UsedIn(s.m, j) <= s.peaks[j])
    && TablesBounded(s.m, s.peaks)
  }

  ghost predicate TablesBounded(m: Memory, peaks: seq<nat>)
    requires |m| == |peaks|
  {
    forall j :: 0 <= j < |m| && m[j].Some? ==> TableBounded(m[j].value, peaks[j])
  }

  /** The table is as first made, or was needed for the region's peak. */
  ghost predicate TableBounded(r: Region, peak: nat) {
    |r.t| > 0 && (Capacity(r.t) == r.size / 2048 + 1 || Capacity(r.t) <= 2 * peak + 33)
  }

  /** A run of legal calls. */
  ghost predicate Reaches(s: State, ops: seq<Op>, e: State, closed: bool)
    decreases |ops|
  {
    if ops == [] then s == e
    else
      && Shapely(s.m) && Legal(s, ops[0], closed) && Step(s, ops[0], closed).Some?
      && Reaches(Step(s, ops[0], closed).value, ops[1..], e, closed)
  }

  // ---------- counting ----------

  /** There is one USED block per live allocation, besides the table. */
  lemma {:induction false} CountIsSize(t: Tiling, at: nat)
    requires forall b <- t :: b.used ==> b.size > 0
    ensures UsedCount(t) == |UsedFrom(t, at)|
  {
    if t != [] {
      var rest, next := UsedFrom(t[1..], at + t[0].size), at + t[0].size;
      CountIsSize(t[1..], next);
      if t[0].used {
        if (at, t[0].size) in rest {
          UsedBounds(t[1..], next, (at, t[0].size));
        }
        assert UsedFrom(t, at) == {(at, t[0].size)} + rest;
      }
    }
  }

  lemma UsedCountLive(t: Tiling, base: nat, total: nat)
    requires Tiled(t, total)
    ensures UsedCount(t) == |Live(t, base)| + 1
  {
    CountIsSize(t[1..], base + t[0].size);
  }

  /** After an allocation every region's table is still bounded. */
  lemma {:induction false} AllocateBounded(m: Memory, i: nat, size: nat, align: nat, peaks: seq<nat>)
    requires Inv(m) && Shapely(m) && i <= |m| == |peaks| && size > 0 && Fitting(m, i, size, align)
    requires TablesBounded(m, peaks) && forall j :: 0 <= j < |m| ==> UsedIn(m, j) <= peaks[j]
    requires AllocateFrom(m, i, size, align).Return?
    ensures |AllocateFrom(m, i, size, align).m| == |m|
    ensures TablesBounded(AllocateFrom(m, i, size, align).m, peaks)
    decreases |m| - i
  {
    hide Tiled, Allocate, Sound, TableBounded;
    if i < |m| {
      if m[i].None? || Allocate(m[i].value.t, m[i].value.base, size, align) == Null {
        AllocateBounded(m, i + 1, size, align, peaks);
      } else {
        assert RegionOk(m[i].value) && UsedIn(m, i) <= peaks[i];
        RegionBounded(m[i].value, size, align, peaks[i]);
      }
    }
  }

  lemma RegionBounded(r: Region, size: nat, align: nat, peak: nat)
    requires RegionOk(r) && TableBounded(r, peak) && UsedCount(r.t) <= peak
    requires Allocate(r.t, r.base, size, align).Placed? && Sound(r.t, r.base, size, align)
    ensures TableBounded(r.(t := Allocate(r.t, r.base, size, align).t), peak)
  {
    hide Allocate, Sound, Live, Sum, UsedCount;
    AllocationSound(r.t, r.base, r.size, size, align);
    CapacityStep(r.t, r.base, r.size, size, align);
  }

  lemma {:induction false} CreateBounded(m: Memory, i: nat, base: nat, size: nat, peaks: seq<nat>)
    requires i <= |m| == |peaks| && size >= 2048 && CreateFrom(m, i, base, size).Some?
    requires TablesBounded(m, peaks)
    ensures |CreateFrom(m, i, base, size).value| == |m|
    ensures TablesBounded(CreateFrom(m, i, base, size).value, peaks)
    decreases |m| - i
  {
    if m[i].Some? {
      CreateBounded(m, i + 1, base, size, peaks);
    } else {
      FreshIsTiled(size, base);
    }
  }

  lemma FreeBounded(m: Memory, x: (nat, nat), peaks: seq<nat>)
    requires Inv(m) && x in LiveIn(m) && |m| == |peaks| && TablesBounded(m, peaks)
    ensures |FreeFrom(m, 0, x.0, false)| == |m|
    ensures TablesBounded(FreeFrom(m, 0, x.0, false), peaks)
  {
    var k :| 0 <= k < |m| && m[k].Some? && x in Live(m[k].value.t, m[k].value.base);
    var r := m[k].value;
    assert RegionOk(r);
    FreeReaches(m, 0, k, x, false);
    ReleaseSound(r.t, r.base, r.size, x);
  }

  lemma PeaksOnlyLoosen(m: Memory, p: seq<nat>, q: seq<nat>)
    requires |m| == |p| == |q| && TablesBounded(m, p) && forall j :: 0 <= j < |m| ==> p[j] <= q[j]
    ensures TablesBounded(m, q)
  {
  }

  // ---------- one step keeps everything ----------

  /** With the half-open test and unaligned requests nothing can go wrong. */
  lemma UnalignedIsLegal(s: State, op: Op)
    requires Shapely(s.m) && Asked(s, op) && (op.Alloc? ==> op.align == 0)
    ensures Legal(s, op, false)
  {
    if op.Alloc? {
      UnalignedFits(s.m, 0, op.size);
    }
  }

  /** One call keeps a safe state safe exactly when it is legal. */
  lemma StepSafeIff(s: State, op: Op, closed: bool)
    requires Safe(s) && Shapely(s.m) && Asked(s, op) && Step(s, op, closed).Some?
    ensures Safe(Step(s, op, closed).value) <==> Legal(s, op, closed)
  {
    hide Safe, UsedEndsAt, Fitting;
    if Legal(s, op, closed) {
      StepSafe(s, op, closed);
    } else if op.Alloc? {
      MisfitBreaks(s, op.size, op.align, closed);
    } else {
      WrongFreeBreaks(s, op.ptr);
    }
  }

  lemma StepSafe(s: State, op: Op, closed: bool)
    requires Safe(s) && Shapely(s.m) && Legal(s, op, closed) && Step(s, op, closed).Some?
    ensures Safe(Step(s, op, closed).value)
  {
    match op
    case Create(base, bytes) =>
      CreateStep(s.m, 0, base, bytes);
      CreateBounded(s.m, 0, base, bytes, s.peaks);
      var e := Step(s, op, closed).value;
      PeaksOnlyLoosen(e.m, s.peaks, e.peaks);
    case Alloc(size, align) =>
      AllocSafe(s, size, align, closed);
    case Free(p) =>
      FreeSafe(s, p, closed);
  }

  lemma AllocSafe(s: State, size: nat, align: nat, closed: bool)
    requires Safe(s) && Shapely(s.m) && size > 0 && Fitting(s.m, 0, size, align)
    requires Step(s, Alloc(size, align), closed).Some?
    ensures Safe(Step(s, Alloc(size, align), closed).value)
  {
    hide Inv, LiveIn, Fitting, AllocateFrom, TablesBounded;
    AllocateStep(s.m, 0, size, align);
    AllocateBounded(s.m, 0, size, align, s.peaks);
    var e := Step(s, Alloc(size, align), closed).value;
    PeaksOnlyLoosen(e.m, s.peaks, e.peaks);
  }

  lemma FreeSafe(s: State, p: nat, closed: bool)
    requires Safe(s) && Shapely(s.m) && Legal(s, Free(p), closed)
    ensures Safe(Step(s, Free(p), closed).value)
  {
    hide Inv, LiveIn, FreeFrom, TablesBounded, UsedEndsAt;
    var x :| x in s.held && x.0 == p;
    FreeStep(s.m, x);
    FreeBounded(s.m, x, s.peaks);
    var e := Step(s, Free(p), closed).value;
    PeaksOnlyLoosen(e.m, s.peaks, e.peaks);
    OneHolder(s, x);
    assert e.held == s.held - {x};
  }

  /** A request put where it does not fit leaves blocks that exceed the region. */
  lemma MisfitBreaks(s: State, size: nat, align: nat, closed: bool)
    requires Safe(s) && Shapely(s.m) && size > 0 && !Fitting(s.m, 0, size, align)
    requires Step(s, Alloc(size, align), closed).Some?
    ensures !Safe(Step(s, Alloc(size, align), closed).value)
  {
    hide Fitting, AllocateFrom, TablesBounded, LiveIn;
    MisfitTiling(s.m, 0, size, align);
  }

  lemma {:induction false} MisfitTiling(m: Memory, i: nat, size: nat, align: nat)
    requires Inv(m) && Shapely(m) && i <= |m| && size > 0 && !Fitting(m, i, size, align)
    requires AllocateFrom(m, i, size, align).Return?
    ensures AllocateFrom(m, i, size, align).ptr.Some? && !Inv(AllocateFrom(m, i, size, align).m)
    decreases |m| - i
  {
    if m[i].None? || Allocate(m[i].value.t, m[i].value.base, size, align) == Null {
      MisfitTiling(m, i + 1, size, align);
    } else {
      var r := m[i].value;
      assert RegionOk(r);
      MisfitSum(r.t, r.base, r.size, size, align);
      assert !RegionOk(AllocateFrom(m, i, size, align).m[i].value);
    }
  }

  lemma MisfitSum(t: Tiling, base: nat, total: nat, size: nat, align: nat)
    requires Tiled(t, total) && base + total < WORD
    requires Allocate(t, base, size, align).Placed? && !Sound(t, base, size, align)
    ensures Sum(Allocate(t, base, size, align).t) != total
  {
    TiledSum(t, total);
    hide Tiled, Fits, Accepts, LeftSize, RightSize, FirstFit, Place, Sum, Wrap, Allocate, Sound;
    var k, l, r := MisfitPieces(t, base, total, size, align);
    PlaceSum(t, k, l, size, r);
  }

  lemma TiledSum(t: Tiling, total: nat)
    requires Tiled(t, total)
    ensures Sum(t) == total
  {
  }

  /** A request put where it does not fit leaves a left part larger than the block. */
  lemma MisfitPieces(t: Tiling, base: nat, total: nat, size: nat, align: nat) returns (k: nat, l: nat, r: nat)
    requires Tiled(t, total) && base + total < WORD
    requires Allocate(t, base, size, align).Placed? && !Sound(t, base, size, align)
    ensures 1 <= k < |t| && |t| >= 2 && l > t[k].size
    ensures Place(t, k, l, size, r) == Some(Allocate(t, base, size, align).t)
  {
    hide Tiled, Fits, Accepts, LeftSize, RightSize, FirstFit, Place, Sum, Wrap, Allocate, Start;
    var f: Found;
    f, l, r := Anatomy(t, base, total, size, align);
    k := f.k;
    Misplacement(t[k].size, f.cur, size, align);
    FallsShort(f.cur, l, t[k].size);
  }

  /** Only a left part larger than the block leads to an address below it. */
  lemma FallsShort(cur: nat, l: nat, bytes: nat)
    requires cur + bytes < WORD && Wrap(cur + l) < cur
    ensures l > bytes
  {
  }

  /** Where a USED block ends at the pointer, the code leaves what was freed live. */
  lemma WrongFreeBreaks(s: State, p: nat)
    requires Safe(s) && Shapely(s.m) && Asked(s, Free(p)) && UsedEndsAt(s.m, p)
    ensures !Safe(Step(s, Free(p), true).value)
  {
    var x :| x in s.held && x.0 == p;
    assert x in LiveIn(s.m);
    FreeStepIff(s.m, x);
    assert x !in Step(s, Free(p), true).value.held;
  }

  lemma OneHolder(s: State, x: (nat, nat))
    requires Safe(s) && x in s.held
    ensures forall y <- s.held :: y.0 == x.0 ==> y == x
  {
    forall y | y in s.held && y.0 == x.0
      ensures y == x
    {
      if y != x {
        LiveApart(s.m, x, y);
      }
    }
  }

  // ---------- whole runs ----------

  lemma BootSafe()
    ensures Safe(BOOT)
  {
    assert LiveIn(BOOT.m) == {};
  }

  /** Safety of every run: whatever clients do that they may do, memory holds just
      what they hold, and every region is in order. */
  lemma {:induction false} RunsAreSafe(s: State, ops: seq<Op>, e: State, closed: bool)
    requires Safe(s) && Reaches(s, ops, e, closed)
    ensures Safe(e)
    decreases |ops|
  {
    if ops != [] {
      StepSafe(s, ops[0], closed);
      RunsAreSafe(Step(s, ops[0], closed).value, ops[1..], e, closed);
    }
  }

  /** An allocation lies inside a region and outside its descriptor table. */
  ghost predicate Housed(m: Memory, x: (nat, nat)) {
    exists i :: 0 <= i < |m| && m[i].Some? && |m[i].value.t| > 0
                && m[i].value.base + m[i].value.t[0].size <= x.0
                && x.0 + x.1 <= m[i].value.base + m[i].value.size
  }

  /** In a safe state the allocations held are disjoint, non-empty and housed. */
  lemma SafeMeansDisjoint(s: State)
    requires Safe(s)
    ensures forall x <- s.held, y <- s.held :: x != y ==> Apart(x, y)
    ensures forall x <- s.held :: 0 < x.1 && Housed(s.m, x)
  {
    forall x, y | x in s.held && y in s.held && x != y
      ensures Apart(x, y)
    {
      LiveApart(s.m, x, y);
    }
    forall x | x in s.held
      ensures 0 < x.1 && Housed(s.m, x)
    {
      LiveHoused(s.m, x);
    }
  }

  lemma LiveHoused(m: Memory, x: (nat, nat))
    requires Inv(m) && IsLive(m, x)
    ensures 0 < x.1 && Housed(m, x)
  {
    var i :| 0 <= i < |m| && m[i].Some? && x in Live(m[i].value.t, m[i].value.base);
    LiveInRegion(m, i, x);
    assert RegionOk(m[i].value);
  }

  /** From the empty memory: the whole story in one statement. */
  lemma RunFromBoot(ops: seq<Op>, e: State, closed: bool)
    requires Reaches(BOOT, ops, e, closed)
    ensures Safe(e)
    ensures forall x <- e.held, y <- e.held :: x != y ==> Apart(x, y)
    ensures forall x <- e.held :: 0 < x.1 && Housed(e.m, x)
    ensures forall j :: 0 <= j < |e.m| && e.m[j].Some? ==>
              && Sum(e.m[j].value.t) == e.m[j].value.size
              && TableBounded(e.m[j].value, e.peaks[j])
  {
    BootSafe();
    RunsAreSafe(BOOT, ops, e, closed);
    SafeMeansDisjoint(e);
    forall j | 0 <= j < |e.m| && e.m[j].Some?
      ensures Sum(e.m[j].value.t) == e.m[j].value.size
    {
      assert RegionOk(e.m[j].value);
    }
  }

  ghost predicate Pristine(r: Region) {
    |r.t| == 2 && r.t[0].used && !r.t[1].used && r.t[0].size + r.t[1].size == r.size
  }

  /** Clients that free everything they hold, in whatever order, leave every region
      as one table and one FREE block. */
  lemma NothingHeld(ops: seq<Op>, e: State, closed: bool)
    requires Reaches(BOOT, ops, e, closed) && e.held == {}
    ensures forall j :: 0 <= j < |e.m| && e.m[j].Some? ==> Pristine(e.m[j].value)
  {
    BootSafe();
    RunsAreSafe(BOOT, ops, e, closed);
    forall j | 0 <= j < |e.m| && e.m[j].Some?
      ensures Pristine(e.m[j].value)
    {
      var r := e.m[j].value;
      assert RegionOk(r);
      forall x
        ensures x !in Live(r.t, r.base)
      {
        assert x !in LiveIn(e.m);
      }
      EmptyIsTwoBlocks(r.t, r.base, r.size);
    }
  }

  // ---------- what goes wrong outside the legal runs ----------

  const ONE_HELD: Tiling := [Block(768, true), Block(130202, false), Block(100, true)]
  const TWO_HELD: Tiling := [Block(768, true), Block(130152, false), Block(50, true), Block(100, true)]

  /** The region kmain creates, after two unaligned requests: freeing the first
      pointer, which is live, frees the second allocation instead. */
  lemma FreeingOneFreesTheOther()
    ensures var base, p1, p2 := 0xF0000, 0xF0000 + 130970, 0xF0000 + 130920;
            && Allocate(Fresh(131070), base, 100, 0) == Placed(p1, ONE_HELD)
            && Allocate(ONE_HELD, base, 50, 0) == Placed(p2, TWO_HELD)
            && Live(TWO_HELD, base) == {(p1, 100), (p2, 50)}
            && Live(Release(TWO_HELD, base, p1, true), base) == {(p1, 100)}
  {
    var t0, base, total := Fresh(131070), 0xF0000, 131070;
    FreshIsTiled(total, base);
    UnalignedOnTwo(t0, base, total, 100);
    AllocationSound(t0, base, total, 100, 0);
    assert Allocate(t0, base, 100, 0) == Placed(base + 130970, ONE_HELD);
    SecondRequest(base, total);
    AllocationSound(ONE_HELD, base, total, 50, 0);
    ThirdCall(base, total);
  }

  lemma SecondRequest(base: nat, total: nat)
    requires base == 0xF0000 && total == 131070
    ensures Allocate(ONE_HELD, base, 50, 0) == Placed(base + 130920, TWO_HELD)
  {
    assert FirstFit(ONE_HELD, 0, base, 50, 0) == FirstFit(ONE_HELD, 1, base + 768, 50, 0) == Some(Found(1, base + 768));
    assert Cut(ONE_HELD, 1, 130152, 50, 0) == TWO_HELD;
  }

  lemma ThirdCall(base: nat, total: nat)
    requires base == 0xF0000 && total == 131070 && Tiled(TWO_HELD, total)
    requires Live(TWO_HELD, base) == {(base + 130970, 100), (base + 130920, 50)}
    ensures Live(Release(TWO_HELD, base, base + 130970, true), base) == {(base + 130970, 100)}
  {
    var t2, p := TWO_HELD, base + 130970;
    assert FreeScan(t2, 0, base, p, true) == FreeScan(t2, 1, base + 768, p, true)
           == FreeScan(t2, 2, base + 130920, p, true) == Hit(2);
    HeadTwo(t2[..2], base);
    assert t2[..2][2..] == [];
    FreeAtSound(t2, base, total, 2);
  }

  lemma UnalignedOnTwo(t: Tiling, base: nat, total: nat, size: nat)
    requires Tiled(t, total) && |t| == 2 && !t[1].used && base + total < WORD
    requires 0 < size < t[1].size && Capacity(t) >= 3
    ensures Allocate(t, base, size, 0)
            == Placed(base + t[0].size + t[1].size - size, [t[0], Block(t[1].size - size, false), Block(size, true)])
  {
    HeadTwo(t, base);
    assert t[2..] == [];
    var at := base + t[0].size;
    assert FirstFit(t, 0, base, size, 0) == FirstFit(t, 1, at, size, 0) == Some(Found(1, at));
    Placement(t[1].size, base + t[0].size, size, 0);
    assert Cut(t, 1, t[1].size - size, size, 0) == [t[0], Block(t[1].size - size, false), Block(size, true)];
  }

  /** Memory with the region that kmain creates, cut up in this way. */
  function BootMemory(t: Tiling): Memory {
    seq(MAX_REGIONS, i => if i == 0 then Some(Region(0xF0000, 131070, t)) else None)
  }

  /** The run of one call in which kmain creates its region. */
  lemma FreshRegion(closed: bool) returns (s: State)
    ensures Reaches(BOOT, [Create(0xF0000, 131070)], s, closed)
    ensures s.m == BootMemory(Fresh(131070)) && s.held == {}
  {
    hide Fresh, Raised;
    assert Shapely(BOOT.m);
    var m := BootMemory(Fresh(131070));
    assert BOOT.m[0 := Some(Region(0xF0000, 131070, Fresh(131070)))] == m;
    assert CreateFrom(BOOT.m, 0, 0xF0000, 131070) == Some(m);
    s := Now(BOOT, m, {});
    assert Step(BOOT, Create(0xF0000, 131070), closed) == Some(s);
    assert Reaches(s, [], s, closed);
    assert [Create(0xF0000, 131070)][1..] == [];
  }

  /** A run in which a client gets 100 bytes, unaligned. */
  lemma FirstRequest(closed: bool) returns (s: State)
    ensures Reaches(BOOT, [Create(0xF0000, 131070), Alloc(100, 0)], s, closed)
    ensures s.m == BootMemory(ONE_HELD) && s.held == {(0xF0000 + 130970, 100)}
  {
    FreshIsTiled(131070, 0xF0000);
    UnalignedOnTwo(Fresh(131070), 0xF0000, 131070, 100);
    s := OneRequest(100, 0, 0xF0000 + 130970, ONE_HELD, closed);
  }

  const AMONG_FREE: Tiling := [Block(768, true), Block(64768, false), Block(100, true), Block(65434, false)]

  /** A run in which a client gets 100 bytes, aligned, with more room above than below. */
  lemma AlignedRequest(closed: bool) returns (s: State)
    ensures Reaches(BOOT, [Create(0xF0000, 131070), Alloc(100, 0x10000)], s, closed)
    ensures s.m == BootMemory(AMONG_FREE) && s.held == {(0x100000, 100)}
  {
    AlignedAmongFree();
    s := OneRequest(100, 0x10000, 0x100000, AMONG_FREE, closed);
  }

  lemma AlignedAmongFree()
    ensures Allocate(Fresh(131070), 0xF0000, 100, 0x10000) == Placed(0x100000, AMONG_FREE)
    ensures Sound(Fresh(131070), 0xF0000, 100, 0x10000)
  {
    var t, base := Fresh(131070), 0xF0000;
    assert t == [Block(768, true), Block(130302, false)];
    var f := Found(1, base + 768);
    assert (base + 768) % 0x10000 == 768;
    assert FirstFit(t, 0, base, 100, 0x10000) == FirstFit(t, 1, base + 768, 100, 0x10000) == Some(f);
    assert (base + 768 + 130302 - 100) % 0x10000 == 65434;
    assert LeftSize(130302, base + 768, 100, 0x10000) == 64768;
    assert RightSize(130302, 64768, 100) == 65434;
    assert Cut(t, 1, 64768, 100, 65434) == AMONG_FREE;
  }

  /** The first two calls of a run. */
  lemma OneRequest(size: nat, align: nat, p: nat, t: Tiling, closed: bool) returns (s: State)
    requires size > 0 && Allocate(Fresh(131070), 0xF0000, size, align) == Placed(p, t)
    requires Sound(Fresh(131070), 0xF0000, size, align)
    ensures Reaches(BOOT, [Create(0xF0000, 131070), Alloc(size, align)], s, closed)
    ensures s.m == BootMemory(t) && s.held == {(p, size)}
  {
    hide Allocate, Fresh, Sound, Raised;
    var first, ops := [Create(0xF0000, 131070)], [Create(0xF0000, 131070), Alloc(size, align)];
    var a := FreshRegion(closed);
    var m := a.m;
    assert Step(BOOT, ops[0], closed) == Some(a) by {
      assert Reaches(Step(BOOT, first[0], closed).value, first[1..], a, closed) && first[1..] == [];
    }
    FreshIsTiled(131070, 0xF0000);
    assert Shapely(m) by {
      assert Tiled(Fresh(131070), 131070);
    }
    assert Fitting(m, 0, size, align);
    assert m[0 := Some(m[0].value.(t := t))] == BootMemory(t);
    assert Requested(m, size, align) == Return(Some(p), BootMemory(t));
    s := Now(a, BootMemory(t), {(p, size)});
    assert a.held + {(p, size)} == {(p, size)};
    assert Step(a, ops[1], closed) == Some(s);
    assert ops[1..] == [ops[1]] && ops[1..][1..] == [];
    assert Reaches(s, [], s, closed);
    assert Reaches(a, ops[1..], s, closed);
  }

  /** In a fresh region of 4096 bytes a page-aligned request of 1000 bytes passes
      the test but does not fit: the caller is handed the descriptor table. */
  lemma AlignedRequestGetsTheTable()
    ensures Allocate(Fresh(4096), 0xF0000, 1000, 4096).Placed?
    ensures Allocate(Fresh(4096), 0xF0000, 1000, 4096).ptr == 0xF0000
    ensures !Sound(Fresh(4096), 0xF0000, 1000, 4096)
  {
    var t, base := Fresh(4096), 0xF0000;
    assert t == [Block(36, true), Block(4060, false)];
    var f := Found(1, base + 36);
    assert (base + 36) % 4096 == 36;
    assert Accepts(t[1], base + 36, 1000, 4096);
    assert FirstFit(t, 0, base, 1000, 4096) == FirstFit(t, 1, base + 36, 1000, 4096) == Some(f);
    assert Chosen(t, base, 1000, 4096) == Some(f);
    assert Gap(base + 36, 4096) == 4060;
    var end := base + 36 + 4060 - 1000;
    assert end % 4096 == 3096;
    var l := LeftSize(4060, base + 36, 1000, 4096);
    assert l == WORD - 36;
    assert RightSize(4060, l, 1000) == 3096;
    var c := Cut(t, 1, l, 1000, 3096);
    assert c == [Block(36, true), Block(l, false), Block(1000, true), Block(3096, false)];
    assert Place(t, 1, l, 1000, 3096) == Some(Grow(c));
  }
}
