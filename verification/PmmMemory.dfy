/** The whole physical memory: eight regions, the three entry points on it, and
    safety over arbitrary runs of them. */
module PmmMemory {
  import opened Words
  import opened PmmTiling
  import opened PmmFacts
  import opened PmmAllocation
  import opened PmmRelease
  import opened PmmCanonical

  const MAX_REGIONS: nat := 8

  datatype Region = Region(base: nat, size: nat, t: Tiling)

  /** The region table; None is an entry that is not present. */
  type Memory = seq<Option<Region>>

  /** A panic never returns; `Return` carries the pointer (None for a null one). */
  datatype Effect = Halt | Return(ptr: Option<nat>, m: Memory)

  ghost predicate RegionOk(r: Region) {
    r.base + r.size < WORD && Tiled(r.t, r.size)
  }

  ghost predicate Shapely(m: Memory) {
    forall j :: 0 <= j < |m| && m[j].Some? ==> |m[j].value.t| >= 2 && m[j].value.t[0].used
  }

  predicate Separate(r: Region, base: nat, size: nat) {
    r.base + r.size <= base || base + size <= r.base
  }

  ghost predicate Inv(m: Memory) {
    && (forall i :: 0 <= i < |m| && m[i].Some? ==> RegionOk(m[i].value))
    && (forall i, j :: 0 <= i < j < |m| && m[i].Some? && m[j].Some? ==>
          Separate(m[i].value, m[j].value.base, m[j].value.size))
  }

  /** Every allocation that is live somewhere in memory. */
  ghost function LiveIn(m: Memory): (s: set<(nat, nat)>)
    requires Inv(m)
    ensures forall x :: x in s <==> IsLive(m, x)
  {
    LiveUpTo(m, |m|)
  }

  ghost predicate IsLive(m: Memory, x: (nat, nat))
    requires Inv(m)
  {
    exists i :: 0 <= i < |m| && m[i].Some? && x in Live(m[i].value.t, m[i].value.base)
  }

  ghost function LiveUpTo(m: Memory, n: nat): (s: set<(nat, nat)>)
    requires Inv(m) && n <= |m|
    ensures forall x :: x in s <==>
              exists i :: 0 <= i < n && m[i].Some? && x in Live(m[i].value.t, m[i].value.base)
  {
    if n == 0 then {}
    else LiveUpTo(m, n - 1) + (if m[n - 1].Some? then Live(m[n - 1].value.t, m[n - 1].value.base) else {})
  }

  // ---------- the entry points ----------

  /** Memory is in order and exactly these allocations are live. */
  ghost predicate Holding(m: Memory, live: set<(nat, nat)>) {
    Inv(m) && LiveIn(m) == live
  }

  /** `MmAllocatePhysical`: the regions are tried in turn. */
  function AllocateFrom(m: Memory, i: nat, size: nat, align: nat): Effect
    requires i <= |m| && Shapely(m)
    decreases |m| - i
  {
    if i == |m| then Return(None, m)
    else if m[i].None? then AllocateFrom(m, i + 1, size, align)
    else match Allocate(m[i].value.t, m[i].value.base, size, align)
      case Panic => Halt
      case Null => AllocateFrom(m, i + 1, size, align)
      case Placed(p, t) => Return(Some(p), m[i := Some(m[i].value.(t := t))])
  }

  function Requested(m: Memory, size: nat, align: nat): Effect
    requires Shapely(m)
  {
    if size == 0 then Halt else AllocateFrom(m, 0, size, align)
  }

  /** `MmFreePhysical`. */
  function FreeFrom(m: Memory, i: nat, ptr: nat, closed: bool): Memory
    requires i <= |m|
    decreases |m| - i
  {
    if i == |m| then m
    else if m[i].None? then FreeFrom(m, i + 1, ptr, closed)
    else
      var r := m[i].value;
      if ptr < r.base || ptr > r.base + r.size then FreeFrom(m, i + 1, ptr, closed)
      else match FreeScan(r.t, 0, r.base, ptr, closed)
        case Hit(k) => m[i := Some(r.(t := FreeAt(r.t, k)))]
        case Stop => m
        case End => FreeFrom(m, i + 1, ptr, closed)
  }

  /** The pointer would free a descriptor table itself. */
  ghost predicate HitsTable(m: Memory, ptr: nat) {
    exists i :: 0 <= i < |m| && m[i].Some? && FreeScan(m[i].value.t, 0, m[i].value.base, ptr, true) == Hit(0)
  }

  /** `MmCreateRegion`: the first entry that is not present is formatted. */
  function CreateFrom(m: Memory, i: nat, base: nat, size: nat): Option<Memory>
    requires i <= |m| && size >= 2048
    decreases |m| - i
  {
    if i == |m| then None
    else if m[i].Some? then CreateFrom(m, i + 1, base, size)
    else Some(m[i := Some(Region(base, size, Fresh(size)))])
  }

  // ---------- one step ----------

  /** Replacing the tiling of one region. */
  lemma UpdateRegion(m: Memory, i: nat, t: Tiling)
    requires Inv(m) && i < |m| && m[i].Some? && Tiled(t, m[i].value.size)
    ensures Inv(m[i := Some(m[i].value.(t := t))])
    ensures forall x :: IsLive(m[i := Some(m[i].value.(t := t))], x) <==>
              x in Live(t, m[i].value.base)
              || exists j :: 0 <= j < |m| && j != i && m[j].Some? && x in Live(m[j].value.t, m[j].value.base)
  {
    var r := m[i].value;
    var n := m[i := Some(r.(t := t))];
    forall x
      ensures IsLive(n, x) <==>
                x in Live(t, r.base)
                || exists j :: 0 <= j < |m| && j != i && m[j].Some? && x in Live(m[j].value.t, m[j].value.base)
    {
      if exists j :: 0 <= j < |m| && j != i && m[j].Some? && x in Live(m[j].value.t, m[j].value.base) {
        var j :| 0 <= j < |m| && j != i && m[j].Some? && x in Live(m[j].value.t, m[j].value.base);
        assert n[j] == m[j];
      }
      if x in Live(t, r.base) {
        assert n[i].value == r.(t := t);
      }
    }
  }

  /** Live allocations of different regions have different addresses, and none
      lies where another region or its own table does. */
  lemma LiveInRegion(m: Memory, i: nat, x: (nat, nat))
    requires Inv(m) && i < |m| && m[i].Some? && x in Live(m[i].value.t, m[i].value.base)
    ensures var r := m[i].value;
            r.base < x.0 && r.base + r.t[0].size <= x.0 && 0 < x.1 && x.0 + x.1 <= r.base + r.size
    ensures forall j :: 0 <= j < |m| && j != i && m[j].Some? ==>
              x.0 + x.1 <= m[j].value.base || m[j].value.base + m[j].value.size < x.0
  {
    var r := m[i].value;
    assert RegionOk(r);
    LiveLayout(r.t, r.base, r.size);
    forall j | 0 <= j < |m| && j != i && m[j].Some?
      ensures x.0 + x.1 <= m[j].value.base || m[j].value.base + m[j].value.size < x.0
    {
      assert Separate(if i < j then r else m[j].value, if i < j then m[j].value.base else r.base,
                      if i < j then m[j].value.size else r.size);
    }
  }

  /** All live allocations in memory are pairwise apart. */
  lemma LiveApart(m: Memory, x: (nat, nat), y: (nat, nat))
    requires Inv(m) && IsLive(m, x) && IsLive(m, y) && x != y
    ensures Apart(x, y) && x.0 != y.0
  {
    var i :| 0 <= i < |m| && m[i].Some? && x in Live(m[i].value.t, m[i].value.base);
    var j :| 0 <= j < |m| && m[j].Some? && y in Live(m[j].value.t, m[j].value.base);
    LiveInRegion(m, i, x);
    LiveInRegion(m, j, y);
    if i == j {
      assert RegionOk(m[i].value);
      LiveLayout(m[i].value.t, m[i].value.base, m[i].value.size);
    }
  }

  /** The request goes, if anywhere, where it fits: checked region by region. */
  predicate Fitting(m: Memory, i: nat, size: nat, align: nat)
    requires i <= |m| && Shapely(m)
    decreases |m| - i
  {
    if i == |m| then true
    else if m[i].None? || Allocate(m[i].value.t, m[i].value.base, size, align) == Null then
      Fitting(m, i + 1, size, align)
    else Sound(m[i].value.t, m[i].value.base, size, align)
  }

  lemma {:induction false} UnalignedFits(m: Memory, i: nat, size: nat)
    requires i <= |m| && Shapely(m)
    ensures Fitting(m, i, size, 0)
    decreases |m| - i
  {
    if i < |m| {
      UnalignedFits(m, i + 1, size);
    }
  }

  lemma RegionIn(m: Memory, j: nat)
    requires Inv(m) && j < |m| && m[j].Some?
    ensures RegionOk(m[j].value)
  {
  }

  lemma InvShape(m: Memory)
    requires Inv(m)
    ensures Shapely(m)
  {
    forall j | 0 <= j < |m| && m[j].Some?
      ensures |m[j].value.t| >= 2 && m[j].value.t[0].used
    {
      assert RegionOk(m[j].value);
    }
  }

  /** An allocation adds exactly one live entry, apart from all others. */
  lemma {:induction false} AllocateStep(m: Memory, i: nat, size: nat, align: nat)
    requires Inv(m) && i <= |m| && size > 0
    requires Shapely(m)
    requires Fitting(m, i, size, align)
    ensures match AllocateFrom(m, i, size, align)
            case Halt => true
            case Return(None, n) => n == m
            case Return(Some(p), n) =>
              && |n| == |m| && Inv(n) && LiveIn(n) == LiveIn(m) + {(p, size)}
              && (forall x <- LiveIn(m) :: Apart(x, (p, size)))
              && (align > 0 ==> p % align == 0)
    decreases |m| - i
  {
    if i < |m| {
      if m[i].None? {
        AllocateStep(m, i + 1, size, align);
      } else {
        var r := m[i].value;
        assert RegionOk(r);
        match Allocate(r.t, r.base, size, align)
        case Panic =>
        case Null =>
          AllocateStep(m, i + 1, size, align);
        case Placed(p, t) =>
          AllocationSound(r.t, r.base, r.size, size, align);
          UpdateRegion(m, i, t);
          var n := m[i := Some(r.(t := t))];
          AddsOne(m, n, i, (p, size));
      }
    }
  }

  lemma AddsOneHere(m: Memory, n: Memory, i: nat, x: (nat, nat))
    requires Inv(m) && Inv(n) && i < |m| == |n| && m[i].Some? && n[i].Some?
    requires n[i].value.base == m[i].value.base
    requires Live(n[i].value.t, m[i].value.base) == Live(m[i].value.t, m[i].value.base) + {x}
    requires forall y :: IsLive(n, y) <==>
               y in Live(n[i].value.t, m[i].value.base)
               || exists j :: 0 <= j < |m| && j != i && m[j].Some? && y in Live(m[j].value.t, m[j].value.base)
    ensures LiveIn(n) == LiveIn(m) + {x}
  {
    hide Inv, Live;
    forall y
      ensures y in LiveIn(n) <==> y in LiveIn(m) || y == x
    {
    }
  }

  lemma AddsOne(m: Memory, n: Memory, i: nat, x: (nat, nat))
    requires Inv(m) && Inv(n) && i < |m| && m[i].Some?
    requires |n| == |m| && n == m[i := n[i]] && n[i].Some?
    requires n[i].value.base == m[i].value.base && n[i].value.size == m[i].value.size
    requires Live(n[i].value.t, m[i].value.base) == Live(m[i].value.t, m[i].value.base) + {x}
    requires x !in Live(m[i].value.t, m[i].value.base)
    requires forall y :: IsLive(n, y) <==>
               y in Live(n[i].value.t, m[i].value.base)
               || exists j :: 0 <= j < |m| && j != i && m[j].Some? && y in Live(m[j].value.t, m[j].value.base)
    ensures LiveIn(n) == LiveIn(m) + {x}
    ensures forall y <- LiveIn(m) :: Apart(y, x)
  {
    hide Inv, Apart, Live;
    AddsOneHere(m, n, i, x);
    NewIsNew(m, n, i, x);
    forall y | y in LiveIn(m)
      ensures Apart(y, x)
    {
      LiveApart(n, y, x);
    }
  }

  /** What is new in one region was not live in another. */
  lemma NewIsNew(m: Memory, n: Memory, i: nat, x: (nat, nat))
    requires Inv(m) && Inv(n) && i < |m| == |n| && m[i].Some? && n[i].Some?
    requires n[i].value.base == m[i].value.base && n[i].value.size == m[i].value.size
    requires x in Live(n[i].value.t, n[i].value.base) && x !in Live(m[i].value.t, m[i].value.base)
    ensures !IsLive(m, x)
  {
    LiveInRegion(n, i, x);
    forall j | 0 <= j < |m| && j != i && m[j].Some?
      ensures x !in Live(m[j].value.t, m[j].value.base)
    {
      if x in Live(m[j].value.t, m[j].value.base) {
        LiveInRegion(m, j, x);
        assert false;
      }
    }
  }

  /** Some USED block, possibly a descriptor table, ends exactly at `ptr`. */
  predicate UsedEndsAt(m: Memory, ptr: nat) {
    exists i :: 0 <= i < |m| && m[i].Some? && EndsUsed(m[i].value.t, m[i].value.base, ptr)
  }

  /** Only in the region of a live pointer can a USED block end at it. */
  lemma EndsInOwnRegion(m: Memory, k: nat, x: (nat, nat))
    requires Inv(m) && k < |m| && m[k].Some? && x in Live(m[k].value.t, m[k].value.base)
    ensures UsedEndsAt(m, x.0) <==> EndsUsed(m[k].value.t, m[k].value.base, x.0)
  {
    LiveInRegion(m, k, x);
    forall j | 0 <= j < |m| && j != k && m[j].Some?
      ensures !EndsUsed(m[j].value.t, m[j].value.base, x.0)
    {
      var r := m[j].value;
      assert RegionOk(r);
      if EndsUsed(r.t, r.base, x.0) {
        var y :| y in UsedFrom(r.t, r.base) && y.0 + y.1 == x.0;
        UsedBounds(r.t, r.base, y);
      }
    }
  }

  /** Freeing a live pointer comes down to its own region. */
  lemma {:induction false} FreeReaches(m: Memory, i: nat, k: nat, x: (nat, nat), closed: bool)
    requires Inv(m) && i <= k < |m| && m[k].Some? && x in Live(m[k].value.t, m[k].value.base)
    ensures FreeFrom(m, i, x.0, closed)
            == m[k := Some(m[k].value.(t := Release(m[k].value.t, m[k].value.base, x.0, closed)))]
    decreases k - i
  {
    LiveInRegion(m, k, x);
    var r := m[k].value;
    assert RegionOk(r);
    if i < k {
      FreeReaches(m, i + 1, k, x, closed);
    } else {
      var o := OwnerIndex(r.t, r.base, r.size, x);
      ClosedFindsOwnerIff(r.t, r.base, r.size, o);
      HalfOpenFindsOwner(r.t, r.base, r.size, o);
    }
  }

  /** Freeing a live pointer with the half-open test removes exactly it; the code's
      closed test does the same if and only if no USED block ends at the pointer. */
  lemma FreeStep(m: Memory, x: (nat, nat))
    requires Inv(m) && x in LiveIn(m)
    ensures var n := FreeFrom(m, 0, x.0, false);
            |n| == |m| && Inv(n) && LiveIn(n) == LiveIn(m) - {x}
    ensures FreeFrom(m, 0, x.0, true) == FreeFrom(m, 0, x.0, false) <==> !UsedEndsAt(m, x.0)
  {
    var k :| 0 <= k < |m| && m[k].Some? && x in Live(m[k].value.t, m[k].value.base);
    var r := m[k].value;
    assert RegionOk(r);
    FreeReaches(m, 0, k, x, false);
    FreeReaches(m, 0, k, x, true);
    EndsInOwnRegion(m, k, x);
    ReleaseSound(r.t, r.base, r.size, x);
    var t := Release(r.t, r.base, x.0, false);
    UpdateRegion(m, k, t);
    LosesOne(m, m[k := Some(r.(t := t))], k, x);
    var u := Release(r.t, r.base, x.0, true);
    assert m[k := Some(r.(t := u))][k].value.t == u && m[k := Some(r.(t := t))][k].value.t == t;
  }

  /** The code's free removes exactly that allocation, and keeps every region in
      order, if and only if no USED block ends at the pointer. */
  lemma FreeStepIff(m: Memory, x: (nat, nat))
    requires Inv(m) && x in LiveIn(m)
    ensures var n := FreeFrom(m, 0, x.0, true);
            !UsedEndsAt(m, x.0) <==> Holding(n, LiveIn(m) - {x})
    ensures UsedEndsAt(m, x.0) ==>
              var n := FreeFrom(m, 0, x.0, true); Inv(n) ==> x in LiveIn(n)
  {
    FreeStep(m, x);
    if UsedEndsAt(m, x.0) {
      var i :| 0 <= i < |m| && m[i].Some? && x in Live(m[i].value.t, m[i].value.base);
      var r := m[i].value;
      assert RegionOk(r);
      EndsInOwnRegion(m, i, x);
      FreeReaches(m, 0, i, x, true);
      WrongRelease(r.t, r.base, r.size, x);
      var n := FreeFrom(m, 0, x.0, true);
      if Inv(n) {
        assert RegionOk(n[i].value);
        assert IsLive(n, x);
      }
    }
  }

  /** Where another allocation ends at the pointer, the code frees exactly that one. */
  lemma FreesTheOther(m: Memory, x: (nat, nat), y: (nat, nat))
    requires Inv(m) && x in LiveIn(m) && y in LiveIn(m) && y.0 + y.1 == x.0
    ensures Holding(FreeFrom(m, 0, x.0, true), LiveIn(m) - {y})
  {
    hide FreeFrom;
    var i: nat :| i < |m| && m[i].Some? && x in Live(m[i].value.t, m[i].value.base);
    var j: nat :| j < |m| && m[j].Some? && y in Live(m[j].value.t, m[j].value.base);
    LiveInRegion(m, i, x);
    LiveInRegion(m, j, y);
    assert i == j;
    var r := m[i].value;
    assert RegionOk(r);
    ReleaseFreesOther(r.t, r.base, r.size, x, y);
    FreeReaches(m, 0, i, x, true);
    var t := Release(r.t, r.base, x.0, true);
    UpdateRegion(m, i, t);
    LosesOne(m, m[i := Some(r.(t := t))], i, y);
  }

  lemma LosesOne(m: Memory, n: Memory, i: nat, x: (nat, nat))
    requires Inv(m) && Inv(n) && i < |m| && m[i].Some?
    requires |n| == |m| && n == m[i := n[i]] && n[i].Some?
    requires n[i].value.base == m[i].value.base && n[i].value.size == m[i].value.size
    requires x in Live(m[i].value.t, m[i].value.base)
    requires Live(n[i].value.t, m[i].value.base) == Live(m[i].value.t, m[i].value.base) - {x}
    requires forall y :: IsLive(n, y) <==>
               y in Live(n[i].value.t, m[i].value.base)
               || exists j :: 0 <= j < |m| && j != i && m[j].Some? && y in Live(m[j].value.t, m[j].value.base)
    ensures LiveIn(n) == LiveIn(m) - {x}
  {
    LiveInRegion(m, i, x);
    if exists j :: 0 <= j < |m| && j != i && m[j].Some? && x in Live(m[j].value.t, m[j].value.base) {
      var j :| 0 <= j < |m| && j != i && m[j].Some? && x in Live(m[j].value.t, m[j].value.base);
      LiveInRegion(m, j, x);
      assert false;
    }
    forall y
      ensures y in LiveIn(n) <==> y in LiveIn(m) && y != x
    {
    }
  }

  /** A region is created in the first entry that is free, with a table of one
      12-byte descriptor for every 2048 bytes begun and one FREE block behind it; the
      call panics exactly when no entry is free. */
  lemma {:induction false} CreatesInFirstFree(m: Memory, i: nat, base: nat, size: nat)
    requires i <= |m| && size >= 2048
    ensures CreateFrom(m, i, base, size) == None <==> forall j :: i <= j < |m| ==> m[j].Some?
    ensures forall j :: i <= j < |m| && m[j].None? && (forall h :: i <= h < j ==> m[h].Some?) ==>
              var table := (size / 2048 + 1) * 12;
              size >= table && CreateFrom(m, i, base, size)
              == Some(m[j := Some(Region(base, size, [Block(table, true), Block(size - table, false)]))])
    decreases |m| - i
  {
    if i < |m| && m[i].Some? {
      CreatesInFirstFree(m, i + 1, base, size);
    }
  }

  /** A new region brings no allocation. */
  lemma {:induction false} CreateStep(m: Memory, i: nat, base: nat, size: nat)
    requires Inv(m) && i <= |m| && size >= 2048 && base + size < WORD
    requires forall j :: 0 <= j < |m| && m[j].Some? ==> Separate(m[j].value, base, size)
    requires CreateFrom(m, i, base, size).Some?
    ensures var n := CreateFrom(m, i, base, size).value;
            |n| == |m| && Inv(n) && LiveIn(n) == LiveIn(m)
    decreases |m| - i
  {
    if m[i].Some? {
      CreateStep(m, i + 1, base, size);
    } else {
      var n := m[i := Some(Region(base, size, Fresh(size)))];
      FreshIsTiled(size, base);
      assert Inv(n);
      forall x
        ensures x in LiveIn(n) <==> x in LiveIn(m)
      {
        if x in LiveIn(m) {
          var j :| 0 <= j < |m| && m[j].Some? && x in Live(m[j].value.t, m[j].value.base);
          assert n[j] == m[j];
        }
      }
    }
  }

  /** Freeing a live pointer at which no USED block ends never hits a table. */
  lemma SoundFreeMissesTables(m: Memory, x: (nat, nat))
    requires Inv(m) && x in LiveIn(m) && !UsedEndsAt(m, x.0)
    ensures !HitsTable(m, x.0)
  {
    var k :| 0 <= k < |m| && m[k].Some? && x in Live(m[k].value.t, m[k].value.base);
    LiveInRegion(m, k, x);
    assert RegionOk(m[k].value);
    var o := OwnerIndex(m[k].value.t, m[k].value.base, m[k].value.size, x);
    ClosedFindsOwnerIff(m[k].value.t, m[k].value.base, m[k].value.size, o);
    forall j | 0 <= j < |m| && m[j].Some? && j != k
      ensures FreeScan(m[j].value.t, 0, m[j].value.base, x.0, true) != Hit(0)
    {
      assert RegionOk(m[j].value);
      StartMonotone(m[j].value.t, 0, |m[j].value.t|);
      assert m[j].value.t[..|m[j].value.t|] == m[j].value.t;
    }
  }

  /** Allocation leaves every region where it is. */
  lemma {:induction false} RegionsStay(m: Memory, i: nat, size: nat, align: nat)
    requires i <= |m| && Shapely(m)
    requires AllocateFrom(m, i, size, align).Return?
    ensures var n := AllocateFrom(m, i, size, align).m;
            |n| == |m| && forall j :: 0 <= j < |m| ==>
              (n[j].Some? <==> m[j].Some?)
              && (n[j].Some? ==> n[j].value.base == m[j].value.base && n[j].value.size == m[j].value.size)
    decreases |m| - i
  {
    if i < |m| && (m[i].None? || Allocate(m[i].value.t, m[i].value.base, size, align) == Null) {
      RegionsStay(m, i + 1, size, align);
    }
  }
}
