/** Unaligned requests over all regions: when there is no room, which block is cut,
    and which addresses a USED block ends at afterwards. */
module PmmUnaligned {
  import opened Words
  import opened PmmTiling
  import opened PmmFacts
  import opened PmmAllocation
  import opened PmmRelease
  import opened PmmCanonical
  import opened PmmMemory
  import opened PmmRoom

  // ---------- which block is cut ----------

  /** No FREE block of the region has `size` bytes. */
  predicate Full(t: Tiling, size: nat) {
    forall b <- t :: b.used || b.size < size
  }

  /** No region from entry `i` on has a FREE block of `size` bytes. */
  ghost predicate NoRoom(m: Memory, i: nat, size: nat) {
    forall j :: i <= j < |m| && m[j].Some? ==> Full(m[j].value.t, size)
  }

  /** Entry `j` is the earliest region from `i` on with room for `size` bytes, and
      block `k` is the first of its blocks that has it. */
  ghost predicate GoesTo(m: Memory, i: nat, size: nat, j: nat, k: nat) {
    && i <= j < |m| && m[j].Some? && FirstBigEnough(m[j].value.t, size, k)
    && forall h :: i <= h < j && m[h].Some? ==> Full(m[h].value.t, size)
  }

  /** What a request does that is put into block `k` of entry `j`. */
  function Filled(m: Memory, size: nat, j: nat, k: nat): (e: Effect)
    requires j < |m| && m[j].Some? && 1 <= k < |m[j].value.t| && m[j].value.t[k].size >= size
    ensures e.Return? ==> e.ptr.Some?
  {
    var r := m[j].value;
    match Place(r.t, k, r.t[k].size - size, size, 0)
    case None => Halt
    case Some(u) => Return(Some(Start(r.t, r.base, k) + r.t[k].size - size), m[j := Some(r.(t := u))])
  }

  /** Without alignment, room is FREE bytes. */
  lemma RoomIsBytes(m: Memory, size: nat)
    ensures NoRoom(m, 0, size) <==> AllFull(m, 0, size, 0)
    ensures forall j: nat, k: nat :: GoesTo(m, 0, size, j, k) <==> CutAt(m, 0, size, 0, j, k)
  {
    hide Start;
    forall j: nat | j < |m| && m[j].Some?
      ensures Full(m[j].value.t, size) <==> RegionFull(m[j].value, size, 0)
    {
    }
    forall j: nat, k: nat | j < |m| && m[j].Some?
      ensures FirstBigEnough(m[j].value.t, size, k) <==> FirstRoomIn(m[j].value, size, 0, k)
    {
    }
  }

  /** The cut of an unaligned request, without wrapping arithmetic. */
  lemma CutIsFilled(m: Memory, size: nat, j: nat, k: nat)
    requires Inv(m) && size > 0 && j < |m| && m[j].Some?
    requires 1 <= k < |m[j].value.t| && m[j].value.t[k].size >= size
    ensures CutEffect(m, size, 0, j, k) == Filled(m, size, j, k)
  {
    hide Place, Inv, Tiled;
    RegionIn(m, j);
    var r := m[j].value;
    var at, bytes := Start(r.t, r.base, k), r.t[k].size;
    BlockInside(r, k);
    Pieces(bytes, at, size, at + bytes - size);
    WrapId(at + (bytes - size));
    WrapId(bytes - size);
  }

  lemma BlockInside(r: Region, k: nat)
    requires RegionOk(r) && k < |r.t|
    ensures Start(r.t, r.base, k) + r.t[k].size < WORD
  {
    StartMonotone(r.t, k, |r.t|);
    assert r.t[..|r.t|] == r.t;
  }

  /** Allocation completeness without alignment: a request that does not panic is
      refused exactly when no region has a FREE block of its size; otherwise it gets
      the high end of the first such block of the earliest region that has one. */
  lemma UnalignedIsComplete(m: Memory, size: nat)
    requires Inv(m) && Shapely(m) && size > 0
    ensures Requested(m, size, 0) == Return(None, m) <==> NoRoom(m, 0, size)
    ensures Requested(m, size, 0).Return? && Requested(m, size, 0).ptr.None? ==> NoRoom(m, 0, size)
    ensures forall j: nat, k: nat :: GoesTo(m, 0, size, j, k) ==>
              1 <= k && Requested(m, size, 0) == Filled(m, size, j, k)
    ensures !NoRoom(m, 0, size) ==> exists j: nat, k: nat :: GoesTo(m, 0, size, j, k)
  {
    hide AllocateFrom, Inv, AllFull, CutAt, CutEffect, Filled, NoRoom;
    RoomIsBytes(m, size);
    AllocationIsComplete(m, size, 0);
    forall j: nat, k: nat | GoesTo(m, 0, size, j, k)
      ensures 1 <= k && Requested(m, size, 0) == Filled(m, size, j, k)
    {
      CutIsFilled(m, size, j, k);
    }
    if !NoRoom(m, 0, size) {
      var j: nat, k: nat :| CutAt(m, 0, size, 0, j, k);
      assert GoesTo(m, 0, size, j, k);
    }
  }

  // ---------- where USED blocks end afterwards ----------

  /** Cutting a block of the tiling makes the table grow. */
  predicate GrowsFor(t: Tiling, k: nat, size: nat)
    requires 1 <= k < |t|
  {
    t[k].size > size && |t| == Capacity(t)
  }

  /** A USED block will end at `ptr` once `size` bytes were put into block `k` of
      entry `j`: one does already, or the new object will end there with block `k`,
      or the table will, when it grows. */
  predicate WillEndAt(m: Memory, size: nat, j: nat, k: nat, ptr: nat)
    requires j < |m| && m[j].Some? && 1 <= k < |m[j].value.t|
  {
    var r := m[j].value;
    || UsedEndsAt(m, ptr)
    || Start(r.t, r.base, k) + r.t[k].size == ptr
    || (GrowsFor(r.t, k, size) && r.base + r.t[0].size + GROWTH == ptr)
  }

  /** Putting `size` bytes into block `k` adds one allocation and keeps the rest. */
  lemma FillKeeps(m: Memory, size: nat, j: nat, k: nat)
    requires Inv(m) && Shapely(m) && size > 0 && j < |m| && m[j].Some?
    requires 1 <= k < |m[j].value.t| && !m[j].value.t[k].used && m[j].value.t[k].size >= size
    requires Filled(m, size, j, k).Return?
    ensures var r, n := m[j].value, Filled(m, size, j, k).m;
            && |n| == |m| && Inv(n) && Shapely(n) && n == m[j := n[j]] && n[j].Some?
            && n[j].value == r.(t := n[j].value.t)
            && Live(n[j].value.t, r.base) == Live(r.t, r.base) + {(Filled(m, size, j, k).ptr.value, size)}
            && n[j].value.t[0] == Block(r.t[0].size + (if GrowsFor(r.t, k, size) then GROWTH else 0), true)
            && (GrowsFor(r.t, k, size) ==> Growable(Cut(r.t, k, r.t[k].size - size, size, 0)))
  {
    hide Inv, Place, Sum, Live, Cut;
    var r := m[j].value;
    assert RegionOk(r) by { RegionIn(m, j); }
    PlaceKeeps(r.t, r.base, r.size, k, r.t[k].size - size, size, 0);
    PlaceHead(r.t, r.size, k, r.t[k].size - size, size);
    UpdateRegion(m, j, Place(r.t, k, r.t[k].size - size, size, 0).value);
    InvShape(Filled(m, size, j, k).m);
  }

  lemma PlaceHead(t: Tiling, total: nat, k: nat, l: nat, s: nat)
    requires Tiled(t, total) && 1 <= k < |t| && t[k].size == l + s && Place(t, k, l, s, 0).Some?
    ensures var u := Place(t, k, l, s, 0).value;
            && |u| > 0 && u[0] == Block(t[0].size + (if GrowsFor(t, k, s) then GROWTH else 0), true)
            && (GrowsFor(t, k, s) ==> Growable(Cut(t, k, l, s, 0)))
  {
    var c := Cut(t, k, l, s, 0);
    assert c[0] == t[0];
    assert |c| == |t| + if l != 0 then 1 else 0;
  }

  /** A live allocation does not start where a table ends that can grow. */
  lemma NotAtTheTable(t: Tiling, base: nat, total: nat, k: nat, l: nat, s: nat, x: (nat, nat))
    requires Tiled(t, total) && 1 <= k < |t| && !t[k].used && t[k].size == l + s
    requires Growable(Cut(t, k, l, s, 0)) && x in Live(t, base)
    ensures x.0 != base + t[0].size
  {
    var i := OwnerIndex(t, base, total, x);
    var c := Cut(t, k, l, s, 0);
    assert k > 1 ==> c[1] == t[1];
    assert k == 1 ==> t[1].size >= c[1].size;
    assert !t[1].used && t[1].size >= GROWTH;
    HeadStarts(t, base);
    StartMonotone(t, 1, i);
  }

  lemma HeadStarts(t: Tiling, base: nat)
    requires |t| >= 2
    ensures Start(t, base, 1) == base + t[0].size
    ensures Start(t, base, 2) == base + t[0].size + t[1].size
  {
    Split(t, 0, base);
    Split(t, 1, base);
    assert t[..0] == [];
  }

  /** USED blocks are the table and the live allocations. */
  lemma EndsUsedIs(t: Tiling, base: nat, ptr: nat)
    requires |t| > 0 && t[0].used
    ensures EndsUsed(t, base, ptr) <==>
            base + t[0].size == ptr || exists x <- Live(t, base) :: x.0 + x.1 == ptr
  {
    hide Live, UsedFrom;
    UsedSplit(t, base);
    if base + t[0].size == ptr {
      assert (base, t[0].size) in UsedFrom(t, base);
    }
  }

  /** Exactly when a USED block ends at a live pointer after an allocation, said of
      the memory before it. */
  lemma EndsAfterIff(m: Memory, size: nat, j: nat, k: nat, x: (nat, nat))
    requires Inv(m) && Shapely(m) && size > 0 && j < |m| && m[j].Some? && x in LiveIn(m)
    requires 1 <= k < |m[j].value.t| && !m[j].value.t[k].used && m[j].value.t[k].size >= size
    requires Filled(m, size, j, k).Return?
    ensures UsedEndsAt(Filled(m, size, j, k).m, x.0) <==> WillEndAt(m, size, j, k, x.0)
  {
    hide Filled, Inv, Place, Sum, Start, Cut, EndsUsed, UsedEndsAt, Live, GrowsFor, Growable, Tiled;
    FillKeeps(m, size, j, k);
    var n := Filled(m, size, j, k).m;
    var i: nat :| i < |m| && m[i].Some? && x in Live(m[i].value.t, m[i].value.base);
    EndsInOwnRegion(m, i, x);
    assert x in Live(n[i].value.t, n[i].value.base);
    EndsInOwnRegion(n, i, x);
    var r := m[j].value;
    if i == j {
      EndsInThisRegion(m, size, j, k, x);
    } else {
      EndsElsewhere(m, size, j, k, i, x);
    }
  }

  lemma EndsInThisRegion(m: Memory, size: nat, j: nat, k: nat, x: (nat, nat))
    requires Inv(m) && Shapely(m) && size > 0 && j < |m| && m[j].Some?
    requires x in Live(m[j].value.t, m[j].value.base)
    requires 1 <= k < |m[j].value.t| && !m[j].value.t[k].used && m[j].value.t[k].size >= size
    requires Filled(m, size, j, k).Return?
    ensures var r, n := m[j].value, Filled(m, size, j, k).m;
            && |n| == |m| && n[j].Some?
            && (EndsUsed(n[j].value.t, r.base, x.0) <==>
                || EndsUsed(r.t, r.base, x.0)
                || Start(r.t, r.base, k) + r.t[k].size == x.0
                || (GrowsFor(r.t, k, size) && r.base + r.t[0].size + GROWTH == x.0))
  {
    hide Inv, Place, Sum, Start, Cut, EndsUsed, Live, GrowsFor, Growable, Tiled;
    FillKeeps(m, size, j, k);
    var r, n := m[j].value, Filled(m, size, j, k).m;
    RegionIn(m, j);
    EndsUsedIs(r.t, r.base, x.0);
    EndsUsedIs(n[j].value.t, r.base, x.0);
    if GrowsFor(r.t, k, size) {
      NotAtTheTable(r.t, r.base, r.size, k, r.t[k].size - size, size, x);
    }
    var y := (Start(r.t, r.base, k) + r.t[k].size - size, size);
    assert y in Live(n[j].value.t, r.base) && y.0 + y.1 == Start(r.t, r.base, k) + r.t[k].size;
  }

  lemma EndsElsewhere(m: Memory, size: nat, j: nat, k: nat, i: nat, x: (nat, nat))
    requires Inv(m) && Shapely(m) && j < |m| && m[j].Some? && i < |m| && i != j && m[i].Some?
    requires x in Live(m[i].value.t, m[i].value.base) && Filled.requires(m, size, j, k)
    requires Filled(m, size, j, k).Return? && size > 0 && !m[j].value.t[k].used
    ensures var r := m[j].value;
            && Start(r.t, r.base, k) + r.t[k].size != x.0
            && (GrowsFor(r.t, k, size) ==> r.base + r.t[0].size + GROWTH != x.0)
  {
    hide Inv, Place, Cut, Live, GrowsFor, Growable;
    var r := m[j].value;
    RegionIn(m, j);
    LiveInRegion(m, i, x);
    StartMonotone(r.t, k, |r.t|);
    assert r.t[..|r.t|] == r.t;
    if GrowsFor(r.t, k, size) {
      FillKeeps(m, size, j, k);
      var n := Filled(m, size, j, k).m;
      RegionIn(n, j);
      var u := n[j].value.t;
      StartMonotone(u, 0, |u|);
      assert u[..|u|] == u;
    }
  }
}
