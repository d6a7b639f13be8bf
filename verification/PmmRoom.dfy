/** Requests of any alignment over all regions, in bytes: when there is no room, which
    block is cut, and when the call panics. */
module PmmRoom {
  import opened Words
  import opened PmmTiling
  import opened PmmFacts
  import opened PmmAllocation
  import opened PmmCanonical
  import opened PmmMemory

  /** A FREE block at address `at` has the bytes the code asks for. */
  predicate HasRoom(b: Block, at: nat, size: nat, align: nat) {
    && !b.used && b.size >= size
    && (align > 0 ==> b.size >= (size + at % align) % 0x1_0000_0000)
  }

  /** No block of the region has room. */
  predicate RegionFull(r: Region, size: nat, align: nat) {
    forall k :: 0 <= k < |r.t| ==> !HasRoom(r.t[k], Start(r.t, r.base, k), size, align)
  }

  /** No region from entry `i` on has a block with room. */
  ghost predicate AllFull(m: Memory, i: nat, size: nat, align: nat) {
    forall j :: i <= j < |m| && m[j].Some? ==> RegionFull(m[j].value, size, align)
  }

  /** Block `k` is the first of its region that has room. */
  predicate FirstRoomIn(r: Region, size: nat, align: nat, k: nat) {
    && k < |r.t| && HasRoom(r.t[k], Start(r.t, r.base, k), size, align)
    && forall h :: 0 <= h < k ==> !HasRoom(r.t[h], Start(r.t, r.base, h), size, align)
  }

  /** Entry `j` is the earliest region from `i` on with room, and `k` its first block
      that has it. */
  ghost predicate CutAt(m: Memory, i: nat, size: nat, align: nat, j: nat, k: nat) {
    && i <= j < |m| && m[j].Some? && FirstRoomIn(m[j].value, size, align, k)
    && forall h :: i <= h < j && m[h].Some? ==> RegionFull(m[h].value, size, align)
  }

  /** What a request does for which block `k` of entry `j` is cut. */
  function CutEffect(m: Memory, size: nat, align: nat, j: nat, k: nat): Effect
    requires j < |m| && m[j].Some? && 1 <= k < |m[j].value.t|
  {
    var r := m[j].value;
    var l := LeftSize(r.t[k].size, Start(r.t, r.base, k), size, align);
    match Place(r.t, k, l, size, RightSize(r.t[k].size, l, size))
    case None => Halt
    case Some(u) => Return(Some(Wrap(Start(r.t, r.base, k) + l)), m[j := Some(r.(t := u))])
  }

  /** The test of the code asks for these bytes. */
  lemma AcceptsIffRoom(b: Block, at: nat, size: nat, align: nat)
    ensures Accepts(b, at, size, align) <==> HasRoom(b, at, size, align)
  {
  }

  lemma RegionFullIff(r: Region, size: nat, align: nat)
    requires RegionOk(r) && size > 0
    ensures Allocate(r.t, r.base, size, align) == Null <==> RegionFull(r, size, align)
  {
    hide Allocate, Accepts, HasRoom, Start;
    NullIff(r.t, r.base, r.size, size, align);
    forall k | 0 <= k < |r.t|
      ensures Accepts(r.t[k], Start(r.t, r.base, k), size, align)
              <==> HasRoom(r.t[k], Start(r.t, r.base, k), size, align)
    {
      AcceptsIffRoom(r.t[k], Start(r.t, r.base, k), size, align);
    }
  }

  /** Block `k` is the one the region's search settles on. */
  lemma FirstRoomChosen(r: Region, size: nat, align: nat, k: nat)
    requires RegionOk(r) && size > 0 && FirstRoomIn(r, size, align, k)
    ensures 1 <= k && Chosen(r.t, r.base, size, align) == Some(Found(k, Start(r.t, r.base, k)))
  {
    hide Accepts, HasRoom, Sum, FirstFit;
    RegionFullIff(r, size, align);
    ChosenUnlessNull(r, size, align);
    ChosenFacts(r.t, r.base, r.size, size, align);
    var f := Chosen(r.t, r.base, size, align).value;
    AcceptsIffRoom(r.t[f.k], f.cur, size, align);
    AcceptsIffRoom(r.t[k], Start(r.t, r.base, k), size, align);
    assert r.t[0..k] == r.t[..k];
    if k < f.k {
      FirstFitIsFirst(r.t, 0, r.base, size, align, k);
    }
  }

  lemma ChosenUnlessNull(r: Region, size: nat, align: nat)
    requires RegionOk(r) && size > 0 && !RegionFull(r, size, align)
    ensures Chosen(r.t, r.base, size, align).Some?
  {
    RegionFullIff(r, size, align);
  }

  lemma {:induction false} CutsFirstRoom(m: Memory, i: nat, size: nat, align: nat, j: nat, k: nat)
    requires Inv(m) && size > 0 && CutAt(m, i, size, align, j, k)
    ensures Shapely(m) && 1 <= k && AllocateFrom(m, i, size, align) == CutEffect(m, size, align, j, k)
    decreases j - i
  {
    hide Place, Sum, LeftSize, RightSize, HasRoom, FirstFit, Allocate;
    InvShape(m);
    if i == j {
      RegionIn(m, j);
      FirstRoomChosen(m[j].value, size, align, k);
      AllocateChosen(m[j].value, size, align, k);
    } else {
      if m[i].Some? {
        RegionIn(m, i);
        RegionFullIff(m[i].value, size, align);
      }
      CutsFirstRoom(m, i + 1, size, align, j, k);
    }
  }

  lemma AllocateChosen(r: Region, size: nat, align: nat, k: nat)
    requires RegionOk(r) && size > 0 && 1 <= k < |r.t|
    requires Chosen(r.t, r.base, size, align) == Some(Found(k, Start(r.t, r.base, k)))
    ensures var l := LeftSize(r.t[k].size, Start(r.t, r.base, k), size, align);
            Allocate(r.t, r.base, size, align)
            == match Place(r.t, k, l, size, RightSize(r.t[k].size, l, size))
               case None => Panic
               case Some(u) => Placed(Wrap(Start(r.t, r.base, k) + l), u)
  {
    hide Place, Sum, LeftSize, RightSize, FirstFit, Start;
  }

  lemma {:induction false} FullIsRefused(m: Memory, i: nat, size: nat, align: nat)
    requires Inv(m) && Shapely(m) && i <= |m| && size > 0 && AllFull(m, i, size, align)
    ensures AllocateFrom(m, i, size, align) == Return(None, m)
    decreases |m| - i
  {
    hide Allocate, RegionFull;
    if i < |m| {
      if m[i].Some? {
        RegionIn(m, i);
        RegionFullIff(m[i].value, size, align);
      }
      FullIsRefused(m, i + 1, size, align);
    }
  }

  /** There is no room, or there is a first block that has it. */
  lemma {:induction false} FullOrNot(m: Memory, i: nat, size: nat, align: nat) returns (j: nat, k: nat)
    requires i <= |m|
    ensures AllFull(m, i, size, align) || CutAt(m, i, size, align, j, k)
    decreases |m| - i
  {
    hide HasRoom, Start;
    j, k := 0, 0;
    if i < |m| {
      if m[i].None? || RegionFull(m[i].value, size, align) {
        j, k := FullOrNot(m, i + 1, size, align);
      } else {
        j := i;
        k := FirstWithRoom(m[i].value, size, align);
      }
    }
  }

  lemma FirstWithRoom(r: Region, size: nat, align: nat) returns (k: nat)
    requires !RegionFull(r, size, align)
    ensures FirstRoomIn(r, size, align, k)
  {
    hide HasRoom, Start;
    k := 0;
    while !HasRoom(r.t[k], Start(r.t, r.base, k), size, align)
      invariant k < |r.t| && exists h :: k <= h < |r.t| && HasRoom(r.t[h], Start(r.t, r.base, h), size, align)
      invariant forall h :: 0 <= h < k ==> !HasRoom(r.t[h], Start(r.t, r.base, h), size, align)
      decreases |r.t| - k
    {
      k := k + 1;
    }
  }

  /** Allocation completeness in bytes, for any alignment: a request that does not panic
      is refused exactly when no block of any region has room; otherwise the first
      block that has it is cut, in the earliest such region. */
  lemma AllocationIsComplete(m: Memory, size: nat, align: nat)
    requires Inv(m) && size > 0
    ensures Shapely(m)
    ensures Requested(m, size, align) == Return(None, m) <==> AllFull(m, 0, size, align)
    ensures Requested(m, size, align).Return? && Requested(m, size, align).ptr.None? ==> AllFull(m, 0, size, align)
    ensures forall j: nat, k: nat :: CutAt(m, 0, size, align, j, k) ==>
              1 <= k && Requested(m, size, align) == CutEffect(m, size, align, j, k)
    ensures !AllFull(m, 0, size, align) ==> exists j: nat, k: nat :: CutAt(m, 0, size, align, j, k)
  {
    hide AllocateFrom, Inv, HasRoom, Start, LeftSize, RightSize, Place;
    InvShape(m);
    var j, k := FullOrNot(m, 0, size, align);
    if AllFull(m, 0, size, align) {
      FullIsRefused(m, 0, size, align);
    }
    forall j: nat, k: nat | CutAt(m, 0, size, align, j, k)
      ensures 1 <= k && AllocateFrom(m, 0, size, align) == CutEffect(m, size, align, j, k)
      ensures !AllFull(m, 0, size, align)
    {
      CutsFirstRoom(m, 0, size, align, j, k);
    }
  }

  lemma WhereRoomIs(m: Memory, size: nat, align: nat)
    requires Inv(m) && size > 0
    ensures Shapely(m)
    ensures AllFull(m, 0, size, align) || exists j: nat, k: nat ::
              CutAt(m, 0, size, align, j, k) && 1 <= k
              && Requested(m, size, align) == CutEffect(m, size, align, j, k)
  {
    hide AllocateFrom, Inv, HasRoom, Start, LeftSize, RightSize, Place;
    AllocationIsComplete(m, size, align);
  }

  /** Where nothing wraps, an aligned request needs `size` bytes and the distance of the
      block from the multiple of `align` below it. */
  lemma RoomWithoutWrap(b: Block, at: nat, size: nat, align: nat)
    requires align > 0 && size + align < WORD
    ensures HasRoom(b, at, size, align) <==> !b.used && b.size >= size + at % align
  {
    assert 0 <= at % align < align;
  }

  /** An aligned request for which nothing wraps is refused exactly when every FREE
      block of every region is smaller than that. */
  lemma AlignedRefusedIff(m: Memory, size: nat, align: nat)
    requires Inv(m) && size > 0 && align > 0 && size + align < WORD
    ensures Shapely(m)
    ensures Requested(m, size, align) == Return(None, m)
            <==> forall j, k :: 0 <= j < |m| && m[j].Some? && 0 <= k < |m[j].value.t| && !m[j].value.t[k].used ==>
                   m[j].value.t[k].size < size + Start(m[j].value.t, m[j].value.base, k) % align
  {
    hide Inv, AllocateFrom, HasRoom, Start;
    AllocationIsComplete(m, size, align);
    forall j, k | 0 <= j < |m| && m[j].Some? && 0 <= k < |m[j].value.t|
      ensures var r := m[j].value;
              HasRoom(r.t[k], Start(r.t, r.base, k), size, align)
              <==> !r.t[k].used && r.t[k].size >= size + Start(r.t, r.base, k) % align
    {
      RoomWithoutWrap(m[j].value.t[k], Start(m[j].value.t, m[j].value.base, k), size, align);
    }
  }

  /** Cutting a block panics exactly when the pieces need more descriptors of 12 bytes
      than the table holds and the block behind the table, after the cut, is USED or
      smaller than 384 bytes. */
  lemma PlacePanicsIff(t: Tiling, k: nat, l: nat, s: nat, r: nat)
    requires |t| >= 2 && 1 <= k < |t|
    ensures Place(t, k, l, s, r) == None
            <==> && |t| + (if l != 0 then 1 else 0) + (if r != 0 then 1 else 0) > t[0].size / 12
                 && (if k > 1 then t[1].used || t[1].size < 384 else l < 384)
  {
    var c := Cut(t, k, l, s, r);
    assert |c| == |t| + (if l != 0 then 1 else 0) + (if r != 0 then 1 else 0);
    assert c[1] == if k > 1 then t[1] else if l != 0 then Block(l, false) else Block(s, true);
  }

  /** In a fresh region of 4096 bytes a request of 3000 bytes, aligned to 8, is met. */
  lemma AlignedRequestIsMet()
    ensures var o := Allocate(Fresh(4096), 0xF0000, 3000, 8); o.Placed? && o.ptr == 0xF0448
  {
    var t, base := Fresh(4096), 0xF0000;
    assert t == [Block(36, true), Block(4060, false)];
    var f := Found(1, base + 36);
    assert FirstFit(t, 0, base, 3000, 8) == FirstFit(t, 1, base + 36, 3000, 8) == Some(f);
    var l := LeftSize(4060, base + 36, 3000, 8);
    assert l == 1060 && RightSize(4060, l, 3000) == 0;
  }
}
