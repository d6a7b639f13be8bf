/** The table of regions and the entry points of the storage manager, which try
    the regions one after the other and update at most one of them in place. */
module PmmTable {
  import opened Words
  import opened PmmTiling
  import opened PmmAllocation
  import opened PmmRelease
  import opened PmmCanonical
  import opened PmmMemory
  import opened PmmRegions
  import opened PmmRoom

  class PhysicalMemory {
    const regions: array<PmmRegion?>

    /** The descriptor arrays and the region records. */
    ghost function Footprint(): set<object>
      reads this, regions
    {
      (set i | 0 <= i < regions.Length && regions[i] != null :: regions[i] as object)
      + (set i | 0 <= i < regions.Length && regions[i] != null :: regions[i].heap as object)
    }

    /** Distinct entries use distinct storage. */
    ghost predicate Distinct()
      reads this, regions
    {
      && regions.Length == MAX_REGIONS
      && (forall i, j :: 0 <= i < j < regions.Length && regions[i] != null && regions[j] != null ==>
            regions[i] != regions[j] && regions[i].heap != regions[j].heap)
      && (forall i :: 0 <= i < regions.Length && regions[i] != null ==> regions[i].heap as object != regions)
    }

    ghost predicate Readable()
      reads this, regions, Footprint()
    {
      Distinct() && forall i :: 0 <= i < regions.Length && regions[i] != null ==> regions[i].ListOk()
    }

    ghost predicate Valid()
      reads this, regions, Footprint()
    {
      && Readable()
      && (forall i :: 0 <= i < regions.Length && regions[i] != null ==> regions[i].Valid())
      && (forall i, j :: 0 <= i < j < regions.Length && regions[i] != null && regions[j] != null ==>
            || regions[i].base + regions[i].size <= regions[j].base
            || regions[j].base + regions[j].size <= regions[i].base)
    }

    ghost function Entry(i: nat): Option<Region>
      reads this, regions, Footprint()
      requires Readable() && i < regions.Length
    {
      if regions[i] == null then None else Some(Region(regions[i].base, regions[i].size, regions[i].Blocks()))
    }

    /** The abstract memory. */
    ghost function View(): (m: Memory)
      reads this, regions, Footprint()
      requires Readable()
      ensures |m| == MAX_REGIONS && forall i :: 0 <= i < |m| ==> m[i] == Entry(i)
    {
      seq(regions.Length, i requires 0 <= i < regions.Length && Readable() reads this, regions, Footprint() => Entry(i))
    }

    lemma ViewInv()
      requires Valid()
      ensures Inv(View())
      ensures forall j :: 0 <= j < |View()| && View()[j].Some? ==> |View()[j].value.t| >= 2 && View()[j].value.t[0].used
    {
      forall i | 0 <= i < |View()| && View()[i].Some?
        ensures RegionOk(View()[i].value)
      {
        assert regions[i].Valid();
      }
      InvShape(View());
    }

    constructor ()
      ensures Valid() && fresh(regions) && View() == seq(8, i => None)
    {
      regions := new PmmRegion?[MAX_REGIONS](i => null);
      new;
      assert View() == seq(MAX_REGIONS, i => None);
    }

    /** If only the region of entry `i` changed, so did only entry `i` of the view. */
    twostate lemma Touched(i: nat)
      requires old(Valid()) && Distinct() && i < regions.Length && unchanged(regions)
      requires regions[i] != null && regions[i].ListOk()
      requires forall j :: 0 <= j < regions.Length && j != i && regions[j] != null ==>
                 unchanged(regions[j]) && unchanged(regions[j].heap)
      ensures Readable()
      ensures View() == old(View())[i := Some(Region(regions[i].base, regions[i].size, regions[i].Blocks()))]
      ensures regions[i].Valid() ==> Valid()
    {
      forall j | 0 <= j < regions.Length && j != i && regions[j] != null
        ensures regions[j].ListOk() && regions[j].Blocks() == old(regions[j].Blocks()) && regions[j].Valid()
      {
        assert old(regions[j].Valid());
      }
      forall j | 0 <= j < regions.Length && j != i
        ensures Entry(j) == old(Entry(j))
      {
      }
    }

    /** The request is put to the region of entry `i`. */
    method AllocateAt(i: nat, region: PmmRegion, size: nat, align: nat, ghost v: Memory) returns (r: Answer)
      requires Valid() && View() == v && i < regions.Length && regions[i] == region && size > 0
      modifies region`order, region.heap
      ensures match Allocate(v[i].value.t, v[i].value.base, size, align)
              case Panic => r == Panicked
              case Null => r == NoStorage && Valid() && View() == v
              case Placed(p, t) =>
                && r == Pointer(p) && Readable() && View() == v[i := Some(v[i].value.(t := t))]
                && (Sound(v[i].value.t, v[i].value.base, size, align) ==> Valid())
    {
      assert v[i] == Some(Region(region.base, region.size, region.Blocks()));
      ghost var t := region.Blocks();
      r := region.AllocateIn(size, align);
      if r.Pointer? {
        Touched(i);
        if Sound(t, region.base, size, align) {
          AllocationSound(t, region.base, region.size, size, align);
        }
      } else if r == NoStorage {
        Touched(i);
        assert View() == v;
      }
    }

    /** The request is put to one region after the other. */
    method AskRegions(size: nat, align: nat, ghost v: Memory) returns (r: Answer)
      requires Valid() && View() == v && size > 0
      modifies Footprint()
      ensures Shapely(v)
      ensures match Requested(v, size, align)
              case Halt => r == Panicked
              case Return(None, m) => r == NoStorage && Valid() && View() == v
              case Return(Some(p), m) => r == Pointer(p) && Readable() && View() == m
                                         && (Fitting(v, 0, size, align) ==> Valid())
    {
      ViewInv();
      for i := 0 to MAX_REGIONS
        invariant Valid() && View() == v
        invariant Requested(v, size, align) == AllocateFrom(v, i, size, align)
        invariant Fitting(v, 0, size, align) == Fitting(v, i, size, align)
      {
        assert v[i] == Entry(i);
        var region := regions[i];
        if region != null {
          r := AllocateAt(i, region, size, align, v);
          if r != NoStorage {
            return;
          }
        }
      }
      r := NoStorage;
    }

    /** `MmAllocatePhysical`.  It is refused exactly when no block of any region has
        room; otherwise the first block that has it is cut, in the earliest region.
        The invariant holds again whenever the request fits there. */
    method AllocatePhysical(size: nat, align: nat) returns (r: Answer)
      requires Valid()
      modifies Footprint()
      ensures match old(Requested(View(), size, align))
              case Halt => r == Panicked
              case Return(None, m) => r == NoStorage && Valid() && View() == old(View())
              case Return(Some(p), m) => r == Pointer(p) && Readable() && View() == m
                                         && (old(Fitting(View(), 0, size, align)) ==> Valid())
      ensures r == NoStorage <==> size > 0 && old(AllFull(View(), 0, size, align))
      ensures r.Pointer? ==> size > 0 && old(exists j: nat, k: nat ::
                CutAt(View(), 0, size, align, j, k) && 1 <= k
                && Requested(View(), size, align) == CutEffect(View(), size, align, j, k))
    {
      hide Inv, AllocateFrom, Fitting, AllFull, CutAt, CutEffect;
      ViewInv();
      if size == 0 {
        return Panicked;
      }
      AllocationIsComplete(View(), size, align);
      WhereRoomIs(View(), size, align);
      r := AskRegions(size, align, View());
    }

    /** The pointer is looked for in the region of entry `i`. */
    method FreeAtEntry(i: nat, region: PmmRegion, ptr: nat, ghost v: Memory) returns (done: bool)
      requires Valid() && View() == v && i < regions.Length && regions[i] == region
      modifies region`order, region.heap
      ensures Readable()
      ensures match FreeScan(v[i].value.t, 0, v[i].value.base, ptr, true)
              case Hit(k) =>
                && done && View() == v[i := Some(v[i].value.(t := FreeAt(v[i].value.t, k)))]
                && (k > 0 ==> Valid())
              case Stop => done && View() == v && Valid()
              case End => !done && View() == v && Valid()
    {
      assert v[i] == Some(Region(region.base, region.size, region.Blocks()));
      ghost var t := region.Blocks();
      done := region.FreeIn(ptr);
      Touched(i);
      match FreeScan(t, 0, region.base, ptr, true) {
        case Hit(k) =>
          if k > 0 {
            FreeAtSound(t, region.base, region.size, k);
          }
        case _ =>
          assert View() == v;
      }
    }

    /** `MmFreePhysical`, closed test and all, for any pointer.  Only freeing a
        descriptor table itself can break the invariant. */
    method FreePhysical(ptr: nat)
      requires Valid()
      modifies Footprint()
      ensures Readable() && View() == FreeFrom(old(View()), 0, ptr, true)
      ensures old(!HitsTable(View(), ptr)) ==> Valid()
    {
      hide FreeScan, FreeAt;
      ghost var v := View();
      for i := 0 to MAX_REGIONS
        invariant Valid() && View() == v
        invariant FreeFrom(v, 0, ptr, true) == FreeFrom(v, i, ptr, true)
      {
        assert v[i] == Entry(i);
        var region := regions[i];
        if region == null || ptr < region.base || ptr > region.base + region.size {
          continue;
        }
        var done := FreeAtEntry(i, region, ptr, v);
        if done {
          return;
        }
      }
    }

    /** `MmCreateRegion`: the first entry that is not present takes the region. */
    method CreateRegion(base: nat, size: nat, storage: array<PmmBlock>) returns (ok: bool)
      requires Valid() && 2048 <= size && base + size < WORD
      requires storage.Length >= size / DESCRIPTOR + 32
      requires forall s :: 2 <= s < size / 2048 + 1 ==> storage[s].flags == NotPresent
      requires storage !in Footprint() && storage as object != regions
      requires forall i :: 0 <= i < regions.Length && regions[i] != null ==>
                 regions[i].base + regions[i].size <= base || base + size <= regions[i].base
      modifies regions, storage
      ensures match CreateFrom(old(View()), 0, base, size)
              case None => !ok
              case Some(m) => ok && Valid() && View() == m
    {
      hide Tiled, Fresh, Inv;
      ghost var v := View();
      for i := 0 to MAX_REGIONS
        invariant Valid() && View() == v && unchanged(regions) && unchanged(storage)
        invariant CreateFrom(v, 0, base, size) == CreateFrom(v, i, base, size)
      {
        assert v[i] == Entry(i);
        if regions[i] == null {
          var region := new PmmRegion(base, size, storage);
          regions[i] := region;
          Added(i, region);
          return true;
        }
      }
      ok := false;
    }

    /** A new region in a vacant entry shows up there and nowhere else. */
    twostate lemma Added(i: nat, new region: PmmRegion)
      requires old(Valid()) && i < regions.Length && old(regions[i]) == null && regions[i] == region
      requires forall j :: 0 <= j < regions.Length && j != i ==> regions[j] == old(regions[j])
      requires region.Valid() && fresh(region) && region.heap !in old(Footprint()) && region.heap as object != regions
      requires forall j :: 0 <= j < regions.Length && j != i && regions[j] != null ==>
                 && unchanged(regions[j]) && unchanged(regions[j].heap)
                 && (regions[j].base + regions[j].size <= region.base || region.base + region.size <= regions[j].base)
      ensures Valid()
      ensures View() == old(View())[i := Some(Region(region.base, region.size, region.Blocks()))]
    {
      hide PmmRegion.Valid, PmmRegion.ListOk, PmmRegion.Blocks;
      region.ValidIsListOk();
      forall j | 0 <= j < regions.Length && j != i && regions[j] != null
        ensures regions[j].ListOk() && regions[j].Blocks() == old(regions[j].Blocks()) && regions[j].Valid()
        ensures regions[j] != region && regions[j].heap != region.heap
      {
        assert old(regions[j].Valid());
        assert regions[j].heap in old(Footprint());
      }
      forall j | 0 <= j < regions.Length && j != i
        ensures Entry(j) == old(Entry(j))
      {
      }
    }
  }
}
