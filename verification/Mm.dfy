/** Allocation for the rest of the kernel (`kernel/mm.c`), which moves contents
    with `KeMoveMemory` (`kernel/memory.c`), and what becomes of those contents. */
module Mm {
  import opened Words
  import opened PmmFacts
  import opened PmmMemory
  import opened PmmRegions
  import opened PmmRelease
  import opened PmmRuns
  import opened PmmTable
  import opened PmmTiling
  import opened PmmUnaligned

  /** Storage, byte by byte; an index is an address. */
  type Contents = seq<Byte>

  // ---------- moving memory ----------

  /** What moving `n` bytes means, overlapping or not. */
  function Moved(c: Contents, dest: nat, src: nat, n: nat): (r: Contents)
    requires dest + n <= |c| && src + n <= |c|
    ensures |r| == |c|
  {
    c[..dest] + c[src..src + n] + c[dest + n..]
  }

  lemma MovedAt(c: Contents, dest: nat, src: nat, n: nat, a: nat)
    requires dest + n <= |c| && src + n <= |c| && a < |c|
    ensures Moved(c, dest, src, n)[a] == if dest <= a < dest + n then c[a - dest + src] else c[a]
  {
    if dest <= a < dest + n {
      assert c[src..src + n][a - dest] == c[a - dest + src];
    }
  }

  /** What `KeMoveMemory` does.  Towards higher addresses it runs over the offsets
      `n` to 1 instead of `n - 1` to 0. */
  function MovedAsCoded(c: Contents, dest: nat, src: nat, n: nat): (r: Contents)
    requires dest + n < |c| && src + n < |c|
    ensures |r| == |c|
  {
    if dest < src then Moved(c, dest, src, n) else Moved(c, dest + 1, src + 1, n)
  }

  /** Forward: offsets 0 to n - 1. */
  method MoveForward(mem: array<Byte>, dest: nat, src: nat, n: nat)
    requires dest < src && src + n <= mem.Length
    modifies mem
    ensures mem[..] == Moved(old(mem[..]), dest, src, n)
  {
    hide Moved;
    ghost var c := mem[..];
    var left: nat := n;
    while left > 0
      invariant left <= n
      invariant forall a :: dest <= a < dest + (n - left) ==> mem[a] == c[a - dest + src]
      invariant forall a :: 0 <= a < dest || dest + (n - left) <= a < mem.Length ==> mem[a] == c[a]
    {
      mem[dest + (n - left)] := mem[src + (n - left)];
      left := left - 1;
    }
    forall a | 0 <= a < mem.Length
      ensures mem[a] == Moved(c, dest, src, n)[a]
    {
      MovedAt(c, dest, src, n, a);
    }
  }

  /** Backward: offsets n to 1. */
  method MoveBackward(mem: array<Byte>, dest: nat, src: nat, n: nat)
    requires src <= dest && dest + n < mem.Length
    modifies mem
    ensures mem[..] == Moved(old(mem[..]), dest + 1, src + 1, n)
  {
    hide Moved;
    ghost var c := mem[..];
    var left: nat := n;
    while left > 0
      invariant left <= n
      invariant forall a :: dest + left < a <= dest + n ==> mem[a] == c[a - dest + src]
      invariant forall a :: 0 <= a <= dest + left || dest + n < a < mem.Length ==> mem[a] == c[a]
    {
      mem[dest + left] := mem[src + left];
      left := left - 1;
    }
    forall a | 0 <= a < mem.Length
      ensures mem[a] == Moved(c, dest + 1, src + 1, n)[a]
    {
      MovedAt(c, dest + 1, src + 1, n, a);
    }
  }

  /** `KeMoveMemory`.  Addresses have 31 bits, so the signed comparison of pointers
      in the code is the plain one. */
  method KeMoveMemory(mem: array<Byte>, dest: nat, src: nat, n: nat)
    requires dest + n < mem.Length && src + n < mem.Length <= 0x8000_0000
    modifies mem
    ensures mem[..] == MovedAsCoded(old(mem[..]), dest, src, n)
    ensures forall a :: 0 <= a < mem.Length ==>
              mem[a] == if dest < src && dest <= a < dest + n then old(mem[a - dest + src])
                        else if src <= dest && dest < a <= dest + n then old(mem[a - dest + src])
                        else old(mem[a])
  {
    if dest < src {
      MoveForward(mem, dest, src, n);
    } else {
      MoveBackward(mem, dest, src, n);
    }
  }

  /** What every byte holds after a move of the code: towards lower addresses the bytes
      moved, towards higher ones those one further on, to one further on. */
  lemma MovedAsCodedAt(c: Contents, dest: nat, src: nat, n: nat, a: nat)
    requires dest + n < |c| && src + n < |c| && a < |c|
    ensures dest < src ==>
              MovedAsCoded(c, dest, src, n)[a] == if dest <= a < dest + n then c[a - dest + src] else c[a]
    ensures src <= dest ==>
              MovedAsCoded(c, dest, src, n)[a] == if dest < a <= dest + n then c[a - dest + src] else c[a]
  {
    if dest < src {
      MovedAt(c, dest, src, n, a);
    } else {
      MovedAt(c, dest + 1, src + 1, n, a);
    }
  }

  /** Exactly when the code moves memory as it should. */
  lemma MoveIsRightIff(c: Contents, dest: nat, src: nat, n: nat)
    requires dest + n < |c| && src + n < |c|
    ensures MovedAsCoded(c, dest, src, n) == Moved(c, dest, src, n)
            <==> dest < src || n == 0 || (c[src] == c[dest] && c[src + n] == c[dest + n])
  {
    if dest >= src && n > 0 {
      var r, e := Moved(c, dest + 1, src + 1, n), Moved(c, dest, src, n);
      assert r[dest] == c[dest] && e[dest] == c[src];
      assert r[dest + n] == c[src + n] && e[dest + n] == c[dest + n];
      forall a | 0 <= a < |c| && a != dest && a != dest + n
        ensures r[a] == e[a]
      {
        MovedAt(c, dest + 1, src + 1, n, a);
        MovedAt(c, dest, src, n, a);
      }
    }
  }

  // ---------- allocation ----------

  /** `MmAllocate`: refused exactly when no region has room; otherwise the object is
      flush with the high end of the first block that has it, in the earliest region. */
  method MmAllocate(pm: PhysicalMemory, size: nat) returns (r: Answer)
    requires pm.Valid()
    modifies pm.Footprint()
    ensures r == Panicked || pm.Valid()
    ensures match old(Requested(pm.View(), size, 0))
            case Halt => r == Panicked
            case Return(None, m) => r == NoStorage && pm.View() == old(pm.View())
            case Return(Some(p), m) => r == Pointer(p) && pm.View() == m
    ensures r == NoStorage <==> size > 0 && old(NoRoom(pm.View(), 0, size))
    ensures r.Pointer? ==> size > 0 && old(exists j: nat, k: nat ::
              GoesTo(pm.View(), 0, size, j, k) && Requested(pm.View(), size, 0) == Filled(pm.View(), size, j, k))
  {
    hide Inv, AllocateFrom, Fitting, NoRoom, GoesTo, PmmRegion.Valid, PmmRegion.ListOk, PmmRegion.Blocks;
    ghost var v := pm.View();
    pm.ViewInv();
    if size > 0 {
      UnalignedFits(v, 0, size);
      UnalignedIsComplete(v, size);
      RoomWhere(v, size);
    }
    r := pm.AllocatePhysical(size, 0);
  }

  lemma RoomWhere(m: Memory, size: nat)
    requires Inv(m) && size > 0
    ensures NoRoom(m, 0, size) || exists j: nat, k: nat ::
              GoesTo(m, 0, size, j, k) && 1 <= k && Requested(m, size, 0) == Filled(m, size, j, k)
  {
    hide AllocateFrom, Inv;
    InvShape(m);
    UnalignedIsComplete(m, size);
  }

  // ---------- reallocation ----------

  /** `MmReallocate`.  `mem` is the storage behind the addresses; the clients' part
      of it is not where the descriptors are kept. */
  method MmReallocate(pm: PhysicalMemory, mem: array<Byte>, ptr: Option<nat>, size: nat) returns (r: Answer)
    requires pm.Valid() && mem !in pm.Footprint() && mem as object != pm.regions && mem.Length <= 0x8000_0000
    requires forall i :: 0 <= i < MAX_REGIONS && pm.View()[i].Some? ==>
               pm.View()[i].value.base + pm.View()[i].value.size < mem.Length
    requires ptr.Some? ==> ptr.value + size < mem.Length
    modifies mem, pm.Footprint()
    ensures match old(Requested(pm.View(), size, 0))
            case Halt => r == Panicked
            case Return(None, m) =>
              && r == NoStorage && pm.Valid() && pm.View() == old(pm.View())
              && mem[..] == old(mem[..])
            case Return(Some(p), m) =>
              && r == Pointer(p) && pm.Readable()
              && pm.View() == (if ptr.None? then m else FreeFrom(m, 0, ptr.value, true))
              && p + size < mem.Length
              && mem[..] == if ptr.None? then old(mem[..]) else MovedAsCoded(old(mem[..]), p, ptr.value, size)
  {
    hide Inv, Shapely, Requested, AllocateFrom, FreeFrom, Fitting, Moved, NoRoom, GoesTo, Filled, MovedAsCoded;
    hide PmmRegion.Valid, PmmRegion.ListOk, PmmRegion.Blocks;
    ghost var v := pm.View();
    pm.ViewInv();
    r := MmAllocate(pm, size);
    if !r.Pointer? {
      return;
    }
    AllocatedInside(v, size, mem.Length);
    if ptr.None? {
      return;
    }
    MoveAndFree(pm, mem, r.ptr, ptr.value, size);
  }

  /** The second half: move the contents, then `MmFree` the old object. */
  method MoveAndFree(pm: PhysicalMemory, mem: array<Byte>, p: nat, old_: nat, size: nat)
    requires pm.Valid() && mem !in pm.Footprint() && mem as object != pm.regions && mem.Length <= 0x8000_0000
    requires p + size < mem.Length && old_ + size < mem.Length
    modifies mem, pm.Footprint()
    ensures pm.Readable() && pm.View() == FreeFrom(old(pm.View()), 0, old_, true)
    ensures mem[..] == MovedAsCoded(old(mem[..]), p, old_, size)
  {
    hide FreeFrom, Moved, MovedAsCoded, PmmRegion.Valid, PmmRegion.ListOk, PmmRegion.Blocks;
    KeMoveMemory(mem, p, old_, size);
    pm.FreePhysical(old_);
  }

  /** A new allocation ends within its region. */
  lemma AllocatedInside(m: Memory, size: nat, limit: nat)
    requires Inv(m) && size > 0
    requires Shapely(m)
    requires forall i :: 0 <= i < |m| && m[i].Some? ==> m[i].value.base + m[i].value.size < limit
    requires Requested(m, size, 0).Return? && Requested(m, size, 0).ptr.Some?
    ensures Requested(m, size, 0).ptr.value + size < limit
  {
    UnalignedFits(m, 0, size);
    AllocateStep(m, 0, size, 0);
    RegionsStay(m, 0, size, 0);
    var p, n := Requested(m, size, 0).ptr.value, Requested(m, size, 0).m;
    assert (p, size) in LiveIn(n);
    var i :| 0 <= i < |n| && n[i].Some? && (p, size) in Live(n[i].value.t, n[i].value.base);
    LiveInRegion(n, i, (p, size));
  }

  /** The first bytes of the old object are those of the new one. */
  predicate ObjectKept(c: Contents, d: Contents, x: (nat, nat), p: nat, size: nat) {
    var k := if x.1 < size then x.1 else size;
    p + k <= |d| && x.0 + k <= |c| && d[p..p + k] == c[x.0..x.0 + k]
  }

  /** At most the first byte of the object is lost, and what is in its place is what
      was there before. */
  predicate OnlyFirstLost(c: Contents, d: Contents, x: (nat, nat), p: nat, size: nat) {
    var k := if x.1 < size then x.1 else size;
    && p + k <= |d| && x.0 + k <= |c| && p < |d| && p < |c| && x.0 < |c|
    && d[p] == (if p < x.0 then c[x.0] else c[p])
    && forall a :: p < a < p + k ==> d[a] == c[a - p + x.0]
  }

  /** Nobody else's contents have changed. */
  ghost predicate OthersKept(m: Memory, c: Contents, d: Contents, x: (nat, nat))
    requires Inv(m) && |d| == |c|
  {
    forall y <- LiveIn(m), a | y.0 <= a < y.0 + y.1 && a < |c| && y != x :: d[a] == c[a]
  }

  /** Someone else's allocation holds the byte at `a`. */
  ghost predicate Taken(m: Memory, x: (nat, nat), a: nat)
    requires Inv(m)
  {
    exists y <- LiveIn(m) :: y != x && y.0 <= a < y.0 + y.1
  }

  /** Allocating `size` bytes, which go into block `k` of entry `j`, and then freeing
      the live object `x`.  Memory is in order afterwards with the new object live
      instead of the old one if and only if, checked before, no USED block will end at
      the old pointer.  When the new object lies directly below the old one, it is the
      one that is freed, and the old one stays live. */
  lemma ReplaceEffect(m: Memory, x: (nat, nat), size: nat, j: nat, k: nat)
    requires Inv(m) && x in LiveIn(m) && size > 0
    requires GoesTo(m, 0, size, j, k) && Filled.requires(m, size, j, k) && Filled(m, size, j, k).Return?
    ensures Shapely(m) && Requested(m, size, 0) == Filled(m, size, j, k)
    ensures var p, n := Filled(m, size, j, k).ptr.value, Filled(m, size, j, k).m;
            && Inv(n) && (p, size) !in LiveIn(m) && (forall y <- LiveIn(m) :: Apart(y, (p, size)))
            && (Holding(FreeFrom(n, 0, x.0, true), LiveIn(m) - {x} + {(p, size)}) <==> !WillEndAt(m, size, j, k, x.0))
            && (p + size == x.0 ==> Holding(FreeFrom(n, 0, x.0, true), LiveIn(m)))
  {
    hide Inv, LiveIn, Holding, AllocateFrom, FreeFrom, UsedEndsAt, Fitting, Filled, WillEndAt;
    InvShape(m);
    UnalignedIsComplete(m, size);
    UnalignedFits(m, 0, size);
    AllocateStep(m, 0, size, 0);
    var p, n := Filled(m, size, j, k).ptr.value, Filled(m, size, j, k).m;
    assert !Apart((p, size), (p, size));
    EndsAfterIff(m, size, j, k, x);
    SwapLiveIff(m, n, x, (p, size));
    if p + size == x.0 {
      FreesTheOther(n, x, (p, size));
      assert LiveIn(m) + {(p, size)} - {(p, size)} == LiveIn(m);
    }
  }

  /** Reallocating the live object `x` to `size` bytes: which object is live afterwards,
      said as above, and what becomes of contents.  They are kept exactly when the new
      object lies below the old one, or the move's wrong bytes happen not to matter. */
  lemma ReallocateEffect(m: Memory, c: Contents, x: (nat, nat), size: nat, j: nat, k: nat)
    requires Inv(m) && x in LiveIn(m) && size > 0
    requires forall i :: 0 <= i < |m| && m[i].Some? ==> m[i].value.base + m[i].value.size < |c|
    requires x.0 + size < |c|
    requires GoesTo(m, 0, size, j, k) && Filled.requires(m, size, j, k) && Filled(m, size, j, k).Return?
    ensures Shapely(m) && Requested(m, size, 0) == Filled(m, size, j, k)
    ensures var p, n := Filled(m, size, j, k).ptr.value, Filled(m, size, j, k).m;
            && (Holding(FreeFrom(n, 0, x.0, true), LiveIn(m) - {x} + {(p, size)}) <==> !WillEndAt(m, size, j, k, x.0))
            && (p + size == x.0 ==> Holding(FreeFrom(n, 0, x.0, true), LiveIn(m)))
    ensures var p := Filled(m, size, j, k).ptr.value;
            && p + size < |c|
            && var d := MovedAsCoded(c, p, x.0, size);
            && (ObjectKept(c, d, x, p, size) <==> p < x.0 || c[x.0] == c[p])
            && OnlyFirstLost(c, d, x, p, size)
            && (OthersKept(m, c, d, x) <==> p < x.0 || !Taken(m, x, p + size) || c[x.0 + size] == c[p + size])
  {
    hide Inv, LiveIn, Holding, AllocateFrom, FreeFrom, Moved, ObjectKept, OnlyFirstLost, OthersKept, Taken;
    hide Filled, WillEndAt;
    ReplaceEffect(m, x, size, j, k);
    AllocatedInside(m, size, |c|);
    var p := Filled(m, size, j, k).ptr.value;
    LivePositive(m, x);
    ObjectEffect(c, x, p, size);
    OthersEffect(m, c, x, p, size);
  }

  lemma SwapLiveIff(m: Memory, n: Memory, x: (nat, nat), y: (nat, nat))
    requires Inv(m) && Inv(n) && x in LiveIn(m) && y !in LiveIn(m) && LiveIn(n) == LiveIn(m) + {y}
    ensures Holding(FreeFrom(n, 0, x.0, true), LiveIn(m) - {x} + {y}) <==> !UsedEndsAt(n, x.0)
  {
    hide Inv, LiveIn, FreeFrom, UsedEndsAt;
    FreeStepIff(n, x);
    assert LiveIn(n) - {x} == LiveIn(m) - {x} + {y};
  }

  lemma LivePositive(m: Memory, x: (nat, nat))
    requires Inv(m) && IsLive(m, x)
    ensures x.1 > 0
  {
    var i :| 0 <= i < |m| && m[i].Some? && x in Live(m[i].value.t, m[i].value.base);
    LiveInRegion(m, i, x);
  }

  lemma ObjectEffect(c: Contents, x: (nat, nat), p: nat, size: nat)
    requires x.1 > 0 && size > 0 && p + size < |c| && x.0 + size < |c|
    ensures ObjectKept(c, MovedAsCoded(c, p, x.0, size), x, p, size) <==> p < x.0 || c[x.0] == c[p]
    ensures OnlyFirstLost(c, MovedAsCoded(c, p, x.0, size), x, p, size)
  {
    hide MovedAsCoded;
    var d := MovedAsCoded(c, p, x.0, size);
    var k := if x.1 < size then x.1 else size;
    var new_, old_ := d[p..p + k], c[x.0..x.0 + k];
    MovedAsCodedAt(c, p, x.0, size, p);
    assert new_[0] == d[p] && old_[0] == c[x.0];
    forall i | 0 < i < k
      ensures new_[i] == old_[i] && d[p + i] == c[x.0 + i]
    {
      MovedAsCodedAt(c, p, x.0, size, p + i);
      assert new_[i] == d[p + i] && old_[i] == c[x.0 + i];
    }
  }

  lemma OthersEffect(m: Memory, c: Contents, x: (nat, nat), p: nat, size: nat)
    requires Inv(m) && p + size < |c| && x.0 + size < |c| && size > 0
    requires forall y <- LiveIn(m) :: Apart(y, (p, size))
    ensures OthersKept(m, c, MovedAsCoded(c, p, x.0, size), x)
            <==> p < x.0 || !Taken(m, x, p + size) || c[x.0 + size] == c[p + size]
  {
    hide Inv, LiveIn;
    var d := MovedAsCoded(c, p, x.0, size);
    forall a | 0 <= a < |c| && (a < p || p + size < a || (p < x.0 && a == p + size))
      ensures d[a] == c[a]
    {
    }
    if p >= x.0 {
      assert d[p + size] == c[x.0 + size];
    }
    forall y | y in LiveIn(m)
      ensures y.0 + y.1 <= p || p + size <= y.0
    {
      assert Apart(y, (p, size));
    }
  }

  // ---------- what reallocation does to its callers ----------

  /** After the first request of all, giving the object another size returns a pointer
      to storage that was freed again, and leaves the old object live. */
  lemma ReallocateFreesTheNew(size: nat) returns (s: State)
    requires 0 < size < 130202
    ensures Reaches(BOOT, [Create(0xF0000, 131070), Alloc(100, 0)], s, true)
    ensures s.held == {(0xF0000 + 130970, 100)} && Shapely(s.m)
    ensures var o := Requested(s.m, size, 0);
            && o.Return? && o.ptr == Some(0xF0000 + 130970 - size)
            && Holding(FreeFrom(o.m, 0, 0xF0000 + 130970, true), {(0xF0000 + 130970, 100)})
  {
    hide AllocateFrom, FreeFrom, Holding, GoesTo, Filled, WillEndAt, Taken, Moved, ObjectKept, OthersKept, Reaches;
    hide OnlyFirstLost;
    s := FirstRequest(true);
    RunFromBoot([Create(0xF0000, 131070), Alloc(100, 0)], s, true);
    var m, x := s.m, (0xF0000 + 130970, 100);
    PlaceInFirst(m, size);
    var c: Contents := seq(0x200000, i => 0);
    ReallocateEffect(m, c, x, size, 0, 1);
  }

  lemma PlaceInFirst(m: Memory, size: nat)
    requires m == BootMemory(ONE_HELD) && 0 < size < 130202
    ensures GoesTo(m, 0, size, 0, 1) && Filled(m, size, 0, 1).Return?
    ensures Filled(m, size, 0, 1).ptr == Some(0xF0000 + 130970 - size)
    ensures WillEndAt(m, size, 0, 1, 0xF0000 + 130970)
  {
    HeadStarts(ONE_HELD, 0xF0000);
    assert |Cut(ONE_HELD, 1, 130202 - size, size, 0)| == 4;
  }

  /** An object with more room above than below: where the first byte of the old place
      differs from the first byte of the new one, it is lost. */
  lemma ReallocateLosesAByte(c: Contents) returns (s: State)
    requires |c| == 0x200000 && c[0x100000] != c[0x100216]
    ensures Reaches(BOOT, [Create(0xF0000, 131070), Alloc(100, 0x10000)], s, true)
    ensures s.held == {(0x100000, 100)} && Shapely(s.m)
    ensures var o := Requested(s.m, 65000, 0);
            && o.Return? && o.ptr == Some(0x100216)
            && Holding(FreeFrom(o.m, 0, 0x100000, true), {(0x100216, 65000)})
            && OnlyFirstLost(c, MovedAsCoded(c, 0x100216, 0x100000, 65000), (0x100000, 100), 0x100216, 65000)
            && !ObjectKept(c, MovedAsCoded(c, 0x100216, 0x100000, 65000), (0x100000, 100), 0x100216, 65000)
  {
    hide AllocateFrom, FreeFrom, Holding, GoesTo, Filled, WillEndAt, Taken, Moved, ObjectKept, OthersKept, Reaches;
    hide OnlyFirstLost;
    s := AlignedRequest(true);
    RunFromBoot([Create(0xF0000, 131070), Alloc(100, 0x10000)], s, true);
    var m, x := s.m, (0x100000, 100);
    PlaceInLast(m);
    ReallocateEffect(m, c, x, 65000, 0, 3);
    assert LiveIn(m) - {x} + {(0x100216, 65000)} == {(0x100216, 65000)};
  }

  lemma PlaceInLast(m: Memory)
    requires m == BootMemory(AMONG_FREE)
    ensures GoesTo(m, 0, 65000, 0, 3) && Filled(m, 65000, 0, 3).Return?
    ensures Filled(m, 65000, 0, 3).ptr == Some(0x100216)
    ensures !WillEndAt(m, 65000, 0, 3, 0x100000)
  {
    var t, base := AMONG_FREE, 0xF0000;
    HeadStarts(t, base);
    Split(t, 2, base);
    assert Start(t, base, 3) == 0x100064;
    assert |Cut(t, 3, 434, 65000, 0)| == 5;
    assert UsedFrom(t, base) == {(base, 768), (0x100000, 100)};
  }
}
