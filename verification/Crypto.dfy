/** `CryptoARC4Encode` with the storage it takes (`kernel/crypto.c`): the cipher text
    it returns, and which of its two buffers is still allocated afterwards. */
module Crypto {
  import Arc4
  import opened Words
  import opened PmmTiling
  import opened PmmFacts
  import opened PmmAllocation
  import opened PmmRelease
  import opened PmmCanonical
  import opened PmmMemory
  import opened PmmRegions
  import opened PmmTable
  import opened PmmUnaligned
  import opened PmmRuns
  import opened Mm

  /** What the call does to storage: a keystream buffer and a result of `len` bytes
      each, of which the first is freed.  Without room, and for no bytes, it panics. */
  ghost function Encoding(m: Memory, len: nat): Effect
    requires Inv(m)
  {
    InvShape(m);
    match Requested(m, len, 0)
    case Halt => Halt
    case Return(None, _) => Halt
    case Return(Some(q), n) =>
      KeepsInv(m, len);
      InvShape(n);
      match Requested(n, len, 0)
      case Halt => Halt
      case Return(None, _) => Halt
      case Return(Some(p), o) => Return(Some(p), FreeFrom(o, 0, q, true))
  }

  lemma KeepsInv(m: Memory, size: nat)
    requires Inv(m) && Shapely(m) && Requested(m, size, 0).Return?
    ensures Inv(Requested(m, size, 0).m)
  {
    UnalignedFits(m, 0, size);
    AllocateStep(m, 0, size, 0);
  }

  /** `CryptoARC4Encode`. */
  method CryptoARC4Encode(pm: PhysicalMemory, text: array<Arc4.Octet>, key: array<Byte>)
      returns (r: Answer, ctext: array<Arc4.Octet>)
    requires pm.Valid() && key.Length > 0
    requires text as object !in pm.Footprint() && key as object !in pm.Footprint()
    modifies pm.Footprint()
    ensures old(Inv(pm.View()))
    ensures match old(Encoding(pm.View(), text.Length))
            case Halt => r == Panicked
            case Return(p, m) =>
              && p.Some? && r == Pointer(p.value) && pm.Readable() && pm.View() == m
              && fresh(ctext) && ctext[..] == Arc4.Encode(text[..], key[..])
  {
    hide Inv, Requested, FreeFrom, Arc4.Schedule, Arc4.After, Arc4.Output, Arc4.Encode, Arc4.Start;
    hide PmmRegion.Valid, PmmRegion.ListOk, PmmRegion.Blocks, NoRoom, GoesTo, Filled;
    pm.ViewInv();
    ctext := text;
    var K, q := TakeKeyStream(pm, text.Length, key);
    if q.Pointer? {
      pm.ViewInv();
      r, ctext := TakeResult(pm, text, K, key[..], q.ptr);
    } else {
      r := Panicked;
    }
  }

  /** The first half: the key schedule, a buffer, and the keystream in it. */
  method TakeKeyStream(pm: PhysicalMemory, len: nat, key: array<Byte>) returns (K: array<Byte>, q: Answer)
    requires pm.Valid() && key.Length > 0 && key as object !in pm.Footprint()
    modifies pm.Footprint()
    ensures q == Panicked || pm.Valid()
    ensures match old(Requested(pm.View(), len, 0))
            case Halt => q == Panicked
            case Return(None, m) => q == NoStorage
            case Return(Some(p), m) => q == Pointer(p) && pm.View() == m
    ensures fresh(K) && key[..] == old(key[..])
    ensures q.Pointer? ==> K.Length == len && forall m :: 0 <= m < len ==> K[m] == Arc4.KeyByte(key[..], m)
  {
    hide Requested, AllocateFrom, Arc4.Schedule, Arc4.KeyByte, Inv;
    hide PmmRegion.Valid, PmmRegion.ListOk, PmmRegion.Blocks, NoRoom, GoesTo, Filled;
    var S := Arc4.KeySchedule(key);
    q := MmAllocate(pm, len);
    if q.Pointer? {
      K := KeyStreamApart(pm, S, len, key[..]);
    } else {
      K := new Byte[0];
    }
  }

  /** Producing the keystream leaves storage management alone. */
  method KeyStreamApart(pm: PhysicalMemory, S: array<Byte>, len: nat, ghost key: seq<Byte>) returns (K: array<Byte>)
    requires pm.Valid() && S as object !in pm.Footprint() && S as object != pm.regions
    requires |key| > 0 && S.Length == 256 && S[..] == Arc4.Schedule(key, 256).1
    modifies S
    ensures pm.Valid() && pm.View() == old(pm.View())
    ensures fresh(K) && K.Length == len
    ensures forall m :: 0 <= m < len ==> K[m] == Arc4.KeyByte(key, m)
  {
    hide Arc4.Schedule, Arc4.KeyByte, PmmRegion.Valid, PmmRegion.ListOk, PmmRegion.Blocks;
    K := Arc4.KeyBytes(S, len, key);
  }

  /** The second half: the result, and `MmFree` of the keystream buffer at `q`. */
  method TakeResult(pm: PhysicalMemory, text: array<Arc4.Octet>, K: array<Byte>, ghost key: seq<Byte>, q: nat)
      returns (r: Answer, ctext: array<Arc4.Octet>)
    requires pm.Valid() && text as object !in pm.Footprint() && K as object !in pm.Footprint()
    requires |key| > 0 && K.Length == text.Length
    requires forall m :: 0 <= m < K.Length ==> K[m] == Arc4.KeyByte(key, m)
    modifies pm.Footprint()
    ensures match old(Requested(pm.View(), text.Length, 0))
            case Halt => r == Panicked
            case Return(None, m) => r == Panicked
            case Return(Some(p), m) =>
              && r == Pointer(p) && pm.Readable() && pm.View() == FreeFrom(m, 0, q, true)
              && fresh(ctext) && ctext[..] == Arc4.Encode(text[..], key)
    ensures text[..] == old(text[..])
  {
    hide Requested, FreeFrom, Arc4.KeyByte, Arc4.Encode;
    hide PmmRegion.Valid, PmmRegion.ListOk, PmmRegion.Blocks, NoRoom, GoesTo, Filled;
    ctext := text;
    r := MmAllocate(pm, text.Length);
    if !r.Pointer? {
      return Panicked, ctext;
    }
    ctext := Arc4.Mix(text, K, key);
    pm.FreePhysical(q);
  }

  // ---------- which buffer is freed ----------

  /** The keystream goes into block `k` of entry `j`, the result into block `k'` of
      entry `j'` of what is then memory.  Afterwards the result is live and nothing
      else is new if and only if no USED block will end at the keystream.  When the
      result lies directly below the keystream, the result is freed instead. */
  lemma EncodingEffect(m: Memory, len: nat, j: nat, k: nat, j': nat, k': nat)
    requires Inv(m) && len > 0
    requires GoesTo(m, 0, len, j, k) && Filled.requires(m, len, j, k) && Filled(m, len, j, k).Return?
    requires var n := Filled(m, len, j, k).m;
             GoesTo(n, 0, len, j', k') && Filled.requires(n, len, j', k') && Filled(n, len, j', k').Return?
    ensures var q, n := Filled(m, len, j, k).ptr.value, Filled(m, len, j, k).m;
            var p, e := Filled(n, len, j', k').ptr.value, Encoding(m, len);
            && e.Return? && e.ptr == Some(p) && (p, len) !in LiveIn(m)
            && (Holding(e.m, LiveIn(m) + {(p, len)}) <==> !WillEndAt(n, len, j', k', q))
            && (p + len == q ==> Holding(e.m, LiveIn(m) + {(q, len)}))
  {
    hide Inv, LiveIn, Holding, AllocateFrom, FreeFrom, Filled, WillEndAt, GoesTo, Fitting;
    InvShape(m);
    UnalignedIsComplete(m, len);
    UnalignedFits(m, 0, len);
    AllocateStep(m, 0, len, 0);
    var q, n := Filled(m, len, j, k).ptr.value, Filled(m, len, j, k).m;
    assert !Apart((q, len), (q, len));
    ReplaceEffect(n, (q, len), len, j', k');
    assert LiveIn(m) + {(q, len)} - {(q, len)} == LiveIn(m);
  }

  /** What is left of block `k` when `s` bytes were cut off it: block 1 may also have
      given bytes to the table. */
  function Remains(t: Tiling, k: nat, s: nat): int
    requires 1 <= k < |t|
  {
    t[k].size - s - (if k == 1 && GrowsFor(t, k, s) then GROWTH else 0)
  }

  /** A block with room for both buffers is used for both. */
  lemma SecondGoesBelow(m: Memory, len: nat, j: nat, k: nat)
    requires Inv(m) && len > 0 && GoesTo(m, 0, len, j, k) && Filled.requires(m, len, j, k)
    requires Remains(m[j].value.t, k, len) >= len && Filled(m, len, j, k).Return?
    ensures var q, n := Filled(m, len, j, k).ptr.value, Filled(m, len, j, k).m;
            && GoesTo(n, 0, len, j, k) && Filled.requires(n, len, j, k)
            && (Filled(n, len, j, k).Return? ==> Filled(n, len, j, k).ptr == Some(q - len))
  {
    hide Inv, Place, Sum;
    var r := m[j].value;
    RegionIn(m, j);
    RemainderFirst(r.t, r.base, r.size, len, k);
    var n := Filled(m, len, j, k).m;
    assert forall h :: 0 <= h < j && n[h].Some? ==> n[h] == m[h];
  }

  lemma RemainderFirst(t: Tiling, base: nat, total: nat, s: nat, k: nat)
    requires Tiled(t, total) && 0 < s && FirstBigEnough(t, s, k) && 1 <= k
    requires Remains(t, k, s) >= s && Place(t, k, t[k].size - s, s, 0).Some? && |t| <= Capacity(t)
    ensures var u := Place(t, k, t[k].size - s, s, 0).value;
            FirstBigEnough(u, s, k) && Start(u, base, k) + u[k].size == Start(t, base, k) + t[k].size - s
  {
    var l := t[k].size - s;
    assert t[0].used && t[k].size == l + s;
    hide Sum, Tiled, Place, Capacity;
    PlaceFront(t, k, l, s);
    PlaceStart(t, base, k, l, s);
    var u := Place(t, k, l, s, 0).value;
    Split(u, k, base);
  }

  /** The blocks up to the one that was cut, when a left part remains. */
  lemma PlaceFront(t: Tiling, k: nat, l: nat, s: nat)
    requires 1 <= k < |t| <= Capacity(t) && !t[k].used && l > 0 && t[k].size == l + s && Place(t, k, l, s, 0).Some?
    ensures var u := Place(t, k, l, s, 0).value;
            && k + 1 < |u| && !u[k].used && u[k].size == Remains(t, k, s)
            && forall h :: 0 <= h < k ==> u[h].used == t[h].used && (h == 0 || u[h].size <= t[h].size)
  {
    var c := Cut(t, k, l, s, 0);
    assert c[k] == Block(l, false) && |c| == |t| + 1;
    assert forall h :: 0 <= h < k ==> c[h] == t[h];
  }

  lemma PlaceStart(t: Tiling, base: nat, k: nat, l: nat, s: nat)
    requires 1 <= k < |t| && l > 0 && Place(t, k, l, s, 0).Some?
    ensures var u := Place(t, k, l, s, 0).value;
            k + 1 <= |u| && Start(u, base, k + 1) == Start(t, base, k) + l
  {
    hide Start, Sum;
    var c := Cut(t, k, l, s, 0);
    CutStart(t, base, k, l, s, 0);
    if Place(t, k, l, s, 0).value != c {
      GrowStart(c, base, k + 1);
    }
  }

  /** Where one block has room for both buffers, which is the normal case, the pointer
      returned is to freed storage, and the keystream stays allocated for good. */
  lemma ResultIsFreed(m: Memory, len: nat, j: nat, k: nat)
    requires Inv(m) && len > 0 && GoesTo(m, 0, len, j, k) && 1 <= k
    requires Remains(m[j].value.t, k, len) >= len && Encoding(m, len).Return?
    ensures Encoding(m, len).ptr.Some?
    ensures Holding(Encoding(m, len).m, LiveIn(m) + {(Encoding(m, len).ptr.value + len, len)})
    ensures !Holding(Encoding(m, len).m, LiveIn(m) + {(Encoding(m, len).ptr.value, len)})
  {
    hide Inv, LiveIn, AllocateFrom, FreeFrom, Filled, WillEndAt;
    InvShape(m);
    UnalignedIsComplete(m, len);
    SecondGoesBelow(m, len, j, k);
    var n := Filled(m, len, j, k).m;
    KeepsInv(m, len);
    InvShape(n);
    UnalignedIsComplete(n, len);
    EncodingEffect(m, len, j, k, j, k);
    var p := Encoding(m, len).ptr.value;
    assert (p, len) !in LiveIn(m) + {(p + len, len)} && (p, len) in LiveIn(m) + {(p, len)};
  }

  /** In the region kmain creates, every message of 1 to 60000 bytes fares that way. */
  lemma FirstEncoding(len: nat) returns (s: State)
    requires 0 < len <= 60000
    ensures Reaches(BOOT, [Create(0xF0000, 131070)], s, true) && Inv(s.m) && s.held == {}
    ensures Encoding(s.m, len).Return? && Encoding(s.m, len).ptr == Some(0x10FFFE - 2 * len)
    ensures Holding(Encoding(s.m, len).m, {(0x10FFFE - len, len)})
  {
    hide AllocateFrom, FreeFrom, Holding, LiveIn, WillEndAt, Inv, Filled, GoesTo;
    s := FreshRegion(true);
    RunFromBoot([Create(0xF0000, 131070)], s, true);
    var m := s.m;
    FreshFits(m, len);
    InvShape(m);
    UnalignedIsComplete(m, len);
    SecondGoesBelow(m, len, 0, 1);
    var n := Filled(m, len, 0, 1).m;
    KeepsInv(m, len);
    InvShape(n);
    UnalignedIsComplete(n, len);
    SecondFits(m, len);
    EncodingEffect(m, len, 0, 1, 0, 1);
    assert LiveIn(m) + {(0x10FFFE - len, len)} == {(0x10FFFE - len, len)};
  }

  lemma FreshFits(m: Memory, len: nat)
    requires m == BootMemory(Fresh(131070)) && 0 < len <= 60000
    ensures GoesTo(m, 0, len, 0, 1) && m[0].value.t[1].size == 130302
    ensures Filled(m, len, 0, 1).Return? && Filled(m, len, 0, 1).ptr == Some(0x10FFFE - len)
  {
    var t := Fresh(131070);
    HeadStarts(t, 0xF0000);
    assert |Cut(t, 1, 130302 - len, len, 0)| == 3;
  }

  lemma SecondFits(m: Memory, len: nat)
    requires m == BootMemory(Fresh(131070)) && 0 < len <= 60000
    requires Filled.requires(m, len, 0, 1) && Filled(m, len, 0, 1).Return?
    requires Filled.requires(Filled(m, len, 0, 1).m, len, 0, 1)
    ensures Filled(Filled(m, len, 0, 1).m, len, 0, 1).Return?
  {
    var t := Fresh(131070);
    var u := Cut(t, 1, 130302 - len, len, 0);
    assert u == [Block(768, true), Block(130302 - len, false), Block(len, true)];
    assert Filled(m, len, 0, 1).m[0].value.t == u;
    assert |Cut(u, 1, 130302 - 2 * len, len, 0)| == 4;
  }
}
