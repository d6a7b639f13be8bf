/** What one allocation does to a region: placement arithmetic, soundness of a
    fitting request, exactly when an aligned request goes wrong, and when a
    request is refused. */
module PmmAllocation {
  import opened Words
  import opened PmmTiling
  import opened PmmFacts

  /** Distance from `cur` up to the next multiple of `align`. */
  function Gap(cur: nat, align: nat): nat
    requires align > 0
  {
    if cur % align == 0 then 0 else align - cur % align
  }

  /** An aligned object of `size` bytes really fits in a block at `cur`. */
  predicate Fits(bytes: nat, cur: nat, size: nat, align: nat) {
    align == 0 || Gap(cur, align) + size <= bytes
  }

  // ---------- placement arithmetic ----------

  lemma MultipleMod(q: int, a: nat)
    requires a > 0
    ensures (a * q) % a == 0
  {
    DivModUnique(a * q, q, 0, a);
  }

  /** `low` and `low + a` are neighbouring multiples of `a`. */
  lemma Neighbours(low: nat, a: nat, m: nat)
    requires a > 0 && low % a == 0 && m % a == 0
    ensures m <= low || m >= low + a
  {
    var q, k := low / a, m / a;
    assert low == a * q && m == a * k;
    if k <= q {
      MulMonotone(a, k, q);
    } else {
      MulMonotone(a, q + 1, k);
      assert a * (q + 1) == a * q + a;
    }
  }

  /** Rounding down gives the highest multiple not above `x`. */
  lemma RoundDown(x: nat, a: nat)
    requires a > 0
    ensures 0 <= x % a < a && x - x % a >= 0 && (x - x % a) % a == 0
    ensures forall m: nat {:trigger m % a} :: m % a == 0 && m <= x ==> m <= x - x % a
  {
    var q := x / a;
    assert x == a * q + x % a;
    MultipleMod(q, a);
    forall m: nat | m % a == 0 && m <= x
      ensures m <= x - x % a
    {
      Neighbours(x - x % a, a, m);
    }
  }

  /** The next multiple of `a` is `Gap` away and nothing nearer will do. */
  lemma GapIsNext(cur: nat, a: nat)
    requires a > 0
    ensures (cur + Gap(cur, a)) % a == 0
    ensures forall m: nat {:trigger m % a} :: m % a == 0 && m >= cur ==> m >= cur + Gap(cur, a)
  {
    var low := cur - cur % a;
    RoundDown(cur, a);
    if cur % a != 0 {
      NextMultiple(low, a);
      forall m: nat | m % a == 0 && m >= cur
        ensures m >= low + a
      {
        Neighbours(low, a, m);
      }
    }
  }

  lemma NextMultiple(low: nat, a: nat)
    requires a > 0 && low % a == 0
    ensures (low + a) % a == 0
  {
    var q := low / a;
    assert low == a * q;
    assert a * (q + 1) == low + a;
    MultipleMod(q + 1, a);
  }

  /** Rounding `end` down stays at or above `cur` exactly when the next multiple
      after `cur` is not past `end`; otherwise it lands where `cur` rounds to. */
  lemma DownMeetsUp(cur: nat, end: nat, a: nat)
    requires a > 0 && cur <= end
    ensures cur <= end - end % a <==> cur + Gap(cur, a) <= end
    ensures end - end % a < cur ==> end - end % a == cur - cur % a && cur % a > 0
    ensures 0 <= end - end % a <= end
  {
    RoundDown(end, a);
    RoundDown(cur, a);
    GapIsNext(cur, a);
    var p := end - end % a;
    assert p % a == 0;
    assert cur + Gap(cur, a) <= end ==> cur + Gap(cur, a) <= p;
    var low := cur - cur % a;
    assert low % a == 0 && low <= end ==> low <= p;
    if p < cur {
      assert p <= low;
    }
  }

  /** The unsigned arithmetic of the cut, for an object placed at `p`. */
  lemma Pieces(bytes: nat, cur: nat, size: nat, p: nat)
    requires 0 < size <= bytes && cur + bytes < WORD
    requires cur <= p <= cur + bytes - size
    ensures Wrap(cur + bytes - size) == cur + bytes - size
    ensures Wrap(p - cur) == p - cur
    ensures RightSize(bytes, p - cur, size) == bytes - size - (p - cur)
  {
  }

  /** Where an accepted request goes when it fits: at an aligned address, with
      exact remainders on both sides. */
  lemma Placement(bytes: nat, cur: nat, size: nat, align: nat)
    requires 0 < size <= bytes && cur + bytes < WORD
    requires Fits(bytes, cur, size, align)
    ensures var l := LeftSize(bytes, cur, size, align); l + size + RightSize(bytes, l, size) == bytes
    ensures align == 0 ==> LeftSize(bytes, cur, size, align) == bytes - size
    ensures align > 0 ==> (cur + LeftSize(bytes, cur, size, align)) % align == 0
  {
    var end := cur + bytes - size;
    var p := if align == 0 then end else end - end % align;
    if align > 0 {
      DownMeetsUp(cur, end, align);
      RoundDown(end, align);
    }
    Pieces(bytes, cur, size, p);
    assert LeftSize(bytes, cur, size, align) == p - cur;
  }

  /** It is the highest aligned address whose object ends within the block. */
  lemma PlacementHighest(bytes: nat, cur: nat, size: nat, align: nat, m: nat)
    requires 0 < size <= bytes && cur + bytes < WORD && align > 0
    requires Fits(bytes, cur, size, align)
    requires m % align == 0 && m + size <= cur + bytes
    ensures m <= cur + LeftSize(bytes, cur, size, align)
  {
    hide LeftSize, RightSize;
    var end := cur + bytes - size;
    DownMeetsUp(cur, end, align);
    RoundDown(end, align);
    LeftSizeIs(bytes, cur, size, align);
    Pieces(bytes, cur, size, end - end % align);
  }

  /** An accepted request that does not fit is put below the chosen block. */
  lemma Misplacement(bytes: nat, cur: nat, size: nat, align: nat)
    requires 0 < size && cur + bytes < WORD
    requires Accepts(Block(bytes, false), cur, size, align) && !Fits(bytes, cur, size, align)
    ensures 0 < cur % align <= cur
    ensures Wrap(cur + LeftSize(bytes, cur, size, align)) == cur - cur % align
  {
    hide LeftSize;
    var end := cur + bytes - size;
    DownMeetsUp(cur, end, align);
    LeftSizeIs(bytes, cur, size, align);
    WrapsBack(cur, end - end % align);
  }

  lemma LeftSizeIs(bytes: nat, cur: nat, size: nat, align: nat)
    requires size <= bytes && cur + bytes < WORD && align > 0
    ensures var end := cur + bytes - size; LeftSize(bytes, cur, size, align) == Wrap(end - end % align - cur)
  {
    assert Wrap(cur + bytes - size) == cur + bytes - size;
  }

  lemma WrapsBack(cur: nat, p: nat)
    requires p < cur < WORD
    ensures Wrap(cur + Wrap(p - cur)) == p
  {
    assert Wrap(p - cur) == p - cur + WORD;
  }

  /** Every request the test accepts at this address really fits. */
  ghost predicate GuardSafe(cur: nat, align: nat) {
    forall bytes: nat, size: nat ::
      0 < size && cur + bytes < WORD && Accepts(Block(bytes, false), cur, size, align)
      ==> Fits(bytes, cur, size, align)
  }

  /** Exactly when the acceptance test, which adds `cur % align` where the gap to
      the next aligned address is needed, can be trusted at an address. */
  lemma GuardIsSafeIff(cur: nat, align: nat)
    requires 0 < align && cur + align < WORD
    ensures GuardSafe(cur, align) <==> (cur % align == 0 || 2 * (cur % align) >= align)
  {
    var r := cur % align;
    GapIsNext(cur, align);
    RoundDown(cur, align);
    if r == 0 || 2 * r >= align {
      forall bytes: nat, size: nat |
        0 < size && cur + bytes < WORD && Accepts(Block(bytes, false), cur, size, align)
        ensures Fits(bytes, cur, size, align)
      {
        AcceptedBytes(bytes, cur, size, align);
      }
    } else {
      RejectsLess(cur, align, r);
      assert !Fits(r + 1, cur, 1, align);
    }
  }

  lemma AcceptedBytes(bytes: nat, cur: nat, size: nat, align: nat)
    requires 0 < align && cur + bytes < WORD && Accepts(Block(bytes, false), cur, size, align)
    ensures bytes >= size + cur % align
  {
    RoundDown(cur, align);
    assert Wrap(size + cur % align) == size + cur % align;
  }

  lemma RejectsLess(cur: nat, align: nat, r: nat)
    requires 0 < align && cur + align < WORD && r == cur % align < align
    ensures Accepts(Block(r + 1, false), cur, 1, align)
  {
    assert Wrap(1 + r) == 1 + r;
  }

  // ---------- the search ----------

  /** The block `Allocate` will cut, when there is one. */
  function Chosen(t: Tiling, base: nat, size: nat, align: nat): Option<Found> {
    FirstFit(t, 0, base, size, align)
  }

  /** No earlier block passes the test. */
  lemma {:induction false} FirstFitIsFirst(t: Tiling, k: nat, cur: nat, size: nat, align: nat, j: nat)
    requires k <= j < |t|
    requires match FirstFit(t, k, cur, size, align) case None => true case Some(f) => j < f.k
    ensures !Accepts(t[j], cur + Sum(t[k..j]), size, align)
    decreases |t| - k
  {
    if k < j {
      FirstFitIsFirst(t, k + 1, cur + t[k].size, size, align, j);
      assert t[k..j] == [t[k]] + t[k + 1..j];
    }
  }

  /** The search knows the address of the block it returns. */
  lemma {:induction false} FirstFitAddress(t: Tiling, k: nat, cur: nat, size: nat, align: nat)
    requires k <= |t| && FirstFit(t, k, cur, size, align).Some?
    ensures var f := FirstFit(t, k, cur, size, align).value; f.cur == cur + Sum(t[k..f.k])
    decreases |t| - k
  {
    var f := FirstFit(t, k, cur, size, align).value;
    if f.k == k {
      assert t[k..k] == [];
    }
    if !Accepts(t[k], cur, size, align) {
      FirstFitAddress(t, k + 1, cur + t[k].size, size, align);
      assert t[k..f.k] == [t[k]] + t[k + 1..f.k];
    }
  }

  lemma ChosenFacts(t: Tiling, base: nat, total: nat, size: nat, align: nat)
    requires Tiled(t, total) && base + total < WORD
    requires Chosen(t, base, size, align).Some?
    ensures var f := Chosen(t, base, size, align).value;
            && 1 <= f.k < |t| && !t[f.k].used && size <= t[f.k].size
            && f.cur == Start(t, base, f.k) && f.cur + t[f.k].size <= base + total
            && Accepts(t[f.k], f.cur, size, align)
  {
    var f := Chosen(t, base, size, align).value;
    FirstFitAddress(t, 0, base, size, align);
    assert t[0..f.k] == t[..f.k];
    StartMonotone(t, f.k, |t|);
    assert t[..|t|] == t;
  }

  /** The request will be placed where it fits: what a caller checks beforehand. */
  predicate Sound(t: Tiling, base: nat, size: nat, align: nat) {
    match Chosen(t, base, size, align)
    case None => true
    case Some(f) => Fits(t[f.k].size, f.cur, size, align)
  }

  // ---------- soundness ----------

  lemma PlaceKeeps(t: Tiling, base: nat, total: nat, k: nat, l: nat, s: nat, r: nat)
    requires Tiled(t, total) && 1 <= k < |t| && !t[k].used
    requires s > 0 && l + s + r == t[k].size
    requires Place(t, k, l, s, r).Some?
    ensures var t' := Place(t, k, l, s, r).value;
            && Tiled(t', total)
            && Live(t', base) == Live(t, base) + {(Start(t, base, k) + l, s)}
            && UsedCount(t') == UsedCount(t) + 1
            && (t' == Cut(t, k, l, s, r) || (Growable(Cut(t, k, l, s, r)) && t' == Grow(Cut(t, k, l, s, r))))
  {
    var c := Cut(t, k, l, s, r);
    CutKeeps(t, base, total, k, l, s, r);
    assert |c| <= |t| + 2;
    assert c[0] == t[0];
    if |c| > Capacity(t) {
      GrowKeeps(c, base, total);
    }
  }

  /** The anatomy of a placed request. */
  lemma Anatomy(t: Tiling, base: nat, total: nat, size: nat, align: nat) returns (f: Found, l: nat, r: nat)
    requires Tiled(t, total) && base + total < WORD
    requires Allocate(t, base, size, align).Placed?
    ensures Chosen(t, base, size, align) == Some(f) && 0 < size
    ensures 1 <= f.k < |t| && !t[f.k].used && size <= t[f.k].size
    ensures f.cur == Start(t, base, f.k) && f.cur + t[f.k].size <= base + total
    ensures Accepts(t[f.k], f.cur, size, align)
    ensures l == LeftSize(t[f.k].size, f.cur, size, align) && r == RightSize(t[f.k].size, l, size)
    ensures Place(t, f.k, l, size, r).Some?
    ensures Allocate(t, base, size, align) == Placed(Wrap(f.cur + l), Place(t, f.k, l, size, r).value)
  {
    f := Chosen(t, base, size, align).value;
    ChosenFacts(t, base, total, size, align);
    l := LeftSize(t[f.k].size, f.cur, size, align);
    r := RightSize(t[f.k].size, l, size);
  }

  /** The anatomy of a placed request that fits. */
  lemma SoundAnatomy(t: Tiling, base: nat, total: nat, size: nat, align: nat) returns (k: nat, l: nat, r: nat)
    requires Tiled(t, total) && base + total < WORD
    requires Allocate(t, base, size, align).Placed? && Sound(t, base, size, align)
    ensures 1 <= k < |t| && !t[k].used && 0 < size && l + size + r == t[k].size
    ensures Place(t, k, l, size, r).Some?
    ensures Allocate(t, base, size, align) == Placed(Start(t, base, k) + l, Place(t, k, l, size, r).value)
  {
    var f: Found;
    f, l, r := Anatomy(t, base, total, size, align);
    k := f.k;
    Placement(t[k].size, f.cur, size, align);
    WrapId(f.cur + l);
  }

  lemma WrapId(x: nat)
    requires x < WORD
    ensures Wrap(x) == x
  {
  }

  /** A request that fits is aligned as asked. */
  lemma PlacedAligned(t: Tiling, base: nat, total: nat, size: nat, align: nat)
    requires Tiled(t, total) && base + total < WORD && align > 0
    requires Allocate(t, base, size, align).Placed? && Sound(t, base, size, align)
    ensures Allocate(t, base, size, align).ptr % align == 0
  {
    var f, l, r := Anatomy(t, base, total, size, align);
    Placement(t[f.k].size, f.cur, size, align);
    WrapId(f.cur + l);
  }

  /** A successful request that fits adds exactly one allocation, inside the region
      and behind the table, apart from every other one, and keeps the invariant. */
  lemma AllocationSound(t: Tiling, base: nat, total: nat, size: nat, align: nat)
    requires Tiled(t, total) && base + total < WORD
    requires Allocate(t, base, size, align).Placed? && Sound(t, base, size, align)
    ensures var o := Allocate(t, base, size, align);
            && Tiled(o.t, total)
            && Live(o.t, base) == Live(t, base) + {(o.ptr, size)}
            && UsedCount(o.t) == UsedCount(t) + 1
            && base + o.t[0].size <= o.ptr && o.ptr + size <= base + total
            && (align > 0 ==> o.ptr % align == 0)
            && (forall x <- Live(t, base) :: x.0 != o.ptr && Apart(x, (o.ptr, size)))
  {
    var k, l, r := SoundAnatomy(t, base, total, size, align);
    var t' := Place(t, k, l, size, r).value;
    PlaceKeeps(t, base, total, k, l, size, r);
    if align > 0 {
      PlacedAligned(t, base, total, size, align);
    }
    assert (Start(t, base, k) + l, size) in Live(t', base);
    LiveLayout(t', base, total);
    NotYetLive(t, base, total, k, l, size);
  }

  lemma NotYetLive(t: Tiling, base: nat, total: nat, k: nat, l: nat, s: nat)
    requires Shaped(t, total) && 1 <= k < |t| && !t[k].used && s > 0 && l + s <= t[k].size
    ensures forall x <- Live(t, base) :: x.0 != Start(t, base, k) + l && Apart(x, (Start(t, base, k) + l, s))
  {
    forall x | x in Live(t, base)
      ensures x.0 != Start(t, base, k) + l && Apart(x, (Start(t, base, k) + l, s))
    {
      UsedSplit(t, base);
      var j := UsedIndex(t, base, x);
      if j < k {
        StartMonotone(t, j, k);
      } else {
        StartMonotone(t, k, j);
      }
      LiveLayout(t, base, total);
    }
  }

  /** Table growth never costs a client anything: whatever an allocation does,
      the table only grows by GROWTH and never past the first live byte. */
  lemma TableStaysClear(t: Tiling, base: nat, total: nat, size: nat, align: nat)
    requires Tiled(t, total) && base + total < WORD
    requires Allocate(t, base, size, align).Placed? && Sound(t, base, size, align)
    ensures var t' := Allocate(t, base, size, align).t;
            && (t'[0].size == t[0].size || t'[0].size == t[0].size + GROWTH)
            && (forall x <- Live(t, base) :: base + t'[0].size <= x.0)
  {
    var k, l, r := SoundAnatomy(t, base, total, size, align);
    var t' := Place(t, k, l, size, r).value;
    PlaceKeeps(t, base, total, k, l, size, r);
    assert Cut(t, k, l, size, r)[0] == t[0];
    LiveLayout(t', base, total);
  }

  // ---------- an unsound request ----------

  /** The code goes wrong exactly on an accepted request that does not fit: the
      pointer it returns lies below the block chosen for it, and, if still in the
      region, inside an earlier block. */
  lemma AllocationUnsound(t: Tiling, base: nat, total: nat, size: nat, align: nat)
    requires Tiled(t, total) && base + total < WORD
    requires Allocate(t, base, size, align).Placed?
    ensures var o := Allocate(t, base, size, align); var f := Chosen(t, base, size, align).value;
            && (o.ptr < f.cur <==> !Sound(t, base, size, align))
            && (!Sound(t, base, size, align) && base <= o.ptr ==>
                  exists j :: 0 <= j < f.k && Start(t, base, j) <= o.ptr < Start(t, base, j) + t[j].size)
  {
    hide Tiled, Allocate, LeftSize, Accepts;
    var f, l, r := Anatomy(t, base, total, size, align);
    var ptr := Wrap(f.cur + l);
    if Sound(t, base, size, align) {
      Placement(t[f.k].size, f.cur, size, align);
    } else {
      Misplacement(t[f.k].size, f.cur, size, align);
      if base <= ptr {
        var j := Locate(t, base, f.k, ptr);
      }
    }
  }

  lemma {:induction false} Locate(t: Tiling, base: nat, k: nat, p: nat) returns (j: nat)
    requires k <= |t| && base <= p < Start(t, base, k)
    ensures j < k && Start(t, base, j) <= p < Start(t, base, j) + t[j].size
  {
    Split(t, k - 1, base);
    if p < Start(t, base, k - 1) {
      j := Locate(t, base, k - 1, p);
    } else {
      j := k - 1;
    }
  }

  /** The author's heap check compares a wrapping sum with the region size, so it
      passes after every allocation, misplaced ones included. */
  lemma HeapCheckIsBlind(t: Tiling, base: nat, total: nat, size: nat, align: nat)
    requires Tiled(t, total) && base + total < WORD
    requires Allocate(t, base, size, align).Placed?
    ensures Wrap(Sum(Allocate(t, base, size, align).t)) == total
  {
    var f, l, r := Anatomy(t, base, total, size, align);
    PlaceWraps(t, total, f.k, l, size);
  }

  lemma PlaceWraps(t: Tiling, total: nat, k: nat, l: nat, s: nat)
    requires |t| >= 2 && 1 <= k < |t| && Sum(t) == total < WORD && l < WORD && s < WORD
    requires Place(t, k, l, s, RightSize(t[k].size, l, s)).Some?
    ensures Wrap(Sum(Place(t, k, l, s, RightSize(t[k].size, l, s)).value)) == total
  {
    var bytes, r := t[k].size, RightSize(t[k].size, l, s);
    PlaceSum(t, k, l, s, r);
    StartMonotone(t, k, |t|);
    assert t[..|t|] == t;
    PiecesWrap(bytes, l, s, total - bytes);
  }

  /** Growth does not change the sum, so only the pieces count. */
  lemma PlaceSum(t: Tiling, k: nat, l: nat, s: nat, r: nat)
    requires |t| >= 2 && 1 <= k < |t| && Place(t, k, l, s, r).Some?
    ensures Sum(Place(t, k, l, s, r).value) == Sum(t) - t[k].size + l + s + r
  {
    var c := Cut(t, k, l, s, r);
    CutSum(t, k, l, s, r);
    if |c| > Capacity(t) {
      GrowSums(c, 0);
    }
  }

  lemma CutSum(t: Tiling, k: nat, l: nat, s: nat, r: nat)
    requires k < |t|
    ensures Sum(Cut(t, k, l, s, r)) == Sum(t) - t[k].size + l + s + r
  {
    SlicesSum(l, s, r, 0);
    Split(t, k, 0);
    SumConcat(t[..k] + Slices(l, s, r), t[k + 1..]);
    SumConcat(t[..k], Slices(l, s, r));
  }

  lemma PiecesWrap(bytes: nat, l: nat, s: nat, rest: nat)
    requires bytes + rest < WORD && s < WORD && l < WORD
    ensures Wrap(rest + l + s + RightSize(bytes, l, s)) == rest + bytes
  {
    var m := Wrap(bytes - l);
    var r := Wrap(m - s);
    assert exists q :: m == bytes - l + WORD * q by { assert m == bytes - l + WORD * -((bytes - l) / WORD); }
    var q :| m == bytes - l + WORD * q;
    assert exists p :: r == m - s + WORD * p by { assert r == m - s + WORD * -((m - s) / WORD); }
    var p :| r == m - s + WORD * p;
    assert rest + l + s + r == (rest + bytes) + WORD * (p + q);
  }
}
