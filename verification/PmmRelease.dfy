/** What one deallocation does to a region, exactly when the closed search test
    finds the owner of a pointer, and how allocation and release undo each other. */
module PmmRelease {
  import opened Words
  import opened PmmTiling
  import opened PmmFacts
  import opened PmmAllocation

  // ---------- coalescing ----------

  /** The tiling before coalescing. */
  function Marked(t: Tiling, k: nat): Tiling
    requires k < |t|
  {
    t[k := Block(t[k].size, false)]
  }

  lemma JoinKeeps(t: Tiling, k: nat, at: nat)
    requires k + 1 < |t| && !t[k].used && !t[k + 1].used
    ensures var j := t[..k] + [Block(t[k].size + t[k + 1].size, false)] + t[k + 2..];
            && Sum(j) == Sum(t) && UsedFrom(j, at) == UsedFrom(t, at) && UsedCount(j) == UsedCount(t)
  {
    var x, y, z := t[k], t[k + 1], Block(t[k].size + t[k + 1].size, false);
    assert t == t[..k] + [x, y] + t[k + 2..];
    TwoFree(x, y, at + Sum(t[..k]));
    OneFree(z, at + Sum(t[..k]));
    SwapMiddle(t[..k], [x, y], [z], t[k + 2..], at);
  }

  lemma OneFree(x: Block, at: nat)
    requires !x.used
    ensures Sum([x]) == x.size && UsedCount([x]) == 0 && UsedFrom([x], at) == {}
  {
    assert [x][1..] == [];
  }

  lemma TwoFree(x: Block, y: Block, at: nat)
    requires !x.used && !y.used
    ensures Sum([x, y]) == x.size + y.size && UsedCount([x, y]) == 0 && UsedFrom([x, y], at) == {}
  {
    OneFree(y, at + x.size);
    assert [x, y][1..] == [y];
  }

  /** Replacing a middle piece by one of the same size. */
  lemma SwapMiddle(a: Tiling, m: Tiling, n: Tiling, z: Tiling, at: nat)
    requires Sum(m) == Sum(n) && UsedCount(m) == UsedCount(n)
    requires UsedFrom(m, at + Sum(a)) == UsedFrom(n, at + Sum(a))
    ensures Sum(a + m + z) == Sum(a + n + z) && UsedCount(a + m + z) == UsedCount(a + n + z)
    ensures UsedFrom(a + m + z, at) == UsedFrom(a + n + z, at)
  {
    SumConcat(a + m, z);
    SumConcat(a, m);
    SumConcat(a + n, z);
    SumConcat(a, n);
    CountConcat(a + m, z);
    CountConcat(a, m);
    CountConcat(a + n, z);
    CountConcat(a, n);
    UsedConcat(a + m, z, at);
    UsedConcat(a, m, at);
    UsedConcat(a + n, z, at);
    UsedConcat(a, n, at);
  }

  lemma MarkKeeps(t: Tiling, k: nat, at: nat)
    requires k < |t| && t[k].used
    ensures Sum(Marked(t, k)) == Sum(t) && UsedCount(Marked(t, k)) == UsedCount(t) - 1
    ensures UsedFrom(t, at) == UsedFrom(Marked(t, k), at) + {(Start(t, at, k), t[k].size)}
  {
    var m, a, z := Marked(t, k), t[..k], t[k + 1..];
    assert m[..k] == a && m[k + 1..] == z;
    Split(t, k, at);
    Split(m, k, at);
    CountConcat(a + [t[k]], z);
    CountConcat(a, [t[k]]);
    CountConcat(a + [m[k]], z);
    CountConcat(a, [m[k]]);
    assert UsedCount([t[k]]) == 1 && UsedCount([m[k]]) == 0;
  }

  /** The block is gone from the marked tiling, for all other starts differ. */
  lemma MarkRemoves(t: Tiling, k: nat, at: nat)
    requires k < |t| && t[k].used
    requires forall j :: 0 <= j < |t| && t[j].used ==> t[j].size > 0
    ensures (Start(t, at, k), t[k].size) !in UsedFrom(Marked(t, k), at)
  {
    var m := Marked(t, k);
    if (Start(t, at, k), t[k].size) in UsedFrom(m, at) {
      var j := UsedIndex(m, at, (Start(t, at, k), t[k].size));
      assert j != k;
      if j < k {
        assert m[..j] == t[..j];
        StartMonotone(t, j, k);
      } else {
        SameStarts(t, k, j, at);
        StartMonotone(t, k, j);
      }
    }
  }

  lemma SameStarts(t: Tiling, k: nat, j: nat, at: nat)
    requires k < j <= |t|
    ensures Start(Marked(t, k), at, j) == Start(t, at, j)
  {
    var a, m := t[..j], Marked(t, k)[..j];
    Split(a, k, at);
    Split(m, k, at);
    assert m[..k] == a[..k] && m[k + 1..] == a[k + 1..];
  }

  lemma CoalesceKeeps(t: Tiling, k: nat, at: nat)
    requires k < |t|
    ensures Sum(FreeAt(t, k)) == Sum(Marked(t, k))
    ensures UsedFrom(FreeAt(t, k), at) == UsedFrom(Marked(t, k), at)
    ensures UsedCount(FreeAt(t, k)) == UsedCount(Marked(t, k))
  {
    var m := Marked(t, k);
    var a := MergeAfter(t, k);
    if k + 1 < |t| && !t[k + 1].used {
      JoinKeeps(m, k, at);
      assert a == m[..k] + [Block(m[k].size + m[k + 1].size, false)] + m[k + 2..];
    }
    if k > 0 && !a[k - 1].used {
      JoinKeeps(a, k - 1, at);
    }
  }

  lemma FreeAtShape(t: Tiling, k: nat, total: nat)
    requires Shaped(t, total) && 1 <= k < |t| && t[k].used
    ensures var f := FreeAt(t, k);
            2 <= |f| <= |t| && f[0] == t[0] && Alternates(f) && NonEmpty(f)
  {
    var a := MergeAfter(t, k);
    assert a[0] == t[0];
    AfterNonEmpty(t, k, total);
    if a[k - 1].used {
      forall i, j | 0 <= i < j < |a| && j == i + 1
        ensures a[i].used || a[j].used
      {
        if i != k - 1 {
          AfterAlternates(t, k, total, i);
        }
      }
    } else {
      BehindShape(t, k, total);
    }
  }

  /** The case in which the block before is FREE, too. */
  lemma BehindShape(t: Tiling, k: nat, total: nat)
    requires Shaped(t, total) && 1 <= k < |t| && t[k].used && !MergeAfter(t, k)[k - 1].used
    requires NonEmpty(MergeAfter(t, k))
    ensures var f := FreeAt(t, k);
            2 <= |f| <= |t| && f[0] == t[0] && Alternates(f) && NonEmpty(f)
  {
    var a, f := MergeAfter(t, k), FreeAt(t, k);
    assert a[k - 1] == t[k - 1] && k >= 2;
    assert t[k - 2].used && a[k - 2] == t[k - 2];
    assert forall i :: 0 <= i < k - 1 ==> f[i] == a[i];
    assert f[k - 1] == Block(a[k - 1].size + a[k].size, false);
    assert forall i :: k <= i < |f| ==> f[i] == a[i + 1];
    forall i, j | 0 <= i < j < |f| && j == i + 1
      ensures f[i].used || f[j].used
    {
      if i < k - 2 {
        AfterAlternates(t, k, total, i);
      } else if i >= k - 1 {
        AfterAlternates(t, k, total, i + 1);
      }
    }
  }

  lemma AfterNonEmpty(t: Tiling, k: nat, total: nat)
    requires Shaped(t, total) && 1 <= k < |t| && t[k].used
    ensures NonEmpty(MergeAfter(t, k)) && 2 <= |MergeAfter(t, k)| <= |t| && MergeAfter(t, k)[k].size > 0
  {
    var a := MergeAfter(t, k);
    assert t[k].size > 0;
    forall i | 0 <= i < |a| && (i != 1 || a[i].used)
      ensures a[i].size > 0
    {
      if i < k {
        assert a[i] == a[..k][i] == t[..k][i] == t[i];
      } else if i > k {
        assert a[i] == t[i] || a[i] == t[i + 1];
      }
    }
  }

  lemma AfterAlternates(t: Tiling, k: nat, total: nat, i: nat)
    requires Shaped(t, total) && 1 <= k < |t| && t[k].used
    requires i < |MergeAfter(t, k)| - 1 && i != k - 1
    ensures MergeAfter(t, k)[i].used || MergeAfter(t, k)[i + 1].used
  {
    var a := MergeAfter(t, k);
    if k + 1 < |t| && !t[k + 1].used {
      if i < k {
        assert a[i] == t[i] && a[i + 1] == t[i + 1];
      } else {
        assert a[i + 1] == t[i + 2];
        if i > k {
          assert a[i] == t[i + 1];
        }
      }
    } else {
      if i != k {
        assert a[i] == t[i] && a[i + 1] == t[i + 1];
      } else {
        assert a[i + 1] == t[i + 1];
      }
    }
  }

  /** Freeing block `k` removes exactly its interval and keeps the invariant. */
  lemma FreeAtSound(t: Tiling, base: nat, total: nat, k: nat)
    requires Tiled(t, total) && 1 <= k < |t| && t[k].used
    ensures Tiled(FreeAt(t, k), total)
    ensures FreeAt(t, k)[0] == t[0] && UsedCount(FreeAt(t, k)) == UsedCount(t) - 1
    ensures (Start(t, base, k), t[k].size) in Live(t, base)
    ensures Live(FreeAt(t, k), base) == Live(t, base) - {(Start(t, base, k), t[k].size)}
  {
    FreeAtShape(t, k, total);
    CoalesceKeeps(t, k, base);
    MarkKeeps(t, k, base);
    MarkRemoves(t, k, base);
    StartMonotone(t, 0, k);
    LiveLoses(t, FreeAt(t, k), base, (Start(t, base, k), t[k].size));
  }

  lemma LiveLoses(t: Tiling, f: Tiling, base: nat, x: (nat, nat))
    requires |t| > 0 && |f| > 0 && f[0] == t[0] && t[0].used && t[0].size > 0
    requires UsedFrom(t, base) == UsedFrom(f, base) + {x} && x !in UsedFrom(f, base) && x.0 > base
    ensures x in Live(t, base) && Live(f, base) == Live(t, base) - {x}
  {
    UsedSplit(t, base);
    UsedSplit(f, base);
    TableIsNotLive(t, base);
    TableIsNotLive(f, base);
  }

  lemma TableIsNotLive(t: Tiling, base: nat)
    requires |t| > 0 && t[0].size > 0
    ensures (base, t[0].size) !in Live(t, base)
  {
    if (base, t[0].size) in Live(t, base) {
      UsedBounds(t[1..], base + t[0].size, (base, t[0].size));
    }
  }

  // ---------- which block a pointer frees ----------

  /** The search stops at the first USED block that reaches up to the pointer. */
  lemma {:induction false} ScanFinds(t: Tiling, k: nat, cur: nat, ptr: nat, closed: bool, j: nat)
    requires k <= j < |t| && t[j].used
    requires var s := cur + Sum(t[k..j]);
             s <= ptr && (ptr < s + t[j].size || (closed && ptr == s + t[j].size))
    requires forall i :: k <= i < j && t[i].used ==>
                         cur + Sum(t[k..i]) + t[i].size < ptr + (if closed then 0 else 1)
    ensures FreeScan(t, k, cur, ptr, closed) == Hit(j)
    decreases |t| - k
  {
    if k < j {
      var next := cur + t[k].size;
      assert t[k..k] == [];
      assert t[k..j] == [t[k]] + t[k + 1..j];
      forall i | k + 1 <= i < j && t[i].used
        ensures next + Sum(t[k + 1..i]) + t[i].size < ptr + (if closed then 0 else 1)
      {
        assert t[k..i] == [t[k]] + t[k + 1..i];
      }
      ScanFinds(t, k + 1, next, ptr, closed, j);
    } else {
      assert t[k..j] == [];
    }
  }

  /** Some USED block, possibly the table, ends exactly where `ptr` points. */
  predicate EndsUsed(t: Tiling, base: nat, ptr: nat) {
    exists x <- UsedFrom(t, base) :: x.0 + x.1 == ptr
  }

  /** The block at which a live pointer starts. */
  lemma OwnerIndex(t: Tiling, base: nat, total: nat, x: (nat, nat)) returns (k: nat)
    requires Tiled(t, total) && x in Live(t, base)
    ensures 1 <= k < |t| && t[k].used && x == (Start(t, base, k), t[k].size)
  {
    UsedSplit(t, base);
    k := UsedIndex(t, base, x);
    LiveLayout(t, base, total);
    assert k != 0;
  }

  lemma EarlierEnds(t: Tiling, base: nat, total: nat, k: nat, i: nat)
    requires Tiled(t, total) && i < k < |t| && t[i].used && t[k].used
    ensures Start(t, base, i) + t[i].size <= Start(t, base, k)
    ensures Start(t, base, i) + t[i].size == Start(t, base, k) ==> EndsUsed(t, base, Start(t, base, k))
  {
    StartMonotone(t, i, k);
    UsedAt(t, base, i);
    assert (Start(t, base, i), t[i].size) in UsedFrom(t, base);
  }

  /** With the half-open test, releasing a live pointer frees its own block. */
  lemma HalfOpenFindsOwner(t: Tiling, base: nat, total: nat, k: nat)
    requires Tiled(t, total) && 1 <= k < |t| && t[k].used
    ensures FreeScan(t, 0, base, Start(t, base, k), false) == Hit(k)
  {
    assert t[0..k] == t[..k];
    forall i | 0 <= i < k && t[i].used
      ensures base + Sum(t[0..i]) + t[i].size < Start(t, base, k) + 1
    {
      assert t[0..i] == t[..i];
      EarlierEnds(t, base, total, k, i);
    }
    ScanFinds(t, 0, base, Start(t, base, k), false, k);
  }

  /** With the closed test of the code, it frees its own block exactly when no
      USED block ends at the pointer; otherwise it frees that earlier block. */
  lemma ClosedFindsOwnerIff(t: Tiling, base: nat, total: nat, k: nat)
    requires Tiled(t, total) && 1 <= k < |t| && t[k].used
    ensures var p := Start(t, base, k);
            && (EndsUsed(t, base, p) <==> FreeScan(t, 0, base, p, true) != Hit(k))
            && (EndsUsed(t, base, p) ==>
                  exists j :: 0 <= j < k && t[j].used && FreeScan(t, 0, base, p, true) == Hit(j)
                              && Start(t, base, j) + t[j].size == p)
  {
    var p := Start(t, base, k);
    if EndsUsed(t, base, p) {
      var x :| x in UsedFrom(t, base) && x.0 + x.1 == p;
      var j := UsedIndex(t, base, x);
      if j >= k {
        StartMonotone(t, k, j + 1);
        Split(t, j, base);
        assert false;
      }
      ClosedHits(t, base, total, k, j);
    } else {
      ClosedHits(t, base, total, k, k);
    }
  }

  lemma ClosedHits(t: Tiling, base: nat, total: nat, k: nat, j: nat)
    requires Tiled(t, total) && 1 <= k < |t| && t[k].used && j <= k && t[j].used
    requires j == k ==> !EndsUsed(t, base, Start(t, base, k))
    requires j < k ==> Start(t, base, j) + t[j].size == Start(t, base, k)
    ensures FreeScan(t, 0, base, Start(t, base, k), true) == Hit(j)
  {
    var p := Start(t, base, k);
    assert t[0..j] == t[..j];
    forall i | 0 <= i < j && t[i].used
      ensures base + Sum(t[0..i]) + t[i].size < p
    {
      assert t[0..i] == t[..i];
      EarlierEnds(t, base, total, k, i);
      if j < k {
        StartMonotone(t, i, j);
        assert t[j].size > 0;
      }
    }
    ScanFinds(t, 0, base, p, true, j);
  }

  /** Releasing a live pointer as the code does, and as ownership asks: the first
      removes exactly that allocation if and only if no USED block ends there. */
  lemma ReleaseSound(t: Tiling, base: nat, total: nat, x: (nat, nat))
    requires Tiled(t, total) && x in Live(t, base)
    ensures var f := Release(t, base, x.0, false);
            && Tiled(f, total) && f[0] == t[0] && UsedCount(f) == UsedCount(t) - 1
            && Live(f, base) == Live(t, base) - {x}
    ensures Release(t, base, x.0, true) == Release(t, base, x.0, false) <==> !EndsUsed(t, base, x.0)
  {
    var k := OwnerIndex(t, base, total, x);
    HalfOpenFindsOwner(t, base, total, k);
    FreeAtSound(t, base, total, k);
    ClosedFindsOwnerIff(t, base, total, k);
    if EndsUsed(t, base, x.0) {
      var j :| 0 <= j < k && t[j].used && FreeScan(t, 0, base, x.0, true) == Hit(j);
      FreesDiffer(t, base, total, j, k);
    }
  }

  lemma FreesDiffer(t: Tiling, base: nat, total: nat, j: nat, k: nat)
    requires Tiled(t, total) && j < k < |t| && t[j].used && t[k].used
    ensures FreeAt(t, j) != FreeAt(t, k)
  {
    CoalesceKeeps(t, j, base);
    CoalesceKeeps(t, k, base);
    MarkKeeps(t, k, base);
    MarkKeeps(t, j, base);
    MarkRemoves(t, j, base);
    MarkRemoves(t, k, base);
    StartMonotone(t, j, k);
    assert t[j].size > 0;
    assert (Start(t, base, j), t[j].size) in UsedFrom(Marked(t, k), base);
  }

  /** Where a USED block ends at a live pointer, the code leaves it live or frees the
      table. */
  lemma WrongRelease(t: Tiling, base: nat, total: nat, x: (nat, nat))
    requires Tiled(t, total) && x in Live(t, base) && EndsUsed(t, base, x.0)
    ensures var f := Release(t, base, x.0, true); Tiled(f, total) ==> x in Live(f, base)
  {
    hide FreeScan, EndsUsed, Tiled, FreeAt;
    var k := OwnerIndex(t, base, total, x);
    ClosedFindsOwnerIff(t, base, total, k);
    var j :| 0 <= j < k && t[j].used && FreeScan(t, 0, base, x.0, true) == Hit(j)
             && Start(t, base, j) + t[j].size == x.0;
    if j == 0 {
      FreedTable(t, total);
    } else {
      FreeAtSound(t, base, total, j);
      assert t[j].size > 0 by {
        UsedPositive(t, total, j);
      }
    }
  }

  lemma UsedPositive(t: Tiling, total: nat, j: nat)
    requires Tiled(t, total) && j < |t| && t[j].used
    ensures t[j].size > 0
  {
  }

  lemma FreedTable(t: Tiling, total: nat)
    requires Tiled(t, total)
    ensures !Tiled(FreeAt(t, 0), total)
  {
    assert !MergeAfter(t, 0)[0].used;
  }

  /** Where a live allocation ends at a live pointer, the code frees that one. */
  lemma ReleaseFreesOther(t: Tiling, base: nat, total: nat, x: (nat, nat), y: (nat, nat))
    requires Tiled(t, total) && x in Live(t, base) && y in Live(t, base) && y.0 + y.1 == x.0
    ensures var f := Release(t, base, x.0, true);
            Tiled(f, total) && Live(f, base) == Live(t, base) - {y}
  {
    hide FreeScan, EndsUsed, Tiled, FreeAt, Sum, Live;
    var k := OwnerIndex(t, base, total, x);
    var i := OwnerIndex(t, base, total, y);
    ClosedFindsOwnerIff(t, base, total, k);
    if k < i {
      StartMonotone(t, k, i);
    }
    UsedPositive(t, total, i);
    EarlierEnds(t, base, total, k, i);
    var j :| 0 <= j < k && t[j].used && FreeScan(t, 0, base, x.0, true) == Hit(j)
             && Start(t, base, j) + t[j].size == x.0;
    UsedPositive(t, total, j);
    if i < j {
      StartMonotone(t, i, j);
    } else if j < i {
      StartMonotone(t, j, i);
    }
    FreeAtSound(t, base, total, j);
  }
}
