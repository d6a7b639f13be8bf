/** Allocation and release are inverse, a region is determined by what is live in
    it, and fragmentation and the descriptor table stay bounded. */
module PmmCanonical {
  import opened Words
  import opened PmmTiling
  import opened PmmFacts
  import opened PmmAllocation
  import opened PmmRelease

  // ---------- refusal ----------

  /** A request finds no block exactly when no FREE block passes the test. */
  lemma NullIff(t: Tiling, base: nat, total: nat, size: nat, align: nat)
    requires Tiled(t, total) && 0 < size
    ensures Allocate(t, base, size, align) == Null
            <==> forall k :: 0 <= k < |t| ==> !Accepts(t[k], Start(t, base, k), size, align)
  {
    match Chosen(t, base, size, align)
    case None =>
      forall k | 0 <= k < |t|
        ensures !Accepts(t[k], Start(t, base, k), size, align)
      {
        FirstFitIsFirst(t, 0, base, size, align, k);
        assert t[0..k] == t[..k];
      }
    case Some(f) =>
      FirstFitAddress(t, 0, base, size, align);
      assert t[0..f.k] == t[..f.k];
  }

  /** An unaligned request is refused exactly when no FREE block is big enough;
      otherwise it takes the high end of the first block that is. */
  lemma UnalignedComplete(t: Tiling, base: nat, total: nat, size: nat)
    requires Tiled(t, total) && base + total < WORD && 0 < size
    ensures Allocate(t, base, size, 0) == Null <==> forall b <- t :: b.used || b.size < size
    ensures Allocate(t, base, size, 0).Placed? ==>
              exists k: nat :: FirstBigEnough(t, size, k)
                          && Allocate(t, base, size, 0).ptr == Start(t, base, k) + t[k].size - size
  {
    NullIff(t, base, total, size, 0);
    if Allocate(t, base, size, 0).Placed? {
      UnalignedPlace(t, base, total, size);
    }
  }

  predicate FirstBigEnough(t: Tiling, size: nat, k: nat) {
    && k < |t| && !t[k].used && t[k].size >= size
    && forall j :: 0 <= j < k ==> t[j].used || t[j].size < size
  }

  lemma UnalignedPlace(t: Tiling, base: nat, total: nat, size: nat)
    requires Tiled(t, total) && base + total < WORD
    requires Allocate(t, base, size, 0).Placed?
    ensures exists k: nat :: FirstBigEnough(t, size, k)
                        && Allocate(t, base, size, 0).ptr == Start(t, base, k) + t[k].size - size
  {
    var f, l, r := Anatomy(t, base, total, size, 0);
    Placement(t[f.k].size, f.cur, size, 0);
    forall j | 0 <= j < f.k
      ensures t[j].used || t[j].size < size
    {
      FirstFitIsFirst(t, 0, base, size, 0, j);
    }
    assert FirstBigEnough(t, size, f.k);
  }

  // ---------- round trip ----------

  /** Position of the USED piece after a cut. */
  function Piece(k: nat, l: nat): nat {
    if l != 0 then k + 1 else k
  }

  lemma FreeBetweenUsed(p: Tiling, u: Block, z: Tiling)
    requires p != [] && p[|p| - 1].used && (z == [] || z[0].used)
    ensures FreeAt(p + [u] + z, |p|) == p + [Block(u.size, false)] + z
  {
    var t := p + [u] + z;
    assert t[..|p|] == p && t[|p| + 1..] == z;
    assert z != [] ==> t[|p| + 1] == z[0];
    var a := MergeAfter(t, |p|);
    assert a == p + [Block(u.size, false)] + z;
    assert a[|p| - 1] == p[|p| - 1];
  }

  lemma FreeBeforeFree(p: Tiling, u: Block, v: Block, z: Tiling)
    requires p != [] && p[|p| - 1].used && !v.used
    ensures FreeAt(p + [u, v] + z, |p|) == p + [Block(u.size + v.size, false)] + z
  {
    var t := p + [u, v] + z;
    assert t[..|p|] == p && t[|p|] == u && t[|p| + 1] == v && t[|p| + 2..] == z;
    var a := MergeAfter(t, |p|);
    assert a == p + [Block(u.size + v.size, false)] + z;
    assert a[|p| - 1] == p[|p| - 1];
  }

  lemma FreeAfterFree(p: Tiling, x: Block, u: Block, z: Tiling)
    requires !x.used && (z == [] || z[0].used)
    ensures FreeAt(p + [x, u] + z, |p| + 1) == p + [Block(x.size + u.size, false)] + z
  {
    var t, j := p + [x, u] + z, |p| + 1;
    assert t[j] == u && t[j + 1..] == z && t[..j] == p + [x];
    assert z != [] ==> t[j + 1] == z[0];
    var a := MergeAfter(t, j);
    assert a == p + [x, Block(u.size, false)] + z;
    assert a[j - 1] == x && a[..j - 1] == p && a[j + 1..] == z;
  }

  lemma FreeAmongFree(p: Tiling, x: Block, u: Block, v: Block, z: Tiling)
    requires !x.used && !v.used
    ensures FreeAt(p + [x, u, v] + z, |p| + 1) == p + [Block(x.size + u.size + v.size, false)] + z
  {
    var t, j := p + [x, u, v] + z, |p| + 1;
    assert t[j] == u && t[j + 1] == v && t[j + 2..] == z && t[..j] == p + [x];
    var a := MergeAfter(t, j);
    assert a == p + [x, Block(u.size + v.size, false)] + z;
    assert a[j - 1] == x && a[..j - 1] == p && a[j + 1..] == z;
  }

  lemma FreeAtUndoesSlices(p: Tiling, z: Tiling, l: nat, s: nat, r: nat)
    requires p != [] && p[|p| - 1].used && (z == [] || z[0].used)
    ensures Piece(|p|, l) < |p + Slices(l, s, r) + z|
    ensures FreeAt(p + Slices(l, s, r) + z, Piece(|p|, l)) == p + [Block(l + s + r, false)] + z
    ensures (p + Slices(l, s, r) + z)[Piece(|p|, l)] == Block(s, true)
  {
    hide FreeAt;
    var x, u, v := Block(l, false), Block(s, true), Block(r, false);
    if l == 0 && r == 0 {
      assert Slices(l, s, r) == [u];
      FreeBetweenUsed(p, u, z);
    } else if l == 0 {
      assert Slices(l, s, r) == [u, v];
      FreeBeforeFree(p, u, v, z);
    } else if r == 0 {
      assert Slices(l, s, r) == [x, u];
      FreeAfterFree(p, x, u, z);
    } else {
      assert Slices(l, s, r) == [x, u, v];
      FreeAmongFree(p, x, u, v, z);
    }
  }

  lemma FreeAtUndoesCut(t: Tiling, total: nat, k: nat, l: nat, s: nat, r: nat)
    requires Shaped(t, total) && 1 <= k < |t| && !t[k].used && s > 0 && l + s + r == t[k].size
    ensures var c := Cut(t, k, l, s, r);
            Piece(k, l) < |c| && c[Piece(k, l)] == Block(s, true) && FreeAt(c, Piece(k, l)) == t
  {
    hide Sum, FreeAt, NonEmpty, Slices;
    var p, z := t[..k], t[k + 1..];
    assert t[k - 1].used && p[|p| - 1] == t[k - 1];
    assert z != [] ==> z[0] == t[k + 1] && t[k + 1].used;
    FreeAtUndoesSlices(p, z, l, s, r);
    assert t == p + [Block(l + s + r, false)] + z;
  }

  lemma FreeAtUndoesGrownCut(t: Tiling, total: nat, k: nat, l: nat, s: nat, r: nat)
    requires Shaped(t, total) && 1 <= k < |t| && !t[k].used && s > 0 && l + s + r == t[k].size
    requires Growable(Cut(t, k, l, s, r))
    ensures var g := Grow(Cut(t, k, l, s, r));
            Piece(k, l) < |g| && g[Piece(k, l)] == Block(s, true) && Growable(t) && FreeAt(g, Piece(k, l)) == Grow(t)
  {
    var c, j := Cut(t, k, l, s, r), Piece(k, l);
    assert t[k - 1].used;
    if k == 1 {
      assert c[j] == Block(s, true);
      assert l != 0 && c[1] == Block(l, false);
      assert Grow(c) == Cut(Grow(t), 1, l - GROWTH, s, r) || l == GROWTH;
    } else {
      assert c[..k] == t[..k];
      assert k >= 3;
      assert Grow(c) == Cut(Grow(t), k, l, s, r);
    }
    GrowKeeps(t, 0, total);
    if k == 1 && l == GROWTH {
      var g := Grow(c);
      assert g[2..] == c[2..];
      UndoEmptyLeft(t, g, s, r);
    } else {
      FreeAtUndoesCut(Grow(t), total, k, if k == 1 then l - GROWTH else l, s, r);
    }
  }

  /** The left piece was block 1 and gave all its bytes to the table. */
  lemma UndoEmptyLeft(t: Tiling, g: Tiling, s: nat, r: nat)
    requires |t| >= 2 && Growable(t) && s > 0 && t[1].size == GROWTH + s + r
    requires 2 < |t| ==> t[2].used
    requires |g| >= 3 && g[0] == Grow(t)[0] && t[0].used && g[1] == Block(0, false)
    requires g[2..] == [Block(s, true)] + (if r != 0 then [Block(r, false)] else []) + t[2..]
    ensures FreeAt(g, 2) == Grow(t)
  {
    hide FreeAt;
    var p, x, u, v, z := [g[0]], Block(0, false), Block(s, true), Block(r, false), t[2..];
    assert g == [g[0], g[1]] + g[2..];
    assert Grow(t) == p + [Block(s + r, false)] + z by {
      assert Grow(t)[2..] == z;
    }
    if r != 0 {
      assert g == p + [x, u, v] + z;
      FreeAmongFree(p, x, u, v, z);
    } else {
      assert g == p + [x, u] + z;
      FreeAfterFree(p, x, u, z);
    }
  }

  /** Allocating and then releasing the returned pointer gives the tiling back, up
      to table growth; the code's closed test does so exactly when no USED block
      ends at the pointer. */
  lemma RoundTrip(t: Tiling, base: nat, total: nat, size: nat, align: nat)
    requires Tiled(t, total) && base + total < WORD
    requires Allocate(t, base, size, align).Placed? && Sound(t, base, size, align)
    ensures var o := Allocate(t, base, size, align);
            && (o.t[0] != t[0] ==> Growable(t))
            && Release(o.t, base, o.ptr, false) == (if o.t[0] == t[0] then t else Grow(t))
            && (Release(o.t, base, o.ptr, true) == Release(o.t, base, o.ptr, false)
                <==> !EndsUsed(o.t, base, o.ptr))
  {
    var k, l, r := SoundAnatomy(t, base, total, size, align);
    var o := Allocate(t, base, size, align);
    var c, j := Cut(t, k, l, size, r), Piece(k, l);
    PlaceKeeps(t, base, total, k, l, size, r);
    FreeAtUndoesCut(t, total, k, l, size, r);
    assert c[0] == t[0];
    CutStart(t, base, k, l, size, r);
    if o.t != c {
      FreeAtUndoesGrownCut(t, total, k, l, size, r);
      CutKeeps(t, base, total, k, l, size, r);
      GrowKeeps(c, base, total);
      assert j >= 2;
    }
    assert Start(o.t, base, j) == o.ptr && o.t[j] == Block(size, true);
    HalfOpenFindsOwner(o.t, base, total, j);
    FreeAtSound(o.t, base, total, j);
    ReleaseSound(o.t, base, total, (o.ptr, size));
  }

  lemma CutStart(t: Tiling, base: nat, k: nat, l: nat, s: nat, r: nat)
    requires k < |t|
    ensures |Cut(t, k, l, s, r)| >= Piece(k, l)
    ensures Start(Cut(t, k, l, s, r), base, Piece(k, l)) == Start(t, base, k) + l
  {
    var c := Cut(t, k, l, s, r);
    if l != 0 {
      assert c[..k + 1] == t[..k] + [Block(l, false)];
      SumConcat(t[..k], [Block(l, false)]);
    } else {
      assert c[..k] == t[..k];
    }
  }

  // ---------- canonical form ----------

  /** The tiling without empty FREE blocks. */
  function Dense(t: Tiling): Tiling {
    if t == [] then []
    else (if !t[0].used && t[0].size == 0 then [] else [t[0]]) + Dense(t[1..])
  }

  ghost predicate Solid(t: Tiling) {
    Alternates(t) && forall b <- t :: b.size > 0
  }

  /** Sequences of non-empty blocks without FREE neighbours are equal when they
      cover the same bytes and occupy the same intervals. */
  lemma {:induction false} SolidUnique(a: Tiling, b: Tiling, at: nat)
    requires Solid(a) && Solid(b) && Sum(a) == Sum(b) && UsedFrom(a, at) == UsedFrom(b, at)
    ensures a == b
  {
    if a == [] || b == [] {
      assert a == b;
    } else {
      HeadNotShorter(a, b, at);
      HeadNotShorter(b, a, at);
      if a[0].used {
        HeadUsed(a, b, at);
      } else if b[0].used {
        HeadUsed(b, a, at);
      }
      assert a[0] == b[0];
      var next := at + a[0].size;
      forall x | x in UsedFrom(a[1..], next) || x in UsedFrom(b[1..], next)
        ensures x.0 >= next
      {
        if x in UsedFrom(a[1..], next) {
          UsedBounds(a[1..], next, x);
        } else {
          UsedBounds(b[1..], next, x);
        }
      }
      assert UsedFrom(a[1..], next) == UsedFrom(b[1..], next);
      SolidTail(a);
      SolidTail(b);
      SolidUnique(a[1..], b[1..], next);
    }
  }

  lemma SolidTail(a: Tiling)
    requires Solid(a) && a != []
    ensures Solid(a[1..])
  {
    forall k {:trigger a[1..][k]} | 0 <= k < |a[1..]| - 1
      ensures a[1..][k].used || a[1..][k + 1].used
    {
      assert a[k + 1].used || a[k + 2].used;
    }
  }

  lemma HeadUsed(a: Tiling, b: Tiling, at: nat)
    requires Solid(a) && Solid(b) && a != [] && b != [] && UsedFrom(a, at) == UsedFrom(b, at) && a[0].used
    ensures b[0].used && a[0].size == b[0].size
  {
    var j := UsedIndex(b, at, (at, a[0].size));
    if j > 0 {
      StartMonotone(b, 0, j);
    }
  }

  lemma HeadNotShorter(a: Tiling, b: Tiling, at: nat)
    requires Solid(a) && Solid(b) && Sum(a) == Sum(b) && UsedFrom(a, at) == UsedFrom(b, at)
    requires a != [] && b != []
    ensures a[0].size >= b[0].size
  {
    if a[0].used {
      HeadUsed(a, b, at);
    } else if b[0].used {
      HeadUsed(b, a, at);
    } else if a[0].size < b[0].size {
      var next := at + a[0].size;
      assert |a| > 1;
      assert a[1].used;
      UsedAt(a, at, 1);
      assert a[..1] == [a[0]];
      var j := UsedIndex(b, at, (next, a[1].size));
      StartMonotone(b, 0, j);
    }
  }

  lemma {:induction false} DenseKeeps(t: Tiling, at: nat)
    ensures Sum(Dense(t)) == Sum(t) && UsedFrom(Dense(t), at) == UsedFrom(t, at)
  {
    if t != [] {
      DenseKeeps(t[1..], at + t[0].size);
      var d, rest := Dense(t), Dense(t[1..]);
      if t[0].used || t[0].size != 0 {
        assert d == [t[0]] + rest && d[1..] == rest;
      } else {
        assert d == rest;
      }
    }
  }

  lemma {:induction false} DenseOfNonEmpty(t: Tiling)
    requires forall b <- t :: b.size > 0
    ensures Dense(t) == t
  {
    if t != [] {
      DenseOfNonEmpty(t[1..]);
    }
  }

  lemma DenseStep(t: Tiling)
    requires t != []
    ensures Dense(t) == (if !t[0].used && t[0].size == 0 then [] else [t[0]]) + Dense(t[1..])
  {
  }

  lemma DenseHead(t: Tiling)
    requires |t| >= 2 && t[0].used && Dense(t[2..]) == t[2..]
    ensures Dense(t) == [t[0]] + (if !t[1].used && t[1].size == 0 then [] else [t[1]]) + t[2..]
  {
    DenseStep(t);
    DenseStep(t[1..]);
    hide Dense;
    assert t[1..][1..] == t[2..];
  }

  /** Only block 1 can be dropped, and its neighbours are then both USED. */
  lemma DenseSolid(t: Tiling, total: nat)
    requires Shaped(t, total)
    ensures Solid(Dense(t))
  {
    hide Sum, Dense;
    assert forall i :: 2 <= i < |t| ==> t[i].size > 0;
    DenseOfNonEmpty(t[2..]);
    DenseHead(t);
    if !t[1].used && t[1].size == 0 {
      WithoutSecond(t, total);
    } else {
      assert Dense(t) == t;
      assert t[0].size > 0 && t[1].size > 0;
    }
  }

  lemma WithoutSecond(t: Tiling, total: nat)
    requires Shaped(t, total) && !t[1].used
    ensures Solid([t[0]] + [] + t[2..])
  {
    hide Sum;
    var d := [t[0]] + [] + t[2..];
    assert t[0].size > 0;
    forall i, j | 0 <= i < j < |d| && j == i + 1
      ensures d[i].used || d[j].used
    {
      assert d[j] == t[j + 1] && (i > 0 ==> d[i] == t[i + 1]);
    }
  }

  /** Confluence: whatever the history, equal tables and equal live allocations
      mean equal tilings, up to an empty FREE block behind the table. */
  lemma LiveDetermines(t: Tiling, u: Tiling, base: nat, total: nat)
    requires Tiled(t, total) && Tiled(u, total)
    requires t[0].size == u[0].size && Live(t, base) == Live(u, base)
    ensures Dense(t) == Dense(u)
  {
    UsedSplit(t, base);
    UsedSplit(u, base);
    DenseKeeps(t, base);
    DenseKeeps(u, base);
    DenseSolid(t, total);
    DenseSolid(u, total);
    SolidUnique(Dense(t), Dense(u), base);
  }

  /** When nothing is live, the table is followed by one single FREE block. */
  lemma EmptyIsTwoBlocks(t: Tiling, base: nat, total: nat)
    requires Tiled(t, total) && Live(t, base) == {}
    ensures t == [t[0], Block(total - t[0].size, false)]
  {
    if exists k :: 1 <= k < |t| && t[k].used {
      var k :| 1 <= k < |t| && t[k].used;
      UsedAt(t[1..], base + t[0].size, k - 1);
    }
    assert |t| > 2 ==> t[1].used || t[2].used;
    HeadTwo(t, base);
    assert t[2..] == [];
  }

  /** Release the given allocations one after the other. */
  function ReleaseAll(t: Tiling, base: nat, xs: seq<(nat, nat)>): Tiling
    decreases |xs|
  {
    if xs == [] then t else ReleaseAll(Release(t, base, xs[0].0, false), base, xs[1..])
  }

  /** Releasing all live allocations, in any order, leaves the table and one block. */
  lemma {:induction false} ReleaseAllEmpties(t: Tiling, base: nat, total: nat, xs: seq<(nat, nat)>)
    requires Tiled(t, total)
    requires forall x :: x in xs <==> x in Live(t, base)
    requires forall i, j :: 0 <= i < j < |xs| ==> xs[i] != xs[j]
    ensures ReleaseAll(t, base, xs) == [t[0], Block(total - t[0].size, false)]
    decreases |xs|
  {
    if xs == [] {
      assert Live(t, base) == {};
      EmptyIsTwoBlocks(t, base, total);
    } else {
      ReleaseSound(t, base, total, xs[0]);
      var u := Release(t, base, xs[0].0, false);
      forall x
        ensures x in xs[1..] <==> x in Live(u, base)
      {
        assert xs == [xs[0]] + xs[1..];
        assert x in xs <==> x == xs[0] || x in xs[1..];
      }
      ReleaseAllEmpties(u, base, total, xs[1..]);
    }
  }

  // ---------- fragmentation ----------

  /** There are at most twice as many blocks as USED blocks, the table included. */
  lemma {:induction false} BlocksAtMostDouble(t: Tiling)
    requires Alternates(t)
    ensures |t| <= 2 * UsedCount(t) + 1
    ensures t != [] && t[0].used ==> |t| <= 2 * UsedCount(t)
  {
    if t != [] {
      forall k {:trigger t[1..][k]} | 0 <= k < |t[1..]| - 1
        ensures t[1..][k].used || t[1..][k + 1].used
      {
        assert t[k + 1].used || t[k + 2].used;
      }
      BlocksAtMostDouble(t[1..]);
    }
  }

  /** One allocation raises the capacity only if twice the USED blocks need it. */
  lemma CapacityStep(t: Tiling, base: nat, total: nat, size: nat, align: nat)
    requires Tiled(t, total) && base + total < WORD
    requires Allocate(t, base, size, align).Placed? && Sound(t, base, size, align)
    ensures var c := Capacity(Allocate(t, base, size, align).t);
            c == Capacity(t) || c <= 2 * UsedCount(t) + 33
  {
    var k, l, r := SoundAnatomy(t, base, total, size, align);
    PlaceKeeps(t, base, total, k, l, size, r);
    var c := Cut(t, k, l, size, r);
    assert |c| <= |t| + 2 && c[0] == t[0];
    CutKeeps(t, base, total, k, l, size, r);
    BlocksAtMostDouble(t);
    if |c| > Capacity(t) {
      GrowKeeps(c, base, total);
    }
  }

  // ---------- a new region ----------

  /** A new region is in order and empty. */
  lemma FreshIsTiled(size: nat, base: nat)
    requires size >= 2048
    ensures Tiled(Fresh(size), size) && Live(Fresh(size), base) == {} && UsedCount(Fresh(size)) == 1
    ensures Capacity(Fresh(size)) == size / 2048 + 1
  {
    var t := Fresh(size);
    HeadTwo(t, base);
    assert t[2..] == [];
  }
}
