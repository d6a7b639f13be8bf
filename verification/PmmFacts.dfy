/** Algebra of tilings: how sums, occupied intervals and the invariant behave
    under concatenation, cutting, growth and coalescing. */
module PmmFacts {
  import opened Words
  import opened PmmTiling

  lemma {:induction false} SumConcat(a: Tiling, b: Tiling)
    ensures Sum(a + b) == Sum(a) + Sum(b)
  {
    if a == [] {
      assert a + b == b;
    } else {
      SumConcat(a[1..], b);
      assert (a + b)[1..] == a[1..] + b;
    }
  }

  lemma {:induction false} UsedConcat(a: Tiling, b: Tiling, at: nat)
    ensures UsedFrom(a + b, at) == UsedFrom(a, at) + UsedFrom(b, at + Sum(a))
  {
    if a == [] {
      assert a + b == b;
    } else {
      UsedConcat(a[1..], b, at + a[0].size);
      assert (a + b)[1..] == a[1..] + b;
    }
  }

  lemma {:induction false} CountConcat(a: Tiling, b: Tiling)
    ensures UsedCount(a + b) == UsedCount(a) + UsedCount(b)
  {
    if a == [] {
      assert a + b == b;
    } else {
      CountConcat(a[1..], b);
      assert (a + b)[1..] == a[1..] + b;
    }
  }

  /** The tiling around one block. */
  lemma Split(t: Tiling, k: nat, at: nat)
    requires k < |t|
    ensures t == t[..k] + [t[k]] + t[k + 1..]
    ensures Sum(t) == Sum(t[..k]) + t[k].size + Sum(t[k + 1..])
    ensures Sum(t[..k + 1]) == Sum(t[..k]) + t[k].size
    ensures UsedFrom(t, at) == UsedFrom(t[..k], at) + (if t[k].used then {(at + Sum(t[..k]), t[k].size)} else {})
                               + UsedFrom(t[k + 1..], at + Sum(t[..k]) + t[k].size)
  {
    assert t == t[..k] + [t[k]] + t[k + 1..];
    assert t[..k + 1] == t[..k] + [t[k]];
    SumConcat(t[..k] + [t[k]], t[k + 1..]);
    SumConcat(t[..k], [t[k]]);
    UsedConcat(t[..k] + [t[k]], t[k + 1..], at);
    UsedConcat(t[..k], [t[k]], at);
    assert [t[k]][1..] == [];
  }

  lemma StartMonotone(t: Tiling, j: nat, k: nat)
    requires j < k <= |t|
    ensures Sum(t[..j]) + t[j].size <= Sum(t[..k]) <= Sum(t)
  {
    Split(t[..k], j, 0);
    assert t[..k][..j] == t[..j];
    SumConcat(t[..k], t[k..]);
    assert t == t[..k] + t[k..];
  }

  lemma UsedAt(t: Tiling, at: nat, k: nat)
    requires k < |t| && t[k].used
    ensures (Start(t, at, k), t[k].size) in UsedFrom(t, at)
  {
    Split(t, k, at);
  }

  lemma {:induction false} UsedIndex(t: Tiling, at: nat, x: (nat, nat)) returns (k: nat)
    requires x in UsedFrom(t, at)
    ensures k < |t| && t[k].used && x == (Start(t, at, k), t[k].size)
  {
    if t[0].used && x == (at, t[0].size) {
      k := 0;
    } else {
      var j := UsedIndex(t[1..], at + t[0].size, x);
      k := j + 1;
      assert t[..k] == [t[0]] + t[1..][..j];
      SumConcat([t[0]], t[1..][..j]);
    }
  }

  /** Occupied intervals stay inside the tiling. */
  lemma UsedBounds(t: Tiling, at: nat, x: (nat, nat))
    requires x in UsedFrom(t, at)
    ensures at <= x.0 && x.0 + x.1 <= at + Sum(t)
  {
    var k := UsedIndex(t, at, x);
    StartMonotone(t, k, |t|);
    assert t[..|t|] == t;
  }

  predicate Apart(x: (nat, nat), y: (nat, nat)) {
    x.0 + x.1 <= y.0 || y.0 + y.1 <= x.0
  }

  lemma UsedApart(t: Tiling, at: nat, x: (nat, nat), y: (nat, nat))
    requires x in UsedFrom(t, at) && y in UsedFrom(t, at) && x != y
    ensures Apart(x, y)
  {
    var j := UsedIndex(t, at, x);
    var k := UsedIndex(t, at, y);
    if j < k {
      StartMonotone(t, j, k);
    } else if k < j {
      StartMonotone(t, k, j);
    }
  }

  /** Everything USED is the table or a client allocation. */
  lemma UsedSplit(t: Tiling, base: nat)
    requires |t| > 0 && t[0].used
    ensures UsedFrom(t, base) == {(base, t[0].size)} + Live(t, base)
  {
  }

  /** Live allocations have positive size, are pairwise disjoint, and lie in the
      region behind the descriptor table. */
  lemma LiveLayout(t: Tiling, base: nat, total: nat)
    requires Shaped(t, total)
    ensures forall x <- Live(t, base) :: base + t[0].size <= x.0 && 0 < x.1 && x.0 + x.1 <= base + total
    ensures forall x <- Live(t, base), y <- Live(t, base) :: x != y ==> Apart(x, y)
    ensures forall x <- Live(t, base), y <- Live(t, base) :: x.0 == y.0 ==> x == y
  {
    var rest, at := t[1..], base + t[0].size;
    forall x | x in Live(t, base)
      ensures base + t[0].size <= x.0 && 0 < x.1 && x.0 + x.1 <= base + total
    {
      UsedBounds(rest, at, x);
      var k := UsedIndex(rest, at, x);
      assert t[k + 1].size > 0;
    }
    forall x, y | x in Live(t, base) && y in Live(t, base) && x != y
      ensures Apart(x, y)
    {
      UsedApart(rest, at, x, y);
    }
  }

  // ---------- growth ----------

  /** Growth takes only FREE bytes: no block but the first two changes, no
      address but that of block 1 moves, and no client allocation is touched. */
  lemma GrowKeeps(t: Tiling, base: nat, total: nat)
    requires Shaped(t, total) && Growable(t)
    ensures Shaped(Grow(t), total)
    ensures Live(Grow(t), base) == Live(t, base)
    ensures Capacity(Grow(t)) == Capacity(t) + 32
    ensures UsedCount(Grow(t)) == UsedCount(t)
    ensures forall k :: 2 <= k <= |t| ==> Start(Grow(t), base, k) == Start(t, base, k)
  {
    GrowSums(t, base);
    forall k | 2 <= k <= |t|
      ensures Start(Grow(t), base, k) == Start(t, base, k)
    {
      GrowStart(t, base, k);
    }
    forall k {:trigger Grow(t)[k]} | 0 <= k < |t| - 1
      ensures Grow(t)[k].used || Grow(t)[k + 1].used
    {
      assert Grow(t)[k].used == t[k].used && Grow(t)[k + 1].used == t[k + 1].used;
    }
  }

  lemma HeadTwo(t: Tiling, base: nat)
    requires |t| >= 2
    ensures Sum(t) == t[0].size + t[1].size + Sum(t[2..])
    ensures UsedCount(t) == (if t[0].used then 1 else 0) + (if t[1].used then 1 else 0) + UsedCount(t[2..])
    ensures Live(t, base) == (if t[1].used then {(base + t[0].size, t[1].size)} else {})
                             + UsedFrom(t[2..], base + t[0].size + t[1].size)
  {
    assert t[1..][1..] == t[2..];
  }

  lemma GrowSums(t: Tiling, base: nat)
    requires |t| >= 2 && Growable(t)
    ensures Sum(Grow(t)) == Sum(t) && UsedCount(Grow(t)) == UsedCount(t)
    ensures Live(Grow(t), base) == Live(t, base)
  {
    assert Grow(t)[2..] == t[2..];
    HeadShift(t, Grow(t), base);
  }

  lemma HeadShift(t: Tiling, g: Tiling, base: nat)
    requires |t| == |g| >= 2 && g[2..] == t[2..]
    requires t[0].used == g[0].used && !t[1].used && !g[1].used
    requires g[0].size + g[1].size == t[0].size + t[1].size
    ensures Sum(g) == Sum(t) && UsedCount(g) == UsedCount(t)
    ensures Live(g, base) == Live(t, base)
  {
    HeadTwo(t, base);
    HeadTwo(g, base);
    assert base + g[0].size + g[1].size == base + t[0].size + t[1].size;
  }

  lemma GrowStart(t: Tiling, base: nat, k: nat)
    requires |t| >= 2 && Growable(t) && 2 <= k <= |t|
    ensures Start(Grow(t), base, k) == Start(t, base, k)
  {
    HeadTwo(t[..k], base);
    HeadTwo(Grow(t)[..k], base);
    assert Grow(t)[..k][2..] == t[..k][2..];
  }

  // ---------- cutting a FREE block ----------

  lemma SlicesSum(l: nat, s: nat, r: nat, at: nat)
    ensures Sum(Slices(l, s, r)) == l + s + r
    ensures UsedFrom(Slices(l, s, r), at) == {(at + l, s)}
    ensures UsedCount(Slices(l, s, r)) == 1
  {
    var x := if l != 0 then [Block(l, false)] else [];
    var z := if r != 0 then [Block(r, false)] else [];
    SumConcat(x + [Block(s, true)], z);
    SumConcat(x, [Block(s, true)]);
    UsedConcat(x + [Block(s, true)], z, at);
    UsedConcat(x, [Block(s, true)], at);
    CountConcat(x + [Block(s, true)], z);
    CountConcat(x, [Block(s, true)]);
    assert Sum(x) == l && Sum(z) == r && Sum([Block(s, true)]) == s;
  }

  lemma CutKeeps(t: Tiling, base: nat, total: nat, k: nat, l: nat, s: nat, r: nat)
    requires Shaped(t, total) && 1 <= k < |t| && !t[k].used
    requires s > 0 && l + s + r == t[k].size
    ensures Shaped(Cut(t, k, l, s, r), total)
    ensures Live(Cut(t, k, l, s, r), base) == Live(t, base) + {(Start(t, base, k) + l, s)}
    ensures UsedCount(Cut(t, k, l, s, r)) == UsedCount(t) + 1
  {
    CutSums(t, base, k, l, s, r);
    CutAlternates(t, k, l, s, r);
    CutNonEmpty(t, k, l, s, r);
    LiveFromUsed(t, Cut(t, k, l, s, r), base, k, l, s);
  }

  lemma CutSums(t: Tiling, base: nat, k: nat, l: nat, s: nat, r: nat)
    requires k < |t| && !t[k].used
    requires l + s + r == t[k].size
    ensures Sum(Cut(t, k, l, s, r)) == Sum(t)
    ensures UsedFrom(Cut(t, k, l, s, r), base) == UsedFrom(t, base) + {(Start(t, base, k) + l, s)}
    ensures UsedCount(Cut(t, k, l, s, r)) == UsedCount(t) + 1
  {
    var m := Slices(l, s, r);
    var a, z := t[..k], t[k + 1..];
    SlicesSum(l, s, r, Start(t, base, k));
    Split(t, k, base);
    SumConcat(a + m, z);
    SumConcat(a, m);
    UsedConcat(a + m, z, base);
    UsedConcat(a, m, base);
    CountConcat(a + m, z);
    CountConcat(a, m);
    CountConcat(a + [t[k]], z);
    CountConcat(a, [t[k]]);
    assert UsedCount([t[k]]) == 0;
  }

  lemma CutAlternates(t: Tiling, k: nat, l: nat, s: nat, r: nat)
    requires Alternates(t) && 1 <= k < |t| && !t[k].used
    ensures Alternates(Cut(t, k, l, s, r))
  {
    var m := Slices(l, s, r);
    var c := Cut(t, k, l, s, r);
    assert t[k - 1].used;
    forall i {:trigger c[i]} | 0 <= i < |c| - 1
      ensures c[i].used || c[i + 1].used
    {
      if i < k - 1 {
        assert c[i] == t[i] && c[i + 1] == t[i + 1];
      } else if i == k - 1 {
        assert c[i] == t[i];
      } else if i < k + |m| - 1 {
        assert c[i] == m[i - k] && c[i + 1] == m[i - k + 1];
      } else if i == k + |m| - 1 {
        assert c[i + 1] == t[k + 1];
      } else {
        var j := i - |m| + 1;
        assert c[i] == t[j] && c[i + 1] == t[j + 1];
      }
    }
  }

  lemma CutNonEmpty(t: Tiling, k: nat, l: nat, s: nat, r: nat)
    requires NonEmpty(t) && 1 <= k < |t| && s > 0
    ensures NonEmpty(Cut(t, k, l, s, r))
  {
    var m := Slices(l, s, r);
    var c := Cut(t, k, l, s, r);
    forall i | 0 <= i < |c| && (i != 1 || c[i].used)
      ensures c[i].size > 0
    {
      if i < k {
        assert c[i] == t[i];
      } else if i < k + |m| {
        assert c[i] == m[i - k];
      } else {
        assert c[i] == t[i - |m| + 1];
      }
    }
  }

  lemma LiveFromUsed(t: Tiling, c: Tiling, base: nat, k: nat, l: nat, s: nat)
    requires 1 <= k < |t| && t[0].used && t[0].size > 0 && |c| > 0 && c[0] == t[0]
    requires UsedFrom(c, base) == UsedFrom(t, base) + {(Start(t, base, k) + l, s)}
    ensures Live(c, base) == Live(t, base) + {(Start(t, base, k) + l, s)}
  {
    UsedSplit(t, base);
    UsedSplit(c, base);
    StartMonotone(t, 0, k);
    var table := (base, t[0].size);
    forall x | x in Live(t, base) || x in Live(c, base)
      ensures x != table
    {
      if x in Live(t, base) {
        UsedBounds(t[1..], base + t[0].size, x);
      } else {
        UsedBounds(c[1..], base + t[0].size, x);
      }
    }
  }
}
