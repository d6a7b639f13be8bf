/** What freeing does with any pointer whatever, live or not, over all regions. */
module PmmAnyPointer {
  import opened Words
  import opened PmmTiling
  import opened PmmFacts
  import opened PmmMemory

  /** The pointer lies in the USED block at `at`, or, closed, at its end. */
  predicate Covers(b: Block, at: nat, ptr: nat, closed: bool) {
    b.used && at <= ptr && (if closed then ptr <= at + b.size else ptr < at + b.size)
  }

  /** No USED block of the region covers the pointer. */
  predicate Uncovered(r: Region, ptr: nat, closed: bool) {
    forall h :: 0 <= h < |r.t| ==> !Covers(r.t[h], Start(r.t, r.base, h), ptr, closed)
  }

  /** Block `k` is the first of its region to cover the pointer. */
  predicate FirstCover(r: Region, ptr: nat, closed: bool, k: nat) {
    && k < |r.t| && Covers(r.t[k], Start(r.t, r.base, k), ptr, closed)
    && forall h :: 0 <= h < k ==> !Covers(r.t[h], Start(r.t, r.base, h), ptr, closed)
  }

  lemma ScanStep(r: Region, ptr: nat, closed: bool, k: nat)
    requires k < |r.t|
    ensures FreeScan(r.t, k, Start(r.t, r.base, k), ptr, closed)
            == if Covers(r.t[k], Start(r.t, r.base, k), ptr, closed) then Hit(k)
               else if r.t[k].used && ptr < Start(r.t, r.base, k) then Stop
               else FreeScan(r.t, k + 1, Start(r.t, r.base, k + 1), ptr, closed)
  {
    hide Sum;
    Split(r.t, k, r.base);
  }

  /** What the search of one region says from block `k` on. */
  lemma {:induction false} ScanSays(r: Region, ptr: nat, closed: bool, k: nat)
    requires k <= |r.t|
    ensures match FreeScan(r.t, k, Start(r.t, r.base, k), ptr, closed)
            case Hit(j) =>
              && k <= j < |r.t| && Covers(r.t[j], Start(r.t, r.base, j), ptr, closed)
              && forall h :: k <= h < j ==> !Covers(r.t[h], Start(r.t, r.base, h), ptr, closed)
            case Stop =>
              && (forall h :: k <= h < |r.t| ==> !Covers(r.t[h], Start(r.t, r.base, h), ptr, closed))
              && exists h :: k <= h < |r.t| && ptr < Start(r.t, r.base, h)
            case End => forall h :: k <= h < |r.t| ==> !Covers(r.t[h], Start(r.t, r.base, h), ptr, closed)
    decreases |r.t| - k
  {
    hide Start;
    if k < |r.t| {
      ScanStep(r, ptr, closed, k);
      hide FreeScan;
      if r.t[k].used && ptr < Start(r.t, r.base, k) {
        forall h | k < h < |r.t|
          ensures !Covers(r.t[h], Start(r.t, r.base, h), ptr, closed)
        {
          StartsRise(r, k, h);
        }
      } else {
        hide Covers;
        ScanSays(r, ptr, closed, k + 1);
      }
    }
  }

  lemma StartsRise(r: Region, k: nat, h: nat)
    requires k < h <= |r.t|
    ensures Start(r.t, r.base, k) <= Start(r.t, r.base, h)
  {
    StartMonotone(r.t, k, h);
  }

  lemma StartsAtBase(r: Region)
    ensures Start(r.t, r.base, 0) == r.base
  {
    assert r.t[..0] == [];
  }

  lemma RegionSays(r: Region, ptr: nat, closed: bool)
    ensures forall k :: FreeScan(r.t, 0, r.base, ptr, closed) == Hit(k) <==> k >= 0 && FirstCover(r, ptr, closed, k)
    ensures FreeScan(r.t, 0, r.base, ptr, closed) == Stop ==>
              Uncovered(r, ptr, closed) && exists h :: 0 <= h < |r.t| && ptr < Start(r.t, r.base, h)
    ensures FreeScan(r.t, 0, r.base, ptr, closed) == End ==> Uncovered(r, ptr, closed)
  {
    hide FreeScan, Covers;
    StartsAtBase(r);
    ScanSays(r, ptr, closed, 0);
  }

  lemma RegionBounds(r: Region, k: nat)
    requires RegionOk(r) && k < |r.t|
    ensures r.base <= Start(r.t, r.base, k) && Start(r.t, r.base, k) + r.t[k].size <= r.base + r.size
  {
    StartMonotone(r.t, k, |r.t|);
    assert r.t[..|r.t|] == r.t;
  }

  /** Only the region's own end can be covered from elsewhere, so a search that gives
      up in one region could not have succeeded in another. */
  lemma GivesUpAlone(m: Memory, h: nat, j: nat, k: nat, ptr: nat, closed: bool)
    requires Inv(m) && h < |m| && j < |m| && h != j && m[h].Some? && m[j].Some?
    requires FirstCover(m[j].value, ptr, closed, k) && Uncovered(m[h].value, ptr, closed)
    requires m[h].value.base <= ptr <= m[h].value.base + m[h].value.size
    ensures FreeScan(m[h].value.t, 0, m[h].value.base, ptr, closed) == End
  {
    hide FreeScan, Sum, Inv;
    var r, s := m[h].value, m[j].value;
    RegionIn(m, h);
    RegionIn(m, j);
    RegionSays(r, ptr, closed);
    RegionBounds(s, k);
    RegionsApart(m, h, j);
    StartsAtBase(r);
    assert !Covers(r.t[0], r.base, ptr, closed);
    forall i | 0 <= i < |r.t|
      ensures Start(r.t, r.base, i) <= ptr
    {
      RegionBounds(r, i);
    }
  }

  lemma RegionsApart(m: Memory, h: nat, j: nat)
    requires Inv(m) && h < |m| && j < |m| && h != j && m[h].Some? && m[j].Some?
    ensures var r, s := m[h].value, m[j].value; r.base + r.size <= s.base || s.base + s.size <= r.base
  {
    if h < j {
      assert Separate(m[h].value, m[j].value.base, m[j].value.size);
    } else {
      assert Separate(m[j].value, m[h].value.base, m[h].value.size);
    }
  }

  /** Entry `j` is the first region with a USED block that covers the pointer, and `k`
      the first such block. */
  ghost predicate HeldAt(m: Memory, i: nat, ptr: nat, closed: bool, j: nat, k: nat) {
    && i <= j < |m| && m[j].Some? && FirstCover(m[j].value, ptr, closed, k)
    && forall h :: i <= h < j && m[h].Some? ==> Uncovered(m[h].value, ptr, closed)
  }

  lemma {:induction false} FreesFirstHolder(m: Memory, i: nat, ptr: nat, closed: bool, j: nat, k: nat)
    requires Inv(m) && HeldAt(m, i, ptr, closed, j, k)
    ensures FreeFrom(m, i, ptr, closed) == m[j := Some(m[j].value.(t := FreeAt(m[j].value.t, k)))]
    decreases j - i
  {
    hide FreeScan, FreeAt, Covers, Uncovered;
    if i < j {
      if m[i].Some? && m[i].value.base <= ptr <= m[i].value.base + m[i].value.size {
        GivesUpAlone(m, i, j, k, ptr, closed);
      }
      FreesFirstHolder(m, i + 1, ptr, closed, j, k);
    } else {
      var r := m[j].value;
      RegionIn(m, j);
      RegionSays(r, ptr, closed);
      HolderInside(r, ptr, closed, k);
    }
  }

  lemma HolderInside(r: Region, ptr: nat, closed: bool, k: nat)
    requires RegionOk(r) && FirstCover(r, ptr, closed, k)
    ensures r.base <= ptr <= r.base + r.size
  {
    RegionBounds(r, k);
  }

  lemma {:induction false} FreesNothing(m: Memory, i: nat, ptr: nat, closed: bool)
    requires i <= |m| && forall h :: i <= h < |m| && m[h].Some? ==> Uncovered(m[h].value, ptr, closed)
    ensures FreeFrom(m, i, ptr, closed) == m
    decreases |m| - i
  {
    hide FreeScan, FreeAt, Covers;
    if i < |m| {
      if m[i].Some? {
        RegionSays(m[i].value, ptr, closed);
      }
      FreesNothing(m, i + 1, ptr, closed);
    }
  }

  /** Freeing any pointer: the first USED block that covers it is freed, in the first
      region that has one, descriptor tables included; where no USED block covers the
      pointer, nothing happens. */
  lemma FreeAnyPointer(m: Memory, ptr: nat, closed: bool)
    requires Inv(m)
    ensures forall j: nat, k: nat :: HeldAt(m, 0, ptr, closed, j, k) ==>
              FreeFrom(m, 0, ptr, closed) == m[j := Some(m[j].value.(t := FreeAt(m[j].value.t, k)))]
    ensures (forall h :: 0 <= h < |m| && m[h].Some? ==> Uncovered(m[h].value, ptr, closed)) ==>
              FreeFrom(m, 0, ptr, closed) == m
    ensures (exists h :: 0 <= h < |m| && m[h].Some? && !Uncovered(m[h].value, ptr, closed)) ==>
              exists j: nat, k: nat :: HeldAt(m, 0, ptr, closed, j, k)
  {
    hide FreeFrom, FreeAt, Inv, Covers;
    forall j: nat, k: nat | HeldAt(m, 0, ptr, closed, j, k)
      ensures FreeFrom(m, 0, ptr, closed) == m[j := Some(m[j].value.(t := FreeAt(m[j].value.t, k)))]
    {
      FreesFirstHolder(m, 0, ptr, closed, j, k);
    }
    if forall h :: 0 <= h < |m| && m[h].Some? ==> Uncovered(m[h].value, ptr, closed) {
      FreesNothing(m, 0, ptr, closed);
    } else {
      var j, k := SomeHolder(m, 0, ptr, closed);
    }
  }

  lemma {:induction false} SomeHolder(m: Memory, i: nat, ptr: nat, closed: bool) returns (j: nat, k: nat)
    requires i <= |m| && exists h :: i <= h < |m| && m[h].Some? && !Uncovered(m[h].value, ptr, closed)
    ensures HeldAt(m, i, ptr, closed, j, k)
    decreases |m| - i
  {
    hide Covers, Start;
    if m[i].Some? && !Uncovered(m[i].value, ptr, closed) {
      j, k := i, 0;
      var r := m[i].value;
      while !Covers(r.t[k], Start(r.t, r.base, k), ptr, closed)
        invariant k < |r.t| && exists h :: k <= h < |r.t| && Covers(r.t[h], Start(r.t, r.base, h), ptr, closed)
        invariant forall h :: 0 <= h < k ==> !Covers(r.t[h], Start(r.t, r.base, h), ptr, closed)
        decreases |r.t| - k
      {
        k := k + 1;
      }
    } else {
      j, k := SomeHolder(m, i + 1, ptr, closed);
    }
  }
}
