/** The allocator cuts a block in up to two insertions, each of which may grow
    the table; the outcome is the single cut that `Place` describes. */
module PmmCarving {
  import opened Words
  import opened PmmTiling

  /** Insert a block, growing the table first when it is full. */
  function Insert(t: Tiling, at: nat, b: Block): Option<Tiling>
    requires 2 <= |t| && at <= |t|
  {
    if |t| < Capacity(t) then Some(t[..at] + [b] + t[at..])
    else if Growable(t) then Some(Grow(t)[..at] + [b] + Grow(t)[at..])
    else None
  }

  /** First half: split the left part off; `mid` bytes stay USED. */
  function CutLeft(t: Tiling, k: nat, l: nat, mid: nat): Option<Tiling>
    requires 2 <= |t| && 1 <= k < |t|
  {
    if l != 0 then Insert(t[k := Block(l, false)], k + 1, Block(mid, true))
    else Some(t[k := Block(t[k].size, true)])
  }

  /** Second half: split the right part off block `j`, which keeps `s` bytes. */
  function CutRight(t: Tiling, j: nat, s: nat, r: nat): Option<Tiling>
    requires 2 <= |t| && 1 <= j < |t|
  {
    if r != 0 then
      match Insert(t, j + 1, Block(r, false))
      case None => None
      case Some(u) => Some(u[j := Block(s, true)])
    else Some(t[j := Block(s, true)])
  }

  lemma CutLeftUsed(t: Tiling, k: nat, l: nat, mid: nat)
    requires 2 <= |t| && 1 <= k < |t| && CutLeft(t, k, l, mid).Some?
    ensures var u, j := CutLeft(t, k, l, mid).value, if l != 0 then k + 1 else k;
            j < |u| && u[j] == Block(if l != 0 then mid else t[k].size, true)
  {
  }

  /** Neither half needs more descriptors. */
  lemma CarveInPlace(t: Tiling, k: nat, l: nat, mid: nat, s: nat, r: nat)
    requires 2 <= |t| <= Capacity(t) && 1 <= k < |t| && !t[k].used
    requires |Cut(t, k, l, s, r)| <= Capacity(t)
    ensures var j := if l != 0 then k + 1 else k;
            && CutLeft(t, k, l, mid).Some? && j < |CutLeft(t, k, l, mid).value|
            && CutRight(CutLeft(t, k, l, mid).value, j, s, r) == Some(Cut(t, k, l, s, r))
  {
    LeftShape(t, k, l, mid);
    var m := if l != 0 then mid else t[k].size;
    var p := t[..k] + (if l != 0 then [Block(l, false)] else []);
    var u := p + [Block(m, true)] + t[k + 1..];
    assert u[0] == t[0];
    RightShape(p, Block(m, true), t[k + 1..], s, r);
    assert Cut(t, k, l, s, r) == p + [Block(s, true)] + (if r != 0 then [Block(r, false)] else []) + t[k + 1..];
  }

  lemma LeftShape(t: Tiling, k: nat, l: nat, mid: nat)
    requires 2 <= |t| && 1 <= k < |t| && !t[k].used
    requires |t| + (if l != 0 then 1 else 0) <= Capacity(t)
    ensures CutLeft(t, k, l, mid)
            == Some(t[..k] + (if l != 0 then [Block(l, false)] else [])
                    + [Block(if l != 0 then mid else t[k].size, true)] + t[k + 1..])
  {
    if l != 0 {
      var t1 := t[k := Block(l, false)];
      assert t1[..k + 1] == t[..k] + [Block(l, false)] && t1[k + 1..] == t[k + 1..];
    } else {
      assert t[k := Block(t[k].size, true)] == t[..k] + [] + [Block(t[k].size, true)] + t[k + 1..];
    }
  }

  lemma RightShape(p: Tiling, b: Block, z: Tiling, s: nat, r: nat)
    requires 1 <= |p| && 2 <= |p + [b] + z|
    requires |p + [b] + z| + (if r != 0 then 1 else 0) <= Capacity(p + [b] + z)
    ensures CutRight(p + [b] + z, |p|, s, r)
            == Some(p + [Block(s, true)] + (if r != 0 then [Block(r, false)] else []) + z)
  {
    var u := p + [b] + z;
    if r != 0 {
      assert u[..|p| + 1] == p + [b] && u[|p| + 1..] == z;
      var v := p + [b] + [Block(r, false)] + z;
      assert v[|p| := Block(s, true)] == p + [Block(s, true)] + [Block(r, false)] + z;
    } else {
      assert u[|p| := Block(s, true)] == p + [Block(s, true)] + [] + z;
    }
  }

  /** Growing before the last insertion or after it is the same. */
  lemma InsertThenGrow(t: Tiling, at: nat, b: Block)
    requires 2 <= at <= |t| && |t| >= Capacity(t) && Growable(t)
    ensures Insert(t, at, b) == Some(Grow(t[..at] + [b] + t[at..]))
  {
    var u := t[..at] + [b] + t[at..];
    assert u[0] == t[0] && u[1] == t[1];
    assert Grow(t)[..at] + [b] + Grow(t)[at..] == Grow(u);
  }

  /** Growth concerns the first two blocks only. */
  lemma GrowFront(f: Tiling, z: Tiling)
    requires |f| >= 2 && f[1].size >= GROWTH
    ensures Grow(f + z) == Grow(f) + z
    ensures |Grow(f)| == |f| && Grow(f)[0].size == f[0].size + GROWTH
  {
  }

  /** The first half fills the table and grows it. */
  lemma CarveGrowsFirst(t: Tiling, k: nat, l: nat, mid: nat, s: nat, r: nat)
    requires 2 <= |t| == Capacity(t) && 1 <= k < |t| && !t[k].used && l != 0
    requires Growable(Cut(t, k, l, s, r))
    ensures CutLeft(t, k, l, mid).Some? && k + 1 < |CutLeft(t, k, l, mid).value|
    ensures CutRight(CutLeft(t, k, l, mid).value, k + 1, s, r) == Some(Grow(Cut(t, k, l, s, r)))
  {
    var t1, f, z := t[k := Block(l, false)], t[..k] + [Block(l, false)], t[k + 1..];
    var rest := [Block(s, true)] + (if r != 0 then [Block(r, false)] else []) + z;
    assert Cut(t, k, l, s, r) == f + rest;
    assert t1[..k + 1] == f && t1[k + 1..] == z;
    assert t1[0] == t[0] && t1[1] == (f + rest)[1];
    hide Cut, CutRight;
    InsertThenGrow(t1, k + 1, Block(mid, true));
    hide Insert, Growable;
    assert f + [Block(mid, true)] + z == f + ([Block(mid, true)] + z);
    GrowFront(f, [Block(mid, true)] + z);
    GrowFront(f, rest);
    var g := Grow(f);
    hide Grow;
    assert CutLeft(t, k, l, mid) == Some(g + [Block(mid, true)] + z);
    RightShape(g, Block(mid, true), z, s, r);
    assert g + [Block(s, true)] + (if r != 0 then [Block(r, false)] else []) + z == g + rest;
  }

  /** Only the second half needs the table to grow. */
  lemma CarveGrowsSecond(t: Tiling, k: nat, l: nat, mid: nat, s: nat, r: nat)
    requires 2 <= |t| && 1 <= k < |t| && !t[k].used && r != 0
    requires |t| + (if l != 0 then 1 else 0) == Capacity(t)
    requires Growable(Cut(t, k, l, s, r))
    ensures var j := if l != 0 then k + 1 else k;
            && CutLeft(t, k, l, mid).Some? && j < |CutLeft(t, k, l, mid).value|
            && CutRight(CutLeft(t, k, l, mid).value, j, s, r) == Some(Grow(Cut(t, k, l, s, r)))
  {
    LeftShape(t, k, l, mid);
    var j := if l != 0 then k + 1 else k;
    var u := CutLeft(t, k, l, mid).value;
    var c := Cut(t, k, l, s, r);
    assert u[0] == t[0] == c[0] && u[1] == c[1] && j >= 2;
    InsertThenGrow(u, j + 1, Block(r, false));
    var w := u[..j + 1] + [Block(r, false)] + u[j + 1..];
    assert w[j := Block(s, true)] == c;
    assert Grow(w)[j := Block(s, true)] == Grow(w[j := Block(s, true)]);
  }

  /** Where the table cannot grow, one of the halves panics. */
  lemma CarvePanics(t: Tiling, k: nat, l: nat, mid: nat, s: nat, r: nat)
    requires 2 <= |t| <= Capacity(t) && 1 <= k < |t| && !t[k].used
    requires |Cut(t, k, l, s, r)| > Capacity(t) && !Growable(Cut(t, k, l, s, r))
    ensures var j := if l != 0 then k + 1 else k;
            CutLeft(t, k, l, mid).None?
            || (j < |CutLeft(t, k, l, mid).value| && CutRight(CutLeft(t, k, l, mid).value, j, s, r).None?)
  {
    var c := Cut(t, k, l, s, r);
    var t1 := t[k := Block(l, false)];
    if l != 0 && |t| == Capacity(t) {
      assert c[1] == t1[1];
    } else {
      var u := CutLeft(t, k, l, mid).value;
      assert u[0] == t[0];
      assert u[1].used == c[1].used && (!u[1].used ==> u[1] == c[1]);
    }
  }

  /** The two halves together are `Place`. */
  lemma CarveIsPlace(t: Tiling, k: nat, l: nat, mid: nat, s: nat, r: nat)
    requires 2 <= |t| <= Capacity(t) && 1 <= k < |t| && !t[k].used
    ensures var j := if l != 0 then k + 1 else k;
            match CutLeft(t, k, l, mid)
            case None => Place(t, k, l, s, r) == None
            case Some(u) => 2 <= |u| && j < |u| && CutRight(u, j, s, r) == Place(t, k, l, s, r)
  {
    var c := Cut(t, k, l, s, r);
    if |c| <= Capacity(t) {
      CarveInPlace(t, k, l, mid, s, r);
    } else if !Growable(c) {
      CarvePanics(t, k, l, mid, s, r);
    } else if l != 0 && |t| == Capacity(t) {
      CarveGrowsFirst(t, k, l, mid, s, r);
    } else {
      CarveGrowsSecond(t, k, l, mid, s, r);
    }
  }
}
