/** One storage region as the kernel keeps it: an array of block descriptors at
    the region's own base, linked into a list, updated in place. */
module PmmRegions {
  import opened Counting
  import opened Words
  import opened PmmTiling
  import opened PmmFacts
  import opened PmmAllocation
  import opened PmmRelease
  import opened PmmCanonical
  import opened PmmCarving

  datatype Flags = NotPresent | Free | Used

  /** `next` is the slot of the following descriptor, or NULL. */
  datatype PmmBlock = PmmBlock(size: nat, next: int, flags: Flags)

  const NULL: int := -1

  type Heap = seq<PmmBlock>

  /** What the caller of the allocator gets; a panic never returns. */
  datatype Answer = Panicked | NoStorage | Pointer(ptr: nat)

  /** `order` lists the slots met when the list is followed from slot 0: it is
      acyclic, ends at NULL, and meets only descriptors that are present. */
  ghost predicate Linked(h: Heap, order: seq<nat>) {
    && |order| >= 1 && order[0] == 0
    && (forall i :: 0 <= i < |order| ==> order[i] < |h| && h[order[i]].flags != NotPresent)
    && Unrepeated(order)
    && (forall i, j :: 0 <= i < j < |order| && j == i + 1 ==> h[order[i]].next == order[j])
    && h[order[|order| - 1]].next == NULL
  }

  /** The descriptor table is exact: its slots are those on the list and free ones. */
  ghost predicate Tabled(h: Heap, order: seq<nat>) {
    && |order| >= 2 && order[0] == 0 && order[1] == 1
    && |h| >= 1 && h[0].flags == Used && h[0].size % DESCRIPTOR == 0
    && h[0].size / DESCRIPTOR <= |h|
    && (forall i :: 0 <= i < |order| ==> order[i] < h[0].size / DESCRIPTOR)
    && (forall s :: 0 <= s < h[0].size / DESCRIPTOR ==> (h[s].flags != NotPresent <==> s in order))
  }

  ghost predicate InBounds(h: Heap, order: seq<nat>) {
    forall i :: 0 <= i < |order| ==> order[i] < |h|
  }

  ghost function BlocksOf(h: Heap, order: seq<nat>): (t: Tiling)
    requires InBounds(h, order)
    ensures |t| == |order|
  {
    seq(|order|, i requires 0 <= i < |order| => Block(h[order[i]].size, h[order[i]].flags == Used))
  }

  /** The table after it grew: 384 bytes more for slot 0, as many less for slot 1,
      and 32 zeroed descriptors. */
  ghost function Expanded(h: Heap): (g: Heap)
    requires |h| >= 2 && h[1].size >= GROWTH && h[0].size / DESCRIPTOR + 32 <= |h|
    ensures |g| == |h|
  {
    var n := h[0].size / DESCRIPTOR;
    seq(|h|, s requires 0 <= s < |h| =>
      if n <= s < n + 32 then PmmBlock(0, NULL, NotPresent)
      else if s == 0 then h[0].(size := h[0].size + GROWTH)
      else if s == 1 then h[1].(size := h[1].size - GROWTH)
      else h[s])
  }

  ghost function Inserted(order: seq<nat>, at: nat, s: nat): (r: seq<nat>)
    requires at <= |order|
    ensures |r| == |order| + 1 && r[..at] == order[..at] && r[at] == s
    ensures forall i :: at < i < |r| ==> r[i] == order[i - 1]
  {
    order[..at] + [s] + order[at..]
  }

  ghost predicate Unrepeated(order: seq<nat>) {
    forall i, j :: 0 <= i < j < |order| ==> order[i] != order[j]
  }

  lemma InsertedMembers(order: seq<nat>, at: nat, s: nat)
    requires at <= |order|
    ensures forall x :: x in Inserted(order, at, s) <==> x == s || x in order
  {
    assert order == order[..at] + order[at..];
  }

  lemma InsertedUnrepeated(order: seq<nat>, at: nat, s: nat)
    requires at <= |order| && Unrepeated(order) && s !in order
    ensures Unrepeated(Inserted(order, at, s))
  {
    var o := Inserted(order, at, s);
    forall i, j | 0 <= i < j < |o|
      ensures o[i] != o[j]
    {
      if i < at {
        assert o[i] == order[i];
      }
      if j < at {
        assert o[j] == order[j];
      }
    }
  }

  /** `block->next = new`, where `new->next` is the old `block->next`. */
  ghost function Spliced(h: Heap, b: nat, s: nat, size: nat, flags: Flags): (g: Heap)
    requires b < |h| && s < |h| && s != b
    ensures |g| == |h|
  {
    h[s := PmmBlock(size, h[b].next, flags)][b := h[b].(next := s)]
  }

  lemma SpliceLinks(h: Heap, order: seq<nat>, k: nat, s: nat, size: nat, flags: Flags)
    requires Linked(h, order) && k < |order| && s < |h| && s !in order && flags != NotPresent
    ensures Linked(Spliced(h, order[k], s, size, flags), Inserted(order, k + 1, s))
  {
    var g, o := Spliced(h, order[k], s, size, flags), Inserted(order, k + 1, s);
    InsertedUnrepeated(order, k + 1, s);
    assert o[0] == o[..k + 1][0] == order[..k + 1][0] == order[0];
    forall i | 0 <= i < |o|
      ensures o[i] < |g| && g[o[i]].flags != NotPresent
    {
      SplicePresent(h, order, k, s, size, flags, i);
    }
    forall i {:trigger o[i]} | 0 <= i < |o| - 1
      ensures g[o[i]].next == o[i + 1]
    {
      SpliceLink(h, order, k, s, size, flags, i);
    }
    SpliceEnd(h, order, k, s, size, flags);
  }

  lemma SplicePresent(h: Heap, order: seq<nat>, k: nat, s: nat, size: nat, flags: Flags, i: nat)
    requires Linked(h, order) && k < |order| && s < |h| && s !in order && flags != NotPresent && i <= |order|
    ensures Inserted(order, k + 1, s)[i] < |h|
    ensures Spliced(h, order[k], s, size, flags)[Inserted(order, k + 1, s)[i]].flags != NotPresent
  {
    var o := Inserted(order, k + 1, s);
    InsertedMembers(order, k + 1, s);
    assert o[i] in o;
    if o[i] != s {
      var j :| 0 <= j < |order| && order[j] == o[i];
    }
  }

  lemma SpliceEnd(h: Heap, order: seq<nat>, k: nat, s: nat, size: nat, flags: Flags)
    requires Linked(h, order) && k < |order| && s < |h| && s !in order
    ensures Inserted(order, k + 1, s)[|order|] < |h|
    ensures Spliced(h, order[k], s, size, flags)[Inserted(order, k + 1, s)[|order|]].next == NULL
  {
    var o := Inserted(order, k + 1, s);
    if k == |order| - 1 {
      assert o[|order|] == s;
    } else {
      assert o[|order|] == order[|order| - 1];
    }
  }

  lemma SpliceLink(h: Heap, order: seq<nat>, k: nat, s: nat, size: nat, flags: Flags, i: nat)
    requires Linked(h, order) && k < |order| && s < |h| && s !in order && i < |order|
    ensures Inserted(order, k + 1, s)[i] < |h|
    ensures Spliced(h, order[k], s, size, flags)[Inserted(order, k + 1, s)[i]].next == Inserted(order, k + 1, s)[i + 1]
  {
    var g, o := Spliced(h, order[k], s, size, flags), Inserted(order, k + 1, s);
    if i < k {
      assert o[i] == order[i] && o[i + 1] == order[i + 1];
      assert order[i] != order[k];
    } else if i == k {
      assert o[i] == order[k];
    } else if i == k + 1 {
      assert o[i] == s && o[i + 1] == order[k + 1] == h[order[k]].next;
    } else {
      assert o[i] == order[i - 1] && o[i + 1] == order[i];
      assert order[i - 1] != order[k];
    }
  }

  lemma SpliceBlocks(h: Heap, order: seq<nat>, k: nat, s: nat, size: nat, flags: Flags)
    requires Linked(h, order) && k < |order| && s < |h| && s !in order && flags != NotPresent
    requires Linked(Spliced(h, order[k], s, size, flags), Inserted(order, k + 1, s))
    ensures BlocksOf(Spliced(h, order[k], s, size, flags), Inserted(order, k + 1, s))
            == BlocksOf(h, order)[..k + 1] + [Block(size, flags == Used)] + BlocksOf(h, order)[k + 1..]
  {
    hide Spliced, Inserted, BlocksOf;
    var g, o, t := Spliced(h, order[k], s, size, flags), Inserted(order, k + 1, s), BlocksOf(h, order);
    var u := t[..k + 1] + [Block(size, flags == Used)] + t[k + 1..];
    forall i | 0 <= i < |o|
      ensures BlocksOf(g, o)[i] == u[i]
    {
      SpliceBlock(h, order, k, s, size, flags, i);
    }
  }

  lemma SpliceBlock(h: Heap, order: seq<nat>, k: nat, s: nat, size: nat, flags: Flags, i: nat)
    requires Linked(h, order) && k < |order| && s < |h| && s !in order && flags != NotPresent
    requires Linked(Spliced(h, order[k], s, size, flags), Inserted(order, k + 1, s)) && i <= |order|
    ensures var t := BlocksOf(h, order);
            BlocksOf(Spliced(h, order[k], s, size, flags), Inserted(order, k + 1, s))[i]
            == (t[..k + 1] + [Block(size, flags == Used)] + t[k + 1..])[i]
  {
    var o := Inserted(order, k + 1, s);
    if i <= k {
      assert o[i] == o[..k + 1][i] == order[..k + 1][i] == order[i];
      assert order[i] != s;
    } else if i > k + 1 {
      assert o[i] == order[i - 1] && order[i - 1] != s && order[i - 1] != order[k];
    }
  }

  lemma SpliceTable(h: Heap, order: seq<nat>, k: nat, s: nat, size: nat, flags: Flags)
    requires Linked(h, order) && Tabled(h, order) && 1 <= k < |order|
    requires s < h[0].size / DESCRIPTOR && s !in order && flags != NotPresent
    ensures Tabled(Spliced(h, order[k], s, size, flags), Inserted(order, k + 1, s))
  {
    var g, o := Spliced(h, order[k], s, size, flags), Inserted(order, k + 1, s);
    SpliceHead(h, order, k, s, size, flags);
    hide Linked, Spliced, Inserted;
    forall i | 0 <= i < |o|
      ensures o[i] < h[0].size / DESCRIPTOR
    {
      SpliceSmall(h, order, k, s, i);
    }
    forall x | 0 <= x < h[0].size / DESCRIPTOR
      ensures g[x].flags != NotPresent <==> x in o
    {
      SpliceSlot(h, order, k, s, size, flags, x);
    }
  }

  lemma SpliceHead(h: Heap, order: seq<nat>, k: nat, s: nat, size: nat, flags: Flags)
    requires Linked(h, order) && Tabled(h, order) && 1 <= k < |order|
    requires s < h[0].size / DESCRIPTOR && s !in order
    ensures var g, o := Spliced(h, order[k], s, size, flags), Inserted(order, k + 1, s);
            |o| >= 2 && o[0] == 0 && o[1] == 1 && |g| >= 1 && g[0] == h[0]
  {
    var o := Inserted(order, k + 1, s);
    assert order[0] in order && order[k] != order[0];
    assert o[1] == o[..k + 1][1] == order[..k + 1][1] == order[1];
    assert o[0] == o[..k + 1][0] == order[..k + 1][0] == order[0];
  }

  lemma SpliceSmall(h: Heap, order: seq<nat>, k: nat, s: nat, i: nat)
    requires Tabled(h, order) && k < |order| && s < h[0].size / DESCRIPTOR && i <= |order|
    ensures Inserted(order, k + 1, s)[i] < h[0].size / DESCRIPTOR
  {
    var o := Inserted(order, k + 1, s);
    if i <= k {
      assert o[i] == o[..k + 1][i] == order[..k + 1][i] == order[i];
    }
  }

  lemma SpliceSlot(h: Heap, order: seq<nat>, k: nat, s: nat, size: nat, flags: Flags, x: nat)
    requires Tabled(h, order) && 1 <= k < |order| && s < |h| && s !in order && flags != NotPresent
    requires x < h[0].size / DESCRIPTOR
    ensures order[k] < |h| && s != order[k]
    ensures Spliced(h, order[k], s, size, flags)[x].flags != NotPresent <==> x in Inserted(order, k + 1, s)
  {
    InsertedMembers(order, k + 1, s);
    assert order[k] in order;
  }

  /** Linking in a new descriptor is insertion in the tiling. */
  lemma SpliceKeeps(h: Heap, order: seq<nat>, k: nat, s: nat, size: nat, flags: Flags)
    requires Linked(h, order) && Tabled(h, order) && 1 <= k < |order|
    requires s < h[0].size / DESCRIPTOR && s !in order && flags != NotPresent
    ensures var g, o := Spliced(h, order[k], s, size, flags), Inserted(order, k + 1, s);
            && Linked(g, o) && Tabled(g, o) && g[0].size == h[0].size
            && BlocksOf(g, o)
               == BlocksOf(h, order)[..k + 1] + [Block(size, flags == Used)] + BlocksOf(h, order)[k + 1..]
  {
    SpliceLinks(h, order, k, s, size, flags);
    SpliceBlocks(h, order, k, s, size, flags);
    SpliceTable(h, order, k, s, size, flags);
    assert order[k] != order[0];
  }

  lemma ExpandKeeps(h: Heap, order: seq<nat>)
    requires Linked(h, order) && Tabled(h, order) && h[0].size / DESCRIPTOR + 32 <= |h|
    requires Growable(BlocksOf(h, order))
    ensures Linked(Expanded(h), order) && Tabled(Expanded(h), order)
    ensures BlocksOf(Expanded(h), order) == Grow(BlocksOf(h, order))
  {
    var g, n := Expanded(h), h[0].size / DESCRIPTOR;
    assert BlocksOf(h, order)[1] == Block(h[1].size, h[1].flags == Used);
    assert g[0].size == h[0].size + 32 * DESCRIPTOR;
    forall i | 0 <= i < |order|
      ensures g[order[i]].next == h[order[i]].next && g[order[i]].flags == h[order[i]].flags
      ensures i >= 2 ==> g[order[i]] == h[order[i]]
    {
      assert order[i] < n;
      assert i >= 2 ==> order[i] != 0 && order[i] != 1;
    }
  }

  /** The heap `CreateBlock` leaves behind, without its new descriptor. */
  ghost function Roomy(h: Heap, order: seq<nat>): (e: Heap)
    requires Linked(h, order) && Tabled(h, order)
    requires |order| < h[0].size / DESCRIPTOR || (Growable(BlocksOf(h, order)) && h[0].size / DESCRIPTOR + 32 <= |h|)
    ensures |e| == |h|
  {
    assert BlocksOf(h, order)[1] == Block(h[1].size, h[1].flags == Used);
    if |order| < h[0].size / DESCRIPTOR then h else Expanded(h)
  }

  lemma InsertRoom(h: Heap, order: seq<nat>)
    requires Linked(h, order) && Tabled(h, order)
    ensures |BlocksOf(h, order)| >= 2 && BlocksOf(h, order)[0] == Block(h[0].size, true)
    ensures |order| <= h[0].size / DESCRIPTOR
    ensures forall k :: 1 <= k < |order| ==> order[k] < |h|
    ensures |h| >= 2 && (h[1].size >= GROWTH && h[0].size / DESCRIPTOR + 32 <= |h| ==>
              Expanded(h)[0].size == h[0].size + 32 * DESCRIPTOR)
  {
    Pigeonhole(order, h[0].size / DESCRIPTOR);
  }

  lemma SpliceNext(h: Heap, order: seq<nat>, k: nat, s: nat, size: nat, flags: Flags)
    requires k < |order| && order[k] < |h| && s < |h| && s != order[k]
    ensures Spliced(h, order[k], s, size, flags)[order[k]].next == s
    ensures |Inserted(order, k + 1, s)| == |order| + 1
  {
  }

  lemma RoomyNext(h: Heap, order: seq<nat>, k: nat)
    requires Linked(h, order) && Tabled(h, order) && k < |order|
    requires |order| < h[0].size / DESCRIPTOR || (Growable(BlocksOf(h, order)) && h[0].size / DESCRIPTOR + 32 <= |h|)
    ensures order[k] < |h| && Roomy(h, order)[order[k]].next == h[order[k]].next
  {
  }

  /** Creating a descriptor behind block `k` and linking it in is `Insert`. */
  lemma InsertStep(h: Heap, order: seq<nat>, k: nat, s: nat, size: nat, flags: Flags)
    requires Linked(h, order) && Tabled(h, order) && 1 <= k < |order| && flags != NotPresent
    requires |order| < h[0].size / DESCRIPTOR || (Growable(BlocksOf(h, order)) && h[0].size / DESCRIPTOR + 32 <= |h|)
    requires s !in order && s < Roomy(h, order)[0].size / DESCRIPTOR && s < |h|
    ensures var g, o := Spliced(Roomy(h, order), order[k], s, size, flags), Inserted(order, k + 1, s);
            && Linked(g, o) && Tabled(g, o)
            && Insert(BlocksOf(h, order), k + 1, Block(size, flags == Used)) == Some(BlocksOf(g, o))
            && (g[0].size == h[0].size || |o| < g[0].size / DESCRIPTOR)
            && g[order[k]].next == s
  {
    InsertRoom(h, order);
    hide Linked, Tabled, Spliced, Inserted, Expanded;
    if |order| >= h[0].size / DESCRIPTOR {
      ExpandKeeps(h, order);
    }
    SpliceKeeps(Roomy(h, order), order, k, s, size, flags);
    SpliceNext(Roomy(h, order), order, k, s, size, flags);
  }

  // ---------- a block is rewritten ----------

  /** Changing the size and the flags of a present block changes just that block. */
  lemma RewriteKeeps(h: Heap, order: seq<nat>, k: nat, size: nat, flags: Flags)
    requires Linked(h, order) && Tabled(h, order) && 1 <= k < |order| && flags != NotPresent
    ensures var g := h[order[k] := h[order[k]].(size := size, flags := flags)];
            && Linked(g, order) && Tabled(g, order)
            && BlocksOf(g, order) == BlocksOf(h, order)[k := Block(size, flags == Used)]
  {
    RewriteLinks(h, order, k, size, flags);
    assert order[k] != order[0];
  }

  lemma RewriteLinks(h: Heap, order: seq<nat>, k: nat, size: nat, flags: Flags)
    requires Linked(h, order) && k < |order| && flags != NotPresent
    ensures var g := h[order[k] := h[order[k]].(size := size, flags := flags)];
            Linked(g, order) && BlocksOf(g, order) == BlocksOf(h, order)[k := Block(size, flags == Used)]
  {
    var g := h[order[k] := h[order[k]].(size := size, flags := flags)];
    forall i | 0 <= i < |order|
      ensures g[order[i]].next == h[order[i]].next && g[order[i]].flags != NotPresent
      ensures i != k ==> g[order[i]] == h[order[i]]
    {
    }
  }

  // ---------- a block absorbs its successor ----------

  ghost function Removed(order: seq<nat>, at: nat): (r: seq<nat>)
    requires at < |order|
    ensures |r| == |order| - 1 && r[..at] == order[..at]
    ensures forall i :: at <= i < |r| ==> r[i] == order[i + 1]
  {
    order[..at] + order[at + 1..]
  }

  /** `p` takes over the bytes of the block `n` behind it, whose slot falls free. */
  ghost function Absorbed(h: Heap, p: nat, n: nat): (g: Heap)
    requires p < |h| && n < |h| && p != n
    ensures |g| == |h|
  {
    h[n := h[n].(flags := NotPresent)][p := h[p].(size := h[p].size + h[n].size, next := h[n].next)]
  }

  lemma RemovedMembers(order: seq<nat>, at: nat)
    requires at < |order| && Unrepeated(order)
    ensures Unrepeated(Removed(order, at))
    ensures forall x :: x in Removed(order, at) <==> x in order && x != order[at]
  {
    var o := Removed(order, at);
    assert forall i :: 0 <= i < at ==> o[i] == order[i];
    assert order == order[..at] + [order[at]] + order[at + 1..];
  }

  lemma AbsorbLinks(h: Heap, order: seq<nat>, k: nat)
    requires Linked(h, order) && k + 1 < |order|
    ensures Linked(Absorbed(h, order[k], order[k + 1]), Removed(order, k + 1))
  {
    var g, o := Absorbed(h, order[k], order[k + 1]), Removed(order, k + 1);
    RemovedMembers(order, k + 1);
    RemovedAt(order, k + 1, 0);
    forall i | 0 <= i < |o|
      ensures o[i] < |g| && g[o[i]].flags != NotPresent
    {
      AbsorbPresent(h, order, k, i);
    }
    forall i {:trigger o[i]} | 0 <= i < |o| - 1
      ensures g[o[i]].next == o[i + 1]
    {
      AbsorbLink(h, order, k, i);
    }
    AbsorbEnd(h, order, k);
  }

  lemma RemovedAt(order: seq<nat>, at: nat, i: nat)
    requires at < |order| && i < |order| - 1
    ensures Removed(order, at)[i] == if i < at then order[i] else order[i + 1]
  {
    if i < at {
      assert Removed(order, at)[..at][i] == order[..at][i];
    }
  }

  lemma AbsorbPresent(h: Heap, order: seq<nat>, k: nat, i: nat)
    requires Linked(h, order) && k + 1 < |order| && i < |order| - 1
    ensures Removed(order, k + 1)[i] < |h|
    ensures Absorbed(h, order[k], order[k + 1])[Removed(order, k + 1)[i]].flags != NotPresent
  {
    RemovedAt(order, k + 1, i);
    var j := if i < k + 1 then i else i + 1;
    assert order[j] != order[k + 1];
  }

  lemma AbsorbEnd(h: Heap, order: seq<nat>, k: nat)
    requires Linked(h, order) && k + 1 < |order|
    ensures Removed(order, k + 1)[|order| - 2] < |h|
    ensures Absorbed(h, order[k], order[k + 1])[Removed(order, k + 1)[|order| - 2]].next == NULL
  {
    RemovedAt(order, k + 1, |order| - 2);
    if k + 2 < |order| {
      assert order[|order| - 1] != order[k] && order[|order| - 1] != order[k + 1];
    }
  }

  lemma AbsorbLink(h: Heap, order: seq<nat>, k: nat, i: nat)
    requires Linked(h, order) && k + 1 < |order| && i + 2 < |order|
    ensures Removed(order, k + 1)[i] < |h|
    ensures Absorbed(h, order[k], order[k + 1])[Removed(order, k + 1)[i]].next == Removed(order, k + 1)[i + 1]
  {
    var o := Removed(order, k + 1);
    if i < k {
      assert o[i] == o[..k + 1][i] == order[i] && o[i + 1] == o[..k + 1][i + 1] == order[i + 1];
      assert order[i] != order[k] && order[i] != order[k + 1];
    } else if i == k {
      assert o[i] == o[..k + 1][i] == order[k] && o[i + 1] == order[k + 2] == h[order[k + 1]].next;
    } else {
      assert o[i] == order[i + 1] && o[i + 1] == order[i + 2];
      assert order[i + 1] != order[k] && order[i + 1] != order[k + 1];
    }
  }

  lemma AbsorbBlocks(h: Heap, order: seq<nat>, k: nat)
    requires InBounds(h, order) && Unrepeated(order) && k + 1 < |order|
    requires InBounds(Absorbed(h, order[k], order[k + 1]), Removed(order, k + 1))
    ensures BlocksOf(Absorbed(h, order[k], order[k + 1]), Removed(order, k + 1)) == Joined(BlocksOf(h, order), k)
  {
    var u, v := BlocksOf(Absorbed(h, order[k], order[k + 1]), Removed(order, k + 1)), Joined(BlocksOf(h, order), k);
    forall i | 0 <= i < |u|
      ensures u[i] == v[i]
    {
      AbsorbBlock(h, order, k, i);
    }
  }

  /** Blocks `k` and `k + 1` become one. */
  function Joined(t: Tiling, k: nat): (u: Tiling)
    requires k + 1 < |t|
    ensures |u| == |t| - 1
    ensures forall i :: 0 <= i < |u| ==>
              u[i] == if i < k then t[i] else if i == k then Block(t[k].size + t[k + 1].size, t[k].used) else t[i + 1]
  {
    t[..k] + [Block(t[k].size + t[k + 1].size, t[k].used)] + t[k + 2..]
  }

  lemma AbsorbBlock(h: Heap, order: seq<nat>, k: nat, i: nat)
    requires InBounds(h, order) && Unrepeated(order) && k + 1 < |order| && i < |order| - 1
    requires InBounds(Absorbed(h, order[k], order[k + 1]), Removed(order, k + 1))
    ensures BlocksOf(Absorbed(h, order[k], order[k + 1]), Removed(order, k + 1))[i] == Joined(BlocksOf(h, order), k)[i]
  {
    RemovedAt(order, k + 1, i);
    var j := if i <= k then i else i + 1;
    assert order[j] != order[k + 1];
    assert j != k ==> order[j] != order[k];
  }

  lemma AbsorbTable(h: Heap, order: seq<nat>, k: nat)
    requires Unrepeated(order) && Tabled(h, order) && 1 <= k && k + 1 < |order|
    ensures Tabled(Absorbed(h, order[k], order[k + 1]), Removed(order, k + 1))
    ensures Absorbed(h, order[k], order[k + 1])[0] == h[0]
  {
    var g, o := Absorbed(h, order[k], order[k + 1]), Removed(order, k + 1);
    RemovedAt(order, k + 1, 0);
    RemovedAt(order, k + 1, 1);
    assert order[k] != order[0] && order[k + 1] != order[0];
    assert g[0] == h[0];
    forall i | 0 <= i < |o|
      ensures o[i] < h[0].size / DESCRIPTOR
    {
      RemovedAt(order, k + 1, i);
    }
    forall s | 0 <= s < h[0].size / DESCRIPTOR
      ensures g[s].flags != NotPresent <==> s in o
    {
      AbsorbSlot(h, order, k, s);
    }
  }

  lemma AbsorbSlot(h: Heap, order: seq<nat>, k: nat, s: nat)
    requires Unrepeated(order) && Tabled(h, order) && k + 1 < |order| && s < h[0].size / DESCRIPTOR
    ensures Absorbed(h, order[k], order[k + 1])[s].flags != NotPresent <==> s in Removed(order, k + 1)
  {
    RemovedMembers(order, k + 1);
    assert order[k] in order && order[k] != order[k + 1];
  }

  /** What cutting block `k` at address `cur` leads to. */
  function Planned(t: Tiling, k: nat, cur: nat, size: nat, align: nat): Option<Tiling>
    requires |t| >= 2 && 1 <= k < |t|
  {
    var left := LeftSize(t[k].size, cur, size, align);
    Place(t, k, left, size, RightSize(t[k].size, left, size))
  }

  /** The two halves of the cut, as the code computes them. */
  lemma SliceSteps(t: Tiling, k: nat, left: nat, size: nat)
    requires 2 <= |t| <= Capacity(t) && 1 <= k < |t| && !t[k].used && t[k].size < WORD
    ensures match CutLeft(t, k, left, Wrap(t[k].size - left))
            case None => Place(t, k, left, size, RightSize(t[k].size, left, size)) == None
            case Some(u) =>
              && 2 <= |u| && Piece(k, left) < |u|
              && CutRight(u, Piece(k, left), size, Wrap(u[Piece(k, left)].size - size))
                 == Place(t, k, left, size, RightSize(t[k].size, left, size))
  {
    var mid := Wrap(t[k].size - left);
    CarveIsPlace(t, k, left, mid, size, RightSize(t[k].size, left, size));
    if CutLeft(t, k, left, mid).Some? {
      CutLeftUsed(t, k, left, mid);
    }
  }

  lemma PairFits(t: Tiling, k: nat)
    requires k + 1 < |t|
    ensures t[k].size + t[k + 1].size <= Sum(t)
  {
    StartMonotone(t, k, k + 1);
    StartMonotone(t, k + 1, k + 2);
    Split(t, k, 0);
  }

  lemma MarkSum(t: Tiling, k: nat)
    requires k < |t|
    ensures Sum(Marked(t, k)) == Sum(t)
  {
    Split(t, k, 0);
    Split(Marked(t, k), k, 0);
    assert Marked(t, k)[..k] == t[..k] && Marked(t, k)[k + 1..] == t[k + 1..];
  }

  lemma MergeAfterJoins(t: Tiling, k: nat)
    requires k < |t|
    ensures MergeAfter(t, k) == if k + 1 < |t| && !t[k + 1].used then Joined(Marked(t, k), k) else Marked(t, k)
  {
    var m := Marked(t, k);
    if k + 1 < |t| {
      assert m[..k] == t[..k] && m[k + 2..] == t[k + 2..];
    }
  }

  lemma MergeAfterSum(t: Tiling, k: nat)
    requires k < |t|
    ensures Sum(MergeAfter(t, k)) == Sum(t)
  {
    hide Sum, UsedFrom, UsedCount, MergeAfter;
    MarkSum(t, k);
    MergeAfterJoins(t, k);
    if k + 1 < |t| && !t[k + 1].used {
      JoinKeeps(Marked(t, k), k, 0);
    }
  }

  lemma FreeAtJoins(t: Tiling, k: nat)
    requires k < |t|
    ensures var a := MergeAfter(t, k);
            FreeAt(t, k) == if k > 0 && !a[k - 1].used then Joined(a, k - 1) else a
  {
  }

  /** Absorbing the successor is joining two blocks of the tiling. */
  lemma AbsorbKeeps(h: Heap, order: seq<nat>, k: nat)
    requires Linked(h, order) && k + 1 < |order|
    ensures var g, o := Absorbed(h, order[k], order[k + 1]), Removed(order, k + 1);
            && Linked(g, o) && BlocksOf(g, o) == Joined(BlocksOf(h, order), k)
            && (k >= 1 && Tabled(h, order) ==> Tabled(g, o))
  {
    AbsorbLinks(h, order, k);
    AbsorbBlocks(h, order, k);
    if k >= 1 && Tabled(h, order) {
      AbsorbTable(h, order, k);
    }
  }

  class PmmRegion {
    const base: nat
    const size: nat
    const heap: array<PmmBlock>
    ghost var order: seq<nat>

    ghost predicate ListOk()
      reads this, heap
    {
      Linked(heap[..], order)
    }

    ghost predicate TableOk()
      reads this, heap
    {
      ListOk() && Tabled(heap[..], order)
    }

    ghost function Blocks(): Tiling
      reads this, heap
      requires ListOk()
    {
      BlocksOf(heap[..], order)
    }

    /** The whole invariant: table, list and tiling. */
    ghost predicate Valid()
      reads this, heap
    {
      && base + size < WORD
      && heap.Length >= size / DESCRIPTOR + 32
      && TableOk()
      && Tiled(Blocks(), size)
    }

    lemma ValidIsListOk()
      requires Valid()
      ensures ListOk() && TableOk() && base + size < WORD && Tiled(Blocks(), size)
    {
    }

    /** `MmCreateRegion`, the part that formats the region.  `storage` is the
        memory of the region seen as descriptors. */
    constructor (base: nat, size: nat, storage: array<PmmBlock>)
      requires 2048 <= size && base + size < WORD
      requires storage.Length >= size / DESCRIPTOR + 32
      requires forall s :: 2 <= s < size / 2048 + 1 ==> storage[s].flags == NotPresent
      modifies storage
      ensures Valid() && this.base == base && this.size == size && heap == storage
      ensures Blocks() == Fresh(size)
    {
      this.base := base;
      this.size := size;
      this.heap := storage;
      this.order := [0, 1];
      new;
      heap[0] := PmmBlock((size / 2048 + 1) * DESCRIPTOR, 1, Used);
      heap[1] := PmmBlock(size - heap[0].size, NULL, Free);
      FreshIsTiled(size, base);
      assert heap[0].size / DESCRIPTOR == size / 2048 + 1;
      assert Blocks() == Fresh(size);
    }

    /** Number of descriptors the table holds. */
    function Slots(): nat
      reads heap
      requires heap.Length > 0
    {
      heap[0].size / DESCRIPTOR
    }

    /** First slot of the table whose descriptor is not present, or its length. */
    method FindSlot(n: nat) returns (i: nat)
      requires n <= heap.Length
      ensures i <= n
      ensures i < n ==> heap[i].flags == NotPresent
      ensures forall s :: 0 <= s < i ==> heap[s].flags != NotPresent
    {
      i := 0;
      while i < n && heap[i].flags != NotPresent
        invariant i <= n
        invariant forall s :: 0 <= s < i ==> heap[s].flags != NotPresent
      {
        i := i + 1;
      }
    }

    /** Give the table 32 more descriptors at the expense of block 1. */
    method ExpandTable()
      requires heap.Length >= 2 && 2 <= Slots() && heap[1].size >= GROWTH && Slots() + 32 <= heap.Length
      modifies heap
      ensures heap[..] == Expanded(old(heap[..]))
    {
      var nBlocks := heap[0].size / DESCRIPTOR;
      heap[0] := heap[0].(size := heap[0].size + GROWTH);
      heap[1] := heap[1].(size := heap[1].size - GROWTH);
      for i := nBlocks to nBlocks + 32
        invariant heap[0] == old(heap[0]).(size := old(heap[0]).size + GROWTH)
        invariant heap[1] == old(heap[1]).(size := old(heap[1]).size - GROWTH)
        invariant forall s :: nBlocks <= s < i ==> heap[s] == PmmBlock(0, NULL, NotPresent)
        invariant forall s :: 2 <= s < nBlocks || i <= s < heap.Length ==> heap[s] == old(heap[s])
      {
        heap[i] := PmmBlock(0, NULL, NotPresent);
      }
    }

    /** `MmCreateBlock`: take a free descriptor, or grow the table by 32. */
    method CreateBlock(size: nat, flags: Flags, next: int) returns (r: Option<nat>)
      requires TableOk() && flags != NotPresent
      requires |order| < Slots() || Slots() + 32 <= heap.Length
      modifies heap
      ensures r.None? <==> old(|order| >= Slots() && !Growable(Blocks()))
      ensures r.None? ==> unchanged(heap)
      ensures r.Some? ==> r.value < heap.Length && r.value !in order
      ensures r.Some? ==> forall s :: 0 <= s < r.value ==> old(heap[s].flags) != NotPresent
      ensures r.Some? && old(|order| < Slots()) ==>
                r.value < old(Slots()) && heap[..] == old(heap[..])[r.value := PmmBlock(size, next, flags)]
      ensures r.Some? && old(|order| >= Slots()) ==>
                && old(Growable(Blocks()) && heap.Length >= 2 && Slots() + 32 <= heap.Length)
                && r.value == old(Slots())
                && heap[..] == Expanded(old(heap[..]))[r.value := PmmBlock(size, next, flags)]
    {
      var nBlocks := heap[0].size / DESCRIPTOR;
      FullIff();
      var i := FindSlot(nBlocks);
      if i == nBlocks {
        SlotOne();
        if heap[1].flags != Free || heap[1].size < GROWTH {
          return None;
        }
        ExpandTable();
      }
      heap[i] := PmmBlock(size, next, flags);
      r := Some(i);
    }

    /** The table is full exactly when every descriptor in it is present. */
    lemma FullIff()
      requires TableOk()
      ensures 2 <= |order| <= Slots() <= heap.Length
      ensures |order| == Slots() <==> forall s :: 0 <= s < Slots() ==> heap[s].flags != NotPresent
      ensures forall s :: 0 <= s < Slots() ==> (heap[s].flags != NotPresent <==> s in order)
      ensures forall s :: Slots() <= s ==> s !in order
    {
      Pigeonhole(order, Slots());
      forall s | 0 <= s < Slots()
        ensures heap[s].flags != NotPresent <==> s in order
      {
        assert heap[..][s] == heap[s];
      }
    }

    /** `block->next = MmCreateBlock(region, size, flags, block->next)`. */
    method InsertAfter(b: nat, ghost k: nat, size: nat, flags: Flags, ghost t: Tiling) returns (ok: bool)
      requires TableOk() && 1 <= k < |order| && order[k] == b && flags != NotPresent && Blocks() == t
      requires |order| < Slots() || Slots() + 32 <= heap.Length
      modifies this`order, heap
      ensures match Insert(t, k + 1, Block(size, flags == Used))
              case None => !ok
              case Some(u) => ok && TableOk() && Blocks() == u
      ensures b < heap.Length
      ensures ok ==> |order| == old(|order|) + 1 && order[k] == b && heap[b].next == order[k + 1]
      ensures ok ==> |order| < Slots() || Slots() == old(Slots())
    {
      hide Linked, Tabled, Inserted, BlocksOf;
      ghost var h, o := heap[..], order;
      SlotOne();
      InsertRoom(h, o);
      assert |t| == |o| && t[0].size == h[0].size;
      var r := CreateBlock(size, flags, heap[b].next);
      if r.None? {
        return false;
      }
      var s := r.value;
      assert heap[..] == Roomy(h, o)[s := PmmBlock(size, h[b].next, flags)];
      RoomyNext(h, o, k);
      heap[b] := heap[b].(next := s);
      order := Inserted(o, k + 1, s);
      assert heap[..] == Spliced(Roomy(h, o), b, s, size, flags);
      InsertStep(h, o, k, s, size, flags);
      assert heap[0] == heap[..][0];
      ok := true;
    }

    /** Overwrite size and flags of block `k`. */
    method Rewrite(b: nat, ghost k: nat, size: nat, flags: Flags, ghost t: Tiling)
      requires TableOk() && 1 <= k < |order| && order[k] == b && flags != NotPresent && Blocks() == t
      modifies heap
      ensures TableOk() && Blocks() == t[k := Block(size, flags == Used)]
      ensures heap[b].next == old(heap[b].next) && Slots() == old(Slots())
    {
      RewriteKeeps(heap[..], order, k, size, flags);
      assert b != order[0];
      ghost var g := heap[..][b := heap[b].(size := size, flags := flags)];
      heap[b] := heap[b].(size := size, flags := flags);
      assert heap[..] == g;
    }

    /** Split the left remainder off block `k`; the rest becomes USED. */
    method CarveLeft(slot: nat, ghost k: nat, leftSize: nat, ghost t: Tiling) returns (ok: bool, block: nat)
      requires TableOk() && 1 <= k < |order| && order[k] == slot && Blocks() == t && !t[k].used
      requires |order| <= Slots() && Slots() + 32 <= heap.Length
      modifies this`order, heap
      ensures match CutLeft(t, k, leftSize, Wrap(t[k].size - leftSize))
              case None => !ok
              case Some(u) => ok && TableOk() && Blocks() == u
                              && Piece(k, leftSize) < |order| && order[Piece(k, leftSize)] == block
                              && (|order| < Slots() || Slots() + 32 <= heap.Length)
    {
      hide Linked, Tabled, BlocksOf, Insert;
      SlotHolds(slot, k);
      if leftSize != 0 {
        ok, block := SplitLeft(slot, k, leftSize, Wrap(heap[slot].size - leftSize), t);
      } else {
        Rewrite(slot, k, heap[slot].size, Used, t);
        ok, block := true, slot;
      }
    }

    method SplitLeft(slot: nat, ghost k: nat, leftSize: nat, nextSize: nat, ghost t: Tiling)
      returns (ok: bool, block: nat)
      requires TableOk() && 1 <= k < |order| && order[k] == slot && Blocks() == t
      requires |order| <= Slots() && Slots() + 32 <= heap.Length
      modifies this`order, heap
      ensures match Insert(t[k := Block(leftSize, false)], k + 1, Block(nextSize, true))
              case None => !ok
              case Some(u) => ok && TableOk() && Blocks() == u && k + 1 < |order| && order[k + 1] == block
                              && (|order| < Slots() || Slots() + 32 <= heap.Length)
    {
      hide Linked, Tabled, BlocksOf, Insert;
      Rewrite(slot, k, leftSize, Free, t);
      ok := InsertAfter(slot, k, nextSize, Used, Blocks());
      block := slot;
      if ok {
        block := heap[slot].next;
      }
    }

    /** Split what exceeds `size` off the USED block `j`. */
    method CarveRight(block: nat, ghost j: nat, size: nat, ghost t: Tiling) returns (ok: bool)
      requires TableOk() && 1 <= j < |order| && order[j] == block && Blocks() == t
      requires |order| < Slots() || Slots() + 32 <= heap.Length
      modifies this`order, heap
      ensures match CutRight(t, j, size, Wrap(t[j].size - size))
              case None => !ok
              case Some(u) => ok && TableOk() && Blocks() == u
    {
      hide Linked, Tabled, BlocksOf, Insert;
      SlotHolds(block, j);
      var rightSize := Wrap(heap[block].size - size);
      if rightSize != 0 {
        ok := SplitRight(block, j, size, rightSize, t);
      } else {
        Rewrite(block, j, size, Used, t);
        ok := true;
      }
    }

    method SplitRight(block: nat, ghost j: nat, size: nat, rightSize: nat, ghost t: Tiling) returns (ok: bool)
      requires TableOk() && 1 <= j < |order| && order[j] == block && Blocks() == t
      requires |order| < Slots() || Slots() + 32 <= heap.Length
      modifies this`order, heap
      ensures match Insert(t, j + 1, Block(rightSize, false))
              case None => !ok
              case Some(u) => ok && TableOk() && Blocks() == u[j := Block(size, true)]
    {
      hide Linked, Tabled, BlocksOf, Insert;
      ok := InsertAfter(block, j, rightSize, Free, t);
      if ok {
        Rewrite(block, j, size, Used, Blocks());
      }
    }

    /** Slice up block `k`: `leftSize` bytes stay FREE, the next `size` become USED. */
    method Slice(slot: nat, ghost k: nat, leftSize: nat, size: nat, ghost t: Tiling) returns (ok: bool)
      requires TableOk() && 1 <= k < |order| && order[k] == slot && Blocks() == t
      requires |order| <= Slots() && Slots() + 32 <= heap.Length
      requires 2 <= |t| <= Capacity(t) && !t[k].used && t[k].size < WORD
      modifies this`order, heap
      ensures match Place(t, k, leftSize, size, RightSize(t[k].size, leftSize, size))
              case None => !ok
              case Some(u) => ok && TableOk() && Blocks() == u
    {
      hide Linked, Tabled, BlocksOf, Place;
      ghost var p := Place(t, k, leftSize, size, RightSize(t[k].size, leftSize, size));
      SliceSteps(t, k, leftSize, size);
      ok := SliceTo(slot, k, leftSize, size, t, p);
    }

    method SliceTo(slot: nat, ghost k: nat, leftSize: nat, size: nat, ghost t: Tiling, ghost p: Option<Tiling>)
        returns (ok: bool)
      requires TableOk() && 1 <= k < |order| && order[k] == slot && Blocks() == t
      requires |order| <= Slots() && Slots() + 32 <= heap.Length && |t| >= 2 && !t[k].used
      requires match CutLeft(t, k, leftSize, Wrap(t[k].size - leftSize))
               case None => p == None
               case Some(u) => && 2 <= |u| && Piece(k, leftSize) < |u|
                               && CutRight(u, Piece(k, leftSize), size, Wrap(u[Piece(k, leftSize)].size - size)) == p
      modifies this`order, heap
      ensures match p
              case None => !ok
              case Some(u) => ok && TableOk() && Blocks() == u
    {
      hide Linked, Tabled, BlocksOf, CutLeft, CutRight;
      var block;
      ok, block := CarveLeft(slot, k, leftSize, t);
      if ok {
        ok := CarveRight(block, Piece(k, leftSize), size, Blocks());
      }
    }

    /** The part of the allocator that slices up the FREE block it settled on,
        block `k` at address `cur`. */
    method Carve(slot: nat, ghost k: nat, cur: nat, size: nat, align: nat, ghost t: Tiling) returns (r: Option<nat>)
      requires TableOk() && 1 <= k < |order| && order[k] == slot && Blocks() == t
      requires |order| <= Slots() && Slots() + 32 <= heap.Length
      requires 2 <= |t| <= Capacity(t) && !t[k].used && t[k].size < WORD
      modifies this`order, heap
      ensures match Planned(t, k, cur, size, align)
              case None => r == None
              case Some(u) => r == Some(Wrap(cur + LeftSize(t[k].size, cur, size, align))) && TableOk() && Blocks() == u
    {
      hide Linked, Tabled, BlocksOf, LeftSize, Place;
      SlotHolds(slot, k);
      var leftSize := LeftBytes(heap[slot].size, cur, size, align);
      var current := Wrap(cur + leftSize);
      var ok := Slice(slot, k, leftSize, size, t);
      r := if ok then Some(current) else None;
    }

    /** `left_size`, in the order of the code. */
    method LeftBytes(bytes: nat, cur: nat, size: nat, align: nat) returns (left: nat)
      ensures left == LeftSize(bytes, cur, size, align)
    {
      if align != 0 {
        var end := Wrap(cur + bytes - size);
        left := Wrap(end - end % align - cur);
      } else {
        left := Wrap(bytes - size);
      }
    }

    /** The allocator's search: first block of the list that passes its test. */
    method FindBlock(size: nat, align: nat, ghost t: Tiling) returns (block: int, current: nat, ghost k: nat)
      requires Valid() && Blocks() == t
      ensures match Chosen(t, base, size, align)
              case None => block == NULL
              case Some(f) => current == f.cur && f.k < |order| && block == order[f.k]
      ensures block != NULL ==> Chosen(t, base, size, align) == Some(Found(k, current))
    {
      hide Linked, Tabled, BlocksOf, Tiled, Accepts, Sum;
      Outset();
      block, current, k := 0, base, 0;
      while block != NULL
        invariant k <= |order| && block == if k < |order| then order[k] else NULL
        invariant current == Start(t, base, k)
        invariant Chosen(t, base, size, align) == FirstFit(t, k, current, size, align)
        decreases |order| - k
      {
        StepFacts(k);
        var fits := Passes(block, current, size, align);
        if fits {
          return;
        }
        current := Wrap(current + heap[block].size);
        block := heap[block].next;
        k := k + 1;
      }
    }

    /** The test the allocator puts a block to. */
    method Passes(block: nat, current: nat, size: nat, align: nat) returns (ok: bool)
      requires block < heap.Length
      ensures ok == Accepts(Block(heap[block].size, heap[block].flags == Used), current, size, align)
    {
      if heap[block].flags == Used {
        ok := false;
      } else if (align != 0 && heap[block].size < Wrap(size + current % align)) || heap[block].size < size {
        ok := false;
      } else {
        ok := true;
      }
    }

    /** A walk along the list sets out from slot 0 at the region's base. */
    lemma Outset()
      requires Valid()
      ensures |order| >= 2 && order[0] == 0 && Start(Blocks(), base, 0) == base
    {
    }

    /** One step of a walk along the list: the slot met, its successor, and the
        address reached, which never wraps. */
    lemma StepFacts(k: nat)
      requires Valid() && k < |order|
      ensures order[k] < heap.Length && heap[order[k]].flags != NotPresent
      ensures Blocks()[k] == Block(heap[order[k]].size, heap[order[k]].flags == Used)
      ensures heap[order[k]].next == if k + 1 < |order| then order[k + 1] else NULL
      ensures Start(Blocks(), base, k + 1) == Start(Blocks(), base, k) + Blocks()[k].size <= base + size
    {
      SlotHolds(order[k], k);
      NextSlot(k);
      StartMonotone(Blocks(), k, |order|);
      Split(Blocks(), k, base);
      assert Blocks()[..|order|] == Blocks();
    }

    /** The allocator's work in one region. */
    method AllocateIn(size: nat, align: nat) returns (r: Answer)
      requires Valid() && size > 0
      modifies this`order, heap
      ensures match old(Allocate(Blocks(), base, size, align))
              case Panic => r == Panicked
              case Null => r == NoStorage && unchanged(this, heap)
              case Placed(p, u) => r == Pointer(p) && TableOk() && Blocks() == u
    {
      hide Linked, Tabled, BlocksOf, Tiled, Place;
      ghost var t := Blocks();
      var block, current, k := FindBlock(size, align, t);
      if block == NULL {
        return NoStorage;
      }
      Ready(k, current, size, align);
      var p := Carve(block, k, current, size, align, t);
      r := if p.None? then Panicked else Pointer(p.value);
    }

    /** The block found is ready to be cut, and cutting it is what remains to do. */
    lemma Ready(k: nat, current: nat, size: nat, align: nat)
      requires Valid() && size > 0
      requires Chosen(Blocks(), base, size, align) == Some(Found(k, current))
      ensures 1 <= k < |order| && |order| <= Slots() && Slots() + 32 <= heap.Length
      ensures order[k] < heap.Length && |Blocks()| <= Capacity(Blocks())
      ensures !Blocks()[k].used && Blocks()[k].size < WORD
      ensures Allocate(Blocks(), base, size, align) ==
              match Planned(Blocks(), k, current, size, align)
              case None => Panic
              case Some(u) => Placed(Wrap(current + LeftSize(Blocks()[k].size, current, size, align)), u)
    {
      hide LeftSize, RightSize, Place, FirstFit, Accepts, BlocksOf, Sum;
      StepFacts(k);
      ChosenFacts(Blocks(), base, this.size, size, align);
      TableRoom();
    }

    ghost function SlotBefore(k: nat): int
      reads this
      requires k <= |order|
    {
      if k > 0 then order[k - 1] else NULL
    }

    /** The deallocator's search: the first USED block whose closed interval holds
        the pointer.  `prev` trails one block behind. */
    method FindOwner(ptr: nat, ghost t: Tiling) returns (r: Search, block: int, prev: int)
      requires Valid() && Blocks() == t
      ensures r == FreeScan(t, 0, base, ptr, true)
      ensures r.Hit? ==> r.k < |order| && block == order[r.k] && prev == SlotBefore(r.k)
    {
      hide Linked, Tabled, BlocksOf, Tiled, Judged, Sum;
      Outset();
      var current, k := base, 0;
      block, prev := 0, NULL;
      while block != NULL
        invariant k <= |order| && block == (if k < |order| then order[k] else NULL) && prev == SlotBefore(k)
        invariant current == Start(t, base, k)
        invariant FreeScan(t, 0, base, ptr, true) == FreeScan(t, k, current, ptr, true)
        decreases |order| - k
      {
        StepFacts(k);
        var verdict := Judge(block, current, ptr);
        if verdict.Take? {
          return Hit(k), block, prev;
        } else if verdict.GiveUp? {
          return Stop, block, prev;
        }
        current := Wrap(current + heap[block].size);
        prev := block;
        block := heap[block].next;
        k := k + 1;
      }
      r := End;
    }

    /** The deallocator's test of one block. */
    method Judge(block: nat, current: nat, ptr: nat) returns (v: Verdict)
      requires block < heap.Length && heap[block].flags != NotPresent
      requires current + heap[block].size < WORD
      ensures v == Judged(Block(heap[block].size, heap[block].flags == Used), current, ptr, true)
    {
      if heap[block].flags == Free {
        v := GoOn;
      } else if ptr >= current && ptr <= Wrap(current + heap[block].size) {
        v := Take;
      } else if current > ptr {
        v := GiveUp;
      } else {
        v := GoOn;
      }
    }

    /** Mark block `k` FREE. */
    method Mark(block: nat, ghost k: nat, ghost t: Tiling)
      requires ListOk() && k < |order| && order[k] == block && Blocks() == t
      modifies heap
      ensures ListOk() && Blocks() == Marked(t, k)
      ensures k >= 1 && old(TableOk()) ==> TableOk()
    {
      SlotHolds(block, k);
      RewriteLinks(heap[..], order, k, heap[block].size, Free);
      if k >= 1 && TableOk() {
        RewriteKeeps(heap[..], order, k, heap[block].size, Free);
      }
      ghost var g := heap[..][block := heap[block].(size := heap[block].size, flags := Free)];
      heap[block] := heap[block].(flags := Free);
      assert heap[..] == g;
    }

    /** Block `k` takes over its successor, whose descriptor falls free. */
    method Absorb(block: nat, next: nat, ghost k: nat, ghost t: Tiling)
      requires ListOk() && k + 1 < |order| && order[k] == block && order[k + 1] == next && Blocks() == t
      requires t[k].size + t[k + 1].size < WORD
      modifies this`order, heap
      ensures ListOk() && Blocks() == Joined(t, k)
      ensures order[..k + 1] == old(order[..k + 1])
      ensures k >= 1 && old(TableOk()) ==> TableOk()
    {
      SlotHolds(block, k);
      SlotHolds(next, k + 1);
      AbsorbKeeps(heap[..], order, k);
      ghost var g := Absorbed(heap[..], block, next);
      heap[next] := heap[next].(flags := NotPresent);
      heap[block] := heap[block].(size := Wrap(heap[block].size + heap[next].size), next := heap[next].next);
      assert heap[..] == g;
      order := Removed(order, k + 1);
    }

    /** Coalesce the FREE block `k` with a FREE successor. */
    method CoalesceAfter(block: nat, ghost k: nat, ghost t: Tiling)
      requires ListOk() && k < |order| && order[k] == block && Blocks() == t && Sum(t) < WORD
      modifies this`order, heap
      ensures ListOk()
      ensures Blocks() == if k + 1 < |t| && !t[k + 1].used then Joined(t, k) else t
      ensures order[..k + 1] == old(order[..k + 1])
      ensures k >= 1 && old(TableOk()) ==> TableOk()
    {
      NextSlot(k);
      var next := heap[block].next;
      if k + 1 < |order| {
        SlotHolds(next, k + 1);
        PairFits(t, k);
      }
      if next != NULL && heap[next].flags == Free {
        Absorb(block, next, k, t);
      }
    }

    /** Coalesce the FREE block `k` with a FREE predecessor. */
    method CoalesceBehind(block: nat, prev: int, ghost k: nat, ghost t: Tiling)
      requires ListOk() && k < |order| && order[k] == block && prev == SlotBefore(k) && Blocks() == t && Sum(t) < WORD
      modifies this`order, heap
      ensures ListOk()
      ensures Blocks() == if k > 0 && !t[k - 1].used then Joined(t, k - 1) else t
      ensures k >= 1 && old(TableOk()) ==> TableOk()
    {
      if k > 0 {
        PairFits(t, k - 1);
        SlotHolds(prev, k - 1);
        if k == 1 && TableOk() {
          SlotOne();
        }
      }
      if prev != NULL && heap[prev].flags == Free {
        Absorb(prev, block, k - 1, t);
      }
    }

    /** Free block `k` and coalesce it, first with what follows, then with `prev`. */
    method Coalesce(block: nat, prev: int, ghost k: nat, ghost t: Tiling)
      requires ListOk() && Blocks() == t && Sum(t) < WORD
      requires k < |order| && order[k] == block && prev == SlotBefore(k)
      modifies this`order, heap
      ensures ListOk() && Blocks() == FreeAt(t, k)
      ensures k >= 1 && old(TableOk()) ==> TableOk()
    {
      hide Linked, Tabled, BlocksOf;
      Mark(block, k, t);
      MarkSum(t, k);
      CoalesceAfter(block, k, Marked(t, k));
      MergeAfterSum(t, k);
      MergeAfterJoins(t, k);
      FreeAtJoins(t, k);
      assert order[k] == order[..k + 1][k] && (k > 0 ==> order[k - 1] == order[..k + 1][k - 1]);
      CoalesceBehind(block, prev, k, MergeAfter(t, k));
    }

    /** The deallocator's work in one region; `done` says whether it is finished. */
    method FreeIn(ptr: nat) returns (done: bool)
      requires Valid()
      modifies this`order, heap
      ensures ListOk() && Blocks() == Release(old(Blocks()), base, ptr, true)
      ensures done <==> !old(FreeScan(Blocks(), 0, base, ptr, true)).End?
      ensures old(FreeScan(Blocks(), 0, base, ptr, true)) != Hit(0) ==> TableOk()
    {
      hide Linked, Tabled, BlocksOf;
      ghost var t := Blocks();
      var r, block, prev := FindOwner(ptr, t);
      if r.Hit? {
        Coalesce(block, prev, r.k, t);
      }
      done := !r.End?;
    }

    lemma NextSlot(k: nat)
      requires ListOk() && k < |order|
      ensures order[k] < heap.Length
      ensures heap[order[k]].next == if k + 1 < |order| then order[k + 1] else NULL
    {
      assert heap[..][order[k]] == heap[order[k]];
    }

    lemma TableRoom()
      requires Valid()
      ensures Slots() + 32 <= heap.Length && |order| <= Slots()
    {
      SlotOne();
      assert Blocks()[0] == Block(heap[0].size, true);
      StartMonotone(Blocks(), 0, 1);
    }

    lemma SlotHolds(b: nat, k: nat)
      requires ListOk() && k < |order| && order[k] == b
      ensures b < heap.Length && Blocks()[k] == Block(heap[b].size, heap[b].flags == Used)
    {
      assert heap[..][order[k]] == heap[b];
    }

    /** Slot 1 describes block 1. */
    lemma SlotOne()
      requires TableOk()
      ensures heap.Length >= 2 && Blocks()[1] == Block(heap[1].size, heap[1].flags == Used)
      ensures heap[1].flags != NotPresent
    {
      assert heap[..][order[1]] == heap[1];
    }
  }
}
