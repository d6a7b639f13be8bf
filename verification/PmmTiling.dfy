/** The abstract state of one storage region of `kernel/pmm.c`: the sequence of
    blocks met when the descriptor list is followed from its head.  Block 0 holds
    the descriptor table itself; block 1 is described by slot 1 of that table. */
module PmmTiling {
  import opened Words

  /** `sizeof(struct PmmBlock)`: two words, a byte, padding and a halfword. */
  const DESCRIPTOR: nat := 12

  /** Bytes by which a full descriptor table grows: 32 descriptors. */
  const GROWTH: nat := 32 * DESCRIPTOR

  datatype Block = Block(size: nat, used: bool)
  type Tiling = seq<Block>

  // ---------- sizes, addresses and occupied intervals ----------

  function Sum(t: Tiling): nat {
    if t == [] then 0 else t[0].size + Sum(t[1..])
  }

  /** Address of block `k` of a tiling that begins at `at`. */
  function Start(t: Tiling, at: nat, k: nat): nat
    requires k <= |t|
  {
    at + Sum(t[..k])
  }

  /** Address and size of every USED block of a tiling that begins at `at`. */
  function UsedFrom(t: Tiling, at: nat): set<(nat, nat)> {
    if t == [] then {}
    else (if t[0].used then {(at, t[0].size)} else {}) + UsedFrom(t[1..], at + t[0].size)
  }

  /** The client allocations: every USED block except the descriptor table. */
  function Live(t: Tiling, base: nat): set<(nat, nat)>
    requires |t| > 0
  {
    UsedFrom(t[1..], base + t[0].size)
  }

  function UsedCount(t: Tiling): nat {
    if t == [] then 0 else (if t[0].used then 1 else 0) + UsedCount(t[1..])
  }

  /** Number of descriptors the table has room for. */
  function Capacity(t: Tiling): nat
    requires |t| > 0
  {
    t[0].size / DESCRIPTOR
  }

  // ---------- the invariant ----------

  ghost predicate Alternates(t: Tiling) {
    forall i, j :: 0 <= i < j < |t| && j == i + 1 ==> t[i].used || t[j].used
  }

  /** Only block 1, which table growth eats into, may ever be empty. */
  ghost predicate NonEmpty(t: Tiling) {
    forall k :: 0 <= k < |t| && (k != 1 || t[k].used) ==> t[k].size > 0
  }

  ghost predicate Shaped(t: Tiling, total: nat) {
    && |t| >= 2
    && t[0].used
    && t[0].size % DESCRIPTOR == 0
    && Sum(t) == total
    && Alternates(t)
    && NonEmpty(t)
  }

  ghost predicate Tiled(t: Tiling, total: nat) {
    Shaped(t, total) && |t| <= Capacity(t)
  }

  // ---------- allocation ----------

  /** The acceptance test of the search loop, exactly as the code writes it. */
  predicate Accepts(b: Block, cur: nat, size: nat, align: nat) {
    && !b.used
    && !((align != 0 && b.size < Wrap(size + cur % align)) || b.size < size)
  }

  datatype Found = Found(k: nat, cur: nat)

  function FirstFit(t: Tiling, k: nat, cur: nat, size: nat, align: nat): (r: Option<Found>)
    requires k <= |t|
    ensures r.Some? ==> k <= r.value.k < |t| && Accepts(t[r.value.k], r.value.cur, size, align)
    decreases |t| - k
  {
    if k == |t| then None
    else if Accepts(t[k], cur, size, align) then Some(Found(k, cur))
    else FirstFit(t, k + 1, cur + t[k].size, size, align)
  }

  /** `left_size`: bytes cut off below the object, in unsigned arithmetic. */
  function LeftSize(bytes: nat, cur: nat, size: nat, align: nat): nat {
    if align != 0 then
      var end := Wrap(cur + bytes - size);
      Wrap(end - end % align - cur)
    else
      Wrap(bytes - size)
  }

  function RightSize(bytes: nat, left: nat, size: nat): nat {
    Wrap(Wrap(bytes - left) - size)
  }

  /** The pieces one FREE block is cut into. */
  function Slices(l: nat, s: nat, r: nat): Tiling {
    (if l != 0 then [Block(l, false)] else []) + [Block(s, true)] + (if r != 0 then [Block(r, false)] else [])
  }

  /** The descriptor table takes GROWTH bytes from the block behind it. */
  function Grow(t: Tiling): Tiling
    requires |t| >= 2 && t[1].size >= GROWTH
  {
    t[0 := Block(t[0].size + GROWTH, t[0].used)][1 := Block(t[1].size - GROWTH, t[1].used)]
  }

  function Cut(t: Tiling, k: nat, l: nat, s: nat, r: nat): (t': Tiling)
    requires k < |t|
    ensures |t'| >= |t|
  {
    t[..k] + Slices(l, s, r) + t[k + 1..]
  }

  predicate Growable(t: Tiling)
    requires |t| >= 2
  {
    !t[1].used && t[1].size >= GROWTH
  }

  /** Cut block `k`, growing the table when the descriptors do not suffice;
      None stands for the panic when it cannot grow. */
  function Place(t: Tiling, k: nat, l: nat, s: nat, r: nat): Option<Tiling>
    requires |t| >= 2 && 1 <= k < |t|
  {
    var cut := Cut(t, k, l, s, r);
    if |cut| <= Capacity(t) then Some(cut)
    else if Growable(cut) then Some(Grow(cut))
    else None
  }

  datatype Outcome = Panic | Null | Placed(ptr: nat, t: Tiling)

  function Allocate(t: Tiling, base: nat, size: nat, align: nat): Outcome
    requires |t| >= 2 && t[0].used
  {
    if size == 0 then Panic
    else match FirstFit(t, 0, base, size, align)
      case None => Null
      case Some(f) =>
        var left := LeftSize(t[f.k].size, f.cur, size, align);
        match Place(t, f.k, left, size, RightSize(t[f.k].size, left, size))
        case None => Panic
        case Some(t') => Placed(Wrap(f.cur + left), t')
  }

  // ---------- deallocation ----------

  datatype Verdict = Take | GiveUp | GoOn

  /** What the search loop of the deallocator makes of the block at `cur`.  The
      code uses the closed test; `closed == false` is the half-open test that
      ownership calls for. */
  function Judged(b: Block, cur: nat, ptr: nat, closed: bool): Verdict {
    if !b.used then GoOn
    else if cur <= ptr && (ptr < cur + b.size || (closed && ptr == cur + b.size)) then Take
    else if cur > ptr then GiveUp
    else GoOn
  }

  datatype Search = Hit(k: nat) | Stop | End

  function FreeScan(t: Tiling, k: nat, cur: nat, ptr: nat, closed: bool): (r: Search)
    requires k <= |t|
    ensures r.Hit? ==> k <= r.k < |t| && t[r.k].used
    decreases |t| - k
  {
    if k == |t| then End
    else match Judged(t[k], cur, ptr, closed)
      case Take => Hit(k)
      case GiveUp => Stop
      case GoOn => FreeScan(t, k + 1, cur + t[k].size, ptr, closed)
  }

  function MergeAfter(t: Tiling, k: nat): (t': Tiling)
    requires k < |t|
    ensures |t'| > k && t'[..k] == t[..k] && !t'[k].used
  {
    if k + 1 < |t| && !t[k + 1].used
    then t[..k] + [Block(t[k].size + t[k + 1].size, false)] + t[k + 2..]
    else t[k := Block(t[k].size, false)]
  }

  function MergeBehind(t: Tiling, k: nat): Tiling
    requires k < |t|
  {
    if k > 0 && !t[k - 1].used
    then t[..k - 1] + [Block(t[k - 1].size + t[k].size, false)] + t[k + 1..]
    else t
  }

  /** Mark block `k` FREE and coalesce it with its FREE neighbours. */
  function FreeAt(t: Tiling, k: nat): Tiling
    requires k < |t|
  {
    MergeBehind(MergeAfter(t, k), k)
  }

  function Release(t: Tiling, base: nat, ptr: nat, closed: bool): Tiling {
    match FreeScan(t, 0, base, ptr, closed)
    case Hit(k) => FreeAt(t, k)
    case _ => t
  }

  // ---------- creation ----------

  function TableBytes(size: nat): nat {
    (size / 2048 + 1) * DESCRIPTOR
  }

  function Fresh(size: nat): Tiling
    requires size >= 2048
  {
    [Block(TableBytes(size), true), Block(size - TableBytes(size), false)]
  }
}
