/** The load-module format that `programs/loadzero.c` reads (Appendices B and E of
    MVS Program Management: Advanced Facilities, SA22-7644-01), as a parse of an
    immutable file, and the clean two-pass loader: extract the text, relocate it. */
module LoadFormat {
  import opened Words

  type Bytes = seq<Byte>

  /** One thing a module asks for: emit text, or relocate the word behind `at`
      (an address of 4 bytes, or of 3 bytes if not `wide`). */
  datatype Fix = Fix(at: nat, wide: bool)
  datatype Item = Text(bytes: Bytes) | Relocation(fix: Fix)

  // ---------- numbers in storage, most significant byte first ----------

  /** A signed halfword. */
  function Half(b: Bytes, k: nat): (h: int)
    requires k + 2 <= |b|
    ensures -0x8000 <= h < 0x8000
  {
    var u := b[k] as int * 256 + b[k + 1];
    if u >= 0x8000 then u - 0x1_0000 else u
  }

  function Address(b: Bytes, k: nat): (a: nat)
    requires k + 3 <= |b|
    ensures a < 0x100_0000
  {
    b[k] as int * 0x1_0000 + b[k + 1] as int * 0x100 + b[k + 2]
  }

  function Word(b: Bytes, k: nat): (w: nat)
    requires k + 4 <= |b|
    ensures w < WORD
  {
    b[k] as int * 0x100_0000 + b[k + 1] as int * 0x1_0000 + b[k + 2] as int * 0x100 + b[k + 3]
  }

  function Digits(w: nat): (d: Bytes)
    requires w < WORD
    ensures |d| == 4
  {
    [w / 0x100_0000, w / 0x1_0000 % 0x100, w / 0x100 % 0x100, w % 0x100]
  }

  // ---------- relocation lists ----------

  datatype RldEnd = RldOk | RldBad | RldOutside
  datatype RldTrace = RldTrace(fixes: seq<Fix>, end: RldEnd)

  datatype EntryRead = Got(fix: Fix, next: nat, cont: bool) | BadEntry | OutsideEntry

  /** The relocation entry at `r` of a list that ends at `fin`.  A new pair of
      section numbers (4 bytes) precedes it unless `cont`: the entry before said, in
      the low bit of its flag, that its own pair still holds. */
  function ReadEntry(b: Bytes, r: nat, fin: int, cont: bool, rlad: int): (e: EntryRead)
    ensures e.Got? ==> r < e.next <= fin && e.next <= |b|
  {
    var s := if cont then r else r + 4;
    if s >= fin then BadEntry
    else if s >= |b| then OutsideEntry
    else
      var flag := b[s];
      var width := flag / 4 % 4 + 1;
      if flag / 2 % 2 == 1 then BadEntry
      else if width != 4 && width != 3 then BadEntry
      else if width == 3 && rlad > 0xffffff then BadEntry
      else if s + 4 > fin then BadEntry
      else if s + 4 > |b| then OutsideEntry
      else Got(Fix(Address(b, s + 1), width == 4), s + 4, flag % 2 == 1)
  }

  /** A list of relocation entries in bytes `r` to `fin`. */
  function Rld(b: Bytes, r: nat, fin: int, cont: bool, rlad: int): RldTrace
    decreases fin - r
  {
    if r == fin then RldTrace([], RldOk)
    else match ReadEntry(b, r, fin, cont, rlad)
      case BadEntry => RldTrace([], RldBad)
      case OutsideEntry => RldTrace([], RldOutside)
      case Got(fix, next, c) =>
        var rest := Rld(b, next, fin, c, rlad);
        RldTrace([fix] + rest.fixes, rest.end)
  }

  // ---------- sub-records and records ----------

  datatype Verdict = GoOn(t: int) | Done | Broken | Outside
  datatype Chunk = Chunk(items: seq<Item>, verdict: Verdict)

  function Relocations(fixes: seq<Fix>): (items: seq<Item>)
    ensures |items| == |fixes|
  {
    seq(|fixes|, k requires 0 <= k < |fixes| => Relocation(fixes[k]))
  }

  function RldChunk(tr: RldTrace, after: Verdict): Chunk {
    Chunk(Relocations(tr.fixes), match tr.end case RldOk => after case RldBad => Broken case RldOutside => Outside)
  }

  /** The sub-record of `n` bytes at `s`, when the one before was of type `last`:
      types 1, 3 and 13 announce program text. */
  function ReadChunk(b: Bytes, s: nat, n: nat, last: int, rlad: int): Chunk
    requires 1 <= n && s + n <= |b|
  {
    if last == 1 || last == 3 || last == 0x0d then
      Chunk([Text(b[s..s + n])], if last == 0x0d then Done else GoOn(-1))
    else if b[s] == 2 then RldChunk(Rld(b, s + 16, s + n, false, rlad), GoOn(2))
    else if b[s] == 3 then
      if s + 8 > |b| then Chunk([], Outside)
      else RldChunk(Rld(b, s + 16, s + Half(b, s + 6) + 16, false, rlad), GoOn(3))
    else if b[s] == 0x0e then RldChunk(Rld(b, s + 16, s + n, false, rlad), Done)
    else Chunk([], GoOn(b[s]))
  }

  /** How reading a record goes on after a sub-record. */
  datatype Next = Stop(verdict: Verdict) | More(q: nat, left: nat, last: int)

  /** The sub-record at `q` of a record of which `left` bytes remain: its length,
      itself, and, unless the record ends, 10 bytes to skip. */
  function ReadSub(b: Bytes, q: nat, left: nat, last: int, rlad: int): (r: (seq<Item>, Next))
    requires 2 <= left && q + left <= |b|
    ensures r.1.More? ==> 2 <= r.1.left < left && r.1.q + r.1.left == q + left
  {
    var n := Half(b, q);
    if n < 0 then ([], Stop(Outside))
    else if n > left - 2 then ([], Stop(Broken))
    else if n == 0 then ([], Stop(GoOn(last)))
    else
      var c := ReadChunk(b, q + 2, n, last, rlad);
      var rest := left - 2 - n;
      if !c.verdict.GoOn? || rest == 0 then (c.items, Stop(c.verdict))
      else if rest < 12 then (c.items, Stop(Broken))
      else (c.items, More(q + 2 + n + 10, rest - 10, c.verdict.t))
  }

  /** The sub-records of one record, from `q`, where `left` bytes of it remain. */
  function ReadRecord(b: Bytes, q: nat, left: nat, last: int, rlad: int): Chunk
    requires 2 <= left && q + left <= |b|
    decreases left
  {
    var (items, next) := ReadSub(b, q, left, last, rlad);
    match next
    case Stop(v) => Chunk(items, v)
    case More(q', left', last') =>
      var more := ReadRecord(b, q', left', last', rlad);
      Chunk(items + more.items, more.verdict)
  }

  datatype Ending = Good(entry: nat) | Bad | Lost
  datatype Trace = Trace(items: seq<Item>, end: Ending)

  /** How reading the file goes on after a record. */
  datatype Onward = Ended(end: Ending) | Further(p: nat, rem: nat, last: int, entry: nat)

  function AfterRecord(p: nat, l: nat, rem: nat, v: Verdict, entry: nat): Onward
    requires l <= rem
  {
    match v
    case Done => Ended(Good(entry))
    case Broken => Ended(Bad)
    case Outside => Ended(Lost)
    case GoOn(t) => if rem - l == 1 then Ended(Bad) else Further(p + l, rem - l, t, entry)
  }

  /** The record at `p`, where `rem` bytes of the file remain and `rec` records were
      seen before.  The third is the directory record, which gives the entry point;
      from the fourth on, records hold the module. */
  function ReadOne(b: Bytes, p: nat, rem: nat, rec: nat, last: int, entry: nat, rlad: int): (r: (seq<Item>, Onward))
    requires p + rem <= |b|
    ensures r.1.Further? ==> r.1.p + r.1.rem == p + rem && (rec > 2 ==> r.1.rem < rem)
  {
    if p + 2 > |b| then ([], Ended(Lost))
    else
      var l := Half(b, p);
      if l < 0 then ([], Ended(Lost))
      else if l > rem then ([], Ended(Bad))
      else if rec == 2 then
        if l < 292 || Half(b, p + 24) < 32 then ([], Ended(Bad))
        else ([], AfterRecord(p, l, rem, GoOn(last), Address(b, p + 53)))
      else if rec > 2 then
        if l < 16 then ([], Ended(Bad))
        else
          var c := ReadRecord(b, p + 14, l - 14, last, rlad);
          (c.items, AfterRecord(p, l, rem, c.verdict, entry))
      else ([], AfterRecord(p, l, rem, GoOn(last), entry))
  }

  /** The records from `p` on.  There is no stop at the end of the file, but every
      record from the fourth on takes at least 16 bytes of it. */
  function ReadRecords(b: Bytes, p: nat, rem: nat, rec: nat, last: int, entry: nat, rlad: int): Trace
    requires p + rem <= |b|
    decreases if rec < 3 then 3 - rec else 0, rem
  {
    var (items, next) := ReadOne(b, p, rem, rec, last, entry, rlad);
    match next
    case Ended(end) => Trace(items, end)
    case Further(p', rem', last', entry') =>
      var more := ReadRecords(b, p', rem', rec + 1, last', entry', rlad);
      Trace(items + more.items, more.end)
  }

  /** The file begins with a record whose second word is the PE mark. */
  predicate IsPE(b: Bytes, len: nat)
    requires len <= |b|
  {
    len > 8 && Word(b, 4) == 0xca6d0f
  }

  function Parse(b: Bytes, len: nat, rlad: int): Trace
    requires len <= |b|
  {
    ReadRecords(b, 0, len, 0, -1, 0, rlad)
  }

  // ---------- the two passes ----------

  function Concat(items: seq<Item>): Bytes {
    if items == [] then []
    else
      var last := items[|items| - 1];
      Concat(items[..|items| - 1]) + (if last.Text? then last.bytes else [])
  }

  function Fixes(items: seq<Item>): seq<Fix> {
    if items == [] then []
    else
      var last := items[|items| - 1];
      Fixes(items[..|items| - 1]) + (if last.Relocation? then [last.fix] else [])
  }

  /** Where the word to relocate begins: one byte early for a 3-byte address. */
  function Window(f: Fix): int {
    f.at - (if f.wide then 0 else 1)
  }

  predicate Inside(f: Fix, n: nat) {
    0 <= Window(f) && Window(f) + 4 <= n
  }

  /** Add `rlad` to one word, modulo 2^32. */
  function Relocate(text: Bytes, f: Fix, rlad: int): (r: Bytes)
    requires Inside(f, |text|)
    ensures |r| == |text|
  {
    var k := Window(f);
    text[..k] + Digits(Wrap(Word(text, k) + rlad)) + text[k + 4..]
  }

  predicate AllInside(fixes: seq<Fix>, n: nat) {
    forall f <- fixes :: Inside(f, n)
  }

  function RelocateAll(text: Bytes, fixes: seq<Fix>, rlad: int): (r: Bytes)
    requires AllInside(fixes, |text|)
    ensures |r| == |text|
  {
    if fixes == [] then text
    else Relocate(RelocateAll(text, fixes[..|fixes| - 1], rlad), fixes[|fixes| - 1], rlad)
  }

  /** Every relocation falls into text emitted before it. */
  predicate Placed(items: seq<Item>) {
    items == [] ||
    (var init, last := items[..|items| - 1], items[|items| - 1];
     Placed(init) && (last.Relocation? ==> Inside(last.fix, |Concat(init)|)))
  }

  lemma {:induction false} PlacedInside(items: seq<Item>)
    requires Placed(items)
    ensures AllInside(Fixes(items), |Concat(items)|)
  {
    if items != [] {
      PlacedInside(items[..|items| - 1]);
    }
  }

  datatype Load = Loaded(image: Bytes, entry: nat) | Refused | Unspecified

  /** The two-pass loader: parse the whole file, then put the text together, then
      relocate it.  Unspecified: the file has a negative length, a list that leaves
      the buffer, or a relocation outside the text emitted so far. */
  function TwoPass(b: Bytes, len: nat, rlad: int): Load
    requires len <= |b|
  {
    if !IsPE(b, len) then Refused
    else
      var tr := Parse(b, len, rlad);
      if !Placed(tr.items) then Unspecified
      else match tr.end
        case Bad => Refused
        case Lost => Unspecified
        case Good(entry) =>
          PlacedInside(tr.items);
          Loaded(RelocateAll(Concat(tr.items), Fixes(tr.items), rlad), entry)
  }
}
