/** `programs/loadzero.c`: the load module is compacted to the front of the buffer
    it is still being read from, and relocated there, in one pass over it. */
module LoadZero {
  import opened Words
  import opened LoadFormat
  import opened LoadFacts

  /** The buffer `cur` while items `done` of file `b` are in place: the image fills
      the first `upto` bytes, and from `q` on the file is still as it was read. */
  ghost predicate InStep(cur: Bytes, b: Bytes, done: seq<Item>, upto: nat, q: nat, rlad: int) {
    && |cur| == |b| && Placed(done)
    && upto == |Concat(done)| && upto <= q <= |b|
    && cur[..upto] == Interleaved(done, rlad)
    && cur[q..] == b[q..]
  }

  lemma InStepLater(cur: Bytes, b: Bytes, done: seq<Item>, upto: nat, q: nat, rlad: int, z: nat)
    requires InStep(cur, b, done, upto, q, rlad) && q <= z <= |b|
    ensures InStep(cur, b, done, upto, z, rlad)
  {
    assert cur[z..] == cur[q..][z - q..] && b[z..] == b[q..][z - q..];
  }

  /** Reading ahead of the write cursor sees the file. */
  lemma ReadAhead(cur: Bytes, b: Bytes, q: nat, k: nat)
    requires |cur| == |b| && q <= k && q <= |b| && cur[q..] == b[q..]
    ensures k < |b| ==> cur[k] == b[k]
    ensures k + 2 <= |b| ==> Half(cur, k) == Half(b, k)
    ensures k + 3 <= |b| ==> Address(cur, k) == Address(b, k)
  {
    forall i | k <= i < |b|
      ensures cur[i] == b[i]
    {
      assert cur[q..][i - q] == b[q..][i - q];
    }
  }

  // ---------- relocation in place ----------

  /** `*zaploc = *zaploc + rlad`. */
  method Zap(buf: array<Byte>, k: nat, rlad: int)
    requires k + 4 <= buf.Length
    modifies buf
    ensures buf[..] == old(buf[..k]) + Digits(Wrap(Word(old(buf[..]), k) + rlad)) + old(buf[k + 4..])
  {
    var w := Wrap(buf[k] as int * 0x100_0000 + buf[k + 1] as int * 0x1_0000
                  + buf[k + 2] as int * 0x100 + buf[k + 3] + rlad);
    var d := Digits(w);
    buf[k], buf[k + 1], buf[k + 2], buf[k + 3] := d[0], d[1], d[2], d[3];
  }

  /** A relocation inside the emitted text acts on the image alone. */
  lemma ZapInside(cur: Bytes, now: Bytes, b: Bytes, image: Bytes, f: Fix, q: nat, rlad: int)
    requires |cur| == |b| == |now| && |image| <= q <= |b| && cur[..|image|] == image && cur[q..] == b[q..]
    requires Inside(f, |image|)
    requires var k := Window(f); now == cur[..k] + Digits(Wrap(Word(cur, k) + rlad)) + cur[k + 4..]
    ensures now[..|image|] == Relocate(image, f, rlad) && now[q..] == b[q..]
  {
    var more := cur[|image|..];
    assert cur == image + more;
    RelocateAppend(image, more, f, rlad);
    assert now == Relocate(image, f, rlad) + more;
    assert now[q..] == more[q - |image|..] == cur[q..];
  }

  /** The entry at `r` of a relocation list, checked as the code checks it. */
  method ReadEntryIn(buf: array<Byte>, r0: nat, fin: int, cont: bool, rlad: int) returns (e: EntryRead)
    requires cont ==> r0 < fin
    ensures e == ReadEntry(buf[..], r0, fin, cont, rlad)
  {
    var r := r0;
    if !cont {
      r := r + 4;
      if r >= fin {
        return BadEntry;
      }
    }
    if r >= buf.Length {
      return OutsideEntry;
    }
    if buf[r] / 2 % 2 == 1 {
      return BadEntry;
    }
    var ll := buf[r] / 4 % 4;
    ll := ll + 1;
    if ll != 4 && ll != 3 {
      return BadEntry;
    }
    if ll == 3 {
      if rlad > 0xffffff {
        return BadEntry;
      }
    }
    var next := buf[r] % 2 == 1;
    r := r + 1;
    if r + 3 > fin {
      return BadEntry;
    }
    if r + 3 > buf.Length {
      return OutsideEntry;
    }
    var a := AddressIn(buf, r);
    e := Got(Fix(a, ll == 4), r + 3, next);
  }

  lemma SameEntry(cur: Bytes, b: Bytes, q: nat, r: nat, fin: int, cont: bool, rlad: int)
    requires |cur| == |b| && q <= r && q <= |b| && cur[q..] == b[q..]
    ensures ReadEntry(cur, r, fin, cont, rlad) == ReadEntry(b, r, fin, cont, rlad)
  {
    var s := if cont then r else r + 4;
    ReadAhead(cur, b, q, s);
    ReadAhead(cur, b, q, s + 1);
  }

  /** The buffer holds `image`, and from `q` on the file as it was read. */
  ghost predicate Holds(cur: Bytes, b: Bytes, image: Bytes, q: nat) {
    |cur| == |b| && |image| <= q <= |b| && cur[..|image|] == image && cur[q..] == b[q..]
  }

  /** One more relocation, done in the buffer. */
  lemma ZapHolds(cur: Bytes, now: Bytes, b: Bytes, image: Bytes, fixes: seq<Fix>, f: Fix, q: nat, rlad: int)
    requires AllInside(fixes, |image|) && Inside(f, |image|)
    requires Holds(cur, b, RelocateAll(image, fixes, rlad), q) && |now| == |cur|
    requires var k := Window(f); now == cur[..k] + Digits(Wrap(Word(cur, k) + rlad)) + cur[k + 4..]
    ensures AllInside(fixes + [f], |image|) && Holds(now, b, RelocateAll(image, fixes + [f], rlad), q)
  {
    var c := fixes + [f];
    assert c[..|c| - 1] == fixes && c[|c| - 1] == f;
    ZapInside(cur, now, b, RelocateAll(image, fixes, rlad), f, q, rlad);
  }

  /** The list has been read up to `r` and its first relocations, `fixes`, are done; the
      trace of the whole list is `tr`, and all its windows lie in the image. */
  ghost predicate Midway(cur: Bytes, b: Bytes, image: Bytes, q: nat, rlad: int, tr: RldTrace,
                         fixes: seq<Fix>, r: nat, fin: int, cont: bool) {
    && tr == RldTrace(fixes + Rld(b, r, fin, cont, rlad).fixes, Rld(b, r, fin, cont, rlad).end)
    && AllInside(tr.fixes, |image|) && AllInside(fixes, |image|)
    && Holds(cur, b, RelocateAll(image, fixes, rlad), q)
  }

  lemma Outset(cur: Bytes, b: Bytes, image: Bytes, q: nat, rlad: int, r: nat, fin: int)
    ensures var tr := Rld(b, r, fin, false, rlad);
            Midway(cur, b, image, q, rlad, tr, [], r, fin, false)
            <==> Holds(cur, b, image, q) && AllInside(tr.fixes, |image|)
  {
    hide Holds, Rld, Inside;
    var fixes := Rld(b, r, fin, false, rlad).fixes;
    assert [] + fixes == fixes && RelocateAll(image, [], rlad) == image && AllInside([], |image|);
  }

  /** Where the list ends, well or not, the relocations done are all of them. */
  lemma ListEnds(cur: Bytes, b: Bytes, image: Bytes, q: nat, rlad: int, tr: RldTrace,
                 fixes: seq<Fix>, r: nat, fin: int, cont: bool)
    requires Midway(cur, b, image, q, rlad, tr, fixes, r, fin, cont) && q <= r
    requires r == fin || !ReadEntry(cur, r, fin, cont, rlad).Got?
    ensures tr.fixes == fixes && Holds(cur, b, RelocateAll(image, tr.fixes, rlad), q)
    ensures tr.end == if r == fin then RldOk
                      else if ReadEntry(cur, r, fin, cont, rlad) == BadEntry then RldBad else RldOutside
  {
    hide Holds, RelocateAll, AllInside, ReadEntry;
    HoldsEntry(cur, b, RelocateAll(image, fixes, rlad), q, r, fin, cont, rlad);
    assert fixes + [] == fixes;
  }

  /** The next relocation lies in the image. */
  lemma NextInside(cur: Bytes, b: Bytes, image: Bytes, q: nat, rlad: int, tr: RldTrace,
                   fixes: seq<Fix>, r: nat, fin: int, cont: bool)
    requires Midway(cur, b, image, q, rlad, tr, fixes, r, fin, cont) && q <= r && r != fin
    requires ReadEntry(cur, r, fin, cont, rlad).Got?
    ensures var f := ReadEntry(cur, r, fin, cont, rlad).fix;
            Inside(f, |image|) && 0 <= Window(f) && Window(f) + 4 <= |cur|
  {
    hide RelocateAll, ReadEntry, Inside, Window, Holds;
    var e := ReadEntry(cur, r, fin, cont, rlad);
    HoldsEntry(cur, b, RelocateAll(image, fixes, rlad), q, r, fin, cont, rlad);
    assert tr.fixes[|fixes|] == e.fix && e.fix in tr.fixes;
    InsideMeans(e.fix, |image|, cur, b, RelocateAll(image, fixes, rlad), q);
  }

  /** Doing it goes one step further. */
  lemma NextDone(cur: Bytes, now: Bytes, b: Bytes, image: Bytes, q: nat, rlad: int, tr: RldTrace,
                 fixes: seq<Fix>, r: nat, fin: int, cont: bool)
    requires Midway(cur, b, image, q, rlad, tr, fixes, r, fin, cont) && q <= r && r != fin && |now| == |cur|
    requires ReadEntry(cur, r, fin, cont, rlad).Got?
    requires var k := Window(ReadEntry(cur, r, fin, cont, rlad).fix);
             0 <= k && k + 4 <= |cur| && now == cur[..k] + Digits(Wrap(Word(cur, k) + rlad)) + cur[k + 4..]
    ensures var e := ReadEntry(cur, r, fin, cont, rlad);
            Midway(now, b, image, q, rlad, tr, fixes + [e.fix], e.next, fin, e.cont)
  {
    hide RelocateAll, ReadEntry, Inside, Window, Holds, Word, Digits;
    var e := ReadEntry(cur, r, fin, cont, rlad);
    HoldsEntry(cur, b, RelocateAll(image, fixes, rlad), q, r, fin, cont, rlad);
    NextInside(cur, b, image, q, rlad, tr, fixes, r, fin, cont);
    ZapHolds(cur, now, b, image, fixes, e.fix, q, rlad);
    var more := Rld(b, e.next, fin, e.cont, rlad);
    assert fixes + ([e.fix] + more.fixes) == (fixes + [e.fix]) + more.fixes;
  }

  /** `processRLD`, from the list at `rld` of `len` bytes.  While the windows lie in
      the image the outcome is that of reading the list from the file and relocating
      the image; an access outside the buffer ends the model with `RldOutside`. */
  method ProcessRLD(buf: array<Byte>, rlad: int, rld: nat, len: int, ghost b: Bytes, ghost image: Bytes, ghost q: nat)
      returns (status: RldEnd)
    requires q <= rld
    modifies buf
    ensures var tr := Rld(b, rld + 16, rld + len, false, rlad);
            Holds(old(buf[..]), b, image, q) && AllInside(tr.fixes, |image|) ==>
              status == tr.end && Holds(buf[..], b, RelocateAll(image, tr.fixes, rlad), q)
  {
    hide Word, Digits, RelocateAll, Holds, ReadEntry, Inside, Midway, Rld, AllInside;
    var r := rld + 16;
    var fin := rld + len;
    var cont := false;
    ghost var tr := Rld(b, r, fin, false, rlad);
    ghost var fixes: seq<Fix> := [];
    ghost var good := Midway(buf[..], b, image, q, rlad, tr, [], r, fin, false);
    Outset(buf[..], b, image, q, rlad, r, fin);
    while r != fin
      invariant r >= rld + 16 && (cont ==> r <= fin)
      invariant good ==> Midway(buf[..], b, image, q, rlad, tr, fixes, r, fin, cont)
      decreases fin - r
    {
      var e := ReadEntryIn(buf, r, fin, cont, rlad);
      if !e.Got? {
        if good {
          ListEnds(buf[..], b, image, q, rlad, tr, fixes, r, fin, cont);
        }
        return if e == BadEntry then RldBad else RldOutside;
      }
      var k := e.fix.at - (if e.fix.wide then 0 else 1);
      if good {
        NextInside(buf[..], b, image, q, rlad, tr, fixes, r, fin, cont);
      }
      if k < 0 || k + 4 > buf.Length {
        return RldOutside;
      }
      ghost var cur := buf[..];
      Zap(buf, k, rlad);
      if good {
        NextDone(cur, buf[..], b, image, q, rlad, tr, fixes, r, fin, cont);
      }
      fixes := fixes + [e.fix];
      r, cont := e.next, e.cont;
    }
    if good {
      ListEnds(buf[..], b, image, q, rlad, tr, fixes, r, fin, cont);
    }
    status := RldOk;
  }

  lemma HoldsEntry(cur: Bytes, b: Bytes, image: Bytes, q: nat, r: nat, fin: int, cont: bool, rlad: int)
    requires Holds(cur, b, image, q) && q <= r
    ensures ReadEntry(cur, r, fin, cont, rlad) == ReadEntry(b, r, fin, cont, rlad)
  {
    SameEntry(cur, b, q, r, fin, cont, rlad);
  }

  lemma InsideMeans(f: Fix, n: nat, cur: Bytes, b: Bytes, image: Bytes, q: nat)
    requires Inside(f, n) && Holds(cur, b, image, q) && |image| == n
    ensures 0 <= Window(f) && Window(f) + 4 <= |cur|
  {
  }

  // ---------- sub-records ----------

  /** `memmove(upto, q, n)` towards the front. */
  method MoveDown(buf: array<Byte>, upto: nat, q: nat, n: nat)
    requires upto <= q && q + n <= buf.Length
    modifies buf
    ensures buf[..] == old(buf[..upto]) + old(buf[q..q + n]) + old(buf[upto + n..])
  {
    ghost var c := buf[..];
    for i := 0 to n
      invariant buf[..] == c[..upto] + c[q..q + i] + c[upto + i..]
    {
      MoveOne(c, upto, q, i);
      buf[upto + i] := buf[q + i];
    }
  }

  lemma MoveOne(c: Bytes, upto: nat, q: nat, i: nat)
    requires upto <= q && q + i < |c|
    ensures var d := c[..upto] + c[q..q + i] + c[upto + i..];
            d[q + i] == c[q + i] && d[upto + i := c[q + i]] == c[..upto] + c[q..q + i + 1] + c[upto + i + 1..]
  {
    var d, e := c[..upto] + c[q..q + i] + c[upto + i..], c[..upto] + c[q..q + i + 1] + c[upto + i + 1..];
    assert c[q..q + i + 1] == c[q..q + i] + [c[q + i]];
    assert c[upto + i..] == [c[upto + i]] + c[upto + i + 1..];
  }

  /** Text moved to the end of the image leaves the rest of the file unread. */
  lemma MoveStep(cur: Bytes, now: Bytes, b: Bytes, done: seq<Item>, upto: nat, s: nat, n: nat, rlad: int)
    requires InStep(cur, b, done, upto, s, rlad) && s + n <= |b|
    requires now == cur[..upto] + cur[s..s + n] + cur[upto + n..]
    ensures InStep(now, b, done + [Text(b[s..s + n])], upto + n, s + n, rlad)
  {
    TextAppend(done, b[s..s + n], rlad);
    assert cur[s..s + n] == cur[s..][..n] == b[s..][..n] == b[s..s + n];
    assert now[s + n..] == cur[upto + n..][s - upto..] == cur[s + n..];
    assert cur[s + n..] == cur[s..][n..] && b[s + n..] == b[s..][n..];
  }

  /** `*(short *)q`. */
  method HalfIn(buf: array<Byte>, q: nat) returns (h: int)
    requires q + 2 <= buf.Length
    ensures h == Half(buf[..], q)
  {
    h := buf[q] as int * 256 + buf[q + 1];
    if h >= 0x8000 {
      h := h - 0x1_0000;
    }
  }

  /** A relocation list in a sub-record that ends at `z`. */
  method RelocateIn(buf: array<Byte>, s: nat, len: int, z: nat, after: Verdict, rlad: int, upto: nat,
                    ghost b: Bytes, ghost done: seq<Item>)
      returns (v: Verdict)
    requires s <= z <= |b|
    modifies buf
    ensures var c := RldChunk(Rld(b, s + 16, s + len, false, rlad), after);
            InStep(old(buf[..]), b, done, upto, s, rlad) && Placed(done + c.items) ==>
              v == c.verdict && InStep(buf[..], b, done + c.items, upto, z, rlad)
  {
    ghost var cur, tr := buf[..], Rld(b, s + 16, s + len, false, rlad);
    ghost var good := InStep(cur, b, done, upto, s, rlad) && Placed(done + Relocations(tr.fixes));
    ghost var image := if good then Interleaved(done, rlad) else [];
    var end := ProcessRLD(buf, rlad, s, len, b, image, s);
    if good {
      RelocationsAppend(done, tr.fixes, rlad);
      InStepLater(buf[..], b, done + Relocations(tr.fixes), upto, s, rlad, z);
    }
    v := match end case RldOk => after case RldBad => Broken case RldOutside => Outside;
  }

  /** One sub-record of `n` bytes at `s`: the chain of tests on its type. */
  method ReadChunkIn(buf: array<Byte>, s: nat, n: nat, last: int, rlad: int, upto: nat,
                     ghost b: Bytes, ghost done: seq<Item>)
      returns (v: Verdict, now: nat)
    requires 1 <= n && s + n <= buf.Length == |b| && upto <= s
    modifies buf
    ensures upto <= now <= s + n
    ensures var c := ReadChunk(b, s, n, last, rlad);
            InStep(old(buf[..]), b, done, upto, s, rlad) && Placed(done + c.items) ==>
              v == c.verdict && InStep(buf[..], b, done + c.items, now, s + n, rlad)
  {
    hide RldChunk, Rld, InStep, Placed, Half;
    ghost var cur, c := buf[..], ReadChunk(b, s, n, last, rlad);
    ghost var good := InStep(cur, b, done, upto, s, rlad) && Placed(done + c.items);
    if good {
      InStepByte(cur, b, done, upto, s, rlad);
      InStepHalf(cur, b, done, upto, s, rlad, s + 6);
      NothingDone(cur, b, done, upto, s, s + n, rlad);
    }
    var t: int := buf[s];
    now := upto;
    if last == 1 || last == 3 || last == 0x0d {
      MoveDown(buf, upto, s, n);
      now := upto + n;
      if good {
        MoveStep(cur, buf[..], b, done, upto, s, n, rlad);
      }
      v := if last == 0x0d then Done else GoOn(-1);
    } else if t == 2 {
      v := RelocateIn(buf, s, n, s + n, GoOn(2), rlad, upto, b, done);
    } else if t == 3 {
      if s + 8 > buf.Length {
        v := Outside;
      } else {
        var l3 := HalfIn(buf, s + 6);
        l3 := l3 + 16;
        v := RelocateIn(buf, s, l3, s + n, GoOn(3), rlad, upto, b, done);
      }
    } else if t == 0x0e {
      v := RelocateIn(buf, s, n, s + n, Done, rlad, upto, b, done);
    } else {
      v := GoOn(t);
    }
  }

  lemma NothingDone(cur: Bytes, b: Bytes, done: seq<Item>, upto: nat, s: nat, z: nat, rlad: int)
    requires InStep(cur, b, done, upto, s, rlad) && s <= z <= |b|
    ensures done + [] == done && InStep(cur, b, done + [], upto, z, rlad)
  {
    assert done + [] == done;
    InStepLater(cur, b, done, upto, s, rlad, z);
  }

  // ---------- records ----------

  /** One turn of the inner loop. */
  method ReadSubIn(buf: array<Byte>, q0: nat, left0: nat, last: int, rlad: int, upto0: nat,
                   ghost b: Bytes, ghost done: seq<Item>)
      returns (next: Next, upto: nat)
    requires 2 <= left0 && q0 + left0 <= buf.Length == |b| && upto0 <= q0
    modifies buf
    ensures upto0 <= upto <= if next.More? then next.q else q0 + left0
    ensures next.More? ==> 2 <= next.left < left0 && next.q + next.left == q0 + left0
    ensures var s := ReadSub(b, q0, left0, last, rlad);
            InStep(old(buf[..]), b, done, upto0, q0, rlad) && Placed(done + s.0) ==>
              && next == s.1
              && InStep(buf[..], b, done + s.0, upto, if next.More? then next.q else q0 + left0, rlad)
  {
    hide ReadChunk, InStep, Placed;
    var q, left := q0, left0;
    upto := upto0;
    ghost var s := ReadSub(b, q0, left0, last, rlad);
    ghost var good := InStep(buf[..], b, done, upto, q, rlad) && Placed(done + s.0);
    if good {
      InStepHalf(buf[..], b, done, upto, q, rlad, q);
      NothingDone(buf[..], b, done, upto, q, q0 + left0, rlad);
    }
    var n := HalfIn(buf, q);
    left := left - 2;
    if n < 0 {
      return Stop(Outside), upto;
    }
    if n > left {
      return Stop(Broken), upto;
    }
    left := left - n;
    if n == 0 {
      return Stop(GoOn(last)), upto;
    }
    q := q + 2;
    if good {
      InStepLater(buf[..], b, done, upto, q0, rlad, q);
    }
    var v;
    v, upto := ReadChunkIn(buf, q, n, last, rlad, upto, b, done);
    q := q + n;
    if good {
      InStepLater(buf[..], b, done + s.0, upto, q, rlad, q0 + left0);
    }
    if !v.GoOn? || left == 0 {
      next := Stop(v);
    } else if left < 12 {
      next := Stop(Broken);
    } else {
      if good {
        InStepLater(buf[..], b, done + s.0, upto, q, rlad, q + 10);
      }
      next := More(q + 10, left - 10, v.t);
    }
  }

  lemma InStepByte(cur: Bytes, b: Bytes, done: seq<Item>, upto: nat, q: nat, rlad: int)
    requires InStep(cur, b, done, upto, q, rlad) && q < |b|
    ensures |cur| == |b| && cur[q] == b[q]
  {
    ReadAhead(cur, b, q, q);
  }

  lemma InStepHalf(cur: Bytes, b: Bytes, done: seq<Item>, upto: nat, q: nat, rlad: int, k: nat)
    requires InStep(cur, b, done, upto, q, rlad) && q <= k
    ensures |cur| == |b|
    ensures k + 2 <= |b| ==> Half(cur, k) == Half(b, k)
    ensures k + 3 <= |b| ==> Address(cur, k) == Address(b, k)
  {
    ReadAhead(cur, b, q, k);
  }

  /** Items of three stretches of the file, and placement of the first two. */
  lemma Stretches(done: seq<Item>, got: seq<Item>, c: seq<Item>, more: seq<Item>)
    ensures got + (c + more) == (got + c) + more
    ensures (done + got) + c == done + (got + c)
    ensures Placed(done + (got + (c + more))) ==> Placed((done + got) + c)
  {
    assert done + (got + (c + more)) == ((done + got) + c) + more;
    assert got + (c + more) == (got + c) + more;
    assert (done + got) + c == done + (got + c);
    if Placed(done + (got + (c + more))) {
      PlacedPrefix((done + got) + c, more);
    }
  }

  /** The sub-records of one record: the inner loop.  Its head is reached with at
      least two bytes of the record left, and it never leaves the record. */
  method ReadRecordIn(buf: array<Byte>, q0: nat, left0: nat, last0: int, rlad: int, upto0: nat,
                      ghost b: Bytes, ghost done: seq<Item>)
      returns (v: Verdict, upto: nat)
    requires 2 <= left0 && q0 + left0 <= buf.Length == |b| && upto0 <= q0
    modifies buf
    ensures upto0 <= upto <= q0 + left0
    ensures var c := ReadRecord(b, q0, left0, last0, rlad);
            InStep(old(buf[..]), b, done, upto0, q0, rlad) && Placed(done + c.items) ==>
              v == c.verdict && InStep(buf[..], b, done + c.items, upto, q0 + left0, rlad)
  {
    hide InStep, Placed, ReadSub;
    var q, left, last := q0, left0, last0;
    upto := upto0;
    ghost var c := ReadRecord(b, q0, left0, last0, rlad);
    ghost var got: seq<Item> := [];
    ghost var good := InStep(buf[..], b, done, upto, q, rlad) && Placed(done + c.items);
    assert done + [] == done && [] + c.items == c.items;
    while true
      invariant 2 <= left && q + left == q0 + left0 && upto0 <= upto <= q
      invariant good == (InStep(old(buf[..]), b, done, upto0, q0, rlad) && Placed(done + c.items))
      invariant good ==> InStep(buf[..], b, done + got, upto, q, rlad)
      invariant good ==>
                  c == Chunk(got + ReadRecord(b, q, left, last, rlad).items,
                             ReadRecord(b, q, left, last, rlad).verdict)
      decreases left
    {
      ghost var s := ReadSub(b, q, left, last, rlad);
      ghost var more := if s.1.More? then ReadRecord(b, s.1.q, s.1.left, s.1.last, rlad).items else [];
      assert s.0 + [] == s.0;
      Stretches(done, got, s.0, more);
      var next;
      next, upto := ReadSubIn(buf, q, left, last, rlad, upto, b, done + got);
      got := got + s.0;
      assert got + [] == got;
      if next.Stop? {
        return next.verdict, upto;
      }
      q, left, last := next.q, next.left, next.last;
    }
  }

  // ---------- the file ----------

  datatype Status = Success | Failure | Undefined

  /** One turn of the outer loop. */
  method ReadOneIn(buf: array<Byte>, p: nat, rem: nat, rec0: nat, last: int, entry0: nat, rlad: int, upto0: nat,
                   ghost b: Bytes, ghost done: seq<Item>)
      returns (next: Onward, upto: nat)
    requires p + rem <= buf.Length == |b| && upto0 <= p
    modifies buf
    ensures upto0 <= upto <= if next.Further? then next.p else p + rem
    ensures next.Further? ==> next.p + next.rem == p + rem && (rec0 > 2 ==> next.rem < rem)
    ensures var s := ReadOne(b, p, rem, rec0, last, entry0, rlad);
            InStep(old(buf[..]), b, done, upto0, p, rlad) && Placed(done + s.0) ==>
              && next == s.1
              && InStep(buf[..], b, done + s.0, upto, if next.Further? then next.p else p + rem, rlad)
  {
    hide ReadRecord, InStep, Placed, Half, Address;
    var rec, entry, v := rec0 + 1, entry0, GoOn(last);
    upto := upto0;
    ghost var s := ReadOne(b, p, rem, rec0, last, entry0, rlad);
    ghost var good := InStep(buf[..], b, done, upto, p, rlad) && Placed(done + s.0);
    if good {
      InStepHalf(buf[..], b, done, upto, p, rlad, p);
      InStepHalf(buf[..], b, done, upto, p, rlad, p + 24);
      InStepHalf(buf[..], b, done, upto, p, rlad, p + 53);
      NothingDone(buf[..], b, done, upto, p, p + rem, rlad);
    }
    if p + 2 > buf.Length {
      return Ended(Lost), upto;
    }
    var l := HalfIn(buf, p);
    if l < 0 {
      return Ended(Lost), upto;
    }
    if l > rem {
      return Ended(Bad), upto;
    }
    if good {
      NothingDone(buf[..], b, done, upto, p, p + l, rlad);
    }
    if rec == 3 {
      if l < 292 {
        return Ended(Bad), upto;
      }
      var l2 := HalfIn(buf, p + 24);
      if l2 < 32 {
        return Ended(Bad), upto;
      }
      entry := AddressIn(buf, p + 53);
    } else if rec > 3 {
      if l < 4 + 12 {
        return Ended(Bad), upto;
      }
      if good {
        InStepLater(buf[..], b, done, upto, p, rlad, p + 14);
      }
      v, upto := ReadRecordIn(buf, p + 14, l - 14, last, rlad, upto, b, done);
      if good {
        InStepLater(buf[..], b, done + s.0, upto, p + l, rlad, p + rem);
      }
    }
    match v
    case Done => next := Ended(Good(entry));
    case Broken => next := Ended(Bad);
    case Outside => next := Ended(Lost);
    case GoOn(t) => next := if rem - l == 1 then Ended(Bad) else Further(p + l, rem - l, t, entry);
  }

  /** `fixPE`: what it leaves in the buffer is what the two-pass loader makes of the
      file, whenever that is specified; and the module never grows. */
  method FixPE(buf: array<Byte>, len: nat, rlad: int) returns (status: Status, newLen: nat, entry: nat)
    requires len <= buf.Length
    modifies buf
    ensures status == Success ==> newLen <= len
    ensures match TwoPass(old(buf[..]), len, rlad)
            case Loaded(image, e) =>
              status == Success && newLen == |image| && newLen <= buf.Length && buf[..newLen] == image && entry == e
            case Refused => status == Failure
            case Unspecified => true
  {
    hide InStep, Placed, ReadOne, Word;
    ghost var b := buf[..];
    if len <= 8 {
      return Failure, 0, 0;
    }
    var mark := WordIn(buf, 4);
    if mark != 0xca6d0f {
      return Failure, 0, 0;
    }
    var p, rem, rec, last := 0, len, 0, -1;
    var upto := 0;
    entry := 0;
    ghost var tr := Parse(b, len, rlad);
    ghost var got: seq<Item> := [];
    ghost var good := Placed(tr.items);
    StartInStep(b, rlad);
    assert [] + tr.items == tr.items;
    while true
      invariant p + rem == len && upto <= p
      invariant good == Placed(tr.items)
      invariant good ==> InStep(buf[..], b, got, upto, p, rlad)
      invariant good ==> tr == Trace(got + ReadRecords(b, p, rem, rec, last, entry, rlad).items,
                                     ReadRecords(b, p, rem, rec, last, entry, rlad).end)
      decreases if rec < 3 then 3 - rec else 0, rem
    {
      ghost var s := ReadOne(b, p, rem, rec, last, entry, rlad);
      ghost var more := if s.1.Further?
        then ReadRecords(b, s.1.p, s.1.rem, rec + 1, s.1.last, s.1.entry, rlad).items else [];
      assert s.0 + [] == s.0;
      Stretches([], got, s.0, more);
      assert [] + (got + (s.0 + more)) == got + (s.0 + more) && [] + got == got;
      var next;
      next, upto := ReadOneIn(buf, p, rem, rec, last, entry, rlad, upto, b, got);
      got := got + s.0;
      if next.Ended? {
        assert good ==> tr == Trace(got, next.end);
        if next.end.Good? {
          if good {
            InStepImage(buf[..], b, got, upto, len, rlad);
          }
          return Success, upto, next.end.entry;
        }
        return if next.end == Bad then Failure else Undefined, 0, 0;
      }
      rec := rec + 1;
      p, rem, last, entry := next.p, next.rem, next.last, next.entry;
    }
  }

  /** Three bytes copied to the low end of an `int`. */
  method AddressIn(buf: array<Byte>, k: nat) returns (a: nat)
    requires k + 3 <= buf.Length
    ensures a == Address(buf[..], k)
  {
    a := buf[k] as int * 0x1_0000 + buf[k + 1] as int * 0x100 + buf[k + 2];
  }

  method WordIn(buf: array<Byte>, k: nat) returns (w: nat)
    requires k + 4 <= buf.Length
    ensures w == Word(buf[..], k)
  {
    w := buf[k] as int * 0x100_0000 + buf[k + 1] as int * 0x1_0000 + buf[k + 2] as int * 0x100 + buf[k + 3];
  }

  lemma StartInStep(b: Bytes, rlad: int)
    ensures InStep(b, b, [], 0, 0, rlad)
  {
  }

  /** At the end, the image in the buffer is the relocated text. */
  lemma InStepImage(cur: Bytes, b: Bytes, done: seq<Item>, upto: nat, q: nat, rlad: int)
    requires InStep(cur, b, done, upto, q, rlad)
    ensures AllInside(Fixes(done), |Concat(done)|) && upto <= |cur|
    ensures cur[..upto] == RelocateAll(Concat(done), Fixes(done), rlad)
  {
    InterleavedIsTwoPass(done, rlad);
  }
}
