/** Laws of the load-module format: relocation arithmetic, the interleaved loader
    equals the two-pass one, and relocation lists decode and encode uniquely. */
module LoadFacts {
  import opened Words
  import opened LoadFormat

  // ---------- words in storage ----------

  lemma DigitsWord(b: Bytes, k: nat)
    requires k + 4 <= |b|
    ensures Digits(Word(b, k)) == b[k..k + 4]
  {
    var w: nat, b0: nat, b1: nat, b2: nat, b3: nat := Word(b, k), b[k], b[k + 1], b[k + 2], b[k + 3];
    DivModUnique(w, b0, b1 * 0x1_0000 + b2 * 0x100 + b3, 0x100_0000);
    DivModUnique(w, b0 * 0x100 + b1, b2 * 0x100 + b3, 0x1_0000);
    DivModUnique(b0 * 0x100 + b1, b0, b1, 0x100);
    DivModUnique(w, b0 * 0x1_0000 + b1 * 0x100 + b2, b3, 0x100);
    DivModUnique(b0 * 0x1_0000 + b1 * 0x100 + b2, b0 * 0x100 + b1, b2, 0x100);
    assert b[k..k + 4] == [b[k], b[k + 1], b[k + 2], b[k + 3]];
  }

  /** A word is two halfwords, the high one first. */
  lemma WordIsHalves(b: Bytes, k: nat)
    requires k + 4 <= |b|
    ensures Word(b, k) == (Half(b, k) % 0x1_0000) * 0x1_0000 + Half(b, k + 2) % 0x1_0000
  {
  }

  /** A halfword is written with the high byte first, negative ones in two's complement. */
  lemma HalfWritten(b: Bytes, k: nat, h: int)
    requires k + 2 <= |b| && -0x8000 <= h < 0x8000
    ensures Half(b, k) == h <==> b[k] as int * 0x100 + b[k + 1] == if h < 0 then h + 0x1_0000 else h
  {
  }

  lemma FourDigits(w: nat)
    requires w < WORD
    ensures var d := Digits(w);
            d[0] as int * 0x100_0000 + d[1] as int * 0x1_0000 + d[2] as int * 0x100 + d[3] == w
  {
    var x, y := w / 0x100, w / 0x1_0000;
    assert w == 0x100 * x + w % 0x100;
    assert x / 0x100 == y && x == 0x100 * y + x % 0x100;
    assert y / 0x100 == w / 0x100_0000 && y == 0x100 * (w / 0x100_0000) + y % 0x100;
  }

  lemma WordDigits(a: Bytes, w: nat, z: Bytes)
    requires w < WORD
    ensures Word(a + Digits(w) + z, |a|) == w
  {
    var b, d := a + Digits(w) + z, Digits(w);
    assert b[|a|] == d[0] && b[|a| + 1] == d[1] && b[|a| + 2] == d[2] && b[|a| + 3] == d[3];
    FourDigits(w);
  }

  // ---------- relocation ----------

  lemma RelocateAt(text: Bytes, f: Fix, rlad: int)
    requires Inside(f, |text|)
    ensures var r, k := Relocate(text, f, rlad), Window(f);
            && Word(r, k) == Wrap(Word(text, k) + rlad)
            && r[..k] == text[..k] && r[k + 4..] == text[k + 4..]
  {
    var k := Window(f);
    WordDigits(text[..k], Wrap(Word(text, k) + rlad), text[k + 4..]);
  }

  lemma RelocateAppend(text: Bytes, more: Bytes, f: Fix, rlad: int)
    requires Inside(f, |text|)
    ensures Relocate(text + more, f, rlad) == Relocate(text, f, rlad) + more
  {
    var k := Window(f);
    assert (text + more)[..k] == text[..k];
    assert (text + more)[k + 4..] == text[k + 4..] + more;
    assert Word(text + more, k) == Word(text, k);
  }

  lemma {:induction false} RelocateAllAppend(text: Bytes, more: Bytes, fixes: seq<Fix>, rlad: int)
    requires AllInside(fixes, |text|)
    ensures RelocateAll(text + more, fixes, rlad) == RelocateAll(text, fixes, rlad) + more
  {
    if fixes != [] {
      var init := fixes[..|fixes| - 1];
      RelocateAllAppend(text, more, init, rlad);
      RelocateAppend(RelocateAll(text, init, rlad), more, fixes[|fixes| - 1], rlad);
    }
  }

  // ---------- the interleaved loader ----------

  /** The image as the code builds it: relocating what is there as it goes along. */
  function Interleaved(items: seq<Item>, rlad: int): (r: Bytes)
    requires Placed(items)
    ensures |r| == |Concat(items)|
  {
    if items == [] then []
    else
      var init, last := items[..|items| - 1], items[|items| - 1];
      match last
      case Text(bytes) => Interleaved(init, rlad) + bytes
      case Relocation(f) => Relocate(Interleaved(init, rlad), f, rlad)
  }

  /** Relocating early is relocating at the end. */
  lemma {:induction false} InterleavedIsTwoPass(items: seq<Item>, rlad: int)
    requires Placed(items)
    ensures AllInside(Fixes(items), |Concat(items)|)
    ensures Interleaved(items, rlad) == RelocateAll(Concat(items), Fixes(items), rlad)
  {
    PlacedInside(items);
    if items != [] {
      var init, last := items[..|items| - 1], items[|items| - 1];
      InterleavedIsTwoPass(init, rlad);
      match last
      case Text(bytes) =>
        assert Fixes(items) == Fixes(init);
        RelocateAllAppend(Concat(init), bytes, Fixes(init), rlad);
      case Relocation(f) =>
        assert Fixes(items)[..|Fixes(items)| - 1] == Fixes(init);
        assert Concat(items) == Concat(init);
    }
  }

  // ---------- items one after the other ----------

  lemma {:induction false} ConcatAppend(a: seq<Item>, c: seq<Item>)
    ensures Concat(a + c) == Concat(a) + Concat(c)
  {
    if c == [] {
      assert a + c == a;
    } else {
      var init := c[..|c| - 1];
      assert (a + c)[..|a + c| - 1] == a + init;
      ConcatAppend(a, init);
    }
  }

  /** What is placed was placed all along. */
  lemma {:induction false} PlacedPrefix(a: seq<Item>, c: seq<Item>)
    requires Placed(a + c)
    ensures Placed(a)
  {
    if c == [] {
      assert a + c == a;
    } else {
      assert (a + c)[..|a + c| - 1] == a + c[..|c| - 1];
      PlacedPrefix(a, c[..|c| - 1]);
    }
  }

  /** A relocation list behind what was done so far. */
  lemma {:induction false} RelocationsAppend(a: seq<Item>, fixes: seq<Fix>, rlad: int)
    requires Placed(a)
    ensures Concat(a + Relocations(fixes)) == Concat(a)
    ensures Placed(a + Relocations(fixes)) <==> AllInside(fixes, |Concat(a)|)
    ensures AllInside(fixes, |Concat(a)|) ==>
              Interleaved(a + Relocations(fixes), rlad) == RelocateAll(Interleaved(a, rlad), fixes, rlad)
  {
    var c := Relocations(fixes);
    if fixes == [] {
      assert a + c == a;
    } else {
      var init, f := fixes[..|fixes| - 1], fixes[|fixes| - 1];
      assert (a + c)[..|a + c| - 1] == a + Relocations(init);
      RelocationsAppend(a, init, rlad);
      assert fixes == init + [f];
    }
  }

  lemma TextAppend(a: seq<Item>, bytes: Bytes, rlad: int)
    requires Placed(a)
    ensures Placed(a + [Text(bytes)]) && Concat(a + [Text(bytes)]) == Concat(a) + bytes
    ensures Interleaved(a + [Text(bytes)], rlad) == Interleaved(a, rlad) + bytes
  {
    var c := a + [Text(bytes)];
    assert c[..|c| - 1] == a;
  }

  // ---------- relocating twice ----------

  /** Two windows are the same word or have no byte in common. */
  predicate SameOrApart(f: Fix, g: Fix) {
    Window(f) == Window(g) || Window(f) + 4 <= Window(g) || Window(g) + 4 <= Window(f)
  }

  predicate Tidy(fixes: seq<Fix>) {
    forall f <- fixes, g <- fixes :: SameOrApart(f, g)
  }

  /** What the word at `k` gains: `rlad` for each entry that names it. */
  function Gain(fixes: seq<Fix>, k: int, rlad: int): int {
    if fixes == [] then 0
    else Gain(fixes[..|fixes| - 1], k, rlad) + (if Window(fixes[|fixes| - 1]) == k then rlad else 0)
  }

  lemma {:induction false} GainAdds(fixes: seq<Fix>, k: int, x: int, y: int)
    ensures Gain(fixes, k, x) + Gain(fixes, k, y) == Gain(fixes, k, x + y)
  {
    if fixes != [] {
      GainAdds(fixes[..|fixes| - 1], k, x, y);
    }
  }

  lemma {:induction false} RelocatedWord(text: Bytes, fixes: seq<Fix>, rlad: int, g: Fix)
    requires AllInside(fixes, |text|) && Inside(g, |text|)
    requires forall f <- fixes :: SameOrApart(f, g)
    ensures Word(RelocateAll(text, fixes, rlad), Window(g))
            == Wrap(Word(text, Window(g)) + Gain(fixes, Window(g), rlad))
  {
    hide Word, Digits, Relocate;
    if fixes != [] {
      var init, f := fixes[..|fixes| - 1], fixes[|fixes| - 1];
      RelocatedWord(text, init, rlad, g);
      var mid, k := RelocateAll(text, init, rlad), Window(g);
      RelocateAt(mid, f, rlad);
      assert f in fixes && SameOrApart(f, g);
      if Window(f) == k {
        WrapAdd(Word(text, k) + Gain(init, k, rlad), rlad);
      } else {
        SameWord(mid, Relocate(mid, f, rlad), Window(f), k);
      }
    }
  }

  lemma SameWord(a: Bytes, b: Bytes, w: nat, k: nat)
    requires |a| == |b| && w + 4 <= |a| && k + 4 <= |a|
    requires a[..w] == b[..w] && a[w + 4..] == b[w + 4..]
    requires w + 4 <= k || k + 4 <= w
    ensures Word(a, k) == Word(b, k)
  {
    forall i | k <= i < k + 4
      ensures a[i] == b[i]
    {
      if i < w {
        assert a[..w][i] == b[..w][i];
      } else {
        assert a[w + 4..][i - w - 4] == b[w + 4..][i - w - 4];
      }
    }
  }

  lemma WrapAdd(x: int, y: int)
    ensures Wrap(Wrap(x) + y) == Wrap(x + y)
  {
    assert x == WORD * (x / WORD) + Wrap(x);
  }

  /** A byte in no window keeps its value. */
  lemma {:induction false} UntouchedByte(text: Bytes, fixes: seq<Fix>, rlad: int, i: nat)
    requires AllInside(fixes, |text|) && i < |text|
    requires forall f <- fixes :: i < Window(f) || Window(f) + 4 <= i
    ensures RelocateAll(text, fixes, rlad)[i] == text[i]
  {
    if fixes != [] {
      var init, f := fixes[..|fixes| - 1], fixes[|fixes| - 1];
      UntouchedByte(text, init, rlad, i);
      var mid := RelocateAll(text, init, rlad);
      RelocateAt(mid, f, rlad);
      var r, k := Relocate(mid, f, rlad), Window(f);
      if i < k {
        assert r[..k][i] == mid[..k][i];
      } else {
        assert r[k + 4..][i - k - 4] == mid[k + 4..][i - k - 4];
      }
    }
  }

  /** Relocating by `x` and then by `y` is relocating by `x + y`. */
  lemma RelocateTwice(text: Bytes, fixes: seq<Fix>, x: int, y: int)
    requires AllInside(fixes, |text|) && Tidy(fixes)
    ensures RelocateAll(RelocateAll(text, fixes, x), fixes, y) == RelocateAll(text, fixes, x + y)
  {
    hide RelocateAll, AllInside, Tidy;
    var once := RelocateAll(text, fixes, x);
    var a, c := RelocateAll(once, fixes, y), RelocateAll(text, fixes, x + y);
    forall i | 0 <= i < |text|
      ensures a[i] == c[i]
    {
      TwiceByte(text, fixes, x, y, i);
    }
  }

  lemma TwiceByte(text: Bytes, fixes: seq<Fix>, x: int, y: int, i: nat)
    requires AllInside(fixes, |text|) && Tidy(fixes) && i < |text|
    ensures RelocateAll(RelocateAll(text, fixes, x), fixes, y)[i] == RelocateAll(text, fixes, x + y)[i]
  {
    hide RelocateAll, Word;
    var once := RelocateAll(text, fixes, x);
    if f: Fix :| f in fixes && Window(f) <= i < Window(f) + 4 {
      var a, c, k := RelocateAll(once, fixes, y), RelocateAll(text, fixes, x + y), Window(f);
      assert Inside(f, |text|);
      TwiceInWindow(text, fixes, x, y, f);
      hide Digits;
      DigitsWord(a, k);
      DigitsWord(c, k);
      assert a[k..k + 4][i - k] == c[k..k + 4][i - k];
    } else {
      UntouchedByte(text, fixes, x, i);
      UntouchedByte(once, fixes, y, i);
      UntouchedByte(text, fixes, x + y, i);
    }
  }

  lemma TwiceInWindow(text: Bytes, fixes: seq<Fix>, x: int, y: int, f: Fix)
    requires AllInside(fixes, |text|) && Tidy(fixes) && f in fixes
    ensures Word(RelocateAll(RelocateAll(text, fixes, x), fixes, y), Window(f))
            == Word(RelocateAll(text, fixes, x + y), Window(f))
  {
    hide Word;
    var once, k := RelocateAll(text, fixes, x), Window(f);
    RelocatedWord(text, fixes, x, f);
    RelocatedWord(once, fixes, y, f);
    RelocatedWord(text, fixes, x + y, f);
    WrapAdd(Word(text, k) + Gain(fixes, k, x), Gain(fixes, k, y));
    GainAdds(fixes, k, x, y);
  }

  /** Relocation can be undone. */
  lemma RelocateBack(text: Bytes, fixes: seq<Fix>, rlad: int)
    requires AllInside(fixes, |text|) && Tidy(fixes)
    ensures RelocateAll(RelocateAll(text, fixes, rlad), fixes, -rlad) == text
  {
    RelocateTwice(text, fixes, rlad, -rlad);
    RelocateByZero(text, fixes);
  }

  lemma {:induction false} RelocateByZero(text: Bytes, fixes: seq<Fix>)
    requires AllInside(fixes, |text|)
    ensures RelocateAll(text, fixes, 0) == text
  {
    hide Word, Digits;
    if fixes != [] {
      var f := fixes[|fixes| - 1];
      assert Inside(f, |text|);
      RelocateByZero(text, fixes[..|fixes| - 1]);
      var k := Window(f);
      DigitsWord(text, k);
      assert Wrap(Word(text, k) + 0) == Word(text, k);
      assert text == text[..k] + text[k..k + 4] + text[k + 4..];
    }
  }

  /** Relocating a 3-byte address adds to the word that starts a byte early.  For any
      load address, negative ones included, that byte survives exactly when the 24-bit
      sum, taken as a word, is a 24-bit number. */
  lemma NarrowKeepsByteIff(text: Bytes, f: Fix, rlad: int)
    requires Inside(f, |text|) && !f.wide
    ensures var r := Relocate(text, f, rlad);
            && (r[f.at - 1] == text[f.at - 1] <==> Wrap(Address(text, f.at) + rlad) < 0x100_0000)
            && Address(r, f.at) == (Address(text, f.at) + rlad) % 0x100_0000
  {
    hide Digits, Relocate;
    var k := Window(f);
    var r := Relocate(text, f, rlad);
    RelocateAt(text, f, rlad);
    hide Address, Word;
    WordIsByteAndAddress(text, k);
    WordIsByteAndAddress(r, k);
    NarrowSum(text[k], Address(text, k + 1), rlad, r[k], Address(r, k + 1));
  }

  /** The guard of the code is a signed comparison, so it lets the load address
      0x80000000 pass for a 3-byte entry, and the byte before the address changes. */
  lemma NegativeLoadAddress()
    ensures ReadEntry([0, 0, 0, 0, 8, 0, 0, 1], 0, 8, false, -0x8000_0000) == Got(Fix(1, false), 8, false)
    ensures var text: Bytes := [0, 0, 0, 0]; Relocate(text, Fix(1, false), -0x8000_0000)[0] == 0x80
  {
    assert Address([0, 0, 0, 0, 8, 0, 0, 1], 5) == 1;
  }

  lemma WordIsByteAndAddress(b: Bytes, k: nat)
    requires k + 4 <= |b|
    ensures Word(b, k) == b[k] as int * 0x100_0000 + Address(b, k + 1)
  {
  }

  lemma NarrowSum(h: nat, v: nat, r: int, h': nat, v': nat)
    requires h < 256 && h' < 256 && v < 0x100_0000 && v' < 0x100_0000
    requires h' * 0x100_0000 + v' == Wrap(h * 0x100_0000 + v + r)
    ensures h' == h <==> Wrap(v + r) < 0x100_0000
    ensures v' == (v + r) % 0x100_0000
  {
    var q, w := (h * 0x100_0000 + v + r) / WORD, Wrap(v + r);
    var sum := w + h * 0x100_0000;
    DivModUnique(v + r, (h' - h) + 256 * q, v', 0x100_0000);
    WrapAdd(v + r, h * 0x100_0000);
    assert Wrap(sum) == if sum < WORD then sum else sum - WORD;
  }

  // ---------- relocation lists, written and read ----------

  /** One entry as it stands in the list: a pair of section numbers or nothing, a
      flag and a 3-byte address. */
  datatype Entry = Entry(pair: Bytes, flag: Byte, address: Bytes)

  function Encode(es: seq<Entry>): Bytes {
    if es == [] then [] else es[0].pair + [es[0].flag] + es[0].address + Encode(es[1..])
  }

  /** Flags the loader supports: a positive adjustment of 4 bytes, or of 3 bytes
      when the load address fits in them. */
  predicate Supported(flag: Byte, rlad: int) {
    flag / 2 % 2 == 0 && (flag / 4 % 4 == 3 || (flag / 4 % 4 == 2 && rlad <= 0xffffff))
  }

  /** The pair is left out exactly after an entry whose flag is odd. */
  predicate WellFormed(es: seq<Entry>, cont: bool, rlad: int) {
    es == [] ||
    (&& |es[0].pair| == (if cont then 0 else 4) && |es[0].address| == 3
     && Supported(es[0].flag, rlad)
     && WellFormed(es[1..], es[0].flag % 2 == 1, rlad))
  }

  function Meaning(es: seq<Entry>, cont: bool, rlad: int): seq<Fix>
    requires WellFormed(es, cont, rlad)
  {
    if es == [] then []
    else [Fix(Address(es[0].address, 0), es[0].flag / 4 % 4 == 3)] + Meaning(es[1..], es[0].flag % 2 == 1, rlad)
  }

  /** What is written is read back. */
  lemma {:induction false} RldReads(b: Bytes, r: nat, fin: nat, cont: bool, rlad: int, es: seq<Entry>)
    requires r <= fin <= |b| && WellFormed(es, cont, rlad) && b[r..fin] == Encode(es)
    ensures Rld(b, r, fin, cont, rlad) == RldTrace(Meaning(es, cont, rlad), RldOk)
    decreases |es|
  {
    if es != [] {
      var e := es[0];
      var s := if cont then r else r + 4;
      var here := e.pair + [e.flag] + e.address;
      assert |here| == s + 4 - r;
      assert Encode(es) == here + Encode(es[1..]);
      assert b[r..fin][..|here|] == here;
      assert b[s + 4..fin] == b[r..fin][|here|..] == Encode(es[1..]);
      SliceOfSlice(b, r, fin, s + 4);
      assert b[r..s + 4] == here;
      assert b[s] == b[r..s + 4][s - r] == e.flag;
      assert here[s + 1 - r..] == e.address;
      assert b[s + 1..s + 4] == b[r..s + 4][s + 1 - r..];
      SameAddress(b, s + 1, e.address);
      RldReads(b, s + 4, fin, e.flag % 2 == 1, rlad, es[1..]);
    }
  }

  lemma SliceOfSlice(b: Bytes, r: nat, fin: nat, z: nat)
    requires r <= z <= fin <= |b|
    ensures b[r..fin][..z - r] == b[r..z]
  {
  }

  lemma SameAddress(b: Bytes, k: nat, a: Bytes)
    requires |a| == 3 && k + 3 <= |b| && b[k..k + 3] == a
    ensures Address(b, k) == Address(a, 0)
  {
    assert b[k] == b[k..k + 3][0] && b[k + 1] == b[k..k + 3][1] && b[k + 2] == b[k..k + 3][2];
  }

  /** What is accepted was written that way. */
  lemma {:induction false} RldWritten(b: Bytes, r: nat, fin: nat, cont: bool, rlad: int) returns (es: seq<Entry>)
    requires r <= fin <= |b| && Rld(b, r, fin, cont, rlad).end == RldOk
    ensures WellFormed(es, cont, rlad) && b[r..fin] == Encode(es)
    decreases fin - r
  {
    if r == fin {
      es := [];
    } else {
      hide ReadEntry, Rld, WellFormed, Encode, Supported;
      EntryShape(b, r, fin, cont, rlad);
      var s := if cont then r else r + 4;
      var rest := RldWritten(b, s + 4, fin, b[s] % 2 == 1, rlad);
      es := PutFront(b, r, s, fin, rest, cont, rlad);
    }
  }

  lemma PutFront(b: Bytes, r: nat, s: nat, fin: nat, rest: seq<Entry>, cont: bool, rlad: int) returns (es: seq<Entry>)
    requires s == (if cont then r else r + 4) && s + 4 <= fin <= |b| && Supported(b[s], rlad)
    requires WellFormed(rest, b[s] % 2 == 1, rlad) && b[s + 4..fin] == Encode(rest)
    ensures WellFormed(es, cont, rlad) && b[r..fin] == Encode(es)
  {
    hide WellFormed, Encode, Supported;
    var e := Entry(b[r..s], b[s], b[s + 1..s + 4]);
    es := [e] + rest;
    PutEntry(e, rest, cont, rlad);
    InPieces(b, r, s, fin);
  }

  lemma PutEntry(e: Entry, rest: seq<Entry>, cont: bool, rlad: int)
    requires |e.pair| == (if cont then 0 else 4) && |e.address| == 3 && Supported(e.flag, rlad)
    requires WellFormed(rest, e.flag % 2 == 1, rlad)
    ensures WellFormed([e] + rest, cont, rlad)
    ensures Encode([e] + rest) == e.pair + [e.flag] + e.address + Encode(rest)
  {
    hide Supported;
    assert ([e] + rest)[1..] == rest;
  }

  lemma InPieces(b: Bytes, r: nat, s: nat, fin: nat)
    requires r <= s && s + 4 <= fin <= |b|
    ensures b[r..fin] == b[r..s] + [b[s]] + b[s + 1..s + 4] + b[s + 4..fin]
  {
  }

  lemma EntryShape(b: Bytes, r: nat, fin: nat, cont: bool, rlad: int)
    requires r < fin <= |b| && Rld(b, r, fin, cont, rlad).end == RldOk
    ensures var s := if cont then r else r + 4;
            && s + 4 <= fin && Supported(b[s], rlad)
            && Rld(b, s + 4, fin, b[s] % 2 == 1, rlad).end == RldOk
  {
  }

  /** A list within the buffer is accepted exactly when it is the encoding of
      well-formed entries, and it then means what they mean. */
  lemma RldAcceptsIff(b: Bytes, r: nat, fin: nat, rlad: int)
    requires r <= fin <= |b|
    ensures Rld(b, r, fin, false, rlad).end == RldOk
            <==> exists es :: WellFormed(es, false, rlad) && b[r..fin] == Encode(es)
    ensures forall es :: WellFormed(es, false, rlad) && b[r..fin] == Encode(es) ==>
              Rld(b, r, fin, false, rlad).fixes == Meaning(es, false, rlad)
  {
    if Rld(b, r, fin, false, rlad).end == RldOk {
      var es := RldWritten(b, r, fin, false, rlad);
    }
    forall es | WellFormed(es, false, rlad) && b[r..fin] == Encode(es)
      ensures Rld(b, r, fin, false, rlad) == RldTrace(Meaning(es, false, rlad), RldOk)
    {
      RldReads(b, r, fin, false, rlad, es);
    }
  }

  // ---------- what is refused, and what is not specified ----------

  /** The mark of a program: the bytes 00 ca 6d 0f behind the first word. */
  lemma PEMark(b: Bytes, len: nat)
    requires len <= |b|
    ensures IsPE(b, len) <==> len > 8 && b[4..8] == [0, 0xca, 0x6d, 0x0f]
  {
    if len > 8 {
      DigitsWord(b, 4);
      hide Word;
      if Word(b, 4) != 0xca6d0f {
        FourDigits(Word(b, 4));
      }
    }
  }

  /** A 4-byte entry adds to the word at its address. */
  lemma WideAddsThere(text: Bytes, f: Fix, rlad: int)
    requires f.wide && f.at + 4 <= |text|
    ensures Inside(f, |text|) && Word(Relocate(text, f, rlad), f.at) == Wrap(Word(text, f.at) + rlad)
  {
    RelocateAt(text, f, rlad);
  }

  /** An entry is inside a text of `n` bytes when its address is, and, for 3 bytes, one
      byte stands before it. */
  lemma InsideIff(f: Fix, n: nat)
    ensures Inside(f, n) <==> if f.wide then f.at + 4 <= n else 1 <= f.at && f.at + 3 <= n
  {
  }

  /** Every relocation is placed exactly when each is inside the text before it. */
  lemma {:induction false} PlacedIff(items: seq<Item>)
    ensures Placed(items) <==> forall i :: 0 <= i < |items| && items[i].Relocation? ==>
                                 Inside(items[i].fix, |Concat(items[..i])|)
  {
    hide Inside, Concat;
    if items != [] {
      var n := |items| - 1;
      var init := items[..n];
      PlacedIff(init);
      forall i | 0 <= i < n
        ensures init[i] == items[i] && init[..i] == items[..i]
      {
      }
    }
  }

  /** A list within the buffer never leads out of it. */
  lemma {:induction false} RldStays(b: Bytes, r: nat, fin: int, cont: bool, rlad: int)
    requires fin <= |b|
    ensures Rld(b, r, fin, cont, rlad).end != RldOutside
    decreases fin - r
  {
    if r != fin {
      var e := ReadEntry(b, r, fin, cont, rlad);
      if e.Got? {
        RldStays(b, e.next, fin, e.cont, rlad);
      }
    }
  }

  /** It is refused exactly when it encodes no well-formed entries. */
  lemma RldRefusedIff(b: Bytes, r: nat, fin: nat, rlad: int)
    requires r <= fin <= |b|
    ensures Rld(b, r, fin, false, rlad).end == RldBad
            <==> !exists es :: WellFormed(es, false, rlad) && b[r..fin] == Encode(es)
  {
    hide Rld, WellFormed, Encode;
    RldStays(b, r, fin, false, rlad);
    RldAcceptsIff(b, r, fin, rlad);
  }
}
