/** ARC4 as `kernel/crypto.c` computes it: key schedule, keystream and XOR. */
module Arc4 {
  import opened Counting
  import opened Words

  /** A byte of the message or of the cipher text, which is only XORed. */
  type Octet = bv8

  /** The cipher state; `S` is a permutation of the bytes. */
  datatype Cipher = Cipher(i: Byte, j: Byte, S: seq<Byte>)

  predicate Permutation(S: seq<Byte>) {
    |S| == 256 && forall a, b :: 0 <= a < b < 256 ==> S[a] != S[b]
  }

  function Swap(S: seq<Byte>, a: Byte, b: Byte): (r: seq<Byte>)
    requires |S| == 256
    ensures |r| == 256
  {
    S[a := S[b]][b := S[a]]
  }

  // ---------- the two loops, as functions ----------

  function Identity(n: nat): (S: seq<Byte>)
    requires n <= 256
    ensures |S| == n && forall k :: 0 <= k < n ==> S[k] == k
  {
    if n == 0 then [] else Identity(n - 1) + [n - 1]
  }

  /** The key, repeated as often as need be. */
  function KeyAt(key: seq<Byte>, k: nat): Byte
    requires |key| > 0
  {
    key[k % |key|]
  }

  /** `j` and `S` after the first `n` rounds of the key schedule. */
  function Schedule(key: seq<Byte>, n: nat): (r: (Byte, seq<Byte>))
    requires |key| > 0 && n <= 256
    ensures |r.1| == 256
  {
    if n == 0 then (0, Identity(256))
    else
      var (j0, S) := Schedule(key, n - 1);
      var j := (j0 + S[n - 1] + KeyAt(key, n - 1)) % 256;
      (j, Swap(S, n - 1, j))
  }

  function Start(key: seq<Byte>): (c: Cipher)
    requires |key| > 0
    ensures |c.S| == 256 && c.i == c.j == 0
  {
    Cipher(0, 0, Schedule(key, 256).1)
  }

  /** One round of the keystream generator. */
  function Step(c: Cipher): (d: Cipher)
    requires |c.S| == 256
    ensures |d.S| == 256
  {
    var i := (c.i + 1) % 256;
    var j := (c.j + c.S[i]) % 256;
    Cipher(i, j, Swap(c.S, i, j))
  }

  /** The round undone. */
  function Unstep(d: Cipher): (c: Cipher)
    requires |d.S| == 256
    ensures |c.S| == 256
  {
    var S := Swap(d.S, d.i, d.j);
    Cipher((d.i + 255) % 256, (d.j + 256 - S[d.i]) % 256, S)
  }

  function Output(c: Cipher): Byte
    requires |c.S| == 256
  {
    c.S[(c.S[c.i] as int + c.S[c.j] as int) % 256]
  }

  function After(c: Cipher, n: nat): (d: Cipher)
    requires |c.S| == 256
    ensures |d.S| == 256
  {
    if n == 0 then c else Step(After(c, n - 1))
  }

  /** Byte `k` of the keystream. */
  function KeyByte(key: seq<Byte>, k: nat): Byte
    requires |key| > 0
  {
    Output(After(Start(key), k + 1))
  }

  function Mixed(a: Octet, k: Byte): Octet {
    a ^ (k as Octet)
  }

  /** The cipher text of a message. */
  function Encode(text: seq<Octet>, key: seq<Byte>): (r: seq<Octet>)
    requires |key| > 0
    ensures |r| == |text|
  {
    seq(|text|, k requires 0 <= k < |text| => Mixed(text[k], KeyByte(key, k)))
  }

  // ---------- the code ----------

  /** The exchange both loops perform. */
  method SwapIn(S: array<Byte>, a: Byte, b: Byte)
    requires S.Length == 256
    modifies S
    ensures S[..] == Swap(old(S[..]), a, b)
  {
    var swp := S[a];
    S[a] := S[b];
    S[b] := swp;
  }

  method Fill() returns (S: array<Byte>)
    ensures fresh(S) && S.Length == 256 && S[..] == Identity(256)
  {
    S := new Byte[256];
    for n := 0 to 256
      invariant forall k :: 0 <= k < n ==> S[k] == k
    {
      S[n] := n;
    }
  }

  /** First part: fill S and run the key schedule over it in place. */
  method KeySchedule(key: array<Byte>) returns (S: array<Byte>)
    requires key.Length > 0
    ensures fresh(S) && S.Length == 256 && S[..] == Schedule(key[..], 256).1
  {
    S := Fill();
    ghost var bytes := key[..];
    var j: Byte := 0;
    for n := 0 to 256
      invariant key[..] == bytes && (j, S[..]) == Schedule(bytes, n)
    {
      ghost var before := S[..];
      assert S[n] == before[n] && key[n % key.Length] == bytes[n % |bytes|];
      j := (j + S[n] + key[n % key.Length]) % 256;
      SwapIn(S, n, j);
      assert Schedule(bytes, n + 1) == (j, Swap(before, n, j));
    }
  }

  /** Second part: the keystream, while S is permuted further in place. */
  method KeyStream(S: array<Byte>, len: nat, ghost c: Cipher) returns (K: array<Byte>)
    requires S.Length == 256 && c == Cipher(0, 0, S[..])
    modifies S
    ensures fresh(K) && K.Length == len
    ensures forall m :: 0 <= m < len ==> K[m] == Output(After(c, m + 1))
  {
    hide Step;
    K := new Byte[len];
    var i: Byte, j: Byte := 0, 0;
    for k := 0 to len
      invariant Cipher(i, j, S[..]) == After(c, k)
      invariant forall m :: 0 <= m < k ==> K[m] == Output(After(c, m + 1))
    {
      i, j := Round(S, i, j);
      ghost var d := After(c, k + 1);
      assert d == Cipher(i, j, S[..]);
      K[k] := S[(S[i] as int + S[j] as int) % 256];
      assert K[k] == Output(d);
    }
  }

  method Round(S: array<Byte>, i0: Byte, j0: Byte) returns (i: Byte, j: Byte)
    requires S.Length == 256
    modifies S
    ensures Cipher(i, j, S[..]) == Step(Cipher(i0, j0, old(S[..])))
  {
    i := (i0 + 1) % 256;
    j := (j0 + S[i]) % 256;
    SwapIn(S, i, j);
  }

  /** The keystream that belongs to a key schedule. */
  method KeyBytes(S: array<Byte>, len: nat, ghost key: seq<Byte>) returns (K: array<Byte>)
    requires |key| > 0 && S.Length == 256 && S[..] == Schedule(key, 256).1
    modifies S
    ensures fresh(K) && K.Length == len
    ensures forall m :: 0 <= m < len ==> K[m] == KeyByte(key, m)
  {
    hide Schedule, After, Output;
    K := KeyStream(S, len, Start(key));
  }

  /** Third part: the keystream XORed into the message. */
  method Mix(text: array<Octet>, K: array<Byte>, ghost key: seq<Byte>) returns (ctext: array<Octet>)
    requires |key| > 0 && K.Length == text.Length
    requires forall m :: 0 <= m < K.Length ==> K[m] == KeyByte(key, m)
    ensures fresh(ctext) && ctext[..] == Encode(text[..], key)
  {
    hide KeyByte, Mixed;
    ctext := new Octet[text.Length];
    for i := 0 to text.Length
      invariant forall m :: 0 <= m < K.Length ==> K[m] == KeyByte(key, m)
      invariant forall k :: 0 <= k < i ==> ctext[k] == Mixed(text[k], KeyByte(key, k))
    {
      ctext[i] := Mixed(text[i], K[i]);
    }
    assert ctext[..] == Encode(text[..], key);
  }

  // ---------- the state stays a permutation ----------

  lemma SwapPermutes(S: seq<Byte>, a: Byte, b: Byte)
    requires Permutation(S)
    ensures Permutation(Swap(S, a, b))
  {
  }

  lemma {:induction false} ScheduleIsPermutation(key: seq<Byte>, n: nat)
    requires |key| > 0 && n <= 256
    ensures Permutation(Schedule(key, n).1)
  {
    if n > 0 {
      ScheduleIsPermutation(key, n - 1);
      SwapPermutes(Schedule(key, n - 1).1, n - 1, Schedule(key, n).0);
    }
  }

  lemma {:induction false} AfterIsPermutation(c: Cipher, n: nat)
    requires Permutation(c.S)
    ensures Permutation(After(c, n).S)
  {
    if n > 0 {
      AfterIsPermutation(c, n - 1);
      var b, d := After(c, n - 1), After(c, n);
      SwapPermutes(b.S, d.i, d.j);
    }
  }

  /** At every point of both loops, for every key, S holds each byte once. */
  lemma EveryByteOnce(key: seq<Byte>, n: nat, b: Byte)
    requires |key| > 0
    ensures Permutation(After(Start(key), n).S)
    ensures b in After(Start(key), n).S
  {
    ScheduleIsPermutation(key, 256);
    AfterIsPermutation(Start(key), n);
    var S := After(Start(key), n).S;
    Pigeonhole(S, 256);
  }

  // ---------- rounds can be undone ----------

  lemma UnstepStep(c: Cipher)
    requires |c.S| == 256
    ensures Unstep(Step(c)) == c
  {
    var d := Step(c);
    SwapTwice(c.S, d.i, d.j);
    hide Swap;
    assert Swap(d.S, d.i, d.j) == c.S;
  }

  lemma SwapTwice(S: seq<Byte>, a: Byte, b: Byte)
    requires |S| == 256
    ensures Swap(Swap(S, a, b), a, b) == S
  {
  }

  lemma StepUnstep(d: Cipher)
    requires |d.S| == 256
    ensures Step(Unstep(d)) == d
  {
    hide Swap;
    var c := Unstep(d);
    SwapTwice(d.S, d.i, d.j);
    CursorsBack(d.i, d.j, c.S[d.i]);
  }

  lemma CursorsBack(i: Byte, j: Byte, s: Byte)
    ensures (i as int + 255) % 256 + 1 == (if i == 0 then 256 else i as int)
    ensures ((j as int + 256 - s as int) % 256 + s as int) % 256 == j
  {
  }

  function Back(d: Cipher, n: nat): (c: Cipher)
    requires |d.S| == 256
    ensures |c.S| == 256
    decreases n
  {
    if n == 0 then d else Back(Unstep(d), n - 1)
  }

  /** Any number of rounds can be undone: runs from different states never meet. */
  lemma {:induction false} BackAfter(c: Cipher, n: nat)
    requires |c.S| == 256
    ensures Back(After(c, n), n) == c
  {
    if n > 0 {
      UnstepStep(After(c, n - 1));
      BackAfter(c, n - 1);
    }
  }

  lemma RunsNeverMeet(c: Cipher, d: Cipher, n: nat)
    requires |c.S| == 256 && |d.S| == 256 && c != d
    ensures After(c, n) != After(d, n)
  {
    BackAfter(c, n);
    BackAfter(d, n);
  }

  // ---------- the short cycles are out of reach ----------

  /** The states that run in short cycles: `j` one ahead of `i`, with a 1 there. */
  predicate Short(c: Cipher)
    requires |c.S| == 256
  {
    c.j == (c.i + 1) % 256 && c.S[c.j] == 1
  }

  /** A round leads into such a state exactly from such a state. */
  lemma ShortIffShort(c: Cipher)
    requires Permutation(c.S)
    ensures Short(Step(c)) <==> Short(c)
  {
  }

  /** The generator never enters one, for any key and any length. */
  lemma {:induction false} NeverShort(key: seq<Byte>, n: nat)
    requires |key| > 0
    ensures !Short(After(Start(key), n))
  {
    if n > 0 {
      NeverShort(key, n - 1);
      ScheduleIsPermutation(key, 256);
      AfterIsPermutation(Start(key), n - 1);
      ShortIffShort(After(Start(key), n - 1));
    }
  }

  // ---------- the cipher ----------

  /** Encoding twice with one key gives the message back. */
  lemma EncodeTwice(text: seq<Octet>, key: seq<Byte>)
    requires |key| > 0
    ensures Encode(Encode(text, key), key) == text
  {
    hide Mixed, KeyByte;
    var once := Encode(text, key);
    forall k | 0 <= k < |text|
      ensures Encode(once, key)[k] == text[k]
    {
      MixedTwice(text[k], KeyByte(key, k));
    }
  }

  lemma MixedTwice(a: Octet, k: Byte)
    ensures Mixed(Mixed(a, k), k) == a
  {
    var pad := k as Octet;
    assert (a ^ pad) ^ pad == a;
  }

  /** Output on a prefix is a prefix of the output. */
  lemma EncodePrefix(text: seq<Octet>, more: seq<Octet>, key: seq<Byte>)
    requires |key| > 0
    ensures Encode(text, key) <= Encode(text + more, key)
  {
    var a, b := Encode(text, key), Encode(text + more, key);
    assert a == b[..|a|];
  }

  /** The key, said `m` times over. */
  function Repeat(key: seq<Byte>, m: nat): (r: seq<Byte>)
    ensures |r| == m * |key|
  {
    if m == 0 then [] else Repeat(key, m - 1) + key
  }

  lemma {:induction false} RepeatAt(key: seq<Byte>, m: nat, k: nat)
    requires |key| > 0 && k < m * |key|
    ensures Repeat(key, m)[k] == key[k % |key|]
  {
    var n := |key|;
    if k < (m - 1) * n {
      RepeatAt(key, m - 1, k);
    } else {
      var r := k - (m - 1) * n;
      assert r < n by { assert m * n == (m - 1) * n + n; }
      DivModUnique(k, m - 1, r, n);
    }
  }

  lemma NextRound(key: seq<Byte>, n: nat, j: Byte, S: seq<Byte>)
    requires |key| > 0 && n < 256 && Schedule(key, n) == (j, S)
    ensures |S| == 256
    ensures var j' := (j as int + S[n] as int + KeyAt(key, n) as int) % 256;
            Schedule(key, n + 1) == (j', Swap(S, n, j'))
  {
    hide Swap, KeyAt;
  }

  /** Two keys agree in their first `n` bytes, repeated as often as need be. */
  predicate AgreeTo(a: seq<Byte>, b: seq<Byte>, n: nat)
    requires |a| > 0 && |b| > 0
  {
    forall k :: 0 <= k < n ==> KeyAt(a, k) == KeyAt(b, k)
  }

  lemma {:induction false} SameSchedule(a: seq<Byte>, b: seq<Byte>, n: nat)
    requires |a| > 0 && |b| > 0 && n <= 256 && AgreeTo(a, b, n)
    ensures Schedule(a, n) == Schedule(b, n)
  {
    hide Swap, KeyAt, Identity;
    if n > 0 {
      SameSchedule(a, b, n - 1);
      assert KeyAt(a, n - 1) == KeyAt(b, n - 1);
      var (j, S) := Schedule(a, n - 1);
      NextRound(a, n - 1, j, S);
      NextRound(b, n - 1, j, S);
      hide Schedule;
    }
  }

  /** Repeating the key changes nothing. */
  lemma ScheduleRepeat(key: seq<Byte>, m: nat, n: nat)
    requires |key| > 0 && m > 0 && n <= 256 && |Repeat(key, m)| > 0
    ensures Schedule(Repeat(key, m), n) == Schedule(key, n)
  {
    hide Schedule, Repeat;
    forall k | 0 <= k < n
      ensures KeyAt(Repeat(key, m), k) == KeyAt(key, k)
    {
      RepeatAt(key, m, k % |Repeat(key, m)|);
      ModMod(k, m, |key|);
    }
    SameSchedule(Repeat(key, m), key, n);
  }

  lemma ModMod(x: nat, m: nat, n: nat)
    requires m > 0 && n > 0 && m * n > 0
    ensures (x % (m * n)) % n == x % n
  {
    var q, y := x / (m * n), x % (m * n);
    var p, r := y / n, y % n;
    assert x == (m * n) * q + y && y == n * p + r;
    Regroup(m, n, q);
    DivModUnique(x, m * q + p, r, n);
  }

  lemma Regroup(m: nat, n: nat, q: nat)
    ensures (m * n) * q == n * (m * q)
  {
  }

  lemma RepeatedKey(text: seq<Octet>, key: seq<Byte>, m: nat)
    requires |key| > 0 && m > 0
    ensures |Repeat(key, m)| > 0 && Encode(text, Repeat(key, m)) == Encode(text, key)
  {
    MulMonotone(|key|, 1, m);
    assert |Repeat(key, m)| == m * |key| >= |key|;
    hide Schedule, Repeat, KeyByte;
    ScheduleRepeat(key, m, 256);
    assert Start(Repeat(key, m)) == Start(key);
    SameStart(text, Repeat(key, m), key);
  }

  lemma SameStart(text: seq<Octet>, a: seq<Byte>, b: seq<Byte>)
    requires |a| > 0 && |b| > 0 && Start(a) == Start(b)
    ensures Encode(text, a) == Encode(text, b)
  {
    hide Start, After, Output;
    forall k | 0 <= k < |text|
      ensures Encode(text, a)[k] == Encode(text, b)[k]
    {
      assert KeyByte(a, k) == KeyByte(b, k);
    }
  }

  // ---------- what is put out ----------

  /** The output is the entry at the sum of the two entries just exchanged, and at no
      other place. */
  lemma OutputPlace(c: Cipher, x: Byte)
    requires Permutation(c.S)
    ensures c.S[x] == Output(c) <==> x == (c.S[c.i] as int + c.S[c.j] as int) % 256
  {
  }

  /** From an S in order the output is the sum of the cursors. */
  lemma OutputInOrder(i: Byte, j: Byte)
    ensures Output(Cipher(i, j, Identity(256))) == (i as int + j as int) % 256
  {
  }

  /** Exchanging two entries at neither cursor exchanges them in the output. */
  lemma OutputExchanged(c: Cipher, p: Byte, q: Byte)
    requires Permutation(c.S) && p != c.i && p != c.j && q != c.i && q != c.j
    ensures var o := Output(c);
            Output(Cipher(c.i, c.j, Swap(c.S, p, q)))
            == if o == c.S[p] then c.S[q] else if o == c.S[q] then c.S[p] else o
  {
  }

  // ---------- what the key does ----------

  /** Round `n` of the key schedule exchanges entry `n` with the one at the new `j`. */
  lemma ScheduleExchanges(key: seq<Byte>, n: nat, x: Byte)
    requires |key| > 0 && n < 256
    ensures var (_, S) := Schedule(key, n); var (j, T) := Schedule(key, n + 1);
            T[x] == if x == n then S[j] else if x == j then S[n] else S[x]
  {
  }

  /** The key can be read off the states of its schedule. */
  lemma KeyReadBack(key: seq<Byte>, n: nat)
    requires |key| > 0 && n < 256
    ensures var (j, S) := Schedule(key, n); var (j', _) := Schedule(key, n + 1);
            (j' as int - j as int - S[n] as int) % 256 == KeyAt(key, n)
  {
    hide Swap, KeyAt, Schedule;
    var (j, S) := Schedule(key, n);
    NextRound(key, n, j, S);
  }

  /** Two keys have the same schedule up to the byte in which they first differ, and
      another `j` right behind it. */
  lemma KeysTellApart(a: seq<Byte>, b: seq<Byte>, n: nat)
    requires |a| > 0 && |b| > 0 && n < 256 && AgreeTo(a, b, n) && KeyAt(a, n) != KeyAt(b, n)
    ensures Schedule(a, n) == Schedule(b, n) && Schedule(a, n + 1).0 != Schedule(b, n + 1).0
  {
    hide Schedule, Swap, KeyAt;
    SameSchedule(a, b, n);
    KeyReadBack(a, n);
    KeyReadBack(b, n);
  }

  // ---------- a known answer ----------

  /** The key 0, 0, 255, 254, ..., 2, for which the key schedule exchanges nothing. */
  function FlatKey(n: nat): (key: seq<Byte>)
    requires n <= 256
    ensures |key| == n && forall k :: 0 <= k < n ==> key[k] == if k < 2 then 0 else 257 - k
  {
    if n == 0 then [] else FlatKey(n - 1) + [if n < 3 then 0 else 258 - n]
  }

  lemma {:induction false} FlatSchedule(key: seq<Byte>, n: nat)
    requires |key| > 0 && n <= 256
    requires forall k :: 0 <= k < 256 ==> KeyAt(key, k) == if k < 2 then 0 else 257 - k
    ensures Schedule(key, n) == (if n == 0 then 0 else n - 1, Identity(256))
  {
    hide Identity, Swap, KeyAt;
    if n > 0 {
      FlatSchedule(key, n - 1);
      var j: Byte := if n == 1 then 0 else n - 2;
      NextRound(key, n - 1, j, Identity(256));
      hide Schedule;
      assert Identity(256)[n - 1] == n - 1;
      assert KeyAt(key, n - 1) == if n < 3 then 0 else 258 - n;
      SwapSame(Identity(256), n - 1);
    }
  }

  lemma FlatByte(k: nat)
    requires k < 256
    ensures KeyAt(FlatKey(256), k) == if k < 2 then 0 else 257 - k
  {
    hide FlatKey;
    assert k % 256 == k;
  }

  lemma SwapSame(S: seq<Byte>, a: Byte)
    requires |S| == 256
    ensures Swap(S, a, a) == S
  {
  }

  /** Its keystream begins 2, 5, 7. */
  lemma KnownAnswer()
    ensures KeyByte(FlatKey(256), 0) == 2 && KeyByte(FlatKey(256), 1) == 5 && KeyByte(FlatKey(256), 2) == 7
  {
    hide Schedule, FlatKey, Identity, KeyAt;
    forall k | 0 <= k < 256
      ensures KeyAt(FlatKey(256), k) == if k < 2 then 0 else 257 - k
    {
      FlatByte(k);
    }
    FlatSchedule(FlatKey(256), 256);
    FromOrder(FlatKey(256));
  }

  lemma FromOrder(key: seq<Byte>)
    requires |key| > 0 && Start(key) == Cipher(0, 0, Identity(256))
    ensures KeyByte(key, 0) == 2 && KeyByte(key, 1) == 5 && KeyByte(key, 2) == 7
  {
    hide Start, Identity, Output, Swap;
    var I, c0 := Identity(256), Start(key);
    SwapSame(I, 1);
    var c1 := Cipher(1, 1, I);
    var c2 := Cipher(2, 3, Swap(I, 2, 3));
    var c3 := Cipher(3, 5, Swap(c2.S, 3, 5));
    FirstSwaps();
    assert After(c0, 1) == Step(After(c0, 0)) == c1;
    assert After(c0, 2) == Step(c1) == c2;
    assert After(c0, 3) == Step(c2) == c3;
  }

  lemma FirstSwaps()
    ensures var I := Identity(256); var S := Swap(I, 2, 3); var T := Swap(S, 3, 5);
            && I[1] == 1 && I[2] == 2 && S[3] == 2
            && Output(Cipher(1, 1, I)) == 2 && Output(Cipher(2, 3, S)) == 5 && Output(Cipher(3, 5, T)) == 7
  {
    hide Identity;
  }

  // ---------- the cipher text ----------

  /** A message of zeroes gives the keystream itself. */
  lemma EncodeZeroes(text: seq<Octet>, key: seq<Byte>, k: nat)
    requires |key| > 0 && k < |text| && text[k] == 0
    ensures Encode(text, key)[k] == KeyByte(key, k) as Octet
  {
    hide KeyByte;
  }

  /** With one key, cipher texts differ in the bits in which the messages do. */
  lemma EncodeDifference(a: seq<Octet>, b: seq<Octet>, key: seq<Byte>, k: nat)
    requires |key| > 0 && k < |a| && k < |b|
    ensures Encode(a, key)[k] ^ Encode(b, key)[k] == a[k] ^ b[k]
  {
    hide KeyByte;
    var pad := KeyByte(key, k) as Octet;
    assert (a[k] ^ pad) ^ (b[k] ^ pad) == a[k] ^ b[k];
  }
}
