/** Numbers as text: the printers `kernel/printf.c` generates with its
    NUMBER_TO_STRING macro, the parser `kernel/memory.c` offers, and how far the
    two undo each other.  Text is in ASCII. */
module Numbers {
  import opened Words

  const INT_MIN: int := -0x8000_0000
  const NUMBUF: nat := 24

  predicate IsInt(v: int) {
    INT_MIN <= v < -INT_MIN
  }

  /** Signed 32-bit result of an unbounded computation. */
  function ToInt(x: int): (v: int)
    ensures IsInt(v)
  {
    var w := Wrap(x);
    if w >= 0x8000_0000 then w - WORD else w
  }

  // ---------- the digits of a number ----------

  function DigitChar(d: nat): char
    requires d < 36
  {
    if d >= 10 then 'A' + (d - 10) as char else '0' + d as char
  }

  function Div(v: nat, base: nat): (q: nat)
    requires 2 <= base
    ensures v > 0 ==> q < v
  {
    MulMonotone(v / base, 2, base);
    v / base
  }

  function Mod(v: nat, base: nat): (r: nat)
    requires 2 <= base
    ensures r < base
  {
    v % base
  }

  /** Most significant digit first; nothing for zero. */
  function Digits(v: nat, base: nat): (s: string)
    requires 2 <= base <= 36
  {
    if v == 0 then "" else Digits(Div(v, base), base) + [DigitChar(Mod(v, base))]
  }

  /** The same with every digit counted down from '0': what a value that stays
      negative is printed as. */
  function FallenDigits(v: nat, base: nat): (s: string)
    requires 2 <= base <= 36
    ensures |s| == |Digits(v, base)|
  {
    if v == 0 then "" else FallenDigits(Div(v, base), base) + ['0' - Mod(v, base) as char]
  }

  /** What is printed; `signed` is the macro's own parameter.  Negating the least
      signed value leaves it as it is. */
  function Printed(v: int, base: nat, signed: bool): string
    requires 2 <= base <= 36 && (signed || v >= 0)
  {
    if v == 0 then "0"
    else if !signed || v > 0 then Digits(v, base)
    else if v == INT_MIN then "-" + FallenDigits(-v, base)
    else "-" + Digits(-v, base)
  }

  /** C division and remainder truncate towards zero. */
  function Quot(a: int, b: nat): int
    requires b >= 2
  {
    if a >= 0 then Div(a, b) else 0 - Div(-a, b) as int
  }

  function Rem(a: int, b: nat): int
    requires b >= 2
  {
    if a >= 0 then Mod(a, b) else 0 - Mod(-a, b) as int
  }

  function Abs(a: int): nat {
    if a < 0 then -a else a
  }

  function DigitOf(v: int, base: nat): char
    requires 2 <= base <= 36
  {
    var rem := Rem(v, base);
    if rem >= 10 then 'A' + (rem - 10) as char
    else if rem >= 0 then '0' + rem as char
    else '0' - (-rem) as char
  }

  /** The digit loop's output for any value, negative ones included. */
  function LoopDigits(v: int, base: nat): string
    requires 2 <= base <= 36
  {
    if v < 0 then FallenDigits(-v, base) else Digits(v, base)
  }

  /** The digit loop: lowest digit first, into a buffer of 24. */
  method FillDigits(v: int, base: nat) returns (numbuf: array<char>, j: nat)
    requires 2 <= base <= 36 && |Digits(Abs(v), base)| <= NUMBUF
    ensures fresh(numbuf) && numbuf.Length == NUMBUF && j == |LoopDigits(v, base)| <= NUMBUF
    ensures forall i :: 0 <= i < j ==> LoopDigits(v, base)[i] == numbuf[j - 1 - i]
  {
    numbuf := new char[NUMBUF](i => '\0');
    j := 0;
    var val := v;
    ghost var all := LoopDigits(v, base);
    while val != 0
      invariant |LoopDigits(val, base)| + j == |all| <= NUMBUF
      invariant all[..|LoopDigits(val, base)|] == LoopDigits(val, base)
      invariant forall i :: 0 <= i < j ==> all[|all| - 1 - i] == numbuf[i]
      decreases Abs(val)
    {
      LoopStep(val, base);
      numbuf[j] := DigitOf(val, base);
      val := Quot(val, base);
      j := j + 1;
    }
  }

  lemma LoopStep(v: int, base: nat)
    requires 2 <= base <= 36 && v != 0
    ensures LoopDigits(v, base) == LoopDigits(Quot(v, base), base) + [DigitOf(v, base)]
    ensures Abs(Quot(v, base)) < Abs(v)
  {
    hide Div, Mod;
  }

  lemma DivFacts(u: nat, base: nat)
    requires base >= 2
    ensures u == base * Div(u, base) + Mod(u, base)
    ensures Div(u, base) == 0 ==> Mod(u, base) == u
  {
  }

  /** A printer made by NUMBER_TO_STRING: `itoa`, `litoa` (signed), `ltoa`,
      `uptrtoa`, `usizetoa` (unsigned).  It writes the text and a NUL. */
  method NumberToString(v: int, str: array<char>, base: nat, signed: bool)
    requires 2 <= base <= 36 && (if signed then IsInt(v) else 0 <= v < WORD)
    requires |Digits(Abs(v), base)| <= NUMBUF
    requires |Printed(v, base, signed)| < str.Length
    modifies str
    ensures var p := Printed(v, base, signed);
            str[..|p| + 1] == p + ['\0'] && str[|p| + 1..] == old(str[|p| + 1..])
  {
    if v == 0 {
      WriteZero(str);
      return;
    }
    hide Digits, FallenDigits, Printed, LoopDigits;
    ghost var was := str[..];
    var at, val := 0, v;
    if signed && val < 0 {
      str[at] := '-';
      at := at + 1;
      val := ToInt(-val);
    }
    ghost var sign := if signed && v < 0 then "-" else "";
    ghost var d := LoopDigits(val, base);
    PrintedParts(v, base, signed, val);
    assert str[..at] == sign && str[at..] == was[at..];
    var numbuf, j := FillDigits(val, base);
    ghost var now := str[..];
    WriteBack(numbuf, j, str, at, d);
    Assembled(str[..], now, was, sign, d);
  }

  /** `KeCopyString(&str[0], "0")`. */
  method WriteZero(str: array<char>)
    requires str.Length >= 2
    modifies str
    ensures str[..2] == "0" + ['\0'] && str[2..] == old(str[2..])
  {
    str[0], str[1] := '0', '\0';
  }

  /** Sign, digits and NUL, and the rest of the string as it was. */
  lemma Assembled(c: string, now: string, was: string, sign: string, d: string)
    requires |c| == |now| == |was| && |sign| + |d| < |c|
    requires now[..|sign|] == sign && now[|sign|..] == was[|sign|..]
    requires c[..|sign|] == now[..|sign|] && c[|sign|..|sign| + |d|] == d && c[|sign| + |d|] == '\0'
    requires c[|sign| + |d| + 1..] == now[|sign| + |d| + 1..]
    ensures var p := sign + d; c[..|p| + 1] == p + ['\0'] && c[|p| + 1..] == was[|p| + 1..]
  {
    var m, n := |sign|, |sign| + |d|;
    assert c[..n + 1] == c[..m] + c[m..n] + [c[n]];
    assert now[n + 1..] == now[m..][n + 1 - m..] && was[n + 1..] == was[m..][n + 1 - m..];
  }

  /** What is printed is a sign, if any, and the loop's digits. */
  lemma PrintedParts(v: int, base: nat, signed: bool, val: int)
    requires 2 <= base <= 36 && v != 0 && (if signed then IsInt(v) else 0 <= v < WORD)
    requires val == if signed && v < 0 then ToInt(-v) else v
    ensures Abs(val) == Abs(v)
    ensures Printed(v, base, signed) == (if signed && v < 0 then "-" else "") + LoopDigits(val, base)
  {
    hide Div, Mod, Digits, FallenDigits;
  }

  /** Copy the digits to the string in reverse and terminate it. */
  method WriteBack(numbuf: array<char>, j: nat, str: array<char>, at: nat, ghost d: string)
    requires j == |d| <= numbuf.Length && at + j < str.Length && numbuf != str
    requires forall i :: 0 <= i < j ==> d[i] == numbuf[j - 1 - i]
    modifies str
    ensures str[..at] == old(str[..at]) && str[at..at + j] == d && str[at + j] == '\0'
    ensures str[at + j + 1..] == old(str[at + j + 1..])
  {
    for i := 0 to j
      invariant forall k :: 0 <= k < at ==> str[k] == old(str[k])
      invariant forall k :: 0 <= k < i ==> str[at + k] == d[k]
      invariant forall k :: at + i <= k < str.Length ==> str[k] == old(str[k])
    {
      str[at + i] := numbuf[j - 1 - i];
    }
    str[at + j] := '\0';
  }

  // ---------- the digit buffer ----------

  function Power(b: nat, e: nat): nat {
    if e == 0 then 1 else b * Power(b, e - 1)
  }

  /** A number below base^n has at most n digits, and no other number has. */
  lemma {:induction false} DigitCount(v: nat, base: nat, n: nat)
    requires 2 <= base <= 36
    ensures |Digits(v, base)| <= n <==> v < Power(base, n)
  {
    hide Div, Mod;
    if n > 0 {
      if v == 0 {
        PowerPositive(base, n);
      } else {
        DigitCount(Div(v, base), base, n - 1);
        DivBelow(v, base, Power(base, n - 1));
      }
    }
  }

  lemma DivBelow(v: nat, base: nat, p: nat)
    requires base >= 2
    ensures Div(v, base) < p <==> v < base * p
  {
    hide Div, Mod;
    DivFacts(v, base);
    var q := Div(v, base);
    if q < p {
      MulMonotone(base, q + 1, p);
    } else {
      MulMonotone(base, p, q);
    }
  }

  lemma {:induction false} PowerPositive(b: nat, e: nat)
    requires b > 0
    ensures Power(b, e) > 0
  {
    if e > 0 {
      PowerPositive(b, e - 1);
      MulMonotone(b, 1, Power(b, e - 1));
    }
  }

  lemma {:induction false} PowerMonotone(a: nat, b: nat, e: nat)
    requires a <= b
    ensures Power(a, e) <= Power(b, e)
  {
    if e > 0 {
      PowerMonotone(a, b, e - 1);
      MulMonotone(a, Power(a, e - 1), Power(b, e - 1));
      MulMonotone(Power(b, e - 1), a, b);
    }
  }

  /** The buffer holds the digits of every 32-bit number exactly from base 3 up. */
  lemma BufferIsEnoughIff(base: nat)
    requires 2 <= base <= 36
    ensures (forall v: nat :: v < WORD ==> |Digits(v, base)| <= NUMBUF) <==> base >= 3
  {
    if base >= 3 {
      PowerMonotone(3, base, NUMBUF);
      ThreeToThe24();
      forall v: nat | v < WORD
        ensures |Digits(v, base)| <= NUMBUF
      {
        DigitCount(v, base, NUMBUF);
      }
    } else {
      TwoToThe24();
      DigitCount(0x100_0000, 2, NUMBUF);
    }
  }

  /** In base 2 it holds the digits of exactly the numbers of 24 bits. */
  lemma BinaryFitsIff(v: nat)
    ensures |Digits(v, 2)| <= NUMBUF <==> v < 0x100_0000
  {
    TwoToThe24();
    DigitCount(v, 2, NUMBUF);
  }

  lemma ThreeToThe24()
    ensures Power(3, 24) > WORD
  {
    assert Power(3, 4) == 81;
    assert Power(3, 8) == 6561;
    assert Power(3, 12) == 531441;
    assert Power(3, 16) == 43046721;
    assert Power(3, 20) == 3486784401;
    assert Power(3, 24) == 282429536481;
  }

  lemma TwoToThe24()
    ensures Power(2, 24) == 0x100_0000
  {
    assert Power(2, 6) == 64;
    assert Power(2, 12) == 4096;
    assert Power(2, 18) == 262144;
  }

  // ---------- canonical and injective ----------

  function CharDigit(c: char): nat {
    if '0' <= c <= '9' then (c - '0') as nat else if 'A' <= c <= 'Z' then (c - 'A') as nat + 10 else 0
  }

  /** The number a row of digits stands for. */
  function Value(s: string, base: nat): nat {
    if s == "" then 0 else Value(s[..|s| - 1], base) * base + CharDigit(s[|s| - 1])
  }

  lemma CharDigitUndoes(d: nat)
    requires d < 36
    ensures CharDigit(DigitChar(d)) == d
    ensures '0' <= DigitChar(d) <= '9' <==> d < 10
    ensures DigitChar(d) == '0' <==> d == 0
  {
  }

  lemma {:induction false} DigitsValue(v: nat, base: nat)
    requires 2 <= base <= 36
    ensures Value(Digits(v, base), base) == v
    ensures v > 0 ==> Digits(v, base) != "" && Digits(v, base)[0] != '0'
  {
    hide Div, Mod;
    if v > 0 {
      var s, q, r := Digits(v, base), Div(v, base), Mod(v, base);
      DivFacts(v, base);
      DigitsValue(q, base);
      CharDigitUndoes(r);
      assert s[..|s| - 1] == Digits(q, base) && s[|s| - 1] == DigitChar(r);
      Commute(q, base);
    }
  }

  lemma Commute(x: nat, y: nat)
    ensures x * y == y * x
  {
  }

  /** The text behind the sign. */
  function Magnitude(s: string): string {
    if s != "" && s[0] == '-' then s[1..] else s
  }

  lemma {:induction false} FallenFirst(v: nat, base: nat)
    requires v > 0 && 2 <= base <= 36
    ensures FallenDigits(v, base) != "" && FallenDigits(v, base)[0] < '0'
  {
    hide Div, Mod;
    DivFacts(v, base);
    if Div(v, base) > 0 {
      FallenFirst(Div(v, base), base);
    }
  }

  /** The first characters of what the printers make: no sign for numbers that are not
      negative, and behind the sign a digit, except for the least `int`. */
  lemma PrintedStart(v: int, base: nat, signed: bool)
    requires 2 <= base <= 36 && (if signed then IsInt(v) else v >= 0)
    ensures var p := Printed(v, base, signed);
            && p != "" && (p[0] == '-' <==> v < 0) && Magnitude(p) != ""
            && (v != INT_MIN ==> Value(Magnitude(p), base) == Abs(v))
            && (v != 0 ==> Magnitude(p)[0] != '0') && (Magnitude(p)[0] < '0' <==> v == INT_MIN)
  {
    hide Div, Mod;
    DigitsValue(Abs(v), base);
    DigitsFirst(Abs(v), base);
    if v == INT_MIN {
      FallenFirst(-v, base);
      hide FallenDigits;
      assert Magnitude(Printed(v, base, signed)) == FallenDigits(-v, base);
    } else if v < 0 {
      hide Digits;
      assert Magnitude(Printed(v, base, signed)) == Digits(-v, base);
    } else {
      assert Value("0", base) == 0 by {
        assert "0"[..0] == "";
      }
    }
  }

  lemma {:induction false} DigitsFirst(v: nat, base: nat)
    requires 2 <= base <= 36
    ensures v > 0 ==> Digits(v, base) != "" && Digits(v, base)[0] >= '0'
  {
    hide Div, Mod;
    if v > 0 {
      DivFacts(v, base);
      DigitsFirst(Div(v, base), base);
    }
  }

  /** Printed numbers, signed or not, have no leading zero, and different numbers
      print differently, the least `int` included. */
  lemma PrintedIsCanonical(v: int, w: int, base: nat, signed: bool)
    requires 2 <= base <= 36
    requires if signed then IsInt(v) && IsInt(w) else v >= 0 && w >= 0
    ensures v != 0 ==> Magnitude(Printed(v, base, signed)) != "" && Magnitude(Printed(v, base, signed))[0] != '0'
    ensures Printed(v, base, signed) == Printed(w, base, signed) ==> v == w
  {
    hide Printed;
    PrintedStart(v, base, signed);
    PrintedStart(w, base, signed);
  }

  // ---------- the parser ----------

  /** How many leading characters of `s` from `i` are in `accept`. */
  function Span(s: string, i: nat, accept: string): (n: nat)
    requires i <= |s|
    ensures i + n <= |s|
    decreases |s| - i
  {
    if i < |s| && s[i] in accept then 1 + Span(s, i + 1, accept) else 0
  }

  /** Fold the decimal digits at `i` into `num`, in 32-bit arithmetic. */
  function Fold(s: string, i: nat, num: int): int
    requires i <= |s|
    decreases |s| - i
  {
    if i < |s| && '0' <= s[i] <= '9' then Fold(s, i + 1, ToInt(ToInt(num * 10) + (s[i] - '0') as int)) else num
  }

  function Converted(s: string): int {
    var i := Span(s, 0, " \t");
    if At(s, i) == '-' then ToInt(-Fold(s, i + 1, 0)) else Fold(s, i, 0)
  }

  /** `KeSpanString`.  The text is what precedes the terminating NUL. */
  method KeSpanString(s: string, from: nat, accept: string) returns (spn: nat)
    requires from <= |s|
    ensures spn == Span(s, from, accept)
  {
    spn := 0;
    var at := from;
    while at < |s|
      invariant from <= at <= |s| && spn == at - from
      invariant Span(s, from, accept) == spn + Span(s, at, accept)
    {
      var isMatch := false;
      for i := 0 to |accept|
        invariant !isMatch && s[at] !in accept[..i]
      {
        if s[at] != accept[i] {
          continue;
        }
        isMatch := true;
        spn := spn + 1;
        break;
      }
      if !isMatch {
        return;
      }
      at := at + 1;
    }
  }

  /** `KeConvertStringToInt`. */
  method KeConvertStringToInt(s: string) returns (num: int)
    ensures num == Converted(s)
  {
    var isNeg := false;
    num := 0;
    var at := KeSpanString(s, 0, " \t");
    if At(s, at) == '-' {
      isNeg := true;
      at := at + 1;
    }
    ghost var start := at;
    while at < |s| && '0' <= s[at] <= '9'
      invariant start <= at <= |s|
      invariant Fold(s, start, 0) == Fold(s, at, num)
    {
      num := ToInt(num * 10);
      num := ToInt(num + (s[at] - '0') as int);
      at := at + 1;
    }
    if isNeg {
      num := ToInt(-num);
    }
  }

  // ---------- round trip ----------

  predicate AllDecimal(s: string) {
    forall c <- s :: '0' <= c <= '9'
  }

  lemma {:induction false} DigitsDecimal(v: nat)
    ensures AllDecimal(Digits(v, 10))
  {
    if v > 0 {
      DigitsDecimal(Div(v, 10));
      CharDigitUndoes(Mod(v, 10));
    }
  }

  /** Modulo 2^32 the digits behind `pre` fold to the value they stand for. */
  lemma {:induction false} FoldValue(pre: string, s: string, k: nat)
    requires AllDecimal(s) && k <= |s|
    ensures Fold(pre + s, |pre| + k, ToInt(Value(s[..k], 10))) == ToInt(Value(s, 10))
    decreases |s| - k
  {
    if k == |s| {
      assert s[..k] == s;
    } else {
      var num := Value(s[..k], 10);
      assert s[..k + 1][..k] == s[..k];
      assert (pre + s)[|pre| + k] == s[k];
      assert s[k] in s;
      var d := (s[k] - '0') as int;
      ToIntStep(num, d);
      FoldValue(pre, s, k + 1);
    }
  }

  lemma ToIntStep(num: int, d: int)
    ensures ToInt(ToInt(ToInt(num) * 10) + d) == ToInt(num * 10 + d)
  {
    var a := ToInt(num);
    ToIntCongruent(num);
    var q :| a == num + WORD * q;
    ToIntCongruent(a * 10);
    var p :| ToInt(a * 10) == a * 10 + WORD * p;
    assert ToInt(a * 10) + d == num * 10 + d + WORD * (10 * q + p);
    ToIntShift(num * 10 + d, 10 * q + p);
  }

  lemma ToIntCongruent(x: int)
    ensures exists q :: ToInt(x) == x + WORD * q
  {
    var k := x / WORD;
    assert x == WORD * k + Wrap(x);
    assert ToInt(x) == x + WORD * -k || ToInt(x) == x + WORD * (-k - 1);
  }

  lemma ToIntShift(x: int, q: int)
    ensures ToInt(x + WORD * q) == ToInt(x)
  {
    var k := x / WORD;
    assert x == WORD * k + Wrap(x);
    DivModUnique(x + WORD * q, k + q, Wrap(x), WORD);
  }

  lemma ParsePlain(s: string)
    requires AllDecimal(s) && s != ""
    ensures Converted(s) == ToInt(Value(s, 10))
  {
    assert s[0] in s;
    assert "" + s == s && s[..0] == "";
    FoldValue("", s, 0);
  }

  lemma ParseNegative(s: string)
    requires AllDecimal(s)
    ensures Converted("-" + s) == ToInt(-ToInt(Value(s, 10)))
  {
    assert s[..0] == "";
    FoldValue("-", s, 0);
  }

  /** Parsing what the signed printer made of a value gives the value back exactly
      when it is not the least one, which prints as text that parses as 0. */
  lemma PrintThenParse(v: int)
    requires IsInt(v)
    ensures Converted(Printed(v, 10, true)) == v <==> v != INT_MIN
    ensures v == INT_MIN ==> Converted(Printed(v, 10, true)) == 0
  {
    if v == INT_MIN {
      ParseLeast();
    } else if v == 0 {
      ParsePlain("0");
      assert "0"[..0] == "";
    } else {
      DigitsDecimal(Abs(v));
      DigitsValue(Abs(v), 10);
      PrintedNonZero(v);
    }
  }

  lemma PrintedNonZero(v: int)
    requires IsInt(v) && v != 0 && v != INT_MIN
    requires var s := Digits(Abs(v), 10); AllDecimal(s) && s != "" && Value(s, 10) == Abs(v)
    ensures Converted(Printed(v, 10, true)) == v
  {
    hide Value, Digits, Fold, Converted;
    var s := Digits(Abs(v), 10);
    if v > 0 {
      ParsePlain(s);
    } else {
      ParseNegative(s);
      assert Printed(v, 10, true) == "-" + s;
    }
  }

  lemma ParseLeast()
    ensures Converted(Printed(INT_MIN, 10, true)) == 0
  {
    var s := Printed(INT_MIN, 10, true);
    FallenFirst(-INT_MIN, 10);
    assert s[0] == '-' && (|s| > 1 ==> s[1] < '0');
    assert Span(s, 0, " \t") == 0;
  }

  // ---------- text around the digits ----------

  /** The span is the longest stretch of accepted characters. */
  lemma {:induction false} SpanIsLongest(s: string, i: nat, accept: string)
    requires i <= |s|
    ensures var n := Span(s, i, accept);
            (forall k :: i <= k < i + n ==> s[k] in accept) && (i + n < |s| ==> s[i + n] !in accept)
    decreases |s| - i
  {
    if i < |s| && s[i] in accept {
      SpanIsLongest(s, i + 1, accept);
    }
  }

  /** And nothing else is. */
  lemma SpanOnly(s: string, i: nat, n: nat, accept: string)
    requires i + n <= |s| && (forall k :: i <= k < i + n ==> s[k] in accept)
    requires i + n < |s| ==> s[i + n] !in accept
    ensures Span(s, i, accept) == n
  {
    SpanIsLongest(s, i, accept);
  }

  predicate StartsOff(rest: string, out: string) {
    rest == "" || rest[0] !in out
  }

  /** Digits end where something else begins. */
  lemma {:induction false} FoldStops(p: string, rest: string, i: nat, num: int)
    requires i <= |p| && StartsOff(rest, "0123456789")
    ensures Fold(p + rest, i, num) == Fold(p, i, num)
    decreases |p| - i
  {
    if i < |p| {
      assert (p + rest)[i] == p[i];
      if '0' <= p[i] <= '9' {
        FoldStops(p, rest, i + 1, ToInt(ToInt(num * 10) + (p[i] - '0') as int));
      }
    } else if rest != "" {
      assert (p + rest)[i] == rest[0];
    }
  }

  /** Digits anywhere in a text stand for their value modulo 2^32. */
  lemma FoldAmid(pre: string, digits: string, rest: string)
    requires AllDecimal(digits) && StartsOff(rest, "0123456789")
    ensures Fold(pre + digits + rest, |pre|, 0) == ToInt(Value(digits, 10))
  {
    FoldStops(pre + digits, rest, |pre|, 0);
    assert digits[..0] == "";
    FoldValue(pre, digits, 0);
  }

  lemma SpanBlanks(blanks: string, tail: string)
    requires (forall c <- blanks :: c in " \t") && StartsOff(tail, " \t")
    ensures Span(blanks + tail, 0, " \t") == |blanks| && At(blanks + tail, |blanks|) == At(tail, 0)
  {
    forall k | 0 <= k < |blanks|
      ensures (blanks + tail)[k] in " \t"
    {
      assert (blanks + tail)[k] == blanks[k];
    }
    SpanOnly(blanks + tail, 0, |blanks|, " \t");
  }

  /** The parser skips blanks and tabs, and stops behind the digits.  Where there is
      no digit it makes 0. */
  lemma ParseAmid(blanks: string, digits: string, rest: string)
    requires (forall c <- blanks :: c in " \t") && AllDecimal(digits) && StartsOff(rest, "0123456789")
    requires digits != "" || StartsOff(rest, " \t-")
    ensures Converted(blanks + digits + rest) == ToInt(Value(digits, 10))
  {
    hide Value, Fold, Span;
    assert blanks + digits + rest == blanks + (digits + rest);
    if digits != "" {
      assert (digits + rest)[0] == digits[0] && digits[0] in digits;
    }
    SpanBlanks(blanks, digits + rest);
    FoldAmid(blanks, digits, rest);
  }

  /** So it does behind a minus sign, and negates. */
  lemma ParseNegativeAmid(blanks: string, digits: string, rest: string)
    requires (forall c <- blanks :: c in " \t") && AllDecimal(digits) && StartsOff(rest, "0123456789")
    ensures Converted(blanks + "-" + digits + rest) == ToInt(-ToInt(Value(digits, 10)))
  {
    hide Value, Fold, Span;
    var tail := "-" + digits + rest;
    assert blanks + "-" + digits + rest == blanks + tail;
    assert tail[0] == '-';
    SpanBlanks(blanks, tail);
    FoldAmid(blanks + "-", digits, rest);
  }

  // ---------- the least number ----------

  /** Every digit of a value that stays negative stands as far below the character 0 as
      the digit is worth. */
  lemma {:induction false} FallenAt(v: nat, base: nat, i: nat)
    requires 2 <= base <= 36 && i < |Digits(v, base)|
    ensures FallenDigits(v, base)[i] <= '0'
    ensures ('0' - FallenDigits(v, base)[i]) as int == CharDigit(Digits(v, base)[i])
  {
    hide Div, Mod;
    if i < |Digits(v, base)| - 1 {
      FallenAt(Div(v, base), base, i);
    } else {
      CharDigitUndoes(Mod(v, base));
    }
  }
}
