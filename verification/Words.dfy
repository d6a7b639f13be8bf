/** Machine words of the 32-bit target: every `size_t` and `unsigned int` of the
    kernel is a natural below WORD, and its arithmetic wraps. */
module Words {

  const WORD: nat := 0x1_0000_0000

  /** Unsigned 32-bit result of an unbounded computation. */
  function Wrap(x: int): nat {
    x % WORD
  }

  datatype Option<+T> = None | Some(value: T)

  /** A byte as a number, where the code computes with it. */
  type Byte = x: nat | x < 256

  /** The character at `i`, or the NUL that ends the text. */
  function At(s: string, i: nat): char {
    if i < |s| then s[i] else '\0'
  }

  // ---------- arithmetic ----------

  lemma MulMonotone(a: nat, x: int, y: int)
    requires x <= y
    ensures a * x <= a * y
  {
  }

  /** Quotient and remainder are the only numbers of their kind. */
  lemma DivModUnique(k: int, q: int, r: nat, n: nat)
    requires k == n * q + r && r < n
    ensures k / n == q && k % n == r
  {
    var p, s := k / n, k % n;
    assert k == n * p + s;
    if p < q {
      MulMonotone(n, p + 1, q);
    } else if q < p {
      MulMonotone(n, q + 1, p);
    }
  }
}
