/** Machine words: powers of two and the wrap-around of `size_t`, and the size from which chunks count as large. */
module Words {

  const WORD := 0x1_0000_0000_0000_0000     // 2^64
  const MAX_SIZE_T := WORD - 1
  const MIN_LARGE_SIZE := 256               // smaller chunks go to small bins, others to tree bins

  function Pow2(n: nat): (r: nat)
    ensures r > 0
  {
    if n == 0 then 1 else 2 * Pow2(n - 1)
  }

  /** The value a 64-bit unsigned computation leaves in its register. */
  function Wrap(x: int): (r: nat)
    ensures r < WORD
  {
    x % WORD
  }

  lemma WrapOnce(x: nat)
    requires x < 2 * WORD
    ensures Wrap(x) == if x < WORD then x else x - WORD
  {
  }

  lemma {:induction false} Pow2Add(m: nat, n: nat)
    ensures Pow2(m + n) == Pow2(m) * Pow2(n)
    decreases m
  {
    if m > 0 { Pow2Add(m - 1, n); }
  }

  lemma {:induction false} Pow2Less(m: nat, n: nat)
    requires m < n
    ensures Pow2(m) < Pow2(n)
    decreases n
  {
    if m + 1 < n { Pow2Less(m, n - 1); }
  }

  lemma Pow2Plus8(n: nat)
    ensures Pow2(n + 8) == 256 * Pow2(n)
  {
    assert Pow2(n + 2) == 4 * Pow2(n);
    assert Pow2(n + 4) == 4 * Pow2(n + 2);
    assert Pow2(n + 6) == 4 * Pow2(n + 4);
  }

  /** A word of `bits` binary digits has 2^bits values. */
  lemma Pow2OfWord(bits: nat)
    requires bits == 32 || bits == 64
    ensures Pow2(bits) == if bits == 32 then 0x1_0000_0000 else WORD
  {
    Pow2Plus8(bits - 8);
    Pow2Plus8(bits - 16);
    Pow2Plus8(bits - 24);
    Pow2Plus8(bits - 32);
    if bits == 64 { Pow2OfWord(32); }
  }

  lemma UniqueRemainder(x: nat, q: nat, r: nat, a: nat)
    requires a > 0 && x == q * a + r && r < a
    ensures x / a == q && x % a == r
  {
    var q', r' := x / a, x % a;
    assert x == q' * a + r';
    if q' < q {
      MoreMultiples(q', q, a);
    } else if q < q' {
      MoreMultiples(q, q', a);
    }
  }

  lemma MoreMultiples(m: nat, n: nat, a: nat)
    requires m < n
    ensures m * a + a <= n * a
  {
    var d := n - m - 1;
    assert n == m + 1 + d;
    assert n * a == m * a + a + d * a;
  }
}
