/** Types shared by the models: octets, 16-bit words and optional results. */
module Octets {
  type Octet = x: int | 0 <= x < 256
  type Word16 = x: int | 0 <= x < 0x1_0000

  /** The 16-bit word stored in memory as octet `a` followed by octet `b`. */
  function Pair(le: bool, a: Octet, b: Octet): (w: Word16)
  {
    if le then a + 256 * b else 256 * a + b
  }

  /** The bit of `n` at position `k`, counted from the least significant. */
  predicate BitAt(n: nat, k: nat)
    decreases k
  {
    if k == 0 then n % 2 == 1 else BitAt(n / 2, k - 1)
  }

  lemma {:induction false} NoBits(k: nat)
    ensures !BitAt(0, k)
  {
    if k > 0 {
      NoBits(k - 1);
    }
  }

  /** A number is determined by its bits. */
  lemma {:induction false} SameBits(a: nat, b: nat)
    requires forall k: nat :: BitAt(a, k) == BitAt(b, k)
    ensures a == b
    decreases a + b
  {
    assert BitAt(a, 0) == BitAt(b, 0);
    if a + b > 0 {
      forall k: nat
        ensures BitAt(a / 2, k) == BitAt(b / 2, k)
      {
        assert BitAt(a, k + 1) == BitAt(b, k + 1);
      }
      SameBits(a / 2, b / 2);
    }
  }

  datatype Option<+T> = None | Some(value: T)

  const TWO32 := 0x1_0000_0000
}
