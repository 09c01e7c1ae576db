/** The fixed-width unsigned integers of the library. Every wrap-around is written out with `%`. */
module Words {
  const TWO_16: int := 0x1_0000
  const TWO_31: int := 0x8000_0000
  const TWO_32: int := 0x1_0000_0000
  const TWO_63: int := 0x8000_0000_0000_0000
  const TWO_64: int := 0x1_0000_0000_0000_0000

  type U8 = x: int | 0 <= x < 0x100
  type U16 = x: int | 0 <= x < TWO_16
  type U32 = x: int | 0 <= x < TWO_32
  type U64 = x: int | 0 <= x < TWO_64

  /** The value (size_t)-1, which the library returns for "no such index". */
  const NO_INDEX: U64 := TWO_64 - 1

  datatype Option<+T> = None | Some(value: T)

  function Power2(k: nat): (p: nat)
    ensures p >= 1
  {
    if k == 0 then 1 else 2 * Power2(k - 1)
  }

  function Min(a: int, b: int): int { if a <= b then a else b }

  function Max(a: int, b: int): int { if a >= b then a else b }
}

module Sequences {
  lemma Regroup<T>(a: seq<T>, b: seq<T>, c: seq<T>)
    ensures a + (b + c) == (a + b) + c
    ensures [] + c == c
  {
  }
}

/** Quotients and remainders of non-constant divisors. */
module Division {
  lemma Decomposed(x: int, T: int)
    requires T > 0
    ensures x == x / T * T + x % T && 0 <= x % T < T
    ensures x >= T ==> x / T > 0
  {
  }

  lemma DivisionUnique(x: int, q: int, r: int, T: int)
    requires T > 0 && x == q * T + r && 0 <= r < T
    ensures x / T == q && x % T == r
  {
    Decomposed(x, T);
    QuotientUnique(x / T, x % T, q, r, T);
  }

  lemma QuotientUnique(p: int, r: int, q: int, s: int, T: int)
    requires p * T + r == q * T + s && 0 <= r < T && 0 <= s < T
    ensures p == q && r == s
  {
    if p < q {
      MultipleLess(p, q, T);
    } else if q < p {
      MultipleLess(q, p, T);
    }
  }

  lemma MultipleLess(p: int, q: int, T: int)
    requires p < q && T > 0
    ensures p * T + T <= q * T
  {
    assert (p + 1) * T <= q * T;
  }

  lemma AddMultiple(x: int, k: int, T: int)
    requires T > 0
    ensures (x + T * k) % T == x % T
  {
    Decomposed(x, T);
    assert T * (x / T + k) == T * (x / T) + T * k;
    DivisionUnique(x + T * k, x / T + k, x % T, T);
  }
}
