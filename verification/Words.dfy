/** Machine words of the C++ sources, as bounded integers; wrap-around is written out where it can happen. */
module Words {

  const U16_LIMIT := 0x1_0000
  const U32_LIMIT := 0x1_0000_0000
  const U64_LIMIT := 0x1_0000_0000_0000_0000

  type byte = x: int | 0 <= x < 0x100
  type uint16 = x: int | 0 <= x < U16_LIMIT
  type uint32 = x: int | 0 <= x < U32_LIMIT
  type uint64 = x: int | 0 <= x < U64_LIMIT

  function Min(a: int, b: int): int { if a < b then a else b }

  function Max(a: int, b: int): int { if a < b then b else a }

  lemma {:induction false} ProductsAreApart(d: int, t: int)
    requires t > 0
    ensures d >= 1 ==> d * t >= t
    ensures d <= -1 ==> d * t <= -t
  {
  }

  lemma {:induction false} DivisionIsUnique(x: int, q: int, r: int, t: int)
    requires 0 <= r < t && x == q * t + r
    ensures x / t == q && x % t == r
  {
    assert x == x / t * t + x % t;
    assert (x / t - q) * t == r - x % t;
    ProductsAreApart(x / t - q, t);
  }

  lemma {:induction false} Associate<T>(a: seq<T>, b: seq<T>, c: seq<T>)
    ensures a + (b + c) == a + b + c
  {
  }
}
