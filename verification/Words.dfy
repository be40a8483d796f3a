/** Unsigned machine arithmetic, and some facts about products. */
module Words {

  /** The value of an unsigned 64-bit expression: its remainder, found by adding or taking off 2^64. */
  function Wrap64(x: int): (r: nat)
    ensures r < 0x1_0000_0000_0000_0000
    decreases if x < 0 then 0x1_0000_0000_0000_0000 - x else x
  {
    if x < 0 then Wrap64(x + 0x1_0000_0000_0000_0000)
    else if x < 0x1_0000_0000_0000_0000 then x
    else Wrap64(x - 0x1_0000_0000_0000_0000)
  }

  /** The value of an unsigned 32-bit expression. */
  function Wrap32(x: int): (r: nat)
    ensures r < 0x1_0000_0000
    decreases if x < 0 then 0x1_0000_0000 - x else x
  {
    if x < 0 then Wrap32(x + 0x1_0000_0000)
    else if x < 0x1_0000_0000 then x
    else Wrap32(x - 0x1_0000_0000)
  }

  lemma Wrap32Exact(x: int)
    requires 0 <= x < 0x1_0000_0000
    ensures Wrap32(x) == x
  {
  }

  lemma WrapExact(x: int)
    requires 0 <= x < 0x1_0000_0000_0000_0000
    ensures Wrap64(x) == x
  {
  }

  lemma WrapOnce(x: int)
    requires 0x1_0000_0000_0000_0000 <= x < 0x2_0000_0000_0000_0000
    ensures Wrap64(x) == x - 0x1_0000_0000_0000_0000
  {
  }

  lemma WrapNegative(x: int)
    requires -0x1_0000_0000_0000_0000 <= x < 0
    ensures Wrap64(x) == x + 0x1_0000_0000_0000_0000
  {
  }

  lemma WrapStep(x: int)
    ensures Wrap64(x + 0x1_0000_0000_0000_0000) == Wrap64(x)
  {
  }

  /** Wrapping a partial sum first makes no difference. */
  lemma {:induction false} WrapTwice(a: int, b: int)
    ensures Wrap64(Wrap64(a) + b) == Wrap64(a + b)
    decreases if a < 0 then 0x1_0000_0000_0000_0000 - a else a
  {
    if a < 0 {
      WrapTwice(a + 0x1_0000_0000_0000_0000, b);
      WrapStep(a + b);
    } else if a >= 0x1_0000_0000_0000_0000 {
      WrapTwice(a - 0x1_0000_0000_0000_0000, b);
      WrapStep(a + b - 0x1_0000_0000_0000_0000);
    }
  }

  lemma ProductsOrder(x: int, y: int, n: int)
    requires x <= y && n >= 0
    ensures x * n <= y * n
  {
  }

  lemma MultipleBeyond(k: int, m: int)
    requires m > 0
    ensures k >= 1 ==> k * m >= m
    ensures k <= -1 ==> k * m <= -m
  {
  }

  /** Adding multiples of m keeps the remainder by m. */
  lemma RemainderKept(x: int, q: int, m: int)
    requires m > 0
    ensures (x + q * m) % m == x % m
  {
    var y := x + q * m;
    var k := y / m - x / m - q;
    assert k * m == x % m - y % m;
    MultipleBeyond(k, m);
  }

  /** It is the remainder modulo 2^64. */
  lemma {:induction false} WrapIsModulo(x: int)
    ensures Wrap64(x) == x % 0x1_0000_0000_0000_0000
    decreases if x < 0 then 0x1_0000_0000_0000_0000 - x else x
  {
    if x < 0 {
      WrapIsModulo(x + 0x1_0000_0000_0000_0000);
      RemainderKept(x, 1, 0x1_0000_0000_0000_0000);
    } else if x >= 0x1_0000_0000_0000_0000 {
      WrapIsModulo(x - 0x1_0000_0000_0000_0000);
      RemainderKept(x, -1, 0x1_0000_0000_0000_0000);
    }
  }

  lemma {:induction false} Wrap32IsModulo(x: int)
    ensures Wrap32(x) == x % 0x1_0000_0000
    decreases if x < 0 then 0x1_0000_0000 - x else x
  {
    if x < 0 {
      Wrap32IsModulo(x + 0x1_0000_0000);
      RemainderKept(x, 1, 0x1_0000_0000);
    } else if x >= 0x1_0000_0000 {
      Wrap32IsModulo(x - 0x1_0000_0000);
      RemainderKept(x, -1, 0x1_0000_0000);
    }
  }

  /** Wrapping keeps remainders by divisors of 2^64, 32768 among them. */
  lemma {:induction false} WrapRemainder(x: int)
    ensures Wrap64(x) % 32768 == x % 32768
    decreases if x < 0 then 0x1_0000_0000_0000_0000 - x else x
  {
    if x < 0 {
      WrapRemainder(x + 0x1_0000_0000_0000_0000);
      RemainderKept(x, 0x2_0000_0000_0000, 32768);
    } else if x >= 0x1_0000_0000_0000_0000 {
      WrapRemainder(x - 0x1_0000_0000_0000_0000);
      RemainderKept(x, -0x2_0000_0000_0000, 32768);
    }
  }
}
