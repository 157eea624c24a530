/**
 Machine words as bounded naturals, with the bitwise operators the kernel applies to them.

 `And`, `Or` and `Shr` are defined bit by bit; the lemmas below say what they compute on the
 masks the kernel uses, so that the rest of the model can reason in plain arithmetic.
 */
module Words {

  const TWO32: nat := 0x1_0000_0000
  const TWO64: nat := 0x1_0000_0000_0000_0000

  type u32 = x: nat | x < TWO32
  type u64 = x: nat | x < TWO64

  datatype Option<+T> = None | Some(value: T)

  datatype Result<+T, +E> = Ok(value: T) | Err(error: E)

  function Pow2(k: nat): (r: nat)
    ensures r >= 1
  {
    if k == 0 then 1 else 2 * Pow2(k - 1)
  }

  function And(x: nat, y: nat): nat {
    if x == 0 || y == 0 then 0
    else 2 * And(x / 2, y / 2) + (if x % 2 == 1 && y % 2 == 1 then 1 else 0)
  }

  function Or(x: nat, y: nat): nat {
    if x == 0 then y
    else if y == 0 then x
    else 2 * Or(x / 2, y / 2) + (if x % 2 == 1 || y % 2 == 1 then 1 else 0)
  }

  function Shr(x: nat, k: nat): nat {
    if k == 0 then x else Shr(x / 2, k - 1)
  }

  function Shl(x: nat, k: nat): nat {
    if k == 0 then x else 2 * Shl(x, k - 1)
  }

  /** The m low bits of x. */
  function Low(x: nat, m: nat): nat {
    if m == 0 then 0 else 2 * Low(x / 2, m - 1) + x % 2
  }

  lemma MulAtLeast(k: int, d: int)
    requires d >= 0
    ensures k >= 1 ==> k * d >= d
    ensures k <= -1 ==> k * d <= -d
  {
    if k >= 1 { assert k * d == (k - 1) * d + d; }
    if k <= -1 { assert k * d == (k + 1) * d - d; }
  }

  lemma QuotientIs(x: nat, d: nat, q: nat, r: nat)
    requires r < d && x == q * d + r
    ensures x / d == q && x % d == r
  {
    var k := x / d - q;
    assert k * d == r - x % d by {
      assert x == x / d * d + x % d;
      assert k * d == x / d * d - q * d;
    }
    MulAtLeast(k, d);
  }

  lemma DivDouble(x: nat, p: nat)
    requires p >= 1
    ensures x / 2 / p == x / (2 * p)
    ensures x % (2 * p) == 2 * (x / 2 % p) + x % 2
  {
    var q, r := x / 2 / p, x / 2 % p;
    assert x / 2 == q * p + r;
    assert q * (2 * p) == 2 * (q * p);
    QuotientIs(x, 2 * p, q, 2 * r + x % 2);
  }

  lemma {:induction false} ShrIsDiv(x: nat, k: nat)
    ensures Shr(x, k) == x / Pow2(k)
  {
    if k > 0 {
      ShrIsDiv(x / 2, k - 1);
      DivDouble(x, Pow2(k - 1));
    }
  }

  lemma MulDouble(x: nat, y: nat)
    ensures 2 * (x * y) == x * (2 * y)
  {
  }

  lemma {:induction false} ShlIsMul(x: nat, k: nat)
    ensures Shl(x, k) == x * Pow2(k)
  {
    if k > 0 {
      ShlIsMul(x, k - 1);
      MulDouble(x, Pow2(k - 1));
    }
  }

  lemma AndDouble(x: nat, y: nat)
    ensures And(x, 2 * y) == 2 * And(x / 2, y)
  {
    if x != 0 && y != 0 {
      assert 2 * y / 2 == y && (2 * y) % 2 == 0;
    }
  }

  lemma {:induction false} AndBound(x: nat, y: nat)
    ensures And(x, y) <= y
  {
    if x != 0 && y != 0 {
      AndBound(x / 2, y / 2);
    }
  }

  /** A mask shifted up by k bits selects the field that starts at bit k. */
  lemma {:induction false} AndShl(x: nat, y: nat, k: nat)
    ensures And(x, Shl(y, k)) == Shl(And(Shr(x, k), y), k)
  {
    if k > 0 {
      AndDouble(x, Shl(y, k - 1));
      AndShl(x / 2, y, k - 1);
    }
  }

  /** A mask of m low ones keeps the m low bits. */
  lemma {:induction false} AndOnes(x: nat, m: nat)
    ensures And(x, Pow2(m) - 1) == Low(x, m)
  {
    if m > 0 {
      AndOnes(x / 2, m - 1);
      if x == 0 {
        assert Low(x / 2, m - 1) == 0;
      }
    }
  }

  lemma {:induction false} LowIsMod(x: nat, m: nat)
    ensures Low(x, m) == x % Pow2(m)
  {
    if m > 0 {
      LowIsMod(x / 2, m - 1);
      DivDouble(x, Pow2(m - 1));
    }
  }

  lemma OrDouble(x: nat, y: nat)
    ensures Or(x, 2 * y) == 2 * Or(x / 2, y) + x % 2
  {
    if x != 0 && y != 0 {
      assert 2 * y / 2 == y && (2 * y) % 2 == 0;
    }
  }

  lemma OrOne(x: nat)
    ensures Or(x, 1) == x / 2 * 2 + 1
  {
    if x != 0 {
      assert Or(x / 2, 0) == x / 2;
    }
  }

  /** Oring a value below 2^k into a value shifted up by k bits adds it. */
  lemma {:induction false} OrShl(x: nat, y: nat, k: nat)
    requires y < Pow2(k)
    ensures Or(Shl(x, k), y) == Shl(x, k) + y
  {
    if k > 0 {
      OrShl(x, y / 2, k - 1);
    }
  }
}
