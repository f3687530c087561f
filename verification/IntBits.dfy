/**
 Bitwise arithmetic on unbounded integers in two's complement: the integers of Python, and fixed-width
 unsigned words as the non-negative integers below a power of two.
 */
module IntBits {
  function Pow2(n: nat): (p: nat)
    ensures p >= 1
  {
    if n == 0 then 1 else 2 * Pow2(n - 1)
  }

  function Ones(n: nat): nat { Pow2(n) - 1 }

  /** Bit `i` of `x`; negative numbers have ones all the way up. */
  predicate Bit(x: int, i: nat)
    decreases i
  {
    if i == 0 then x % 2 == 1 else Bit(x / 2, i - 1)
  }

  function Abs(x: int): nat { if x < 0 then -x else x }

  function And(x: int, y: int): int
    decreases Abs(x)
  {
    if x == 0 || y == 0 then 0
    else if x == -1 then y
    else if y == -1 then x
    else 2 * And(x / 2, y / 2) + (if x % 2 == 1 && y % 2 == 1 then 1 else 0)
  }

  function Not(x: int): int { -x - 1 }

  function Or(x: int, y: int): int { Not(And(Not(x), Not(y))) }

  function Shl(x: int, n: nat): int
    decreases n
  {
    if n == 0 then x else Shl(2 * x, n - 1)
  }

  function Shr(x: int, n: nat): int
    decreases n
  {
    if n == 0 then x else Shr(x / 2, n - 1)
  }

  /** Quotient and remainder are unique. */
  lemma ModUnique(x: int, d: int, q: int, r: int)
    requires d > 0 && x == d * q + r && 0 <= r < d
    ensures x % d == r && x / d == q
  {
    var e := x / d - q;
    assert d * e == r - x % d by {
      assert x == d * (x / d) + x % d;
      assert d * (x / d) == d * q + d * e;
    }
    assert e >= 1 ==> d * e >= d;
    assert e <= -1 ==> d * e <= -d;
  }

  // ---------- Bits of the results ----------

  lemma {:induction false} ConstBits(i: nat)
    ensures !Bit(0, i) && Bit(-1, i)
  {
    if i > 0 { ConstBits(i - 1); }
  }

  lemma {:induction false} AndBit(x: int, y: int, i: nat)
    ensures Bit(And(x, y), i) <==> Bit(x, i) && Bit(y, i)
    decreases i
  {
    ConstBits(i);
    if x != 0 && y != 0 && x != -1 && y != -1 && i > 0 {
      assert And(x, y) / 2 == And(x / 2, y / 2);
      AndBit(x / 2, y / 2, i - 1);
    }
  }

  lemma {:induction false} NotBit(x: int, i: nat)
    ensures Bit(Not(x), i) <==> !Bit(x, i)
    decreases i
  {
    if i > 0 {
      assert Not(x) / 2 == Not(x / 2);
      NotBit(x / 2, i - 1);
    }
  }

  /** The result is negative only if both operands are. */
  lemma {:induction false} AndSign(x: int, y: int)
    ensures And(x, y) < 0 <==> x < 0 && y < 0
    decreases Abs(x)
  {
    if x != 0 && y != 0 && x != -1 && y != -1 {
      AndSign(x / 2, y / 2);
    }
  }

  lemma OrBit(x: int, y: int, i: nat)
    ensures Bit(Or(x, y), i) <==> Bit(x, i) || Bit(y, i)
  {
    NotBit(x, i);
    NotBit(y, i);
    AndBit(Not(x), Not(y), i);
    NotBit(And(Not(x), Not(y)), i);
  }

  lemma {:induction false} ShrBit(x: int, n: nat, i: nat)
    ensures Bit(Shr(x, n), i) <==> Bit(x, i + n)
    decreases n
  {
    if n > 0 { ShrBit(x / 2, n - 1, i); }
  }

  lemma {:induction false} ShlBit(x: int, n: nat, i: nat)
    ensures Bit(Shl(x, n), i) <==> i >= n && Bit(x, i - n)
    decreases n
  {
    if n > 0 {
      ShlBit(2 * x, n - 1, i);
      assert (2 * x) / 2 == x && (2 * x) % 2 == 0;
    }
  }

  /** The bits of 2^n - 1 are those below n. */
  lemma {:induction false} OnesBit(n: nat, i: nat)
    ensures Bit(Ones(n), i) <==> i < n
    decreases n
  {
    if n == 0 {
      ConstBits(i);
    } else if i > 0 {
      assert Ones(n) / 2 == Ones(n - 1);
      OnesBit(n - 1, i - 1);
    }
  }

  // The same for all bits at once.

  lemma AndBits(x: int, y: int)
    ensures forall i: nat :: Bit(And(x, y), i) <==> Bit(x, i) && Bit(y, i)
  {
    forall i: nat ensures Bit(And(x, y), i) <==> Bit(x, i) && Bit(y, i) { AndBit(x, y, i); }
  }

  lemma OrBits(x: int, y: int)
    ensures forall i: nat :: Bit(Or(x, y), i) <==> Bit(x, i) || Bit(y, i)
  {
    forall i: nat ensures Bit(Or(x, y), i) <==> Bit(x, i) || Bit(y, i) { OrBit(x, y, i); }
  }

  lemma NotBits(x: int)
    ensures forall i: nat :: Bit(Not(x), i) <==> !Bit(x, i)
  {
    forall i: nat ensures Bit(Not(x), i) <==> !Bit(x, i) { NotBit(x, i); }
  }

  lemma OnesBits(n: nat)
    ensures forall i: nat :: Bit(Ones(n), i) <==> i < n
  {
    forall i: nat ensures Bit(Ones(n), i) <==> i < n { OnesBit(n, i); }
  }

  /** Integers with the same bits are equal. */
  lemma {:induction false} SameBits(x: int, y: int)
    requires forall i: nat :: Bit(x, i) == Bit(y, i)
    ensures x == y
    decreases Abs(x) + Abs(y)
  {
    assert Bit(x, 0) == Bit(y, 0);
    assert Bit(x, 1) == Bit(y, 1);
    forall i: nat ensures Bit(x / 2, i) == Bit(y / 2, i) {
      assert Bit(x, i + 1) == Bit(y, i + 1);
    }
    if -1 <= x <= 0 && -1 <= y <= 0 {
    } else {
      SameBits(x / 2, y / 2);
    }
  }

  ghost predicate NoBitsFrom(x: int, n: nat) {
    forall i: nat :: i >= n ==> !Bit(x, i)
  }

  lemma NoBitsHalved(x: int, n: nat)
    requires n > 0
    ensures NoBitsFrom(x, n) <==> NoBitsFrom(x / 2, n - 1)
  {
    if NoBitsFrom(x, n) {
      forall i: nat | i >= n - 1 ensures !Bit(x / 2, i) { assert !Bit(x, i + 1); }
    }
    if NoBitsFrom(x / 2, n - 1) {
      forall i: nat | i >= n ensures !Bit(x, i) { assert !Bit(x / 2, i - 1); }
    }
  }

  /** A number is in [0, 2^n) if and only if it has no bit from n on. */
  lemma {:induction false} RangeBits(x: int, n: nat)
    ensures 0 <= x < Pow2(n) <==> NoBitsFrom(x, n)
    decreases n
  {
    if n > 0 {
      RangeBits(x / 2, n - 1);
      NoBitsHalved(x, n);
    } else if NoBitsFrom(x, 0) {
      forall i: nat ensures Bit(x, i) == Bit(0, i) { ConstBits(i); assert !Bit(x, i); }
      SameBits(x, 0);
    } else if x == 0 {
      forall i: nat ensures !Bit(x, i) { ConstBits(i); }
    }
  }

  // ---------- Testing one bit ----------

  lemma OneBit(k: nat, i: nat)
    ensures Bit(Shl(1, k), i) <==> i == k
  {
    ShlBit(1, k, i);
    if i >= k { OnesBit(1, i - k); }
  }

  /** Masking with 1 << k and comparing with zero tests bit k. */
  lemma MaskTest(x: int, k: nat)
    ensures And(x, Shl(1, k)) != 0 <==> Bit(x, k)
  {
    var m := And(x, Shl(1, k));
    forall i: nat ensures Bit(m, i) <==> i == k && Bit(x, k) {
      AndBit(x, Shl(1, k), i);
      OneBit(k, i);
    }
    ConstBits(k);
    if !Bit(x, k) {
      forall i: nat ensures Bit(m, i) == Bit(0, i) { ConstBits(i); }
      SameBits(m, 0);
    }
  }

  /** Masking with 1 << k and shifting back gives the bit as a number. */
  lemma MaskShift(x: int, k: nat)
    ensures Shr(And(x, Shl(1, k)), k) == if Bit(x, k) then 1 else 0
  {
    var r := Shr(And(x, Shl(1, k)), k);
    forall i: nat ensures Bit(r, i) == Bit(if Bit(x, k) then 1 else 0, i) {
      ShrBit(And(x, Shl(1, k)), k, i);
      AndBit(x, Shl(1, k), i + k);
      OneBit(k, i + k);
      OnesBit(1, i);
      ConstBits(i);
    }
    SameBits(r, if Bit(x, k) then 1 else 0);
  }
}
