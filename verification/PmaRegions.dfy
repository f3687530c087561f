/**
 Memory regions by base and mask (`PMACfg` in `util/clustergen/cluster.py`): which lengths and bases
 are accepted, and which addresses the stored mask then matches.  Integers are unbounded.
 */
module PmaRegions {
  import opened Common
  import opened IntBits

  /** The mask stored for a region, or nothing if the generator exits. */
  function RegionMask(base: int, length: int, addrWidth: nat): Option<int> {
    var isLengthPowerOfTwo := length != 0 && And(length, length - 1) == 0;
    var maskAddrSpace := Shl(1, addrWidth) - 1;
    var mask := And(maskAddrSpace, Not(length - 1));
    var isMaskAligned := And(Not(mask), base) == 0;
    if !isLengthPowerOfTwo || mask == 0 || !isMaskAligned then None else Some(mask)
  }

  // ---------- Powers of two ----------

  ghost predicate IsPow2(x: int) {
    exists k: nat :: x == Pow2(k)
  }

  lemma {:induction false} AndSelf(x: nat)
    ensures And(x, x) == x
  {
    if x > 0 { AndSelf(x / 2); }
  }

  lemma {:induction false} Pow2Tests(k: nat)
    ensures And(Pow2(k), Pow2(k) - 1) == 0
  {
    if k > 0 {
      Pow2Tests(k - 1);
      assert Pow2(k) / 2 == Pow2(k - 1) && (Pow2(k) - 1) / 2 == Pow2(k - 1) - 1;
    }
  }

  lemma {:induction false} TestFindsPow2(x: nat)
    requires x > 0 && And(x, x - 1) == 0
    ensures IsPow2(x)
  {
    if x == 1 {
      assert x == Pow2(0);
    } else if x % 2 == 0 {
      assert (x - 1) / 2 == x / 2 - 1;
      TestFindsPow2(x / 2);
      var k: nat :| x / 2 == Pow2(k);
      assert x == Pow2(k + 1);
    } else {
      AndSelf(x / 2);
    }
  }

  /** The test `length & (length - 1) == 0` recognises exactly the powers of two, among all integers. */
  lemma PowerOfTwoTest(length: int)
    ensures length != 0 && And(length, length - 1) == 0 <==> IsPow2(length)
  {
    if length < 0 {
      AndSign(length, length - 1);
    } else if length > 0 && And(length, length - 1) == 0 {
      TestFindsPow2(length);
    }
    if k: nat :| length == Pow2(k) {
      Pow2Tests(k);
    }
  }

  // ---------- The bits of mask, base and address ----------

  lemma {:induction false} ShlMultiplies(x: int, n: nat)
    ensures Shl(x, n) == x * Pow2(n)
    decreases n
  {
    if n > 0 {
      ShlMultiplies(2 * x, n - 1);
      assert 2 * x * Pow2(n - 1) == x * (2 * Pow2(n - 1));
    }
  }

  function MaskFor(k: nat, addrWidth: nat): int {
    And(Shl(1, addrWidth) - 1, Not(Pow2(k) - 1))
  }

  lemma MaskBits(k: nat, addrWidth: nat)
    ensures forall i: nat :: Bit(MaskFor(k, addrWidth), i) <==> k <= i < addrWidth
  {
    ShlMultiplies(1, addrWidth);
    assert MaskFor(k, addrWidth) == And(Ones(addrWidth), Not(Ones(k)));
    AndBits(Ones(addrWidth), Not(Ones(k)));
    NotBits(Ones(k));
    OnesBits(addrWidth);
    OnesBits(k);
  }

  lemma MaskNonZero(k: nat, addrWidth: nat)
    ensures MaskFor(k, addrWidth) != 0 <==> k < addrWidth
  {
    MaskBits(k, addrWidth);
    if k < addrWidth {
      ConstBits(k);
      assert Bit(MaskFor(k, addrWidth), k);
    } else {
      forall i: nat ensures Bit(MaskFor(k, addrWidth), i) == Bit(0, i) { ConstBits(i); }
      SameBits(MaskFor(k, addrWidth), 0);
    }
  }

  ghost predicate NoBitsBelow(x: int, k: nat) {
    forall i: nat :: i < k ==> !Bit(x, i)
  }

  lemma {:induction false} AlignedBits(x: int, k: nat)
    ensures x % Pow2(k) == 0 <==> NoBitsBelow(x, k)
    decreases k
  {
    if k > 0 {
      AlignedBits(x / 2, k - 1);
      HalfAligned(x, Pow2(k - 1));
      if NoBitsBelow(x, k) {
        assert !Bit(x, 0);
        forall i: nat | i < k - 1 ensures !Bit(x / 2, i) { assert !Bit(x, i + 1); }
      }
      if x % 2 == 0 && NoBitsBelow(x / 2, k - 1) {
        forall i: nat | i < k ensures !Bit(x, i) { assert i > 0 ==> !Bit(x / 2, i - 1); }
      }
    }
  }

  lemma HalfAligned(x: int, p: nat)
    requires p > 0
    ensures x % (2 * p) == 0 <==> x % 2 == 0 && (x / 2) % p == 0
  {
    var h := x / 2;
    var q, r := h / p, h % p;
    assert h == p * q + r;
    assert x == (2 * p) * q + (2 * r + x % 2) by {
      assert (2 * p) * q == 2 * (p * q);
    }
    ModUnique(x, 2 * p, q, 2 * r + x % 2);
  }

  /** The alignment test holds exactly for bases inside the address space that are multiples of the length. */
  lemma AlignmentTest(base: int, k: nat, addrWidth: nat)
    ensures And(Not(MaskFor(k, addrWidth)), base) == 0 <==>
            NoBitsBelow(base, k) && NoBitsFrom(base, addrWidth)
  {
    var m := MaskFor(k, addrWidth);
    MaskBits(k, addrWidth);
    NotBits(m);
    AndBits(Not(m), base);
    if And(Not(m), base) == 0 {
      forall i: nat | i < k || i >= addrWidth ensures !Bit(base, i) {
        ConstBits(i);
        assert !Bit(And(Not(m), base), i);
      }
    }
    if NoBitsBelow(base, k) && NoBitsFrom(base, addrWidth) {
      forall i: nat ensures Bit(And(Not(m), base), i) == Bit(0, i) { ConstBits(i); }
      SameBits(And(Not(m), base), 0);
    }
  }

  // ---------- What is accepted ----------

  /** A region the generator accepts: a power-of-two length below the address space, an aligned base inside it. */
  ghost predicate Acceptable(base: int, length: int, addrWidth: nat) {
    exists k: nat :: k < addrWidth && length == Pow2(k) && 0 <= base < Pow2(addrWidth) && base % length == 0
  }

  lemma AcceptsPow2(base: int, k: nat, addrWidth: nat)
    ensures RegionMask(base, Pow2(k), addrWidth) ==
            if k < addrWidth && 0 <= base < Pow2(addrWidth) && base % Pow2(k) == 0
            then Some(MaskFor(k, addrWidth)) else None
  {
    Pow2Tests(k);
    MaskNonZero(k, addrWidth);
    AlignmentTest(base, k, addrWidth);
    AlignedBits(base, k);
    RangeBits(base, addrWidth);
  }

  lemma {:induction false} Pow2Injective(j: nat, k: nat)
    requires Pow2(j) == Pow2(k)
    ensures j == k
  {
    if j > 0 && k > 0 { Pow2Injective(j - 1, k - 1); }
  }

  /** Acceptance is exact, for every base, length and address width. */
  lemma AcceptanceExact(base: int, length: int, addrWidth: nat)
    ensures RegionMask(base, length, addrWidth).Some? <==> Acceptable(base, length, addrWidth)
  {
    PowerOfTwoTest(length);
    if k: nat :| length == Pow2(k) {
      AcceptsPow2(base, k, addrWidth);
      forall j: nat | length == Pow2(j) ensures j == k { Pow2Injective(j, k); }
    }
  }

  // ---------- What an accepted region matches ----------

  /** With an aligned base, equal high parts mean membership in the block. */
  lemma {:induction false} SameBlock(addr: int, base: int, k: nat)
    requires base % Pow2(k) == 0
    ensures Shr(addr, k) == Shr(base, k) <==> base <= addr < base + Pow2(k)
    decreases k
  {
    if k > 0 {
      HalfAligned(base, Pow2(k - 1));
      SameBlock(addr / 2, base / 2, k - 1);
    }
  }

  ghost predicate AgreeFrom(x: int, y: int, k: nat) {
    forall i: nat :: i >= k ==> Bit(x, i) == Bit(y, i)
  }

  lemma SameHighBits(x: int, y: int, k: nat)
    ensures Shr(x, k) == Shr(y, k) <==> AgreeFrom(x, y, k)
  {
    if Shr(x, k) == Shr(y, k) {
      forall i: nat | i >= k ensures Bit(x, i) == Bit(y, i) {
        ShrBit(x, k, i - k);
        ShrBit(y, k, i - k);
      }
    }
    if AgreeFrom(x, y, k) {
      forall i: nat ensures Bit(Shr(x, k), i) == Bit(Shr(y, k), i) {
        ShrBit(x, k, i);
        ShrBit(y, k, i);
        assert Bit(x, i + k) == Bit(y, i + k);
      }
      SameBits(Shr(x, k), Shr(y, k));
    }
  }

  lemma MaskedEquals(addr: int, base: int, k: nat, addrWidth: nat)
    requires NoBitsFrom(addr, addrWidth) && NoBitsFrom(base, addrWidth) && NoBitsBelow(base, k)
    ensures And(addr, MaskFor(k, addrWidth)) == base <==> AgreeFrom(addr, base, k)
  {
    var m := MaskFor(k, addrWidth);
    MaskBits(k, addrWidth);
    AndBits(addr, m);
    if AgreeFrom(addr, base, k) {
      forall i: nat ensures Bit(And(addr, m), i) == Bit(base, i) {}
      SameBits(And(addr, m), base);
    }
    if And(addr, m) == base {
      forall i: nat | i >= k ensures Bit(addr, i) == Bit(base, i) {
        assert Bit(And(addr, m), i) == Bit(base, i);
      }
    }
  }

  /** A region's mask is its interval: an address matches exactly if it lies in [base, base + length). */
  lemma RegionIsInterval(base: int, length: int, addrWidth: nat, addr: int)
    requires RegionMask(base, length, addrWidth).Some? && 0 <= addr < Pow2(addrWidth)
    ensures And(addr, RegionMask(base, length, addrWidth).value) == base <==> base <= addr < base + length
  {
    AcceptanceExact(base, length, addrWidth);
    var k: nat :| k < addrWidth && length == Pow2(k) && 0 <= base < Pow2(addrWidth) && base % length == 0;
    AcceptsPow2(base, k, addrWidth);
    RangeBits(base, addrWidth);
    RangeBits(addr, addrWidth);
    AlignedBits(base, k);
    MaskedEquals(addr, base, k, addrWidth);
    SameHighBits(addr, base, k);
    SameBlock(addr, base, k);
  }

  // ---------- The list of regions ----------

  datatype Pma = Atomic | Cached | Execute | NonIdempotent

  class PmaCfg {
    var regions: seq<(Pma, int, int)>

    constructor ()
      ensures regions == []
    {
      regions := [];
    }

    method AddRegion(pma: Pma, base: int, mask: int)
      modifies this
      ensures regions == old(regions) + [(pma, base, mask)]
    {
      regions := regions + [(pma, base, mask)];
    }

    /** Adds one region, or reports that the generator exits and leaves the list alone. */
    method AddRegionLength(pma: Pma, base: int, length: int, addrWidth: nat) returns (ok: bool)
      modifies this
      ensures ok <==> Acceptable(base, length, addrWidth)
      ensures !ok ==> regions == old(regions)
      ensures ok ==> |regions| == |old(regions)| + 1 && regions[..|old(regions)|] == old(regions)
      ensures ok ==>
                var (p, b, m) := regions[|old(regions)|];
                p == pma && b == base && forall addr ::
                  0 <= addr < Pow2(addrWidth) ==> (And(addr, m) == b <==> base <= addr < base + length)
    {
      AcceptanceExact(base, length, addrWidth);
      var mask := RegionMask(base, length, addrWidth);
      if mask.None? {
        return false;
      }
      forall addr | 0 <= addr < Pow2(addrWidth)
        ensures And(addr, mask.value) == base <==> base <= addr < base + length {
        RegionIsInterval(base, length, addrWidth, addr);
      }
      AddRegion(pma, base, mask.value);
      ok := true;
    }
  }
}
