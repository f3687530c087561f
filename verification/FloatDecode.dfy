/**
 Decoding of floating-point bit patterns (`flt_decode` in `util/gen_trace.py`), for any exponent and mantissa
 width, with values taken as exact reals.  The code works on the binary digits as text; so does the model.
 */
module FloatDecode {
  import opened IntBits

  // ---------- Binary text ----------

  /** The binary digits of a number, most significant first, without leading zeros. */
  function Digits(v: nat): (s: seq<bool>)
    ensures |s| >= 1
  {
    if v < 2 then [v == 1] else Digits(v / 2) + [v % 2 == 1]
  }

  function Zeros(n: nat): seq<bool> { seq(n, _ => false) }

  /** `'{:064b}'.format(v)`. */
  function Format(v: nat): (s: seq<bool>)
    ensures |s| >= 64
  {
    var s := Digits(v);
    if |s| < 64 then Zeros(64 - |s|) + s else s
  }

  /** `s[-n:]`: the last n digits, or all of them if there are fewer. */
  function LastN(s: seq<bool>, n: nat): seq<bool> {
    if |s| < n then s else s[|s| - n..]
  }

  /** `int(s, 2)`. */
  function Parse(s: seq<bool>): nat {
    if s == [] then 0 else 2 * Parse(s[..|s| - 1]) + if s[|s| - 1] then 1 else 0
  }

  lemma DoubledRight(x: int, y: int)
    ensures 2 * (x * y) == x * (2 * y)
  {
  }

  lemma {:induction false} ParseConcat(a: seq<bool>, b: seq<bool>)
    ensures Parse(a + b) == Parse(a) * Pow2(|b|) + Parse(b)
  {
    if b == [] {
      assert a + b == a;
    } else {
      var k := |b| - 1;
      ParseConcat(a, b[..k]);
      assert (a + b)[..|a + b| - 1] == a + b[..k];
      assert Parse(a + b) == 2 * Parse(a + b[..k]) + if b[k] then 1 else 0;
      assert Pow2(|b|) == 2 * Pow2(k);
      hide Parse, Pow2;
      DoubledRight(Parse(a), Pow2(k));
    }
  }

  lemma {:induction false} ParseRange(s: seq<bool>)
    ensures Parse(s) < Pow2(|s|)
  {
    if s != [] { ParseRange(s[..|s| - 1]); }
  }

  lemma {:induction false} ParseZeros(n: nat)
    ensures Parse(Zeros(n)) == 0
  {
    if n > 0 {
      ParseZeros(n - 1);
      assert Zeros(n)[..n - 1] == Zeros(n - 1);
    }
  }

  lemma {:induction false} ParseDigits(v: nat)
    ensures Parse(Digits(v)) == v
  {
    if v < 2 {
      assert Digits(v)[..0] == [];
    } else {
      ParseDigits(v / 2);
      assert Digits(v)[..|Digits(v)| - 1] == Digits(v / 2);
    }
  }

  /** Formatting and parsing back gives the number. */
  lemma ParseFormat(v: nat)
    ensures Parse(Format(v)) == v
  {
    hide Digits, Parse, Pow2, Zeros;
    var s := Digits(v);
    ParseDigits(v);
    if |s| < 64 {
      ParseConcat(Zeros(64 - |s|), s);
      ParseZeros(64 - |s|);
    }
  }

  // ---------- The decoder ----------

  datatype Value = Finite(v: real) | Infinite(negative: bool) | NaN

  /** Formats with both fields present; an empty field has no number to parse. */
  predicate ValidFormat(wExp: nat, wMnt: nat) { wExp >= 1 && wMnt >= 1 && 1 + wExp + wMnt <= 64 }

  function Pow2R(e: int): (r: real)
    ensures r > 0.0
    decreases if e < 0 then -e else e
  {
    if e == 0 then 1.0 else if e > 0 then 2.0 * Pow2R(e - 1) else Pow2R(e + 1) / 2.0
  }

  function Decode(val: nat, wExp: nat, wMnt: nat): Value
    requires ValidFormat(wExp, wMnt)
  {
    var width := 1 + wExp + wMnt;
    var bitstr := LastN(Format(val), width);
    var mnt := Parse(bitstr[wExp + 1..]);
    var expUnb := Parse(bitstr[1..wExp + 1]);
    var implied := Parse([true] + bitstr[wExp + 1..]);
    CaseAnalysis(bitstr[0], expUnb, mnt, implied, wExp, wMnt)
  }

  function Sign(negative: bool): real { if negative then -1.0 else 1.0 }

  /** The numeric part: `implied` is the mantissa with its implied leading one. */
  function CaseAnalysis(negative: bool, expUnb: nat, mnt: nat, implied: nat, wExp: nat, wMnt: nat): Value
    requires wExp >= 1
  {
    var sgn := Sign(negative);
    var bse := implied as real / Pow2(wMnt) as real;
    var expBias := -(Pow2(wExp - 1) - 1);
    var exp := expUnb + expBias;
    if expUnb == Pow2(wExp) - 1 then if mnt == 0 then Infinite(negative) else NaN
    else if expUnb == 0 && mnt == 0 then Finite(sgn * 0.0)
    else if expUnb == 0 then Finite(sgn * (mnt as real) / (Pow2(wMnt) as real) * Pow2R(expBias + 1))
    else Finite(sgn * bse * Pow2R(exp))
  }

  // ---------- The fields ----------

  /** The three fields of a pattern of the format's width. */
  ghost predicate Fields(n: nat, wExp: nat, wMnt: nat, negative: bool, exp: nat, mnt: nat) {
    && exp < Pow2(wExp) && mnt < Pow2(wMnt)
    && n == ((if negative then Pow2(wExp) else 0) + exp) * Pow2(wMnt) + mnt
  }

  /** The last digits of a text have the value of its low bits. */
  lemma SuffixValue(front: seq<bool>, b: seq<bool>)
    ensures Parse(b) == Parse(front + b) % Pow2(|b|)
  {
    hide Parse, Pow2;
    ParseConcat(front, b);
    ParseRange(b);
    assert Parse(front) * Pow2(|b|) == Pow2(|b|) * Parse(front);
    ModUnique(Parse(front + b), Pow2(|b|), Parse(front), Parse(b));
  }

  lemma SliceValue(val: nat, width: nat)
    requires width <= 64
    ensures |LastN(Format(val), width)| == width && Parse(LastN(Format(val), width)) == val % Pow2(width)
  {
    hide Format, Parse, Pow2;
    var s := Format(val);
    ParseFormat(val);
    SuffixValue(s[..|s| - width], s[|s| - width..]);
    assert s[..|s| - width] + s[|s| - width..] == s;
  }

  lemma ParseCons(b: bool, s: seq<bool>)
    ensures Parse([b] + s) == (if b then Pow2(|s|) else 0) + Parse(s)
  {
    ParseConcat([b], s);
    ParseOne(b);
    assert 1 * Pow2(|s|) == Pow2(|s|) && 0 * Pow2(|s|) == 0;
  }

  lemma ParseOne(b: bool)
    ensures Parse([b]) == if b then 1 else 0
  {
    assert [b][..0] == [];
  }

  /** Cutting the text again reads the three fields. */
  lemma SlicesAreFields(b: seq<bool>, wExp: nat, wMnt: nat)
    requires |b| == 1 + wExp + wMnt
    ensures Fields(Parse(b), wExp, wMnt, b[0], Parse(b[1..wExp + 1]), Parse(b[wExp + 1..]))
  {
    hide Parse, Pow2;
    var e, m := b[1..wExp + 1], b[wExp + 1..];
    ParseRange(e);
    ParseRange(m);
    ParseCons(b[0], e);
    ParseConcat([b[0]] + e, m);
    assert b == ([b[0]] + e) + m;
  }

  lemma Doubled(x: int, y: int)
    ensures 2 * (x * y) == (2 * x) * y
  {
  }

  lemma {:induction false} Pow2Add(a: nat, b: nat)
    ensures Pow2(a + b) == Pow2(a) * Pow2(b)
  {
    if a > 0 {
      Pow2Add(a - 1, b);
      Doubled(Pow2(a - 1), Pow2(b));
    }
  }

  /** A pattern has one reading. */
  lemma FieldsUnique(n: nat, wExp: nat, wMnt: nat, negative: bool, exp: nat, mnt: nat,
                     negative': bool, exp': nat, mnt': nat)
    requires Fields(n, wExp, wMnt, negative, exp, mnt) && Fields(n, wExp, wMnt, negative', exp', mnt')
    ensures negative == negative' && exp == exp' && mnt == mnt'
  {
    var high := (if negative then Pow2(wExp) else 0) + exp;
    var high' := (if negative' then Pow2(wExp) else 0) + exp';
    assert high * Pow2(wMnt) == Pow2(wMnt) * high && high' * Pow2(wMnt) == Pow2(wMnt) * high';
    ModUnique(n, Pow2(wMnt), high, mnt);
    ModUnique(n, Pow2(wMnt), high', mnt');
  }

  // ---------- Values ----------

  /** The magnitude of finite fields in units of the smallest subnormal. */
  ghost function Units(wMnt: nat, exp: nat, mnt: nat): nat {
    if exp == 0 then mnt else (Pow2(wMnt) + mnt) * Pow2(exp - 1)
  }

  /** How many smallest subnormals make up 1: two to the bias less one, times two to the mantissa width. */
  ghost function UnitsInOne(wExp: nat, wMnt: nat): nat
    requires wExp >= 1 && wMnt >= 1
  {
    Pow2(Pow2(wExp - 1) - 2 + wMnt)
  }

  ghost function Reciprocal(k: nat): (r: real)
    requires k > 0
    ensures r > 0.0 && r * k as real == 1.0
  {
    1.0 / k as real
  }

  /** The smallest subnormal. */
  ghost function UnitSize(wExp: nat, wMnt: nat): real
    requires wExp >= 1 && wMnt >= 1
  {
    Reciprocal(UnitsInOne(wExp, wMnt))
  }

  /** The reference value of the three fields: a whole number of units, with a sign. */
  ghost function ValueOf(wExp: nat, wMnt: nat, negative: bool, exp: nat, mnt: nat): Value
    requires wExp >= 1 && wMnt >= 1
  {
    var magnitude := Units(wMnt, exp, mnt) as real * UnitSize(wExp, wMnt);
    if exp == Pow2(wExp) - 1 then if mnt == 0 then Infinite(negative) else NaN
    else Finite(if negative then -magnitude else magnitude)
  }

  lemma DoubledReal(x: real, y: real)
    ensures 2.0 * (x * y) == x * (2.0 * y)
  {
  }

  lemma Pow2RZero()
    ensures Pow2R(0) == 1.0
  {
  }

  lemma Pow2RStep(e: int)
    ensures Pow2R(e) == 2.0 * Pow2R(e - 1)
  {
  }

  lemma {:induction false} Pow2RAdd(a: int, n: nat)
    ensures Pow2R(a + n) == Pow2R(a) * Pow2(n) as real
    decreases n
  {
    hide Pow2R;
    if n > 0 {
      Pow2RAdd(a, n - 1);
      Pow2RStep(a + n);
      assert a + n - 1 == a + (n - 1);
      assert Pow2(n) as real == 2.0 * Pow2(n - 1) as real;
      hide Pow2;
      DoubledReal(Pow2R(a), Pow2(n - 1) as real);
    }
  }

  /** The decoder's powers of two agree with the reference unit. */
  lemma UnitIsPower(wExp: nat, wMnt: nat)
    requires wExp >= 1 && wMnt >= 1
    ensures Pow2R(2 - Pow2(wExp - 1) - wMnt) == UnitSize(wExp, wMnt)
  {
    hide Pow2R, Pow2, Reciprocal;
    Pow2RZero();
    var low: int := 2 - Pow2(wExp - 1) - wMnt;
    Pow2RAdd(low, -low);
    Cancel(Pow2R(low), UnitSize(wExp, wMnt), Pow2(-low) as real);
  }

  lemma Cancel(x: real, y: real, k: real)
    requires k > 0.0 && x * k == y * k
    ensures x == y
  {
  }

  lemma Scaled(sgn: real, x: real, d: real, u: real, p: real)
    requires d != 0.0 && p == u * d
    ensures sgn * x / d * p == sgn * (x * u)
  {
    assert sgn * x / d * (u * d) == sgn * x * u;
  }

  lemma ScaledTwice(sgn: real, x: real, d: real, u: real, k: real, q: real)
    requires d != 0.0 && q == (u * d) * k
    ensures sgn * (x / d) * q == sgn * ((x * k) * u)
  {
    assert (x / d) * ((u * d) * k) == x * (u * k);
    assert sgn * (x / d) * q == sgn * ((x / d) * q);
  }

  lemma RealProduct(x: nat, y: nat)
    ensures (x * y) as real == x as real * y as real
  {
  }

  lemma Signed(negative: bool, x: real)
    ensures Sign(negative) * x == if negative then -x else x
  {
  }

  lemma SubnormalCase(negative: bool, mnt: nat, wExp: nat, wMnt: nat)
    requires wExp >= 1 && wMnt >= 1
    ensures var m := mnt as real * UnitSize(wExp, wMnt);
            Sign(negative) * (mnt as real) / (Pow2(wMnt) as real) * Pow2R(-(Pow2(wExp - 1) - 1) + 1)
            == if negative then -m else m
  {
    hide Pow2R, Pow2, Sign, UnitSize;
    UnitIsPower(wExp, wMnt);
    Pow2RAdd(2 - Pow2(wExp - 1) - wMnt, wMnt);
    Scaled(Sign(negative), mnt as real, Pow2(wMnt) as real, UnitSize(wExp, wMnt), Pow2R(-(Pow2(wExp - 1) - 1) + 1));
    Signed(negative, mnt as real * UnitSize(wExp, wMnt));
  }

  lemma NormalCase(negative: bool, exp: nat, implied: nat, wExp: nat, wMnt: nat)
    requires wExp >= 1 && wMnt >= 1 && exp >= 1
    ensures var m := (implied * Pow2(exp - 1)) as real * UnitSize(wExp, wMnt);
            Sign(negative) * (implied as real / Pow2(wMnt) as real) * Pow2R(exp - (Pow2(wExp - 1) - 1))
            == if negative then -m else m
  {
    hide Pow2R, Pow2, Sign, UnitSize;
    UnitIsPower(wExp, wMnt);
    var low := 2 - Pow2(wExp - 1) - wMnt;
    Pow2RAdd(low, wMnt);
    Pow2RAdd(low + wMnt, exp - 1);
    assert low + wMnt + (exp - 1) == exp - (Pow2(wExp - 1) - 1);
    ScaledTwice(Sign(negative), implied as real, Pow2(wMnt) as real, UnitSize(wExp, wMnt), Pow2(exp - 1) as real,
                Pow2R(exp - (Pow2(wExp - 1) - 1)));
    RealProduct(implied, Pow2(exp - 1));
    Signed(negative, (implied * Pow2(exp - 1)) as real * UnitSize(wExp, wMnt));
  }

  lemma ZeroUnits(u: real)
    ensures 0 as real * u == 0.0
  {
  }

  /** The code's case analysis computes the reference value. */
  lemma CasesAreValue(negative: bool, exp: nat, mnt: nat, wExp: nat, wMnt: nat)
    requires wExp >= 1 && wMnt >= 1
    ensures CaseAnalysis(negative, exp, mnt, Pow2(wMnt) + mnt, wExp, wMnt) == ValueOf(wExp, wMnt, negative, exp, mnt)
  {
    hide Pow2R, Pow2, UnitSize;
    if exp == 0 && mnt == 0 {
      ZeroUnits(UnitSize(wExp, wMnt));
    } else if exp == 0 {
      SubnormalIsValue(negative, mnt, wExp, wMnt);
    } else {
      NormalIsValue(negative, exp, mnt, wExp, wMnt);
    }
  }

  lemma SubnormalIsValue(negative: bool, mnt: nat, wExp: nat, wMnt: nat)
    requires wExp >= 1 && wMnt >= 1 && mnt > 0
    ensures CaseAnalysis(negative, 0, mnt, Pow2(wMnt) + mnt, wExp, wMnt) == ValueOf(wExp, wMnt, negative, 0, mnt)
  {
    hide Pow2R, Pow2, UnitSize, Sign;
    SubnormalCase(negative, mnt, wExp, wMnt);
  }

  lemma NormalIsValue(negative: bool, exp: nat, mnt: nat, wExp: nat, wMnt: nat)
    requires wExp >= 1 && wMnt >= 1 && exp >= 1
    ensures CaseAnalysis(negative, exp, mnt, Pow2(wMnt) + mnt, wExp, wMnt) == ValueOf(wExp, wMnt, negative, exp, mnt)
  {
    hide *;
    NormalComputed(negative, exp, mnt, Pow2(wMnt) + mnt, wExp, wMnt);
    NormalReference(negative, exp, mnt, wExp, wMnt);
    NormalCase(negative, exp, Pow2(wMnt) + mnt, wExp, wMnt);
  }

  /** What the code computes for a normal number. */
  lemma NormalComputed(negative: bool, exp: nat, mnt: nat, implied: nat, wExp: nat, wMnt: nat)
    requires wExp >= 1 && wMnt >= 1 && exp >= 1
    ensures CaseAnalysis(negative, exp, mnt, implied, wExp, wMnt) ==
            if exp == Pow2(wExp) - 1 then if mnt == 0 then Infinite(negative) else NaN
            else Finite(Sign(negative) * (implied as real / Pow2(wMnt) as real) * Pow2R(exp - (Pow2(wExp - 1) - 1)))
  {
    hide Pow2R, Pow2, Sign;
    assert exp + -(Pow2(wExp - 1) - 1) == exp - (Pow2(wExp - 1) - 1);
  }

  /** The reference value of a normal number. */
  lemma NormalReference(negative: bool, exp: nat, mnt: nat, wExp: nat, wMnt: nat)
    requires wExp >= 1 && wMnt >= 1 && exp >= 1
    ensures var m := ((Pow2(wMnt) + mnt) * Pow2(exp - 1)) as real * UnitSize(wExp, wMnt);
            ValueOf(wExp, wMnt, negative, exp, mnt) ==
            if exp == Pow2(wExp) - 1 then if mnt == 0 then Infinite(negative) else NaN
            else Finite(if negative then -m else m)
  {
    hide Pow2, UnitSize;
  }

  lemma TextHasFields(val: nat, wExp: nat, wMnt: nat, negative: bool, exp: nat, mnt: nat)
    requires ValidFormat(wExp, wMnt)
    requires Fields(val % Pow2(1 + wExp + wMnt), wExp, wMnt, negative, exp, mnt)
    ensures var b := LastN(Format(val), 1 + wExp + wMnt);
            && |b| == 1 + wExp + wMnt && b[0] == negative
            && Parse(b[1..wExp + 1]) == exp && Parse(b[wExp + 1..]) == mnt
            && Parse([true] + b[wExp + 1..]) == Pow2(wMnt) + mnt
  {
    hide Pow2, Parse, Format, LastN, Fields;
    var b := LastN(Format(val), 1 + wExp + wMnt);
    SliceValue(val, 1 + wExp + wMnt);
    SlicesAreFields(b, wExp, wMnt);
    FieldsUnique(Parse(b), wExp, wMnt, b[0], Parse(b[1..wExp + 1]), Parse(b[wExp + 1..]), negative, exp, mnt);
    ParseCons(true, b[wExp + 1..]);
  }

  /** The decoder returns the value of the fields of the low bits. */
  lemma DecodeFields(val: nat, wExp: nat, wMnt: nat, negative: bool, exp: nat, mnt: nat)
    requires ValidFormat(wExp, wMnt)
    requires Fields(val % Pow2(1 + wExp + wMnt), wExp, wMnt, negative, exp, mnt)
    ensures Decode(val, wExp, wMnt) == ValueOf(wExp, wMnt, negative, exp, mnt)
  {
    hide Pow2, Pow2R, Parse, Format, LastN, Fields, CaseAnalysis, ValueOf;
    TextHasFields(val, wExp, wMnt, negative, exp, mnt);
    CasesAreValue(negative, exp, mnt, wExp, wMnt);
  }

  lemma Unscaled(x: nat, u: real, k: real)
    requires u * k == 1.0
    ensures (x as real * u) * k == x as real
    ensures (-(x as real * u)) * k == -(x as real)
  {
    assert (x as real * u) * k == x as real * (u * k);
  }

  /**
   The absolute scale, in whole numbers: a finite value times 2^(2^(wExp-1) - 2 + wMnt) is, up to its sign, the
   number of smallest subnormals that the exponent and mantissa fields stand for.
   */
  lemma DecodeScaled(val: nat, wExp: nat, wMnt: nat, negative: bool, exp: nat, mnt: nat)
    requires ValidFormat(wExp, wMnt) && exp < Pow2(wExp) - 1
    requires Fields(val % Pow2(1 + wExp + wMnt), wExp, wMnt, negative, exp, mnt)
    ensures var units := (if exp == 0 then mnt else (Pow2(wMnt) + mnt) * Pow2(exp - 1)) as real;
            && Decode(val, wExp, wMnt).Finite?
            && Decode(val, wExp, wMnt).v * Pow2(Pow2(wExp - 1) - 2 + wMnt) as real == if negative then -units else units
  {
    hide Decode, Pow2, Fields, Reciprocal;
    DecodeFields(val, wExp, wMnt, negative, exp, mnt);
    Unscaled(Units(wMnt, exp, mnt), UnitSize(wExp, wMnt), UnitsInOne(wExp, wMnt) as real);
  }

  /** The fields of 1: the exponent is the bias, the mantissa is empty. */
  lemma FieldsOfOne(wExp: nat, wMnt: nat)
    requires wExp >= 2
    ensures var bias := Pow2(wExp - 1) - 1;
            && 1 <= bias < Pow2(wExp) - 1
            && Fields(bias * Pow2(wMnt), wExp, wMnt, false, bias, 0)
            && Fields(bias * Pow2(wMnt) + Pow2(wExp + wMnt), wExp, wMnt, true, bias, 0)
  {
    Pow2Monotone(1, wExp - 1);
    SetSign((Pow2(wExp - 1) - 1) * Pow2(wMnt), wExp, wMnt, Pow2(wExp - 1) - 1, 0);
  }

  /** The pattern whose exponent field is the bias, with empty mantissa, decodes to 1, and with the sign bit to -1. */
  lemma DecodeOne(wExp: nat, wMnt: nat)
    requires ValidFormat(wExp, wMnt) && wExp >= 2
    ensures var one := (Pow2(wExp - 1) - 1) * Pow2(wMnt);
            && Decode(one, wExp, wMnt) == Finite(1.0)
            && Decode(one + Pow2(wExp + wMnt), wExp, wMnt) == Finite(-1.0)
  {
    hide Decode, Pow2, Fields;
    var bias := Pow2(wExp - 1) - 1;
    FieldsOfOne(wExp, wMnt);
    OneFrom(bias * Pow2(wMnt), wExp, wMnt, false);
    OneFrom(bias * Pow2(wMnt) + Pow2(wExp + wMnt), wExp, wMnt, true);
  }

  lemma OneFrom(n: nat, wExp: nat, wMnt: nat, negative: bool)
    requires ValidFormat(wExp, wMnt) && wExp >= 2 && 1 <= Pow2(wExp - 1) - 1 < Pow2(wExp) - 1
    requires Fields(n, wExp, wMnt, negative, Pow2(wExp - 1) - 1, 0)
    ensures Decode(n, wExp, wMnt) == Finite(if negative then -1.0 else 1.0)
  {
    hide Decode, Pow2, Fields;
    var bias, k := Pow2(wExp - 1) - 1, Pow2(Pow2(wExp - 1) - 2 + wMnt) as real;
    PatternFits(n, wExp, wMnt, negative, bias, 0);
    DecodeScaled(n, wExp, wMnt, negative, bias, 0);
    Pow2Add(wMnt, bias - 1);
    assert wMnt + (bias - 1) == Pow2(wExp - 1) - 2 + wMnt;
    Cancel(Decode(n, wExp, wMnt).v, if negative then -1.0 else 1.0, k);
  }

  // ---------- Order ----------

  lemma {:induction false} Pow2Monotone(a: nat, b: nat)
    requires a <= b
    ensures Pow2(a) <= Pow2(b)
  {
    if a < b { Pow2Monotone(a, b - 1); }
  }

  lemma MulMonotone(x: nat, y: nat, k: nat)
    requires x <= y
    ensures x * k <= y * k
  {
  }

  lemma SameBinade(x: nat, y: nat, k: nat)
    requires x < y && k > 0
    ensures x * k < y * k
  {
    MulMonotone(x + 1, y, k);
    assert (x + 1) * k == x * k + k;
  }

  lemma LaterBinade(p: nat, mnt: nat, mnt': nat, e: nat, e': nat)
    requires mnt < p && e < e'
    ensures (p + mnt) * Pow2(e) < (p + mnt') * Pow2(e')
  {
    SameBinade(p + mnt, 2 * p, Pow2(e));
    assert (2 * p) * Pow2(e) == Pow2(e + 1) * p;
    Pow2Monotone(e + 1, e');
    MulMonotone(Pow2(e + 1), Pow2(e'), p);
    MulMonotone(p, p + mnt', Pow2(e'));
    assert Pow2(e') * p == p * Pow2(e');
  }

  lemma AboveSubnormals(p: nat, mnt: nat, mnt': nat, e': nat)
    requires mnt < p
    ensures mnt < (p + mnt') * Pow2(e')
  {
    MulMonotone(1, Pow2(e'), p + mnt');
    assert Pow2(e') * (p + mnt') == (p + mnt') * Pow2(e');
  }

  /** Units increase with the fields, across the subnormal boundary and every binade boundary. */
  lemma UnitsIncrease(wMnt: nat, exp: nat, mnt: nat, exp': nat, mnt': nat)
    requires mnt < Pow2(wMnt) && mnt' < Pow2(wMnt)
    requires exp < exp' || (exp == exp' && mnt < mnt')
    ensures Units(wMnt, exp, mnt) < Units(wMnt, exp', mnt')
  {
    if exp == exp' {
      if exp > 0 { SameBinade(Pow2(wMnt) + mnt, Pow2(wMnt) + mnt', Pow2(exp - 1)); }
    } else if exp == 0 {
      AboveSubnormals(Pow2(wMnt), mnt, mnt', exp' - 1);
    } else {
      LaterBinade(Pow2(wMnt), mnt, mnt', exp - 1, exp' - 1);
    }
  }

  lemma ScaleStrict(x: nat, y: nat, u: real)
    requires x < y && u > 0.0
    ensures x as real * u < y as real * u
  {
  }

  // ---------- The order and injectivity theorems ----------

  /** A pattern of the format that is neither infinite nor NaN. */
  ghost predicate FinitePattern(n: nat, wExp: nat, wMnt: nat, negative: bool, exp: nat, mnt: nat) {
    Fields(n, wExp, wMnt, negative, exp, mnt) && exp < Pow2(wExp) - 1
  }

  lemma Bounded(high: nat, bound: nat, low: nat, q: nat)
    requires high < bound && low < q
    ensures high * q + low < bound * q
  {
    MulMonotone(high + 1, bound, q);
    assert (high + 1) * q == high * q + q;
  }

  /** A pattern that fits the format is its own low bits. */
  lemma PatternFits(n: nat, wExp: nat, wMnt: nat, negative: bool, exp: nat, mnt: nat)
    requires Fields(n, wExp, wMnt, negative, exp, mnt)
    ensures n % Pow2(1 + wExp + wMnt) == n
  {
    Bounded((if negative then Pow2(wExp) else 0) + exp, Pow2(1 + wExp), mnt, Pow2(wMnt));
    Pow2Add(1 + wExp, wMnt);
    SmallMod(n, Pow2(1 + wExp + wMnt));
  }

  lemma SmallMod(n: nat, m: nat)
    requires n < m
    ensures n % m == n
  {
  }

  lemma HigherFirst(high: nat, low: nat, high': nat, low': nat, q: nat)
    requires high > high' && low' < q
    ensures high * q + low > high' * q + low'
  {
    MulMonotone(high' + 1, high, q);
    assert (high' + 1) * q == high' * q + q;
  }

  /** Larger non-negative patterns have larger fields. */
  lemma PatternOrder(n: nat, n': nat, wExp: nat, wMnt: nat, exp: nat, mnt: nat, exp': nat, mnt': nat)
    requires Fields(n, wExp, wMnt, false, exp, mnt) && Fields(n', wExp, wMnt, false, exp', mnt') && n < n'
    ensures exp < exp' || (exp == exp' && mnt < mnt')
  {
    if exp > exp' {
      HigherFirst(exp, mnt, exp', mnt', Pow2(wMnt));
    }
  }

  lemma FieldsIncreasing(n: nat, n': nat, wExp: nat, wMnt: nat, exp: nat, mnt: nat, exp': nat, mnt': nat)
    requires ValidFormat(wExp, wMnt) && n < n'
    requires FinitePattern(n, wExp, wMnt, false, exp, mnt) && FinitePattern(n', wExp, wMnt, false, exp', mnt')
    ensures Decode(n, wExp, wMnt).Finite? && Decode(n', wExp, wMnt).Finite?
    ensures Decode(n, wExp, wMnt).v < Decode(n', wExp, wMnt).v
  {
    hide Decode, Pow2R, Pow2, Units;
    PatternFits(n, wExp, wMnt, false, exp, mnt);
    PatternFits(n', wExp, wMnt, false, exp', mnt');
    DecodeFields(n, wExp, wMnt, false, exp, mnt);
    DecodeFields(n', wExp, wMnt, false, exp', mnt');
    PatternOrder(n, n', wExp, wMnt, exp, mnt, exp', mnt');
    UnitsIncrease(wMnt, exp, mnt, exp', mnt');
    ScaleStrict(Units(wMnt, exp, mnt), Units(wMnt, exp', mnt'), UnitSize(wExp, wMnt));
  }

  lemma UnitsInjective(wMnt: nat, exp: nat, mnt: nat, exp': nat, mnt': nat)
    requires mnt < Pow2(wMnt) && mnt' < Pow2(wMnt)
    ensures Units(wMnt, exp, mnt) == Units(wMnt, exp', mnt') <==> exp == exp' && mnt == mnt'
    ensures Units(wMnt, exp, mnt) == 0 <==> exp == 0 && mnt == 0
  {
    if exp > 0 || mnt > 0 {
      UnitsIncrease(wMnt, 0, 0, exp, mnt);
    }
    if exp < exp' || (exp == exp' && mnt < mnt') {
      UnitsIncrease(wMnt, exp, mnt, exp', mnt');
    } else if exp' < exp || (exp == exp' && mnt' < mnt) {
      UnitsIncrease(wMnt, exp', mnt', exp, mnt);
    }
  }

  lemma SignedEqual(x: nat, negative: bool, y: nat, negative': bool, u: real)
    requires u > 0.0
    ensures (if negative then -(x as real * u) else x as real * u)
            == (if negative' then -(y as real * u) else y as real * u)
            <==> x == y && (negative == negative' || x == 0)
  {
    if x < y { ScaleStrict(x, y, u); }
    if y < x { ScaleStrict(y, x, u); }
    if x > 0 { ScaleStrict(0, x, u); }
    if y > 0 { ScaleStrict(0, y, u); }
  }

  lemma FieldsInjective(n: nat, n': nat, wExp: nat, wMnt: nat, negative: bool, exp: nat, mnt: nat,
                        negative': bool, exp': nat, mnt': nat)
    requires ValidFormat(wExp, wMnt)
    requires FinitePattern(n, wExp, wMnt, negative, exp, mnt)
    requires FinitePattern(n', wExp, wMnt, negative', exp', mnt')
    ensures Decode(n, wExp, wMnt) == Decode(n', wExp, wMnt) <==>
            n == n' || (exp == exp' == 0 && mnt == mnt' == 0)
  {
    hide Decode, Pow2R, Pow2, Units;
    PatternFits(n, wExp, wMnt, negative, exp, mnt);
    PatternFits(n', wExp, wMnt, negative', exp', mnt');
    DecodeFields(n, wExp, wMnt, negative, exp, mnt);
    DecodeFields(n', wExp, wMnt, negative', exp', mnt');
    UnitsInjective(wMnt, exp, mnt, exp', mnt');
    SignedEqual(Units(wMnt, exp, mnt), negative, Units(wMnt, exp', mnt'), negative', UnitSize(wExp, wMnt));
    if n == n' {
      FieldsUnique(n, wExp, wMnt, negative, exp, mnt, negative', exp', mnt');
    }
  }

  lemma DivMod(n: nat, q: nat)
    requires q > 0
    ensures n == (n / q) * q + n % q && n % q < q
  {
  }

  /** The quotient is below a bound exactly if the number is below the bound's multiple. */
  lemma QuotientBound(n: nat, q: nat, bound: nat)
    requires q > 0
    ensures n / q < bound <==> n < bound * q
  {
    DivMod(n, q);
    if n / q < bound {
      Bounded(n / q, bound, n % q, q);
    } else {
      MulMonotone(bound, n / q, q);
    }
  }

  lemma SplitNumber(n: nat, p: nat, q: nat) returns (negative: bool, exp: nat, mnt: nat)
    requires p > 0 && q > 0 && n < (2 * p) * q
    ensures exp < p && mnt < q && n == ((if negative then p else 0) + exp) * q + mnt
    ensures negative <==> n >= p * q
  {
    var high := n / q;
    mnt := n % q;
    QuotientBound(n, q, 2 * p);
    QuotientBound(n, q, p);
    DivMod(n, q);
    negative := high >= p;
    exp := if negative then high - p else high;
  }

  /** Every pattern of the width has fields. */
  lemma ReadFields(n: nat, wExp: nat, wMnt: nat) returns (negative: bool, exp: nat, mnt: nat)
    requires n < Pow2(1 + wExp + wMnt)
    ensures Fields(n, wExp, wMnt, negative, exp, mnt)
    ensures negative <==> n >= Pow2(wExp + wMnt)
  {
    assert Pow2(1 + wExp) == 2 * Pow2(wExp);
    hide Pow2;
    Pow2Add(1 + wExp, wMnt);
    Pow2Add(wExp, wMnt);
    negative, exp, mnt := SplitNumber(n, Pow2(wExp), Pow2(wMnt));
  }

  /** The exponent field is not all ones. */
  predicate FiniteCode(n: nat, wExp: nat, wMnt: nat) {
    (n / Pow2(wMnt)) % Pow2(wExp) != Pow2(wExp) - 1
  }

  lemma ExponentField(n: nat, wExp: nat, wMnt: nat, negative: bool, exp: nat, mnt: nat)
    requires Fields(n, wExp, wMnt, negative, exp, mnt)
    ensures (n / Pow2(wMnt)) % Pow2(wExp) == exp
  {
    hide Pow2;
    var high := (if negative then Pow2(wExp) else 0) + exp;
    assert high * Pow2(wMnt) == Pow2(wMnt) * high;
    ModUnique(n, Pow2(wMnt), high, mnt);
    ModUnique(high, Pow2(wExp), if negative then 1 else 0, exp);
  }

  /** A pattern decodes to a finite value exactly if its exponent field is not all ones. */
  lemma FiniteExactly(n: nat, wExp: nat, wMnt: nat)
    requires ValidFormat(wExp, wMnt) && n < Pow2(1 + wExp + wMnt)
    ensures Decode(n, wExp, wMnt).Finite? <==> FiniteCode(n, wExp, wMnt)
  {
    hide Decode, Fields, Pow2;
    var negative, exp, mnt := ReadFields(n, wExp, wMnt);
    ExponentField(n, wExp, wMnt, negative, exp, mnt);
    FiniteFields(n, wExp, wMnt, negative, exp, mnt);
    FieldBounds(n, wExp, wMnt, negative, exp, mnt);
  }

  lemma FieldBounds(n: nat, wExp: nat, wMnt: nat, negative: bool, exp: nat, mnt: nat)
    requires Fields(n, wExp, wMnt, negative, exp, mnt)
    ensures exp < Pow2(wExp) && mnt < Pow2(wMnt)
  {
  }

  /** A finite pattern with its fields. */
  lemma ReadFinite(n: nat, wExp: nat, wMnt: nat) returns (negative: bool, exp: nat, mnt: nat)
    requires n < Pow2(1 + wExp + wMnt) && FiniteCode(n, wExp, wMnt)
    ensures FinitePattern(n, wExp, wMnt, negative, exp, mnt)
    ensures negative <==> n >= Pow2(wExp + wMnt)
  {
    hide Fields, Pow2;
    negative, exp, mnt := ReadFields(n, wExp, wMnt);
    ExponentField(n, wExp, wMnt, negative, exp, mnt);
    FieldBounds(n, wExp, wMnt, negative, exp, mnt);
  }

  lemma NonNegativeFits(n: nat, w: nat)
    requires n < Pow2(w)
    ensures n < Pow2(1 + w)
  {
  }

  /** Decoding is strictly increasing in the bit pattern over all non-negative finite encodings. */
  lemma DecodeIncreasing(n: nat, n': nat, wExp: nat, wMnt: nat)
    requires ValidFormat(wExp, wMnt) && n < n' < Pow2(wExp + wMnt)
    requires FiniteCode(n, wExp, wMnt) && FiniteCode(n', wExp, wMnt)
    ensures Decode(n, wExp, wMnt).Finite? && Decode(n', wExp, wMnt).Finite?
    ensures Decode(n, wExp, wMnt).v < Decode(n', wExp, wMnt).v
  {
    hide Decode, Pow2, FinitePattern, FiniteCode, ValidFormat;
    NonNegativeFits(n, wExp + wMnt);
    NonNegativeFits(n', wExp + wMnt);
    var s, exp, mnt := ReadFinite(n, wExp, wMnt);
    var s', exp', mnt' := ReadFinite(n', wExp, wMnt);
    FieldsIncreasing(n, n', wExp, wMnt, exp, mnt, exp', mnt');
  }

  /** A field reading is finite exactly if its exponent is not all ones. */
  lemma FiniteFields(n: nat, wExp: nat, wMnt: nat, negative: bool, exp: nat, mnt: nat)
    requires ValidFormat(wExp, wMnt) && Fields(n, wExp, wMnt, negative, exp, mnt)
    ensures Decode(n, wExp, wMnt).Finite? <==> exp < Pow2(wExp) - 1
  {
    hide Decode, Units;
    PatternFits(n, wExp, wMnt, negative, exp, mnt);
    DecodeFields(n, wExp, wMnt, negative, exp, mnt);
  }

  /** The two encodings of zero. */
  predicate ZeroCode(n: nat, wExp: nat, wMnt: nat) {
    n == 0 || n == Pow2(wExp + wMnt)
  }

  /** Two finite patterns of the width decode to the same value only if they are equal or both are zeros. */
  lemma DecodeInjective(n: nat, n': nat, wExp: nat, wMnt: nat)
    requires ValidFormat(wExp, wMnt) && n < Pow2(1 + wExp + wMnt) && n' < Pow2(1 + wExp + wMnt)
    requires FiniteCode(n, wExp, wMnt) && FiniteCode(n', wExp, wMnt)
    ensures Decode(n, wExp, wMnt) == Decode(n', wExp, wMnt) <==>
            n == n' || (ZeroCode(n, wExp, wMnt) && ZeroCode(n', wExp, wMnt))
  {
    hide Decode, Pow2, FiniteCode, ValidFormat, Fields;
    var s, exp, mnt := ReadFinite(n, wExp, wMnt);
    var s', exp', mnt' := ReadFinite(n', wExp, wMnt);
    FieldsInjective(n, n', wExp, wMnt, s, exp, mnt, s', exp', mnt');
    ZeroPatterns(n, wExp, wMnt, s, exp, mnt);
    ZeroPatterns(n', wExp, wMnt, s', exp', mnt');
  }

  lemma ZeroPatterns(n: nat, wExp: nat, wMnt: nat, negative: bool, exp: nat, mnt: nat)
    requires Fields(n, wExp, wMnt, negative, exp, mnt)
    ensures exp == 0 && mnt == 0 <==> ZeroCode(n, wExp, wMnt)
  {
    Pow2Add(wExp, wMnt);
    if n == 0 {
      FieldsUnique(n, wExp, wMnt, negative, exp, mnt, false, 0, 0);
    } else if n == Pow2(wExp + wMnt) {
      FieldsUnique(n, wExp, wMnt, negative, exp, mnt, true, 0, 0);
    }
  }

  lemma Distribute(x: int, y: int, q: int)
    ensures (x + y) * q == x * q + y * q
  {
  }

  lemma FieldsNegate(n: nat, n': nat, wExp: nat, wMnt: nat, exp: nat, mnt: nat)
    requires ValidFormat(wExp, wMnt)
    requires FinitePattern(n, wExp, wMnt, false, exp, mnt) && FinitePattern(n', wExp, wMnt, true, exp, mnt)
    ensures Decode(n, wExp, wMnt).Finite? && Decode(n', wExp, wMnt) == Finite(-Decode(n, wExp, wMnt).v)
  {
    hide Decode, Units, UnitSize, Pow2;
    PatternFits(n, wExp, wMnt, false, exp, mnt);
    PatternFits(n', wExp, wMnt, true, exp, mnt);
    DecodeFields(n, wExp, wMnt, false, exp, mnt);
    DecodeFields(n', wExp, wMnt, true, exp, mnt);
  }

  lemma SetSign(n: nat, wExp: nat, wMnt: nat, exp: nat, mnt: nat)
    requires Fields(n, wExp, wMnt, false, exp, mnt)
    ensures Fields(n + Pow2(wExp + wMnt), wExp, wMnt, true, exp, mnt)
  {
    hide Pow2;
    Pow2Add(wExp, wMnt);
    Distribute(Pow2(wExp), exp, Pow2(wMnt));
  }

  /** Setting the sign bit negates. */
  lemma DecodeNegates(n: nat, wExp: nat, wMnt: nat)
    requires ValidFormat(wExp, wMnt) && n < Pow2(wExp + wMnt) && FiniteCode(n, wExp, wMnt)
    ensures Decode(n, wExp, wMnt).Finite?
    ensures Decode(n + Pow2(wExp + wMnt), wExp, wMnt) == Finite(-Decode(n, wExp, wMnt).v)
  {
    hide Decode, Pow2, Fields, FiniteCode, ValidFormat;
    NonNegativeFits(n, wExp + wMnt);
    var _, exp, mnt := ReadFinite(n, wExp, wMnt);
    SetSign(n, wExp, wMnt, exp, mnt);
    FieldsNegate(n, n + Pow2(wExp + wMnt), wExp, wMnt, exp, mnt);
  }

  /** Bits above the format's width do not matter. */
  lemma DecodeIgnoresHighBits(val: nat, wExp: nat, wMnt: nat)
    requires ValidFormat(wExp, wMnt)
    ensures Decode(val, wExp, wMnt) == Decode(val % Pow2(1 + wExp + wMnt), wExp, wMnt)
  {
    hide Decode;
    var n := val % Pow2(1 + wExp + wMnt);
    var negative, exp, mnt := ReadFields(n, wExp, wMnt);
    PatternFits(n, wExp, wMnt, negative, exp, mnt);
    DecodeFields(val, wExp, wMnt, negative, exp, mnt);
    DecodeFields(n, wExp, wMnt, negative, exp, mnt);
  }
}
