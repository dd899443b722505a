/**
The numbers of module Values are those of the binary64 format of IEEE 754: what the bits of a REAL stand for, and which
neighbour an INTEGER is rounded to.
*/
module Float64 {
  import opened Bytes
  import opened Values

  /** The bit of the sign, and the distance from one exponent to the next. */
  const SIGN := 0x8000_0000_0000_0000
  const BINADE := 0x10_0000_0000_0000

  function Negated(x: Number): Number {
    match x
    case NaN => NaN
    case NegInf => PosInf
    case PosInf => NegInf
    case Finite(r) => Finite(-r)
  }

  /** The highest bit is the sign. */
  lemma SignFlips(bits: nat)
    requires bits < SIGN
    ensures NumberOf(bits + SIGN) == Negated(NumberOf(bits))
  {
    assert (bits + SIGN) / SIGN == 1 && bits / SIGN == 0;
    assert (bits + SIGN) / BINADE % 2048 == bits / BINADE % 2048;
    assert (bits + SIGN) % BINADE == bits % BINADE;
  }

  /** m times 2 to the power e. */
  function Scaled(m: nat, e: int): real {
    if e >= 0 then (m * Pow2(e)) as real else m as real / Pow2(-e) as real
  }

  lemma NormalIs(exp: nat, frac: nat)
    requires 1 <= exp <= 2046 && frac < BINADE
    ensures NumberOf(exp * BINADE + frac) == Finite(Scaled(BINADE + frac, exp - 1075))
  {
    var bits := exp * BINADE + frac;
    assert bits / BINADE == exp && bits % BINADE == frac && bits / SIGN == 0;
  }

  lemma ScaledDoubles(m: nat, e: int)
    ensures Scaled(m, e + 1) == 2.0 * Scaled(m, e)
  {
    if e >= 0 { Doubled(m, Pow2(e)); } else { Halved(m as real, Pow2(-e - 1) as real); }
  }

  lemma Doubled(m: nat, p: nat)
    ensures (m * (2 * p)) as real == 2.0 * (m * p) as real
  {
    assert m * (2 * p) == 2 * (m * p);
  }

  lemma Halved(m: real, p: real)
    requires p > 0.0
    ensures m / p == 2.0 * (m / (2.0 * p))
  {
  }

  /** One more in the exponent doubles a normal number. */
  lemma NextBinadeDoubles(bits: nat)
    requires BINADE <= bits < 2046 * BINADE
    ensures NumberOf(bits).Finite? && NumberOf(bits + BINADE) == Finite(2.0 * NumberOf(bits).r)
  {
    var exp, frac := bits / BINADE, bits % BINADE;
    assert bits == exp * BINADE + frac && bits + BINADE == (exp + 1) * BINADE + frac;
    hide NumberOf, Scaled;
    NormalIs(exp, frac);
    NormalIs(exp + 1, frac);
    ScaledDoubles(BINADE + frac, exp - 1075);
  }

  /** From 1 to 2 the numbers are evenly spaced. */
  lemma BinadeOfOne(frac: nat)
    requires frac < BINADE
    ensures NumberOf(0x3FF0_0000_0000_0000 + frac) == Finite(1.0 + frac as real / BINADE as real)
  {
    PowerOfBinade();
    var bits := 0x3FF0_0000_0000_0000 + frac;
    assert bits / BINADE == 1023 && bits % BINADE == frac && bits / SIGN == 0;
  }

  lemma {:induction false} PowersAdd(a: nat, b: nat)
    ensures Pow2(a + b) == Pow2(a) * Pow2(b)
  {
    if b > 0 { PowersAdd(a, b - 1); }
  }

  lemma PowerOfBinade()
    ensures Pow2(52) == BINADE
  {
    assert Pow2(4) == 16 && Pow2(8) == 0x100;
    PowersAdd(8, 8);
    PowersAdd(16, 16);
    PowersAdd(32, 16);
    PowersAdd(48, 4);
  }

  /** Below the normal numbers the spacing stays that of the smallest of them. */
  lemma Subnormals(frac: nat)
    requires frac < 2 * BINADE
    ensures NumberOf(frac) == Finite(frac as real / Pow2(1074) as real)
  {
    if frac >= BINADE {
      assert frac / BINADE == 1 && frac % BINADE == frac - BINADE;
    } else {
      assert frac / BINADE == 0 && frac % BINADE == frac;
    }
  }

  /** The greatest exponent is kept for infinity and for what is not a number. */
  lemma Specials(frac: nat)
    requires frac < BINADE
    ensures NumberOf(0x7FF0_0000_0000_0000 + frac) == if frac == 0 then PosInf else NaN
  {
    var bits := 0x7FF0_0000_0000_0000 + frac;
    assert bits / BINADE == 2047 && bits % BINADE == frac && bits / SIGN == 0;
  }

  /** The k-th multiple of s is nearest to n, and k is even where another one is as near. */
  ghost predicate Nearest(n: nat, s: nat, k: nat) {
    var x := k * s;
    2 * x <= 2 * n + s && 2 * n <= 2 * x + s && (2 * x == 2 * n + s || 2 * n == 2 * x + s ==> k % 2 == 0)
  }

  lemma RoundedIsNearest(n: nat, s: nat) returns (k: nat)
    requires s > 0
    ensures RoundTo(n, s) == k * s && Nearest(n, s, k)
  {
    DivBounds(n, s);
    k := PartsNearest(n / s, n % s, s, n / s * s, n);
  }

  lemma PartsNearest(q: nat, r: nat, s: nat, p: nat, n: nat) returns (k: nat)
    requires p == q * s && r < s && n == p + r
    ensures Rounded(q, r, s) == k * s && Nearest(n, s, k)
  {
    k := if 2 * r > s || (2 * r == s && q % 2 == 1) then q + 1 else q;
    assert (q + 1) * s == p + s;
  }

  /** An integer becomes the nearest of the numbers that have 53 significant bits, the even one of two; the sign makes no difference. */
  lemma RoundsToNearest(n: nat) returns (k: nat)
    ensures var s := Pow2(Excess(n));
      Float(n) == k * s && Nearest(n, s, k) && n < TWO_53 * s && (s > 1 ==> 2 * n >= TWO_53 * s)
    ensures Float(0 - n) == 0 - Float(n)
  {
    ExcessBounds(n);
    k := RoundedIsNearest(n, Pow2(Excess(n)));
  }

  /** Comparison of numbers: infinities at the ends, and nothing with what is not a number. */
  lemma NumbersInOrder(x: real, y: real)
    ensures Less(Finite(x), Finite(y)) <==> x < y
    ensures Less(NegInf, Finite(x)) && Less(Finite(x), PosInf) && Less(NegInf, PosInf)
    ensures !Less(Finite(x), NegInf) && !Less(PosInf, Finite(x)) && !Less(PosInf, NegInf) && !Less(NegInf, NegInf) && !Less(PosInf, PosInf)
    ensures forall z :: !Less(NaN, z) && !Less(z, NaN)
  {
  }
}
