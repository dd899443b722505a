/**
SQL values and their order. Integers are compared with reals through float64, which rounds; this
module says exactly when that comparison is an order at all.
*/
module Values {
  import opened Bytes
  import opened Cells

  /** An INTEGER is a 64-bit integer, a REAL the 64 bits of a float64, TEXT and BLOB are bytes. */
  datatype Value = Null | Integer(n: int) | Real(bits: nat) | Text(t: seq<Byte>) | Blob(b: seq<Byte>)

  predicate Sane(v: Value) {
    match v
    case Integer(n) => -TWO_63 <= n < TWO_63
    case Real(bits) => bits < TWO_64
    case _ => true
  }

  // ---- float64 ----

  const TWO_53 := 0x20_0000_0000_0000

  function Pow2(k: nat): (p: nat)
    ensures p > 0
  {
    if k == 0 then 1 else 2 * Pow2(k - 1)
  }

  /** What a float64 stands for. */
  datatype Number = NaN | NegInf | Finite(r: real) | PosInf

  /** The number with these bits: sign, 11 bits of exponent, 52 bits of fraction. */
  function NumberOf(bits: nat): Number {
    var sign, exp, frac := bits / 0x8000_0000_0000_0000, bits / 0x10_0000_0000_0000 % 2048, bits % 0x10_0000_0000_0000;
    if exp == 2047 then (if frac != 0 then NaN else if sign == 0 then PosInf else NegInf)
    else
      var m := if exp == 0 then frac else 0x10_0000_0000_0000 + frac;
      var e := if exp == 0 then -1074 else exp - 1075;
      var size := if e >= 0 then (m * Pow2(e)) as real else m as real / Pow2(-e) as real;
      Finite(if sign == 0 then size else -size)
  }

  /** How many low bits of n do not fit the 53 bits of a float64. */
  function Excess(n: nat): nat {
    if n < TWO_53 then 0 else 1 + Excess(n / 2)
  }

  /** n to the nearest multiple of s, half-way cases to the even one. */
  function RoundTo(n: nat, s: nat): nat
    requires s > 0
  {
    Rounded(n / s, n % s, s)
  }

  /** The multiple of s nearest to q * s + r, the even one when both are as near. */
  function Rounded(q: nat, r: nat, s: nat): nat {
    if 2 * r > s || (2 * r == s && q % 2 == 1) then (q + 1) * s else q * s
  }

  /** The integer that the conversion of n to float64 stands for. */
  function Float(n: int): int {
    if n < 0 then 0 - RoundTo(-n, Pow2(Excess(-n))) else RoundTo(n, Pow2(Excess(n)))
  }

  function ToReal(v: Value): Number
    requires v.Integer? || v.Real?
  {
    if v.Integer? then Finite(Float(v.n) as real) else NumberOf(v.bits)
  }

  /** Comparison of float64: false whenever one side is not a number. */
  predicate Less(a: Number, b: Number) {
    match (a, b)
    case (NaN, _) => false
    case (_, NaN) => false
    case (NegInf, _) => b != NegInf
    case (_, PosInf) => a != PosInf
    case (Finite(x), Finite(y)) => x < y
    case _ => false
  }

  // ---- the comparison of the source ----

  function CompareNumeric(a: Value, b: Value): int
    requires (a.Integer? || a.Real?) && (b.Integer? || b.Real?)
  {
    if a.Integer? && b.Integer? then
      if a.n < b.n then -1 else if a.n > b.n then 1 else 0
    else
      var ra, rb := ToReal(a), ToReal(b);
      if Less(ra, rb) then -1 else if Less(rb, ra) then 1 else 0
  }

  function CompareBytes(a: seq<Byte>, b: seq<Byte>): int {
    if a == [] && b == [] then 0
    else if a == [] then -1
    else if b == [] then 1
    else if a[0] < b[0] then -1
    else if a[0] > b[0] then 1
    else CompareBytes(a[1..], b[1..])
  }

  function Rank(v: Value): nat {
    match v
    case Null => 0
    case Integer(_) => 1
    case Real(_) => 1
    case Text(_) => 2
    case Blob(_) => 3
  }

  function Compare(a: Value, b: Value): int {
    if Rank(a) != Rank(b) then (if Rank(a) < Rank(b) then -1 else 1)
    else
      match a
      case Null => 0
      case Integer(_) => CompareNumeric(a, b)
      case Real(_) => CompareNumeric(a, b)
      case Text(t) => CompareBytes(t, b.t)
      case Blob(x) => CompareBytes(x, b.b)
  }

  // ---- the order it stands for ----

  /** The number a numeric value really is. */
  function Exactly(v: Value): Number
    requires v.Integer? || v.Real?
  {
    if v.Integer? then Finite(v.n as real) else NumberOf(v.bits)
  }

  /** Not-a-number is put before all others here, so that this is an order of all values. */
  function CompareNumbers(a: Number, b: Number): int {
    if a == b then 0 else if a == NaN || (b != NaN && Less(a, b)) then -1 else 1
  }

  function Ideal(a: Value, b: Value): int {
    if Rank(a) == 1 && Rank(b) == 1 then CompareNumbers(Exactly(a), Exactly(b)) else Compare(a, b)
  }

  lemma {:induction false} BytesChain(a: seq<Byte>, b: seq<Byte>, c: seq<Byte>)
    ensures Chain(CompareBytes, a, b, c)
  {
    if a != [] && b != [] && c != [] {
      BytesChain(a[1..], b[1..], c[1..]);
    } else if a != [] && b != [] {
      BytesChain(a[1..], b[1..], []);
    } else if a != [] && c != [] {
      BytesChain(a[1..], [], c[1..]);
    } else if b != [] && c != [] {
      BytesChain([], b[1..], c[1..]);
    } else {
      BytesSelf(a);
      BytesSelf(b);
      BytesSelf(c);
    }
  }

  lemma {:induction false} BytesSelf(a: seq<Byte>)
    ensures CompareBytes(a, a) == 0
  {
    if a != [] { BytesSelf(a[1..]); }
  }

  // ---- which order it is ----

  /** Strings of bytes compare by the first byte in which they differ. */
  lemma {:induction false} FirstByteDecides(p: seq<Byte>, x: Byte, s: seq<Byte>, y: Byte, t: seq<Byte>)
    requires x < y
    ensures CompareBytes(p + [x] + s, p + [y] + t) == -1 && CompareBytes(p + [y] + t, p + [x] + s) == 1
  {
    var a, b := p + [x] + s, p + [y] + t;
    if p != [] {
      assert a[1..] == p[1..] + [x] + s && b[1..] == p[1..] + [y] + t;
      FirstByteDecides(p[1..], x, s, y, t);
    }
  }

  /** A string comes before any longer one that begins with it. */
  lemma {:induction false} PrefixIsFirst(p: seq<Byte>, s: seq<Byte>)
    requires s != []
    ensures CompareBytes(p, p + s) == -1 && CompareBytes(p + s, p) == 1
  {
    if p != [] {
      assert (p + s)[1..] == p[1..] + s;
      PrefixIsFirst(p[1..], s);
    }
  }

  /** TEXT and BLOB are in the order of their bytes: by the first byte in which they differ, and a prefix first. */
  lemma BytesInOrder(p: seq<Byte>, x: Byte, s: seq<Byte>, y: Byte, t: seq<Byte>)
    requires x < y
    ensures Compare(Text(p + [x] + s), Text(p + [y] + t)) == -1 && Compare(Blob(p + [x] + s), Blob(p + [y] + t)) == -1
    ensures Compare(Text(p), Text(p + [x])) == -1 && Compare(Blob(p), Blob(p + [x])) == -1
    ensures Compare(Text(p), Text(p)) == 0 && Compare(Blob(p), Blob(p)) == 0
  {
    FirstByteDecides(p, x, s, y, t);
    PrefixIsFirst(p, [x]);
    BytesSelf(p);
  }

  /** NULL comes first, then numbers, then TEXT, then BLOB. */
  lemma KindsInOrder(n: int, bits: nat, t: seq<Byte>, b: seq<Byte>)
    ensures Compare(Null, Integer(n)) == Compare(Null, Real(bits)) == Compare(Null, Text(t)) == Compare(Null, Blob(b)) == -1
    ensures Compare(Integer(n), Text(t)) == Compare(Real(bits), Text(t)) == -1
    ensures Compare(Integer(n), Blob(b)) == Compare(Real(bits), Blob(b)) == Compare(Text(t), Blob(b)) == -1
    ensures Compare(Null, Null) == 0
  {
  }

  lemma NumbersChain(a: Number, b: Number, c: Number)
    ensures Chain(CompareNumbers, a, b, c)
  {
  }

  lemma IdealChain(a: Value, b: Value, c: Value)
    ensures Chain(Ideal, a, b, c)
  {
    if Rank(a) == Rank(b) == Rank(c) == 1 {
      NumbersChain(Exactly(a), Exactly(b), Exactly(c));
    } else if Rank(a) == Rank(b) == Rank(c) == 2 {
      BytesChain(a.t, b.t, c.t);
    } else if Rank(a) == Rank(b) == Rank(c) == 3 {
      BytesChain(a.b, b.b, c.b);
    } else {
      PairChain(a, b);
      PairChain(b, c);
      PairChain(a, c);
    }
  }

  lemma PairChain(a: Value, b: Value)
    ensures Ideal(a, a) == 0 && (Ideal(a, b) < 0 <==> Ideal(b, a) > 0) && (Ideal(a, b) == 0 <==> Ideal(b, a) == 0)
  {
    if a.Text? {
      BytesSelf(a.t);
      if b.Text? { BytesChain(a.t, b.t, b.t); }
    } else if a.Blob? {
      BytesSelf(a.b);
      if b.Blob? { BytesChain(a.b, b.b, b.b); }
    }
  }

  // ---- rounding ----

  lemma {:induction false} ExcessBounds(n: nat)
    ensures n < TWO_53 * Pow2(Excess(n))
    ensures Excess(n) > 0 ==> 2 * n >= TWO_53 * Pow2(Excess(n))
  {
    if n >= TWO_53 {
      ExcessBounds(n / 2);
      var p := Pow2(Excess(n / 2));
      assert Pow2(Excess(n)) == 2 * p;
      if Excess(n / 2) == 0 { assert p == 1; }
    }
  }

  lemma {:induction false} ExcessMonotone(a: nat, b: nat)
    requires a <= b
    ensures Excess(a) <= Excess(b)
    decreases b
  {
    if a >= TWO_53 { ExcessMonotone(a / 2, b / 2); }
  }

  lemma {:induction false} Pow2Monotone(a: nat, b: nat)
    requires a <= b
    ensures Pow2(a) <= Pow2(b)
  {
    if a < b { Pow2Monotone(a, b - 1); }
  }

  lemma DivBounds(n: nat, s: nat)
    requires s > 0
    ensures n == n / s * s + n % s && 0 <= n % s < s
  {
  }

  lemma Multiples(x: int, s: nat)
    requires s > 0
    ensures x >= 1 ==> x * s >= s
    ensures x <= -1 ==> x * s <= 0 - s
  {
  }

  lemma DivMonotone(a: nat, b: nat, s: nat)
    requires s > 0 && a <= b
    ensures a / s <= b / s
  {
    DivBounds(a, s);
    DivBounds(b, s);
    Multiples(b / s - a / s, s);
    assert (b / s - a / s) * s == b / s * s - a / s * s;
  }

  lemma Scaled(x: nat, y: nat, s: nat)
    requires x <= y
    ensures x * s <= y * s
  {
  }

  lemma RoundedMonotone(p: nat, i: nat, q: nat, j: nat, s: nat)
    requires p < q || (p == q && i <= j)
    ensures Rounded(p, i, s) <= Rounded(q, j, s)
  {
    Scaled(p, p + 1, s);
    Scaled(q, q + 1, s);
    if p < q { Scaled(p + 1, q, s); }
  }

  lemma RoundMonotone(a: nat, b: nat, s: nat)
    requires s > 0 && a <= b
    ensures RoundTo(a, s) <= RoundTo(b, s)
  {
    DivMonotone(a, b, s);
    DivBounds(a, s);
    DivBounds(b, s);
    RoundedMonotone(a / s, a % s, b / s, b % s, s);
  }

  /** A multiple of the step is not rounded, and nothing is rounded past one. */
  lemma RoundStops(n: nat, m: nat, s: nat)
    requires s > 0
    ensures RoundTo(m * s, s) == m * s
    ensures n <= m * s ==> RoundTo(n, s) <= m * s
    ensures n >= m * s ==> RoundTo(n, s) >= m * s
  {
    MultipleParts(m, s);
    if n <= m * s { RoundMonotone(n, m * s, s); }
    if n >= m * s { RoundMonotone(m * s, n, s); }
  }

  lemma MultipleParts(m: nat, s: nat)
    requires s > 0
    ensures m * s / s == m && m * s % s == 0
  {
    var q, r := m * s / s, m * s % s;
    DivBounds(m * s, s);
    assert (m - q) * s == m * s - q * s;
    Multiples(m - q, s);
  }

  /** Conversion to float64 keeps the order of integers, though not strictly. */
  lemma FloatMonotone(a: int, b: int)
    requires a <= b
    ensures Float(a) <= Float(b)
  {
    if 0 <= a {
      PositiveMonotone(a, b);
    } else if b < 0 {
      PositiveMonotone(-b, -a);
    }
  }

  lemma {:induction false} PositiveMonotone(a: nat, b: nat)
    requires a <= b
    ensures RoundTo(a, Pow2(Excess(a))) <= RoundTo(b, Pow2(Excess(b)))
  {
    var i, j := Excess(a), Excess(b);
    ExcessMonotone(a, b);
    if i == j {
      RoundMonotone(a, b, Pow2(i));
    } else {
      ExcessBounds(a);
      ExcessBounds(b);
      Pow2Monotone(i, j - 1);
      assert Pow2(j) == 2 * Pow2(j - 1);
      RoundStops(a, TWO_53, Pow2(i));
      RoundStops(b, TWO_53 / 2, Pow2(j));
    }
  }

  /** The integers within 53 bits are not rounded. */
  lemma FloatExact(n: int)
    requires -TWO_53 <= n <= TWO_53
    ensures Float(n) == n
  {
    if n == TWO_53 || n == -TWO_53 {
      assert Excess(TWO_53 / 2) == 0 && Excess(TWO_53) == 1 && Pow2(1) == 2;
    } else {
      assert Pow2(0) == 1;
    }
  }

  // ---- when the comparison is an order ----

  /** Two different integers and a real that both are equal to. */
  predicate Collide(a: Value, b: Value, r: Value) {
    a.Integer? && b.Integer? && r.Real? && a.n < b.n && ToReal(a) == ToReal(r) == ToReal(b)
  }

  lemma CollisionBreaks(a: Value, b: Value, r: Value)
    requires Collide(a, b, r)
    ensures !Chain(Compare, b, r, a)
  {
  }

  lemma NumericChain(a: Value, b: Value, c: Value)
    requires Rank(a) == Rank(b) == Rank(c) == 1 && ToReal(a) != NaN && ToReal(b) != NaN && ToReal(c) != NaN
    requires forall x, y, r :: x in {a, b, c} && y in {a, b, c} && r in {a, b, c} ==> !Collide(x, y, r)
    ensures Chain(Compare, a, b, c)
  {
    assert !Collide(a, b, c) && !Collide(a, c, b) && !Collide(b, a, c) && !Collide(b, c, a) && !Collide(c, a, b) && !Collide(c, b, a);
    forall x, y | x in {a, b, c} && y in {a, b, c} && x.Integer? && y.Integer? && x.n <= y.n
      ensures Float(x.n) <= Float(y.n)
    {
      FloatMonotone(x.n, y.n);
    }
  }

  predicate Numeric(v: Value) { Rank(v) == 1 }

  /** Two numbers of which the first is less, and a value that is no number and so equal to both. */
  predicate Blur(a: Value, b: Value, z: Value) {
    Numeric(a) && Numeric(b) && Compare(a, b) < 0 && z.Real? && NumberOf(z.bits) == NaN
  }

  /** No integers round to the same real, and nothing that is no number stands beside numbers that differ. */
  ghost predicate Separate(s: set<Value>) {
    && (forall a, b, r :: a in s && b in s && r in s ==> !Collide(a, b, r))
    && (forall a, b, z :: a in s && b in s && z in s ==> !Blur(a, b, z))
  }

  lemma BlurBreaks(a: Value, b: Value, z: Value)
    requires Blur(a, b, z)
    ensures !Chain(Compare, b, z, a)
  {
  }

  /** Beside a value that is no number all numbers are equal, unless they blur. */
  lemma AllEqual(s: set<Value>, a: Value, b: Value, z: Value)
    requires Separate(s) && a in s && b in s && z in s && Numeric(a) && Numeric(b) && z.Real? && NumberOf(z.bits) == NaN
    ensures Compare(a, b) == 0
  {
    assert !Blur(a, b, z) && !Blur(b, a, z);
    NumericSelf(a, b);
  }

  /**
  On any set of values the comparison of the source is a total preorder exactly when no two different integers of the
  set round to the same real of the set, and no value that is not a number stands beside two numbers that differ.
  */
  lemma OrderIffNoCollision(s: set<Value>)
    ensures (forall a, b, c :: a in s && b in s && c in s ==> Chain(Compare, a, b, c)) <==> Separate(s)
  {
    if !Separate(s) {
      if a, b, r :| a in s && b in s && r in s && Collide(a, b, r) {
        CollisionBreaks(a, b, r);
      } else {
        var a, b, z :| a in s && b in s && z in s && Blur(a, b, z);
        BlurBreaks(a, b, z);
      }
    } else {
      forall a, b, c | a in s && b in s && c in s ensures Chain(Compare, a, b, c) {
        if !(Numeric(a) && Numeric(b) && Numeric(c)) {
          OtherChain(a, b, c);
        } else if z :| z in {a, b, c} && ToReal(z) == NaN {
          EqualChain(s, a, b, c, z);
        } else {
          NumericChain(a, b, c);
        }
      }
    }
  }

  lemma EqualChain(s: set<Value>, a: Value, b: Value, c: Value, z: Value)
    requires Separate(s) && a in s && b in s && c in s && z in {a, b, c}
    requires Numeric(a) && Numeric(b) && Numeric(c) && ToReal(z) == NaN
    ensures Chain(Compare, a, b, c)
  {
    forall x, y | x in {a, b, c} && y in {a, b, c} ensures Compare(x, y) == 0 {
      AllEqual(s, x, y, z);
    }
  }

  lemma OtherChain(a: Value, b: Value, c: Value)
    requires !(Rank(a) == Rank(b) == Rank(c) == 1)
    ensures Chain(Compare, a, b, c)
  {
    IdealChain(a, b, c);
    NumericSelf(a, b);
    NumericSelf(b, c);
    NumericSelf(a, c);
  }

  lemma NumericSelf(a: Value, b: Value)
    ensures Rank(a) == 1 ==> Compare(a, a) == 0
    ensures Rank(a) == Rank(b) == 1 ==> (Compare(a, b) < 0 <==> Compare(b, a) > 0) && (Compare(a, b) == 0 <==> Compare(b, a) == 0)
  {
  }

  /** Past 53 bits the comparison is no order: 2^53 and 2^53 + 1 are both equal to the real 2^53. */
  lemma RoundingBreaksOrder()
    ensures var bits := 1076 * 0x10_0000_0000_0000;
      && NumberOf(bits) == Finite(TWO_53 as real)
      && Collide(Integer(TWO_53), Integer(TWO_53 + 1), Real(bits))
      && !Chain(Compare, Integer(TWO_53 + 1), Real(bits), Integer(TWO_53))
  {
    assert Pow2(1) == 2;
    FloatExact(TWO_53);
    assert Excess(TWO_53 / 2) == 0 && Excess(TWO_53 + 1) == 1;
    assert RoundTo(TWO_53 + 1, 2) == TWO_53;
    CollisionBreaks(Integer(TWO_53), Integer(TWO_53 + 1), Real(1076 * 0x10_0000_0000_0000));
  }

  // ---- where it is the order of the numbers themselves ----

  /** Values whose integers either never meet a real or are not rounded, and which all are numbers. */
  ghost predicate Tame(dom: Value -> bool) {
    forall a, b :: dom(a) && dom(b) ==> Compare(a, b) == Ideal(a, b)
  }

  predicate Exact(v: Value) {
    match v
    case Integer(n) => Float(n) == n
    case Real(bits) => NumberOf(bits) != NaN
    case _ => true
  }

  lemma ExactIsTame()
    ensures Tame(Exact)
  {
    forall a, b | Exact(a) && Exact(b) ensures Compare(a, b) == Ideal(a, b) {
    }
  }

  predicate NotReal(v: Value) { !v.Real? }

  lemma IntegersAreTame()
    ensures Tame(NotReal)
  {
    forall a, b | NotReal(a) && NotReal(b) ensures Compare(a, b) == Ideal(a, b) {
    }
  }

  /** Comparing the other way round gives the opposite sign, for all values whatsoever. */
  lemma CompareFlips(a: Value, b: Value)
    ensures Compare(a, b) < 0 <==> Compare(b, a) > 0
    ensures Compare(a, b) == 0 <==> Compare(b, a) == 0
    ensures Compare(a, b) in {-1, 0, 1}
  {
    if a.Text? && b.Text? {
      BytesChain(a.t, b.t, b.t);
      SignOnly(a.t, b.t);
    } else if a.Blob? && b.Blob? {
      BytesChain(a.b, b.b, b.b);
      SignOnly(a.b, b.b);
    }
  }

  lemma {:induction false} SignOnly(a: seq<Byte>, b: seq<Byte>)
    ensures CompareBytes(a, b) in {-1, 0, 1}
  {
    if a != [] && b != [] && a[0] == b[0] { SignOnly(a[1..], b[1..]); }
  }
}
