/** Bytes, fixed-width big-endian integers and the varints of Go's encoding/binary package. */
module Bytes {
  type Byte = b: int | 0 <= b < 256

  const PAGE_SIZE := 4096

  const TWO_63 := 0x8000_0000_0000_0000
  const TWO_64 := 0x1_0000_0000_0000_0000

  datatype Option<+T> = None | Some(value: T)

  function Zeros(n: nat): (s: seq<Byte>)
    ensures |s| == n
  {
    seq(n, _ => 0)
  }

  /** The contents of one database page. */
  datatype PageData = PageData(bytes: seq<Byte>)

  function ZeroPage(): PageData { PageData(Zeros(PAGE_SIZE)) }

  // ---- varints ----

  /** v in base 128, least significant digit first, with the high bit set on every byte but the last. */
  function PutUvarint(v: nat): (r: seq<Byte>)
    ensures |r| >= 1
  {
    if v < 128 then [v] else [v % 128 + 128] + PutUvarint(v / 128)
  }

  function UvarintLen(v: nat): nat { |PutUvarint(v)| }

  /**
  The value at the front of `b` and the number of bytes it takes; nothing when the bytes run out or
  the value does not fit 64 bits. `i` counts the bytes read before.
  */
  function UvarintFrom(b: seq<Byte>, i: nat): (r: Option<(nat, nat)>)
    ensures r.Some? ==> 0 < r.value.1 <= |b|
  {
    if b == [] || i >= 10 then None
    else if b[0] < 128 then (if i == 9 && b[0] > 1 then None else Some((b[0], 1)))
    else
      match UvarintFrom(b[1..], i + 1)
      case None => None
      case Some((v, n)) => Some((b[0] - 128 + 128 * v, n + 1))
  }

  function Uvarint(b: seq<Byte>): (r: Option<(nat, nat)>)
    ensures r.Some? ==> 0 < r.value.1 <= |b|
  {
    UvarintFrom(b, 0)
  }

  /** The values that fit the 64 bits left after i bytes. */
  function UvarintLimit(i: nat): nat
    decreases 9 - i
  {
    if i >= 9 then 2 else 128 * UvarintLimit(i + 1)
  }

  lemma UvarintLimitIs64Bits()
    ensures UvarintLimit(0) == TWO_64
  {
    assert UvarintLimit(9) == 2 && UvarintLimit(8) == 0x100 && UvarintLimit(7) == 0x8000;
    assert UvarintLimit(6) == 0x40_0000 && UvarintLimit(5) == 0x2000_0000 && UvarintLimit(4) == 0x10_0000_0000;
    assert UvarintLimit(3) == 0x800_0000_0000 && UvarintLimit(2) == 0x4_0000_0000_0000;
  }

  lemma {:induction false} UvarintAt(v: nat, rest: seq<Byte>, i: nat)
    requires i <= 9 && v < UvarintLimit(i)
    ensures UvarintFrom(PutUvarint(v) + rest, i) == Some((v, |PutUvarint(v)|))
    decreases v
  {
    var b := PutUvarint(v) + rest;
    if v < 128 {
      assert b[0] == v;
    } else {
      assert b[0] == v % 128 + 128;
      assert b[1..] == PutUvarint(v / 128) + rest;
      UvarintAt(v / 128, rest, i + 1);
    }
  }

  /** Reading back a varint gives the value and its length, whatever follows it. */
  lemma UvarintRoundTrip(v: nat, rest: seq<Byte>)
    requires v < TWO_64
    ensures Uvarint(PutUvarint(v) + rest) == Some((v, |PutUvarint(v)|))
  {
    UvarintLimitIs64Bits();
    UvarintAt(v, rest, 0);
  }

  /** No proper prefix of a varint reads as one. */
  lemma {:induction false} UvarintPrefix(v: nat, k: nat, i: nat)
    requires k < |PutUvarint(v)|
    ensures UvarintFrom(PutUvarint(v)[..k], i) == None
    decreases v
  {
    if k > 0 {
      var b := PutUvarint(v)[..k];
      assert v >= 128 && b[0] >= 128;
      assert b[1..] == PutUvarint(v / 128)[..k - 1];
      UvarintPrefix(v / 128, k - 1, i + 1);
    }
  }

  // ---- fixed-width big-endian integers ----

  /** v in n bytes, most significant first; higher digits are dropped as a conversion to uintN does. */
  function PutBE(v: nat, n: nat): (r: seq<Byte>)
    ensures |r| == n
  {
    if n == 0 then [] else PutBE(v / 256, n - 1) + [v % 256]
  }

  function GetBE(b: seq<Byte>): nat {
    if b == [] then 0 else GetBE(b[..|b| - 1]) * 256 + b[|b| - 1]
  }

  function Pow256(n: nat): (p: nat)
    ensures p > 0
  {
    if n == 0 then 1 else 256 * Pow256(n - 1)
  }

  lemma {:induction false} BERoundTrip(v: nat, n: nat)
    requires v < Pow256(n)
    ensures GetBE(PutBE(v, n)) == v
  {
    if n > 0 {
      BERoundTrip(v / 256, n - 1);
      assert PutBE(v, n)[..n - 1] == PutBE(v / 256, n - 1);
    }
  }

  /** The unsigned 64 bits of a signed integer, and back. */
  function ToU64(n: int): nat { n % TWO_64 }

  function ToI64(u: nat): int {
    if u < TWO_63 then u else u - TWO_64
  }

  lemma Pow256Is()
    ensures Pow256(2) == 0x1_0000 && Pow256(4) == 0x1_0000_0000 && Pow256(8) == TWO_64
  {
    assert Pow256(3) == 0x100_0000 && Pow256(5) == 0x100_0000_0000 && Pow256(6) == 0x1_0000_0000_0000 && Pow256(7) == 0x100_0000_0000_0000;
  }
}
