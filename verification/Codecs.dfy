/** Pieces from which encodings are put together: what a piece guarantees, pairs and counted lists keep. */
module Codecs {
  import opened Bytes

  /** Reads a value from the front of some bytes and gives the bytes behind it. */
  type Reader<!T> = seq<Byte> -> Option<(T, seq<Byte>)>

  /** Reading what was written gives the value back whatever follows, and nothing when the end is cut off. */
  ghost predicate Codec<T(!new)>(enc: T -> seq<Byte>, read: Reader<T>, ok: T -> bool) {
    && (forall x, rest :: ok(x) ==> read(enc(x) + rest) == Some((x, rest)))
    && (forall x, k: nat :: ok(x) && k < |enc(x)| ==> read(enc(x)[..k]) == None)
  }

  // ---- numbers, bytes and strings ----

  function ReadUvarint(b: seq<Byte>): Option<(nat, seq<Byte>)> {
    match Uvarint(b)
    case None => None
    case Some((v, n)) => Some((v, b[n..]))
  }

  predicate Fits64(v: nat) { v < TWO_64 }

  lemma UvarintCodec()
    ensures Codec(PutUvarint, ReadUvarint, Fits64)
  {
    forall v: nat, rest: seq<Byte> | Fits64(v) ensures ReadUvarint(PutUvarint(v) + rest) == Some((v, rest)) {
      UvarintRoundTrip(v, rest);
      assert (PutUvarint(v) + rest)[|PutUvarint(v)|..] == rest;
    }
    forall v: nat, k: nat | Fits64(v) && k < |PutUvarint(v)| ensures ReadUvarint(PutUvarint(v)[..k]) == None {
      UvarintPrefix(v, k, 0);
    }
  }

  function PutByte(b: Byte): seq<Byte> { [b] }

  function ReadByte(b: seq<Byte>): Option<(Byte, seq<Byte>)> {
    if b == [] then None else Some((b[0], b[1..]))
  }

  predicate AnyByte(b: Byte) { true }

  lemma ByteCodec()
    ensures Codec(PutByte, ReadByte, AnyByte)
  {
    forall b: Byte, rest: seq<Byte> ensures ReadByte(PutByte(b) + rest) == Some((b, rest)) {
      assert ([b] + rest)[1..] == rest;
    }
  }

  function PutString(s: seq<Byte>): seq<Byte> { PutUvarint(|s|) + s }

  function ReadString(b: seq<Byte>): Option<(seq<Byte>, seq<Byte>)> {
    match Uvarint(b)
    case None => None
    case Some((len, n)) => if len > |b| - n then None else Some((b[n..n + len], b[n + len..]))
  }

  predicate ShortString(s: seq<Byte>) { |s| < TWO_64 }

  lemma StringCodec()
    ensures Codec(PutString, ReadString, ShortString)
  {
    forall s: seq<Byte>, rest: seq<Byte> | ShortString(s) ensures ReadString(PutString(s) + rest) == Some((s, rest)) {
      StringReads(s, rest);
    }
    forall s: seq<Byte>, k: nat | ShortString(s) && k < |PutString(s)| ensures ReadString(PutString(s)[..k]) == None {
      StringCut(s, k);
    }
  }

  lemma StringReads(s: seq<Byte>, rest: seq<Byte>)
    requires |s| < TWO_64
    ensures ReadString(PutString(s) + rest) == Some((s, rest))
  {
    var u := PutUvarint(|s|);
    var b := u + (s + rest);
    UvarintRoundTrip(|s|, s + rest);
    assert PutString(s) + rest == b;
    assert b[|u|..|u| + |s|] == s && b[|u| + |s|..] == rest;
  }

  lemma StringCut(s: seq<Byte>, k: nat)
    requires |s| < TWO_64 && k < |PutString(s)|
    ensures ReadString(PutString(s)[..k]) == None
  {
    var u := PutUvarint(|s|);
    if k < |u| {
      assert PutString(s)[..k] == u[..k];
      UvarintPrefix(|s|, k, 0);
    } else {
      assert PutString(s)[..k] == u + s[..k - |u|];
      UvarintRoundTrip(|s|, s[..k - |u|]);
    }
  }

  // ---- pairs ----

  function PutPair<A, B>(ea: A -> seq<Byte>, eb: B -> seq<Byte>): ((A, B)) -> seq<Byte> {
    (p: (A, B)) => ea(p.0) + eb(p.1)
  }

  function ReadPair<A, B>(ra: Reader<A>, rb: Reader<B>): Reader<(A, B)> {
    (b: seq<Byte>) =>
      match ra(b)
      case None => None
      case Some((x, rest)) =>
        match rb(rest)
        case None => None
        case Some((y, rest')) => Some(((x, y), rest'))
  }

  function Both<A, B>(oa: A -> bool, ob: B -> bool): ((A, B)) -> bool {
    (p: (A, B)) => oa(p.0) && ob(p.1)
  }

  /** One codec after the other is a codec. */
  lemma PairCodec<A(!new), B(!new)>(ea: A -> seq<Byte>, ra: Reader<A>, oa: A -> bool, eb: B -> seq<Byte>, rb: Reader<B>, ob: B -> bool)
    requires Codec(ea, ra, oa) && Codec(eb, rb, ob)
    ensures Codec(PutPair(ea, eb), ReadPair(ra, rb), Both(oa, ob))
  {
    var enc, read, ok := PutPair(ea, eb), ReadPair(ra, rb), Both(oa, ob);
    forall p: (A, B), rest: seq<Byte> | ok(p) ensures read(enc(p) + rest) == Some((p, rest)) {
      assert enc(p) + rest == ea(p.0) + (eb(p.1) + rest);
      assert ra(ea(p.0) + (eb(p.1) + rest)) == Some((p.0, eb(p.1) + rest));
      assert rb(eb(p.1) + rest) == Some((p.1, rest));
    }
    forall p: (A, B), k: nat | ok(p) && k < |enc(p)| ensures read(enc(p)[..k]) == None {
      var x, y := ea(p.0), eb(p.1);
      if k < |x| {
        assert (x + y)[..k] == x[..k];
        assert ra(ea(p.0)[..k]) == None;
      } else {
        assert (x + y)[..k] == x + y[..k - |x|];
        assert ra(ea(p.0) + y[..k - |x|]) == Some((p.0, y[..k - |x|]));
        assert rb(eb(p.1)[..k - |x|]) == None;
      }
    }
  }

  /** A string or a number in front of a codec. */
  lemma BehindString<T(!new)>(e: T -> seq<Byte>, r: Reader<T>, o: T -> bool)
    requires Codec(e, r, o)
    ensures Codec(PutPair(PutString, e), ReadPair(ReadString, r), Both(ShortString, o))
  {
    StringCodec();
    PairCodec(PutString, ReadString, ShortString, e, r, o);
  }

  lemma BehindUvarint<T(!new)>(e: T -> seq<Byte>, r: Reader<T>, o: T -> bool)
    requires Codec(e, r, o)
    ensures Codec(PutPair(PutUvarint, e), ReadPair(ReadUvarint, r), Both(Fits64, o))
  {
    UvarintCodec();
    PairCodec(PutUvarint, ReadUvarint, Fits64, e, r, o);
  }

  // ---- lists ----

  function PutAll<T>(enc: T -> seq<Byte>, xs: seq<T>): seq<Byte> {
    if xs == [] then [] else enc(xs[0]) + PutAll(enc, xs[1..])
  }

  function ReadAll<T>(read: Reader<T>, b: seq<Byte>, count: nat): Option<(seq<T>, seq<Byte>)>
    decreases count
  {
    if count == 0 then Some(([], b))
    else
      match read(b)
      case None => None
      case Some((x, rest)) =>
        match ReadAll(read, rest, count - 1)
        case None => None
        case Some((xs, rest')) => Some(([x] + xs, rest'))
  }

  lemma {:induction false} AllReads<T(!new)>(enc: T -> seq<Byte>, read: Reader<T>, ok: T -> bool, xs: seq<T>, rest: seq<Byte>)
    requires Codec(enc, read, ok) && forall x :: x in xs ==> ok(x)
    ensures ReadAll(read, PutAll(enc, xs) + rest, |xs|) == Some((xs, rest))
  {
    if xs == [] {
      assert PutAll(enc, xs) + rest == rest;
    } else {
      var more := PutAll(enc, xs[1..]) + rest;
      AllReads(enc, read, ok, xs[1..], rest);
      assert [xs[0]] + xs[1..] == xs;
      assert PutAll(enc, xs) + rest == enc(xs[0]) + more;
      assert ok(xs[0]);
      assert read(enc(xs[0]) + more) == Some((xs[0], more));
    }
  }

  lemma {:induction false} AllCut<T(!new)>(enc: T -> seq<Byte>, read: Reader<T>, ok: T -> bool, xs: seq<T>, k: nat)
    requires Codec(enc, read, ok) && (forall x :: x in xs ==> ok(x)) && k < |PutAll(enc, xs)|
    ensures ReadAll(read, PutAll(enc, xs)[..k], |xs|) == None
  {
    var x, y := enc(xs[0]), PutAll(enc, xs[1..]);
    assert ok(xs[0]);
    if k < |x| {
      assert (x + y)[..k] == x[..k];
      assert read(enc(xs[0])[..k]) == None;
    } else {
      assert (x + y)[..k] == x + y[..k - |x|];
      assert read(enc(xs[0]) + y[..k - |x|]) == Some((xs[0], y[..k - |x|]));
      AllCut(enc, read, ok, xs[1..], k - |x|);
    }
  }

  function PutList<T>(enc: T -> seq<Byte>): seq<T> -> seq<Byte> {
    (xs: seq<T>) => PutUvarint(|xs|) + PutAll(enc, xs)
  }

  function ReadList<T>(read: Reader<T>): Reader<seq<T>> {
    (b: seq<Byte>) =>
      match Uvarint(b)
      case None => None
      case Some((count, n)) => ReadAll(read, b[n..], count)
  }

  ghost function EachOk<T(!new)>(ok: T -> bool): seq<T> -> bool {
    (xs: seq<T>) => |xs| < TWO_64 && forall x :: x in xs ==> ok(x)
  }

  /** A list that begins with its length is a codec. */
  lemma ListCodec<T(!new)>(enc: T -> seq<Byte>, read: Reader<T>, ok: T -> bool)
    requires Codec(enc, read, ok)
    ensures Codec(PutList(enc), ReadList(read), EachOk(ok))
  {
    var e, r, o := PutList(enc), ReadList(read), EachOk(ok);
    forall xs: seq<T>, rest: seq<Byte> | o(xs) ensures r(e(xs) + rest) == Some((xs, rest)) {
      var u := PutUvarint(|xs|);
      UvarintRoundTrip(|xs|, PutAll(enc, xs) + rest);
      assert e(xs) + rest == u + (PutAll(enc, xs) + rest);
      assert (e(xs) + rest)[|u|..] == PutAll(enc, xs) + rest;
      AllReads(enc, read, ok, xs, rest);
    }
    forall xs: seq<T>, k: nat | o(xs) && k < |e(xs)| ensures r(e(xs)[..k]) == None {
      ListCut(enc, read, ok, xs, k);
    }
  }

  lemma ListCut<T(!new)>(enc: T -> seq<Byte>, read: Reader<T>, ok: T -> bool, xs: seq<T>, k: nat)
    requires Codec(enc, read, ok) && EachOk(ok)(xs) && k < |PutList(enc)(xs)|
    ensures ReadList(read)(PutList(enc)(xs)[..k]) == None
  {
    var u, body := PutUvarint(|xs|), PutAll(enc, xs);
    if k < |u| {
      assert (u + body)[..k] == u[..k];
      UvarintPrefix(|xs|, k, 0);
    } else {
      assert (u + body)[..k] == u + body[..k - |u|];
      UvarintRoundTrip(|xs|, body[..k - |u|]);
      assert (u + body)[..k][|u|..] == body[..k - |u|];
      AllCut(enc, read, ok, xs, k - |u|);
    }
  }

  // ---- another view of the values ----

  function PutAs<A, B>(enc: A -> seq<Byte>, from: B -> A): B -> seq<Byte> {
    (y: B) => enc(from(y))
  }

  function ReadAs<A, B>(read: Reader<A>, to: A -> B): Reader<B> {
    (b: seq<Byte>) =>
      match read(b)
      case None => None
      case Some((x, rest)) => Some((to(x), rest))
  }

  /** A codec for values is a codec for whatever the values stand for. */
  lemma AsCodec<A(!new), B(!new)>(enc: A -> seq<Byte>, read: Reader<A>, okA: A -> bool, from: B -> A, to: A -> B, ok: B -> bool)
    requires Codec(enc, read, okA)
    requires forall y :: ok(y) ==> okA(from(y)) && to(from(y)) == y
    ensures Codec(PutAs(enc, from), ReadAs(read, to), ok)
  {
    var e, r := PutAs(enc, from), ReadAs(read, to);
    forall y: B, rest: seq<Byte> | ok(y) ensures r(e(y) + rest) == Some((y, rest)) {
      assert read(enc(from(y)) + rest) == Some((from(y), rest));
    }
    forall y: B, k: nat | ok(y) && k < |e(y)| ensures r(e(y)[..k]) == None {
      assert read(enc(from(y))[..k]) == None;
    }
  }
}
