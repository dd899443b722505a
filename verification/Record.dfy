/** Rows as bytes: a count, then for each value a tag and its contents. */
module Record {
  import opened Bytes
  import opened Values

  type Row = seq<Value>

  /** What decoding comes to: a row, an error, or a slice expression that goes out of range. */
  datatype Decoded = Ok(row: Row) | Invalid | Panics

  datatype Read = Got(v: Value, rest: seq<Byte>) | Bad | OutOfRange

  /** Values the codec has room for. */
  predicate Storable(v: Value) {
    && Sane(v)
    && (v.Text? ==> |v.t| < TWO_63) && (v.Blob? ==> |v.b| < TWO_63)
  }

  ghost predicate StorableRow(row: Row) {
    |row| < TWO_64 && forall i :: 0 <= i < |row| ==> Storable(row[i])
  }

  function EncodeValue(v: Value): (r: seq<Byte>)
    ensures |r| >= 1
  {
    match v
    case Null => PutUvarint(0)
    case Integer(n) => PutUvarint(1) + PutBE(ToU64(n), 8)
    case Real(bits) => PutUvarint(2) + PutBE(bits, 8)
    case Text(t) => PutUvarint(3) + (PutUvarint(|t|) + t)
    case Blob(b) => PutUvarint(4) + (PutUvarint(|b|) + b)
  }

  function EncodeAll(row: Row): seq<Byte>
  {
    if row == [] then [] else EncodeValue(row[0]) + EncodeAll(row[1..])
  }

  function Encoded(row: Row): seq<Byte>
  {
    PutUvarint(|row|) + EncodeAll(row)
  }

  function ReadFixed(b: seq<Byte>, float: bool): Read {
    if |b| < 8 then Bad
    else Got(if float then Real(GetBE(b[..8])) else Integer(ToI64(GetBE(b[..8]))), b[8..])
  }

  /** The length check converts to a signed integer, so that a length of 2^63 or more gets past it. */
  function ReadCounted(b: seq<Byte>, text: bool): Read {
    match Uvarint(b)
    case None => Bad
    case Some((n, w)) =>
      var body := b[w..];
      if |body| < ToI64(n) then Bad
      else if n > |body| then OutOfRange
      else Got(if text then Text(body[..n]) else Blob(body[..n]), body[n..])
  }

  function ReadValue(b: seq<Byte>): Read {
    match Uvarint(b)
    case None => Bad
    case Some((tag, w)) =>
      if tag == 0 then Got(Null, b[w..])
      else if tag == 1 then ReadFixed(b[w..], false)
      else if tag == 2 then ReadFixed(b[w..], true)
      else if tag == 3 then ReadCounted(b[w..], true)
      else if tag == 4 then ReadCounted(b[w..], false)
      else Bad
  }

  function ReadAll(b: seq<Byte>, count: nat): Decoded {
    if count == 0 then Ok([])
    else
      match ReadValue(b)
      case Bad => Invalid
      case OutOfRange => Panics
      case Got(v, rest) =>
        match ReadAll(rest, count - 1)
        case Ok(row) => Ok([v] + row)
        case failed => failed
  }

  function Decode(b: seq<Byte>): Decoded {
    if b == [] then Ok([])
    else
      match Uvarint(b)
      case None => Invalid
      case Some((count, w)) => ReadAll(b[w..], count)
  }

  // ---- round trip ----

  lemma TagReads(tag: nat, rest: seq<Byte>)
    requires tag < 128
    ensures Uvarint(PutUvarint(tag) + rest) == Some((tag, 1)) && (PutUvarint(tag) + rest)[1..] == rest
  {
    UvarintRoundTrip(tag, rest);
  }

  lemma FixedRoundTrip(u: nat, rest: seq<Byte>)
    requires u < TWO_64
    ensures var b := PutBE(u, 8) + rest; |b| >= 8 && GetBE(b[..8]) == u && b[8..] == rest
  {
    Pow256Is();
    BERoundTrip(u, 8);
    assert (PutBE(u, 8) + rest)[..8] == PutBE(u, 8);
  }

  lemma {:induction false} CountedRoundTrip(s: seq<Byte>, rest: seq<Byte>, text: bool)
    requires |s| < TWO_63
    ensures ReadCounted(PutUvarint(|s|) + s + rest, text) == Got(if text then Text(s) else Blob(s), rest)
  {
    var u := PutUvarint(|s|);
    var b := u + s + rest;
    assert b == u + (s + rest);
    UvarintRoundTrip(|s|, s + rest);
    var body := b[|u|..];
    assert body == s + rest;
    assert body[..|s|] == s && body[|s|..] == rest;
  }

  lemma FixedValue(tag: nat, u: nat, rest: seq<Byte>)
    requires u < TWO_64 && (tag == 1 || tag == 2)
    ensures ReadValue(PutUvarint(tag) + PutBE(u, 8) + rest) == Got(if tag == 2 then Real(u) else Integer(ToI64(u)), rest)
  {
    assert PutUvarint(tag) + PutBE(u, 8) + rest == PutUvarint(tag) + (PutBE(u, 8) + rest);
    TagReads(tag, PutBE(u, 8) + rest);
    FixedRoundTrip(u, rest);
  }

  lemma CountedValue(tag: nat, s: seq<Byte>, rest: seq<Byte>)
    requires |s| < TWO_63 && (tag == 3 || tag == 4)
    ensures ReadValue(PutUvarint(tag) + (PutUvarint(|s|) + s) + rest) == Got(if tag == 3 then Text(s) else Blob(s), rest)
  {
    var body := PutUvarint(|s|) + s + rest;
    assert PutUvarint(tag) + (PutUvarint(|s|) + s) + rest == PutUvarint(tag) + body;
    TagReads(tag, body);
    CountedRoundTrip(s, rest, tag == 3);
  }

  lemma ValueRoundTrip(v: Value, rest: seq<Byte>)
    requires Storable(v)
    ensures ReadValue(EncodeValue(v) + rest) == Got(v, rest)
  {
    match v
    case Null => TagReads(0, rest);
    case Integer(n) => FixedValue(1, ToU64(n), rest);
    case Real(bits) => FixedValue(2, bits, rest);
    case Text(t) => CountedValue(3, t, rest);
    case Blob(b) => CountedValue(4, b, rest);
  }

  lemma {:induction false} AllRoundTrip(row: Row, rest: seq<Byte>)
    requires forall i :: 0 <= i < |row| ==> Storable(row[i])
    ensures ReadAll(EncodeAll(row) + rest, |row|) == Ok(row)
  {
    if row != [] {
      assert EncodeAll(row) + rest == EncodeValue(row[0]) + (EncodeAll(row[1..]) + rest);
      ValueRoundTrip(row[0], EncodeAll(row[1..]) + rest);
      AllRoundTrip(row[1..], rest);
    }
  }

  /** Decoding an encoded row gives the row. */
  lemma RoundTrip(row: Row)
    requires StorableRow(row)
    ensures Decode(Encoded(row)) == Ok(row)
  {
    UvarintRoundTrip(|row|, EncodeAll(row));
    assert Encoded(row)[|PutUvarint(|row|)|..] == EncodeAll(row) + [];
    AllRoundTrip(row, []);
  }

  /** Rows have the same bytes exactly when they are the same. */
  lemma EncodedIsInjective(a: Row, b: Row)
    requires StorableRow(a) && StorableRow(b)
    ensures Encoded(a) == Encoded(b) <==> a == b
  {
    RoundTrip(a);
    RoundTrip(b);
  }

  // ---- truncation ----

  lemma CountedPrefix(s: seq<Byte>, k: nat, text: bool)
    requires |s| < TWO_63 && k < |PutUvarint(|s|) + s|
    ensures ReadCounted((PutUvarint(|s|) + s)[..k], text) == Bad
  {
    var u := PutUvarint(|s|);
    var b := (u + s)[..k];
    if k < |u| {
      assert b == u[..k];
      UvarintPrefix(|s|, k, 0);
    } else {
      assert b == u + s[..k - |u|];
      UvarintRoundTrip(|s|, s[..k - |u|]);
    }
  }

  /** The front part of an encoded value does not read as a value. */
  lemma ValuePrefix(v: Value, k: nat)
    requires Storable(v) && k < |EncodeValue(v)|
    ensures ReadValue(EncodeValue(v)[..k]) == Bad
  {
    if k > 0 {
      var body := EncodeValue(v)[1..];
      var b := EncodeValue(v)[..k];
      assert b == PutUvarint(b[0]) + body[..k - 1];
      TagReads(b[0], body[..k - 1]);
      match v
      case Text(t) => CountedPrefix(t, k - 1, true);
      case Blob(x) => CountedPrefix(x, k - 1, false);
      case _ =>
    }
  }

  lemma {:induction false} AllPrefix(row: Row, k: nat)
    requires forall i :: 0 <= i < |row| ==> Storable(row[i])
    requires k < |EncodeAll(row)|
    ensures ReadAll(EncodeAll(row)[..k], |row|) == Invalid
  {
    var e, more := EncodeValue(row[0]), EncodeAll(row[1..]);
    if k < |e| {
      ValuePrefix(row[0], k);
      assert (e + more)[..k] == e[..k];
    } else {
      var j := k - |e|;
      AllPrefix(row[1..], j);
      ReadsOn(row[0], more[..j], |row|);
      assert (e + more)[..k] == e + more[..j];
    }
  }

  lemma ReadsOn(v: Value, rest: seq<Byte>, count: nat)
    requires Storable(v) && count > 0 && ReadAll(rest, count - 1) == Invalid
    ensures ReadAll(EncodeValue(v) + rest, count) == Invalid
  {
    ValueRoundTrip(v, rest);
  }

  /** Every part of an encoding that is cut off early, but not to nothing, is rejected. */
  lemma TruncatedIsInvalid(row: Row, k: nat)
    requires StorableRow(row) && 0 < k < |Encoded(row)|
    ensures Decode(Encoded(row)[..k]) == Invalid
  {
    var u := PutUvarint(|row|);
    if k < |u| {
      assert Encoded(row)[..k] == u[..k];
      UvarintPrefix(|row|, k, 0);
    } else {
      assert Encoded(row)[..k] == u + EncodeAll(row)[..k - |u|];
      UvarintRoundTrip(|row|, EncodeAll(row)[..k - |u|]);
      assert Encoded(row)[..k][|u|..] == EncodeAll(row)[..k - |u|];
      AllPrefix(row, k - |u|);
    }
  }

  // ---- the loops ----

  lemma {:induction false} EncodeAllSnoc(row: Row, v: Value)
    ensures EncodeAll(row + [v]) == EncodeAll(row) + EncodeValue(v)
  {
    if row == [] {
      assert [v][1..] == [];
    } else {
      assert (row + [v])[1..] == row[1..] + [v];
      EncodeAllSnoc(row[1..], v);
    }
  }

  /** The loop's next step: the bytes of one more value go behind `front`. */
  lemma EncodeStep(front: seq<Byte>, buf: seq<Byte>, row: Row, i: nat)
    requires i < |row| && buf == front + EncodeAll(row[..i])
    ensures buf + EncodeValue(row[i]) == front + EncodeAll(row[..i + 1])
  {
    EncodeAllSnoc(row[..i], row[i]);
    assert row[..i + 1] == row[..i] + [row[i]];
    Regroup(front, EncodeAll(row[..i]), EncodeValue(row[i]));
  }

  lemma Regroup(a: seq<Byte>, b: seq<Byte>, c: seq<Byte>)
    ensures a + b + c == a + (b + c)
  {
  }

  method Encode(row: Row) returns (buf: seq<Byte>)
    ensures buf == Encoded(row)
  {
    buf := PutUvarint(|row|);
    ghost var front := buf;
    for i := 0 to |row|
      invariant buf == front + EncodeAll(row[..i])
    {
      EncodeStep(front, buf, row, i);
      buf := AppendValue(buf, row[i]);
    }
    assert row[..|row|] == row;
  }

  method AppendValue(into: seq<Byte>, v: Value) returns (buf: seq<Byte>)
    ensures buf == into + EncodeValue(v)
  {
    match v {
      case Null => buf := into + PutUvarint(0);
      case Integer(n) => buf := AppendFixed(into, 1, ToU64(n));
      case Real(bits) => buf := AppendFixed(into, 2, bits);
      case Text(t) => buf := AppendCounted(into, 3, t);
      case Blob(b) => buf := AppendCounted(into, 4, b);
    }
  }

  method AppendFixed(into: seq<Byte>, tag: nat, u: nat) returns (buf: seq<Byte>)
    ensures buf == into + (PutUvarint(tag) + PutBE(u, 8))
  {
    buf := into + PutUvarint(tag);
    buf := buf + PutBE(u, 8);
  }

  method AppendCounted(into: seq<Byte>, tag: nat, s: seq<Byte>) returns (buf: seq<Byte>)
    ensures buf == into + (PutUvarint(tag) + (PutUvarint(|s|) + s))
  {
    buf := into + PutUvarint(tag);
    buf := buf + PutUvarint(|s|);
    buf := buf + s;
    assert buf == into + (PutUvarint(tag) + (PutUvarint(|s|) + s));
  }

  /** A row of which the first values have been read, and what comes of the rest. */
  function Before(row: Row, d: Decoded): Decoded {
    match d
    case Ok(more) => Ok(row + more)
    case failed => failed
  }

  /** What the loop comes to, once `read` is the outcome of the next value. */
  function Onward(row: Row, read: Read, left: nat): Decoded
    requires left > 0
  {
    match read
    case Bad => Invalid
    case OutOfRange => Panics
    case Got(v, rest) => Before(row + [v], ReadAll(rest, left - 1))
  }

  /** One value read is one value fewer to read. */
  lemma OneRead(row: Row, b: seq<Byte>, left: nat)
    requires left > 0
    ensures Before(row, ReadAll(b, left)) == Onward(row, ReadValue(b), left)
  {
    if ReadValue(b).Got? {
      var v, d := ReadValue(b).v, ReadAll(ReadValue(b).rest, left - 1);
      if d.Ok? { assert row + ([v] + d.row) == row + [v] + d.row; }
    }
  }

  method DecodeRow(input: seq<Byte>) returns (d: Decoded)
    ensures d == Decode(input)
  {
    if input == [] { return Ok([]); }
    var header := Uvarint(input);
    if header.None? { return Invalid; }
    d := ReadRow(input[header.value.1..], header.value.0);
  }

  method ReadOne(row: Row, b: seq<Byte>, left: nat) returns (read: Read)
    requires left > 0
    ensures Before(row, ReadAll(b, left)) == Onward(row, read, left)
  {
    OneRead(row, b, left);
    read := ReadValue(b);
  }

  method ReadRow(input: seq<Byte>, count: nat) returns (d: Decoded)
    ensures d == ReadAll(input, count)
  {
    var b, row: Row, left, failed := input, [], count, Ok([]);
    ghost var result := ReadAll(input, count);
    BeforeNothing(result);
    while left > 0 && failed.Ok?
      invariant if failed.Ok? then result == Before(row, ReadAll(b, left)) else result == failed
      decreases left, failed.Ok?
    {
      var read := ReadOne(row, b, left);
      match read {
        case Bad => failed := Invalid;
        case OutOfRange => failed := Panics;
        case Got(v, rest) => b, row, left := rest, row + [v], left - 1;
      }
    }
    BeforeEnd(row, b);
    d := if failed.Ok? then Ok(row) else failed;
  }

  lemma BeforeNothing(d: Decoded)
    ensures Before([], d) == d
  {
  }

  lemma BeforeEnd(row: Row, b: seq<Byte>)
    ensures Before(row, ReadAll(b, 0)) == Ok(row)
  {
    assert row + [] == row;
  }
}
