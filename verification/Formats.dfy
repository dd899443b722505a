/**
The bytes of rows, schemas and pages, said outright: which number stands where. The round trips of the other
modules hold of any pair of a writer and a reader that agree; what is said here holds of this format only.
*/
module Formats {
  import opened Bytes
  import opened Cells
  import opened TreeHeap
  import opened Slots
  import Values
  import Record
  import Catalog
  import Codecs

  // ---- numbers ----

  /** The number that digits to base 128 stand for, least significant first, the high bit of each left out. */
  function Digits(b: seq<Byte>): nat {
    if b == [] then 0 else b[0] % 128 + 128 * Digits(b[1..])
  }

  /** A varint is the digits of its number to base 128, no more than needed, the high bit set on every byte but the last. */
  lemma {:induction false} VarintIs(v: nat)
    ensures var b := PutUvarint(v);
      && Digits(b) == v
      && (forall i :: 0 <= i < |b| - 1 ==> b[i] >= 128) && b[|b| - 1] < 128 && (b[|b| - 1] == 0 ==> v == 0)
    decreases v
  {
    if v >= 128 {
      VarintIs(v / 128);
      assert PutUvarint(v)[1..] == PutUvarint(v / 128);
    }
  }

  /** Reading a varint takes any digits up to the first byte without the high bit, also more than are needed, but no number beyond 64 bits. */
  lemma {:induction false} VarintReads(b: seq<Byte>, rest: seq<Byte>, i: nat)
    requires b != [] && (forall k :: 0 <= k < |b| - 1 ==> b[k] >= 128) && b[|b| - 1] < 128
    ensures UvarintFrom(b + rest, i) == if i + |b| > 10 || (i + |b| == 10 && b[|b| - 1] > 1) then None else Some((Digits(b), |b|))
    decreases |b|
  {
    assert (b + rest)[0] == b[0] && (b + rest)[1..] == b[1..] + rest;
    if |b| > 1 && i < 10 {
      assert b[1..][|b[1..]| - 1] == b[|b| - 1];
      VarintReads(b[1..], rest, i + 1);
    }
  }

  /** Without such a byte there is no number. */
  lemma {:induction false} VarintNeedsEnd(b: seq<Byte>, i: nat)
    requires forall k :: 0 <= k < |b| ==> b[k] >= 128
    ensures UvarintFrom(b, i) == None
    decreases |b|
  {
    if b != [] && i < 10 { VarintNeedsEnd(b[1..], i + 1); }
  }

  /** A fixed-width integer has its most significant byte first: four bytes, */
  lemma FourBytes(a: Byte, b: Byte, c: Byte, d: Byte)
    ensures PutBE(((a * 256 + b) * 256 + c) * 256 + d, 4) == [a, b, c, d]
  {
    assert PutBE(a, 1) == [a];
    assert PutBE(a * 256 + b, 2) == [a, b];
    assert PutBE((a * 256 + b) * 256 + c, 3) == [a, b, c];
  }

  /** and eight bytes, the high half in front of the low one. */
  lemma {:induction false} EightBytes(hi: nat, lo: nat)
    requires lo < 0x1_0000_0000
    ensures PutBE(hi * 0x1_0000_0000 + lo, 8) == PutBE(hi, 4) + PutBE(lo, 4)
  {
    BytesBehind(hi, lo, 4, 4);
    assert Pow256(4) == 0x1_0000_0000 by { Pow256Is(); }
  }

  lemma {:induction false} BytesBehind(hi: nat, lo: nat, m: nat, n: nat)
    requires lo < Pow256(n)
    ensures PutBE(hi * Pow256(n) + lo, m + n) == PutBE(hi, m) + PutBE(lo, n)
    decreases n
  {
    if n > 0 {
      var v := hi * Pow256(n) + lo;
      OneDigit(hi, lo, Pow256(n - 1));
      BytesBehind(hi, lo / 256, m, n - 1);
    }
  }

  lemma OneDigit(hi: nat, lo: nat, p: nat)
    requires p > 0 && lo < 256 * p
    ensures (hi * (256 * p) + lo) / 256 == hi * p + lo / 256 && (hi * (256 * p) + lo) % 256 == lo % 256 && lo / 256 < p
  {
    var x := hi * p;
    assert hi * (256 * p) == 256 * x;
  }

  /** A negative integer is written as the 64-bit number that is 2^64 greater. */
  lemma SignedIs(n: int)
    requires -TWO_63 <= n < TWO_63
    ensures ToU64(n) == (if n >= 0 then n else n + TWO_64) && ToI64(ToU64(n)) == n
  {
  }

  // ---- rows ----

  /** Small numbers are one byte. */
  lemma Small(v: nat)
    requires v < 128
    ensures PutUvarint(v) == [v]
  {
  }

  /**
  A value is a tag and what belongs to it: 0 for NULL, 1 and 2 with eight bytes of an INTEGER or REAL, 3 and 4 with the length and the bytes of
  TEXT or BLOB.
  */
  lemma ValueFormat(n: int, bits: nat, s: seq<Byte>)
    ensures Record.EncodeValue(Values.Null) == [0]
    ensures Record.EncodeValue(Values.Integer(n)) == [1] + PutBE(ToU64(n), 8)
    ensures Record.EncodeValue(Values.Real(bits)) == [2] + PutBE(bits, 8)
    ensures |s| < 128 ==> Record.EncodeValue(Values.Text(s)) == [3, |s|] + s && Record.EncodeValue(Values.Blob(s)) == [4, |s|] + s
  {
    Small(1);
    Small(2);
    hide PutUvarint, PutBE, ToU64;
    if |s| < 128 { CountedFormat(s); }
  }

  lemma CountedFormat(s: seq<Byte>)
    requires |s| < 128
    ensures Record.EncodeValue(Values.Text(s)) == [3, |s|] + s && Record.EncodeValue(Values.Blob(s)) == [4, |s|] + s
  {
    Small(3);
    Small(4);
    Small(|s|);
    hide PutUvarint;
    assert [3] + ([|s|] + s) == [3, |s|] + s && [4] + ([|s|] + s) == [4, |s|] + s;
  }

  /** The values of a row follow its count, in order. */
  lemma {:induction false} RowFormat(row: seq<Values.Value>, v: Values.Value)
    ensures Record.EncodeAll(row + [v]) == Record.EncodeAll(row) + Record.EncodeValue(v)
    ensures |row| < 128 ==> Record.Encoded(row) == [|row|] + Record.EncodeAll(row)
  {
    hide Record.EncodeValue;
    if |row| < 128 { Small(|row|); }
    if row != [] {
      RowFormat(row[1..], v);
      assert (row + [v])[1..] == row[1..] + [v];
      assert Record.EncodeAll(row + [v]) == Record.EncodeValue(row[0]) + Record.EncodeAll(row[1..] + [v]);
    } else {
      assert row + [v] == [v] && [v][1..] == [];
    }
  }

  /** The row (NULL, -2, 1.5, 'ab', a blob of one byte), byte by byte. */
  lemma RowBytes()
    ensures Record.Encoded([Values.Null, Values.Integer(-2), Values.Real(0x3FF8_0000_0000_0000), Values.Text([97, 98]), Values.Blob([7])]) ==
      [5] + ([0] + ([1, 255, 255, 255, 255, 255, 255, 255, 254] + ([2, 63, 248, 0, 0, 0, 0, 0, 0] + ([3, 2, 97, 98] + [4, 1, 7]))))
  {
    var v0, v1, v2 := Values.Null, Values.Integer(-2), Values.Real(0x3FF8_0000_0000_0000);
    var v3, v4 := Values.Text([97, 98]), Values.Blob([7]);
    ValuesOfRow();
    FiveValues(v0, v1, v2, v3, v4);
    hide *;
  }

  lemma FiveValues(v0: Values.Value, v1: Values.Value, v2: Values.Value, v3: Values.Value, v4: Values.Value)
    ensures Record.Encoded([v0, v1, v2, v3, v4]) == [5] + (Record.EncodeValue(v0) + (Record.EncodeValue(v1) +
      (Record.EncodeValue(v2) + (Record.EncodeValue(v3) + Record.EncodeValue(v4)))))
  {
    Small(5);
    hide PutUvarint;
    var row := [v0, v1, v2, v3, v4];
    assert Record.Encoded(row) == [5] + Record.EncodeAll(row);
    hide *;
    OneMore(v0, [v1, v2, v3, v4], row);
    OneMore(v1, [v2, v3, v4], [v1, v2, v3, v4]);
    OneMore(v2, [v3, v4], [v2, v3, v4]);
    LastTwo(v3, v4);
  }

  lemma OneMore(v: Values.Value, rest: Record.Row, row: Record.Row)
    requires |row| == |rest| + 1 && row[0] == v && forall i :: 0 <= i < |rest| ==> row[i + 1] == rest[i]
    ensures Record.EncodeAll(row) == Record.EncodeValue(v) + Record.EncodeAll(rest)
  {
    assert row[1..] == rest;
  }

  lemma LastTwo(v: Values.Value, w: Values.Value)
    ensures Record.EncodeAll([v, w]) == Record.EncodeValue(v) + Record.EncodeValue(w)
  {
    hide Record.EncodeValue;
    assert [v, w][1..] == [w] && [w][1..] == [];
    assert Record.EncodeAll([w]) == Record.EncodeValue(w);
  }

  lemma ValuesOfRow()
    ensures Record.EncodeValue(Values.Null) == [0]
    ensures Record.EncodeValue(Values.Integer(-2)) == [1, 255, 255, 255, 255, 255, 255, 255, 254]
    ensures Record.EncodeValue(Values.Real(0x3FF8_0000_0000_0000)) == [2, 63, 248, 0, 0, 0, 0, 0, 0]
    ensures Record.EncodeValue(Values.Text([97, 98])) == [3, 2, 97, 98] && Record.EncodeValue(Values.Blob([7])) == [4, 1, 7]
  {
    ValueFormat(-2, 0x3FF8_0000_0000_0000, [97, 98]);
    CountedFormat([7]);
    MinusTwo();
    OneAndAHalf();
    hide *;
    assert [1] + [255, 255, 255, 255, 255, 255, 255, 254] == [1, 255, 255, 255, 255, 255, 255, 255, 254];
    assert [2] + [63, 248, 0, 0, 0, 0, 0, 0] == [2, 63, 248, 0, 0, 0, 0, 0, 0];
    assert [3, |[97, 98]|] + [97, 98] == [3, 2, 97, 98] && [4, |[7]|] + [7] == [4, 1, 7];
  }

  lemma MinusTwo()
    ensures PutBE(ToU64(-2), 8) == [255, 255, 255, 255, 255, 255, 255, 254]
  {
    EightBytes(0xFFFF_FFFF, 0xFFFF_FFFE);
    FourBytes(255, 255, 255, 255);
    FourBytes(255, 255, 255, 254);
    hide PutBE;
  }

  lemma OneAndAHalf()
    ensures PutBE(0x3FF8_0000_0000_0000, 8) == [63, 248, 0, 0, 0, 0, 0, 0]
  {
    EightBytes(0x3FF8_0000, 0);
    FourBytes(63, 248, 0, 0);
    FourBytes(0, 0, 0, 0);
    hide PutBE;
  }

  /** Decoding stops behind the last value, an unknown tag is an error, and so is a length that the bytes do not have. */
  lemma DecodingStops(row: Record.Row, rest: seq<Byte>, tag: Byte, n: nat, s: seq<Byte>)
    requires Record.StorableRow(row) && 5 <= tag < 128 && |s| < n < TWO_64
    ensures Record.Decode(Record.Encoded(row) + rest) == Record.Ok(row) && Record.Decode([]) == Record.Ok([])
    ensures Record.Decode([1, tag] + rest) == Record.Invalid
    ensures Record.Decode([1, 3] + PutUvarint(n) + s) == Record.Decode([1, 4] + PutUvarint(n) + s) == if n < TWO_63 then Record.Invalid else Record.Panics
  {
    RowStops(row, rest);
    TagFails(tag, rest);
    LengthFails(3, n, s);
    LengthFails(4, n, s);
  }

  lemma RowStops(row: Record.Row, rest: seq<Byte>)
    requires Record.StorableRow(row)
    ensures Record.Decode(Record.Encoded(row) + rest) == Record.Ok(row)
  {
    var u := PutUvarint(|row|);
    assert Record.Encoded(row) + rest == u + (Record.EncodeAll(row) + rest);
    UvarintRoundTrip(|row|, Record.EncodeAll(row) + rest);
    Record.AllRoundTrip(row, rest);
  }

  lemma OneTag(tag: Byte, b: seq<Byte>)
    requires tag < 128
    ensures Record.Decode([1, tag] + b) == Record.ReadAll([tag] + b, 1)
    ensures Uvarint([tag] + b) == Some((tag, 1)) && ([tag] + b)[1..] == b
  {
    Small(1);
    Small(tag);
    UvarintRoundTrip(1, [tag] + b);
    UvarintRoundTrip(tag, b);
    assert [1, tag] + b == [1] + ([tag] + b);
    assert ([1] + ([tag] + b))[1..] == [tag] + b;
  }

  lemma TagFails(tag: Byte, rest: seq<Byte>)
    requires 5 <= tag < 128
    ensures Record.Decode([1, tag] + rest) == Record.Invalid
  {
    OneTag(tag, rest);
  }

  lemma LengthFails(tag: Byte, n: nat, s: seq<Byte>)
    requires (tag == 3 || tag == 4) && |s| < n < TWO_64
    ensures Record.Decode([1, tag] + PutUvarint(n) + s) == if n < TWO_63 then Record.Invalid else Record.Panics
  {
    var b := PutUvarint(n) + s;
    assert [1, tag] + PutUvarint(n) + s == [1, tag] + b;
    OneTag(tag, b);
    UvarintRoundTrip(n, s);
    assert b[|PutUvarint(n)|..] == s;
  }

  // ---- the schema ----

  /** A string is its length and its bytes. */
  lemma ShortText(s: seq<Byte>)
    requires |s| < 128
    ensures Codecs.PutString(s) == [|s|] + s
  {
    Small(|s|);
  }

  lemma PairIs<A, B>(ea: A -> seq<Byte>, eb: B -> seq<Byte>, x: A, y: B)
    ensures Codecs.PutPair(ea, eb)((x, y)) == ea(x) + eb(y)
  {
  }

  lemma AsIs<A, B>(enc: A -> seq<Byte>, from: B -> A, x: B)
    ensures Codecs.PutAs(enc, from)(x) == enc(from(x))
  {
  }

  /** A column is its name, its type and its flags: 1 for a primary key, 2 for NOT NULL. */
  lemma ColumnFormat(c: Catalog.Column)
    ensures Catalog.PutColumn()(c) ==
      Codecs.PutString(c.name) + (Codecs.PutString(c.typ) + [(if c.primaryKey then 1 else 0) + (if c.notNull then 2 else 0)])
  {
    var flags := Codecs.PutPair(Codecs.PutString, Codecs.PutByte);
    var flag: Byte := (if c.primaryKey then 1 else 0) + (if c.notNull then 2 else 0);
    PairIs(Codecs.PutString, Codecs.PutByte, c.typ, flag);
    PairIs(Codecs.PutString, flags, c.name, (c.typ, flag));
    AsIs(Codecs.PutPair(Codecs.PutString, flags), Catalog.FromColumn, c);
  }

  /** A table is its name, its root page, and its columns behind their number. */
  lemma TableFormat(t: Catalog.Table)
    ensures Catalog.PutTable()(t) ==
      Codecs.PutString(t.name) + (PutUvarint(t.root) + (PutUvarint(|t.columns|) + Codecs.PutAll(Catalog.PutColumn(), t.columns)))
  {
    var list := Codecs.PutList(Catalog.PutColumn());
    var root := Codecs.PutPair(PutUvarint, list);
    assert list(t.columns) == PutUvarint(|t.columns|) + Codecs.PutAll(Catalog.PutColumn(), t.columns);
    PairIs(PutUvarint, list, t.root, t.columns);
    PairIs(Codecs.PutString, root, t.name, (t.root, t.columns));
    AsIs(Codecs.PutPair(Codecs.PutString, root), Catalog.FromTable, t);
  }

  /** An index is its name, its table, its root page, 1 if it is unique, and its columns behind their number. */
  lemma IndexFormat(ix: Catalog.Index)
    ensures Catalog.PutIndex()(ix) ==
      Codecs.PutString(ix.name) + (Codecs.PutString(ix.table) + (PutUvarint(ix.root) +
        ([if ix.unique then 1 else 0] + (PutUvarint(|ix.columns|) + Codecs.PutAll(Codecs.PutString, ix.columns)))))
  {
    var list := Codecs.PutList(Codecs.PutString);
    var flag := Codecs.PutPair(Codecs.PutByte, list);
    var root := Codecs.PutPair(PutUvarint, flag);
    var table := Codecs.PutPair(Codecs.PutString, root);
    var f: Byte := if ix.unique then 1 else 0;
    assert list(ix.columns) == PutUvarint(|ix.columns|) + Codecs.PutAll(Codecs.PutString, ix.columns);
    PairIs(Codecs.PutByte, list, f, ix.columns);
    PairIs(PutUvarint, flag, ix.root, (f, ix.columns));
    PairIs(Codecs.PutString, root, ix.table, (ix.root, (f, ix.columns)));
    PairIs(Codecs.PutString, table, ix.name, (ix.table, (ix.root, (f, ix.columns))));
    AsIs(Codecs.PutPair(Codecs.PutString, table), Catalog.FromIndex, ix);
  }

  /** Reading takes the low 32 bits of a root page, and of the flags only those that are written. */
  lemma FieldsRead(name: seq<Byte>, other: seq<Byte>, root: nat, flags: Byte, columns: seq<Catalog.Column>, names: seq<seq<Byte>>)
    ensures var c := Catalog.ToColumn((name, (other, flags)));
      c.name == name && c.typ == other && (flags - (if c.primaryKey then 1 else 0) - (if c.notNull then 2 else 0)) % 4 == 0
    ensures var t := Catalog.ToTable((name, (root, columns)));
      t.name == name && t.columns == columns && 0 <= t.root < 0x1_0000_0000 && (root - t.root) % 0x1_0000_0000 == 0
    ensures var ix := Catalog.ToIndex((name, (other, (root, (flags, names)))));
      && ix.name == name && ix.table == other && ix.columns == names && (flags - (if ix.unique then 1 else 0)) % 2 == 0
      && 0 <= ix.root < 0x1_0000_0000 && (root - ix.root) % 0x1_0000_0000 == 0
  {
  }

  /** A schema is its tables behind their number and its indexes behind theirs, in the order that the maps yield. */
  lemma SchemaFormat(tables: seq<Catalog.Table>, indexes: seq<Catalog.Index>)
    ensures Catalog.PutCatalog()((tables, indexes)) ==
      (PutUvarint(|tables|) + Codecs.PutAll(Catalog.PutTable(), tables)) + (PutUvarint(|indexes|) + Codecs.PutAll(Catalog.PutIndex(), indexes))
  {
  }

  lemma PutOne<T>(enc: T -> seq<Byte>, x: T)
    ensures Codecs.PutAll(enc, [x]) == enc(x)
  {
    assert [x][1..] == [];
  }

  lemma PutTwo<T>(enc: T -> seq<Byte>, x: T, y: T)
    ensures Codecs.PutAll(enc, [x, y]) == enc(x) + enc(y)
  {
    assert [x, y][1..] == [y];
    PutOne(enc, y);
  }

  /** A table t(a INT PRIMARY KEY, b NOT NULL) on page 2 and a unique index i on t(b) on page 300, byte by byte. */
  lemma SchemaBytes()
    ensures var t := Catalog.Table([116], [Catalog.Column([97], [73, 78, 84], true, false), Catalog.Column([98], [], false, true)], 2);
      var i := Catalog.Index([105], [116], [[98]], true, 300);
      Catalog.PutCatalog()(([t], [i])) ==
        ([1] + ([1, 116] + ([2] + ([2] + (([1, 97] + ([3, 73, 78, 84] + [1])) + ([1, 98] + ([0] + [2]))))))) +
        ([1] + ([1, 105] + ([1, 116] + ([172, 2] + ([1] + ([1] + [1, 98]))))))
  {
    var a, b := Catalog.Column([97], [73, 78, 84], true, false), Catalog.Column([98], [], false, true);
    var t := Catalog.Table([116], [a, b], 2);
    var i := Catalog.Index([105], [116], [[98]], true, 300);
    SchemaFormat([t], [i]);
    TableBytes(a, b, t);
    IndexBytes(i);
    PutOne(Catalog.PutTable(), t);
    PutOne(Catalog.PutIndex(), i);
    Small(1);
    hide Catalog.PutCatalog, Catalog.PutTable, Catalog.PutIndex, Codecs.PutAll, PutUvarint;
  }

  lemma TableBytes(a: Catalog.Column, b: Catalog.Column, t: Catalog.Table)
    requires a == Catalog.Column([97], [73, 78, 84], true, false) && b == Catalog.Column([98], [], false, true)
    requires t == Catalog.Table([116], [a, b], 2)
    ensures Catalog.PutTable()(t) == [1, 116] + ([2] + ([2] + (([1, 97] + ([3, 73, 78, 84] + [1])) + ([1, 98] + ([0] + [2])))))
  {
    TableFormat(t);
    ColumnsBytes(a, b);
    ShortText(t.name);
    Small(2);
    assert [|t.name|] + t.name == [1, 116] && |t.columns| == 2 && t.root == 2;
    hide *;
  }

  lemma ColumnsBytes(a: Catalog.Column, b: Catalog.Column)
    requires a == Catalog.Column([97], [73, 78, 84], true, false) && b == Catalog.Column([98], [], false, true)
    ensures Codecs.PutAll(Catalog.PutColumn(), [a, b]) == ([1, 97] + ([3, 73, 78, 84] + [1])) + ([1, 98] + ([0] + [2]))
  {
    PutTwo(Catalog.PutColumn(), a, b);
    ColumnFormat(a);
    ColumnFormat(b);
    ShortText(a.name);
    ShortText(a.typ);
    ShortText(b.name);
    ShortText(b.typ);
    assert [|a.name|] + a.name == [1, 97] && [|a.typ|] + a.typ == [3, 73, 78, 84] && [|b.name|] + b.name == [1, 98] && [|b.typ|] + b.typ == [0];
    hide *;
  }

  lemma IndexBytes(i: Catalog.Index)
    requires i == Catalog.Index([105], [116], [[98]], true, 300)
    ensures Catalog.PutIndex()(i) == [1, 105] + ([1, 116] + ([172, 2] + ([1] + ([1] + [1, 98]))))
  {
    IndexFormat(i);
    PutOne(Codecs.PutString, [98]);
    ShortText(i.name);
    ShortText(i.table);
    ShortText([98]);
    Small(1);
    assert PutUvarint(300) == [172] + PutUvarint(2) && PutUvarint(2) == [2];
    hide Catalog.PutIndex, Codecs.PutAll, Codecs.PutString, PutUvarint;
  }

  // ---- pages ----

  /** Two bytes of a page, the most significant first. */
  function Two(d: seq<Byte>, p: nat): nat
    requires p + 2 <= |d|
  {
    (d[p] as nat) * 256 + d[p + 1]
  }

  /** Offset of cell i, and the bytes there. */
  ghost predicate CellBytes(d: seq<Byte>, i: nat, r: seq<Byte>) {
    && 12 + 2 * i <= |d|
    && var off := Two(d, 10 + 2 * i);
       Two(d, 4) <= off && off + |r| <= |d| && d[off..off + |r|] == r
  }

  /**
  The bytes of a page: its type, the number of cells at 2, where they start at 4, a page number at 6, and from 10 on the offset of every cell.
  A leaf is of type 1 or 3 and has its sibling at 6, an interior page of type 2 or 4 and has its first child there.
  */
  lemma PageFormat(kind: Kind, d: seq<Byte>, page: Page<Key, Key>)
    requires Holds(kind, d, page)
    ensures |d| == 4096
    ensures page.Blank? ==> forall p :: 0 <= p < 4096 ==> d[p] == 0
    ensures page.LeafPage? ==>
      && d[0] == (if kind == TableKind then 1 else 3) && Two(d, 2) == |page.cells|
      && Two(d, 6) * 0x1_0000 + Two(d, 8) == page.sibling
      && forall i :: 0 <= i < |page.cells| ==> CellBytes(d, i, LeafCellBytes(kind, page.cells[i]))
    ensures page.InnerPage? ==>
      && d[0] == (if kind == TableKind then 2 else 4) && Two(d, 2) == |page.kids|
      && Two(d, 6) * 0x1_0000 + Two(d, 8) == page.first
      && forall i :: 0 <= i < |page.kids| ==> CellBytes(d, i, InnerCellBytes(kind, page.kids[i]))
  {
    match page
    case Blank =>
    case LeafPage(cells, sibling) => RecordsAre(d, LeafRecords(kind, cells));
    case InnerPage(first, kids) => RecordsAre(d, InnerRecords(kind, kids));
  }

  lemma RecordsAre(d: seq<Byte>, recs: seq<seq<Byte>>)
    requires Slotted(d, recs)
    ensures forall i :: 0 <= i < |recs| ==> CellBytes(d, i, recs[i])
  {
    forall i | 0 <= i < |recs| ensures CellBytes(d, i, recs[i]) {
      assert RecordAt(d, Offset(d, i), recs[i], U16(d, 4));
    }
  }

  /** A leaf cell: the key, behind its length in an index, then the length of the payload and the payload. */
  function LeafCellBytes(kind: Kind, c: Cell<Key, Key>): (r: seq<Byte>)
    ensures r == EncodeLeaf(kind, c)
  {
    (if kind == TableKind then c.key else PutUvarint(|c.key|) + c.key) + (PutUvarint(|c.val|) + c.val)
  }

  /** An interior cell: the separator in the same way, then the child in four bytes. */
  function InnerCellBytes(kind: Kind, c: Cell<Key, nat>): (r: seq<Byte>)
    ensures r == EncodeInner(kind, c)
  {
    (if kind == TableKind then c.key else PutUvarint(|c.key|) + c.key) + PutBE(c.val, 4)
  }
}
