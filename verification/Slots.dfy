/**
The slotted layout of a page, on values: a header, an array of 2-byte offsets in key order, and the
cells packed down from the end of the page.
*/
module Slots {
  import opened Bytes
  import opened Cells
  import opened TreeHeap

  type Key = seq<Byte>

  datatype Kind = TableKind | IndexKind

  const HEADER := 10

  function U16(d: seq<Byte>, p: nat): nat
    requires p + 2 <= |d|
  {
    (d[p] as nat) * 256 + d[p + 1]
  }

  function U32(d: seq<Byte>, p: nat): nat
    requires p + 4 <= |d|
  {
    U16(d, p) * 0x1_0000 + U16(d, p + 2)
  }

  /** The offset of cell i. */
  function Offset(d: seq<Byte>, i: nat): nat
    requires HEADER + 2 * i + 2 <= |d|
  {
    U16(d, HEADER + 2 * i)
  }

  ghost predicate RecordAt(d: seq<Byte>, off: nat, r: seq<Byte>, from: nat) {
    from <= off && off + |r| <= |d| && d[off..off + |r|] == r
  }

  ghost predicate Disjoint(a: nat, m: nat, b: nat, n: nat) {
    a + m <= b || b + n <= a
  }

  /** The records lie behind `from`, none over another, and the offsets in front of it lead to them. */
  ghost predicate Records(d: seq<Byte>, recs: seq<seq<Byte>>, from: nat) {
    && |d| == PAGE_SIZE && U16(d, 2) == |recs| && HEADER + 2 * |recs| <= from
    && (forall i :: 0 <= i < |recs| ==> HEADER + 2 * i + 2 <= |d| && RecordAt(d, Offset(d, i), recs[i], from))
    && (forall i, j :: 0 <= i < j < |recs| ==>
      HEADER + 2 * j + 2 <= |d| && Disjoint(Offset(d, i), |recs[i]|, Offset(d, j), |recs[j]|))
  }

  function Sum(recs: seq<seq<Byte>>): nat {
    if recs == [] then 0 else |recs[0]| + Sum(recs[1..])
  }

  /** A page that holds exactly these records, packed without gaps from the end. */
  ghost predicate Slotted(d: seq<Byte>, recs: seq<seq<Byte>>) {
    |d| == PAGE_SIZE && Records(d, recs, U16(d, 4)) && U16(d, 4) + Sum(recs) == PAGE_SIZE
  }

  lemma {:induction false} SumAppend(a: seq<seq<Byte>>, b: seq<seq<Byte>>)
    ensures Sum(a + b) == Sum(a) + Sum(b)
  {
    if a == [] {
      assert a + b == b;
    } else {
      assert (a + b)[1..] == a[1..] + b;
      SumAppend(a[1..], b);
    }
  }

  lemma {:induction false} SumInsert(recs: seq<seq<Byte>>, i: nat, r: seq<Byte>)
    requires i <= |recs|
    ensures Sum(recs[..i] + [r] + recs[i..]) == Sum(recs) + |r|
  {
    SumAppend(recs[..i] + [r], recs[i..]);
    SumAppend(recs[..i], [r]);
    SumAppend(recs[..i], recs[i..]);
    assert recs[..i] + recs[i..] == recs && [r][1..] == [];
  }

  // ---- one more record ----

  /** d with one more record r at `off`, whose pointer goes in at position i. */
  ghost predicate Extended(d: seq<Byte>, e: seq<Byte>, n: nat, cs: nat, off: nat, i: nat, r: seq<Byte>) {
    && |d| == |e| == PAGE_SIZE && i <= n && HEADER + 2 * n + 2 <= off && off + |r| == cs <= PAGE_SIZE
    && U16(e, 2) == n + 1 && U16(e, 4) == off
    && (forall p :: HEADER <= p < HEADER + 2 * i ==> e[p] == d[p])
    && U16(e, HEADER + 2 * i) == off
    && (forall p :: HEADER + 2 * i <= p < HEADER + 2 * n ==> e[p + 2] == d[p])
    && e[off..cs] == r
    && (forall p :: cs <= p < PAGE_SIZE ==> e[p] == d[p])
  }

  lemma ExtendedOffset(d: seq<Byte>, e: seq<Byte>, n: nat, cs: nat, off: nat, i: nat, r: seq<Byte>, j: nat)
    requires Extended(d, e, n, cs, off, i, r) && j <= n
    ensures Offset(e, j) == if j < i then Offset(d, j) else if j == i then off else Offset(d, j - 1)
  {
    if j > i {
      var p := HEADER + 2 * (j - 1);
      assert e[p + 2] == d[p] && e[p + 1 + 2] == d[p + 1];
    }
  }

  lemma ExtendedRecord(d: seq<Byte>, e: seq<Byte>, n: nat, cs: nat, off: nat, i: nat, r: seq<Byte>, o: nat, x: seq<Byte>)
    requires Extended(d, e, n, cs, off, i, r) && RecordAt(d, o, x, cs)
    ensures RecordAt(e, o, x, cs) && RecordAt(e, o, x, off)
  {
    assert e[o..o + |x|] == d[o..o + |x|];
  }

  lemma ExtendedRecords(d: seq<Byte>, e: seq<Byte>, recs: seq<seq<Byte>>, cs: nat, off: nat, i: nat, r: seq<Byte>, j: nat)
    requires Records(d, recs, cs) && Extended(d, e, |recs|, cs, off, i, r) && j <= |recs|
    ensures RecordAt(e, Offset(e, j), (recs[..i] + [r] + recs[i..])[j], off)
  {
    ExtendedOffset(d, e, |recs|, cs, off, i, r, j);
    if j != i {
      var k := if j < i then j else j - 1;
      ExtendedRecord(d, e, |recs|, cs, off, i, r, Offset(d, k), recs[k]);
    }
  }

  /** The extended page holds the old records and the new one at its place. */
  lemma ExtendedSlotted(d: seq<Byte>, e: seq<Byte>, recs: seq<seq<Byte>>, off: nat, i: nat, r: seq<Byte>)
    requires Slotted(d, recs) && Extended(d, e, |recs|, U16(d, 4), off, i, r)
    ensures Slotted(e, recs[..i] + [r] + recs[i..])
  {
    var n, cs, all := |recs|, U16(d, 4), recs[..i] + [r] + recs[i..];
    SumInsert(recs, i, r);
    forall j | 0 <= j < |all| ensures RecordAt(e, Offset(e, j), all[j], off) {
      ExtendedRecords(d, e, recs, cs, off, i, r, j);
    }
    forall j, k | 0 <= j < k < |all| ensures Disjoint(Offset(e, j), |all[j]|, Offset(e, k), |all[k]|) {
      ExtendedOffset(d, e, n, cs, off, i, r, j);
      ExtendedOffset(d, e, n, cs, off, i, r, k);
      ExtendedDisjoint(d, recs, cs, off, i, r, j, k);
    }
  }

  lemma ExtendedDisjoint(d: seq<Byte>, recs: seq<seq<Byte>>, cs: nat, off: nat, i: nat, r: seq<Byte>, j: nat, k: nat)
    requires Records(d, recs, cs) && i <= |recs| && off + |r| == cs && j < k <= |recs|
    ensures var all := recs[..i] + [r] + recs[i..];
      Disjoint(if j < i then Offset(d, j) else if j == i then off else Offset(d, j - 1), |all[j]|,
               if k < i then Offset(d, k) else if k == i then off else Offset(d, k - 1), |all[k]|)
  {
    OneMore(recs, i, r, j);
    OneMore(recs, i, r, k);
    if j == i {
      assert RecordAt(d, Offset(d, k - 1), recs[k - 1], cs);
    } else if k == i {
      assert RecordAt(d, Offset(d, j), recs[j], cs);
    }
  }

  lemma OneMore<T>(xs: seq<T>, i: nat, x: T, j: nat)
    requires i <= |xs| && j <= |xs|
    ensures (xs[..i] + [x] + xs[i..])[j] == if j < i then xs[j] else if j == i then x else xs[j - 1]
  {
  }

  // ---- cells as bytes ----

  predicate KeyOk(kind: Kind, key: Key) {
    kind == TableKind ==> |key| == 8
  }

  function EncodeKey(kind: Kind, key: Key): Key {
    match kind
    case TableKind => key
    case IndexKind => PutUvarint(|key|) + key
  }

  function EncodeLeaf(kind: Kind, c: Cell<Key, Key>): Key {
    EncodeKey(kind, c.key) + (PutUvarint(|c.val|) + c.val)
  }

  function EncodeInner(kind: Kind, c: Cell<Key, nat>): Key {
    EncodeKey(kind, c.key) + PutBE(c.val, 4)
  }

  /** The bytes a leaf cell and its pointer take. */
  function LeafBytes(kind: Kind): Cell<Key, Key> -> nat {
    (c: Cell<Key, Key>) => |EncodeKey(kind, c.key)| + |PutUvarint(|c.val|)| + |c.val| + 2
  }

  function InnerBytes(kind: Kind): Cell<Key, nat> -> nat {
    (c: Cell<Key, nat>) => |EncodeKey(kind, c.key)| + 4 + 2
  }

  /** Reads the key of the cell at `off`, and where the bytes behind it start. */
  function KeyAt(kind: Kind, d: seq<Byte>, off: nat): Option<(Key, nat)>
    requires off <= |d|
  {
    match kind
    case TableKind => if off + 8 <= |d| then Some((d[off..off + 8], off + 8)) else None
    case IndexKind =>
      match Uvarint(d[off..])
      case None => None
      case Some((klen, w)) => if off + w + klen <= |d| then Some((d[off + w..off + w + klen], off + w + klen)) else None
  }

  function PayloadAt(d: seq<Byte>, off: nat): Option<Key>
    requires off <= |d|
  {
    match Uvarint(d[off..])
    case None => None
    case Some((n, w)) => if off + w + n <= |d| then Some(d[off + w..off + w + n]) else None
  }

  lemma TwoParts(d: seq<Byte>, off: nat, x: seq<Byte>, y: seq<Byte>)
    requires RecordAt(d, off, x + y, 0)
    ensures RecordAt(d, off, x, 0) && RecordAt(d, off + |x|, y, 0)
  {
    assert (x + y)[..|x|] == x && (x + y)[|x|..] == y;
    assert d[off..off + |x|] == d[off..off + |x| + |y|][..|x|];
    assert d[off + |x|..off + |x| + |y|] == d[off..off + |x| + |y|][|x|..];
  }

  lemma UvarintAtOffset(d: seq<Byte>, off: nat, v: nat, u: seq<Byte>)
    requires v < TWO_64 && u == PutUvarint(v) && RecordAt(d, off, u, 0)
    ensures Uvarint(d[off..]) == Some((v, |u|))
  {
    assert d[off..] == u + d[off + |u|..];
    UvarintRoundTrip(v, d[off + |u|..]);
  }

  lemma CountedKeyAt(d: seq<Byte>, off: nat, u: seq<Byte>, key: Key)
    requires RecordAt(d, off, u, 0) && RecordAt(d, off + |u|, key, 0) && Uvarint(d[off..]) == Some((|key|, |u|))
    ensures KeyAt(IndexKind, d, off) == Some((key, off + |u| + |key|))
  {
  }

  lemma CountedPayloadAt(d: seq<Byte>, off: nat, u: seq<Byte>, val: Key)
    requires RecordAt(d, off, u, 0) && RecordAt(d, off + |u|, val, 0) && Uvarint(d[off..]) == Some((|val|, |u|))
    ensures PayloadAt(d, off) == Some(val)
  {
  }

  lemma {:induction false} IndexKeyReadsBack(d: seq<Byte>, off: nat, u: seq<Byte>, key: Key)
    requires u == PutUvarint(|key|) && RecordAt(d, off, u + key, 0) && |d| == PAGE_SIZE
    ensures KeyAt(IndexKind, d, off) == Some((key, off + |u| + |key|))
  {
    TwoParts(d, off, u, key);
    UvarintAtOffset(d, off, |key|, u);
    CountedKeyAt(d, off, u, key);
  }

  /** A key is read back from the front of any record that starts with it. */
  lemma KeyReadsBack(kind: Kind, d: seq<Byte>, off: nat, key: Key, rest: Key)
    requires KeyOk(kind, key) && RecordAt(d, off, EncodeKey(kind, key) + rest, 0) && |d| == PAGE_SIZE
    ensures KeyAt(kind, d, off) == Some((key, off + |EncodeKey(kind, key)|))
    ensures d[off + |EncodeKey(kind, key)|..off + |EncodeKey(kind, key)| + |rest|] == rest
  {
    TwoParts(d, off, EncodeKey(kind, key), rest);
    if kind == IndexKind {
      IndexKeyReadsBack(d, off, PutUvarint(|key|), key);
    }
  }

  lemma {:induction false} PayloadParts(d: seq<Byte>, off: nat, u: seq<Byte>, val: Key)
    requires u == PutUvarint(|val|) && RecordAt(d, off, u + val, 0) && |d| == PAGE_SIZE
    ensures PayloadAt(d, off) == Some(val)
  {
    TwoParts(d, off, u, val);
    UvarintAtOffset(d, off, |val|, u);
    CountedPayloadAt(d, off, u, val);
  }

  lemma {:induction false} PayloadReadsBack(d: seq<Byte>, off: nat, val: Key)
    requires RecordAt(d, off, PutUvarint(|val|) + val, 0) && |d| == PAGE_SIZE
    ensures PayloadAt(d, off) == Some(val)
  {
    PayloadParts(d, off, PutUvarint(|val|), val);
  }

  // ---- what the bytes of a page say ----

  function LeafRecords(kind: Kind, cells: seq<Cell<Key, Key>>): (r: seq<Key>)
    ensures |r| == |cells|
    ensures forall i {:trigger r[i]} :: 0 <= i < |r| ==> r[i] == EncodeLeaf(kind, cells[i])
  {
    seq(|cells|, i requires 0 <= i < |cells| => EncodeLeaf(kind, cells[i]))
  }

  function InnerRecords(kind: Kind, kids: seq<Cell<Key, nat>>): (r: seq<Key>)
    ensures |r| == |kids|
    ensures forall i {:trigger r[i]} :: 0 <= i < |r| ==> r[i] == EncodeInner(kind, kids[i])
  {
    seq(|kids|, i requires 0 <= i < |kids| => EncodeInner(kind, kids[i]))
  }

  function Keys<V>(cells: seq<Cell<Key, V>>): (r: seq<Key>)
    ensures |r| == |cells|
    ensures forall i {:trigger r[i]} :: 0 <= i < |r| ==> r[i] == cells[i].key
  {
    seq(|cells|, i requires 0 <= i < |cells| => cells[i].key)
  }

  function TypeByte(kind: Kind, leaf: bool): Byte {
    match kind
    case TableKind => if leaf then 1 else 2
    case IndexKind => if leaf then 3 else 4
  }

  /** The bytes d are the page as the tree sees it. */
  ghost predicate Holds(kind: Kind, d: seq<Byte>, page: Page<Key, Key>) {
    && |d| == PAGE_SIZE
    && match page
       case Blank => forall p :: 0 <= p < PAGE_SIZE ==> d[p] == 0
       case LeafPage(cells, sibling) =>
         && d[0] == TypeByte(kind, true) && U32(d, 6) == sibling && Slotted(d, LeafRecords(kind, cells))
         && (forall i :: 0 <= i < |cells| ==> KeyOk(kind, cells[i].key))
       case InnerPage(first, kids) =>
         && d[0] == TypeByte(kind, false) && U32(d, 6) == first && Slotted(d, InnerRecords(kind, kids))
         && (forall i :: 0 <= i < |kids| ==> KeyOk(kind, kids[i].key) && kids[i].val < 0x1_0000_0000)
  }

  lemma {:induction false} LeafSum(kind: Kind, cells: seq<Cell<Key, Key>>)
    ensures Sum(LeafRecords(kind, cells)) + 2 * |cells| == Total(LeafBytes(kind), cells)
  {
    if cells != [] {
      assert LeafRecords(kind, cells)[1..] == LeafRecords(kind, cells[1..]);
      LeafSum(kind, cells[1..]);
    }
  }

  lemma {:induction false} InnerSum(kind: Kind, kids: seq<Cell<Key, nat>>)
    ensures Sum(InnerRecords(kind, kids)) + 2 * |kids| == Total(InnerBytes(kind), kids)
  {
    if kids != [] {
      assert InnerRecords(kind, kids)[1..] == InnerRecords(kind, kids[1..]);
      InnerSum(kind, kids[1..]);
    }
  }
}
