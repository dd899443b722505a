/**
A tree node as it changes the 4096 bytes of its page in place. What the bytes say before and after is
a page of module TreeHeap, so that every operation here has the contract that module Trees builds on.
*/
module Nodes {
  import opened Bytes
  import opened Cells
  import BTreeOps
  import opened TreeHeap
  import opened Slots
  import TableTree

  // ---- steps on the way to one more record ----

  /** Only the record at `off` and the start of the cells are written, no pointer leads to it yet. */
  ghost predicate Written(d: seq<Byte>, e: seq<Byte>, cs: nat, off: nat, r: seq<Byte>) {
    && |d| == |e| == PAGE_SIZE && HEADER <= off && off + |r| == cs <= PAGE_SIZE
    && (forall p :: 0 <= p < off && p != 4 && p != 5 ==> e[p] == d[p])
    && U16(e, 4) == off && e[off..cs] == r
    && (forall p :: cs <= p < PAGE_SIZE ==> e[p] == d[p])
  }

  lemma WrittenRecords(d: seq<Byte>, e: seq<Byte>, recs: seq<seq<Byte>>, cs: nat, off: nat, r: seq<Byte>)
    requires Records(d, recs, cs) && Written(d, e, cs, off, r) && HEADER + 2 * |recs| <= off
    ensures Records(e, recs, cs)
  {
    forall i | 0 <= i < |recs| ensures Offset(e, i) == Offset(d, i) && RecordAt(e, Offset(e, i), recs[i], cs) {
      var p := HEADER + 2 * i;
      assert e[p] == d[p] && e[p + 1] == d[p + 1];
      var o := Offset(d, i);
      assert RecordAt(d, o, recs[i], cs);
      assert e[o..o + |recs[i]|] == d[o..o + |recs[i]|];
    }
  }

  /** Every record begins with the key that stands at its place. */
  ghost predicate Keyed(kind: Kind, recs: seq<seq<Byte>>, keys: seq<Key>) {
    && |recs| == |keys|
    && forall i :: 0 <= i < |recs| ==> KeyOk(kind, keys[i]) && StartsWith(recs[i], EncodeKey(kind, keys[i]))
  }

  ghost predicate StartsWith(r: seq<Byte>, k: seq<Byte>) {
    |k| <= |r| && r == k + r[|k|..]
  }

  /** Behind a key that is not less than `key` all others are greater: what a binary search for it asks of the comparator. */
  ghost predicate Divides(cmp: (Key, Key) -> int, keys: seq<Key>, key: Key) {
    forall i, j :: 0 <= i < j < |keys| && cmp(keys[i], key) >= 0 ==> cmp(keys[j], key) > 0
  }

  ghost predicate Before(cmp: (Key, Key) -> int, keys: seq<Key>, i: nat, key: Key)
    requires i <= |keys|
  {
    forall j :: 0 <= j < i ==> cmp(keys[j], key) < 0
  }

  ghost predicate Behind(cmp: (Key, Key) -> int, keys: seq<Key>, i: nat, key: Key)
    requires i <= |keys|
  {
    forall j :: i <= j < |keys| ==> cmp(keys[j], key) > 0
  }

  /** Position i is that of the first key not less than `key`. */
  ghost predicate Lands(cmp: (Key, Key) -> int, keys: seq<Key>, key: Key, i: nat) {
    && i <= |keys| && Before(cmp, keys, i, key)
    && (i < |keys| ==> cmp(keys[i], key) >= 0)
  }

  /** Whatever key is compared with the middle one, the keys on its far side compare the same way. */
  lemma BeyondMiddle(cmp: (Key, Key) -> int, keys: seq<Key>, mid: nat, key: Key)
    requires Divides(cmp, keys, key) && mid < |keys|
    ensures cmp(keys[mid], key) <= 0 ==> Before(cmp, keys, mid, key)
    ensures cmp(keys[mid], key) < 0 ==> Before(cmp, keys, mid + 1, key)
    ensures cmp(keys[mid], key) > 0 ==> Behind(cmp, keys, mid, key)
  {
  }

  /** Sorted keys divide around a key whenever the comparator is an order among them and it. */
  lemma SortedDivides<V>(cmp: (Key, Key) -> int, cells: seq<Cell<Key, V>>, key: Key)
    requires Sorted(cmp, cells) && forall i, j :: 0 <= i < j < |cells| ==> Chain(cmp, key, cells[i].key, cells[j].key)
    ensures Divides(cmp, Keys(cells), key)
  {
    var keys := Keys(cells);
    forall i, j | 0 <= i < j < |keys| && cmp(keys[i], key) >= 0 ensures cmp(keys[j], key) > 0 {
      assert Chain(cmp, key, cells[i].key, cells[j].key) && cmp(cells[i].key, cells[j].key) < 0;
    }
  }

  lemma LeafKeyed(kind: Kind, cells: seq<Cell<Key, Key>>)
    requires forall i :: 0 <= i < |cells| ==> KeyOk(kind, cells[i].key)
    ensures Keyed(kind, LeafRecords(kind, cells), Keys(cells))
  {
    var recs, keys := LeafRecords(kind, cells), Keys(cells);
    forall i | 0 <= i < |recs| ensures KeyOk(kind, keys[i]) && StartsWith(recs[i], EncodeKey(kind, keys[i])) {
      assert recs[i] == EncodeKey(kind, keys[i]) + (PutUvarint(|cells[i].val|) + cells[i].val);
    }
  }

  lemma InnerKeyed(kind: Kind, kids: seq<Cell<Key, nat>>)
    requires forall i :: 0 <= i < |kids| ==> KeyOk(kind, kids[i].key)
    ensures Keyed(kind, InnerRecords(kind, kids), Keys(kids))
  {
    var recs, keys := InnerRecords(kind, kids), Keys(kids);
    forall i | 0 <= i < |recs| ensures KeyOk(kind, keys[i]) && StartsWith(recs[i], EncodeKey(kind, keys[i])) {
      assert recs[i] == EncodeKey(kind, keys[i]) + PutBE(kids[i].val, 4);
    }
  }

  /** The header apart, nothing has changed. */
  lemma SameBody(d: seq<Byte>, e: seq<Byte>, recs: seq<seq<Byte>>)
    requires Slotted(d, recs) && |e| == |d| && forall p :: 0 <= p < |d| && !(6 <= p < HEADER) ==> e[p] == d[p]
    ensures Slotted(e, recs)
  {
    forall i | 0 <= i < |recs| ensures Offset(e, i) == Offset(d, i) && RecordAt(e, Offset(e, i), recs[i], U16(d, 4)) {
      var o := Offset(d, i);
      assert RecordAt(d, o, recs[i], U16(d, 4));
      assert e[o..o + |recs[i]|] == d[o..o + |recs[i]|];
    }
  }

  lemma LeafRecordsInsert(kind: Kind, cells: seq<Cell<Key, Key>>, i: nat, c: Cell<Key, Key>, r: Key)
    requires i <= |cells| && r == EncodeLeaf(kind, c)
    ensures var recs := LeafRecords(kind, cells);
      LeafRecords(kind, InsertAt(cells, i, c)) == recs[..i] + [r] + recs[i..]
  {
    var recs := LeafRecords(kind, cells);
    var all := LeafRecords(kind, InsertAt(cells, i, c));
    forall j | 0 <= j < |all| ensures all[j] == (recs[..i] + [r] + recs[i..])[j] {
      var x := InsertAt(cells, i, c)[j];
      assert all[j] == EncodeLeaf(kind, x);
      if j < i { assert recs[j] == EncodeLeaf(kind, x); } else if j > i { assert recs[j - 1] == EncodeLeaf(kind, x); }
    }
  }

  lemma InnerRecordsInsert(kind: Kind, kids: seq<Cell<Key, nat>>, i: nat, c: Cell<Key, nat>, r: Key)
    requires i <= |kids| && r == EncodeInner(kind, c)
    ensures var recs := InnerRecords(kind, kids);
      InnerRecords(kind, InsertAt(kids, i, c)) == recs[..i] + [r] + recs[i..]
  {
    var recs := InnerRecords(kind, kids);
    var all := InnerRecords(kind, InsertAt(kids, i, c));
    forall j | 0 <= j < |all| ensures all[j] == (recs[..i] + [r] + recs[i..])[j] {
      var x := InsertAt(kids, i, c)[j];
      assert all[j] == EncodeInner(kind, x);
      if j < i { assert recs[j] == EncodeInner(kind, x); } else if j > i { assert recs[j - 1] == EncodeInner(kind, x); }
    }
  }

  /** The place of a key among the keys is its slot among the cells. */
  lemma KeysSlot<V>(cmp: (Key, Key) -> int, cells: seq<Cell<Key, V>>, key: Key, i: nat)
    requires Lands(cmp, Keys(cells), key, i)
    ensures Slot(cmp, cells, key) == i
  {
    forall j | 0 <= j < i ensures cmp(cells[j].key, key) < 0 {
      assert Keys(cells)[j] == cells[j].key;
    }
    if i < |cells| { assert Keys(cells)[i] == cells[i].key; }
    SlotUnique(cmp, cells, key, i);
  }

  /** The free space of a page is what the sizes of its cells leave of its room. */
  lemma LeafRoom(kind: Kind, d: seq<Byte>, page: Page<Key, Key>)
    requires Holds(kind, d, page) && page.LeafPage?
    ensures U16(d, 4) - (HEADER + 2 * U16(d, 2)) == ROOM - Total(LeafBytes(kind), page.cells)
  {
    LeafSum(kind, page.cells);
  }

  lemma InnerRoom(kind: Kind, d: seq<Byte>, page: Page<Key, Key>)
    requires Holds(kind, d, page) && page.InnerPage?
    ensures U16(d, 4) - (HEADER + 2 * U16(d, 2)) == ROOM - Total(InnerBytes(kind), page.kids)
  {
    InnerSum(kind, page.kids);
  }

  /** A leaf with one more record says one more cell. */
  lemma LeafGrew(kind: Kind, cmp: (Key, Key) -> int, d: seq<Byte>, e: seq<Byte>, page: Page<Key, Key>, c: Cell<Key, Key>, i: nat, off: nat)
    requires Holds(kind, d, page) && page.LeafPage? && KeyOk(kind, c.key) && Lands(cmp, Keys(page.cells), c.key, i)
    requires Extended(d, e, |page.cells|, U16(d, 4), off, i, EncodeLeaf(kind, c)) && e[0] == d[0] && U32(e, 6) == U32(d, 6)
    ensures Holds(kind, e, LeafPage(Insert(cmp, page.cells, c), page.sibling))
  {
    KeysSlot(cmp, page.cells, c.key, i);
    assert Slotted(e, LeafRecords(kind, InsertAt(page.cells, i, c))) by {
      ExtendedSlotted(d, e, LeafRecords(kind, page.cells), off, i, EncodeLeaf(kind, c));
      LeafRecordsInsert(kind, page.cells, i, c, EncodeLeaf(kind, c));
    }
    var more := InsertAt(page.cells, i, c);
    forall j | 0 <= j < |more| ensures KeyOk(kind, more[j].key) {
      assert more[j] == c || more[j] in page.cells;
    }
  }

  lemma InnerGrew(kind: Kind, cmp: (Key, Key) -> int, d: seq<Byte>, e: seq<Byte>, page: Page<Key, Key>, c: Cell<Key, nat>, i: nat, off: nat)
    requires Holds(kind, d, page) && page.InnerPage? && KeyOk(kind, c.key) && c.val < 0x1_0000_0000 && Lands(cmp, Keys(page.kids), c.key, i)
    requires Extended(d, e, |page.kids|, U16(d, 4), off, i, EncodeInner(kind, c)) && e[0] == d[0] && U32(e, 6) == U32(d, 6)
    ensures Holds(kind, e, InnerPage(page.first, Insert(cmp, page.kids, c)))
  {
    KeysSlot(cmp, page.kids, c.key, i);
    assert Slotted(e, InnerRecords(kind, InsertAt(page.kids, i, c))) by {
      ExtendedSlotted(d, e, InnerRecords(kind, page.kids), off, i, EncodeInner(kind, c));
      InnerRecordsInsert(kind, page.kids, i, c, EncodeInner(kind, c));
    }
    var more := InsertAt(page.kids, i, c);
    forall j | 0 <= j < |more| ensures KeyOk(kind, more[j].key) && more[j].val < 0x1_0000_0000 {
      assert more[j] == c || more[j] in page.kids;
    }
  }

  lemma U32ReadsBack(d: seq<Byte>, off: nat, v: nat)
    requires v < 0x1_0000_0000 && off + 4 <= |d| && d[off..off + 4] == PutBE(v, 4)
    ensures U32(d, off) == v
  {
    var b := PutBE(v, 4);
    assert b == PutBE(v / 256, 3) + [v % 256];
    assert PutBE(v / 256, 3) == PutBE(v / 256 / 256, 2) + [v / 256 % 256];
    assert PutBE(v / 256 / 256, 2) == PutBE(v / 256 / 256 / 256, 1) + [v / 256 / 256 % 256];
    assert PutBE(v / 256 / 256 / 256, 1) == [v / 256 / 256 / 256 % 256];
    assert d[off] == b[0] && d[off + 1] == b[1] && d[off + 2] == b[2] && d[off + 3] == b[3];
  }

  /** Reading a leaf cell gives what was written. */
  lemma {:induction false} LeafCellReadsBack(kind: Kind, d: seq<Byte>, page: Page<Key, Key>, i: nat)
    requires Holds(kind, d, page) && page.LeafPage? && i < |page.cells|
    ensures Offset(d, i) <= |d|
    ensures var c := page.cells[i]; var next := Offset(d, i) + |EncodeKey(kind, c.key)|;
      KeyAt(kind, d, Offset(d, i)) == Some((c.key, next)) && next <= |d| && PayloadAt(d, next) == Some(c.val)
  {
    SlottedLeaf(kind, d, LeafRecords(kind, page.cells), page.cells[i], i);
  }

  lemma SlottedLeaf(kind: Kind, d: seq<Byte>, recs: seq<Key>, c: Cell<Key, Key>, i: nat)
    requires Slotted(d, recs) && i < |recs| && recs[i] == EncodeLeaf(kind, c) && KeyOk(kind, c.key)
    ensures HEADER + 2 * i + 2 <= |d| && Offset(d, i) <= |d|
    ensures var next := Offset(d, i) + |EncodeKey(kind, c.key)|;
      KeyAt(kind, d, Offset(d, i)) == Some((c.key, next)) && next <= |d| && PayloadAt(d, next) == Some(c.val)
  {
    hide EncodeLeaf, KeyAt, PayloadAt, Offset, Records, Sum, EncodeKey, KeyOk, RecordAt;
    SlottedRecord(d, recs, i);
    LeafReadsBack(kind, d, Offset(d, i), c);
  }

  lemma SlottedRecord(d: seq<Byte>, recs: seq<Key>, i: nat)
    requires Slotted(d, recs) && i < |recs|
    ensures HEADER + 2 * i + 2 <= |d| && RecordAt(d, Offset(d, i), recs[i], 0)
  {
    assert RecordAt(d, Offset(d, i), recs[i], U16(d, 4));
  }

  lemma LeafReadsBack(kind: Kind, d: seq<Byte>, off: nat, c: Cell<Key, Key>)
    requires |d| == PAGE_SIZE && KeyOk(kind, c.key) && RecordAt(d, off, EncodeLeaf(kind, c), 0)
    ensures var next := off + |EncodeKey(kind, c.key)|;
      KeyAt(kind, d, off) == Some((c.key, next)) && next <= |d| && PayloadAt(d, next) == Some(c.val)
  {
    KeyReadsBack(kind, d, off, c.key, PutUvarint(|c.val|) + c.val);
    PayloadReadsBack(d, off + |EncodeKey(kind, c.key)|, c.val);
  }

  /** The first j cells except cell i. */
  function Without<V>(cells: seq<Cell<Key, V>>, i: nat, j: nat): seq<Cell<Key, V>>
    requires j <= |cells|
  {
    if j <= i then cells[..j] else cells[..i] + cells[i + 1..j]
  }

  class Node {
    const data: array<Byte>
    const cmp: (Key, Key) -> int
    ghost const kind: Kind
    ghost var page: Page<Key, Key>

    ghost predicate Valid()
      reads this, data
    {
      data.Length == PAGE_SIZE && Holds(kind, data[..], page)
    }

    /** A page fresh from the pager. */
    constructor (kind: Kind, cmp: (Key, Key) -> int)
      ensures Valid() && fresh(data) && page == Blank && this.cmp == cmp && this.kind == kind
    {
      data := new Byte[PAGE_SIZE](_ => 0);
      this.kind, this.cmp, page := kind, cmp, Blank;
    }

    // ---- fields of the page ----

    method PutU16(p: nat, v: nat)
      requires p + 2 <= data.Length && v < 0x1_0000
      modifies data
      ensures U16(data[..], p) == v
      ensures forall q :: 0 <= q < data.Length && q != p && q != p + 1 ==> data[q] == old(data[q])
    {
      data[p], data[p + 1] := v / 256, v % 256;
    }

    method PutU32(p: nat, v: nat)
      requires p + 4 <= data.Length && v < 0x1_0000_0000
      modifies data
      ensures U32(data[..], p) == v
      ensures forall q :: 0 <= q < data.Length && !(p <= q < p + 4) ==> data[q] == old(data[q])
    {
      PutU16(p, v / 0x1_0000);
      PutU16(p + 2, v % 0x1_0000);
    }

    method CopyIn(off: nat, s: seq<Byte>)
      requires off + |s| <= data.Length
      modifies data
      ensures forall q :: 0 <= q < data.Length ==> data[q] == if off <= q < off + |s| then s[q - off] else old(data[q])
    {
      for i := 0 to |s|
        invariant forall q :: 0 <= q < data.Length ==> data[q] == if off <= q < off + i then s[q - off] else old(data[q])
      {
        data[off + i] := s[i];
      }
    }

    function KindByte(): Kind
      requires data.Length == PAGE_SIZE
      reads data
    {
      if data[0] == 3 || data[0] == 4 then IndexKind else TableKind
    }

    function NumCells(): nat
      requires data.Length == PAGE_SIZE
      reads data
    {
      U16(data[..], 2)
    }

    function FreeSpace(): int
      requires data.Length == PAGE_SIZE
      reads data
    {
      U16(data[..], 4) - (HEADER + 2 * NumCells())
    }

    // ---- search ----

    method KeyOf(i: nat, ghost recs: seq<seq<Byte>>, ghost keys: seq<Key>, ghost from: nat) returns (key: Key)
      requires data.Length == PAGE_SIZE && Records(data[..], recs, from) && Keyed(kind, recs, keys) && i < |keys|
      requires KindByte() == kind
      ensures key == keys[i]
    {
      ghost var k := EncodeKey(kind, keys[i]);
      var off := Offset(data[..], i);
      assert RecordAt(data[..], off, recs[i], from) && StartsWith(recs[i], k);
      KeyReadsBack(kind, data[..], off, keys[i], recs[i][|k|..]);
      key := KeyAt(KindByte(), data[..], off).value.0;
    }

    /** Binary search for the first key not less than `key`. */
    method Search(key: Key, ghost recs: seq<seq<Byte>>, ghost keys: seq<Key>, ghost from: nat) returns (i: nat, found: bool)
      requires data.Length == PAGE_SIZE && Records(data[..], recs, from) && Keyed(kind, recs, keys) && KindByte() == kind
      requires Divides(cmp, keys, key)
      ensures Lands(cmp, keys, key, i)
      ensures found <==> i < |keys| && cmp(keys[i], key) == 0
    {
      var lo: nat, hi: nat := 0, NumCells();
      while lo < hi
        invariant lo <= hi <= |keys| && Before(cmp, keys, lo, key) && Behind(cmp, keys, hi, key)
      {
        var mid := (lo + hi) / 2;
        var k := KeyOf(mid, recs, keys, from);
        BeyondMiddle(cmp, keys, mid, key);
        var c := cmp(k, key);
        if c < 0 {
          lo := mid + 1;
        } else if c > 0 {
          hi := mid;
        } else {
          return mid, true;
        }
      }
      return lo, false;
    }

    // ---- empty pages ----

    method InitLeaf(k: Kind)
      requires Valid() && k == kind
      modifies data, this`page
      ensures Valid() && page == LeafPage([], Extra(old(page)))
    {
      data[0] := TypeByte(k, true);
      PutU16(4, PAGE_SIZE);
      PutU16(2, 0);
      page := LeafPage([], Extra(page));
    }

    method InitInner(k: Kind, first: nat)
      requires Valid() && k == kind && first < 0x1_0000_0000
      modifies data, this`page
      ensures Valid() && page == InnerPage(first, [])
    {
      data[0] := TypeByte(k, false);
      PutU16(4, PAGE_SIZE);
      PutU32(6, first);
      PutU16(2, 0);
      page := InnerPage(first, []);
    }

    method SetSibling(sibling: nat)
      requires Valid() && page.LeafPage? && sibling < 0x1_0000_0000
      modifies data, this`page
      ensures Valid() && page == LeafPage(old(page.cells), sibling)
    {
      ghost var d, recs := data[..], LeafRecords(kind, page.cells);
      PutU32(6, sibling);
      SameBody(d, data[..], recs);
      page := LeafPage(page.cells, sibling);
    }

    // ---- one more cell ----

    /** Writes the bytes of a cell right before the others, key first. */
    method WriteCell(key: seq<Byte>, rest: seq<Byte>) returns (off: nat)
      requires data.Length == PAGE_SIZE && U16(data[..], 4) <= PAGE_SIZE
      requires HEADER + |key| + |rest| <= U16(data[..], 4)
      modifies data
      ensures off + |key| + |rest| == U16(old(data[..]), 4)
      ensures Written(old(data[..]), data[..], U16(old(data[..]), 4), off, key + rest)
    {
      off := U16(data[..], 4) - (|key| + |rest|);
      CopyIn(off, key);
      CopyIn(off + |key|, rest);
      PutU16(4, off);
      assert data[off..off + |key| + |rest|] == key + rest;
    }

    /** Makes room in the pointer array at position i and points it to the cell just written. */
    method Link(i: nat, off: nat, ghost d: seq<Byte>, ghost cs: nat, ghost r: seq<Byte>)
      requires data.Length == PAGE_SIZE && Written(d, data[..], cs, off, r) && off < 0x1_0000
      requires i <= NumCells() && HEADER + 2 * NumCells() + 2 <= off && NumCells() == U16(d, 2)
      modifies data
      ensures Extended(d, data[..], U16(d, 2), cs, off, i, r)
      ensures data[0] == d[0] && U32(data[..], 6) == U32(d, 6)
    {
      var c := NumCells();
      CopyIn(HEADER + 2 * (i + 1), data[HEADER + 2 * i..HEADER + 2 * c]);
      PutU16(HEADER + 2 * i, off);
      PutU16(2, c + 1);
      assert data[off..cs] == r;
    }

    /** Writes a cell, finds the place of its key and points to it there. */
    method PutCell(key: Key, rest: seq<Byte>, ghost recs: seq<seq<Byte>>, ghost keys: seq<Key>) returns (ghost i: nat, ghost off: nat)
      requires data.Length == PAGE_SIZE && Slotted(data[..], recs) && Keyed(kind, recs, keys) && KindByte() == kind
      requires Divides(cmp, keys, key)
      requires |EncodeKey(kind, key)| + |rest| + 2 <= FreeSpace()
      modifies data
      ensures Lands(cmp, keys, key, i)
      ensures Extended(old(data[..]), data[..], |recs|, U16(old(data[..]), 4), off, i, EncodeKey(kind, key) + rest)
      ensures data[0] == old(data[0]) && U32(data[..], 6) == U32(old(data[..]), 6)
    {
      ghost var d, cs, r := data[..], U16(data[..], 4), EncodeKey(kind, key) + rest;
      var o := WriteCell(EncodeKey(KindByte(), key), rest);
      WrittenRecords(d, data[..], recs, cs, o, r);
      var at, _ := Search(key, recs, keys, cs);
      Link(at, o, d, cs, r);
      i, off := at, o;
    }

    /**
    Fails exactly when the cell and its pointer do not fit, and then changes no byte. Otherwise the page
    says the old cells with the new one at its lower bound.
    */
    method InsertLeaf(key: Key, payload: Key) returns (ok: bool)
      requires Valid() && page.LeafPage? && KeyOk(kind, key)
      requires Divides(cmp, Keys(page.cells), key)
      modifies data, this`page
      ensures Valid()
      ensures var more := TryInsert(cmp, LeafBytes(kind), old(page.cells), Cell(key, payload));
        && ok == more.Some?
        && page == if ok then LeafPage(more.value, old(page.sibling)) else old(page)
      ensures !ok ==> data[..] == old(data[..])
    {
      hide Divides, Keyed, Extended, Slotted, Insert;
      ghost var d, c := data[..], Cell(key, payload);
      LeafRoom(kind, d, page);
      var w := PutUvarint(|payload|);
      if FreeSpace() < |EncodeKey(KindByte(), key)| + |w| + |payload| + 2 { return false; }
      LeafKeyed(kind, page.cells);
      ghost var i, off := PutCell(key, w + payload, LeafRecords(kind, page.cells), Keys(page.cells));
      LeafGrew(kind, cmp, d, data[..], page, c, i, off);
      page := LeafPage(Insert(cmp, page.cells, c), page.sibling);
      ok := true;
    }

    method InsertInner(sep: Key, child: nat) returns (ok: bool)
      requires Valid() && page.InnerPage? && KeyOk(kind, sep) && child < 0x1_0000_0000
      requires Divides(cmp, Keys(page.kids), sep)
      modifies data, this`page
      ensures Valid()
      ensures var more := TryInsert(cmp, InnerBytes(kind), old(page.kids), Cell(sep, child));
        && ok == more.Some?
        && page == if ok then InnerPage(old(page.first), more.value) else old(page)
      ensures !ok ==> data[..] == old(data[..])
    {
      hide Divides, Keyed, Extended, Slotted, Insert;
      ghost var d, c := data[..], Cell(sep, child);
      InnerRoom(kind, d, page);
      if FreeSpace() < |EncodeKey(KindByte(), sep)| + 4 + 2 { return false; }
      InnerKeyed(kind, page.kids);
      ghost var i, off := PutCell(sep, PutBE(child, 4), InnerRecords(kind, page.kids), Keys(page.kids));
      InnerGrew(kind, cmp, d, data[..], page, c, i, off);
      page := InnerPage(page.first, Insert(cmp, page.kids, c));
      ok := true;
    }

    // ---- reading cells ----

    method LeafCell(i: nat) returns (c: Cell<Key, Key>)
      requires Valid() && page.LeafPage? && i < |page.cells|
      ensures c == page.cells[i]
    {
      var d, k := data[..], KindByte();
      assert k == kind;
      LeafCellReadsBack(kind, d, page, i);
      var off := Offset(d, i);
      var (key, next) := KeyAt(k, d, off).value;
      var val := PayloadAt(d, next).value;
      c := Cell(key, val);
    }

    method Child(i: nat) returns (id: nat)
      requires Valid() && page.InnerPage? && i < |page.kids|
      ensures id == page.kids[i].val
    {
      ghost var recs := InnerRecords(kind, page.kids);
      var off := Offset(data[..], i);
      assert RecordAt(data[..], off, recs[i], U16(data[..], 4));
      KeyReadsBack(kind, data[..], off, page.kids[i].key, PutBE(page.kids[i].val, 4));
      var next := KeyAt(KindByte(), data[..], off).value.1;
      U32ReadsBack(data[..], next, page.kids[i].val);
      id := U32(data[..], next);
    }

    /** The child that leads to a key. */
    method ChildPage(key: Key) returns (id: nat)
      requires Valid() && page.InnerPage? && Divides(cmp, Keys(page.kids), key)
      ensures id == TreeHeap.ChildPage(cmp, page, key)
    {
      InnerKeyed(kind, page.kids);
      var i, found := Search(key, InnerRecords(kind, page.kids), Keys(page.kids), U16(data[..], 4));
      KeysSlot(cmp, page.kids, key, i);
      if found {
        id := Child(i);
      } else if i == 0 {
        id := U32(data[..], 6);
      } else {
        id := Child(i - 1);
      }
    }

    /** Copies out all cells but one. */
    method Others(i: nat) returns (rest: seq<Cell<Key, Key>>)
      requires Valid() && page.LeafPage? && i < |page.cells|
      ensures rest == RemoveAt(page.cells, i)
    {
      rest := [];
      ghost var cells := page.cells;
      for j := 0 to NumCells()
        invariant rest == Without(cells, i, j)
      {
        if j != i {
          var c := LeafCell(j);
          rest := rest + [c];
        }
        assert Without(cells, i, j + 1) == if j != i then Without(cells, i, j) + [cells[j]] else Without(cells, i, j);
      }
    }

    /** Fills an empty leaf; cells that have room together are all taken. */
    method Refill(rest: seq<Cell<Key, Key>>)
      requires Valid() && page.LeafPage? && page.cells == []
      requires Sorted(cmp, rest) && Total(LeafBytes(kind), rest) <= ROOM
      requires forall j :: 0 <= j < |rest| ==> KeyOk(kind, rest[j].key)
      modifies data, this`page
      ensures Valid() && page == LeafPage(rest, old(page.sibling))
    {
      for j := 0 to |rest|
        invariant Valid() && page == LeafPage(rest[..j], old(page.sibling))
      {
        PrefixFits(LeafBytes(kind), rest, j, cmp);
        PrefixDivides(cmp, rest, j);
        var _ := InsertLeaf(rest[j].key, rest[j].val);
      }
      assert rest[..|rest|] == rest;
    }

    /** Removes one cell by writing all the others anew; the sibling stays. */
    method DeleteLeaf(i: nat)
      requires Valid() && page.LeafPage? && i < |page.cells| && Sorted(cmp, page.cells)
      modifies data, this`page
      ensures Valid() && page == LeafPage(RemoveAt(old(page.cells), i), old(page.sibling))
    {
      var sibling, k := U32(data[..], 6), KindByte();
      var rest := Others(i);
      RemovedFits(kind, data[..], page.cells, i, cmp);
      assert forall j :: 0 <= j < |rest| ==> KeyOk(kind, rest[j].key);
      InitLeaf(k);
      SetSibling(sibling);
      Refill(rest);
    }
  }

  /** Removing a cell leaves sorted cells that have room. */
  lemma RemovedFits(kind: Kind, d: seq<Byte>, cells: seq<Cell<Key, Key>>, i: nat, cmp: (Key, Key) -> int)
    requires Slotted(d, LeafRecords(kind, cells)) && i < |cells| && Sorted(cmp, cells)
    ensures Sorted(cmp, RemoveAt(cells, i)) && Total(LeafBytes(kind), RemoveAt(cells, i)) <= ROOM
  {
    LeafSum(kind, cells);
    DeleteKeepsSorted(cmp, cells, i);
    BTreeOps.RemoveFits(LeafBytes(kind), cells, i);
  }

  /** Cells that have room together are taken one after the other. */
  lemma {:induction false} PrefixFits(size: Cell<Key, Key> -> nat, cells: seq<Cell<Key, Key>>, j: nat, cmp: (Key, Key) -> int)
    requires Sorted(cmp, cells) && Total(size, cells) <= ROOM && j < |cells|
    ensures Sorted(cmp, cells[..j])
    ensures TryInsert(cmp, size, cells[..j], cells[j]) == Some(cells[..j + 1])
  {
    PrefixTotal(size, cells, j);
    assert AllBelow(cmp, cells[..j], cells[j].key);
    TakesLast(size, cells[..j], cells[j], cmp);
    assert cells[..j] + [cells[j]] == cells[..j + 1];
  }

  lemma PrefixDivides(cmp: (Key, Key) -> int, cells: seq<Cell<Key, Key>>, j: nat)
    requires Sorted(cmp, cells) && j < |cells|
    ensures Divides(cmp, Keys(cells[..j]), cells[j].key)
  {
    var keys := Keys(cells[..j]);
    forall i | 0 <= i < |keys| ensures cmp(keys[i], cells[j].key) < 0 {
      assert keys[i] == cells[i].key;
    }
  }

  lemma TakesLast(size: Cell<Key, Key> -> nat, cells: seq<Cell<Key, Key>>, c: Cell<Key, Key>, cmp: (Key, Key) -> int)
    requires AllBelow(cmp, cells, c.key) && Total(size, cells) + size(c) <= ROOM
    ensures TryInsert(cmp, size, cells, c) == Some(cells + [c])
  {
    InsertLast(cmp, cells, c);
  }

  lemma PrefixTotal(size: Cell<Key, Key> -> nat, cells: seq<Cell<Key, Key>>, j: nat)
    requires j < |cells|
    ensures Total(size, cells[..j]) + size(cells[j]) <= Total(size, cells)
  {
    var init, c, rest := cells[..j], cells[j], cells[j + 1..];
    assert cells == init + [c] + rest;
    TotalAppend(size, init + [c], rest);
    TotalSnoc(size, init, c);
  }

  // ---- rowids as keys ----

  function PutRowid(id: int): Key
    requires -TWO_63 <= id < TWO_63
  {
    PutBE(ToU64(id), 8)
  }

  function RowidOf(key: Key): int { ToI64(GetBE(key)) }

  function CompareRowidKeys(a: Key, b: Key): int { TableTree.CompareRowid(RowidOf(a), RowidOf(b)) }

  lemma RowidReadsBack(a: int)
    requires -TWO_63 <= a < TWO_63
    ensures RowidOf(PutRowid(a)) == a
  {
    Pow256Is();
    BERoundTrip(ToU64(a), 8);
  }

  lemma RowidKeysOrdered()
    ensures TotalPreorder(CompareRowidKeys)
  {
    forall x, y, z ensures Chain(CompareRowidKeys, x, y, z) {
      RowidChain(RowidOf(x), RowidOf(y), RowidOf(z));
    }
  }

  lemma RowidChain(a: int, b: int, c: int)
    ensures Chain(TableTree.CompareRowid, a, b, c)
  {
  }

  /** Table pages, read as bytes, are ordered by rowid and as large as the table tree takes them to be. */
  lemma RowidKeys(a: int, b: int, val: Key, child: nat)
    requires -TWO_63 <= a < TWO_63 && -TWO_63 <= b < TWO_63
    ensures RowidOf(PutRowid(a)) == a && KeyOk(TableKind, PutRowid(a))
    ensures CompareRowidKeys(PutRowid(a), PutRowid(b)) == TableTree.CompareRowid(a, b)
    ensures LeafBytes(TableKind)(Cell(PutRowid(a), val)) == TableTree.LeafSize(Cell(a, val))
    ensures InnerBytes(TableKind)(Cell(PutRowid(a), child)) == TableTree.TableLayout().sepSize(a)
    ensures TotalPreorder(CompareRowidKeys)
  {
    RowidReadsBack(a);
    RowidReadsBack(b);
    RowidKeysOrdered();
  }
}
