/** Keys under an injected comparator, and the sorted cell sequences a tree page holds. */
module Cells {
  import opened Bytes

  /** The laws of a total preorder for three keys, to be called up by name. */
  predicate Chain<K>(cmp: (K, K) -> int, a: K, b: K, c: K) {
    && cmp(a, a) == 0
    && (cmp(a, b) < 0 <==> cmp(b, a) > 0) && (cmp(a, b) == 0 <==> cmp(b, a) == 0)
    && (cmp(b, c) < 0 <==> cmp(c, b) > 0) && (cmp(b, c) == 0 <==> cmp(c, b) == 0)
    && (cmp(a, c) < 0 <==> cmp(c, a) > 0) && (cmp(a, c) == 0 <==> cmp(c, a) == 0)
    && (cmp(a, b) <= 0 && cmp(b, c) <= 0 ==> cmp(a, c) <= 0 && (cmp(a, c) == 0 ==> cmp(a, b) == 0 && cmp(b, c) == 0))
  }

  ghost predicate TotalPreorder<K(!new)>(cmp: (K, K) -> int) {
    forall a, b, c :: Chain(cmp, a, b, c)
  }

  datatype Cell<+K, +V> = Cell(key: K, val: V)

  ghost predicate Sorted<K, V>(cmp: (K, K) -> int, cells: seq<Cell<K, V>>) {
    forall i, j :: 0 <= i < j < |cells| ==> cmp(cells[i].key, cells[j].key) < 0
  }

  /** No cell has this key, up to the comparator. */
  ghost predicate Absent<K, V>(cmp: (K, K) -> int, cells: seq<Cell<K, V>>, key: K) {
    forall i :: 0 <= i < |cells| ==> cmp(cells[i].key, key) != 0
  }

  lemma SortedSlice<K, V>(cmp: (K, K) -> int, cells: seq<Cell<K, V>>, a: nat, b: nat)
    requires Sorted(cmp, cells) && a <= b <= |cells|
    ensures Sorted(cmp, cells[a..b])
  {
  }

  lemma SortedPrefix<K, V>(cmp: (K, K) -> int, cells: seq<Cell<K, V>>, c: Cell<K, V>)
    requires Sorted(cmp, cells + [c])
    ensures Sorted(cmp, cells) && AllBelow(cmp, cells, c.key)
  {
    var all := cells + [c];
    forall i, j | 0 <= i < j < |cells| ensures cmp(cells[i].key, cells[j].key) < 0 {
      assert cmp(all[i].key, all[j].key) < 0;
    }
    forall i | 0 <= i < |cells| ensures cmp(cells[i].key, c.key) < 0 {
      assert cmp(all[i].key, all[|cells|].key) < 0;
    }
  }

  /** Comparing the other way round gives the opposite sign. */
  lemma Flip<K(!new), V>(cmp: (K, K) -> int, cells: seq<Cell<K, V>>, key: K)
    requires TotalPreorder(cmp)
    ensures forall i :: 0 <= i < |cells| ==>
      && (cmp(cells[i].key, key) < 0 <==> cmp(key, cells[i].key) > 0)
      && (cmp(cells[i].key, key) == 0 <==> cmp(key, cells[i].key) == 0)
  {
    forall i | 0 <= i < |cells|
      ensures (cmp(cells[i].key, key) < 0 <==> cmp(key, cells[i].key) > 0) && (cmp(cells[i].key, key) == 0 <==> cmp(key, cells[i].key) == 0)
    {
      assert Chain(cmp, cells[i].key, key, key);
    }
  }

  /** The first position whose key is not less than `key`. */
  function Slot<K, V>(cmp: (K, K) -> int, cells: seq<Cell<K, V>>, key: K): (i: nat)
    ensures i <= |cells|
    ensures forall j :: 0 <= j < i ==> cmp(cells[j].key, key) < 0
    ensures i < |cells| ==> cmp(cells[i].key, key) >= 0
  {
    if cells == [] || cmp(cells[0].key, key) >= 0 then 0 else 1 + Slot(cmp, cells[1..], key)
  }

  lemma SlotUnique<K, V>(cmp: (K, K) -> int, cells: seq<Cell<K, V>>, key: K, i: nat)
    requires i <= |cells|
    requires forall j :: 0 <= j < i ==> cmp(cells[j].key, key) < 0
    requires i < |cells| ==> cmp(cells[i].key, key) >= 0
    ensures Slot(cmp, cells, key) == i
  {
  }

  /** The first position whose key is greater than `key`. */
  function Upper<K, V>(cmp: (K, K) -> int, cells: seq<Cell<K, V>>, key: K): (i: nat)
    ensures i <= |cells|
    ensures forall j :: 0 <= j < i ==> cmp(key, cells[j].key) >= 0
    ensures i < |cells| ==> cmp(key, cells[i].key) < 0
  {
    if cells == [] || cmp(key, cells[0].key) < 0 then 0 else 1 + Upper(cmp, cells[1..], key)
  }

  lemma UpperUnique<K, V>(cmp: (K, K) -> int, cells: seq<Cell<K, V>>, key: K, i: nat)
    requires i <= |cells|
    requires forall j :: 0 <= j < i ==> cmp(key, cells[j].key) >= 0
    requires i < |cells| ==> cmp(key, cells[i].key) < 0
    ensures Upper(cmp, cells, key) == i
  {
  }

  function InsertAt<K, V>(cells: seq<Cell<K, V>>, i: nat, c: Cell<K, V>): (r: seq<Cell<K, V>>)
    requires i <= |cells|
    ensures |r| == |cells| + 1
    ensures forall j {:trigger r[j]} :: 0 <= j < |r| ==> r[j] == if j < i then cells[j] else if j == i then c else cells[j - 1]
  {
    cells[..i] + [c] + cells[i..]
  }

  function RemoveAt<K, V>(cells: seq<Cell<K, V>>, i: nat): (r: seq<Cell<K, V>>)
    requires i < |cells|
    ensures |r| == |cells| - 1
    ensures forall j {:trigger r[j]} :: 0 <= j < |r| ==> r[j] == if j < i then cells[j] else cells[j + 1]
  {
    cells[..i] + cells[i + 1..]
  }

  /** A sorted map with one more entry. */
  function Insert<K, V>(cmp: (K, K) -> int, cells: seq<Cell<K, V>>, c: Cell<K, V>): seq<Cell<K, V>> {
    InsertAt(cells, Slot(cmp, cells, c.key), c)
  }

  function Found<K, V>(cmp: (K, K) -> int, cells: seq<Cell<K, V>>, key: K): bool {
    var i := Slot(cmp, cells, key);
    i < |cells| && cmp(cells[i].key, key) == 0
  }

  /** A sorted map with the entry of a key removed, if it has one. */
  function Delete<K, V>(cmp: (K, K) -> int, cells: seq<Cell<K, V>>, key: K): seq<Cell<K, V>> {
    if Found(cmp, cells, key) then RemoveAt(cells, Slot(cmp, cells, key)) else cells
  }

  lemma {:induction false} InsertSorted<K(!new), V>(cmp: (K, K) -> int, cells: seq<Cell<K, V>>, c: Cell<K, V>)
    requires TotalPreorder(cmp) && Sorted(cmp, cells) && Absent(cmp, cells, c.key)
    ensures Sorted(cmp, Insert(cmp, cells, c))
    ensures Upper(cmp, cells, c.key) == Slot(cmp, cells, c.key)
  {
    BeyondSlot(cmp, cells, c.key);
    Flip(cmp, cells, c.key);
    UpperUnique(cmp, cells, c.key, Slot(cmp, cells, c.key));
    InsertKeepsSorted(cmp, cells, Slot(cmp, cells, c.key), c);
  }

  /** In sorted cells exactly those in front of the slot of a key are less than it. */
  lemma FromSlotOn<K(!new), V>(cmp: (K, K) -> int, cells: seq<Cell<K, V>>, key: K, j: nat)
    requires TotalPreorder(cmp) && Sorted(cmp, cells) && j < |cells|
    ensures j < Slot(cmp, cells, key) <==> cmp(cells[j].key, key) < 0
  {
    var i := Slot(cmp, cells, key);
    if i < j { assert Chain(cmp, key, cells[i].key, cells[j].key); }
  }

  lemma {:induction false} BeyondSlot<K(!new), V>(cmp: (K, K) -> int, cells: seq<Cell<K, V>>, key: K)
    requires TotalPreorder(cmp) && Sorted(cmp, cells) && Absent(cmp, cells, key)
    ensures forall j :: Slot(cmp, cells, key) <= j < |cells| ==> cmp(key, cells[j].key) < 0
  {
    var i := Slot(cmp, cells, key);
    Flip(cmp, cells, key);
    forall j | i <= j < |cells| ensures cmp(key, cells[j].key) < 0 {
      if j > i {
        assert Chain(cmp, key, cells[i].key, cells[j].key);
      }
    }
  }

  lemma {:induction false} InsertKeepsSorted<K, V>(cmp: (K, K) -> int, cells: seq<Cell<K, V>>, i: nat, c: Cell<K, V>)
    requires Sorted(cmp, cells) && i <= |cells|
    requires forall j :: 0 <= j < i ==> cmp(cells[j].key, c.key) < 0
    requires forall j :: i <= j < |cells| ==> cmp(c.key, cells[j].key) < 0
    ensures Sorted(cmp, InsertAt(cells, i, c))
  {
  }

  lemma {:induction false} InsertLast<K, V>(cmp: (K, K) -> int, cells: seq<Cell<K, V>>, c: Cell<K, V>)
    requires AllBelow(cmp, cells, c.key)
    ensures Insert(cmp, cells, c) == cells + [c]
  {
    SlotUnique(cmp, cells, c.key, |cells|);
    assert cells[..|cells|] == cells && cells[|cells|..] == [];
  }

  lemma {:induction false} DeleteSorted<K(!new), V>(cmp: (K, K) -> int, cells: seq<Cell<K, V>>, key: K)
    requires TotalPreorder(cmp) && Sorted(cmp, cells)
    ensures Sorted(cmp, Delete(cmp, cells, key)) && Absent(cmp, Delete(cmp, cells, key), key)
    ensures Found(cmp, cells, key) <==> !Absent(cmp, cells, key)
  {
    TailAbove(cmp, cells, key);
    DeleteKeepsSorted(cmp, cells, Slot(cmp, cells, key));
  }

  lemma {:induction false} TailAbove<K(!new), V>(cmp: (K, K) -> int, cells: seq<Cell<K, V>>, key: K)
    requires TotalPreorder(cmp) && Sorted(cmp, cells)
    ensures forall j :: Slot(cmp, cells, key) < j < |cells| ==> cmp(cells[j].key, key) > 0
  {
    var i := Slot(cmp, cells, key);
    Flip(cmp, cells, key);
    forall j | i < j < |cells| ensures cmp(cells[j].key, key) > 0 {
      assert cmp(key, cells[i].key) <= 0 && cmp(cells[i].key, cells[j].key) < 0;
      assert Chain(cmp, key, cells[i].key, cells[j].key);
    }
  }

  lemma DeleteKeepsSorted<K, V>(cmp: (K, K) -> int, cells: seq<Cell<K, V>>, i: nat)
    requires Sorted(cmp, cells)
    ensures i < |cells| ==> Sorted(cmp, RemoveAt(cells, i))
  {
  }

  /** Deleting what was inserted gives the map back. */
  lemma {:induction false} InsertThenDelete<K(!new), V>(cmp: (K, K) -> int, cells: seq<Cell<K, V>>, c: Cell<K, V>)
    requires TotalPreorder(cmp) && Sorted(cmp, cells) && Absent(cmp, cells, c.key)
    ensures Delete(cmp, Insert(cmp, cells, c), c.key) == cells
  {
    var r := Insert(cmp, cells, c);
    assert Chain(cmp, c.key, c.key, c.key);
    SlotUnique(cmp, r, c.key, Slot(cmp, cells, c.key));
  }

  // ---- pieces of a map ----

  ghost predicate AllBelow<K, V>(cmp: (K, K) -> int, cells: seq<Cell<K, V>>, key: K) {
    forall i :: 0 <= i < |cells| ==> cmp(cells[i].key, key) < 0
  }

  ghost predicate AllAbove<K, V>(cmp: (K, K) -> int, cells: seq<Cell<K, V>>, key: K) {
    forall i :: 0 <= i < |cells| ==> cmp(cells[i].key, key) > 0
  }

  /** Where a key lies strictly between two pieces of a map, only the middle piece matters. */
  lemma {:induction false} MiddleSlot<K, V>(cmp: (K, K) -> int, a: seq<Cell<K, V>>, m: seq<Cell<K, V>>, b: seq<Cell<K, V>>, key: K)
    requires AllBelow(cmp, a, key) && AllAbove(cmp, b, key)
    ensures Slot(cmp, a + m + b, key) == |a| + Slot(cmp, m, key)
    ensures Found(cmp, a + m + b, key) <==> Found(cmp, m, key)
    ensures Found(cmp, m, key) ==> (a + m + b)[|a| + Slot(cmp, m, key)] == m[Slot(cmp, m, key)]
  {
    var all, i := a + m + b, |a| + Slot(cmp, m, key);
    forall j | 0 <= j < i ensures cmp(all[j].key, key) < 0 {
      if j >= |a| { assert all[j] == m[j - |a|]; }
    }
    if i < |all| {
      if i < |a| + |m| { assert all[i] == m[i - |a|]; } else { assert all[i] == b[i - |a| - |m|]; }
    }
    SlotUnique(cmp, all, key, i);
  }

  lemma {:induction false} MiddleInsert<K, V>(cmp: (K, K) -> int, a: seq<Cell<K, V>>, m: seq<Cell<K, V>>, b: seq<Cell<K, V>>, c: Cell<K, V>)
    requires AllBelow(cmp, a, c.key) && AllAbove(cmp, b, c.key)
    ensures Insert(cmp, a + m + b, c) == a + Insert(cmp, m, c) + b
  {
    MiddleSlot(cmp, a, m, b, c.key);
  }

  lemma {:induction false} MiddleDelete<K, V>(cmp: (K, K) -> int, a: seq<Cell<K, V>>, m: seq<Cell<K, V>>, b: seq<Cell<K, V>>, key: K)
    requires AllBelow(cmp, a, key) && AllAbove(cmp, b, key)
    ensures Delete(cmp, a + m + b, key) == a + Delete(cmp, m, key) + b
  {
    MiddleSlot(cmp, a, m, b, key);
    if Found(cmp, m, key) {
      RemoveMiddle(a, m, b, Slot(cmp, m, key));
      DeleteIsRemove(cmp, a + m + b, key, |a| + Slot(cmp, m, key));
    }
  }

  lemma DeleteIsRemove<K, V>(cmp: (K, K) -> int, cells: seq<Cell<K, V>>, key: K, i: nat)
    requires Found(cmp, cells, key) && Slot(cmp, cells, key) == i
    ensures Delete(cmp, cells, key) == RemoveAt(cells, i)
  {
  }

  lemma RemoveMiddle<K, V>(a: seq<Cell<K, V>>, m: seq<Cell<K, V>>, b: seq<Cell<K, V>>, i: nat)
    requires i < |m|
    ensures RemoveAt(a + m + b, |a| + i) == a + RemoveAt(m, i) + b
  {
  }

  // ---- pages of bounded size ----

  /** Bytes a page has for cells and their pointers. */
  const ROOM := PAGE_SIZE - 10

  function Total<K, V>(size: Cell<K, V> -> nat, cells: seq<Cell<K, V>>): nat {
    if cells == [] then 0 else size(cells[0]) + Total(size, cells[1..])
  }

  lemma {:induction false} TotalAppend<K, V>(size: Cell<K, V> -> nat, a: seq<Cell<K, V>>, b: seq<Cell<K, V>>)
    ensures Total(size, a + b) == Total(size, a) + Total(size, b)
  {
    if a == [] {
      assert a + b == b;
    } else {
      assert (a + b)[1..] == a[1..] + b;
      TotalAppend(size, a[1..], b);
    }
  }

  lemma {:induction false} TotalSnoc<K, V>(size: Cell<K, V> -> nat, a: seq<Cell<K, V>>, c: Cell<K, V>)
    ensures Total(size, a + [c]) == Total(size, a) + size(c)
  {
    TotalAppend(size, a, [c]);
    assert [c][1..] == [];
  }

  lemma {:induction false} TotalInsertAt<K, V>(size: Cell<K, V> -> nat, cells: seq<Cell<K, V>>, i: nat, c: Cell<K, V>)
    requires i <= |cells|
    ensures Total(size, InsertAt(cells, i, c)) == Total(size, cells) + size(c)
  {
    var a, b := cells[..i], cells[i..];
    TotalAppend(size, a + [c], b);
    TotalSnoc(size, a, c);
    TotalAppend(size, a, b);
    assert a + b == cells;
  }

  /** A page that takes one more cell if it has the room, and otherwise stays as it is. */
  function TryInsert<K, V>(cmp: (K, K) -> int, size: Cell<K, V> -> nat, cells: seq<Cell<K, V>>, c: Cell<K, V>): Option<seq<Cell<K, V>>> {
    if Total(size, cells) + size(c) <= ROOM then Some(Insert(cmp, cells, c)) else None
  }

  /** An empty page after a list of insertions whose failures nobody looked at. */
  function Fill<K, V>(cmp: (K, K) -> int, size: Cell<K, V> -> nat, cells: seq<Cell<K, V>>): seq<Cell<K, V>> {
    if cells == [] then []
    else
      var page := Fill(cmp, size, cells[..|cells| - 1]);
      match TryInsert(cmp, size, page, cells[|cells| - 1])
      case Some(more) => more
      case None => page
  }

  /** Sorted cells that fit a page end up on it unchanged ... */
  lemma {:induction false} FillFits<K, V>(cmp: (K, K) -> int, size: Cell<K, V> -> nat, cells: seq<Cell<K, V>>)
    requires Sorted(cmp, cells) && Total(size, cells) <= ROOM
    ensures Fill(cmp, size, cells) == cells
  {
    if cells != [] {
      var n := |cells| - 1;
      var init, c := cells[..n], cells[n];
      assert cells == init + [c];
      TotalSnoc(size, init, c);
      SortedPrefix(cmp, init, c);
      FillFits(cmp, size, init);
      FillStep(cmp, size, init, c);
    }
  }

  lemma {:induction false} FillStep<K, V>(cmp: (K, K) -> int, size: Cell<K, V> -> nat, init: seq<Cell<K, V>>, c: Cell<K, V>)
    requires Fill(cmp, size, init) == init && Total(size, init) + size(c) <= ROOM && AllBelow(cmp, init, c.key)
    ensures Fill(cmp, size, init + [c]) == init + [c]
  {
    var all := init + [c];
    assert all[..|all| - 1] == init;
    InsertLast(cmp, init, c);
  }

  /** ... and when they do not fit, at least one of them is dropped. */
  lemma {:induction false} FillDrops<K, V>(cmp: (K, K) -> int, size: Cell<K, V> -> nat, cells: seq<Cell<K, V>>)
    ensures |Fill(cmp, size, cells)| <= |cells| && Total(size, Fill(cmp, size, cells)) <= ROOM
    ensures Total(size, cells) > ROOM ==> |Fill(cmp, size, cells)| < |cells|
  {
    if cells != [] {
      var n := |cells| - 1;
      var page, c := Fill(cmp, size, cells[..n]), cells[n];
      FillDrops(cmp, size, cells[..n]);
      TotalInsertAt(size, page, Slot(cmp, page, c.key), c);
      FillTotal(cmp, size, cells[..n]);
      assert cells == cells[..n] + [c];
      TotalSnoc(size, cells[..n], c);
    }
  }

  /** What was not dropped weighs what it weighed. */
  lemma {:induction false} FillTotal<K, V>(cmp: (K, K) -> int, size: Cell<K, V> -> nat, cells: seq<Cell<K, V>>)
    ensures |Fill(cmp, size, cells)| == |cells| ==> Total(size, Fill(cmp, size, cells)) == Total(size, cells)
    ensures |Fill(cmp, size, cells)| <= |cells|
  {
    if cells != [] {
      var n := |cells| - 1;
      var page, c := Fill(cmp, size, cells[..n]), cells[n];
      FillTotal(cmp, size, cells[..n]);
      TotalInsertAt(size, page, Slot(cmp, page, c.key), c);
      assert cells == cells[..n] + [c];
      TotalSnoc(size, cells[..n], c);
    }
  }

  lemma {:induction false} FillWithin<K, V>(cmp: (K, K) -> int, size: Cell<K, V> -> nat, cells: seq<Cell<K, V>>, x: Cell<K, V>)
    requires x in Fill(cmp, size, cells)
    ensures x in cells
  {
    var n := |cells| - 1;
    var page, c := Fill(cmp, size, cells[..n]), cells[n];
    if x != c {
      assert x in page;
      FillWithin(cmp, size, cells[..n], x);
    }
  }

  /** What is left after such insertions are some of the cells, still in order. */
  lemma {:induction false} FillSorted<K, V>(cmp: (K, K) -> int, size: Cell<K, V> -> nat, cells: seq<Cell<K, V>>)
    requires Sorted(cmp, cells)
    ensures Sorted(cmp, Fill(cmp, size, cells))
    ensures forall c :: c in Fill(cmp, size, cells) ==> c in cells
  {
    if cells != [] {
      var n := |cells| - 1;
      var init, c := cells[..n], cells[n];
      var page := Fill(cmp, size, init);
      assert cells == init + [c];
      SortedPrefix(cmp, init, c);
      FillSorted(cmp, size, init);
      assert AllBelow(cmp, page, c.key) by {
        forall i | 0 <= i < |page| ensures cmp(page[i].key, c.key) < 0 {
          assert page[i] in init;
        }
      }
      InsertLast(cmp, page, c);
    }
  }
}
