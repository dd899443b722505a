/** Search, deletion, update, the greatest key, and the sizes for which insertion loses nothing. */
module BTreeOps {
  import opened Bytes
  import opened Cells
  import opened BTree

  // ---- search ----

  /** The entry of a key in a sorted map. */
  function Lookup<K, V>(cmp: (K, K) -> int, cells: seq<Cell<K, V>>, key: K): Option<V> {
    if Found(cmp, cells, key) then Some(cells[Slot(cmp, cells, key)].val) else None
  }

  function Get<K, V>(cmp: (K, K) -> int, t: Tree<K, V>, key: K): Option<V> {
    Lookup(cmp, LeafFor(cmp, t, key).cells, key)
  }

  /** A descent along the separators finds exactly what the map of all entries holds. */
  lemma {:induction false} GetIsLookup<K(!new), V(!new)>(lay: Layout<K, V>, t: Tree<K, V>, key: K, lo: Option<K>, hi: Option<K>, h: nat)
    requires TotalPreorder(lay.cmp) && Sound(lay, t, lo, hi, h)
    ensures Get(lay.cmp, t, key) == Lookup(lay.cmp, Entries(t), key)
    decreases h
  {
    if t.Node? {
      var r := Route(lay.cmp, t.kids, key);
      var kid := KidOf(t.first, t.kids, r);
      RouteIsolates(lay, t.first, t.kids, key, lo, hi, h - 1);
      AroundKid(t.first, t.kids, r);
      MiddleSlot(lay.cmp, LeftOf(t.first, t.kids, r), Entries(kid), RightOf(t.kids, r), key);
      GetIsLookup(lay, kid, key, Lower(t.kids, r, lo), Higher(t.kids, r, hi), h - 1);
    }
  }

  // ---- deletion ----

  /** Deletion repacks the leaf; it never merges pages and never moves a separator. */
  function DeleteIn<K, V>(lay: Layout<K, V>, t: Tree<K, V>, key: K): Tree<K, V>
    decreases t
  {
    match t
    case Leaf(id, cells) =>
      if Found(lay.cmp, cells, key)
      then Leaf(id, Fill(lay.cmp, lay.leafSize, RemoveAt(cells, Slot(lay.cmp, cells, key))))
      else t
    case Node(_, first, kids) =>
      var r := Route(lay.cmp, kids, key);
      WithKid(t, r, DeleteIn(lay, KidOf(first, kids, r), key))
  }

  lemma LeafDelete<K(!new), V(!new)>(lay: Layout<K, V>, t: Tree<K, V>, key: K, lo: Option<K>, hi: Option<K>)
    requires TotalPreorder(lay.cmp) && t.Leaf? && Sound(lay, t, lo, hi, 0)
    ensures var u := DeleteIn(lay, t, key);
      Sound(lay, u, lo, hi, 0) && u == Leaf(t.id, Delete(lay.cmp, t.cells, key))
  {
    if Found(lay.cmp, t.cells, key) {
      var i := Slot(lay.cmp, t.cells, key);
      RemoveFits(lay.leafSize, t.cells, i);
      DeleteKeepsSorted(lay.cmp, t.cells, i);
      FillFits(lay.cmp, lay.leafSize, RemoveAt(t.cells, i));
    }
  }

  lemma RemoveFits<K, V>(size: Cell<K, V> -> nat, cells: seq<Cell<K, V>>, i: nat)
    requires i < |cells|
    ensures Total(size, RemoveAt(cells, i)) == Total(size, cells) - size(cells[i])
  {
    var rest := RemoveAt(cells, i);
    assert cells == InsertAt(rest, i, cells[i]);
    TotalInsertAt(size, rest, i, cells[i]);
  }

  /**
  Deletion refines deletion from a sorted map: exactly the entry of the key goes, and bounds, depth
  and pages stay sound even where a leaf becomes empty or the key is also a separator.
  */
  lemma {:induction false} DeleteSound<K(!new), V(!new)>(lay: Layout<K, V>, t: Tree<K, V>, key: K, lo: Option<K>, hi: Option<K>, h: nat)
    requires TotalPreorder(lay.cmp) && Sound(lay, t, lo, hi, h)
    ensures Sound(lay, DeleteIn(lay, t, key), lo, hi, h)
    ensures Entries(DeleteIn(lay, t, key)) == Delete(lay.cmp, Entries(t), key)
    ensures DeleteIn(lay, t, key).id == t.id
    decreases h
  {
    if t.Leaf? {
      LeafDelete(lay, t, key, lo, hi);
    } else {
      var r := Route(lay.cmp, t.kids, key);
      var kid := KidOf(t.first, t.kids, r);
      DeleteSound(lay, kid, key, Lower(t.kids, r, lo), Higher(t.kids, r, hi), h - 1);
      NodeKept(lay, t, r, DeleteIn(lay, kid, key), lo, hi, h - 1);
      KidDeletes(lay, t, key, lo, hi, h - 1);
    }
  }

  /** Without an entry of the key nothing changes. */
  lemma {:induction false} NothingDeleted<K, V>(lay: Layout<K, V>, t: Tree<K, V>, key: K)
    requires !Found(lay.cmp, LeafFor(lay.cmp, t, key).cells, key)
    ensures DeleteIn(lay, t, key) == t
    decreases t
  {
    if t.Node? {
      var r := Route(lay.cmp, t.kids, key);
      NothingDeleted(lay, KidOf(t.first, t.kids, r), key);
      assert WithKid(t, r, KidOf(t.first, t.kids, r)) == t;
    }
  }

  lemma KidDeletes<K(!new), V(!new)>(lay: Layout<K, V>, t: Tree<K, V>, key: K, lo: Option<K>, hi: Option<K>, h: nat)
    requires TotalPreorder(lay.cmp) && t.Node? && SoundKids(lay, t.first, t.kids, lo, hi, h)
    ensures var r := Route(lay.cmp, t.kids, key);
      Delete(lay.cmp, Entries(t), key) ==
        LeftOf(t.first, t.kids, r) + Delete(lay.cmp, Entries(KidOf(t.first, t.kids, r)), key) + RightOf(t.kids, r)
  {
    var r := Route(lay.cmp, t.kids, key);
    RouteIsolates(lay, t.first, t.kids, key, lo, hi, h);
    AroundKid(t.first, t.kids, r);
    MiddleDelete(lay.cmp, LeftOf(t.first, t.kids, r), Entries(KidOf(t.first, t.kids, r)), RightOf(t.kids, r), key);
  }

  // ---- update ----

  /** An update deletes the entry and inserts it anew with the other payload. */
  function UpdateTree<K, V>(lay: Layout<K, V>, t: Tree<K, V>, c: Cell<K, V>, next: nat): (Tree<K, V>, nat, bool) {
    if Get(lay.cmp, t, c.key).None? then (t, next, false)
    else
      var (u, n) := InsertTree(lay, DeleteIn(lay, t, c.key), c, next);
      (u, n, true)
  }

  /** Deleting an entry and inserting it anew puts it back in its place. */
  lemma {:induction false} ReplaceEntry<K(!new), V(!new)>(cmp: (K, K) -> int, cells: seq<Cell<K, V>>, c: Cell<K, V>)
    requires TotalPreorder(cmp) && Sorted(cmp, cells) && Found(cmp, cells, c.key)
    ensures Insert(cmp, Delete(cmp, cells, c.key), c) == cells[Slot(cmp, cells, c.key) := c]
  {
    var i := Slot(cmp, cells, c.key);
    TailAbove(cmp, cells, c.key);
    hide Slot, Sorted;
    var less := RemoveAt(cells, i);
    forall j | 0 <= j < i ensures cmp(less[j].key, c.key) < 0 {
      assert less[j] == cells[j];
    }
    SlotUnique(cmp, less, c.key, i);
  }

  /** The leaf that an update writes to has room for the new payload once the old one is gone, or splits into halves that fit. */
  predicate UpdateFits<K, V>(lay: Layout<K, V>, t: Tree<K, V>, c: Cell<K, V>) {
    LeafFits(lay, LeafFor(lay.cmp, DeleteIn(lay, t, c.key), c.key).cells, c)
  }

  /** An update replaces one payload; it changes nothing else if and only if the leaf that it writes to fits. */
  lemma UpdateSound<K(!new), V(!new)>(lay: Layout<K, V>, t: Tree<K, V>, c: Cell<K, V>, next: nat, h: nat) returns (h': nat)
    requires Usable(lay) && SoundTree(lay, t, h) && lay.accepts(c)
    requires SepsFit(lay, DeleteIn(lay, t, c.key), c, next)
    ensures var (u, n, done) := UpdateTree(lay, t, c, next); var cells := Entries(t);
      && SoundTree(lay, u, h') && u.id == t.id
      && (done <==> Found(lay.cmp, cells, c.key))
      && (!done ==> u == t)
      && (done ==> (Entries(u) == cells[Slot(lay.cmp, cells, c.key) := c] <==> UpdateFits(lay, t, c)))
      && (done ==> |Entries(u)| <= |cells| && (|Entries(u)| == |cells| <==> UpdateFits(lay, t, c)))
  {
    GetIsLookup(lay, t, c.key, None, None, h);
    SoundEntries(lay, t, None, None, h);
    if Found(lay.cmp, Entries(t), c.key) {
      DeleteSound(lay, t, c.key, None, None, h);
      DeleteSorted(lay.cmp, Entries(t), c.key);
      h' := InsertTreeSound(lay, DeleteIn(lay, t, c.key), c, next, h);
      ReplaceEntry(lay.cmp, Entries(t), c);
    } else {
      h' := h;
    }
  }

  /** Whatever an update has to drop, it brings in nothing but the new cell. */
  lemma UpdateWithin<K(!new), V(!new)>(lay: Layout<K, V>, t: Tree<K, V>, c: Cell<K, V>, next: nat, h: nat, x: Cell<K, V>)
    requires Usable(lay) && SoundTree(lay, t, h) && lay.accepts(c)
    requires SepsFit(lay, DeleteIn(lay, t, c.key), c, next)
    requires x in Entries(UpdateTree(lay, t, c, next).0) && x != c
    ensures x in Entries(t)
  {
    var less := DeleteIn(lay, t, c.key);
    GetIsLookup(lay, t, c.key, None, None, h);
    SoundEntries(lay, t, None, None, h);
    if Found(lay.cmp, Entries(t), c.key) {
      DeleteSound(lay, t, c.key, None, None, h);
      DeleteSorted(lay.cmp, Entries(t), c.key);
      var h' := InsertTreeSound(lay, less, c, next, h);
      AfterWithin(lay, less, c, x);
    }
  }
}
