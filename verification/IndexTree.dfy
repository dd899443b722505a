/**
Indexes in their trees: keys ordered by the comparison of the source, cells as large as their encodings.
Among the keys of an index that comparison is the order of tuples, so that the tree is a sorted map.
*/
module IndexTrees {
  import opened Bytes
  import opened Cells
  import opened BTree
  import opened BTreeOps
  import opened Comparators
  import opened Values
  import opened Tuples
  import opened Indexes
  import TableTree
  import Record

  /** The bytes of a key behind its length. */
  function KeyBytes(k: Tuple): nat { UvarintLen(|Record.Encoded(k)|) + |Record.Encoded(k)| }

  /** What the guard at the head of an insertion lets through. */
  predicate KeyFits(k: Tuple) { KeyBytes(k) + 10 + 2 <= ROOM }

  /** A leaf cell: key, payload length 0, pointer; an interior cell: key, child page, pointer. */
  function IndexLayout(cmp: (Tuple, Tuple) -> int): Layout<Tuple, Unit> {
    Layout(cmp, (c: Cell<Tuple, Unit>) => KeyBytes(c.key) + 1 + 2, (k: Tuple) => KeyBytes(k) + 4 + 2, (c: Cell<Tuple, Unit>) => KeyFits(c.key))
  }

  /** The layout that the code uses. */
  function SourceLayout(): Layout<Tuple, Unit> { IndexLayout(CompareTuples) }

  /** The layout that theorems are about. */
  function OrderLayout(): Layout<Tuple, Unit> { IndexLayout(IdealTuples) }

  lemma IndexUsable()
    ensures Usable(OrderLayout())
  {
    TuplesInOrder();
  }

  /** Exactly the keys are accepted whose cell leaves 9 bytes of an empty page free: what a 10-byte payload length takes more than the one of length 0. */
  lemma KeyFitsIff(k: Tuple)
    ensures KeyFits(k) <==> SourceLayout().leafSize(Cell(k, Unit)) + 9 <= PAGE_SIZE - 10
    ensures KeyFits(k) <==> |Record.Encoded(k)| <= 4072
  {
    TableTree.LongUvarint(|Record.Encoded(k)|);
    if |Record.Encoded(k)| < 16384 { TableTree.ShortUvarint(|Record.Encoded(k)|); }
  }

  lemma IndexGenerous()
    ensures Generous(SourceLayout()) && Generous(OrderLayout())
  {
    forall c: Cell<Tuple, Unit> | !KeyFits(c.key)
      ensures SourceLayout().leafSize(c) + LENGTH_SLACK > PAGE_SIZE - 10 && OrderLayout().leafSize(c) + LENGTH_SLACK > PAGE_SIZE - 10
    {
      KeyFitsIff(c.key);
    }
  }

  /** The keys that an index on n columns can have. */
  ghost function Proper(dom: Value -> bool, n: nat): Tuple -> bool {
    t => Shaped(dom, n, t)
  }

  /** Among such keys the two layouts are the same. */
  lemma IndexAlike(dom: Value -> bool, n: nat)
    requires Domain(dom)
    ensures Alike(SourceLayout(), OrderLayout(), Proper(dom, n))
  {
    forall x: Tuple, y: Tuple | Shaped(dom, n, x) && Shaped(dom, n, y) ensures CompareTuples(x, y) == IdealTuples(x, y) {
      assert x == Key(x[..n], x[n].n) && y == Key(y[..n], y[n].n);
      KeysAgree(dom, x[..n], x[n].n, y[..n], y[n].n);
    }
  }

  // ---- an index and its tree ----

  /** `next` is the page number that the tree draws next. */
  datatype IndexTree = IndexTree(columns: seq<nat>, unique: bool, tree: Tree<Tuple, Unit>, next: nat)

  /** What a walk over the leaves finds. */
  function Viewed(ix: IndexTree): Index { Index(ix.columns, ix.unique, BTree.Entries(ix.tree)) }

  ghost predicate SoundIndex(dom: Value -> bool, ix: IndexTree) {
    Domain(dom) && TreeIn(ix.tree, Proper(dom, |ix.columns|)) && Grown(OrderLayout(), ix.tree)
  }

  function InsertKey(ix: IndexTree, k: Tuple): IndexTree {
    var (t, n) := InsertTree(SourceLayout(), ix.tree, Cell(k, Unit), ix.next);
    ix.(tree := t, next := n)
  }

  function DeleteKey(ix: IndexTree, k: Tuple): IndexTree {
    ix.(tree := DeleteIn(SourceLayout(), ix.tree, k))
  }

  /** The leaf that the key belongs on has room for it, or splits into halves that have. */
  predicate KeyRoom(ix: IndexTree, k: Tuple) {
    LeafFits(SourceLayout(), LeafFor(CompareTuples, ix.tree, k).cells, Cell(k, Unit))
  }

  /** The interior pages that a split reaches split into halves that have room for their keys. */
  predicate SepRoom(ix: IndexTree, k: Tuple) {
    SepsFit(SourceLayout(), ix.tree, Cell(k, Unit), ix.next)
  }

  lemma EmptyIsSound(dom: Value -> bool, columns: seq<nat>, unique: bool, id: nat, next: nat)
    requires Domain(dom)
    ensures SoundIndex(dom, IndexTree(columns, unique, Leaf(id, []), next))
  {
    assert SoundTree(OrderLayout(), Leaf(id, []), 0);
  }

  lemma EntryIsShaped(dom: Value -> bool, columns: seq<nat>, c: Cell<int, Row>)
    requires Fine(dom, columns, c.val) && c.key >= MIN_ROWID
    ensures Proper(dom, |columns|)(EntryKey(columns, c))
  {
    assert EntryKey(columns, c)[..|columns|] == KeyCols(columns, c.val);
  }

  /**
  A tree that takes a key that it does not hold holds what the index with one more key holds if and only if
  the leaf of the key keeps everything. Otherwise it has lost a key, and it has gained no other.
  */
  lemma InsertKeyIs(dom: Value -> bool, ix: IndexTree, k: Tuple)
    requires SoundIndex(dom, ix) && Shaped(dom, |ix.columns|, k) && Absent(IdealTuples, BTree.Entries(ix.tree), k)
    requires KeyFits(k) && SepRoom(ix, k)
    ensures var more := InsertKey(ix, k); var cells := BTree.Entries(ix.tree);
      && SoundIndex(dom, more)
      && (KeyRoom(ix, k) ==> Viewed(more) == AddKey(Viewed(ix), k))
      && (!KeyRoom(ix, k) ==> |BTree.Entries(more.tree)| <= |cells|)
      && forall x :: x in BTree.Entries(more.tree) ==> x in cells || x.key == k
  {
    var proper := Proper(dom, |ix.columns|);
    IndexAlike(dom, |ix.columns|);
    InOrder(proper, ix, k);
    SameSlot(proper, ix, k);
  }

  lemma InOrder(proper: Tuple -> bool, ix: IndexTree, k: Tuple)
    requires Alike(SourceLayout(), OrderLayout(), proper) && TreeIn(ix.tree, proper) && proper(k) && Grown(OrderLayout(), ix.tree)
    requires Absent(IdealTuples, BTree.Entries(ix.tree), k) && KeyFits(k) && SepRoom(ix, k)
    ensures var more := InsertKey(ix, k); var cells := BTree.Entries(ix.tree);
      && TreeIn(more.tree, proper) && Grown(OrderLayout(), more.tree)
      && (KeyRoom(ix, k) ==> BTree.Entries(more.tree) == Insert(IdealTuples, cells, Cell(k, Unit)))
      && (!KeyRoom(ix, k) ==> |BTree.Entries(more.tree)| <= |cells|)
      && forall x :: x in BTree.Entries(more.tree) ==> x in cells || x.key == k
  {
    var c, cells := Cell(k, Unit), BTree.Entries(ix.tree);
    InsertTreeSame(SourceLayout(), OrderLayout(), proper, ix.tree, c, ix.next);
    InsertInSame(SourceLayout(), OrderLayout(), proper, ix.tree, c, ix.next);
    LeafFitsSame(SourceLayout(), OrderLayout(), proper, ix.tree, c);
    IndexUsable();
    var h :| SoundTree(OrderLayout(), ix.tree, h);
    var h' := InsertTreeSound(OrderLayout(), ix.tree, c, ix.next, h);
    forall x | x in BTree.Entries(InsertKey(ix, k).tree) && x != c ensures x in cells {
      AfterWithin(OrderLayout(), ix.tree, c, x);
    }
  }

  /** Among the keys of a tree a key has the same place in both orders. */
  lemma SameSlot(proper: Tuple -> bool, ix: IndexTree, k: Tuple)
    requires Alike(SourceLayout(), OrderLayout(), proper) && TreeIn(ix.tree, proper) && proper(k)
    ensures Slot(CompareTuples, BTree.Entries(ix.tree), k) == Slot(IdealTuples, BTree.Entries(ix.tree), k)
  {
    var cells := BTree.Entries(ix.tree);
    EntriesIn(ix.tree, proper);
    assert forall i :: 0 <= i < |cells| ==> SourceLayout().cmp(cells[i].key, k) == OrderLayout().cmp(cells[i].key, k);
    SlotUnique(CompareTuples, cells, k, Slot(IdealTuples, cells, k));
  }

  lemma {:induction false} EntriesIn<K, V>(t: Tree<K, V>, p: K -> bool)
    requires TreeIn(t, p)
    ensures KeysIn(BTree.Entries(t), p)
    decreases t
  {
    if t.Node? {
      NodeIn(t, p);
      EntriesIn(t.first, p);
      KidEntriesIn(t, t.kids, p);
    }
  }

  lemma {:induction false} KidEntriesIn<K, V>(t: Tree<K, V>, kids: seq<Cell<K, Tree<K, V>>>, p: K -> bool)
    requires KidsIn(kids, p) && t.Node? && forall k :: k in kids ==> k in t.kids
    ensures KeysIn(EntriesOf(kids), p)
    decreases t, |kids|
  {
    if kids != [] {
      assert kids[0] in t.kids;
      EntriesIn(kids[0].val, p);
      KidEntriesIn(t, kids[1..], p);
    }
  }

  /** The tree without the key of a row holds what the index without it holds. */
  lemma DeleteKeyIs(dom: Value -> bool, ix: IndexTree, rows: Rows, i: nat)
    requires SoundIndex(dom, ix) && Agrees(dom, Viewed(ix), rows) && i < |rows|
    ensures var k := EntryKey(ix.columns, rows[i]);
      SoundIndex(dom, DeleteKey(ix, k)) && Viewed(DeleteKey(ix, k)) == DropKey(Viewed(ix), k)
  {
    var k, proper := EntryKey(ix.columns, rows[i]), Proper(dom, |ix.columns|);
    EntryIsShaped(dom, ix.columns, rows[i]);
    IndexAlike(dom, |ix.columns|);
    SlotsAgree(dom, Viewed(ix), rows, KeyCols(ix.columns, rows[i].val), rows[i].key);
    DeleteInSame(SourceLayout(), OrderLayout(), proper, ix.tree, k);
    IndexUsable();
    var h :| SoundTree(OrderLayout(), ix.tree, h);
    DeleteSound(OrderLayout(), ix.tree, k, None, None, h);
    assert SoundTree(OrderLayout(), DeleteIn(OrderLayout(), ix.tree, k), h);
  }

  // ---- keys of even sizes ----

  /** Keys whose separators take between 11 and 140 bytes. */
  ghost predicate EvenSeps<K(!new), V(!new)>(lay: Layout<K, V>, even: K -> bool) {
    forall k :: even(k) ==> 11 <= lay.sepSize(k) <= 140
  }

  /** The median of an overfull page of even cells leaves two pages that fit. */
  lemma EvenCut<K, V>(size: Cell<K, V> -> nat, all: seq<Cell<K, V>>, i: nat)
    requires TableTree.SizesBetween(size, all, 11, 140) && |all| >= 2 && i < |all|
    requires Total(size, all) > ROOM && Total(size, all) - size(all[i]) <= ROOM
    ensures Total(size, all[..|all| / 2]) <= ROOM && Total(size, all[|all| / 2 + 1..]) <= ROOM
  {
    var mid := |all| / 2;
    TableTree.EvenHalvesFit(size, all, i);
    assert all[mid..] == [all[mid]] + all[mid + 1..];
    TotalAppend(size, [all[mid]], all[mid + 1..]);
  }

  lemma EvenKidsFit<K(!new), V(!new)>(lay: Layout<K, V>, even: K -> bool, kids: seq<Cell<K, Tree<K, V>>>, s: Cell<K, Tree<K, V>>)
    requires EvenSeps(lay, even) && KeysIn(kids, even) && even(s.key) && Total(lay.KidSize(), kids) <= ROOM
    ensures KidsFit(lay, kids, s)
  {
    var size, all := lay.KidSize(), Merged(lay.cmp, kids, s);
    var i := Upper(lay.cmp, kids, s.key);
    TotalInsertAt(size, kids, i, s);
    assert kids == [] ==> Total(size, kids) == 0 && size(s) <= 140;
    assert forall j :: 0 <= j < |all| ==> 11 <= size(all[j]) <= 140;
    hide Total, Upper, EvenSeps, KeysIn;
    if Total(size, all) > ROOM {
      assert kids != [] && all[i] == s;
      EvenCut(size, all, i);
    }
  }

  /** Where all keys are even, interior pages always split into halves that fit. */
  lemma {:induction false} EvenSepsFit<K(!new), V(!new)>(lay: Layout<K, V>, even: K -> bool, t: Tree<K, V>, c: Cell<K, V>, next: nat,
                                                         lo: Option<K>, hi: Option<K>, h: nat)
    requires EvenSeps(lay, even) && Sound(lay, t, lo, hi, h) && TreeIn(t, even) && even(c.key)
    ensures SepsFit(lay, t, c, next)
    decreases h
  {
    if t.Node? {
      var r := Route(lay.cmp, t.kids, c.key);
      var kid := KidOf(t.first, t.kids, r);
      var sub := InsertIn(lay, kid, c, next);
      EvenSepsFit(lay, even, kid, c, next, Lower(t.kids, r, lo), Higher(t.kids, r, hi), h - 1);
      InsertInSame(lay, lay, even, kid, c, next);
      InsertInStep(lay, t, c, next);
      if sub.split.Some? {
        SizeReplaced(lay, t, r, sub.tree);
        EvenKidsFit(lay, even, WithKid(t, r, sub.tree).kids, sub.split.value);
      }
    }
  }

  /** Keys that take between 8 and 134 bytes with their length. */
  predicate Sized(k: Tuple) { 8 <= KeyBytes(k) <= 134 }

  lemma SizedCells(cells: seq<Cell<Tuple, Unit>>, c: Cell<Tuple, Unit>)
    requires KeysIn(cells, Sized) && Sized(c.key)
    ensures TableTree.SizesBetween(OrderLayout().leafSize, cells + [c], 11, 140) && OrderLayout().leafSize(c) <= ROOM && KeyFits(c.key)
  {
  }

  /** In an index whose keys are of even sizes every insertion keeps every entry. */
  lemma SizedIndexFits(dom: Value -> bool, ix: IndexTree, k: Tuple)
    requires SoundIndex(dom, ix) && TreeIn(ix.tree, Sized) && Shaped(dom, |ix.columns|, k) && Sized(k)
    ensures KeyFits(k) && KeyRoom(ix, k) && SepRoom(ix, k)
  {
    var c, proper := Cell(k, Unit), Proper(dom, |ix.columns|);
    IndexAlike(dom, |ix.columns|);
    var h :| SoundTree(OrderLayout(), ix.tree, h);
    EvenSepsFit(OrderLayout(), Sized, ix.tree, c, ix.next, None, None, h);
    InsertInSame(SourceLayout(), OrderLayout(), proper, ix.tree, c, ix.next);
    EntriesIn(ix.tree, Sized);
    SizedCells(BTree.Entries(ix.tree), c);
    hide KeyBytes, Alike, SepsFit, LeafFits, Proper;
    TableTree.EvenTableFits(OrderLayout(), ix.tree, c, None, None, h);
    LeafFitsSame(SourceLayout(), OrderLayout(), proper, ix.tree, c);
  }
}
