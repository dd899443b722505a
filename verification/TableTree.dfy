/**
Trees that hold the rows of a table: keys are rowids, separators all take the same space. Here the
question whether a split by cell count can lose a cell has exact answers.
*/
module TableTree {
  import opened Bytes
  import opened Cells
  import opened BTree
  import opened BTreeOps

  type Payload = seq<Byte>

  function CompareRowid(a: int, b: int): int {
    if a < b then -1 else if a > b then 1 else 0
  }

  /** A leaf cell: rowid, payload length, payload, and the 2-byte pointer to it. */
  function LeafSize(c: Cell<int, Payload>): nat { 8 + UvarintLen(|c.val|) + |c.val| + 2 }

  /** An interior cell: separator, child page, and the 2-byte pointer. */
  const SEP_SIZE := 8 + 4 + 2

  /** What the guard at the head of an insertion lets through. */
  predicate Accepts(c: Cell<int, Payload>) { 8 + 10 + 2 + |c.val| <= ROOM }

  function TableLayout(): Layout<int, Payload> {
    Layout(CompareRowid, LeafSize, (k: int) => SEP_SIZE, Accepts)
  }

  lemma ShortUvarint(v: nat)
    requires v < 16384
    ensures UvarintLen(v) == if v < 128 then 1 else 2
  {
    assert v >= 128 ==> PutUvarint(v / 128) == [v / 128];
  }

  lemma TableUsable()
    ensures Usable(TableLayout())
  {
    forall a, b, c ensures Chain(CompareRowid, a, b, c) {
    }
    forall c: Cell<int, Payload> | Accepts(c) ensures LeafSize(c) <= ROOM {
      ShortUvarint(|c.val|);
    }
  }

  lemma {:induction false} LongUvarint(v: nat)
    ensures v >= 128 ==> UvarintLen(v) >= 2
  {
  }

  /** Exactly the cells are accepted that leave 8 bytes of an empty page free: what a 10-byte payload length takes more than one of two bytes. */
  lemma AcceptsIff(c: Cell<int, Payload>)
    ensures Accepts(c) <==> LeafSize(c) + 8 <= PAGE_SIZE - 10
    ensures Accepts(c) <==> |c.val| <= 4066
  {
    LongUvarint(|c.val|);
    if |c.val| < 16384 { ShortUvarint(|c.val|); }
  }

  lemma TableGenerous()
    ensures Generous(TableLayout())
  {
    forall c | !TableLayout().accepts(c) ensures TableLayout().leafSize(c) + LENGTH_SLACK > PAGE_SIZE - 10 {
      AcceptsIff(c);
    }
  }

  // ---- when a split by cell count loses nothing ----

  ghost predicate SizesBetween<K, V>(size: Cell<K, V> -> nat, cells: seq<Cell<K, V>>, a: nat, b: nat) {
    forall i :: 0 <= i < |cells| ==> a <= size(cells[i]) <= b
  }

  lemma OneMoreTime(n: nat, s: nat)
    ensures (n + 1) * s == s + n * s
  {
  }

  lemma {:induction false} TotalBetween<K, V>(size: Cell<K, V> -> nat, cells: seq<Cell<K, V>>, a: nat, b: nat)
    requires SizesBetween(size, cells, a, b)
    ensures |cells| * a <= Total(size, cells) <= |cells| * b
  {
    if cells != [] {
      assert SizesBetween(size, cells[1..], a, b) by {
        forall i | 0 <= i < |cells[1..]| ensures a <= size(cells[1..][i]) <= b {
          assert cells[1..][i] == cells[i + 1];
        }
      }
      TotalBetween(size, cells[1..], a, b);
      OneMoreTime(|cells[1..]|, a);
      OneMoreTime(|cells[1..]|, b);
    }
  }

  /** The sizes for which counting cells is as good as weighing them. */
  ghost predicate EvenSizes<K, V>(size: Cell<K, V> -> nat, cells: seq<Cell<K, V>>) {
    SizesBetween(size, cells, 11, 140) || exists s :: SizesBetween(size, cells, s, s)
  }

  lemma HalvesBetween<K, V>(size: Cell<K, V> -> nat, all: seq<Cell<K, V>>, mid: nat, a: nat, b: nat)
    requires SizesBetween(size, all, a, b) && mid <= |all|
    ensures Total(size, all) == Total(size, all[..mid]) + Total(size, all[mid..])
    ensures |all| * a <= Total(size, all) <= |all| * b
    ensures mid * a <= Total(size, all[..mid]) <= mid * b
    ensures (|all| - mid) * a <= Total(size, all[mid..]) <= (|all| - mid) * b
  {
    assert all == all[..mid] + all[mid..];
    TotalAppend(size, all[..mid], all[mid..]);
    TotalBetween(size, all, a, b);
    TotalBetween(size, all[..mid], a, b);
    TotalBetween(size, all[mid..], a, b);
  }

  lemma Monotone(a: nat, b: nat, s: nat)
    requires a <= b
    ensures a * s <= b * s
  {
  }

  /** Cut in the middle, a page of equal cells that is one cell overfull gives two pages that fit. */
  lemma {:induction false} EqualHalvesFit<K, V>(size: Cell<K, V> -> nat, all: seq<Cell<K, V>>, s: nat)
    requires SizesBetween(size, all, s, s) && |all| >= 2 && Total(size, all) - s <= ROOM
    ensures Total(size, all[..|all| / 2]) <= ROOM && Total(size, all[|all| / 2..]) <= ROOM
  {
    HalvesBetween(size, all, |all| / 2, s, s);
    PartOfEqual(|all|, |all| / 2, s);
    PartOfEqual(|all|, |all| - |all| / 2, s);
  }

  lemma PartOfEqual(n: nat, m: nat, s: nat)
    requires m < n && n * s - s <= ROOM
    ensures m * s <= ROOM
  {
    Monotone(m, n - 1, s);
    assert (n - 1) * s == n * s - s;
  }

  /** Cut in the middle, an overfull page of evenly sized cells gives two pages that fit. */
  lemma {:induction false} EvenHalvesFit<K, V>(size: Cell<K, V> -> nat, all: seq<Cell<K, V>>, i: nat)
    requires EvenSizes(size, all) && |all| >= 2 && i < |all|
    requires Total(size, all) > ROOM && Total(size, all) - size(all[i]) <= ROOM
    ensures Total(size, all[..|all| / 2]) <= ROOM && Total(size, all[|all| / 2..]) <= ROOM
  {
    if SizesBetween(size, all, 11, 140) {
      HalvesBetween(size, all, |all| / 2, 11, 140);
    } else {
      var s :| SizesBetween(size, all, s, s);
      EqualHalvesFit(size, all, s);
    }
  }

  /** A leaf whose cells are of even sizes splits without loss, whatever comes in. */
  lemma EvenLeafFits<K(!new), V(!new)>(lay: Layout<K, V>, cells: seq<Cell<K, V>>, c: Cell<K, V>)
    requires Total(lay.leafSize, cells) <= ROOM && lay.leafSize(c) <= ROOM
    requires EvenSizes(lay.leafSize, Merged(lay.cmp, cells, c))
    ensures LeafFits(lay, cells, c)
  {
    var all := Merged(lay.cmp, cells, c);
    TotalInsertAt(lay.leafSize, cells, Upper(lay.cmp, cells, c.key), c);
    if Total(lay.leafSize, all) > ROOM {
      assert cells != [];
      assert all[Upper(lay.cmp, cells, c.key)] == c;
      EvenHalvesFit(lay.leafSize, all, Upper(lay.cmp, cells, c.key));
    }
  }

  /** Interior pages of a table tree always split without loss. */
  lemma {:induction false} TableKidsFit<K(!new), V>(lay: Layout<K, V>, kids: seq<Cell<K, Tree<K, V>>>, c: Cell<K, Tree<K, V>>)
    requires FixedSeps(lay) && Total(lay.KidSize(), kids) <= ROOM
    ensures KidsFit(lay, kids, c)
  {
    var all, size := Merged(lay.cmp, kids, c), lay.KidSize();
    var n, mid := |all|, |all| / 2;
    SepsBetween(lay, kids);
    SepsBetween(lay, all);
    TotalBetween(size, kids, SEP_SIZE, SEP_SIZE);
    TotalBetween(size, all[..mid], SEP_SIZE, SEP_SIZE);
    TotalBetween(size, all[mid + 1..], SEP_SIZE, SEP_SIZE);
  }

  ghost predicate FixedSeps<K(!new), V>(lay: Layout<K, V>) {
    forall k :: lay.sepSize(k) == SEP_SIZE
  }

  lemma SepsBetween<K(!new), V>(lay: Layout<K, V>, kids: seq<Cell<K, Tree<K, V>>>)
    requires FixedSeps(lay)
    ensures SizesBetween(lay.KidSize(), kids, SEP_SIZE, SEP_SIZE)
  {
    forall i | 0 <= i < |kids| ensures lay.KidSize()(kids[i]) == SEP_SIZE {
      assert lay.sepSize(kids[i].key) == SEP_SIZE;
    }
  }

  /** Cells that all occur among evenly sized ones are evenly sized. */
  lemma EvenPart<K, V>(size: Cell<K, V> -> nat, all: seq<Cell<K, V>>, part: seq<Cell<K, V>>)
    requires EvenSizes(size, all) && forall c :: c in part ==> c in all
    ensures EvenSizes(size, part)
  {
    forall a: nat, b: nat | SizesBetween(size, all, a, b) ensures SizesBetween(size, part, a, b) {
      forall i | 0 <= i < |part| ensures a <= size(part[i]) <= b {
        assert part[i] in all;
      }
    }
  }

  /** In a table of evenly sized rows every insertion keeps every cell. */
  lemma {:induction false} EvenTableFits<K(!new), V(!new)>(lay: Layout<K, V>, t: Tree<K, V>, c: Cell<K, V>,
                                                           lo: Option<K>, hi: Option<K>, h: nat)
    requires Sound(lay, t, lo, hi, h) && lay.leafSize(c) <= ROOM
    requires EvenSizes(lay.leafSize, Entries(t) + [c])
    ensures LeafFits(lay, LeafFor(lay.cmp, t, c.key).cells, c)
    decreases h
  {
    if t.Leaf? {
      EvenPart(lay.leafSize, t.cells + [c], Merged(lay.cmp, t.cells, c));
      EvenLeafFits(lay, t.cells, c);
    } else {
      var r := Route(lay.cmp, t.kids, c.key);
      var kid := KidOf(t.first, t.kids, r);
      AroundKid(t.first, t.kids, r);
      EvenPart(lay.leafSize, Entries(t) + [c], Entries(kid) + [c]);
      EvenTableFits(lay, kid, c, Lower(t.kids, r, lo), Higher(t.kids, r, hi), h - 1);
    }
  }

  // ---- what happens otherwise ----

  lemma TableSeps()
    ensures FixedSeps(TableLayout())
  {
  }

  /** In a tree whose separators all take the same space, interior pages never drop anything. */
  lemma {:induction false} FixedSepsFit<K(!new), V(!new)>(lay: Layout<K, V>, t: Tree<K, V>, c: Cell<K, V>, next: nat,
                                                          lo: Option<K>, hi: Option<K>, h: nat)
    requires FixedSeps(lay) && Sound(lay, t, lo, hi, h)
    ensures SepsFit(lay, t, c, next)
    decreases h
  {
    if t.Node? {
      var r := Route(lay.cmp, t.kids, c.key);
      var sub := InsertIn(lay, KidOf(t.first, t.kids, r), c, next);
      FixedSepsFit(lay, KidOf(t.first, t.kids, r), c, next, Lower(t.kids, r, lo), Higher(t.kids, r, hi), h - 1);
      if sub.split.Some? {
        SizeReplaced(lay, t, r, sub.tree);
        TableKidsFit(lay, WithKid(t, r, sub.tree).kids, sub.split.value);
      }
      InsertInStep(lay, t, c, next);
    }
  }

  /** The leaf that a row belongs on has room for it, or splits into halves that have. */
  predicate RowRoom(t: Tree<int, Payload>, c: Cell<int, Payload>) {
    LeafFits(TableLayout(), LeafFor(CompareRowid, t, c.key).cells, c)
  }

  /**
  A table tree keeps every row across an insertion if and only if the leaf it reaches has room or splits
  into halves that fit. It is a sound tree on the same root page in either case.
  */
  lemma KeptIffFits(t: Tree<int, Payload>, c: Cell<int, Payload>, next: nat, h: nat) returns (h': nat)
    requires SoundTree(TableLayout(), t, h) && Accepts(c) && Absent(CompareRowid, Entries(t), c.key)
    ensures var (u, n) := InsertTree(TableLayout(), t, c, next);
      && SoundTree(TableLayout(), u, h') && u.id == t.id && |Entries(u)| <= |Entries(t)| + 1
      && (Entries(u) == Insert(CompareRowid, Entries(t), c) <==> RowRoom(t, c))
      && (|Entries(u)| == |Entries(t)| + 1 <==> RowRoom(t, c))
  {
    TableUsable();
    TableSeps();
    FixedSepsFit(TableLayout(), t, c, next, None, None, h);
    AfterIff(TableLayout(), t, c, None, None, h);
    h' := InsertTreeSound(TableLayout(), t, c, next, h);
  }

  function ShortRow(id: int): Cell<int, Payload> { Cell(id, Zeros(1)) }
  function LongRow(id: int): Cell<int, Payload> { Cell(id, Zeros(2000)) }
  function FullLeaf(): seq<Cell<int, Payload>> { [ShortRow(1), ShortRow(2), LongRow(3), LongRow(4)] }

  lemma FullLeafTotal()
    ensures Total(LeafSize, FullLeaf()) == 4048 && LeafSize(LongRow(5)) == 2012
    ensures Total(LeafSize, [LongRow(3), LongRow(4)]) == 4024
  {
    ShortUvarint(1);
    ShortUvarint(2000);
    var a, b := [ShortRow(1), ShortRow(2)], [LongRow(3), LongRow(4)];
    TotalOfTwo(LeafSize, a[0], a[1]);
    TotalOfTwo(LeafSize, b[0], b[1]);
    assert FullLeaf() == a + b;
    TotalAppend(LeafSize, a, b);
  }

  lemma FullLeafKeys(i: nat)
    requires i < 4
    ensures FullLeaf()[i].key == i + 1 && Accepts(FullLeaf()[i])
  {
  }

  lemma FullLeafIsSound()
    ensures SoundTree(TableLayout(), Leaf(1, FullLeaf()), 0) && Accepts(LongRow(5))
    ensures Absent(CompareRowid, FullLeaf(), 5)
  {
    FullLeafTotal();
    var cells := FullLeaf();
    forall i | 0 <= i < |cells| ensures cells[i].key == i + 1 && Accepts(cells[i]) {
      FullLeafKeys(i);
    }
    LeafIsSound(1, cells);
  }

  /** What it takes for rows on one page to make a sound tree. */
  lemma LeafIsSound(id: nat, cells: seq<Cell<int, Payload>>)
    requires forall i :: 0 <= i < |cells| ==> cells[i].key == i + 1 && Accepts(cells[i])
    requires Total(LeafSize, cells) <= ROOM
    ensures Sound(TableLayout(), Leaf(id, cells), None, None, 0)
  {
    assert Sorted(CompareRowid, cells);
  }

  lemma FullLeafIsUnfit()
    ensures !LeafFits(TableLayout(), FullLeaf(), LongRow(5))
  {
    FullLeafTotal();
    var c, b := LongRow(5), [LongRow(3), LongRow(4)];
    UpperUnique(CompareRowid, FullLeaf(), 5, 4);
    var all := Merged(CompareRowid, FullLeaf(), c);
    assert all == FullLeaf() + [c];
    assert all[2..] == b + [c];
    TotalSnoc(LeafSize, b, c);
  }

  /**
  Not every insertion meets that condition. Two short rows and two long ones fill a leaf; a third long
  row behind them splits it into two short rows and three long ones, of which the last has no room.
  */
  lemma SplitCanLoseARow(next: nat)
    ensures var t := Leaf(1, FullLeaf());
      && SoundTree(TableLayout(), t, 0) && Accepts(LongRow(5)) && Absent(CompareRowid, Entries(t), 5)
      && !RowRoom(t, LongRow(5))
      && |Entries(InsertTree(TableLayout(), t, LongRow(5), next).0)| <= |Entries(t)|
  {
    FullLeafIsSound();
    FullLeafIsUnfit();
    var _ := KeptIffFits(Leaf(1, FullLeaf()), LongRow(5), next, 0);
  }

  lemma TotalOfTwo<K, V>(size: Cell<K, V> -> nat, a: Cell<K, V>, b: Cell<K, V>)
    ensures Total(size, [a, b]) == size(a) + size(b)
  {
    assert [a, b][1..] == [b] && [b][1..] == [];
    assert Total(size, [b]) == size(b);
  }

  // ---- the greatest rowid ----

  /** No rowid comes twice. */
  lemma SameRowid<V>(rows: seq<Cell<int, V>>, i: nat, j: nat)
    requires Sorted(CompareRowid, rows) && i < |rows| && j < |rows|
    ensures rows[i].key == rows[j].key <==> i == j
  {
    assert i < j ==> CompareRowid(rows[i].key, rows[j].key) < 0;
    assert j < i ==> CompareRowid(rows[j].key, rows[i].key) < 0;
  }

  /** The rightmost leaf. */
  function LastLeaf<K, V>(t: Tree<K, V>): (leaf: Tree<K, V>)
    ensures leaf.Leaf?
    decreases t
  {
    match t
    case Leaf(_, _) => t
    case Node(_, first, kids) => LastLeaf(KidOf(first, kids, |kids|))
  }

  /** Walks down the last children and reads the last cell; finds nothing when that leaf is empty. */
  function MaxRowID<V>(t: Tree<int, V>): Option<int> {
    var cells := LastLeaf(t).cells;
    if cells == [] then None else Some(cells[|cells| - 1].key)
  }

  lemma {:induction false} LastLeafIsSuffix<K, V>(t: Tree<K, V>)
    ensures |LastLeaf(t).cells| <= |Entries(t)|
    ensures Entries(t)[|Entries(t)| - |LastLeaf(t).cells|..] == LastLeaf(t).cells
    decreases t
  {
    if t.Node? {
      var kid := KidOf(t.first, t.kids, |t.kids|);
      LastLeafIsSuffix(kid);
      AroundKid(t.first, t.kids, |t.kids|);
      assert t.kids[|t.kids|..] == [];
      var a, b := LeftOf(t.first, t.kids, |t.kids|), Entries(kid);
      assert Entries(t) == a + b;
      assert (a + b)[|a + b| - |LastLeaf(kid).cells|..] == b[|b| - |LastLeaf(kid).cells|..];
    }
  }

  lemma RowsSorted(t: Tree<int, Payload>, h: nat)
    requires SoundTree(TableLayout(), t, h)
    ensures Sorted(CompareRowid, Entries(t))
  {
    forall a, b, c ensures Chain(CompareRowid, a, b, c) {
    }
    SoundEntries(TableLayout(), t, None, None, h);
  }

  ghost predicate IsGreatest<V>(rows: seq<Cell<int, V>>, id: int) {
    && (exists i :: 0 <= i < |rows| && rows[i].key == id)
    && forall i :: 0 <= i < |rows| ==> rows[i].key <= id
  }

  lemma LastIsGreatest<V>(rows: seq<Cell<int, V>>, tail: seq<Cell<int, V>>)
    requires Sorted(CompareRowid, rows) && 0 < |tail| <= |rows| && rows[|rows| - |tail|..] == tail
    ensures IsGreatest(rows, tail[|tail| - 1].key)
  {
    assert rows[|rows| - |tail|..][|tail| - 1] == rows[|rows| - 1];
    forall i | 0 <= i < |rows| ensures rows[i].key <= rows[|rows| - 1].key {
      if i < |rows| - 1 { assert CompareRowid(rows[i].key, rows[|rows| - 1].key) < 0; }
    }
  }

  lemma GreatestInTail<V>(rows: seq<Cell<int, V>>, t: Tree<int, V>)
    requires Sorted(CompareRowid, rows) && LastLeaf(t).cells != [] && |LastLeaf(t).cells| <= |rows|
    requires rows[|rows| - |LastLeaf(t).cells|..] == LastLeaf(t).cells
    ensures MaxRowID(t).Some? && IsGreatest(rows, MaxRowID(t).value)
  {
    LastIsGreatest(rows, LastLeaf(t).cells);
  }

  /** The rowid found is the greatest in the tree; it is found exactly when the last leaf is not empty. */
  lemma MaxRowIDIsGreatest(t: Tree<int, Payload>, h: nat)
    requires SoundTree(TableLayout(), t, h)
    ensures MaxRowID(t).Some? <==> LastLeaf(t).cells != []
    ensures MaxRowID(t).Some? ==> IsGreatest(Entries(t), MaxRowID(t).value)
  {
    if LastLeaf(t).cells != [] {
      RowsSorted(t, h);
      LastLeafIsSuffix(t);
      GreatestInTail(Entries(t), t);
    }
  }

  /** The last rowid a table considers used when it is attached. */
  function AttachedRowID<V>(t: Tree<int, V>): int {
    match MaxRowID(t) case Some(id) => id case None => 0
  }

  /**
  All the rowids that insertions after an attach will use are free exactly when the last leaf of the
  tree holds a row, or the tree holds none at all.
  */
  lemma FreshRowids(t: Tree<int, Payload>, h: nat)
    requires SoundTree(TableLayout(), t, h)
    requires forall i :: 0 <= i < |Entries(t)| ==> Entries(t)[i].key >= 1
    ensures (forall id :: id > AttachedRowID(t) ==> Absent(CompareRowid, Entries(t), id))
      <==> (LastLeaf(t).cells != [] || Entries(t) == [])
  {
    MaxRowIDIsGreatest(t, h);
    var rows := Entries(t);
    if LastLeaf(t).cells != [] {
      forall id | id > AttachedRowID(t) ensures Absent(CompareRowid, rows, id) {
      }
    } else if rows != [] {
      assert !Absent(CompareRowid, rows, rows[0].key) by { assert CompareRowid(rows[0].key, rows[0].key) == 0; }
      assert rows[0].key > AttachedRowID(t);
    }
  }

  // ---- an attach that gives out a rowid again ----

  /** Three rows inserted into a new tree on page 1. */
  function ThreeRows(x: Cell<int, Payload>, y: Cell<int, Payload>, z: Cell<int, Payload>): Tree<int, Payload> {
    var (one, n) := InsertTree(TableLayout(), Leaf(1, []), x, 2);
    var (two, m) := InsertTree(TableLayout(), one, y, n);
    InsertTree(TableLayout(), two, z, m).0
  }

  /** And then the last two of them deleted. */
  function TwoGone(x: Cell<int, Payload>, y: Cell<int, Payload>, z: Cell<int, Payload>): Tree<int, Payload> {
    DeleteIn(TableLayout(), DeleteIn(TableLayout(), ThreeRows(x, y, z), y.key), z.key)
  }

  /** Rows in order, each half a page long. */
  ghost predicate HalfPages(x: Cell<int, Payload>, y: Cell<int, Payload>, z: Cell<int, Payload>) {
    && x.key < y.key < z.key && LeafSize(x) == LeafSize(y) == LeafSize(z) == 2012
    && Accepts(x) && Accepts(y) && Accepts(z)
  }

  lemma LongSize(id: int)
    ensures LeafSize(LongRow(id)) == 2012 && Accepts(LongRow(id))
  {
    ShortUvarint(2000);
  }

  lemma TotalOfOne<K, V>(size: Cell<K, V> -> nat, a: Cell<K, V>)
    ensures Total(size, [a]) == size(a)
  {
    assert [a][1..] == [];
  }

  /** A leaf that has room takes a cell behind all others. */
  lemma TakesBehind(id: nat, cells: seq<Cell<int, Payload>>, c: Cell<int, Payload>, next: nat)
    requires AllBelow(CompareRowid, cells, c.key) && Total(LeafSize, cells) + LeafSize(c) <= ROOM
    ensures InsertTree(TableLayout(), Leaf(id, cells), c, next) == (Leaf(id, cells + [c]), next)
  {
    InsertLast(CompareRowid, cells, c);
  }

  /** A third cell of half a page behind two others splits their leaf, and the root grows. */
  lemma SplitsBehind(id: nat, x: Cell<int, Payload>, y: Cell<int, Payload>, c: Cell<int, Payload>, next: nat)
    requires x.key < y.key < c.key && LeafSize(x) == LeafSize(y) == LeafSize(c) == 2012
    ensures InsertTree(TableLayout(), Leaf(id, [x, y]), c, next) == (Node(id, Leaf(next + 1, [x]), [Cell(y.key, Leaf(next, [y, c]))]), next + 2)
  {
    var cells := [x, y];
    TotalOfTwo(LeafSize, x, y);
    TotalOfTwo(LeafSize, y, c);
    TotalOfOne(LeafSize, x);
    UpperUnique(CompareRowid, cells, c.key, 2);
    var all := Merged(CompareRowid, cells, c);
    assert all[..1] == [x] && all[1..] == [y, c];
    FillFits(CompareRowid, LeafSize, [x]);
    FillFits(CompareRowid, LeafSize, [y, c]);
    assert InsertIn(TableLayout(), Leaf(id, cells), c, next) == CutLeaf(id, [x], [y, c], next);
    OneSeparator(Leaf(id, [x]), Cell(y.key, Leaf(next, [y, c])), next + 1);
  }

  function CutLeaf(id: nat, a: seq<Cell<int, Payload>>, b: seq<Cell<int, Payload>>, next: nat): Outcome<int, Payload>
    requires b != []
  {
    Outcome(Leaf(id, a), Some(Cell(b[0].key, Leaf(next, b))), next + 1)
  }

  lemma OneSeparator(left: Tree<int, Payload>, c: Cell<int, Tree<int, Payload>>, next: nat)
    ensures GrowRoot(TableLayout(), left, c, next) == Node(left.id, left.(id := next), [c])
  {
    var size := TableLayout().KidSize();
    TotalOfOne(size, c);
    FillFits(CompareRowid, size, [c]);
  }

  /** The only child behind a separator takes what is not less. */
  lemma RouteBehind<V>(kids: seq<Cell<int, Tree<int, V>>>, key: int)
    requires |kids| == 1 && kids[0].key <= key
    ensures Route(CompareRowid, kids, key) == 1
  {
    SlotUnique(CompareRowid, kids, key, if kids[0].key < key then 1 else 0);
  }

  lemma LeafDropsFirst(id: nat, c: Cell<int, Payload>, rest: seq<Cell<int, Payload>>)
    requires Sorted(CompareRowid, rest) && Total(LeafSize, rest) <= ROOM
    ensures DeleteIn(TableLayout(), Leaf(id, [c] + rest), c.key) == Leaf(id, rest)
  {
    SlotUnique(CompareRowid, [c] + rest, c.key, 0);
    assert RemoveAt([c] + rest, 0) == rest;
    FillFits(CompareRowid, LeafSize, rest);
  }

  lemma DeleteStep<K, V>(lay: Layout<K, V>, t: Tree<K, V>, key: K, r: nat)
    requires t.Node? && Route(lay.cmp, t.kids, key) == r
    ensures DeleteIn(lay, t, key) == WithKid(t, r, DeleteIn(lay, KidOf(t.first, t.kids, r), key))
  {
  }

  lemma OnlyKid<K, V>(t: Tree<K, V>, kid: Tree<K, V>)
    requires t.Node? && |t.kids| == 1
    ensures WithKid(t, 1, kid) == Node(t.id, t.first, [Cell(t.kids[0].key, kid)])
  {
    assert t.kids[0 := Cell(t.kids[0].key, kid)] == [Cell(t.kids[0].key, kid)];
  }

  /** The first cell behind the only separator is deleted. */
  lemma DropsFirst(t: Tree<int, Payload>, c: Cell<int, Payload>, rest: seq<Cell<int, Payload>>)
    requires t.Node? && |t.kids| == 1 && t.kids[0].key <= c.key && t.kids[0].val.Leaf? && t.kids[0].val.cells == [c] + rest
    requires Sorted(CompareRowid, rest) && Total(LeafSize, rest) <= ROOM
    ensures DeleteIn(TableLayout(), t, c.key) == Node(t.id, t.first, [Cell(t.kids[0].key, Leaf(t.kids[0].val.id, rest))])
  {
    RouteBehind(t.kids, c.key);
    LeafDropsFirst(t.kids[0].val.id, c, rest);
    DeleteStep(TableLayout(), t, c.key, 1);
    OnlyKid(t, Leaf(t.kids[0].val.id, rest));
  }

  lemma FirstTwoAre(x: Cell<int, Payload>, y: Cell<int, Payload>)
    requires x.key < y.key && LeafSize(x) == LeafSize(y) == 2012
    ensures InsertTree(TableLayout(), Leaf(1, []), x, 2) == (Leaf(1, [x]), 2)
    ensures InsertTree(TableLayout(), Leaf(1, [x]), y, 2) == (Leaf(1, [x, y]), 2)
  {
    hide InsertTree, LeafSize;
    TakesBehind(1, [], x, 2);
    TotalOfOne(LeafSize, x);
    TakesBehind(1, [x], y, 2);
    assert [] + [x] == [x] && [x] + [y] == [x, y];
  }

  lemma ThreeRowsAre(x: Cell<int, Payload>, y: Cell<int, Payload>, z: Cell<int, Payload>)
    requires HalfPages(x, y, z)
    ensures ThreeRows(x, y, z) == InsertTree(TableLayout(), Leaf(1, [x, y]), z, 2).0
    ensures ThreeRows(x, y, z) == Node(1, Leaf(3, [x]), [Cell(y.key, Leaf(2, [y, z]))])
  {
    FirstTwoAre(x, y);
    SplitsBehind(1, x, y, z, 2);
  }

  lemma TwoGoneIs(x: Cell<int, Payload>, y: Cell<int, Payload>, z: Cell<int, Payload>)
    requires HalfPages(x, y, z)
    ensures TwoGone(x, y, z) == Node(1, Leaf(3, [x]), [Cell(y.key, Leaf(2, []))])
  {
    ThreeRowsAre(x, y, z);
    TotalOfOne(LeafSize, z);
    assert [y, z] == [y] + [z] && [z] == [z] + [];
    DropsFirst(ThreeRows(x, y, z), y, [z]);
    DropsFirst(Node(1, Leaf(3, [x]), [Cell(y.key, Leaf(2, [z]))]), z, []);
  }

  lemma TwoGoneIsSound(x: Cell<int, Payload>, y: Cell<int, Payload>, z: Cell<int, Payload>) returns (h: nat)
    requires HalfPages(x, y, z)
    ensures SoundTree(TableLayout(), TwoGone(x, y, z), h)
  {
    h := ThreeRowsAreSound(x, y, z);
    TableUsable();
    hide TableLayout, DeleteIn, ThreeRows, HalfPages;
    DeleteSound(TableLayout(), ThreeRows(x, y, z), y.key, None, None, h);
    DeleteSound(TableLayout(), DeleteIn(TableLayout(), ThreeRows(x, y, z), y.key), z.key, None, None, h);
  }

  lemma ThreeRowsAreSound(x: Cell<int, Payload>, y: Cell<int, Payload>, z: Cell<int, Payload>) returns (h: nat)
    requires HalfPages(x, y, z)
    ensures SoundTree(TableLayout(), ThreeRows(x, y, z), h)
  {
    hide InsertTree, TableLayout, Accepts, LeafSize, ThreeRows, SoundTree;
    EmptyLeafIsSound(1);
    FirstTwoAre(x, y);
    ThreeRowsAre(x, y, z);
    h := OneBehindIsSound(1, [], x, 2, 0);
    h := OneBehindIsSound(1, [x], y, 2, h);
    h := OneBehindIsSound(1, [x, y], z, 2, h);
  }

  lemma EmptyLeafIsSound(id: nat)
    ensures SoundTree(TableLayout(), Leaf(id, []), 0)
  {
  }

  lemma OneBehindIsSound(id: nat, cells: seq<Cell<int, Payload>>, c: Cell<int, Payload>, next: nat, h: nat) returns (h': nat)
    requires SoundTree(TableLayout(), Leaf(id, cells), h) && Accepts(c) && forall i :: 0 <= i < |cells| ==> cells[i].key < c.key
    ensures SoundTree(TableLayout(), InsertTree(TableLayout(), Leaf(id, cells), c, next).0, h')
  {
    h' := KeptIffFits(Leaf(id, cells), c, next, h);
  }

  /** Entries in front of an empty last leaf: the walk to the greatest rowid finds nothing. */
  lemma NothingInLast(id: nat, left: nat, x: Cell<int, Payload>, sep: int, right: nat)
    ensures var t := Node(id, Leaf(left, [x]), [Cell(sep, Leaf(right, []))]);
      Entries(t) == [x] && AttachedRowID(t) == 0
  {
    var t := Node(id, Leaf(left, [x]), [Cell(sep, Leaf(right, []))]);
    assert t.kids[1..] == [];
    assert EntriesOf(t.kids) == Entries(t.kids[0].val) + EntriesOf(t.kids[1..]);
    assert LastLeaf(KidOf(t.first, t.kids, |t.kids|)) == Leaf(right, []);
  }

  /** After an attach the first insertion gets rowid 1, which row x has. */
  lemma ReusesFirst(x: Cell<int, Payload>, y: Cell<int, Payload>, z: Cell<int, Payload>) returns (h: nat)
    requires HalfPages(x, y, z) && x.key == 1
    ensures var t := TwoGone(x, y, z); SoundTree(TableLayout(), t, h) && !Absent(CompareRowid, Entries(t), AttachedRowID(t) + 1)
  {
    h := TwoGoneIsSound(x, y, z);
    TwoGoneIs(x, y, z);
    NothingInLast(1, 3, x, y.key, 2);
    assert CompareRowid([x][0].key, 1) == 0;
  }

  /**
  Three insertions and two deletions leave the last leaf of a table tree empty; the first insertion after
  an attach uses a rowid that is taken.
  */
  lemma AttachCanReuse() returns (h: nat)
    ensures var t := TwoGone(LongRow(1), LongRow(2), LongRow(3));
      SoundTree(TableLayout(), t, h) && !Absent(CompareRowid, Entries(t), AttachedRowID(t) + 1)
  {
    LongSize(1);
    LongSize(2);
    LongSize(3);
    h := ReusesFirst(LongRow(1), LongRow(2), LongRow(3));
  }
}
