/**
B+trees as values. A tree is drawn with the page id of every node, so that the functions here say
which page holds what after an insertion; module Trees keeps the same trees in mutable pages.
*/
module BTree {
  import opened Bytes
  import opened Cells

  /** `first` is the leftmost child; each further child comes with its separator. */
  datatype Tree<K, V> =
    | Leaf(id: nat, cells: seq<Cell<K, V>>)
    | Node(id: nat, first: Tree<K, V>, kids: seq<Cell<K, Tree<K, V>>>)

  /**
  What a tree is told from outside: the order of keys, the bytes that a cell and its pointer take, and
  which cells an insertion accepts at all.
  */
  datatype Layout<!K, !V> = Layout(cmp: (K, K) -> int, leafSize: Cell<K, V> -> nat, sepSize: K -> nat, accepts: Cell<K, V> -> bool)
  {
    function KidSize(): Cell<K, Tree<K, V>> -> nat {
      (c: Cell<K, Tree<K, V>>) => sepSize(c.key)
    }
  }

  function KidOf<K, V>(first: Tree<K, V>, kids: seq<Cell<K, Tree<K, V>>>, i: nat): Tree<K, V>
    requires i <= |kids|
  {
    if i == 0 then first else kids[i - 1].val
  }

  function WithKid<K, V>(t: Tree<K, V>, i: nat, kid: Tree<K, V>): Tree<K, V>
    requires t.Node? && i <= |t.kids|
  {
    if i == 0 then t.(first := kid) else t.(kids := t.kids[i - 1 := Cell(t.kids[i - 1].key, kid)])
  }

  /** The entries of a tree, in key order. */
  function Entries<K, V>(t: Tree<K, V>): seq<Cell<K, V>> {
    match t
    case Leaf(_, cells) => cells
    case Node(_, first, kids) => Entries(first) + EntriesOf(kids)
  }

  function EntriesOf<K, V>(kids: seq<Cell<K, Tree<K, V>>>): seq<Cell<K, V>> {
    if kids == [] then []
    else
      var kid := kids[0];
      assert kid.val < kid;
      Entries(kid.val) + EntriesOf(kids[1..])
  }

  // ---- insertion ----

  /** The child whose subtree a key belongs to. */
  function Route<K, V>(cmp: (K, K) -> int, kids: seq<Cell<K, Tree<K, V>>>, key: K): (i: nat)
    ensures i <= |kids|
  {
    Slot(cmp, kids, key) + if Found(cmp, kids, key) then 1 else 0
  }

  /** The leaf that a key belongs on. */
  function LeafFor<K, V>(cmp: (K, K) -> int, t: Tree<K, V>, key: K): (leaf: Tree<K, V>)
    ensures leaf.Leaf?
    decreases t
  {
    match t
    case Leaf(_, _) => t
    case Node(_, first, kids) => LeafFor(cmp, KidOf(first, kids, Route(cmp, kids, key)), key)
  }

  /** `split` is the separator and the new right neighbour when the node was split; `next` the next free page. */
  datatype Outcome<K, V> = Outcome(tree: Tree<K, V>, split: Option<Cell<K, Tree<K, V>>>, next: nat)

  /** The cells of a full page with one more among them. */
  function Merged<K, V>(cmp: (K, K) -> int, cells: seq<Cell<K, V>>, c: Cell<K, V>): (r: seq<Cell<K, V>>)
    ensures |r| == |cells| + 1
  {
    InsertAt(cells, Upper(cmp, cells, c.key), c)
  }

  function SplitLeaf<K, V>(lay: Layout<K, V>, id: nat, cells: seq<Cell<K, V>>, c: Cell<K, V>, next: nat): Outcome<K, V> {
    var all := Merged(lay.cmp, cells, c);
    var mid := |all| / 2;
    Outcome(Leaf(id, Fill(lay.cmp, lay.leafSize, all[..mid])),
            Some(Cell(all[mid].key, Leaf(next, Fill(lay.cmp, lay.leafSize, all[mid..])))),
            next + 1)
  }

  function SplitNode<K, V>(lay: Layout<K, V>, t: Tree<K, V>, c: Cell<K, Tree<K, V>>, next: nat): Outcome<K, V>
    requires t.Node?
  {
    var all := Merged(lay.cmp, t.kids, c);
    var mid := |all| / 2;
    Outcome(Node(t.id, t.first, Fill(lay.cmp, lay.KidSize(), all[..mid])),
            Some(Cell(all[mid].key, Node(next, all[mid].val, Fill(lay.cmp, lay.KidSize(), all[mid + 1..])))),
            next + 1)
  }

  /** A node after one of its children was split. */
  function AddKid<K, V>(lay: Layout<K, V>, t: Tree<K, V>, c: Cell<K, Tree<K, V>>, next: nat): Outcome<K, V>
    requires t.Node?
  {
    match TryInsert(lay.cmp, lay.KidSize(), t.kids, c)
    case Some(kids) => Outcome(t.(kids := kids), None, next)
    case None => SplitNode(lay, t, c, next)
  }

  function InsertIn<K, V>(lay: Layout<K, V>, t: Tree<K, V>, c: Cell<K, V>, next: nat): Outcome<K, V>
    decreases t
  {
    match t
    case Leaf(id, cells) =>
      (match TryInsert(lay.cmp, lay.leafSize, cells, c)
       case Some(more) => Outcome(Leaf(id, more), None, next)
       case None => SplitLeaf(lay, id, cells, c, next))
    case Node(id, first, kids) =>
      var r := Route(lay.cmp, kids, c.key);
      var sub := InsertIn(lay, KidOf(first, kids, r), c, next);
      var t' := WithKid(t, r, sub.tree);
      if sub.split.None? then Outcome(t', None, sub.next) else AddKid(lay, t', sub.split.value, sub.next)
  }

  /** The root keeps its page: when it splits, its left half moves to a new page below it. */
  function GrowRoot<K, V>(lay: Layout<K, V>, left: Tree<K, V>, c: Cell<K, Tree<K, V>>, next: nat): Tree<K, V> {
    Node(left.id, left.(id := next), Fill(lay.cmp, lay.KidSize(), [c]))
  }

  function InsertTree<K, V>(lay: Layout<K, V>, t: Tree<K, V>, c: Cell<K, V>, next: nat): (Tree<K, V>, nat) {
    var o := InsertIn(lay, t, c, next);
    if o.split.None? then (o.tree, o.next) else (GrowRoot(lay, o.tree, o.split.value, o.next), o.next + 1)
  }

  // ---- well-formed trees ----

  predicate AtLeast<K>(cmp: (K, K) -> int, key: K, lo: Option<K>) {
    lo.Some? ==> cmp(lo.value, key) <= 0
  }

  predicate Under<K>(cmp: (K, K) -> int, key: K, hi: Option<K>) {
    hi.Some? ==> cmp(key, hi.value) < 0
  }

  ghost predicate Within<K, V>(cmp: (K, K) -> int, cells: seq<Cell<K, V>>, lo: Option<K>, hi: Option<K>) {
    forall i :: 0 <= i < |cells| ==> AtLeast(cmp, cells[i].key, lo) && Under(cmp, cells[i].key, hi)
  }

  function Lower<K, V>(kids: seq<Cell<K, V>>, i: nat, lo: Option<K>): Option<K>
    requires i <= |kids|
  {
    if i == 0 then lo else Some(kids[i - 1].key)
  }

  function Higher<K, V>(kids: seq<Cell<K, V>>, i: nat, hi: Option<K>): Option<K>
    requires i <= |kids|
  {
    if i == |kids| then hi else Some(kids[i].key)
  }

  /** The order is an order, and every accepted cell has room on an empty page, as has its key. */
  ghost predicate Usable<K(!new), V(!new)>(lay: Layout<K, V>) {
    && TotalPreorder(lay.cmp)
    && forall c :: lay.accepts(c) ==> lay.leafSize(c) <= ROOM && lay.sepSize(c.key) <= ROOM
  }

  /** The most that a payload length takes, less the least: the guard counts with the most. */
  const LENGTH_SLACK := 9

  /** A cell is refused only if it would not be sure of room on an empty page with the longest payload length. */
  ghost predicate Generous<K(!new), V(!new)>(lay: Layout<K, V>) {
    forall c :: !lay.accepts(c) ==> lay.leafSize(c) + LENGTH_SLACK > PAGE_SIZE - 10
  }

  /** Children of height h whose keys the separators keep apart, all of them between lo and hi. */
  ghost predicate SoundKids<K, V>(lay: Layout<K, V>, first: Tree<K, V>, kids: seq<Cell<K, Tree<K, V>>>,
                                  lo: Option<K>, hi: Option<K>, h: nat)
    decreases h, 1
  {
    && Sorted(lay.cmp, kids)
    && Within(lay.cmp, kids, lo, hi)
    && forall i :: 0 <= i <= |kids| ==> Sound(lay, KidOf(first, kids, i), Lower(kids, i, lo), Higher(kids, i, hi), h)
  }

  /**
  All leaves at depth h, every page sorted and within its size, every key within the bounds that the
  separators above it set.
  */
  ghost predicate Sound<K, V>(lay: Layout<K, V>, t: Tree<K, V>, lo: Option<K>, hi: Option<K>, h: nat)
    decreases h, 0
  {
    match t
    case Leaf(_, cells) =>
      && h == 0 && Sorted(lay.cmp, cells) && Within(lay.cmp, cells, lo, hi)
      && Total(lay.leafSize, cells) <= ROOM && forall i :: 0 <= i < |cells| ==> lay.accepts(cells[i])
    case Node(_, first, kids) =>
      h > 0 && SoundKids(lay, first, kids, lo, hi, h - 1) && Total(lay.KidSize(), kids) <= ROOM
  }

  // ---- the entries of a tree ----

  lemma {:induction false} EntriesOfAppend<K, V>(a: seq<Cell<K, Tree<K, V>>>, b: seq<Cell<K, Tree<K, V>>>)
    ensures EntriesOf(a + b) == EntriesOf(a) + EntriesOf(b)
  {
    if a == [] {
      assert a + b == b;
    } else {
      assert (a + b)[1..] == a[1..] + b;
      EntriesOfAppend(a[1..], b);
    }
  }

  function AllEntries<K, V>(first: Tree<K, V>, kids: seq<Cell<K, Tree<K, V>>>): seq<Cell<K, V>> {
    Entries(first) + EntriesOf(kids)
  }

  /** The entries to the left and to the right of child r. */
  function LeftOf<K, V>(first: Tree<K, V>, kids: seq<Cell<K, Tree<K, V>>>, r: nat): seq<Cell<K, V>>
    requires r <= |kids|
  {
    if r == 0 then [] else AllEntries(first, kids[..r - 1])
  }

  function RightOf<K, V>(kids: seq<Cell<K, Tree<K, V>>>, r: nat): seq<Cell<K, V>>
    requires r <= |kids|
  {
    EntriesOf(kids[r..])
  }

  lemma AroundKid<K, V>(first: Tree<K, V>, kids: seq<Cell<K, Tree<K, V>>>, r: nat)
    requires r <= |kids|
    ensures AllEntries(first, kids) == LeftOf(first, kids, r) + Entries(KidOf(first, kids, r)) + RightOf(kids, r)
  {
    if r == 0 {
      assert kids[0..] == kids;
    } else {
      var k := kids[r - 1];
      assert kids == kids[..r - 1] + ([k] + kids[r..]);
      EntriesOfAppend(kids[..r - 1], [k] + kids[r..]);
      assert ([k] + kids[r..])[1..] == kids[r..];
    }
  }

  lemma ConcatSorted<K(!new), V>(cmp: (K, K) -> int, a: seq<Cell<K, V>>, b: seq<Cell<K, V>>, m: K)
    requires TotalPreorder(cmp) && Sorted(cmp, a) && Sorted(cmp, b)
    requires Within(cmp, a, None, Some(m)) && Within(cmp, b, Some(m), None)
    ensures Sorted(cmp, a + b)
  {
    var all := a + b;
    forall i, j | 0 <= i < j < |all| ensures cmp(all[i].key, all[j].key) < 0 {
      if i < |a| <= j {
        assert Chain(cmp, a[i].key, m, b[j - |a|].key);
      }
    }
  }

  /** Bounds may be widened. */
  lemma Widen<K(!new), V>(cmp: (K, K) -> int, cells: seq<Cell<K, V>>, lo: Option<K>, hi: Option<K>, lo': Option<K>, hi': Option<K>)
    requires TotalPreorder(cmp) && Within(cmp, cells, lo, hi)
    requires lo == lo' || lo' == None || (lo.Some? && cmp(lo'.value, lo.value) <= 0)
    requires hi == hi' || hi' == None || (hi.Some? && cmp(hi.value, hi'.value) <= 0)
    ensures Within(cmp, cells, lo', hi')
  {
    forall i | 0 <= i < |cells| ensures AtLeast(cmp, cells[i].key, lo') && Under(cmp, cells[i].key, hi') {
      if lo.Some? && lo'.Some? { assert Chain(cmp, lo'.value, lo.value, cells[i].key); }
      if hi.Some? && hi'.Some? { assert Chain(cmp, cells[i].key, hi.value, hi'.value); }
    }
  }

  /** The entries of a sound tree form a sorted map within the bounds of the tree. */
  lemma {:induction false} SoundEntries<K(!new), V>(lay: Layout<K, V>, t: Tree<K, V>, lo: Option<K>, hi: Option<K>, h: nat)
    requires TotalPreorder(lay.cmp) && Sound(lay, t, lo, hi, h)
    ensures Sorted(lay.cmp, Entries(t)) && Within(lay.cmp, Entries(t), lo, hi)
    decreases h, 0
  {
    if t.Node? {
      KidsEntries(lay, t.first, t.kids, |t.kids|, lo, hi, h - 1);
      assert t.kids[..|t.kids|] == t.kids;
    }
  }

  lemma {:induction false} KidsEntries<K(!new), V>(lay: Layout<K, V>, first: Tree<K, V>, kids: seq<Cell<K, Tree<K, V>>>, i: nat,
                                                   lo: Option<K>, hi: Option<K>, h: nat)
    requires TotalPreorder(lay.cmp) && SoundKids(lay, first, kids, lo, hi, h) && i <= |kids|
    ensures Sorted(lay.cmp, AllEntries(first, kids[..i]))
    ensures Within(lay.cmp, AllEntries(first, kids[..i]), lo, Higher(kids, i, hi))
    decreases h, 1, i
  {
    var cmp := lay.cmp;
    SoundEntries(lay, KidOf(first, kids, i), Lower(kids, i, lo), Higher(kids, i, hi), h);
    if i == 0 {
      assert AllEntries(first, kids[..0]) == Entries(first);
    } else {
      var k := kids[i - 1];
      KidsEntries(lay, first, kids, i - 1, lo, hi, h);
      assert kids[i - 1].key == k.key && (i < |kids| ==> lay.cmp(k.key, kids[i].key) < 0);
      EntriesSnoc(first, kids, i - 1);
      JoinAt(cmp, AllEntries(first, kids[..i - 1]), Entries(k.val), k.key, lo, Higher(kids, i, hi));
    }
  }

  lemma EntriesSnoc<K, V>(first: Tree<K, V>, kids: seq<Cell<K, Tree<K, V>>>, i: nat)
    requires i < |kids|
    ensures AllEntries(first, kids[..i + 1]) == AllEntries(first, kids[..i]) + Entries(kids[i].val)
  {
    var k := kids[i];
    assert kids[..i + 1] == kids[..i] + [k];
    EntriesOfAppend(kids[..i], [k]);
    assert EntriesOf([k]) == Entries(k.val) by { assert [k][1..] == []; }
  }

  /** Two pieces of a map on the two sides of a separator. */
  lemma JoinAt<K(!new), V>(cmp: (K, K) -> int, a: seq<Cell<K, V>>, b: seq<Cell<K, V>>, m: K, lo: Option<K>, hi: Option<K>)
    requires TotalPreorder(cmp) && Sorted(cmp, a) && Sorted(cmp, b)
    requires Within(cmp, a, lo, Some(m)) && Within(cmp, b, Some(m), hi)
    requires AtLeast(cmp, m, lo) && Under(cmp, m, hi)
    ensures Sorted(cmp, a + b) && Within(cmp, a + b, lo, hi)
  {
    Widen(cmp, a, lo, Some(m), None, Some(m));
    Widen(cmp, b, Some(m), hi, Some(m), None);
    ConcatSorted(cmp, a, b, m);
    Widen(cmp, a, lo, Some(m), lo, hi);
    Widen(cmp, b, Some(m), hi, lo, hi);
  }

  lemma {:induction false} TailEntries<K(!new), V>(lay: Layout<K, V>, first: Tree<K, V>, kids: seq<Cell<K, Tree<K, V>>>, i: nat,
                                                   lo: Option<K>, hi: Option<K>, h: nat)
    requires TotalPreorder(lay.cmp) && SoundKids(lay, first, kids, lo, hi, h) && i < |kids|
    ensures Within(lay.cmp, EntriesOf(kids[i..]), Some(kids[i].key), hi)
    decreases |kids| - i
  {
    var k := kids[i];
    SoundEntries(lay, KidOf(first, kids, i + 1), Some(k.key), Higher(kids, i + 1, hi), h);
    Widen(lay.cmp, Entries(k.val), Some(k.key), Higher(kids, i + 1, hi), Some(k.key), hi);
    assert kids[i..][1..] == kids[i + 1..];
    if i + 1 < |kids| {
      TailEntries(lay, first, kids, i + 1, lo, hi, h);
      Widen(lay.cmp, EntriesOf(kids[i + 1..]), Some(kids[i + 1].key), hi, Some(k.key), hi);
    }
  }

  // ---- routing ----

  /** A key is routed between the separators it lies between. */
  lemma RouteBetween<K(!new), V>(cmp: (K, K) -> int, kids: seq<Cell<K, Tree<K, V>>>, key: K)
    requires TotalPreorder(cmp) && Sorted(cmp, kids)
    ensures var r := Route(cmp, kids, key);
      && (forall j :: 0 <= j < r ==> cmp(kids[j].key, key) <= 0)
      && (forall j :: r <= j < |kids| ==> cmp(kids[j].key, key) > 0)
  {
    TailAbove(cmp, kids, key);
  }

  /** All entries outside the child a key is routed to are strictly on their own side of the key. */
  lemma {:induction false} RouteIsolates<K(!new), V>(lay: Layout<K, V>, first: Tree<K, V>, kids: seq<Cell<K, Tree<K, V>>>, key: K,
                                  lo: Option<K>, hi: Option<K>, h: nat)
    requires TotalPreorder(lay.cmp) && SoundKids(lay, first, kids, lo, hi, h)
    ensures var r := Route(lay.cmp, kids, key);
      AllBelow(lay.cmp, LeftOf(first, kids, r), key) && AllAbove(lay.cmp, RightOf(kids, r), key)
  {
    var r := Route(lay.cmp, kids, key);
    RouteBetween(lay.cmp, kids, key);
    if r > 0 {
      KidsEntries(lay, first, kids, r - 1, lo, hi, h);
      var a := LeftOf(first, kids, r);
      forall i | 0 <= i < |a| ensures lay.cmp(a[i].key, key) < 0 {
        assert Chain(lay.cmp, a[i].key, kids[r - 1].key, key);
      }
    }
    if r < |kids| {
      TailEntries(lay, first, kids, r, lo, hi, h);
      var b := RightOf(kids, r);
      forall i | 0 <= i < |b| ensures lay.cmp(b[i].key, key) > 0 {
        assert Chain(lay.cmp, key, kids[r].key, b[i].key);
      }
    }
  }

  // ---- when an insertion loses nothing ----

  /** Both halves of an overfull leaf have room for their cells. */
  predicate LeafFits<K, V>(lay: Layout<K, V>, cells: seq<Cell<K, V>>, c: Cell<K, V>) {
    var all := Merged(lay.cmp, cells, c);
    || Total(lay.leafSize, cells) + lay.leafSize(c) <= ROOM
    || (Total(lay.leafSize, all[..|all| / 2]) <= ROOM && Total(lay.leafSize, all[|all| / 2..]) <= ROOM)
  }

  /** Both halves of an overfull interior page have room for their separators; the median moves up. */
  predicate KidsFit<K, V>(lay: Layout<K, V>, kids: seq<Cell<K, Tree<K, V>>>, c: Cell<K, Tree<K, V>>) {
    var all := Merged(lay.cmp, kids, c);
    || Total(lay.KidSize(), kids) + lay.sepSize(c.key) <= ROOM
    || (Total(lay.KidSize(), all[..|all| / 2]) <= ROOM && Total(lay.KidSize(), all[|all| / 2 + 1..]) <= ROOM)
  }

  /** Every interior page that the insertion splits splits into halves that fit. */
  predicate SepsFit<K, V>(lay: Layout<K, V>, t: Tree<K, V>, c: Cell<K, V>, next: nat)
    decreases t
  {
    match t
    case Leaf(_, _) => true
    case Node(_, first, kids) =>
      var r := Route(lay.cmp, kids, c.key);
      var sub := InsertIn(lay, KidOf(first, kids, r), c, next);
      && SepsFit(lay, KidOf(first, kids, r), c, next)
      && (sub.split.Some? ==> KidsFit(lay, WithKid(t, r, sub.tree).kids, sub.split.value))
  }

  /** What an insertion into a leaf leaves: split by count, the halves drop what they have no room for. */
  function LeafAfter<K, V>(lay: Layout<K, V>, cells: seq<Cell<K, V>>, c: Cell<K, V>): seq<Cell<K, V>> {
    var all := Merged(lay.cmp, cells, c);
    if Total(lay.leafSize, cells) + lay.leafSize(c) <= ROOM then Insert(lay.cmp, cells, c)
    else Fill(lay.cmp, lay.leafSize, all[..|all| / 2]) + Fill(lay.cmp, lay.leafSize, all[|all| / 2..])
  }

  /** The entries of a tree once the leaf that a cell belongs on has taken it, or split and taken what it could. */
  function EntriesAfter<K, V>(lay: Layout<K, V>, t: Tree<K, V>, c: Cell<K, V>): seq<Cell<K, V>>
    decreases t
  {
    match t
    case Leaf(_, cells) => LeafAfter(lay, cells, c)
    case Node(_, first, kids) =>
      var r := Route(lay.cmp, kids, c.key);
      LeftOf(first, kids, r) + EntriesAfter(lay, KidOf(first, kids, r), c) + RightOf(kids, r)
  }

  // ---- insertion ----

  /** The two halves of a split node on the two sides of their separator. */
  ghost predicate Halves<K, V>(lay: Layout<K, V>, entries: seq<Cell<K, V>>, left: Tree<K, V>, s: Cell<K, Tree<K, V>>,
                               lo: Option<K>, hi: Option<K>, h: nat) {
    && Sound(lay, left, lo, Some(s.key), h) && Sound(lay, s.val, Some(s.key), hi, h)
    && (lo.Some? ==> lay.cmp(lo.value, s.key) < 0) && Under(lay.cmp, s.key, hi)
    && lay.sepSize(s.key) <= ROOM
    && Entries(left) + Entries(s.val) == entries
  }

  /** What an insertion into a subtree with bounds lo and hi gives back, when `after` are the entries then. */
  ghost predicate Inserted<K(!new), V(!new)>(lay: Layout<K, V>, after: seq<Cell<K, V>>, o: Outcome<K, V>,
                                 lo: Option<K>, hi: Option<K>, h: nat) {
    && (o.split.None? ==> Sound(lay, o.tree, lo, hi, h) && Entries(o.tree) == after)
    && (forall s :: o.split == Some(s) ==> Halves(lay, after, o.tree, s, lo, hi, h))
  }

  ghost predicate Accepted<K, V>(lay: Layout<K, V>, cells: seq<Cell<K, V>>) {
    forall i :: 0 <= i < |cells| ==> lay.accepts(cells[i])
  }

  /** A sorted page cut in two at m. */
  lemma CutSorted<K(!new), V>(cmp: (K, K) -> int, cells: seq<Cell<K, V>>, m: nat, lo: Option<K>, hi: Option<K>)
    requires TotalPreorder(cmp) && Sorted(cmp, cells) && Within(cmp, cells, lo, hi) && 0 < m < |cells|
    ensures Sorted(cmp, cells[..m]) && Sorted(cmp, cells[m..])
    ensures Within(cmp, cells[..m], lo, Some(cells[m].key)) && Within(cmp, cells[m..], Some(cells[m].key), hi)
    ensures lo.Some? ==> cmp(lo.value, cells[m].key) < 0
  {
    assert cmp(cells[0].key, cells[m].key) < 0;
    assert Chain(cmp, cells[m].key, cells[m].key, cells[m].key);
    if lo.Some? {
      assert Chain(cmp, lo.value, cells[0].key, cells[m].key);
    }
  }

  /** The cells of a sound leaf with one more among them: sorted, within bounds, accepted. */
  lemma MergedLeaf<K(!new), V(!new)>(lay: Layout<K, V>, cells: seq<Cell<K, V>>, c: Cell<K, V>, lo: Option<K>, hi: Option<K>)
    requires Usable(lay) && Sorted(lay.cmp, cells) && Within(lay.cmp, cells, lo, hi) && Accepted(lay, cells)
    requires AtLeast(lay.cmp, c.key, lo) && Under(lay.cmp, c.key, hi) && lay.accepts(c)
    requires Absent(lay.cmp, cells, c.key)
    ensures var all := Merged(lay.cmp, cells, c);
      && all == Insert(lay.cmp, cells, c)
      && Sorted(lay.cmp, all) && Within(lay.cmp, all, lo, hi) && Accepted(lay, all)
      && Total(lay.leafSize, all) == Total(lay.leafSize, cells) + lay.leafSize(c)
  {
    InsertSorted(lay.cmp, cells, c);
    TotalInsertAt(lay.leafSize, cells, Slot(lay.cmp, cells, c.key), c);
  }

  lemma LeafInsert<K(!new), V(!new)>(lay: Layout<K, V>, id: nat, cells: seq<Cell<K, V>>, c: Cell<K, V>, next: nat,
                                     lo: Option<K>, hi: Option<K>, o: Outcome<K, V>)
    requires Usable(lay) && Sound(lay, Leaf(id, cells), lo, hi, 0) && o == InsertIn(lay, Leaf(id, cells), c, next)
    requires AtLeast(lay.cmp, c.key, lo) && Under(lay.cmp, c.key, hi) && lay.accepts(c)
    requires Absent(lay.cmp, cells, c.key)
    ensures Inserted(lay, LeafAfter(lay, cells, c), o, lo, hi, 0)
  {
    MergedLeaf(lay, cells, c, lo, hi);
    if Total(lay.leafSize, cells) + lay.leafSize(c) > ROOM {
      LeafSplits(lay, id, cells, c, next, lo, hi, o);
    } else {
      assert o == Outcome(Leaf(id, Insert(lay.cmp, cells, c)), None, next);
    }
  }

  /** Whatever the halves have to drop, they are sound leaves on the two sides of the separator. */
  lemma {:induction false} LeafSplits<K(!new), V(!new)>(lay: Layout<K, V>, id: nat, cells: seq<Cell<K, V>>, c: Cell<K, V>, next: nat,
                                     lo: Option<K>, hi: Option<K>, o: Outcome<K, V>)
    requires Usable(lay) && o == SplitLeaf(lay, id, cells, c, next) && lay.accepts(c)
    requires Total(lay.leafSize, cells) + lay.leafSize(c) > ROOM
    requires var all := Merged(lay.cmp, cells, c);
      Sorted(lay.cmp, all) && Within(lay.cmp, all, lo, hi) && Accepted(lay, all)
    ensures Inserted(lay, LeafAfter(lay, cells, c), o, lo, hi, 0)
  {
    assert cells != [];
    var all, mid := Merged(lay.cmp, cells, c), |Merged(lay.cmp, cells, c)| / 2;
    CutSorted(lay.cmp, all, mid, lo, hi);
    SepFound(lay, all, mid, lo, hi);
    HalfSound(lay, id, all[..mid], lo, Some(all[mid].key));
    HalfSound(lay, next, all[mid..], Some(all[mid].key), hi);
  }

  lemma HalfSound<K(!new), V(!new)>(lay: Layout<K, V>, id: nat, part: seq<Cell<K, V>>, lo: Option<K>, hi: Option<K>)
    requires Sorted(lay.cmp, part) && Within(lay.cmp, part, lo, hi) && Accepted(lay, part)
    ensures Sound(lay, Leaf(id, Fill(lay.cmp, lay.leafSize, part)), lo, hi, 0)
  {
    var page := Fill(lay.cmp, lay.leafSize, part);
    FillSorted(lay.cmp, lay.leafSize, part);
    FillDrops(lay.cmp, lay.leafSize, part);
    forall i | 0 <= i < |page| ensures AtLeast(lay.cmp, page[i].key, lo) && Under(lay.cmp, page[i].key, hi) && lay.accepts(page[i]) {
      assert page[i] in page;
      var j :| 0 <= j < |part| && part[j] == page[i];
    }
  }

  lemma LeafKeepsCount<K, V>(lay: Layout<K, V>, cells: seq<Cell<K, V>>, c: Cell<K, V>)
    ensures |LeafAfter(lay, cells, c)| <= |cells| + 1
    ensures !LeafFits(lay, cells, c) ==> |LeafAfter(lay, cells, c)| < |cells| + 1
  {
    var all, mid := Merged(lay.cmp, cells, c), |Merged(lay.cmp, cells, c)| / 2;
    FillDrops(lay.cmp, lay.leafSize, all[..mid]);
    FillDrops(lay.cmp, lay.leafSize, all[mid..]);
  }

  lemma HalvesKeepAll<K, V>(cmp: (K, K) -> int, size: Cell<K, V> -> nat, all: seq<Cell<K, V>>, mid: nat)
    requires Sorted(cmp, all) && mid <= |all| && Total(size, all[..mid]) <= ROOM && Total(size, all[mid..]) <= ROOM
    ensures Fill(cmp, size, all[..mid]) + Fill(cmp, size, all[mid..]) == all
  {
    FillPrefix(cmp, size, all, mid);
    FillSuffix(cmp, size, all, mid);
  }

  lemma LeafKeepsAll<K(!new), V>(lay: Layout<K, V>, cells: seq<Cell<K, V>>, c: Cell<K, V>)
    requires TotalPreorder(lay.cmp) && Sorted(lay.cmp, cells) && Absent(lay.cmp, cells, c.key) && LeafFits(lay, cells, c)
    ensures LeafAfter(lay, cells, c) == Insert(lay.cmp, cells, c)
  {
    InsertSorted(lay.cmp, cells, c);
    var all := Merged(lay.cmp, cells, c);
    if Total(lay.leafSize, cells) + lay.leafSize(c) > ROOM {
      HalvesKeepAll(lay.cmp, lay.leafSize, all, |all| / 2);
    }
  }

  lemma SepFound<K(!new), V(!new)>(lay: Layout<K, V>, all: seq<Cell<K, V>>, mid: nat, lo: Option<K>, hi: Option<K>)
    requires Usable(lay) && Sorted(lay.cmp, all) && Within(lay.cmp, all, lo, hi) && Accepted(lay, all) && 0 < mid < |all|
    ensures (lo.Some? ==> lay.cmp(lo.value, all[mid].key) < 0) && Under(lay.cmp, all[mid].key, hi)
    ensures lay.sepSize(all[mid].key) <= ROOM
  {
    CutSorted(lay.cmp, all, mid, lo, hi);
    assert lay.accepts(all[mid]);
  }

  // ---- insertion into a node ----

  lemma KidReplaced<K(!new), V>(lay: Layout<K, V>, first: Tree<K, V>, kids: seq<Cell<K, Tree<K, V>>>, r: nat, kid: Tree<K, V>,
                                lo: Option<K>, hi: Option<K>, h: nat)
    requires SoundKids(lay, first, kids, lo, hi, h) && r <= |kids|
    requires Sound(lay, kid, Lower(kids, r, lo), Higher(kids, r, hi), h)
    ensures var t := WithKid(Node(0, first, kids), r, kid); SoundKids(lay, t.first, t.kids, lo, hi, h)
  {
    var t := WithKid(Node(0, first, kids), r, kid);
    forall i | 0 <= i <= |kids| ensures Sound(lay, KidOf(t.first, t.kids, i), Lower(t.kids, i, lo), Higher(t.kids, i, hi), h) {
      assert Lower(t.kids, i, lo) == Lower(kids, i, lo) && Higher(t.kids, i, hi) == Higher(kids, i, hi);
      assert KidOf(t.first, t.kids, i) == if i == r then kid else KidOf(first, kids, i);
    }
  }

  lemma SizeReplaced<K, V>(lay: Layout<K, V>, t: Tree<K, V>, r: nat, kid: Tree<K, V>)
    requires t.Node? && r <= |t.kids|
    ensures Total(lay.KidSize(), WithKid(t, r, kid).kids) == Total(lay.KidSize(), t.kids)
  {
    if r > 0 {
      var a, k, b := t.kids[..r - 1], t.kids[r - 1], t.kids[r..];
      assert t.kids == a + [k] + b && WithKid(t, r, kid).kids == a + [Cell(k.key, kid)] + b;
      TotalAppend(lay.KidSize(), a + [k], b);
      TotalSnoc(lay.KidSize(), a, k);
      TotalAppend(lay.KidSize(), a + [Cell(k.key, kid)], b);
      TotalSnoc(lay.KidSize(), a, Cell(k.key, kid));
    }
  }

  /** A separator between the bounds of child r goes behind exactly r others. */
  lemma {:induction false} SepSlot<K(!new), V>(cmp: (K, K) -> int, kids: seq<Cell<K, V>>, r: nat, key: K, lo: Option<K>, hi: Option<K>)
    requires TotalPreorder(cmp) && Sorted(cmp, kids) && r <= |kids|
    requires r > 0 ==> cmp(kids[r - 1].key, key) < 0
    requires r < |kids| ==> cmp(key, kids[r].key) < 0
    ensures forall j :: 0 <= j < r ==> cmp(kids[j].key, key) < 0
    ensures forall j :: r <= j < |kids| ==> cmp(key, kids[j].key) < 0
    ensures Slot(cmp, kids, key) == Upper(cmp, kids, key) == r
  {
    forall j | 0 <= j < r ensures cmp(kids[j].key, key) < 0 {
      if j < r - 1 { assert Chain(cmp, kids[j].key, kids[r - 1].key, key); }
    }
    forall j | r <= j < |kids| ensures cmp(key, kids[j].key) < 0 {
      if j > r { assert Chain(cmp, key, kids[r].key, kids[j].key); }
    }
    Flip(cmp, kids, key);
    SlotUnique(cmp, kids, key, r);
    UpperUnique(cmp, kids, key, r);
  }

  /** A new child after child r, behind a separator that lies between the bounds of child r. */
  lemma KidAdded<K(!new), V>(lay: Layout<K, V>, first: Tree<K, V>, kids: seq<Cell<K, Tree<K, V>>>, r: nat, c: Cell<K, Tree<K, V>>,
                             lo: Option<K>, hi: Option<K>, h: nat)
    requires TotalPreorder(lay.cmp) && Sorted(lay.cmp, kids) && Within(lay.cmp, kids, lo, hi) && r <= |kids|
    requires forall i :: 0 <= i <= |kids| && i != r ==> Sound(lay, KidOf(first, kids, i), Lower(kids, i, lo), Higher(kids, i, hi), h)
    requires Sound(lay, KidOf(first, kids, r), Lower(kids, r, lo), Some(c.key), h) && Sound(lay, c.val, Some(c.key), Higher(kids, r, hi), h)
    requires Lower(kids, r, lo).Some? ==> lay.cmp(Lower(kids, r, lo).value, c.key) < 0
    requires Under(lay.cmp, c.key, Higher(kids, r, hi))
    ensures SoundKids(lay, first, InsertAt(kids, r, c), lo, hi, h)
  {
    var all := InsertAt(kids, r, c);
    SepSlot(lay.cmp, kids, r, c.key, lo, hi);
    InsertKeepsSorted(lay.cmp, kids, r, c);
    SepWithin(lay.cmp, kids, r, c.key, lo, hi);
    WithinInsert(lay.cmp, kids, r, c, lo, hi);
    forall i | 0 <= i <= |all| ensures Sound(lay, KidOf(first, all, i), Lower(all, i, lo), Higher(all, i, hi), h) {
      KidShifted(first, kids, r, c, i, lo, hi);
    }
  }

  lemma WithinInsert<K, V>(cmp: (K, K) -> int, kids: seq<Cell<K, V>>, r: nat, c: Cell<K, V>, lo: Option<K>, hi: Option<K>)
    requires Within(cmp, kids, lo, hi) && r <= |kids| && AtLeast(cmp, c.key, lo) && Under(cmp, c.key, hi)
    ensures Within(cmp, InsertAt(kids, r, c), lo, hi)
  {
  }

  /** Which child, between which bounds, stands at position i after a child was added after child r. */
  lemma KidShifted<K, V>(first: Tree<K, V>, kids: seq<Cell<K, Tree<K, V>>>, r: nat, c: Cell<K, Tree<K, V>>, i: nat,
                         lo: Option<K>, hi: Option<K>)
    requires r <= |kids| && i <= |kids| + 1
    ensures var all := InsertAt(kids, r, c);
      && KidOf(first, all, i) == (if i <= r then KidOf(first, kids, i) else if i == r + 1 then c.val else KidOf(first, kids, i - 1))
      && Lower(all, i, lo) == (if i <= r then Lower(kids, i, lo) else if i == r + 1 then Some(c.key) else Lower(kids, i - 1, lo))
      && Higher(all, i, hi) == (if i < r then Higher(kids, i, hi) else if i == r then Some(c.key) else Higher(kids, i - 1, hi))
  {
  }

  lemma SepWithin<K(!new), V>(cmp: (K, K) -> int, kids: seq<Cell<K, V>>, r: nat, key: K, lo: Option<K>, hi: Option<K>)
    requires TotalPreorder(cmp) && Sorted(cmp, kids) && Within(cmp, kids, lo, hi) && r <= |kids|
    requires Lower(kids, r, lo).Some? ==> cmp(Lower(kids, r, lo).value, key) < 0
    requires Under(cmp, key, Higher(kids, r, hi))
    ensures AtLeast(cmp, key, lo) && Under(cmp, key, hi)
  {
    if r > 0 && lo.Some? { assert Chain(cmp, lo.value, kids[r - 1].key, key); }
    if r < |kids| && hi.Some? { assert Chain(cmp, key, kids[r].key, hi.value); }
  }

  lemma EntriesAdded<K, V>(first: Tree<K, V>, kids: seq<Cell<K, Tree<K, V>>>, r: nat, c: Cell<K, Tree<K, V>>)
    requires r <= |kids|
    ensures AllEntries(first, InsertAt(kids, r, c)) ==
      LeftOf(first, kids, r) + (Entries(KidOf(first, kids, r)) + Entries(c.val)) + RightOf(kids, r)
  {
    var all := InsertAt(kids, r, c);
    AroundKid(first, all, r + 1);
    assert all[..r] == kids[..r] && all[r + 1..] == kids[r..];
    AroundKid(first, kids[..r], r);
    assert kids[..r][r..] == [];
    if r > 0 { assert kids[..r][..r - 1] == kids[..r - 1]; }
  }

  // ---- splitting a node ----

  lemma CutKids<K(!new), V>(lay: Layout<K, V>, first: Tree<K, V>, all: seq<Cell<K, Tree<K, V>>>, m: nat, lo: Option<K>, hi: Option<K>, h: nat)
    requires TotalPreorder(lay.cmp) && SoundKids(lay, first, all, lo, hi, h) && m < |all|
    ensures SoundKids(lay, first, all[..m], lo, Some(all[m].key), h)
    ensures SoundKids(lay, all[m].val, all[m + 1..], Some(all[m].key), hi, h)
  {
    var a, b := all[..m], all[m + 1..];
    forall i | 0 <= i <= |a|
      ensures Sound(lay, KidOf(first, a, i), Lower(a, i, lo), Higher(a, i, Some(all[m].key)), h)
    {
      assert KidOf(first, a, i) == KidOf(first, all, i) && Lower(a, i, lo) == Lower(all, i, lo);
      assert Higher(a, i, Some(all[m].key)) == Higher(all, i, hi);
    }
    forall i | 0 <= i <= |b|
      ensures Sound(lay, KidOf(all[m].val, b, i), Lower(b, i, Some(all[m].key)), Higher(b, i, hi), h)
    {
      assert KidOf(all[m].val, b, i) == KidOf(first, all, m + 1 + i) && Higher(b, i, hi) == Higher(all, m + 1 + i, hi);
      assert Lower(b, i, Some(all[m].key)) == Lower(all, m + 1 + i, lo);
    }
  }

  lemma CutEntries<K, V>(first: Tree<K, V>, all: seq<Cell<K, Tree<K, V>>>, m: nat)
    requires m < |all|
    ensures AllEntries(first, all) == AllEntries(first, all[..m]) + AllEntries(all[m].val, all[m + 1..])
  {
    AroundKid(first, all, m + 1);
    assert all[..m + 1 - 1] == all[..m];
  }

  /** A size that a page of that total has room for. */
  lemma SizeBound<K, V>(size: Cell<K, V> -> nat, cells: seq<Cell<K, V>>, i: nat)
    requires i < |cells|
    ensures size(cells[i]) <= Total(size, cells)
  {
    assert cells == cells[..i] + ([cells[i]] + cells[i + 1..]);
    TotalAppend(size, cells[..i], [cells[i]] + cells[i + 1..]);
  }

  /** All the children of a node with one more among them: kept together, or cut in two at the median. */
  lemma AddKidSound<K(!new), V(!new)>(lay: Layout<K, V>, t: Tree<K, V>, r: nat, c: Cell<K, Tree<K, V>>, next: nat,
                                      after: seq<Cell<K, V>>, lo: Option<K>, hi: Option<K>, h: nat, o: Outcome<K, V>)
    requires Usable(lay) && t.Node? && r <= |t.kids| && o == AddKid(lay, t, c, next)
    requires Slot(lay.cmp, t.kids, c.key) == Upper(lay.cmp, t.kids, c.key) == r
    requires SoundKids(lay, t.first, InsertAt(t.kids, r, c), lo, hi, h)
    requires Total(lay.KidSize(), t.kids) <= ROOM && lay.sepSize(c.key) <= ROOM && KidsFit(lay, t.kids, c)
    requires AllEntries(t.first, InsertAt(t.kids, r, c)) == after
    ensures Inserted(lay, after, o, lo, hi, h + 1)
  {
    var all := InsertAt(t.kids, r, c);
    if Total(lay.KidSize(), t.kids) + lay.sepSize(c.key) <= ROOM {
      TotalInsertAt(lay.KidSize(), t.kids, r, c);
      assert o == Outcome(Node(t.id, t.first, all), None, next);
    } else {
      AddKidSplits(lay, t, r, c, next, all, after, lo, hi, h, o);
    }
  }

  /** The children of the one or two nodes that an interior node has become. */
  function Children<K, V>(o: Outcome<K, V>): nat {
    (if o.tree.Node? then 1 + |o.tree.kids| else 0)
    + (if o.split.Some? && o.split.value.val.Node? then 1 + |o.split.value.val.kids| else 0)
  }

  /** Of the cells around the median all stay if and only if both halves fit. */
  lemma HalvesKept<K, V>(cmp: (K, K) -> int, size: Cell<K, V> -> nat, all: seq<Cell<K, V>>, mid: nat)
    requires Sorted(cmp, all) && mid < |all|
    ensures var n := |Fill(cmp, size, all[..mid])| + |Fill(cmp, size, all[mid + 1..])|;
      n <= |all| - 1 && (n == |all| - 1 <==> Total(size, all[..mid]) <= ROOM && Total(size, all[mid + 1..]) <= ROOM)
  {
    if Total(size, all[..mid]) <= ROOM && Total(size, all[mid + 1..]) <= ROOM {
      FillPrefix(cmp, size, all, mid);
      FillSuffix(cmp, size, all, mid + 1);
    }
    FillDrops(cmp, size, all[..mid]);
    FillDrops(cmp, size, all[mid + 1..]);
  }

  /** An interior node that takes one more child keeps all of them if and only if it has room or splits into halves that have, and loses some otherwise. */
  lemma KidsKeptIffFit<K(!new), V(!new)>(lay: Layout<K, V>, t: Tree<K, V>, r: nat, c: Cell<K, Tree<K, V>>, next: nat)
    requires t.Node? && r <= |t.kids| && Slot(lay.cmp, t.kids, c.key) == Upper(lay.cmp, t.kids, c.key) == r
    requires Sorted(lay.cmp, InsertAt(t.kids, r, c))
    ensures Children(AddKid(lay, t, c, next)) == |t.kids| + 2 <==> KidsFit(lay, t.kids, c)
    ensures Children(AddKid(lay, t, c, next)) <= |t.kids| + 2
  {
    var all := InsertAt(t.kids, r, c);
    if Total(lay.KidSize(), t.kids) + lay.sepSize(c.key) > ROOM {
      HalvesKept(lay.cmp, lay.KidSize(), all, |all| / 2);
      SplitChildren(lay, t, c, next, all);
      hide Fill, Total, Upper, Slot, InsertAt, Sorted, Children, SplitNode;
      assert AddKid(lay, t, c, next) == SplitNode(lay, t, c, next);
    } else {
      RoomForKid(lay, t, c, next);
    }
  }

  lemma RoomForKid<K, V>(lay: Layout<K, V>, t: Tree<K, V>, c: Cell<K, Tree<K, V>>, next: nat)
    requires t.Node? && Total(lay.KidSize(), t.kids) + lay.sepSize(c.key) <= ROOM
    ensures Children(AddKid(lay, t, c, next)) == |t.kids| + 2 && KidsFit(lay, t.kids, c)
  {
    hide Total, Fill, Merged;
  }

  lemma SplitChildren<K, V>(lay: Layout<K, V>, t: Tree<K, V>, c: Cell<K, Tree<K, V>>, next: nat, all: seq<Cell<K, Tree<K, V>>>)
    requires t.Node? && all == Merged(lay.cmp, t.kids, c)
    ensures var mid := |all| / 2;
      Children(SplitNode(lay, t, c, next)) == 2 + |Fill(lay.cmp, lay.KidSize(), all[..mid])| + |Fill(lay.cmp, lay.KidSize(), all[mid + 1..])|
  {
    hide Fill, Merged;
  }

  lemma AddKidSplits<K(!new), V(!new)>(lay: Layout<K, V>, t: Tree<K, V>, r: nat, c: Cell<K, Tree<K, V>>, next: nat,
                                       all: seq<Cell<K, Tree<K, V>>>, after: seq<Cell<K, V>>,
                                       lo: Option<K>, hi: Option<K>, h: nat, o: Outcome<K, V>)
    requires Usable(lay) && t.Node? && r <= |t.kids| && o == AddKid(lay, t, c, next) && all == InsertAt(t.kids, r, c)
    requires Upper(lay.cmp, t.kids, c.key) == r && SoundKids(lay, t.first, all, lo, hi, h)
    requires Total(lay.KidSize(), t.kids) <= ROOM && lay.sepSize(c.key) <= ROOM && KidsFit(lay, t.kids, c)
    requires Total(lay.KidSize(), t.kids) + lay.sepSize(c.key) > ROOM
    requires AllEntries(t.first, all) == after
    ensures Inserted(lay, after, o, lo, hi, h + 1)
  {
    assert t.kids != [];
    hide Sorted, Fill, Upper, Merged, InsertAt, Total, TotalPreorder, EntriesOf;
    var mid := |all| / 2;
    assert o == CutNode(t, all, mid, next) && Total(lay.KidSize(), all[..mid]) <= ROOM && Total(lay.KidSize(), all[mid + 1..]) <= ROOM by {
      SplitNodeExact(lay, t, r, c, next);
    }
    MedianFound(lay, t.kids, all, r, c, mid, lo, hi);
    NodeHalves(lay, t, all, mid, next, after, lo, hi, h, o);
  }

  /** A split whose halves fit drops nothing. */
  lemma SplitNodeExact<K(!new), V(!new)>(lay: Layout<K, V>, t: Tree<K, V>, r: nat, c: Cell<K, Tree<K, V>>, next: nat)
    requires t.Node? && r <= |t.kids| && Upper(lay.cmp, t.kids, c.key) == r
    requires Sorted(lay.cmp, InsertAt(t.kids, r, c)) && KidsFit(lay, t.kids, c)
    requires Total(lay.KidSize(), t.kids) + lay.sepSize(c.key) > ROOM
    ensures var all := InsertAt(t.kids, r, c); var mid := |all| / 2;
      && SplitNode(lay, t, c, next) == CutNode(t, all, mid, next)
      && Total(lay.KidSize(), all[..mid]) <= ROOM && Total(lay.KidSize(), all[mid + 1..]) <= ROOM
      && Fill(lay.cmp, lay.KidSize(), all[..mid]) == all[..mid] && Fill(lay.cmp, lay.KidSize(), all[mid + 1..]) == all[mid + 1..]
  {
    var all := InsertAt(t.kids, r, c);
    var mid := |all| / 2;
    assert all == Merged(lay.cmp, t.kids, c);
    FillPrefix(lay.cmp, lay.KidSize(), all, mid);
    FillSuffix(lay.cmp, lay.KidSize(), all, mid + 1);
  }

  /** All cells are in one of two leaves, that on the right having one more at most, and its first key is the separator. */
  ghost predicate HalvesEvenly<K, V>(all: seq<Cell<K, V>>, o: Outcome<K, V>) {
    && o.tree.Leaf? && o.split.Some? && o.split.value.val.Leaf?
    && o.tree.cells + o.split.value.val.cells == all
    && |o.tree.cells| <= |o.split.value.val.cells| <= |o.tree.cells| + 1
    && o.split.value.val.cells != [] && o.split.value.key == o.split.value.val.cells[0].key
  }

  /** A leaf is cut in the middle: the right half gets the odd cell, and its first key is the separator. */
  lemma LeafCutEvenly<K(!new), V>(lay: Layout<K, V>, id: nat, cells: seq<Cell<K, V>>, c: Cell<K, V>, next: nat)
    requires TotalPreorder(lay.cmp) && Sorted(lay.cmp, cells) && Absent(lay.cmp, cells, c.key)
    requires LeafFits(lay, cells, c) && Total(lay.leafSize, cells) + lay.leafSize(c) > ROOM
    ensures HalvesEvenly(Insert(lay.cmp, cells, c), SplitLeaf(lay, id, cells, c, next))
  {
    var all := Merged(lay.cmp, cells, c);
    InsertSorted(lay.cmp, cells, c);
    FillPrefix(lay.cmp, lay.leafSize, all, |all| / 2);
    FillSuffix(lay.cmp, lay.leafSize, all, |all| / 2);
    LeafCutMeans(id, all, next);
    assert SplitLeaf(lay, id, cells, c, next) == LeafCut(id, all, next);
    hide *;
  }

  function LeafCut<K, V>(id: nat, all: seq<Cell<K, V>>, next: nat): Outcome<K, V>
    requires all != []
  {
    Outcome(Leaf(id, all[..|all| / 2]), Some(Cell(all[|all| / 2].key, Leaf(next, all[|all| / 2..]))), next + 1)
  }

  lemma LeafCutMeans<K, V>(id: nat, all: seq<Cell<K, V>>, next: nat)
    requires all != []
    ensures HalvesEvenly(all, LeafCut(id, all, next))
  {
    assert all[..|all| / 2] + all[|all| / 2..] == all;
  }

  /** All children are in one of two interior nodes, that on the left having one more at most, and the separator between them has gone up. */
  ghost predicate CutsEvenly<K, V>(first: Tree<K, V>, all: seq<Cell<K, Tree<K, V>>>, o: Outcome<K, V>) {
    && o.tree.Node? && o.split.Some? && o.split.value.val.Node? && o.tree.first == first
    && o.tree.kids + [Cell(o.split.value.key, o.split.value.val.first)] + o.split.value.val.kids == all
    && |o.split.value.val.kids| <= |o.tree.kids| <= |o.split.value.val.kids| + 1
  }

  /** An interior node is cut at its median, which goes up: its child becomes the first of the right half. */
  lemma NodeCutEvenly<K(!new), V(!new)>(lay: Layout<K, V>, t: Tree<K, V>, r: nat, c: Cell<K, Tree<K, V>>, next: nat)
    requires t.Node? && r <= |t.kids| && Upper(lay.cmp, t.kids, c.key) == r
    requires Sorted(lay.cmp, InsertAt(t.kids, r, c)) && KidsFit(lay, t.kids, c)
    requires Total(lay.KidSize(), t.kids) + lay.sepSize(c.key) > ROOM
    ensures CutsEvenly(t.first, InsertAt(t.kids, r, c), SplitNode(lay, t, c, next))
  {
    SplitNodeExact(lay, t, r, c, next);
    CutMeans(t, InsertAt(t.kids, r, c), next);
    hide *;
  }

  lemma CutMeans<K, V>(t: Tree<K, V>, all: seq<Cell<K, Tree<K, V>>>, next: nat)
    requires t.Node? && all != []
    ensures CutsEvenly(t.first, all, CutNode(t, all, |all| / 2, next))
  {
    var mid := |all| / 2;
    assert all[..mid] + [all[mid]] + all[mid + 1..] == all;
  }

  lemma FillPrefix<K, V>(cmp: (K, K) -> int, size: Cell<K, V> -> nat, all: seq<Cell<K, V>>, b: nat)
    requires Sorted(cmp, all) && b <= |all| && Total(size, all[..b]) <= ROOM
    ensures Fill(cmp, size, all[..b]) == all[..b]
  {
    SortedSlice(cmp, all, 0, b);
    FillFits(cmp, size, all[..b]);
  }

  lemma FillSuffix<K, V>(cmp: (K, K) -> int, size: Cell<K, V> -> nat, all: seq<Cell<K, V>>, a: nat)
    requires Sorted(cmp, all) && a <= |all| && Total(size, all[a..]) <= ROOM
    ensures Fill(cmp, size, all[a..]) == all[a..]
  {
    SortedSlice(cmp, all, a, |all|);
    FillFits(cmp, size, all[a..]);
  }

  function CutNode<K, V>(t: Tree<K, V>, all: seq<Cell<K, Tree<K, V>>>, mid: nat, next: nat): Outcome<K, V>
    requires t.Node? && mid < |all|
  {
    Outcome(Node(t.id, t.first, all[..mid]), Some(Cell(all[mid].key, Node(next, all[mid].val, all[mid + 1..]))), next + 1)
  }

  lemma NodeHalves<K(!new), V(!new)>(lay: Layout<K, V>, t: Tree<K, V>, all: seq<Cell<K, Tree<K, V>>>, mid: nat, next: nat,
                                     after: seq<Cell<K, V>>, lo: Option<K>, hi: Option<K>, h: nat, o: Outcome<K, V>)
    requires TotalPreorder(lay.cmp) && t.Node? && mid < |all| && SoundKids(lay, t.first, all, lo, hi, h)
    requires o == CutNode(t, all, mid, next)
    requires Total(lay.KidSize(), all[..mid]) <= ROOM && Total(lay.KidSize(), all[mid + 1..]) <= ROOM
    requires (lo.Some? ==> lay.cmp(lo.value, all[mid].key) < 0) && Under(lay.cmp, all[mid].key, hi)
    requires lay.sepSize(all[mid].key) <= ROOM
    requires AllEntries(t.first, all) == after
    ensures Inserted(lay, after, o, lo, hi, h + 1)
  {
    CutKids(lay, t.first, all, mid, lo, hi, h);
    CutEntries(t.first, all, mid);
  }

  lemma {:induction false} MedianFound<K(!new), V>(lay: Layout<K, V>, kids: seq<Cell<K, Tree<K, V>>>, all: seq<Cell<K, Tree<K, V>>>, r: nat,
                                c: Cell<K, Tree<K, V>>, mid: nat, lo: Option<K>, hi: Option<K>)
    requires TotalPreorder(lay.cmp) && r <= |kids| && all == InsertAt(kids, r, c) && 0 < mid < |all|
    requires Sorted(lay.cmp, all) && Within(lay.cmp, all, lo, hi)
    requires Total(lay.KidSize(), kids) <= ROOM && lay.sepSize(c.key) <= ROOM
    ensures (lo.Some? ==> lay.cmp(lo.value, all[mid].key) < 0) && Under(lay.cmp, all[mid].key, hi)
    ensures lay.sepSize(all[mid].key) <= ROOM
  {
    CutSorted(lay.cmp, all, mid, lo, hi);
    if mid != r {
      SizeBound(lay.KidSize(), kids, if mid < r then mid else mid - 1);
    }
  }

  /** Replacing child r leaves separators, bounds and the other children alone. */
  lemma WithKidFrame<K, V>(t: Tree<K, V>, r: nat, kid: Tree<K, V>, lo: Option<K>, hi: Option<K>)
    requires t.Node? && r <= |t.kids|
    ensures var u := WithKid(t, r, kid);
      && u.Node? && u.id == t.id && |u.kids| == |t.kids|
      && (forall j :: 0 <= j < |t.kids| ==> u.kids[j].key == t.kids[j].key)
      && (forall i :: 0 <= i <= |t.kids| ==> KidOf(u.first, u.kids, i) == if i == r then kid else KidOf(t.first, t.kids, i))
      && (forall i :: 0 <= i <= |t.kids| ==> Lower(u.kids, i, lo) == Lower(t.kids, i, lo) && Higher(u.kids, i, hi) == Higher(t.kids, i, hi))
      && LeftOf(u.first, u.kids, r) == LeftOf(t.first, t.kids, r) && RightOf(u.kids, r) == RightOf(t.kids, r)
  {
    var u := WithKid(t, r, kid);
    assert u.kids[r..] == t.kids[r..];
    if r > 0 { assert u.kids[..r - 1] == t.kids[..r - 1]; }
  }

  /** Child r of t was split: the node with both halves among its children. */
  lemma {:induction false} KidSplit<K(!new), V>(lay: Layout<K, V>, t: Tree<K, V>, r: nat, left: Tree<K, V>, c: Cell<K, Tree<K, V>>,
                             lo: Option<K>, hi: Option<K>, h: nat)
    requires TotalPreorder(lay.cmp) && t.Node? && SoundKids(lay, t.first, t.kids, lo, hi, h) && r <= |t.kids|
    requires Sound(lay, left, Lower(t.kids, r, lo), Some(c.key), h) && Sound(lay, c.val, Some(c.key), Higher(t.kids, r, hi), h)
    requires Lower(t.kids, r, lo).Some? ==> lay.cmp(Lower(t.kids, r, lo).value, c.key) < 0
    requires Under(lay.cmp, c.key, Higher(t.kids, r, hi))
    ensures var u := WithKid(t, r, left);
      && Slot(lay.cmp, u.kids, c.key) == Upper(lay.cmp, u.kids, c.key) == r
      && SoundKids(lay, u.first, InsertAt(u.kids, r, c), lo, hi, h)
  {
    var u := WithKid(t, r, left);
    WithKidFrame(t, r, left, lo, hi);
    assert Sorted(lay.cmp, u.kids) && Within(lay.cmp, u.kids, lo, hi);
    SepSlot(lay.cmp, u.kids, r, c.key, lo, hi);
    KidAdded(lay, u.first, u.kids, r, c, lo, hi, h);
  }

  /** What an insertion of c below t asks for. */
  ghost predicate Ready<K(!new), V(!new)>(lay: Layout<K, V>, t: Tree<K, V>, c: Cell<K, V>, next: nat, lo: Option<K>, hi: Option<K>, h: nat) {
    && Usable(lay) && Sound(lay, t, lo, hi, h)
    && AtLeast(lay.cmp, c.key, lo) && Under(lay.cmp, c.key, hi) && lay.accepts(c)
    && Absent(lay.cmp, Entries(t), c.key) && SepsFit(lay, t, c, next)
  }

  lemma KidReady<K(!new), V(!new)>(lay: Layout<K, V>, t: Tree<K, V>, c: Cell<K, V>, next: nat, lo: Option<K>, hi: Option<K>, h: nat)
    requires t.Node? && Ready(lay, t, c, next, lo, hi, h)
    ensures h > 0
    ensures var r := Route(lay.cmp, t.kids, c.key);
      Ready(lay, KidOf(t.first, t.kids, r), c, next, Lower(t.kids, r, lo), Higher(t.kids, r, hi), h - 1)
  {
    KidIsReady(lay, t, c.key, lo, hi, h - 1);
    InsertInStep(lay, t, c, next);
  }

  /**
  If every interior page on the way splits into halves that fit, an insertion leaves sound pages, and
  no entry changes but on the leaf that the cell belongs on.
  */
  lemma {:induction false} InsertInSound<K(!new), V(!new)>(lay: Layout<K, V>, t: Tree<K, V>, c: Cell<K, V>, next: nat,
                                                           lo: Option<K>, hi: Option<K>, h: nat, o: Outcome<K, V>)
    requires Ready(lay, t, c, next, lo, hi, h) && o == InsertIn(lay, t, c, next)
    ensures Inserted(lay, EntriesAfter(lay, t, c), o, lo, hi, h)
    decreases h
  {
    if t.Leaf? {
      LeafInsert(lay, t.id, t.cells, c, next, lo, hi, o);
    } else {
      var r := Route(lay.cmp, t.kids, c.key);
      var sub := InsertIn(lay, KidOf(t.first, t.kids, r), c, next);
      KidReady(lay, t, c, next, lo, hi, h);
      InsertInSound(lay, KidOf(t.first, t.kids, r), c, next, Lower(t.kids, r, lo), Higher(t.kids, r, hi), h - 1, sub);
      NodeInsert(lay, t, r, sub, c, next, lo, hi, h - 1, o);
    }
  }

  lemma InsertInStep<K, V>(lay: Layout<K, V>, t: Tree<K, V>, c: Cell<K, V>, next: nat)
    requires t.Node?
    ensures var r := Route(lay.cmp, t.kids, c.key); var sub := InsertIn(lay, KidOf(t.first, t.kids, r), c, next);
      var u := WithKid(t, r, sub.tree);
      && InsertIn(lay, t, c, next) == (if sub.split.None? then Outcome(u, None, sub.next) else AddKid(lay, u, sub.split.value, sub.next))
      && (SepsFit(lay, t, c, next) <==> SepsFit(lay, KidOf(t.first, t.kids, r), c, next) && (sub.split.Some? ==> KidsFit(lay, u.kids, sub.split.value)))
  {
  }

  /** The child a key is routed to meets the conditions of the insertion. */
  lemma KidIsReady<K(!new), V(!new)>(lay: Layout<K, V>, t: Tree<K, V>, key: K, lo: Option<K>, hi: Option<K>, h: nat)
    requires TotalPreorder(lay.cmp) && t.Node? && SoundKids(lay, t.first, t.kids, lo, hi, h)
    requires AtLeast(lay.cmp, key, lo) && Under(lay.cmp, key, hi)
    ensures var r := Route(lay.cmp, t.kids, key); var kid := KidOf(t.first, t.kids, r);
      && Sound(lay, kid, Lower(t.kids, r, lo), Higher(t.kids, r, hi), h)
      && AtLeast(lay.cmp, key, Lower(t.kids, r, lo)) && Under(lay.cmp, key, Higher(t.kids, r, hi))
      && (Absent(lay.cmp, Entries(t), key) ==> Absent(lay.cmp, Entries(kid), key))
  {
    var r := Route(lay.cmp, t.kids, key);
    RouteBetween(lay.cmp, t.kids, key);
    Flip(lay.cmp, t.kids, key);
    AroundKid(t.first, t.kids, r);
    var a, m, b := LeftOf(t.first, t.kids, r), Entries(KidOf(t.first, t.kids, r)), RightOf(t.kids, r);
    if Absent(lay.cmp, a + m + b, key) {
      forall i | 0 <= i < |m| ensures lay.cmp(m[i].key, key) != 0 {
        assert (a + m + b)[|a| + i] == m[i];
      }
    }
  }

  /** Insertion into the whole is insertion into the child the key is routed to. */
  lemma KidInserts<K(!new), V(!new)>(lay: Layout<K, V>, t: Tree<K, V>, c: Cell<K, V>, lo: Option<K>, hi: Option<K>, h: nat)
    requires TotalPreorder(lay.cmp) && t.Node? && SoundKids(lay, t.first, t.kids, lo, hi, h)
    ensures var r := Route(lay.cmp, t.kids, c.key);
      Insert(lay.cmp, Entries(t), c) ==
        LeftOf(t.first, t.kids, r) + Insert(lay.cmp, Entries(KidOf(t.first, t.kids, r)), c) + RightOf(t.kids, r)
  {
    var r := Route(lay.cmp, t.kids, c.key);
    RouteIsolates(lay, t.first, t.kids, c.key, lo, hi, h);
    AroundKid(t.first, t.kids, r);
    MiddleInsert(lay.cmp, LeftOf(t.first, t.kids, r), Entries(KidOf(t.first, t.kids, r)), RightOf(t.kids, r), c);
  }

  lemma NodeInsert<K(!new), V(!new)>(lay: Layout<K, V>, t: Tree<K, V>, r: nat, sub: Outcome<K, V>, c: Cell<K, V>, next: nat,
                                     lo: Option<K>, hi: Option<K>, h: nat, o: Outcome<K, V>)
    requires Ready(lay, t, c, next, lo, hi, h + 1) && o == InsertIn(lay, t, c, next)
    requires t.Node? && r == Route(lay.cmp, t.kids, c.key) && sub == InsertIn(lay, KidOf(t.first, t.kids, r), c, next)
    requires Inserted(lay, EntriesAfter(lay, KidOf(t.first, t.kids, r), c), sub, Lower(t.kids, r, lo), Higher(t.kids, r, hi), h)
    ensures Inserted(lay, EntriesAfter(lay, t, c), o, lo, hi, h + 1)
  {
    InsertInStep(lay, t, c, next);
    if sub.split.None? {
      NodeKept(lay, t, r, sub.tree, lo, hi, h);
    } else {
      NodeGrows(lay, t, r, sub, EntriesAfter(lay, KidOf(t.first, t.kids, r), c), lo, hi, h, o);
    }
  }

  lemma NodeKept<K(!new), V(!new)>(lay: Layout<K, V>, t: Tree<K, V>, r: nat, kid: Tree<K, V>, lo: Option<K>, hi: Option<K>, h: nat)
    requires t.Node? && r <= |t.kids| && Sound(lay, t, lo, hi, h + 1)
    requires Sound(lay, kid, Lower(t.kids, r, lo), Higher(t.kids, r, hi), h)
    ensures var u := WithKid(t, r, kid);
      Sound(lay, u, lo, hi, h + 1) && Entries(u) == LeftOf(t.first, t.kids, r) + Entries(kid) + RightOf(t.kids, r)
  {
    var u := WithKid(t, r, kid);
    SizeReplaced(lay, t, r, kid);
    WithKidFrame(t, r, kid, lo, hi);
    KidReplaced(lay, t.first, t.kids, r, kid, lo, hi, h);
    AroundKid(u.first, u.kids, r);
  }

  lemma {:induction false} NodeGrows<K(!new), V(!new)>(lay: Layout<K, V>, t: Tree<K, V>, r: nat, sub: Outcome<K, V>,
                                    part: seq<Cell<K, V>>, lo: Option<K>, hi: Option<K>, h: nat, o: Outcome<K, V>)
    requires Usable(lay) && t.Node? && r <= |t.kids| && SoundKids(lay, t.first, t.kids, lo, hi, h)
    requires Total(lay.KidSize(), t.kids) <= ROOM && sub.split.Some?
    requires o == AddKid(lay, WithKid(t, r, sub.tree), sub.split.value, sub.next)
    requires Halves(lay, part, sub.tree, sub.split.value, Lower(t.kids, r, lo), Higher(t.kids, r, hi), h)
    requires KidsFit(lay, WithKid(t, r, sub.tree).kids, sub.split.value)
    ensures Inserted(lay, LeftOf(t.first, t.kids, r) + part + RightOf(t.kids, r), o, lo, hi, h + 1)
  {
    var u, s := WithKid(t, r, sub.tree), sub.split.value;
    SizeReplaced(lay, t, r, sub.tree);
    WithKidFrame(t, r, sub.tree, lo, hi);
    KidSplit(lay, t, r, sub.tree, s, lo, hi, h);
    EntriesAdded(u.first, u.kids, r, s);
    AddKidSound(lay, u, r, s, sub.next, LeftOf(t.first, t.kids, r) + part + RightOf(t.kids, r), lo, hi, h, o);
  }

  /** The whole tree: a sound tree of some height without outer bounds. */
  ghost predicate SoundTree<K, V>(lay: Layout<K, V>, t: Tree<K, V>, h: nat) {
    Sound(lay, t, None, None, h)
  }

  /** A sound tree, however high. */
  ghost predicate Grown<K, V>(lay: Layout<K, V>, t: Tree<K, V>) {
    exists h: nat :: SoundTree(lay, t, h)
  }

  /** What an insertion leaves is what it should leave if and only if the leaf keeps everything. */
  lemma {:induction false} AfterIff<K(!new), V(!new)>(lay: Layout<K, V>, t: Tree<K, V>, c: Cell<K, V>, lo: Option<K>, hi: Option<K>, h: nat)
    requires TotalPreorder(lay.cmp) && Sound(lay, t, lo, hi, h) && Absent(lay.cmp, Entries(t), c.key)
    requires AtLeast(lay.cmp, c.key, lo) && Under(lay.cmp, c.key, hi)
    ensures var fits := LeafFits(lay, LeafFor(lay.cmp, t, c.key).cells, c);
      && |EntriesAfter(lay, t, c)| <= |Entries(t)| + 1
      && (fits ==> EntriesAfter(lay, t, c) == Insert(lay.cmp, Entries(t), c))
      && (!fits ==> |EntriesAfter(lay, t, c)| < |Entries(t)| + 1)
    decreases h
  {
    if t.Leaf? {
      LeafKeepsCount(lay, t.cells, c);
      if LeafFits(lay, t.cells, c) { LeafKeepsAll(lay, t.cells, c); }
    } else {
      var r := Route(lay.cmp, t.kids, c.key);
      KidIsReady(lay, t, c.key, lo, hi, h - 1);
      AfterIff(lay, KidOf(t.first, t.kids, r), c, Lower(t.kids, r, lo), Higher(t.kids, r, hi), h - 1);
      AroundKid(t.first, t.kids, r);
      KidInserts(lay, t, c, lo, hi, h - 1);
    }
  }

  /** An insertion brings in nothing but its own cell. */
  lemma {:induction false} AfterWithin<K, V>(lay: Layout<K, V>, t: Tree<K, V>, c: Cell<K, V>, x: Cell<K, V>)
    requires x in EntriesAfter(lay, t, c) && x != c
    ensures x in Entries(t)
    decreases t
  {
    if t.Leaf? {
      LeafAfterWithin(lay, t.cells, c, x);
    } else {
      var r := Route(lay.cmp, t.kids, c.key);
      var kid := KidOf(t.first, t.kids, r);
      if x in EntriesAfter(lay, kid, c) { AfterWithin(lay, kid, c, x); }
      AroundKid(t.first, t.kids, r);
    }
  }

  lemma LeafAfterWithin<K, V>(lay: Layout<K, V>, cells: seq<Cell<K, V>>, c: Cell<K, V>, x: Cell<K, V>)
    requires x in LeafAfter(lay, cells, c) && x != c
    ensures x in cells
  {
    var all, mid := Merged(lay.cmp, cells, c), |Merged(lay.cmp, cells, c)| / 2;
    if x in Fill(lay.cmp, lay.leafSize, all[..mid]) { FillWithin(lay.cmp, lay.leafSize, all[..mid], x); }
    if x in Fill(lay.cmp, lay.leafSize, all[mid..]) { FillWithin(lay.cmp, lay.leafSize, all[mid..], x); }
  }

  /** The whole tree after an insertion, whether or not its leaf kept everything. */
  lemma InsertTreeSound<K(!new), V(!new)>(lay: Layout<K, V>, t: Tree<K, V>, c: Cell<K, V>, next: nat, h: nat) returns (h': nat)
    requires Usable(lay) && SoundTree(lay, t, h) && lay.accepts(c)
    requires Absent(lay.cmp, Entries(t), c.key) && SepsFit(lay, t, c, next)
    ensures var (u, n) := InsertTree(lay, t, c, next);
      && SoundTree(lay, u, h') && u.id == t.id && Entries(u) == EntriesAfter(lay, t, c) && |Entries(u)| <= |Entries(t)| + 1
      && (Entries(u) == Insert(lay.cmp, Entries(t), c) <==> LeafFits(lay, LeafFor(lay.cmp, t, c.key).cells, c))
      && (|Entries(u)| == |Entries(t)| + 1 <==> LeafFits(lay, LeafFor(lay.cmp, t, c.key).cells, c))
    ensures h <= h' <= h + 1
  {
    var o := InsertIn(lay, t, c, next);
    InsertInSound(lay, t, c, next, None, None, h, o);
    AfterIff(lay, t, c, None, None, h);
    KeepsPage(lay, t, c, next);
    if o.split.None? {
      h' := h;
    } else {
      h' := h + 1;
      GrowRootSound(lay, o.tree, o.split.value, o.next, h);
    }
  }

  /** The left half of a split stays on the page of the whole. */
  lemma KeepsPage<K, V>(lay: Layout<K, V>, t: Tree<K, V>, c: Cell<K, V>, next: nat)
    ensures InsertIn(lay, t, c, next).tree.id == t.id
  {
    if t.Node? { InsertInStep(lay, t, c, next); }
  }

  lemma GrowRootSound<K(!new), V(!new)>(lay: Layout<K, V>, left: Tree<K, V>, c: Cell<K, Tree<K, V>>, next: nat, h: nat)
    requires Usable(lay) && Sound(lay, left, None, Some(c.key), h) && Sound(lay, c.val, Some(c.key), None, h)
    requires lay.sepSize(c.key) <= ROOM
    ensures var u := GrowRoot(lay, left, c, next);
      && SoundTree(lay, u, h + 1) && Entries(u) == Entries(left) + Entries(c.val)
      && u == Node(left.id, left.(id := next), [c])
  {
    assert [c][1..] == [] && [c][..0] == [];
    assert Total(lay.KidSize(), [c]) == lay.sepSize(c.key);
    FillFits(lay.cmp, lay.KidSize(), [c]);
    var moved := left.(id := next);
    Relabelled(lay, left, next, None, Some(c.key), h);
    forall i | 0 <= i <= 1 ensures Sound(lay, KidOf(moved, [c], i), Lower([c], i, None), Higher([c], i, None), h) {
    }
    assert EntriesOf([c]) == Entries(c.val);
  }

  /** The page a node is kept in says nothing about its contents. */
  lemma Relabelled<K, V>(lay: Layout<K, V>, t: Tree<K, V>, id: nat, lo: Option<K>, hi: Option<K>, h: nat)
    requires Sound(lay, t, lo, hi, h)
    ensures Sound(lay, t.(id := id), lo, hi, h) && Entries(t.(id := id)) == Entries(t)
  {
  }
}
