/**
Two comparators that agree on the keys of a tree drive it the same way. The comparator of an index is an
order only among proper keys; with this it can be exchanged for one that is an order throughout.
*/
module Comparators {
  import opened Bytes
  import opened Cells
  import opened BTree
  import opened BTreeOps

  ghost predicate Agree<K(!new)>(a: (K, K) -> int, b: (K, K) -> int, proper: K -> bool) {
    forall x, y :: proper(x) && proper(y) ==> a(x, y) == b(x, y)
  }

  /** The same layout but for the comparator. */
  ghost predicate Alike<K(!new), V(!new)>(a: Layout<K, V>, b: Layout<K, V>, proper: K -> bool) {
    && Agree(a.cmp, b.cmp, proper)
    && (forall c :: a.leafSize(c) == b.leafSize(c) && a.accepts(c) == b.accepts(c))
    && (forall k :: a.sepSize(k) == b.sepSize(k))
  }

  ghost predicate KeysIn<K, V>(cells: seq<Cell<K, V>>, proper: K -> bool) {
    forall i :: 0 <= i < |cells| ==> proper(cells[i].key)
  }

  /** All keys of a tree, those of its separators included, are proper. */
  ghost predicate TreeIn<K, V>(t: Tree<K, V>, proper: K -> bool)
    decreases t
  {
    match t
    case Leaf(_, cells) => KeysIn(cells, proper)
    case Node(_, first, kids) => KeysIn(kids, proper) && forall i :: 0 <= i <= |kids| ==> TreeIn(KidOf(first, kids, i), proper)
  }

  // ---- pages ----

  lemma PlacesSame<K(!new), V>(a: (K, K) -> int, b: (K, K) -> int, proper: K -> bool, cells: seq<Cell<K, V>>, key: K)
    requires Agree(a, b, proper) && KeysIn(cells, proper) && proper(key)
    ensures Slot(a, cells, key) == Slot(b, cells, key) && Upper(a, cells, key) == Upper(b, cells, key)
    ensures Found(a, cells, key) == Found(b, cells, key)
  {
    SlotUnique(a, cells, key, Slot(b, cells, key));
    UpperUnique(a, cells, key, Upper(b, cells, key));
  }

  lemma InsertAtIn<K, V>(proper: K -> bool, cells: seq<Cell<K, V>>, i: nat, c: Cell<K, V>)
    requires KeysIn(cells, proper) && proper(c.key) && i <= |cells|
    ensures KeysIn(InsertAt(cells, i, c), proper)
  {
  }

  lemma {:induction false} TotalSame<K, V>(f: Cell<K, V> -> nat, g: Cell<K, V> -> nat, cells: seq<Cell<K, V>>)
    requires forall i :: 0 <= i < |cells| ==> f(cells[i]) == g(cells[i])
    ensures Total(f, cells) == Total(g, cells)
  {
    if cells != [] { TotalSame(f, g, cells[1..]); }
  }

  lemma TrySame<K(!new), V(!new)>(a: (K, K) -> int, b: (K, K) -> int, f: Cell<K, V> -> nat, g: Cell<K, V> -> nat, proper: K -> bool,
                                  cells: seq<Cell<K, V>>, c: Cell<K, V>)
    requires Agree(a, b, proper) && (forall x :: f(x) == g(x)) && KeysIn(cells, proper) && proper(c.key)
    ensures TryInsert(a, f, cells, c) == TryInsert(b, g, cells, c)
    ensures TryInsert(a, f, cells, c).Some? ==> KeysIn(TryInsert(a, f, cells, c).value, proper)
  {
    PlacesSame(a, b, proper, cells, c.key);
    TotalSame(f, g, cells);
    InsertAtIn(proper, cells, Slot(a, cells, c.key), c);
  }

  lemma {:induction false} FillSame<K(!new), V(!new)>(a: (K, K) -> int, b: (K, K) -> int, f: Cell<K, V> -> nat, g: Cell<K, V> -> nat,
                                                      proper: K -> bool, cells: seq<Cell<K, V>>)
    requires Agree(a, b, proper) && (forall x :: f(x) == g(x)) && KeysIn(cells, proper)
    ensures Fill(a, f, cells) == Fill(b, g, cells) && KeysIn(Fill(a, f, cells), proper)
  {
    if cells != [] {
      var init := cells[..|cells| - 1];
      FillSame(a, b, f, g, proper, init);
      TrySame(a, b, f, g, proper, Fill(a, f, init), cells[|cells| - 1]);
    }
  }

  lemma MergedSame<K(!new), V>(a: (K, K) -> int, b: (K, K) -> int, proper: K -> bool, cells: seq<Cell<K, V>>, c: Cell<K, V>)
    requires Agree(a, b, proper) && KeysIn(cells, proper) && proper(c.key)
    ensures Merged(a, cells, c) == Merged(b, cells, c) && KeysIn(Merged(a, cells, c), proper)
  {
    PlacesSame(a, b, proper, cells, c.key);
    InsertAtIn(proper, cells, Upper(a, cells, c.key), c);
  }

  // ---- trees ----

  /** What an insertion leaves has proper keys only. */
  ghost predicate OutcomeIn<K, V>(o: Outcome<K, V>, proper: K -> bool) {
    TreeIn(o.tree, proper) && (o.split.Some? ==> proper(o.split.value.key) && TreeIn(o.split.value.val, proper))
  }

  lemma LeafSame<K(!new), V(!new)>(a: Layout<K, V>, b: Layout<K, V>, proper: K -> bool, t: Tree<K, V>, c: Cell<K, V>, next: nat)
    requires Alike(a, b, proper) && t.Leaf? && TreeIn(t, proper) && proper(c.key)
    ensures InsertIn(a, t, c, next) == InsertIn(b, t, c, next) && OutcomeIn(InsertIn(a, t, c, next), proper)
  {
    TrySame(a.cmp, b.cmp, a.leafSize, b.leafSize, proper, t.cells, c);
    MergedSame(a.cmp, b.cmp, proper, t.cells, c);
    var all := Merged(a.cmp, t.cells, c);
    FillSame(a.cmp, b.cmp, a.leafSize, b.leafSize, proper, all[..|all| / 2]);
    FillSame(a.cmp, b.cmp, a.leafSize, b.leafSize, proper, all[|all| / 2..]);
  }

  lemma KidSizeSame<K(!new), V(!new)>(a: Layout<K, V>, b: Layout<K, V>, proper: K -> bool)
    requires Alike(a, b, proper)
    ensures forall c :: a.KidSize()(c) == b.KidSize()(c)
  {
    forall c ensures a.KidSize()(c) == b.KidSize()(c) {
      assert a.sepSize(c.key) == b.sepSize(c.key);
    }
  }

  /** Children that are proper, with their separators, stay so in any part that keeps them in order. */
  ghost predicate KidsIn<K, V>(kids: seq<Cell<K, Tree<K, V>>>, proper: K -> bool) {
    forall i :: 0 <= i < |kids| ==> proper(kids[i].key) && TreeIn(kids[i].val, proper)
  }

  lemma NodeIn<K, V>(t: Tree<K, V>, proper: K -> bool)
    requires t.Node?
    ensures TreeIn(t, proper) <==> TreeIn(t.first, proper) && KidsIn(t.kids, proper)
  {
    if TreeIn(t, proper) {
      assert KidOf(t.first, t.kids, 0) == t.first;
      forall i | 0 <= i < |t.kids| ensures TreeIn(t.kids[i].val, proper) {
        assert KidOf(t.first, t.kids, i + 1) == t.kids[i].val;
      }
    }
  }

  /** What is left of children after insertions into an empty page are some of them. */
  lemma {:induction false} FillKidsIn<K(!new), V(!new)>(cmp: (K, K) -> int, size: Cell<K, Tree<K, V>> -> nat, proper: K -> bool, kids: seq<Cell<K, Tree<K, V>>>)
    requires KidsIn(kids, proper)
    ensures KidsIn(Fill(cmp, size, kids), proper)
  {
    if kids != [] { FillKidsIn(cmp, size, proper, kids[..|kids| - 1]); }
  }

  lemma AddKidIn<K(!new), V(!new)>(lay: Layout<K, V>, proper: K -> bool, t: Tree<K, V>, c: Cell<K, Tree<K, V>>, next: nat)
    requires t.Node? && TreeIn(t.first, proper) && KidsIn(t.kids, proper) && proper(c.key) && TreeIn(c.val, proper)
    ensures OutcomeIn(AddKid(lay, t, c, next), proper)
  {
    var o := AddKid(lay, t, c, next);
    if TryInsert(lay.cmp, lay.KidSize(), t.kids, c).Some? {
      NodeIn(o.tree, proper);
    } else {
      var all := Merged(lay.cmp, t.kids, c);
      var mid := |all| / 2;
      assert KidsIn(all, proper);
      FillKidsIn(lay.cmp, lay.KidSize(), proper, all[..mid]);
      FillKidsIn(lay.cmp, lay.KidSize(), proper, all[mid + 1..]);
      NodeIn(o.tree, proper);
      NodeIn(o.split.value.val, proper);
    }
  }

  lemma AddKidSame<K(!new), V(!new)>(a: Layout<K, V>, b: Layout<K, V>, proper: K -> bool, t: Tree<K, V>, c: Cell<K, Tree<K, V>>, next: nat)
    requires Alike(a, b, proper) && t.Node? && KeysIn(t.kids, proper) && proper(c.key)
    ensures AddKid(a, t, c, next) == AddKid(b, t, c, next) && (KidsFit(a, t.kids, c) <==> KidsFit(b, t.kids, c))
  {
    KidSizeSame(a, b, proper);
    TrySame(a.cmp, b.cmp, a.KidSize(), b.KidSize(), proper, t.kids, c);
    MergedSame(a.cmp, b.cmp, proper, t.kids, c);
    var all := Merged(a.cmp, t.kids, c);
    var mid := |all| / 2;
    HalvesSame(a, b, proper, all[..mid], all[mid + 1..]);
    TotalSame(a.KidSize(), b.KidSize(), t.kids);
  }

  lemma HalvesSame<K(!new), V(!new)>(a: Layout<K, V>, b: Layout<K, V>, proper: K -> bool, x: seq<Cell<K, Tree<K, V>>>, y: seq<Cell<K, Tree<K, V>>>)
    requires Alike(a, b, proper) && KeysIn(x, proper) && KeysIn(y, proper)
    ensures Fill(a.cmp, a.KidSize(), x) == Fill(b.cmp, b.KidSize(), x) && Fill(a.cmp, a.KidSize(), y) == Fill(b.cmp, b.KidSize(), y)
    ensures Total(a.KidSize(), x) == Total(b.KidSize(), x) && Total(a.KidSize(), y) == Total(b.KidSize(), y)
  {
    KidSizeSame(a, b, proper);
    FillSame(a.cmp, b.cmp, a.KidSize(), b.KidSize(), proper, x);
    FillSame(a.cmp, b.cmp, a.KidSize(), b.KidSize(), proper, y);
    TotalSame(a.KidSize(), b.KidSize(), x);
    TotalSame(a.KidSize(), b.KidSize(), y);
  }

  lemma WithKidIn<K, V>(t: Tree<K, V>, r: nat, kid: Tree<K, V>, proper: K -> bool)
    requires t.Node? && r <= |t.kids| && TreeIn(t, proper) && TreeIn(kid, proper)
    ensures TreeIn(WithKid(t, r, kid), proper)
  {
    NodeIn(t, proper);
    NodeIn(WithKid(t, r, kid), proper);
  }

  lemma {:induction false} InsertInSame<K(!new), V(!new)>(a: Layout<K, V>, b: Layout<K, V>, proper: K -> bool, t: Tree<K, V>, c: Cell<K, V>, next: nat)
    requires Alike(a, b, proper) && TreeIn(t, proper) && proper(c.key)
    ensures InsertIn(a, t, c, next) == InsertIn(b, t, c, next) && OutcomeIn(InsertIn(a, t, c, next), proper)
    ensures SepsFit(a, t, c, next) <==> SepsFit(b, t, c, next)
    decreases t
  {
    if t.Leaf? {
      LeafSame(a, b, proper, t, c, next);
    } else {
      PlacesSame(a.cmp, b.cmp, proper, t.kids, c.key);
      hide AddKid, KidsFit, Alike;
      var r := Route(a.cmp, t.kids, c.key);
      var kid := KidOf(t.first, t.kids, r);
      InsertInSame(a, b, proper, kid, c, next);
      var sub := InsertIn(a, kid, c, next);
      var u := WithKid(t, r, sub.tree);
      WithKidIn(t, r, sub.tree, proper);
      NodeIn(u, proper);
      InsertInStep(a, t, c, next);
      InsertInStep(b, t, c, next);
      if sub.split.Some? {
        AddKidSame(a, b, proper, u, sub.split.value, sub.next);
        AddKidIn(a, proper, u, sub.split.value, sub.next);
      }
    }
  }

  lemma GrowRootSame<K(!new), V(!new)>(a: Layout<K, V>, b: Layout<K, V>, proper: K -> bool, left: Tree<K, V>, s: Cell<K, Tree<K, V>>, next: nat)
    requires Alike(a, b, proper) && TreeIn(left, proper) && proper(s.key) && TreeIn(s.val, proper)
    ensures GrowRoot(a, left, s, next) == GrowRoot(b, left, s, next) && TreeIn(GrowRoot(a, left, s, next), proper)
  {
    HalvesSame(a, b, proper, [s], []);
    RelabelledIn(left, next, proper);
    FillKidsIn(a.cmp, a.KidSize(), proper, [s]);
    NodeIn(GrowRoot(a, left, s, next), proper);
  }

  /** Insertion into the whole tree does not depend on which of the two comparators is used. */
  lemma InsertTreeSame<K(!new), V(!new)>(a: Layout<K, V>, b: Layout<K, V>, proper: K -> bool, t: Tree<K, V>, c: Cell<K, V>, next: nat)
    requires Alike(a, b, proper) && TreeIn(t, proper) && proper(c.key)
    ensures InsertTree(a, t, c, next) == InsertTree(b, t, c, next) && TreeIn(InsertTree(a, t, c, next).0, proper)
  {
    hide InsertIn, SepsFit, GrowRoot, Alike, TreeIn;
    InsertInSame(a, b, proper, t, c, next);
    var o := InsertIn(a, t, c, next);
    if o.split.Some? { GrowRootSame(a, b, proper, o.tree, o.split.value, o.next); }
  }

  lemma RelabelledIn<K, V>(t: Tree<K, V>, id: nat, proper: K -> bool)
    requires TreeIn(t, proper)
    ensures TreeIn(t.(id := id), proper)
  {
  }

  lemma {:induction false} LeafForSame<K(!new), V(!new)>(a: Layout<K, V>, b: Layout<K, V>, proper: K -> bool, t: Tree<K, V>, key: K)
    requires Alike(a, b, proper) && TreeIn(t, proper) && proper(key)
    ensures LeafFor(a.cmp, t, key) == LeafFor(b.cmp, t, key) && KeysIn(LeafFor(a.cmp, t, key).cells, proper)
    decreases t
  {
    if t.Node? {
      PlacesSame(a.cmp, b.cmp, proper, t.kids, key);
      LeafForSame(a, b, proper, KidOf(t.first, t.kids, Route(a.cmp, t.kids, key)), key);
    }
  }

  /** Nor does the question whether the leaf fits. */
  lemma LeafFitsSame<K(!new), V(!new)>(a: Layout<K, V>, b: Layout<K, V>, proper: K -> bool, t: Tree<K, V>, c: Cell<K, V>)
    requires Alike(a, b, proper) && TreeIn(t, proper) && proper(c.key)
    ensures LeafFits(a, LeafFor(a.cmp, t, c.key).cells, c) <==> LeafFits(b, LeafFor(b.cmp, t, c.key).cells, c)
  {
    LeafForSame(a, b, proper, t, c.key);
    var cells := LeafFor(a.cmp, t, c.key).cells;
    CellsFitSame(a, b, proper, cells, c);
  }

  lemma CellsFitSame<K(!new), V(!new)>(a: Layout<K, V>, b: Layout<K, V>, proper: K -> bool, cells: seq<Cell<K, V>>, c: Cell<K, V>)
    requires Alike(a, b, proper) && KeysIn(cells, proper) && proper(c.key)
    ensures LeafFits(a, cells, c) <==> LeafFits(b, cells, c)
  {
    MergedSame(a.cmp, b.cmp, proper, cells, c);
    var all := Merged(a.cmp, cells, c);
    TotalSame(a.leafSize, b.leafSize, cells);
    TotalSame(a.leafSize, b.leafSize, all[..|all| / 2]);
    TotalSame(a.leafSize, b.leafSize, all[|all| / 2..]);
  }

  lemma {:induction false} DeleteInSame<K(!new), V(!new)>(a: Layout<K, V>, b: Layout<K, V>, proper: K -> bool, t: Tree<K, V>, key: K)
    requires Alike(a, b, proper) && TreeIn(t, proper) && proper(key)
    ensures DeleteIn(a, t, key) == DeleteIn(b, t, key) && TreeIn(DeleteIn(a, t, key), proper)
    decreases t
  {
    if t.Leaf? {
      PlacesSame(a.cmp, b.cmp, proper, t.cells, key);
      if Found(a.cmp, t.cells, key) {
        FillSame(a.cmp, b.cmp, a.leafSize, b.leafSize, proper, RemoveAt(t.cells, Slot(a.cmp, t.cells, key)));
      }
    } else {
      PlacesSame(a.cmp, b.cmp, proper, t.kids, key);
      var r := Route(a.cmp, t.kids, key);
      DeleteInSame(a, b, proper, KidOf(t.first, t.kids, r), key);
      WithKidIn(t, r, DeleteIn(a, KidOf(t.first, t.kids, r), key), proper);
    }
  }
}
