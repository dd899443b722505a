/**
The walk down the right side of a table tree. It reads the last cell of every interior page, so it needs
that no interior page is without cells; insertion and deletion see to that.
*/
module TableSpine {
  import opened Bytes
  import opened Cells
  import opened BTree
  import opened BTreeOps
  import opened TableTree
  import opened TreeHeap
  import opened Trees

  /** No interior page is without separators. */
  ghost predicate Branching<K, V>(t: Tree<K, V>)
    decreases t
  {
    t.Node? ==> t.kids != [] && forall i :: 0 <= i <= |t.kids| ==> Branching(KidOf(t.first, t.kids, i))
  }

  lemma WithKidBranches<K, V>(t: Tree<K, V>, r: nat, kid: Tree<K, V>)
    requires t.Node? && r <= |t.kids| && Branching(t) && Branching(kid)
    ensures Branching(WithKid(t, r, kid))
  {
    var u := WithKid(t, r, kid);
    forall i | 0 <= i <= |u.kids| ensures Branching(KidOf(u.first, u.kids, i)) {
      assert KidOf(u.first, u.kids, i) == if i == r then kid else KidOf(t.first, t.kids, i);
    }
  }

  /** One more child among the others. */
  lemma AddedBranches<K, V>(u: Tree<K, V>, r: nat, s: Cell<K, Tree<K, V>>)
    requires u.Node? && r <= |u.kids| && Branching(u) && Branching(s.val)
    ensures Branching(Node(u.id, u.first, InsertAt(u.kids, r, s)))
  {
    var w := Node(u.id, u.first, InsertAt(u.kids, r, s));
    forall i | 0 <= i <= |w.kids| ensures Branching(KidOf(w.first, w.kids, i)) {
      KidShifted(u.first, u.kids, r, s, i, None, None);
    }
  }

  /** Both halves of a node with at least three separators have some. */
  lemma {:induction false} CutBranches<K, V>(w: Tree<K, V>, next: nat)
    requires w.Node? && Branching(w) && |w.kids| >= 3
    ensures var o := CutNode(w, w.kids, |w.kids| / 2, next); Branching(o.tree) && Branching(o.split.value.val)
  {
    var m := |w.kids| / 2;
    var o := CutNode(w, w.kids, m, next);
    forall i | 0 <= i <= |o.tree.kids| ensures Branching(KidOf(o.tree.first, o.tree.kids, i)) {
      assert KidOf(o.tree.first, o.tree.kids, i) == KidOf(w.first, w.kids, i);
    }
    var b := o.split.value.val;
    forall i | 0 <= i <= |b.kids| ensures Branching(KidOf(b.first, b.kids, i)) {
      assert KidOf(b.first, b.kids, i) == KidOf(w.first, w.kids, m + 1 + i);
    }
  }

  /** A page that has no room for a separator of fixed size holds many. */
  lemma FullMeansMany<K(!new), V(!new)>(lay: Layout<K, V>, kids: seq<Cell<K, Tree<K, V>>>, s: Cell<K, Tree<K, V>>)
    requires FixedSeps(lay) && TryInsert(lay.cmp, lay.KidSize(), kids, s).None?
    ensures |kids| >= 2
  {
    SepsBetween(lay, kids);
    TotalBetween(lay.KidSize(), kids, SEP_SIZE, SEP_SIZE);
  }

  lemma {:induction false} InsertBranches<K(!new), V(!new)>(lay: Layout<K, V>, t: Tree<K, V>, c: Cell<K, V>, next: nat,
                                                            lo: Option<K>, hi: Option<K>, h: nat, o: Outcome<K, V>)
    requires Ready(lay, t, c, next, lo, hi, h) && FixedSeps(lay) && Branching(t) && o == InsertIn(lay, t, c, next)
    ensures Branching(o.tree) && (o.split.Some? ==> Branching(o.split.value.val))
    decreases h
  {
    if t.Node? {
      var r := Route(lay.cmp, t.kids, c.key);
      var kid := KidOf(t.first, t.kids, r);
      var sub := InsertIn(lay, kid, c, next);
      KidReady(lay, t, c, next, lo, hi, h);
      InsertBranches(lay, kid, c, next, Lower(t.kids, r, lo), Higher(t.kids, r, hi), h - 1, sub);
      WithKidBranches(t, r, sub.tree);
      InsertInStep(lay, t, c, next);
      if sub.split.Some? {
        GrowsExactly(lay, t, c, next, lo, hi, h, sub, o);
        GrownBranches(lay, WithKid(t, r, sub.tree), r, sub.split.value, sub.next, o);
      }
    }
  }

  lemma GrownBranches<K(!new), V(!new)>(lay: Layout<K, V>, u: Tree<K, V>, r: nat, s: Cell<K, Tree<K, V>>, next: nat, o: Outcome<K, V>)
    requires FixedSeps(lay) && u.Node? && r <= |u.kids| && Branching(u) && Branching(s.val)
    requires IsGrown(lay, u, s, Node(u.id, u.first, InsertAt(u.kids, r, s)), next, o)
    ensures Branching(o.tree) && (o.split.Some? ==> Branching(o.split.value.val))
  {
    var w := Node(u.id, u.first, InsertAt(u.kids, r, s));
    AddedBranches(u, r, s);
    if TryInsert(lay.cmp, lay.KidSize(), u.kids, s).None? {
      FullMeansMany(lay, u.kids, s);
      CutBranches(w, next);
    }
  }

  /** A table tree starts with one leaf; insertion and deletion, whatever they drop, leave no interior page without separators. */
  lemma {:induction false} InsertTreeBranches(t: Tree<int, Payload>, c: Cell<int, Payload>, next: nat, h: nat)
    requires SoundTree(TableLayout(), t, h) && Accepts(c) && Absent(CompareRowid, Entries(t), c.key) && Branching(t)
    ensures Branching(InsertTree(TableLayout(), t, c, next).0)
  {
    var lay := TableLayout();
    var o := InsertIn(lay, t, c, next);
    TableUsable();
    TableSeps();
    FixedSepsFit(lay, t, c, next, None, None, h);
    InsertBranches(lay, t, c, next, None, None, h, o);
    if o.split.Some? {
      InsertInSound(lay, t, c, next, None, None, h, o);
      GrowRootSound(lay, o.tree, o.split.value, o.next, h);
      RootBranches(o.tree, o.split.value, o.next);
    }
  }

  lemma RootBranches<K, V>(left: Tree<K, V>, s: Cell<K, Tree<K, V>>, next: nat)
    requires Branching(left) && Branching(s.val)
    ensures Branching(Node(left.id, left.(id := next), [s]))
  {
    var moved := left.(id := next);
    assert Branching(moved);
    forall i | 0 <= i <= 1 ensures Branching(KidOf(moved, [s], i)) {
    }
  }

  lemma {:induction false} DeleteBranches<K, V>(lay: Layout<K, V>, t: Tree<K, V>, key: K)
    requires Branching(t)
    ensures Branching(DeleteIn(lay, t, key))
    decreases t
  {
    if t.Node? {
      var r := Route(lay.cmp, t.kids, key);
      DeleteBranches(lay, KidOf(t.first, t.kids, r), key);
      WithKidBranches(t, r, DeleteIn(lay, KidOf(t.first, t.kids, r), key));
    }
  }

  /** Walks to the last leaf and reads its last rowid. */
  method FindMaxRowID(table: PagedTree<int, Payload>) returns (id: Option<int>)
    requires table.Valid() && Branching(table.tree)
    ensures id == MaxRowID(table.tree)
  {
    var pages, at := table.store.pages, table.root;
    ghost var t, after := table.tree, 0;
    while !pages[at].LeafPage?
      invariant Stored(pages, t, after) && t.id == at && Branching(t) && LastLeaf(t) == LastLeaf(table.tree)
      decreases t
    {
      var kids := pages[at].kids;
      assert KidOf(t.first, t.kids, |t.kids|) == t.kids[|t.kids| - 1].val;
      at := kids[|kids| - 1].val;
      t, after := KidOf(t.first, t.kids, |t.kids|), AfterKid(t.kids, |t.kids|, after);
    }
    var cells := pages[at].cells;
    id := if cells == [] then None else Some(cells[|cells| - 1].key);
  }
}
