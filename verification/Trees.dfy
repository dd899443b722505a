/**
The tree operations as they change pages in place, each proved to leave exactly the pages that the
operation on values describes, and to announce every page before it changes it.
*/
module Trees {
  import opened Bytes
  import opened Cells
  import opened BTree
  import opened BTreeOps
  import opened TreeHeap

  /** A call to the pager, or a change of a page that it holds. */
  datatype Call<K, V> = Allocated | Announced(id: nat) | Changed(id: nat, page: Page<K, V>)

  /** The pages after the calls, in the order in which they were made. */
  ghost function Replayed<K, V>(pages: seq<Page<K, V>>, log: seq<Call<K, V>>): seq<Page<K, V>>
    decreases |log|
  {
    if log == [] then pages
    else
      var was := Replayed(pages, log[..|log| - 1]);
      match log[|log| - 1]
      case Allocated => was + [Blank]
      case Announced(_) => was
      case Changed(id, page) => if id < |was| then was[id := page] else was
  }

  /** Only pages that there are at the time are announced and changed, and none of those before is changed unannounced. */
  ghost predicate Orderly<K, V>(before: seq<Page<K, V>>, log: seq<Call<K, V>>)
    decreases |log|
  {
    log == [] ||
    var rest := log[..|log| - 1];
    && Orderly(before, rest)
    && match log[|log| - 1]
       case Allocated => true
       case Announced(id) => id < |Replayed(before, rest)|
       case Changed(id, _) => id < |Replayed(before, rest)| && (|before| <= id || Announced(id) in rest)
  }

  /** The calls of `log` are made in order, announce exactly `announced`, and lead from `before` to `pages`. */
  ghost predicate Logged<K, V>(before: seq<Page<K, V>>, log: seq<Call<K, V>>, announced: set<nat>, pages: seq<Page<K, V>>) {
    Orderly(before, log) && Replayed(before, log) == pages && forall id :: id in announced <==> Announced(id) in log
  }

  lemma LogMore<K, V>(before: seq<Page<K, V>>, log: seq<Call<K, V>>, announced: set<nat>, pages: seq<Page<K, V>>, call: Call<K, V>)
    requires Logged(before, log, announced, pages)
    requires call.Allocated? || call.id < |pages|
    requires call.Changed? ==> call.id in announced || |before| <= call.id
    ensures match call
      case Allocated => Logged(before, log + [call], announced, pages + [Blank])
      case Announced(id) => Logged(before, log + [call], announced + {id}, pages)
      case Changed(id, page) => Logged(before, log + [call], announced, pages[id := page])
  {
    assert (log + [call])[..|log|] == log;
  }

  /** The pages of the file as the tree changes them. */
  class Store<K(!new), V(!new)> {
    const lay: Layout<K, V>
    var pages: seq<Page<K, V>>
    /** The pages at the start of the operation under way, those that were announced to the pager since, and all calls since. */
    ghost var before: seq<Page<K, V>>
    ghost var announced: set<nat>
    ghost var log: seq<Call<K, V>>

    constructor (lay: Layout<K, V>)
      ensures this.lay == lay && pages == [Blank] && before == pages && announced == {} && log == []
    {
      this.lay, pages, before, announced, log := lay, [Blank], [Blank], {}, [];
    }

    /** A new operation starts: pages that change from now on have to be announced anew. */
    ghost method Start()
      modifies this`before, this`announced, this`log
      ensures Guarded() && before == pages && announced == {} && log == []
    {
      before, announced, log := pages, {}, [];
    }

    /** No page that was there before has changed unannounced, and the calls made lead to the pages there are. */
    ghost predicate Guarded()
      reads this
    {
      && |before| <= |pages| && (forall p :: 0 <= p < |before| && pages[p] != before[p] ==> p in announced)
      && Logged(before, log, announced, pages)
    }

    /** Every page of `was` that has changed was announced. */
    ghost predicate Announced(was: seq<Page<K, V>>)
      reads this
    {
      |was| <= |pages| && forall p :: 0 <= p < |was| && pages[p] != was[p] ==> p in announced
    }

    /** May be changed: announced, or younger than the moment that counts. */
    ghost predicate Open(id: nat)
      reads this
    {
      id < |pages| && (id in announced || id >= |before|)
    }

    method Allocate() returns (id: nat)
      requires Guarded()
      modifies this`pages, this`log
      ensures Guarded() && Open(id) && pages == old(pages) + [Blank] && id == old(|pages|)
    {
      LogMore(before, log, announced, pages, Allocated);
      id := |pages|;
      pages, log := pages + [Blank], log + [Allocated];
    }

    /** Tells the pager that a page is about to change. */
    method Write(id: nat)
      requires Guarded() && id < |pages|
      modifies this`announced, this`log
      ensures Guarded() && Open(id) && announced == old(announced) + {id}
    {
      LogMore(before, log, announced, pages, Call.Announced(id));
      announced, log := announced + {id}, log + [Call.Announced(id)];
    }

    method Put(id: nat, page: Page<K, V>)
      requires Guarded() && Open(id)
      modifies this`pages, this`log
      ensures Guarded() && pages == old(pages)[id := page]
    {
      LogMore(before, log, announced, pages, Changed(id, page));
      pages, log := pages[id := page], log + [Changed(id, page)];
    }

    /** A leaf without cells; the bytes of the sibling pointer stay as they are. */
    method InitLeaf(id: nat)
      requires Guarded() && Open(id)
      modifies this`pages, this`log
      ensures Guarded() && pages == old(pages)[id := LeafPage([], Extra(old(pages[id])))]
    {
      Put(id, LeafPage([], Extra(pages[id])));
    }

    method InitInner(id: nat, first: nat)
      requires Guarded() && Open(id)
      modifies this`pages, this`log
      ensures Guarded() && pages == old(pages)[id := InnerPage(first, [])]
    {
      Put(id, InnerPage(first, []));
    }

    method SetSibling(id: nat, sibling: nat)
      requires Guarded() && Open(id) && pages[id].LeafPage?
      modifies this`pages, this`log
      ensures Guarded() && pages == old(pages)[id := LeafPage(old(pages[id].cells), sibling)]
    {
      Put(id, LeafPage(pages[id].cells, sibling));
    }

    method InsertLeaf(id: nat, c: Cell<K, V>) returns (ok: bool)
      requires Guarded() && Open(id) && pages[id].LeafPage?
      modifies this`pages, this`log
      ensures Guarded()
      ensures var more := TryInsert(lay.cmp, lay.leafSize, old(pages[id].cells), c);
        && ok == more.Some?
        && pages == if ok then old(pages)[id := LeafPage(more.value, old(pages[id].sibling))] else old(pages)
    {
      var more := TryInsert(lay.cmp, lay.leafSize, pages[id].cells, c);
      ok := more.Some?;
      if ok { Put(id, LeafPage(more.value, pages[id].sibling)); }
    }

    method InsertInner(id: nat, c: Cell<K, nat>) returns (ok: bool)
      requires Guarded() && Open(id) && pages[id].InnerPage?
      modifies this`pages, this`log
      ensures Guarded()
      ensures var more := TryInsert(lay.cmp, IdSize(lay), old(pages[id].kids), c);
        && ok == more.Some?
        && pages == if ok then old(pages)[id := InnerPage(old(pages[id].first), more.value)] else old(pages)
    {
      var more := TryInsert(lay.cmp, IdSize(lay), pages[id].kids, c);
      ok := more.Some?;
      if ok { Put(id, InnerPage(pages[id].first, more.value)); }
    }

    method NewLeaf() returns (id: nat)
      requires Guarded()
      modifies this`pages, this`log
      ensures Guarded() && Open(id) && pages == old(pages) + [LeafPage([], 0)] && id == old(|pages|)
    {
      id := Allocate();
      InitLeaf(id);
    }

    method NewInner(first: nat) returns (id: nat)
      requires Guarded()
      modifies this`pages, this`log
      ensures Guarded() && Open(id) && pages == old(pages) + [InnerPage(first, [])] && id == old(|pages|)
    {
      id := Allocate();
      InitInner(id, first);
    }

    // ---- filling pages; the results of the insertions are ignored ----

    method FillLeaf(id: nat, cells: seq<Cell<K, V>>)
      requires Guarded() && Open(id) && pages[id].LeafPage? && pages[id].cells == []
      modifies this`pages, this`log
      ensures Guarded()
      ensures pages == old(pages)[id := LeafPage(Fill(lay.cmp, lay.leafSize, cells), old(pages[id].sibling))]
    {
      hide Logged;
      for i := 0 to |cells|
        invariant Guarded() && Open(id)
        invariant pages == old(pages)[id := LeafPage(Fill(lay.cmp, lay.leafSize, cells[..i]), old(pages[id].sibling))]
      {
        var _ := InsertLeaf(id, cells[i]);
        assert cells[..i + 1][..i] == cells[..i];
      }
      assert cells[..|cells|] == cells;
    }

    method FillInner(id: nat, cells: seq<Cell<K, nat>>)
      requires Guarded() && Open(id) && pages[id].InnerPage? && pages[id].kids == []
      modifies this`pages, this`log
      ensures Guarded()
      ensures pages == old(pages)[id := InnerPage(old(pages[id].first), Fill(lay.cmp, IdSize(lay), cells))]
    {
      hide Logged;
      for i := 0 to |cells|
        invariant Guarded() && Open(id)
        invariant pages == old(pages)[id := InnerPage(old(pages[id].first), Fill(lay.cmp, IdSize(lay), cells[..i]))]
      {
        var _ := InsertInner(id, cells[i]);
        assert cells[..i + 1][..i] == cells[..i];
      }
      assert cells[..|cells|] == cells;
    }

    /** Removes one cell by writing all the others anew. */
    method DeleteLeaf(id: nat, slot: nat)
      requires Guarded() && Open(id) && pages[id].LeafPage? && slot < |pages[id].cells|
      modifies this`pages, this`log
      ensures Guarded()
      ensures pages == old(pages)[id := LeafPage(Fill(lay.cmp, lay.leafSize, RemoveAt(old(pages[id].cells), slot)), old(pages[id].sibling))]
    {
      var cells, sibling := pages[id].cells, pages[id].sibling;
      var rest: seq<Cell<K, V>> := [];
      for j := 0 to |cells|
        invariant rest == if j <= slot then cells[..j] else cells[..slot] + cells[slot + 1..j]
      {
        if j != slot { rest := rest + [cells[j]]; }
      }
      assert rest == RemoveAt(cells, slot);
      InitLeaf(id);
      SetSibling(id, sibling);
      FillLeaf(id, rest);
    }
  }

  /** Copies out the cells of a full page with a new one in its place. */
  method Gather<K, V>(cmp: (K, K) -> int, cells: seq<Cell<K, V>>, c: Cell<K, V>) returns (all: seq<Cell<K, V>>)
    ensures all == Merged(cmp, cells, c)
  {
    all := [];
    var inserted := false;
    for i := 0 to |cells|
      invariant inserted == (Upper(cmp, cells, c.key) < i)
      invariant all == if inserted then InsertAt(cells[..i], Upper(cmp, cells, c.key), c) else cells[..i]
    {
      if !inserted && cmp(c.key, cells[i].key) < 0 {
        UpperUnique(cmp, cells, c.key, i);
        all := all + [c];
        inserted := true;
      }
      all := all + [cells[i]];
    }
    assert cells[..|cells|] == cells;
    if !inserted { all := all + [c]; }
  }

  // ---- one step of an insertion, on the values that pages hold ----

  /** The separator and the page that the parent of a split node gets to know. */
  function SplitIds<K, V>(o: Outcome<K, V>): Option<Cell<K, nat>> {
    if o.split.None? then None else Some(Cell(o.split.value.key, o.split.value.val.id))
  }

  lemma LeafStep<K(!new), V(!new)>(lay: Layout<K, V>, was: seq<Page<K, V>>, now: seq<Page<K, V>>, t: Tree<K, V>, after: nat, c: Cell<K, V>)
    requires t.Leaf? && Stored(was, t, after)
    requires match TryInsert(lay.cmp, lay.leafSize, t.cells, c)
      case Some(more) => now == was[t.id := LeafPage(more, after)]
      case None => now == LeafSplit(lay, was, t.id, t.cells, after, c)
    ensures Landed(was, now, t, after, InsertIn(lay, t, c, |was|))
  {
    match TryInsert(lay.cmp, lay.leafSize, t.cells, c)
    case Some(more) => LeafStays(was, now, t, after, more);
    case None =>
      var all := Merged(lay.cmp, t.cells, c);
      var mid := |all| / 2;
      LeafParts(was, now, t, after, all[mid].key, Fill(lay.cmp, lay.leafSize, all[..mid]), Fill(lay.cmp, lay.leafSize, all[mid..]));
  }

  /** Pages after leaf `id` was split. */
  function LeafSplit<K(!new), V(!new)>(lay: Layout<K, V>, pages: seq<Page<K, V>>, id: nat, cells: seq<Cell<K, V>>, sibling: nat,
                                       c: Cell<K, V>): seq<Page<K, V>>
    requires id < |pages|
  {
    var all := Merged(lay.cmp, cells, c);
    var mid := |all| / 2;
    pages[id := LeafPage(Fill(lay.cmp, lay.leafSize, all[..mid]), |pages|)] + [LeafPage(Fill(lay.cmp, lay.leafSize, all[mid..]), sibling)]
  }

  /** Pages after interior page `id` was split. */
  function InnerSplit<K(!new), V(!new)>(lay: Layout<K, V>, pages: seq<Page<K, V>>, id: nat, first: nat, kids: seq<Cell<K, nat>>,
                                        c: Cell<K, nat>): seq<Page<K, V>>
    requires id < |pages|
  {
    var all := Merged(lay.cmp, kids, c);
    var mid := |all| / 2;
    pages[id := InnerPage(first, Fill(lay.cmp, IdSize(lay), all[..mid]))] + [InnerPage(all[mid].val, Fill(lay.cmp, IdSize(lay), all[mid + 1..]))]
  }

  /** An interior page after a separator was inserted on it, with or without a split. */
  function InnerInserted<K(!new), V(!new)>(lay: Layout<K, V>, pages: seq<Page<K, V>>, id: nat, c: Cell<K, nat>): (r: seq<Page<K, V>>)
    requires id < |pages| && pages[id].InnerPage?
  {
    match TryInsert(lay.cmp, IdSize(lay), pages[id].kids, c)
    case Some(more) => pages[id := InnerPage(pages[id].first, more)]
    case None => InnerSplit(lay, pages, id, pages[id].first, pages[id].kids, c)
  }

  /** An interior page after a child below it was split. */
  lemma NodeStep<K(!new), V(!new)>(lay: Layout<K, V>, was: seq<Page<K, V>>, mid: seq<Page<K, V>>, t: Tree<K, V>,
                                   after: nat, c: Cell<K, V>, lo: Option<K>, hi: Option<K>, h: nat, s: Cell<K, Tree<K, V>>)
    requires t.Node? && Stored(was, t, after) && Ready(lay, t, c, |was|, lo, hi, h)
    requires var r := Route(lay.cmp, t.kids, c.key); var kid := KidOf(t.first, t.kids, r);
      var sub := InsertIn(lay, kid, c, |was|);
      Landed(was, mid, kid, AfterKid(t.kids, r, after), sub) && sub.split == Some(s)
    ensures t.id < |mid| && mid[t.id].InnerPage?
    ensures Landed(was, InnerInserted(lay, mid, t.id, Cell(s.key, s.val.id)), t, after, InsertIn(lay, t, c, |was|))
    ensures SplitIds(InsertIn(lay, t, c, |was|)) == SplitOff(lay, mid, t.id, Cell(s.key, s.val.id))
  {
    var r := Route(lay.cmp, t.kids, c.key);
    var sub := InsertIn(lay, KidOf(t.first, t.kids, r), c, |was|);
    var u, o := WithKid(t, r, sub.tree), InsertIn(lay, t, c, |was|);
    KidParted(was, mid, t, after, r, sub);
    GrowsExactly(lay, t, c, |was|, lo, hi, h, sub, o);
    OpenedStep(lay, was, mid, t, after, u, s, Node(t.id, u.first, Merged(lay.cmp, u.kids, s)), o);
  }

  /** The separator and page that an interior page passes up. */
  function SplitOff<K(!new), V(!new)>(lay: Layout<K, V>, pages: seq<Page<K, V>>, id: nat, c: Cell<K, nat>): Option<Cell<K, nat>>
    requires id < |pages| && pages[id].InnerPage?
  {
    var all := Merged(lay.cmp, pages[id].kids, c);
    if TryInsert(lay.cmp, IdSize(lay), pages[id].kids, c).Some? then None else Some(Cell(all[|all| / 2].key, |pages|))
  }

  lemma OpenedStep<K(!new), V(!new)>(lay: Layout<K, V>, was: seq<Page<K, V>>, mid: seq<Page<K, V>>, t: Tree<K, V>, after: nat,
                                     u: Tree<K, V>, s: Cell<K, Tree<K, V>>, w: Tree<K, V>, o: Outcome<K, V>)
    requires Opened(was, mid, t, after, w) && u.Node? && u.id == t.id && mid[t.id] == InnerPage(u.first.id, Ids(u.kids))
    requires w == Node(t.id, u.first, Merged(lay.cmp, u.kids, s)) && w.kids == Insert(lay.cmp, u.kids, s)
    requires IsGrown(lay, u, s, w, |mid|, o)
    ensures Landed(was, InnerInserted(lay, mid, t.id, Cell(s.key, s.val.id)), t, after, o)
    ensures SplitIds(o) == SplitOff(lay, mid, t.id, Cell(s.key, s.val.id))
  {
    var now, fits := InnerInserted(lay, mid, t.id, Cell(s.key, s.val.id)), TryInsert(lay.cmp, lay.KidSize(), u.kids, s).Some?;
    InnerInsertedIs(lay, mid, u, s, w, o);
    OpenedLands(was, mid, now, t, after, w, fits, o);
  }

  lemma OpenedLands<K(!new), V(!new)>(was: seq<Page<K, V>>, mid: seq<Page<K, V>>, now: seq<Page<K, V>>, t: Tree<K, V>, after: nat,
                                      w: Tree<K, V>, fits: bool, o: Outcome<K, V>)
    requires Opened(was, mid, t, after, w) && w.kids != []
    requires var m := |w.kids| / 2;
      if fits then
        now == mid[t.id := InnerPage(w.first.id, Ids(w.kids))] && o == Outcome(w, None, |mid|)
      else
        && now == mid[t.id := InnerPage(w.first.id, Ids(w.kids[..m]))] + [InnerPage(w.kids[m].val.id, Ids(w.kids[m + 1..]))]
        && o == CutNode(w, w.kids, m, |mid|)
    ensures Landed(was, now, t, after, o)
  {
    if fits {
      NodeStays(was, mid, now, t, after, w);
    } else {
      NodeCut(was, mid, now, t, after, w, |w.kids| / 2);
    }
  }

  /** The bytes of the page know of children what the tree knows of them. */
  lemma InnerInsertedIs<K(!new), V(!new)>(lay: Layout<K, V>, mid: seq<Page<K, V>>, u: Tree<K, V>, s: Cell<K, Tree<K, V>>, w: Tree<K, V>,
                                          o: Outcome<K, V>)
    requires u.Node? && u.id < |mid| && mid[u.id] == InnerPage(u.first.id, Ids(u.kids))
    requires w == Node(u.id, u.first, Merged(lay.cmp, u.kids, s)) && w.kids == Insert(lay.cmp, u.kids, s)
    requires IsGrown(lay, u, s, w, |mid|, o)
    ensures var m := |w.kids| / 2; var now := InnerInserted(lay, mid, u.id, Cell(s.key, s.val.id));
      now == if TryInsert(lay.cmp, lay.KidSize(), u.kids, s).Some?
             then mid[u.id := InnerPage(w.first.id, Ids(w.kids))]
             else mid[u.id := InnerPage(w.first.id, Ids(w.kids[..m]))] + [InnerPage(w.kids[m].val.id, Ids(w.kids[m + 1..]))]
    ensures SplitIds(o) == SplitOff(lay, mid, u.id, Cell(s.key, s.val.id))
  {
    IdsTry(lay, u.kids, s);
    if TryInsert(lay.cmp, lay.KidSize(), u.kids, s).None? {
      InnerSplitIs(lay, mid, u, s, w);
    }
  }

  /** The node w that u with one more child would be, whole or cut at the median. */
  ghost predicate IsGrown<K, V>(lay: Layout<K, V>, u: Tree<K, V>, s: Cell<K, Tree<K, V>>, w: Tree<K, V>, next: nat, o: Outcome<K, V>)
    requires u.Node? && w.Node? && w.kids != []
  {
    var m := |w.kids| / 2;
    if TryInsert(lay.cmp, lay.KidSize(), u.kids, s).Some?
    then o == Outcome(w, None, next)
    else
      && o == CutNode(w, w.kids, m, next)
      && Fill(lay.cmp, lay.KidSize(), w.kids[..m]) == w.kids[..m]
      && Fill(lay.cmp, lay.KidSize(), w.kids[m + 1..]) == w.kids[m + 1..]
  }

  /** What becomes of a node above a split child, down to the cells. */
  lemma GrowsExactly<K(!new), V(!new)>(lay: Layout<K, V>, t: Tree<K, V>, c: Cell<K, V>, next: nat, lo: Option<K>, hi: Option<K>, h: nat,
                                       sub: Outcome<K, V>, o: Outcome<K, V>)
    requires t.Node? && Ready(lay, t, c, next, lo, hi, h) && o == InsertIn(lay, t, c, next)
    requires sub == InsertIn(lay, KidOf(t.first, t.kids, Route(lay.cmp, t.kids, c.key)), c, next) && sub.split.Some?
    ensures var r := Route(lay.cmp, t.kids, c.key); var u := WithKid(t, r, sub.tree); var s := sub.split.value;
      var w := Node(t.id, u.first, InsertAt(u.kids, r, s));
      && Merged(lay.cmp, u.kids, s) == w.kids == Insert(lay.cmp, u.kids, s)
      && IsGrown(lay, u, s, w, sub.next, o)
  {
    var r, s := Route(lay.cmp, t.kids, c.key), sub.split.value;
    var u := WithKid(t, r, sub.tree);
    KidReady(lay, t, c, next, lo, hi, h);
    InsertInSound(lay, KidOf(t.first, t.kids, r), c, next, Lower(t.kids, r, lo), Higher(t.kids, r, hi), h - 1, sub);
    KidSplit(lay, t, r, sub.tree, s, lo, hi, h - 1);
    InsertInStep(lay, t, c, next);
    AddKidExactly(lay, u, r, s, sub.next);
  }

  lemma AddKidExactly<K(!new), V(!new)>(lay: Layout<K, V>, u: Tree<K, V>, r: nat, s: Cell<K, Tree<K, V>>, next: nat)
    requires u.Node? && r <= |u.kids| && KidsFit(lay, u.kids, s) && Sorted(lay.cmp, InsertAt(u.kids, r, s))
    requires Slot(lay.cmp, u.kids, s.key) == Upper(lay.cmp, u.kids, s.key) == r
    ensures IsGrown(lay, u, s, Node(u.id, u.first, InsertAt(u.kids, r, s)), next, AddKid(lay, u, s, next))
  {
    hide KidsFit, Fill, Total, Sorted;
    if TryInsert(lay.cmp, lay.KidSize(), u.kids, s).None? {
      SplitNodeExact(lay, u, r, s, next);
    }
  }

  lemma InnerSplitIs<K(!new), V(!new)>(lay: Layout<K, V>, mid: seq<Page<K, V>>, u: Tree<K, V>, s: Cell<K, Tree<K, V>>, w: Tree<K, V>)
    requires u.Node? && w.Node? && w.id == u.id < |mid| && w.first == u.first && w.kids == Merged(lay.cmp, u.kids, s)
    requires var m := |w.kids| / 2;
      Fill(lay.cmp, lay.KidSize(), w.kids[..m]) == w.kids[..m] && Fill(lay.cmp, lay.KidSize(), w.kids[m + 1..]) == w.kids[m + 1..]
    ensures var m := |w.kids| / 2;
      && Merged(lay.cmp, Ids(u.kids), Cell(s.key, s.val.id)) == Ids(w.kids)
      && InnerSplit(lay, mid, u.id, u.first.id, Ids(u.kids), Cell(s.key, s.val.id)) ==
        mid[u.id := InnerPage(w.first.id, Ids(w.kids[..m]))] + [InnerPage(w.kids[m].val.id, Ids(w.kids[m + 1..]))]
  {
    var m := |w.kids| / 2;
    IdsMerged(lay.cmp, u.kids, s);
    assert Ids(w.kids)[..m] == Ids(w.kids[..m]) && Ids(w.kids)[m + 1..] == Ids(w.kids[m + 1..]);
    IdsFill(lay, w.kids[..m]);
    IdsFill(lay, w.kids[m + 1..]);
  }

  /** Pages of other trees stay as they are, and a tree only ever takes new pages. */
  ghost predicate Kept<K, V>(was: seq<Page<K, V>>, now: seq<Page<K, V>>, t: Tree<K, V>, u: Tree<K, V>) {
    && |was| <= |now|
    && (forall p :: 0 <= p < |was| && p !in Pages(t) ==> now[p] == was[p])
    && (forall p :: p in Pages(u) ==> p in Pages(t) || p >= |was|)
  }

  /** The pages once the root has made room for a separator that came up to it. */
  function RootPages<K, V>(pages: seq<Page<K, V>>, root: nat, sep: Option<Cell<K, nat>>): seq<Page<K, V>>
    requires root < |pages|
  {
    if sep.None? then pages else pages[root := InnerPage(|pages|, [sep.value])] + [pages[root]]
  }

  /** The tree in its pages after an insertion has come back to the root. */
  lemma RootStep<K(!new), V(!new)>(lay: Layout<K, V>, was: seq<Page<K, V>>, mid: seq<Page<K, V>>, t: Tree<K, V>, h: nat, c: Cell<K, V>)
    requires Ready(lay, t, c, |was|, None, None, h) && Stored(was, t, 0)
    requires Landed(was, mid, t, 0, InsertIn(lay, t, c, |was|))
    ensures var sep := SplitIds(InsertIn(lay, t, c, |was|)); var u := InsertTree(lay, t, c, |was|).0;
      && 0 < t.id < |mid| && u.id == t.id && (sep.Some? ==> lay.sepSize(sep.value.key) <= ROOM)
      && Stored(RootPages(mid, t.id, sep), u, 0)
      && Kept(was, RootPages(mid, t.id, sep), t, u)
  {
    var o := InsertIn(lay, t, c, |was|);
    StoredPages(was, t, 0);
    if o.split.Some? {
      InsertInSound(lay, t, c, |was|, None, None, h, o);
      RootSplits(lay, was, mid, t, h, o, o.split.value);
    }
  }

  lemma {:induction false} RootSplits<K(!new), V(!new)>(lay: Layout<K, V>, was: seq<Page<K, V>>, mid: seq<Page<K, V>>, t: Tree<K, V>, h: nat,
                                     o: Outcome<K, V>, s: Cell<K, Tree<K, V>>)
    requires Usable(lay) && t.id in Pages(t) && o.split == Some(s) && t.id < |mid|
    requires Sound(lay, o.tree, None, Some(s.key), h) && Sound(lay, s.val, Some(s.key), None, h) && lay.sepSize(s.key) <= ROOM
    requires Landed(was, mid, t, 0, o)
    ensures var u := GrowRoot(lay, o.tree, s, o.next); var now := RootPages(mid, t.id, SplitIds(o));
      u.id == t.id && Stored(now, u, 0) && Kept(was, now, t, u)
  {
    GrowRootSound(lay, o.tree, s, o.next, h);
    RootGrows(mid, RootPages(mid, t.id, SplitIds(o)), o.tree, s, 0);
  }

  /** The first separator of an interior page. */
  lemma OnlySeparator<K(!new), V(!new)>(lay: Layout<K, V>, sep: Cell<K, nat>)
    requires lay.sepSize(sep.key) <= ROOM
    ensures TryInsert(lay.cmp, IdSize(lay), [], sep) == Some([sep])
  {
    assert Cells.Insert(lay.cmp, [], sep) == [sep];
  }

  /** A tree in the pages of a store. Its root never moves to another page. */
  class PagedTree<K(!new), V(!new)> {
    const store: Store<K, V>
    const root: nat
    ghost var tree: Tree<K, V>
    ghost var height: nat

    ghost predicate Valid()
      reads this, store
    {
      && store.Guarded() && Usable(store.lay) && Generous(store.lay)
      && tree.id == root && Stored(store.pages, tree, 0) && SoundTree(store.lay, tree, height)
    }

    /** An empty tree: one leaf on a page of its own. */
    constructor (store: Store<K, V>)
      requires store.Guarded() && Usable(store.lay) && Generous(store.lay) && |store.pages| > 0
      modifies store`pages, store`log
      ensures this.store == store && Valid() && Entries(tree) == []
      ensures root == old(|store.pages|) && Pages(tree) == {root} && store.pages == old(store.pages) + [LeafPage([], 0)]
    {
      var id := store.Allocate();
      this.store, root, tree, height := store, id, Leaf(id, []), 0;
      new;
      store.InitLeaf(id);
    }

    // ---- insertion ----

    method SplitLeaf(id: nat, c: Cell<K, V>) returns (sep: Cell<K, nat>)
      requires store.Guarded() && store.Open(id) && store.pages[id].LeafPage?
      modifies store`pages, store`log
      ensures store.Guarded()
      ensures var was := old(store.pages); var all := Merged(store.lay.cmp, was[id].cells, c);
        && store.pages == LeafSplit(store.lay, was, id, was[id].cells, was[id].sibling, c)
        && sep == Cell(all[|all| / 2].key, |was|)
    {
      hide Logged;
      var all := Gather(store.lay.cmp, store.pages[id].cells, c);
      var mid := |all| / 2;
      var sibling := store.pages[id].sibling;
      var right := store.NewLeaf();
      ShareOut(id, right, all[..mid], all[mid..]);
      store.SetSibling(right, sibling);
      store.SetSibling(id, right);
      sep := Cell(all[mid].key, right);
    }

    /** Fills an old page and the new one behind it. */
    method ShareOut(id: nat, right: nat, x: seq<Cell<K, V>>, y: seq<Cell<K, V>>)
      requires store.Guarded() && store.Open(id) && store.pages[id].LeafPage? && store.Open(right) && id < right == |store.pages| - 1
      requires store.pages[right] == LeafPage([], 0)
      modifies store`pages, store`log
      ensures store.Guarded()
      ensures store.pages == old(store.pages)[
          id := LeafPage(Fill(store.lay.cmp, store.lay.leafSize, x), old(store.pages[id].sibling))][
          right := LeafPage(Fill(store.lay.cmp, store.lay.leafSize, y), 0)]
    {
      hide Logged;
      store.InitLeaf(id);
      store.FillLeaf(id, x);
      store.FillLeaf(right, y);
    }

    method SplitInner(id: nat, c: Cell<K, nat>) returns (sep: Cell<K, nat>)
      requires store.Guarded() && store.Open(id) && store.pages[id].InnerPage?
      modifies store`pages, store`log
      ensures store.Guarded()
      ensures var was := old(store.pages); var all := Merged(store.lay.cmp, was[id].kids, c);
        && store.pages == InnerSplit(store.lay, was, id, was[id].first, was[id].kids, c)
        && sep == Cell(all[|all| / 2].key, |was|)
    {
      hide Logged;
      var all := Gather(store.lay.cmp, store.pages[id].kids, c);
      var mid := |all| / 2;
      var right := FillNewInner(all[mid].val, all[mid + 1..]);
      RefillInner(id, all[..mid]);
      sep := Cell(all[mid].key, right);
    }

    method FillNewInner(first: nat, cells: seq<Cell<K, nat>>) returns (id: nat)
      requires store.Guarded()
      modifies store`pages, store`log
      ensures store.Guarded() && id == |old(store.pages)|
      ensures store.pages == old(store.pages) + [InnerPage(first, Fill(store.lay.cmp, IdSize(store.lay), cells))]
    {
      id := store.NewInner(first);
      store.FillInner(id, cells);
    }

    method RefillInner(id: nat, cells: seq<Cell<K, nat>>)
      requires store.Guarded() && store.Open(id) && store.pages[id].InnerPage?
      modifies store`pages, store`log
      ensures store.Guarded()
      ensures store.pages == old(store.pages)[id := InnerPage(old(store.pages[id].first), Fill(store.lay.cmp, IdSize(store.lay), cells))]
    {
      store.InitInner(id, store.pages[id].first);
      store.FillInner(id, cells);
    }

    method InsertOnLeaf(id: nat, c: Cell<K, V>, ghost t: Tree<K, V>, ghost after: nat) returns (sep: Option<Cell<K, nat>>)
      requires store.Guarded() && t.Leaf? && t.id == id && Stored(store.pages, t, after)
      modifies store`pages, store`log, store`announced
      ensures store.Guarded()
      ensures var was := old(store.pages); var o := InsertIn(store.lay, t, c, |was|);
        Landed(was, store.pages, t, after, o) && sep == SplitIds(o)
    {
      store.Write(id);
      ghost var was := store.pages;
      var ok := store.InsertLeaf(id, c);
      if ok {
        sep := None;
      } else {
        var s := SplitLeaf(id, c);
        sep := Some(s);
      }
      LeafStep(store.lay, was, store.pages, t, after, c);
    }

    method InsertOnInner(id: nat, c: Cell<K, nat>) returns (sep: Option<Cell<K, nat>>)
      requires store.Guarded() && id < |store.pages| && store.pages[id].InnerPage?
      modifies store`pages, store`log, store`announced
      ensures store.Guarded()
      ensures store.pages == InnerInserted(store.lay, old(store.pages), id, c)
      ensures sep == SplitOff(store.lay, old(store.pages), id, c)
    {
      store.Write(id);
      var ok := store.InsertInner(id, c);
      if ok {
        sep := None;
      } else {
        var s := SplitInner(id, c);
        sep := Some(s);
      }
    }

    /** Inserts below page `id`; t is the tree there, `after` the leaf behind it. */
    method InsertBelow(id: nat, c: Cell<K, V>, ghost t: Tree<K, V>, ghost after: nat,
                       ghost lo: Option<K>, ghost hi: Option<K>, ghost h: nat) returns (sep: Option<Cell<K, nat>>)
      requires store.Guarded() && t.id == id && Stored(store.pages, t, after)
      requires Ready(store.lay, t, c, |store.pages|, lo, hi, h)
      modifies store`pages, store`log, store`announced
      ensures store.Guarded()
      ensures var was := old(store.pages); var o := InsertIn(store.lay, t, c, |was|);
        Landed(was, store.pages, t, after, o) && sep == SplitIds(o)
      decreases h
    {
      if store.pages[id].LeafPage? {
        sep := InsertOnLeaf(id, c, t, after);
      } else {
        ghost var was, r := store.pages, Route(store.lay.cmp, t.kids, c.key);
        ghost var kid := KidOf(t.first, t.kids, r);
        ChildIsKid(store.lay.cmp, store.pages, t, after, c.key);
        KidReady(store.lay, t, c, |was|, lo, hi, h);
        sep := InsertBelow(ChildPage(store.lay.cmp, store.pages[id], c.key), c, kid, AfterKid(t.kids, r, after),
          Lower(t.kids, r, lo), Higher(t.kids, r, hi), h - 1);
        ghost var sub := InsertIn(store.lay, kid, c, |was|);
        InsertInStep(store.lay, t, c, |was|);
        if sep.None? {
          KidLanded(was, store.pages, t, after, r, sub);
        } else {
          NodeStep(store.lay, was, store.pages, t, after, c, lo, hi, h, sub.split.value);
          sep := InsertOnInner(id, sep.value);
        }
      }
    }

    method GrowRoot(sep: Cell<K, nat>)
      requires store.Guarded() && 0 < root < |store.pages| && store.lay.sepSize(sep.key) <= ROOM
      modifies store`pages, store`log, store`announced
      ensures store.Guarded() && store.pages == RootPages(old(store.pages), root, Some(sep))
    {
      hide Logged, TryInsert;
      ghost var was := store.pages;
      OnlySeparator(store.lay, sep);
      var left := store.Allocate();
      store.Put(left, store.pages[root]);
      assert store.pages == was + [was[root]];
      store.Write(root);
      store.InitInner(root, left);
      var _ := store.InsertInner(root, sep);
    }

    /**
    Inserts a fresh key. Exactly the new entry joins the tree if and only if the leaf it belongs on has
    room or splits into halves that fit. The root stays on its page, pages of other trees stay as they
    are, and every page that changes was announced before. A cell is refused only if it is not sure of room on an empty page.
    */
    method Insert(c: Cell<K, V>) returns (ok: bool)
      requires Valid()
      requires store.lay.accepts(c) ==> Absent(store.lay.cmp, Entries(tree), c.key) && SepsFit(store.lay, tree, c, |store.pages|)
      modifies this`tree, this`height, store`pages, store`log, store`announced
      ensures Valid()
      ensures ok == store.lay.accepts(c)
      ensures if ok then store.lay.leafSize(c) <= PAGE_SIZE - 10 else store.lay.leafSize(c) + 9 > PAGE_SIZE - 10
      ensures ok ==> tree == InsertTree(store.lay, old(tree), c, old(|store.pages|)).0
      ensures ok ==> (Entries(tree) == Cells.Insert(store.lay.cmp, old(Entries(tree)), c)
        <==> LeafFits(store.lay, LeafFor(store.lay.cmp, old(tree), c.key).cells, c))
      ensures !ok ==> tree == old(tree) && store.pages == old(store.pages)
      ensures Kept(old(store.pages), store.pages, old(tree), tree)
      ensures old(store.before) == old(store.pages) ==> store.Announced(old(store.pages))
    {
      if !store.lay.accepts(c) { return false; }
      ghost var h' := InsertTreeSound(store.lay, tree, c, |store.pages|, height);
      ghost var u := InsertFromRoot(c);
      tree, height := u, h';
      ok := true;
    }

    /** Inserts below the root and makes room at it for a separator that comes up. */
    method InsertFromRoot(c: Cell<K, V>) returns (ghost u: Tree<K, V>)
      requires Valid() && store.lay.accepts(c)
      requires Absent(store.lay.cmp, Entries(tree), c.key) && SepsFit(store.lay, tree, c, |store.pages|)
      modifies store`pages, store`log, store`announced
      ensures store.Guarded() && u == InsertTree(store.lay, tree, c, old(|store.pages|)).0
      ensures u.id == root && Stored(store.pages, u, 0) && Kept(old(store.pages), store.pages, tree, u)
    {
      hide Logged;
      ghost var was := store.pages;
      var sep := InsertBelow(root, c, tree, 0, None, None, height);
      RootStep(store.lay, was, store.pages, tree, height, c);
      if sep.Some? { GrowRoot(sep.value); }
      u := InsertTree(store.lay, tree, c, |was|).0;
    }

    // ---- search, deletion, update ----

    method Search(key: K) returns (id: nat, slot: nat, found: bool)
      requires Valid()
      ensures var leaf := LeafFor(store.lay.cmp, tree, key);
        && id == leaf.id < |store.pages| && store.pages[id].LeafPage? && store.pages[id].cells == leaf.cells
        && slot == Slot(store.lay.cmp, leaf.cells, key) && found == Found(store.lay.cmp, leaf.cells, key)
    {
      id := root;
      ghost var t, after := tree, 0;
      while !store.pages[id].LeafPage?
        invariant Stored(store.pages, t, after) && t.id == id
        invariant LeafFor(store.lay.cmp, t, key) == LeafFor(store.lay.cmp, tree, key)
        decreases t
      {
        ghost var r := Route(store.lay.cmp, t.kids, key);
        ChildIsKid(store.lay.cmp, store.pages, t, after, key);
        id := ChildPage(store.lay.cmp, store.pages[id], key);
        t, after := KidOf(t.first, t.kids, r), AfterKid(t.kids, r, after);
      }
      slot, found := Slot(store.lay.cmp, store.pages[id].cells, key), Found(store.lay.cmp, store.pages[id].cells, key);
    }

    method Get(key: K) returns (val: Option<V>)
      requires Valid()
      ensures val == Lookup(store.lay.cmp, Entries(tree), key)
    {
      GetIsLookup(store.lay, tree, key, None, None, height);
      var id, slot, found := Search(key);
      val := if found then Some(store.pages[id].cells[slot].val) else None;
    }

    method DeleteSlot(id: nat, slot: nat)
      requires store.Guarded() && id < |store.pages| && store.pages[id].LeafPage? && slot < |store.pages[id].cells|
      modifies store`pages, store`log, store`announced
      ensures store.Guarded()
      ensures var page := old(store.pages)[id];
        store.pages == old(store.pages)[id := LeafPage(Fill(store.lay.cmp, store.lay.leafSize, RemoveAt(page.cells, slot)), page.sibling)]
    {
      hide Logged;
      store.Write(id);
      store.DeleteLeaf(id, slot);
    }

    /** Removes exactly the entry of the key, if there is one. */
    method Delete(key: K) returns (found: bool)
      requires Valid()
      modifies this`tree, store`pages, store`log, store`announced
      ensures Valid()
      ensures found <==> Found(store.lay.cmp, old(Entries(tree)), key)
      ensures tree == DeleteIn(store.lay, old(tree), key) && (!found ==> tree == old(tree) && store.pages == old(store.pages))
      ensures Entries(tree) == Cells.Delete(store.lay.cmp, old(Entries(tree)), key)
      ensures |store.pages| == |old(store.pages)| && Kept(old(store.pages), store.pages, old(tree), tree)
      ensures old(store.before) == old(store.pages) ==> store.Announced(old(store.pages))
    {
      ghost var was, t, leaf := store.pages, tree, LeafFor(store.lay.cmp, tree, key);
      GetIsLookup(store.lay, t, key, None, None, height);
      DeleteSound(store.lay, t, key, None, None, height);
      var id, slot, hit := Search(key);
      found := hit;
      if hit {
        DeleteSlot(id, slot);
      } else {
        NothingDeleted(store.lay, t, key);
      }
      assert store.pages == was[id := LeafPage(DeleteIn(store.lay, leaf, key).cells, was[id].sibling)];
      StoredDelete(store.lay, was, store.pages, t, 0, key);
      StoredPages(store.pages, DeleteIn(store.lay, t, key), 0);
      tree := DeleteIn(store.lay, t, key);
    }

    /** Replaces one payload; nothing else changes if and only if the leaf has room or splits into halves that fit. */
    method Update(c: Cell<K, V>) returns (done: bool)
      requires Valid() && store.lay.accepts(c)
      requires SepsFit(store.lay, DeleteIn(store.lay, tree, c.key), c, |store.pages|)
      modifies this`tree, this`height, store`pages, store`log, store`announced
      ensures Valid()
      ensures var cells := old(Entries(tree));
        && (done <==> Found(store.lay.cmp, cells, c.key))
        && (!done ==> tree == old(tree))
        && (done ==> (Entries(tree) == cells[Slot(store.lay.cmp, cells, c.key) := c] <==> UpdateFits(store.lay, old(tree), c)))
      ensures Kept(old(store.pages), store.pages, old(tree), tree)
      ensures old(store.before) == old(store.pages) ==> store.Announced(old(store.pages))
    {
      ghost var cells := Entries(tree);
      SoundEntries(store.lay, tree, None, None, height);
      DeleteSorted(store.lay.cmp, cells, c.key);
      done := Delete(c.key);
      if done {
        ReplaceEntry(store.lay.cmp, cells, c);
        var _ := Insert(c);
      }
    }
  }

  /** Where a search leaves a cursor in the chain of leaves, and what lies from there on. */
  lemma SeekPlace<K(!new), V(!new)>(lay: Layout<K, V>, pages: seq<Page<K, V>>, t: Tree<K, V>, h: nat, key: K) returns (k: nat)
    requires TotalPreorder(lay.cmp) && SoundTree(lay, t, h) && Stored(pages, t, 0)
    ensures k < |LeafIds(t)| && LeafIds(t)[k] == LeafFor(lay.cmp, t, key).id && Linked(pages, LeafIds(t), 0)
    ensures var cells := pages[LeafIds(t)[k]].cells; var i := Slot(lay.cmp, cells, key);
      Entries(t)[Slot(lay.cmp, Entries(t), key)..] == cells[i..] + ChainCells(pages, LeafIds(t)[k + 1..])
  {
    ChainStored(pages, t, 0);
    k := LeafInChain(lay, pages, t, 0, key, None, None, h);
    SlotInChain(lay.cmp, pages, LeafIds(t), k, key);
  }

  /** Walks the sibling chain. `chain` are the leaves of the tree, `at` the one it stands on. */
  class Cursor<K(!new), V(!new)> {
    const store: Store<K, V>
    var leaf: nat
    var slot: int
    ghost const chain: seq<nat>
    ghost var at: nat

    ghost predicate Valid()
      reads this, store
    {
      && Linked(store.pages, chain, 0) && at < |chain| && chain[at] == leaf && slot >= -1
    }

    /** The entries that calls of Next have not yet come to. */
    ghost function Todo(): seq<Cell<K, V>>
      requires Valid()
      reads this, store
    {
      var cells := store.pages[leaf].cells;
      (if slot + 1 >= |cells| then [] else cells[slot + 1..]) + ChainCells(store.pages, chain[at + 1..])
    }

    /** Stands before the first entry of the tree. */
    constructor First(t: PagedTree<K, V>)
      requires t.Valid()
      ensures store == t.store && Valid() && Todo() == Entries(t.tree)
    {
      var id := t.root;
      ghost var sub, after := t.tree, 0;
      while !t.store.pages[id].LeafPage?
        invariant Stored(t.store.pages, sub, after) && sub.id == id && FirstId(sub) == FirstId(t.tree)
        decreases sub
      {
        id := t.store.pages[id].first;
        sub, after := sub.first, AfterKid(sub.kids, 0, after);
      }
      ChainStored(t.store.pages, t.tree, 0);
      store, leaf, slot, chain, at := t.store, id, -1, LeafIds(t.tree), 0;
      new;
      assert chain == [chain[0]] + chain[1..];
      ChainCellsAppend(store.pages, [chain[0]], chain[1..]);
    }

    /** Stands before the first entry whose key is not less than `key`. */
    constructor Seek(t: PagedTree<K, V>, key: K)
      requires t.Valid()
      ensures store == t.store && Valid()
      ensures var cells := Entries(t.tree); Todo() == cells[Slot(t.store.lay.cmp, cells, key)..]
    {
      var id, i, found := t.Search(key);
      ghost var k := SeekPlace(t.store.lay, t.store.pages, t.tree, t.height, key);
      var slot: int := i;
      this.store, leaf, this.slot, chain, at := t.store, id, slot - 1, LeafIds(t.tree), k;
    }

    /**
    Steps to the next entry, over any number of empty leaves; false exactly when there is none, and
    then for good.
    */
    method Next() returns (more: bool)
      requires Valid()
      modifies this
      ensures Valid()
      ensures more == (old(Todo()) != [])
      ensures more ==> 0 <= slot < |store.pages[leaf].cells| && [store.pages[leaf].cells[slot]] + Todo() == old(Todo())
      ensures !more ==> Todo() == []
    {
      ghost var todo := Todo();
      slot := slot + 1;
      while slot >= |store.pages[leaf].cells|
        invariant Valid() && slot >= 0
        invariant todo == (if slot >= |store.pages[leaf].cells| then [] else store.pages[leaf].cells[slot..]) + ChainCells(store.pages, chain[at + 1..])
        decreases |chain| - at
      {
        var sibling := store.pages[leaf].sibling;
        assert LinkedAt(store.pages, chain, at, 0);
        assert at + 1 < |chain| ==> LinkedAt(store.pages, chain, at + 1, 0);
        if sibling == 0 { return false; }
        assert chain[at + 1..][0] == sibling && chain[at + 1..][1..] == chain[at + 2..];
        leaf, at := sibling, at + 1;
        slot := 0;
      }
      more := true;
    }
  }
}
