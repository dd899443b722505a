/**
How a tree lies in pages: which page holds which node, and that the sibling pointers of the leaves
follow their order in the tree.
*/
module TreeHeap {
  import opened Bytes
  import opened Cells
  import opened BTree
  import opened BTreeOps

  /** A page as the tree sees it. A sibling of 0 ends the chain: page 0 belongs to the catalog. */
  datatype Page<+K, +V> =
    | Blank
    | LeafPage(cells: seq<Cell<K, V>>, sibling: nat)
    | InnerPage(first: nat, kids: seq<Cell<K, nat>>)

  /** The page number that every page has room for: the sibling of a leaf, the first child of an interior page. */
  function Extra<K, V>(page: Page<K, V>): nat {
    match page
    case Blank => 0
    case LeafPage(_, sibling) => sibling
    case InnerPage(first, _) => first
  }

  function Ids<K, V>(kids: seq<Cell<K, Tree<K, V>>>): (r: seq<Cell<K, nat>>)
    ensures |r| == |kids|
    ensures forall i {:trigger r[i]} :: 0 <= i < |r| ==> r[i] == Cell(kids[i].key, kids[i].val.id)
  {
    seq(|kids|, i requires 0 <= i < |kids| => Cell(kids[i].key, kids[i].val.id))
  }

  /** The page of the leftmost leaf. */
  function FirstId<K, V>(t: Tree<K, V>): nat {
    match t
    case Leaf(id, _) => id
    case Node(_, first, _) => FirstId(first)
  }

  /** All pages of a tree. */
  function Pages<K, V>(t: Tree<K, V>): set<nat>
    decreases t
  {
    match t
    case Leaf(id, _) => {id}
    case Node(id, first, kids) => {id} + set i: nat, p: nat | i <= |kids| && p in Pages(KidOf(first, kids, i)) :: p
  }

  /** The leaf that follows the leaves of child i. */
  function AfterKid<K, V>(kids: seq<Cell<K, Tree<K, V>>>, i: nat, after: nat): nat
    requires i <= |kids|
  {
    if i == |kids| then after else FirstId(kids[i].val)
  }

  /** No page is used twice. */
  ghost predicate Apart<K, V>(t: Tree<K, V>)
    requires t.Node?
  {
    && (forall i :: 0 <= i <= |t.kids| ==> t.id !in Pages(KidOf(t.first, t.kids, i)))
    && (forall i, j :: 0 <= i < j <= |t.kids| ==> Pages(KidOf(t.first, t.kids, i)) !! Pages(KidOf(t.first, t.kids, j)))
  }

  ghost predicate StoredKids<K, V>(pages: seq<Page<K, V>>, t: Tree<K, V>, after: nat)
    requires t.Node?
    decreases t, 0
  {
    forall i :: 0 <= i <= |t.kids| ==> Stored(pages, KidOf(t.first, t.kids, i), AfterKid(t.kids, i, after))
  }

  /** The pages hold the tree, every node on a page of its own, and `after` follows its last leaf. */
  ghost predicate Stored<K, V>(pages: seq<Page<K, V>>, t: Tree<K, V>, after: nat)
    decreases t, 1
  {
    && 0 < t.id < |pages|
    && match t
       case Leaf(id, cells) => pages[id] == LeafPage(cells, after)
       case Node(id, first, kids) => pages[id] == InnerPage(first.id, Ids(kids)) && Apart(t) && StoredKids(pages, t, after)
  }

  lemma {:induction false} StoredPages<K, V>(pages: seq<Page<K, V>>, t: Tree<K, V>, after: nat)
    requires Stored(pages, t, after)
    ensures forall p :: p in Pages(t) ==> 0 < p < |pages|
    ensures t.id in Pages(t) && FirstId(t) in Pages(t)
    decreases t
  {
    if t.Node? {
      forall i | 0 <= i <= |t.kids|
        ensures forall p :: p in Pages(KidOf(t.first, t.kids, i)) ==> 0 < p < |pages|
        ensures FirstId(KidOf(t.first, t.kids, i)) in Pages(KidOf(t.first, t.kids, i))
      {
        StoredPages(pages, KidOf(t.first, t.kids, i), AfterKid(t.kids, i, after));
      }
      assert FirstId(KidOf(t.first, t.kids, 0)) in Pages(t);
    }
  }

  /** Pages outside a tree may change. */
  lemma {:induction false} StoredFrame<K, V>(pages: seq<Page<K, V>>, pages': seq<Page<K, V>>, t: Tree<K, V>, after: nat)
    requires Stored(pages, t, after)
    requires forall p :: p in Pages(t) ==> p < |pages'| && (p < |pages| ==> pages'[p] == pages[p])
    ensures Stored(pages', t, after)
    decreases t
  {
    assert t.id in Pages(t);
    if t.Node? {
      forall i | 0 <= i <= |t.kids|
        ensures Stored(pages', KidOf(t.first, t.kids, i), AfterKid(t.kids, i, after))
      {
        var kid := KidOf(t.first, t.kids, i);
        assert forall p :: p in Pages(kid) ==> p in Pages(t);
        StoredFrame(pages, pages', kid, AfterKid(t.kids, i, after));
      }
    }
  }

  /** What an insertion into a subtree leaves behind. */
  ghost predicate Landed<K(!new), V(!new)>(was: seq<Page<K, V>>, now: seq<Page<K, V>>, t: Tree<K, V>, after: nat, o: Outcome<K, V>) {
    && |was| <= |now| == o.next
    && (forall p :: 0 <= p < |was| && p !in Pages(t) ==> now[p] == was[p])
    && (forall p :: p in Pages(o.tree) ==> p in Pages(t) || p >= |was|)
    && o.tree.id == t.id && FirstId(o.tree) == FirstId(t)
    && (o.split.None? ==> Stored(now, o.tree, after))
    && (forall s :: o.split == Some(s) ==> Parted(was, now, t, after, o.tree, s))
  }

  ghost predicate Parted<K, V>(was: seq<Page<K, V>>, now: seq<Page<K, V>>, t: Tree<K, V>, after: nat,
                               left: Tree<K, V>, s: Cell<K, Tree<K, V>>) {
    && Stored(now, left, FirstId(s.val)) && Stored(now, s.val, after)
    && Pages(left) !! Pages(s.val)
    && (forall p :: p in Pages(s.val) ==> p in Pages(t) || p >= |was|)
  }

  // ---- children ----

  /** One child was changed in its own pages and new ones, without being split. */
  lemma KidLanded<K(!new), V(!new)>(was: seq<Page<K, V>>, now: seq<Page<K, V>>, t: Tree<K, V>, after: nat, r: nat, sub: Outcome<K, V>)
    requires t.Node? && r <= |t.kids| && Stored(was, t, after) && sub.split.None?
    requires Landed(was, now, KidOf(t.first, t.kids, r), AfterKid(t.kids, r, after), sub)
    ensures Landed(was, now, t, after, Outcome(WithKid(t, r, sub.tree), None, sub.next))
  {
    var u := WithKid(t, r, sub.tree);
    KidIds(t, r, sub.tree);
    StoredPages(was, t, after);
    forall i | 0 <= i <= |u.kids| ensures Stored(now, KidOf(u.first, u.kids, i), AfterKid(u.kids, i, after)) {
      if i != r { OtherKid(was, now, t, after, r, i); }
    }
    KidApart(was, t, after, r, sub.tree);
  }

  lemma KidIds<K, V>(t: Tree<K, V>, r: nat, kid: Tree<K, V>)
    requires t.Node? && r <= |t.kids| && kid.id == KidOf(t.first, t.kids, r).id && FirstId(kid) == FirstId(KidOf(t.first, t.kids, r))
    ensures var u := WithKid(t, r, kid);
      && u.Node? && u.id == t.id && |u.kids| == |t.kids| && u.first.id == t.first.id && Ids(u.kids) == Ids(t.kids)
      && FirstId(u) == FirstId(t)
      && (forall i, after :: 0 <= i <= |t.kids| ==> AfterKid(u.kids, i, after) == AfterKid(t.kids, i, after))
      && (forall i :: 0 <= i <= |t.kids| ==> KidOf(u.first, u.kids, i) == if i == r then kid else KidOf(t.first, t.kids, i))
  {
  }

  lemma {:induction false} OtherKid<K, V>(was: seq<Page<K, V>>, now: seq<Page<K, V>>, t: Tree<K, V>, after: nat, r: nat, i: nat)
    requires t.Node? && r <= |t.kids| && i <= |t.kids| && i != r && Stored(was, t, after) && |was| <= |now|
    requires forall p :: 0 <= p < |was| && p !in Pages(KidOf(t.first, t.kids, r)) ==> now[p] == was[p]
    ensures Stored(now, KidOf(t.first, t.kids, i), AfterKid(t.kids, i, after))
  {
    var kid := KidOf(t.first, t.kids, i);
    StoredPages(was, kid, AfterKid(t.kids, i, after));
    assert Pages(kid) !! Pages(KidOf(t.first, t.kids, r));
    StoredFrame(was, now, kid, AfterKid(t.kids, i, after));
  }

  lemma {:induction false} KidApart<K, V>(was: seq<Page<K, V>>, t: Tree<K, V>, after: nat, r: nat, kid: Tree<K, V>)
    requires t.Node? && r <= |t.kids| && Stored(was, t, after)
    requires forall p :: p in Pages(kid) ==> p in Pages(KidOf(t.first, t.kids, r)) || p >= |was|
    ensures Apart(WithKid(t, r, kid))
    ensures forall p :: p in Pages(WithKid(t, r, kid)) ==> p in Pages(t) || p >= |was|
  {
    var u := WithKid(t, r, kid);
    forall i | 0 <= i <= |t.kids|
      ensures KidOf(u.first, u.kids, i) == if i == r then kid else KidOf(t.first, t.kids, i)
      ensures forall p :: p in Pages(KidOf(t.first, t.kids, i)) ==> p < |was| && p in Pages(t)
    {
      StoredPages(was, KidOf(t.first, t.kids, i), AfterKid(t.kids, i, after));
    }
  }

  /** A node whose child was split, its own page aside: the children with both halves among them. */
  ghost predicate Opened<K(!new), V(!new)>(was: seq<Page<K, V>>, mid: seq<Page<K, V>>, t: Tree<K, V>, after: nat, w: Tree<K, V>) {
    && t.Node? && w.Node? && w.id == t.id && FirstId(w) == FirstId(t)
    && t.id in Pages(t) && 0 < t.id < |was| <= |mid|
    && Apart(w) && StoredKids(mid, w, after)
    && (forall p :: p in Pages(w) ==> (p in Pages(t) || p >= |was|) && p < |mid|)
    && (forall p :: 0 <= p < |was| && p !in Pages(t) ==> mid[p] == was[p])
  }

  lemma KidParted<K(!new), V(!new)>(was: seq<Page<K, V>>, mid: seq<Page<K, V>>, t: Tree<K, V>, after: nat, r: nat, sub: Outcome<K, V>)
    requires t.Node? && r <= |t.kids| && Stored(was, t, after) && sub.split.Some?
    requires Landed(was, mid, KidOf(t.first, t.kids, r), AfterKid(t.kids, r, after), sub)
    ensures var u := WithKid(t, r, sub.tree);
      && Opened(was, mid, t, after, Node(t.id, u.first, InsertAt(u.kids, r, sub.split.value)))
      && mid[t.id] == InnerPage(u.first.id, Ids(u.kids))
  {
    var u, s := WithKid(t, r, sub.tree), sub.split.value;
    var w := Node(t.id, u.first, InsertAt(u.kids, r, s));
    KidIds(t, r, sub.tree);
    StoredPages(was, t, after);
    KidApart(was, t, after, r, sub.tree);
    forall i | 0 <= i <= |w.kids| ensures Stored(mid, KidOf(w.first, w.kids, i), AfterKid(w.kids, i, after)) {
      SplitKidAt(u, r, s, i, after);
      var j := if i <= r then i else i - 1;
      if j != r { OtherKid(was, mid, t, after, r, j); }
    }
    SplitApart(was, t, after, r, sub.tree, s, w);
    forall p | p in Pages(w) ensures (p in Pages(t) || p >= |was|) && p < |mid| {
      if p != w.id {
        var i :| 0 <= i <= |w.kids| && p in Pages(KidOf(w.first, w.kids, i));
        StoredPages(mid, KidOf(w.first, w.kids, i), AfterKid(w.kids, i, after));
      }
    }
  }

  /** Which child stands at position i, and what follows it, after a child was added after child r. */
  lemma SplitKidAt<K, V>(u: Tree<K, V>, r: nat, s: Cell<K, Tree<K, V>>, i: nat, after: nat)
    requires u.Node? && r <= |u.kids| && i <= |u.kids| + 1
    ensures var all := InsertAt(u.kids, r, s);
      && KidOf(u.first, all, i) == (if i <= r then KidOf(u.first, u.kids, i) else if i == r + 1 then s.val else KidOf(u.first, u.kids, i - 1))
      && AfterKid(all, i, after) == (if i < r then AfterKid(u.kids, i, after) else if i == r then FirstId(s.val) else AfterKid(u.kids, i - 1, after))
  {
  }

  lemma {:induction false} SplitApart<K, V>(was: seq<Page<K, V>>, t: Tree<K, V>, after: nat, r: nat, left: Tree<K, V>, s: Cell<K, Tree<K, V>>, w: Tree<K, V>)
    requires t.Node? && r <= |t.kids| && Stored(was, t, after) && Apart(WithKid(t, r, left))
    requires w == Node(t.id, WithKid(t, r, left).first, InsertAt(WithKid(t, r, left).kids, r, s))
    requires Pages(left) !! Pages(s.val)
    requires forall p :: p in Pages(s.val) || p in Pages(left) ==> p in Pages(KidOf(t.first, t.kids, r)) || p >= |was|
    ensures Apart(w)
    ensures forall p :: p in Pages(w) ==> p in Pages(t) || p >= |was|
  {
    var u := WithKid(t, r, left);
    StoredPages(was, t, after);
    forall i | 0 <= i <= |u.kids| ensures Pages(KidOf(u.first, u.kids, i)) !! Pages(s.val) {
      assert KidOf(u.first, u.kids, i) == if i == r then left else KidOf(t.first, t.kids, i);
      StoredPages(was, KidOf(t.first, t.kids, i), AfterKid(t.kids, i, after));
    }
    KidAddedApart(u, r, s, w);
    KidApart(was, t, after, r, left);
  }

  lemma {:induction false} KidAddedApart<K, V>(u: Tree<K, V>, r: nat, s: Cell<K, Tree<K, V>>, w: Tree<K, V>)
    requires u.Node? && r <= |u.kids| && Apart(u) && w == Node(u.id, u.first, InsertAt(u.kids, r, s))
    requires forall i :: 0 <= i <= |u.kids| ==> Pages(KidOf(u.first, u.kids, i)) !! Pages(s.val)
    requires u.id !in Pages(s.val)
    ensures Apart(w)
    ensures forall p :: p in Pages(w) ==> p in Pages(u) || p in Pages(s.val)
  {
    forall i | 0 <= i <= |w.kids|
      ensures w.id !in Pages(KidOf(w.first, w.kids, i))
      ensures forall p :: p in Pages(KidOf(w.first, w.kids, i)) ==> p in Pages(u) || p in Pages(s.val)
      ensures forall j :: i < j <= |w.kids| ==> Pages(KidOf(w.first, w.kids, i)) !! Pages(KidOf(w.first, w.kids, j))
    {
      SplitKidAt(u, r, s, i, 0);
      forall j | i < j <= |w.kids| ensures Pages(KidOf(w.first, w.kids, i)) !! Pages(KidOf(w.first, w.kids, j)) {
        SplitKidAt(u, r, s, j, 0);
      }
    }
  }

  /** The opened node fits its page. */
  lemma NodeStays<K(!new), V(!new)>(was: seq<Page<K, V>>, mid: seq<Page<K, V>>, now: seq<Page<K, V>>, t: Tree<K, V>, after: nat, w: Tree<K, V>)
    requires Opened(was, mid, t, after, w)
    requires now == mid[t.id := InnerPage(w.first.id, Ids(w.kids))]
    ensures Landed(was, now, t, after, Outcome(w, None, |now|))
  {
    ChildrenFrame(mid, now, w, after);
  }

  /** Children do not notice what happens to the page of their parent, nor pages that are added. */
  lemma {:induction false} ChildrenFrame<K, V>(mid: seq<Page<K, V>>, now: seq<Page<K, V>>, w: Tree<K, V>, after: nat)
    requires w.Node? && Apart(w) && StoredKids(mid, w, after) && |mid| <= |now|
    requires forall p :: 0 <= p < |mid| && p != w.id ==> now[p] == mid[p]
    ensures StoredKids(now, w, after)
  {
    forall i | 0 <= i <= |w.kids| ensures Stored(now, KidOf(w.first, w.kids, i), AfterKid(w.kids, i, after)) {
      StoredPages(mid, KidOf(w.first, w.kids, i), AfterKid(w.kids, i, after));
      StoredFrame(mid, now, KidOf(w.first, w.kids, i), AfterKid(w.kids, i, after));
    }
  }

  /** The opened node is cut at its median, whose child becomes the leftmost one of a new page. */
  lemma NodeCut<K(!new), V(!new)>(was: seq<Page<K, V>>, mid: seq<Page<K, V>>, now: seq<Page<K, V>>, t: Tree<K, V>, after: nat,
                                  w: Tree<K, V>, m: nat)
    requires Opened(was, mid, t, after, w) && m < |w.kids|
    requires now == mid[t.id := InnerPage(w.first.id, Ids(w.kids[..m]))] + [InnerPage(w.kids[m].val.id, Ids(w.kids[m + 1..]))]
    ensures Landed(was, now, t, after, CutNode(w, w.kids, m, |mid|))
  {
    var a, b := Node(w.id, w.first, w.kids[..m]), Node(|mid|, w.kids[m].val, w.kids[m + 1..]);
    ChildrenFrame(mid, now, w, after);
    CutPages(w, a, b, m);
    forall i | 0 <= i <= |a.kids| ensures Stored(now, KidOf(a.first, a.kids, i), AfterKid(a.kids, i, FirstId(b))) {
      assert AfterKid(a.kids, i, FirstId(b)) == AfterKid(w.kids, i, after);
    }
    forall i | 0 <= i <= |b.kids| ensures Stored(now, KidOf(b.first, b.kids, i), AfterKid(b.kids, i, after)) {
      assert AfterKid(b.kids, i, after) == AfterKid(w.kids, m + 1 + i, after);
    }
    assert now[w.id] == InnerPage(a.first.id, Ids(a.kids)) && now[|mid|] == InnerPage(b.first.id, Ids(b.kids));
    CutStored(was, mid, now, t, after, w, a, b, m);
  }

  lemma CutStored<K(!new), V(!new)>(was: seq<Page<K, V>>, mid: seq<Page<K, V>>, now: seq<Page<K, V>>, t: Tree<K, V>, after: nat,
                                    w: Tree<K, V>, a: Tree<K, V>, b: Tree<K, V>, m: nat)
    requires Opened(was, mid, t, after, w) && m < |w.kids| && |now| == |mid| + 1
    requires a == Node(w.id, w.first, w.kids[..m]) && b == Node(|mid|, w.kids[m].val, w.kids[m + 1..])
    requires forall p :: 0 <= p < |mid| && p != t.id ==> now[p] == mid[p]
    requires now[a.id] == InnerPage(a.first.id, Ids(a.kids)) && now[b.id] == InnerPage(b.first.id, Ids(b.kids))
    requires StoredKids(now, a, FirstId(b)) && StoredKids(now, b, after) && Apart(a) && Apart(b)
    requires Pages(a) !! Pages(b) && Pages(a) <= Pages(w) && Pages(b) <= Pages(w) + {|mid|}
    ensures Landed(was, now, t, after, CutNode(w, w.kids, m, |mid|))
  {
    assert Stored(now, a, FirstId(b)) && Stored(now, b, after);
  }

  /** The children of a are those of w, from child `from` on. */
  ghost predicate PartOf<K, V>(w: Tree<K, V>, a: Tree<K, V>, from: nat)
    requires w.Node? && a.Node?
  {
    && from + |a.kids| <= |w.kids|
    && forall i {:trigger KidOf(a.first, a.kids, i)} :: 0 <= i <= |a.kids| ==> KidOf(a.first, a.kids, i) == KidOf(w.first, w.kids, from + i)
  }

  lemma {:induction false} CutPages<K, V>(w: Tree<K, V>, a: Tree<K, V>, b: Tree<K, V>, m: nat)
    requires w.Node? && Apart(w) && m < |w.kids| && b.id !in Pages(w)
    requires a == Node(w.id, w.first, w.kids[..m]) && b.Node? && b == Node(b.id, w.kids[m].val, w.kids[m + 1..])
    ensures PartOf(w, a, 0) && PartOf(w, b, m + 1)
    ensures Apart(a) && Apart(b)
    ensures Pages(a) <= Pages(w) && Pages(b) <= Pages(w) + {b.id} && Pages(a) !! Pages(b)
  {
    assert PartOf(w, a, 0);
    assert PartOf(w, b, m + 1);
    PartApart(w, a, 0);
    PartApart(w, b, m + 1);
    assert Pages(a) <= Pages(w) by { PartPages(w, a, 0); }
    assert Pages(b) <= Pages(w) + {b.id} by { PartPages(w, b, m + 1); }
    PartsApart(w, a, b, m);
  }

  lemma PartPages<K, V>(w: Tree<K, V>, a: Tree<K, V>, from: nat)
    requires w.Node? && a.Node? && PartOf(w, a, from)
    ensures Pages(a) <= Pages(w) + {a.id}
  {
    forall p | p in Pages(a) && p != a.id ensures p in Pages(w) {
      var i :| 0 <= i <= |a.kids| && p in Pages(KidOf(a.first, a.kids, i));
      assert p in Pages(KidOf(w.first, w.kids, from + i));
    }
  }

  lemma PartApart<K, V>(w: Tree<K, V>, a: Tree<K, V>, from: nat)
    requires w.Node? && Apart(w) && a.Node? && PartOf(w, a, from)
    requires a.id == w.id || a.id !in Pages(w)
    ensures Apart(a)
  {
    forall i | 0 <= i <= |a.kids| ensures a.id !in Pages(KidOf(a.first, a.kids, i)) {
      assert forall p :: p in Pages(KidOf(w.first, w.kids, from + i)) ==> p in Pages(w);
    }
  }

  lemma {:induction false} PartsApart<K, V>(w: Tree<K, V>, a: Tree<K, V>, b: Tree<K, V>, m: nat)
    requires w.Node? && Apart(w) && a.Node? && b.Node? && |a.kids| == m && m + 1 + |b.kids| == |w.kids|
    requires a.id == w.id && b.id !in Pages(w)
    requires PartOf(w, a, 0) && PartOf(w, b, m + 1) && Pages(a) <= Pages(w)
    ensures Pages(a) !! Pages(b)
  {
    forall p | p in Pages(b) ensures p !in Pages(a) {
      if p != b.id {
        var i :| 0 <= i <= |b.kids| && p in Pages(KidOf(b.first, b.kids, i));
        NotInPart(w, a, m, m + 1 + i, p);
      }
    }
  }

  lemma NotInPart<K, V>(w: Tree<K, V>, a: Tree<K, V>, m: nat, i: nat, p: nat)
    requires w.Node? && Apart(w) && a.Node? && a.id == w.id && |a.kids| == m < i <= |w.kids| && PartOf(w, a, 0)
    requires p in Pages(KidOf(w.first, w.kids, i))
    ensures p !in Pages(a)
  {
    forall j | 0 <= j <= |a.kids| ensures p !in Pages(KidOf(a.first, a.kids, j)) {
      assert Pages(KidOf(w.first, w.kids, j)) !! Pages(KidOf(w.first, w.kids, i));
    }
  }

  // ---- leaves and the root ----

  lemma LeafStays<K(!new), V(!new)>(was: seq<Page<K, V>>, now: seq<Page<K, V>>, t: Tree<K, V>, after: nat, cells: seq<Cell<K, V>>)
    requires t.Leaf? && Stored(was, t, after) && now == was[t.id := LeafPage(cells, after)]
    ensures Landed(was, now, t, after, Outcome(Leaf(t.id, cells), None, |now|))
  {
  }

  /** A leaf is split: the new leaf takes over its sibling and becomes its sibling. */
  lemma LeafParts<K(!new), V(!new)>(was: seq<Page<K, V>>, now: seq<Page<K, V>>, t: Tree<K, V>, after: nat,
                                    key: K, x: seq<Cell<K, V>>, y: seq<Cell<K, V>>)
    requires t.Leaf? && Stored(was, t, after)
    requires now == was[t.id := LeafPage(x, |was|)] + [LeafPage(y, after)]
    ensures Landed(was, now, t, after, Outcome(Leaf(t.id, x), Some(Cell(key, Leaf(|was|, y))), |now|))
  {
  }

  /** The root moves to a new page and its old page becomes the parent of both halves. */
  lemma RootGrows<K(!new), V(!new)>(mid: seq<Page<K, V>>, now: seq<Page<K, V>>, left: Tree<K, V>, s: Cell<K, Tree<K, V>>, after: nat)
    requires Stored(mid, left, FirstId(s.val)) && Stored(mid, s.val, after) && Pages(left) !! Pages(s.val)
    requires now == mid[left.id := InnerPage(|mid|, [Cell(s.key, s.val.id)])] + [mid[left.id]]
    ensures Stored(now, Node(left.id, left.(id := |mid|), [s]), after)
    ensures forall p :: p in Pages(Node(left.id, left.(id := |mid|), [s])) ==> p in Pages(left) || p in Pages(s.val) || p == |mid|
  {
    var moved := left.(id := |mid|);
    var root := Node(left.id, moved, [s]);
    StoredPages(mid, left, FirstId(s.val));
    StoredPages(mid, s.val, after);
    StoredFrame(mid, now, s.val, after);
    RootMoves(mid, now, left, |mid|, FirstId(s.val));
    assert KidOf(moved, [s], 0) == moved && KidOf(moved, [s], 1) == s.val;
    assert now[left.id] == InnerPage(moved.id, Ids([s]));
  }

  lemma RootMoves<K, V>(mid: seq<Page<K, V>>, now: seq<Page<K, V>>, left: Tree<K, V>, id: nat, after: nat)
    requires Stored(mid, left, after) && |mid| <= id < |now| && now[id] == mid[left.id]
    requires forall p :: 0 <= p < |mid| && p != left.id ==> now[p] == mid[p]
    ensures Stored(now, left.(id := id), after)
    ensures left.id !in Pages(left.(id := id))
    ensures forall p :: p in Pages(left.(id := id)) ==> p in Pages(left) || p == id
  {
    var moved := left.(id := id);
    if left.Node? {
      StoredPages(mid, left, after);
      ChildrenFrame(mid, now, left, after);
      assert StoredKids(now, moved, after);
      forall i | 0 <= i <= |left.kids| ensures id !in Pages(KidOf(left.first, left.kids, i)) {
        assert id !in Pages(left);
      }
      assert Apart(moved);
      assert forall i, p :: 0 <= i <= |left.kids| && p in Pages(KidOf(left.first, left.kids, i)) ==> p in Pages(left);
    }
  }

  // ---- pages know children only by their ids ----

  function IdSize<K(!new), V(!new)>(lay: Layout<K, V>): Cell<K, nat> -> nat {
    (c: Cell<K, nat>) => lay.sepSize(c.key)
  }

  lemma IdsSlot<K, V>(cmp: (K, K) -> int, kids: seq<Cell<K, Tree<K, V>>>, key: K)
    ensures Slot(cmp, Ids(kids), key) == Slot(cmp, kids, key) && Upper(cmp, Ids(kids), key) == Upper(cmp, kids, key)
    ensures Found(cmp, Ids(kids), key) == Found(cmp, kids, key)
  {
    SlotUnique(cmp, Ids(kids), key, Slot(cmp, kids, key));
    UpperUnique(cmp, Ids(kids), key, Upper(cmp, kids, key));
  }

  lemma {:induction false} IdsTotal<K(!new), V(!new)>(lay: Layout<K, V>, kids: seq<Cell<K, Tree<K, V>>>)
    ensures Total(IdSize(lay), Ids(kids)) == Total(lay.KidSize(), kids)
  {
    if kids != [] {
      assert Ids(kids)[1..] == Ids(kids[1..]);
      IdsTotal(lay, kids[1..]);
    }
  }

  lemma IdsInsertAt<K, V>(kids: seq<Cell<K, Tree<K, V>>>, i: nat, c: Cell<K, Tree<K, V>>)
    requires i <= |kids|
    ensures Ids(InsertAt(kids, i, c)) == InsertAt(Ids(kids), i, Cell(c.key, c.val.id))
  {
  }

  lemma IdsMerged<K, V>(cmp: (K, K) -> int, kids: seq<Cell<K, Tree<K, V>>>, c: Cell<K, Tree<K, V>>)
    ensures Ids(Merged(cmp, kids, c)) == Merged(cmp, Ids(kids), Cell(c.key, c.val.id))
  {
    IdsSlot(cmp, kids, c.key);
    IdsInsertAt(kids, Upper(cmp, kids, c.key), c);
  }

  lemma IdsTry<K(!new), V(!new)>(lay: Layout<K, V>, kids: seq<Cell<K, Tree<K, V>>>, c: Cell<K, Tree<K, V>>)
    ensures TryInsert(lay.cmp, IdSize(lay), Ids(kids), Cell(c.key, c.val.id)) ==
      match TryInsert(lay.cmp, lay.KidSize(), kids, c) case Some(more) => Some(Ids(more)) case None => None
  {
    IdsTotal(lay, kids);
    IdsSlot(lay.cmp, kids, c.key);
    IdsInsertAt(kids, Slot(lay.cmp, kids, c.key), c);
  }

  lemma {:induction false} IdsFill<K(!new), V(!new)>(lay: Layout<K, V>, kids: seq<Cell<K, Tree<K, V>>>)
    ensures Fill(lay.cmp, IdSize(lay), Ids(kids)) == Ids(Fill(lay.cmp, lay.KidSize(), kids))
  {
    if kids != [] {
      var n := |kids| - 1;
      assert Ids(kids)[..n] == Ids(kids[..n]) && Ids(kids)[n] == Cell(kids[n].key, kids[n].val.id);
      IdsFill(lay, kids[..n]);
      IdsTry(lay, Fill(lay.cmp, lay.KidSize(), kids[..n]), kids[n]);
    }
  }

  // ---- descent and deletion ----

  /** The child an interior page sends a key to. */
  function ChildPage<K, V>(cmp: (K, K) -> int, page: Page<K, V>, key: K): nat
    requires page.InnerPage?
  {
    var i := Slot(cmp, page.kids, key);
    if Found(cmp, page.kids, key) then page.kids[i].val
    else if i == 0 then page.first
    else page.kids[i - 1].val
  }

  lemma ChildIsKid<K, V>(cmp: (K, K) -> int, pages: seq<Page<K, V>>, t: Tree<K, V>, after: nat, key: K)
    requires t.Node? && Stored(pages, t, after)
    ensures ChildPage(cmp, pages[t.id], key) == KidOf(t.first, t.kids, Route(cmp, t.kids, key)).id
  {
    IdsSlot(cmp, t.kids, key);
  }

  /** When the leaf of a key gets other cells, the tree has that leaf changed and nothing else. */
  lemma {:induction false} StoredDelete<K(!new), V(!new)>(lay: Layout<K, V>, was: seq<Page<K, V>>, now: seq<Page<K, V>>, t: Tree<K, V>,
                                                          after: nat, key: K)
    requires Stored(was, t, after)
    requires var leaf := LeafFor(lay.cmp, t, key);
      && leaf.id < |was| && was[leaf.id].LeafPage?
      && now == was[leaf.id := LeafPage(DeleteIn(lay, leaf, key).cells, was[leaf.id].sibling)]
    ensures Landed(was, now, t, after, Outcome(DeleteIn(lay, t, key), None, |now|))
    decreases t
  {
    if t.Node? {
      var r := Route(lay.cmp, t.kids, key);
      var kid := KidOf(t.first, t.kids, r);
      StoredDelete(lay, was, now, kid, AfterKid(t.kids, r, after), key);
      KidLanded(was, now, t, after, r, Outcome(DeleteIn(lay, kid, key), None, |now|));
    }
  }

  // ---- the chain of leaves ----

  /** The leaves of a tree in key order. */
  function LeafIds<K, V>(t: Tree<K, V>): seq<nat> {
    match t
    case Leaf(id, _) => [id]
    case Node(_, first, kids) => LeafIds(first) + LeafIdsOf(kids)
  }

  function LeafIdsOf<K, V>(kids: seq<Cell<K, Tree<K, V>>>): seq<nat> {
    if kids == [] then []
    else
      var kid := kids[0];
      assert kid.val < kid;
      LeafIds(kid.val) + LeafIdsOf(kids[1..])
  }

  predicate AllLeaves<K, V>(pages: seq<Page<K, V>>, ids: seq<nat>) {
    forall i :: 0 <= i < |ids| ==> ids[i] < |pages| && pages[ids[i]].LeafPage?
  }

  /** Leaf i points to the next one, the last leaf to `after`. */
  predicate LinkedAt<K, V>(pages: seq<Page<K, V>>, ids: seq<nat>, i: nat, after: nat)
    requires AllLeaves(pages, ids) && i < |ids|
  {
    ids[i] > 0 && pages[ids[i]].sibling == if i + 1 < |ids| then ids[i + 1] else after
  }

  ghost predicate Linked<K, V>(pages: seq<Page<K, V>>, ids: seq<nat>, after: nat) {
    AllLeaves(pages, ids) && forall i :: 0 <= i < |ids| ==> LinkedAt(pages, ids, i, after)
  }

  function ChainCells<K, V>(pages: seq<Page<K, V>>, ids: seq<nat>): seq<Cell<K, V>>
    requires AllLeaves(pages, ids)
  {
    if ids == [] then [] else pages[ids[0]].cells + ChainCells(pages, ids[1..])
  }

  lemma {:induction false} ChainCellsAppend<K, V>(pages: seq<Page<K, V>>, a: seq<nat>, b: seq<nat>)
    requires AllLeaves(pages, a) && AllLeaves(pages, b)
    ensures AllLeaves(pages, a + b) && ChainCells(pages, a + b) == ChainCells(pages, a) + ChainCells(pages, b)
  {
    if a == [] {
      assert a + b == b;
    } else {
      assert (a + b)[1..] == a[1..] + b;
      ChainCellsAppend(pages, a[1..], b);
    }
  }

  lemma {:induction false} LeafIdsFirst<K, V>(t: Tree<K, V>)
    ensures LeafIds(t) != [] && LeafIds(t)[0] == FirstId(t)
    decreases t
  {
    if t.Node? { LeafIdsFirst(t.first); }
  }

  lemma LinkedJoin<K, V>(pages: seq<Page<K, V>>, a: seq<nat>, b: seq<nat>, after: nat)
    requires Linked(pages, a, if b == [] then after else b[0]) && Linked(pages, b, after)
    ensures Linked(pages, a + b, after)
    ensures ChainCells(pages, a + b) == ChainCells(pages, a) + ChainCells(pages, b)
  {
    ChainCellsAppend(pages, a, b);
    var all := a + b;
    forall i | 0 <= i < |all| ensures LinkedAt(pages, all, i, after) {
      if i < |a| {
        assert LinkedAt(pages, a, i, if b == [] then after else b[0]);
      } else {
        assert LinkedAt(pages, b, i - |a|, after);
      }
    }
  }

  /** The sibling chain of a stored tree runs through its leaves in order, and holds its entries. */
  lemma {:induction false} ChainStored<K, V>(pages: seq<Page<K, V>>, t: Tree<K, V>, after: nat)
    requires Stored(pages, t, after)
    ensures Linked(pages, LeafIds(t), after) && ChainCells(pages, LeafIds(t)) == Entries(t)
    ensures LeafIds(t) != [] && LeafIds(t)[0] == FirstId(t)
    decreases t, if t.Node? then |t.kids| + 1 else 0
  {
    LeafIdsFirst(t);
    if t.Leaf? {
      assert [t.id][1..] == [];
    } else {
      ChainStored(pages, t.first, AfterKid(t.kids, 0, after)) by { assert KidOf(t.first, t.kids, 0) == t.first; }
      ChainStoredKids(pages, t, after, 0);
      assert t.kids[0..] == t.kids;
      LinkedJoin(pages, LeafIds(t.first), LeafIdsOf(t.kids), after);
    }
  }

  lemma {:induction false} ChainStoredKids<K, V>(pages: seq<Page<K, V>>, t: Tree<K, V>, after: nat, i: nat)
    requires t.Node? && Stored(pages, t, after) && i <= |t.kids|
    ensures Linked(pages, LeafIdsOf(t.kids[i..]), after) && ChainCells(pages, LeafIdsOf(t.kids[i..])) == EntriesOf(t.kids[i..])
    ensures i < |t.kids| ==> LeafIdsOf(t.kids[i..]) != [] && LeafIdsOf(t.kids[i..])[0] == FirstId(t.kids[i].val)
    ensures i == |t.kids| ==> LeafIdsOf(t.kids[i..]) == []
    decreases t, |t.kids| - i
  {
    if i < |t.kids| {
      var kid := t.kids[i];
      assert kid.val == KidOf(t.first, t.kids, i + 1);
      ChainStored(pages, kid.val, AfterKid(t.kids, i + 1, after));
      ChainStoredKids(pages, t, after, i + 1);
      assert t.kids[i..][1..] == t.kids[i + 1..];
      LinkedJoin(pages, LeafIds(kid.val), LeafIdsOf(t.kids[i + 1..]), after);
    }
  }

  lemma {:induction false} LeafIdsOfAppend<K, V>(a: seq<Cell<K, Tree<K, V>>>, b: seq<Cell<K, Tree<K, V>>>)
    ensures LeafIdsOf(a + b) == LeafIdsOf(a) + LeafIdsOf(b)
  {
    if a == [] {
      assert a + b == b;
    } else {
      assert (a + b)[1..] == a[1..] + b;
      LeafIdsOfAppend(a[1..], b);
    }
  }

  /** The leaves to the left of child r. */
  function LeftIds<K, V>(first: Tree<K, V>, kids: seq<Cell<K, Tree<K, V>>>, r: nat): seq<nat>
    requires r <= |kids|
  {
    if r == 0 then [] else LeafIds(first) + LeafIdsOf(kids[..r - 1])
  }

  lemma IdsAroundKid<K, V>(first: Tree<K, V>, kids: seq<Cell<K, Tree<K, V>>>, r: nat)
    requires r <= |kids|
    ensures LeafIds(first) + LeafIdsOf(kids) == LeftIds(first, kids, r) + LeafIds(KidOf(first, kids, r)) + LeafIdsOf(kids[r..])
  {
    if r == 0 {
      assert kids[0..] == kids;
    } else {
      var k := kids[r - 1];
      assert kids == kids[..r - 1] + ([k] + kids[r..]);
      LeafIdsOfAppend(kids[..r - 1], [k] + kids[r..]);
      assert ([k] + kids[r..])[1..] == kids[r..];
      Regroup(LeafIds(first), LeafIdsOf(kids[..r - 1]), LeafIds(k.val), LeafIdsOf(kids[r..]));
    }
  }

  lemma Regroup<T>(a: seq<T>, b: seq<T>, c: seq<T>, d: seq<T>)
    ensures a + (b + (c + d)) == (a + b) + c + d
  {
  }

  lemma SuffixCancels<T>(a: seq<T>, b: seq<T>, a': seq<T>)
    requires a + b == a' + b
    ensures a == a'
  {
    assert (a + b)[..|a|] == a && (a' + b)[..|a'|] == a';
  }

  /** The leaves around child r hold the entries around it. */
  lemma ChainAroundKid<K, V>(pages: seq<Page<K, V>>, t: Tree<K, V>, after: nat, r: nat)
    requires t.Node? && Stored(pages, t, after) && r <= |t.kids|
    ensures var a := LeftIds(t.first, t.kids, r); var m := LeafIds(KidOf(t.first, t.kids, r)); var b := LeafIdsOf(t.kids[r..]);
      && LeafIds(t) == a + m + b && AllLeaves(pages, a) && AllLeaves(pages, m) && AllLeaves(pages, b)
      && ChainCells(pages, a) == LeftOf(t.first, t.kids, r) && ChainCells(pages, b) == RightOf(t.kids, r)
  {
    var a, m, b := LeftIds(t.first, t.kids, r), LeafIds(KidOf(t.first, t.kids, r)), LeafIdsOf(t.kids[r..]);
    IdsAroundKid(t.first, t.kids, r);
    AroundKid(t.first, t.kids, r);
    ChainStored(pages, t, after);
    ChainStored(pages, KidOf(t.first, t.kids, r), AfterKid(t.kids, r, after));
    ChainStoredKids(pages, t, after, r);
    assert AllLeaves(pages, a) by { forall i | 0 <= i < |a| ensures a[i] == (a + m + b)[i] { } }
    ChainCellsAppend(pages, a, m);
    ChainCellsAppend(pages, a + m, b);
    SuffixCancels(ChainCells(pages, a) + ChainCells(pages, m), ChainCells(pages, b), LeftOf(t.first, t.kids, r) + ChainCells(pages, m));
    SuffixCancels(ChainCells(pages, a), ChainCells(pages, m), LeftOf(t.first, t.kids, r));
  }

  /** Where the leaf of a key stands in the chain, and that the key lies between the leaves around it. */
  lemma {:induction false} LeafInChain<K(!new), V(!new)>(lay: Layout<K, V>, pages: seq<Page<K, V>>, t: Tree<K, V>, after: nat, key: K,
                                                         lo: Option<K>, hi: Option<K>, h: nat) returns (k: nat)
    requires TotalPreorder(lay.cmp) && Sound(lay, t, lo, hi, h) && Stored(pages, t, after)
    ensures k < |LeafIds(t)| && LeafIds(t)[k] == LeafFor(lay.cmp, t, key).id && AllLeaves(pages, LeafIds(t))
    ensures AllBelow(lay.cmp, ChainCells(pages, LeafIds(t)[..k]), key)
    ensures AllAbove(lay.cmp, ChainCells(pages, LeafIds(t)[k + 1..]), key)
    decreases h
  {
    if t.Leaf? {
      k := 0;
      assert LeafIds(t)[..0] == [] && LeafIds(t)[1..] == [];
    } else {
      var r := Route(lay.cmp, t.kids, key);
      var kid := KidOf(t.first, t.kids, r);
      var j := LeafInChain(lay, pages, kid, AfterKid(t.kids, r, after), key, Lower(t.kids, r, lo), Higher(t.kids, r, hi), h - 1);
      k := KidInChain(lay, pages, t, after, key, lo, hi, h - 1, r, j);
    }
  }

  lemma KidInChain<K(!new), V(!new)>(lay: Layout<K, V>, pages: seq<Page<K, V>>, t: Tree<K, V>, after: nat, key: K,
                                     lo: Option<K>, hi: Option<K>, h: nat, r: nat, j: nat) returns (k: nat)
    requires TotalPreorder(lay.cmp) && t.Node? && SoundKids(lay, t.first, t.kids, lo, hi, h) && Stored(pages, t, after)
    requires r == Route(lay.cmp, t.kids, key)
    requires var m := LeafIds(KidOf(t.first, t.kids, r));
      && j < |m| && AllLeaves(pages, m)
      && AllBelow(lay.cmp, ChainCells(pages, m[..j]), key) && AllAbove(lay.cmp, ChainCells(pages, m[j + 1..]), key)
    ensures k < |LeafIds(t)| && LeafIds(t)[k] == LeafIds(KidOf(t.first, t.kids, r))[j] && AllLeaves(pages, LeafIds(t))
    ensures AllBelow(lay.cmp, ChainCells(pages, LeafIds(t)[..k]), key)
    ensures AllAbove(lay.cmp, ChainCells(pages, LeafIds(t)[k + 1..]), key)
  {
    ChainAroundKid(pages, t, after, r);
    RouteIsolates(lay, t.first, t.kids, key, lo, hi, h);
    k := PlaceInChain(lay.cmp, pages, LeftIds(t.first, t.kids, r), LeafIds(KidOf(t.first, t.kids, r)), LeafIdsOf(t.kids[r..]), j, key);
  }

  lemma PlaceInChain<K, V>(cmp: (K, K) -> int, pages: seq<Page<K, V>>, a: seq<nat>, m: seq<nat>, b: seq<nat>, j: nat, key: K)
    returns (k: nat)
    requires AllLeaves(pages, a) && AllLeaves(pages, m) && AllLeaves(pages, b) && j < |m|
    requires AllBelow(cmp, ChainCells(pages, a), key) && AllBelow(cmp, ChainCells(pages, m[..j]), key)
    requires AllAbove(cmp, ChainCells(pages, m[j + 1..]), key) && AllAbove(cmp, ChainCells(pages, b), key)
    ensures var all := a + m + b;
      && k < |all| && all[k] == m[j] && AllLeaves(pages, all)
      && AllBelow(cmp, ChainCells(pages, all[..k]), key) && AllAbove(cmp, ChainCells(pages, all[k + 1..]), key)
  {
    hide AllBelow, AllAbove, ChainCells;
    k := |a| + j;
    Prefix(a, m, b, j);
    assert AllLeaves(pages, a + m + b);
    var x, y := a + m[..j], m[j + 1..] + b;
    assert AllLeaves(pages, x) && AllBelow(cmp, ChainCells(pages, x), key) by { ChainBelow(cmp, pages, a, m[..j], key); }
    assert AllLeaves(pages, y) && AllAbove(cmp, ChainCells(pages, y), key) by { ChainAbove(cmp, pages, m[j + 1..], b, key); }
  }

  lemma ChainBelow<K, V>(cmp: (K, K) -> int, pages: seq<Page<K, V>>, a: seq<nat>, b: seq<nat>, key: K)
    requires AllLeaves(pages, a) && AllLeaves(pages, b)
    requires AllBelow(cmp, ChainCells(pages, a), key) && AllBelow(cmp, ChainCells(pages, b), key)
    ensures AllLeaves(pages, a + b) && AllBelow(cmp, ChainCells(pages, a + b), key)
  {
    ChainCellsAppend(pages, a, b);
  }

  lemma ChainAbove<K, V>(cmp: (K, K) -> int, pages: seq<Page<K, V>>, a: seq<nat>, b: seq<nat>, key: K)
    requires AllLeaves(pages, a) && AllLeaves(pages, b)
    requires AllAbove(cmp, ChainCells(pages, a), key) && AllAbove(cmp, ChainCells(pages, b), key)
    ensures AllLeaves(pages, a + b) && AllAbove(cmp, ChainCells(pages, a + b), key)
  {
    ChainCellsAppend(pages, a, b);
  }

  lemma Prefix<T>(a: seq<T>, m: seq<T>, b: seq<T>, j: nat)
    requires j < |m|
    ensures (a + m + b)[|a| + j] == m[j]
    ensures (a + m + b)[..|a| + j] == a + m[..j] && (a + m + b)[|a| + j + 1..] == m[j + 1..] + b
  {
  }

  lemma ChainSplitsAt<K, V>(pages: seq<Page<K, V>>, ids: seq<nat>, k: nat)
    requires AllLeaves(pages, ids) && k < |ids|
    ensures ChainCells(pages, ids) == ChainCells(pages, ids[..k]) + pages[ids[k]].cells + ChainCells(pages, ids[k + 1..])
  {
    var rest := [ids[k]] + ids[k + 1..];
    assert ids == ids[..k] + rest;
    assert rest[1..] == ids[k + 1..];
    ChainCellsAppend(pages, ids[..k], rest);
  }

  /** The first entry not less than the key is found in its leaf, or behind it. */
  lemma SlotInChain<K, V>(cmp: (K, K) -> int, pages: seq<Page<K, V>>, ids: seq<nat>, k: nat, key: K)
    requires AllLeaves(pages, ids) && k < |ids|
    requires AllBelow(cmp, ChainCells(pages, ids[..k]), key) && AllAbove(cmp, ChainCells(pages, ids[k + 1..]), key)
    ensures var cells := pages[ids[k]].cells; var i := Slot(cmp, cells, key);
      ChainCells(pages, ids)[Slot(cmp, ChainCells(pages, ids), key)..] == cells[i..] + ChainCells(pages, ids[k + 1..])
  {
    ChainSplitsAt(pages, ids, k);
    RestFromSlot(cmp, ChainCells(pages, ids[..k]), pages[ids[k]].cells, ChainCells(pages, ids[k + 1..]), key);
  }

  lemma RestFromSlot<K, V>(cmp: (K, K) -> int, a: seq<Cell<K, V>>, m: seq<Cell<K, V>>, b: seq<Cell<K, V>>, key: K)
    requires AllBelow(cmp, a, key) && AllAbove(cmp, b, key)
    ensures (a + m + b)[Slot(cmp, a + m + b, key)..] == m[Slot(cmp, m, key)..] + b
  {
    MiddleSlot(cmp, a, m, b, key);
  }
}
