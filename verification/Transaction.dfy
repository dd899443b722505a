/**
From the pages of a tree to the pager: the calls that tree operations make are a transaction of the pager, so that a stop
in its commit leaves the tree from before or the tree from after.
*/
module Transactions {
  import opened Bytes
  import opened FileSystem
  import opened Cells
  import opened BTree
  import opened TreeHeap
  import opened PagerState
  import Slots
  import opened Trees

  /** `stands` says when the bytes of a page, given by its number, stand for a page of a tree. A page of zeros stands for a blank one. */
  ghost predicate Encoding<K(!new), V(!new)>(stands: (nat, PageData, Page<K, V>) -> bool) {
    forall id :: stands(id, ZeroPage(), Blank)
  }

  ghost predicate StandFor<K(!new), V(!new)>(stands: (nat, PageData, Page<K, V>) -> bool, data: seq<PageData>, pages: seq<Page<K, V>>) {
    |data| == |pages| && forall p :: 0 <= p < |data| ==> stands(p, data[p], pages[p])
  }

  /**
  `actions` is `log` as the pager sees it, call by call: an announcement is one of the page as the pager holds it, and a changed page has any bytes that
  stand for it.
  */
  ghost predicate Carries<K(!new), V(!new)>(stands: (nat, PageData, Page<K, V>) -> bool, log: seq<Call<K, V>>, actions: seq<Action>)
    decreases |log|
  {
    if log == [] then actions == []
    else
      var rest, n := log[..|log| - 1], |actions|;
      match log[|log| - 1]
      case Allocated => n >= 1 && actions[n - 1] == Allocate && Carries(stands, rest, actions[..n - 1])
      case Announced(id) => n >= 2 && actions[n - 2..] == [Get(id), Write(id)] && Carries(stands, rest, actions[..n - 2])
      case Changed(id, page) =>
        n >= 1 && actions[n - 1].SetData? && actions[n - 1].id == id && stands(id, actions[n - 1].data, page) && Carries(stands, rest, actions[..n - 1])
  }

  /** What the pager has after the calls of a log: the pages it leads to, and every page that may be changed is held and dirty. */
  ghost predicate Follows<K(!new), V(!new)>(stands: (nat, PageData, Page<K, V>) -> bool, s: State, before: seq<Page<K, V>>, log: seq<Call<K, V>>, t: State) {
    && Fit(t) && (Ok(s) ==> Ok(t)) && StandFor(stands, t.Contents(), Replayed(before, log))
    && (forall id :: 0 <= id < t.count && (|before| <= id || Announced(id) in log) ==> id in t.slots && t.slots[id].dirty)
    && |s.Contents()| == |before| <= |t.Contents()|
    && (forall id :: 0 <= id < |before| && Announced(id) !in log ==> t.Contents()[id] == s.Contents()[id])
    && (forall id :: Holds(t.Tail(), id) ==> Announced(id) in log)
  }

  lemma ActsOfOne(s: State, actions: seq<Action>)
    requires |actions| >= 1
    ensures Acts(s, actions) == Act(Acts(s, actions[..|actions| - 1]), actions[|actions| - 1])
  {
    var n := |actions|;
    ActsAppend(s, actions[..n - 1], [actions[n - 1]]);
    assert actions == actions[..n - 1] + [actions[n - 1]];
    assert [actions[n - 1]][1..] == [];
    assert Acts(Act(Acts(s, actions[..n - 1]), actions[n - 1]), []) == Act(Acts(s, actions[..n - 1]), actions[n - 1]);
  }

  lemma ActsOfTwo(s: State, actions: seq<Action>)
    requires |actions| >= 2
    ensures var n := |actions|; Acts(s, actions) == Act(Act(Acts(s, actions[..n - 2]), actions[n - 2]), actions[n - 1])
  {
    var n := |actions|;
    ActsOfOne(s, actions);
    ActsOfOne(s, actions[..n - 1]);
    assert actions[..n - 1][..n - 2] == actions[..n - 2];
  }

  lemma FollowsAllocated<K(!new), V(!new)>(stands: (nat, PageData, Page<K, V>) -> bool, s: State, before: seq<Page<K, V>>, log: seq<Call<K, V>>, t: State)
    requires Encoding(stands) && Follows(stands, s, before, log, t)
    ensures Follows(stands, s, before, log + [Allocated], Act(t, Allocate))
  {
    AllocateOk(t);
    hide Fit, Ok;
    assert (log + [Allocated])[..|log|] == log;
  }

  lemma FollowsGet<K(!new), V(!new)>(stands: (nat, PageData, Page<K, V>) -> bool, s: State, before: seq<Page<K, V>>, log: seq<Call<K, V>>, t: State, id: nat)
    requires Follows(stands, s, before, log, t) && id < t.count
    ensures Follows(stands, s, before, log, Act(t, Get(id))) && id in Act(t, Get(id)).slots
  {
    GetOk(t, id);
    hide Fit, Ok, Replayed;
  }

  lemma FollowsAnnounced<K(!new), V(!new)>(stands: (nat, PageData, Page<K, V>) -> bool, s: State, before: seq<Page<K, V>>, log: seq<Call<K, V>>, t: State, id: nat)
    requires Follows(stands, s, before, log, t) && id < t.count
    ensures Follows(stands, s, before, log + [Announced(id)], Act(Act(t, Get(id)), Write(id)))
  {
    FollowsGet(stands, s, before, log, t, id);
    FollowsWrite(stands, s, before, log, Act(t, Get(id)), id);
  }

  lemma FollowsWrite<K(!new), V(!new)>(stands: (nat, PageData, Page<K, V>) -> bool, s: State, before: seq<Page<K, V>>, log: seq<Call<K, V>>, t: State, id: nat)
    requires Follows(stands, s, before, log, t) && id in t.slots
    ensures Follows(stands, s, before, log + [Announced(id)], Act(t, Write(id)))
  {
    WriteOk(t, id);
    HoldsMore(t, id);
    hide Fit, Ok, Holds;
    assert (log + [Announced(id)])[..|log|] == log;
  }

  lemma HoldsMore(u: State, id: nat)
    requires Fit(u) && id in u.slots
    ensures forall i :: Holds(AfterWrite(u, id).Tail(), i) ==> Holds(u.Tail(), i) || i == id
  {
    WriteOk(u, id);
    if AfterWrite(u, id).fs != u.fs {
      forall i ensures Holds(AfterWrite(u, id).Tail(), i) ==> Holds(u.Tail(), i) || i == id {
        HoldsAppend(u.Tail(), Record(id, u.begun[id]), i);
      }
    }
  }

  lemma FollowsChanged<K(!new), V(!new)>(stands: (nat, PageData, Page<K, V>) -> bool, s: State, before: seq<Page<K, V>>, log: seq<Call<K, V>>, t: State,
                                         id: nat, page: Page<K, V>, data: PageData)
    requires Follows(stands, s, before, log, t) && (id < |before| ==> Announced(id) in log) && stands(id, data, page)
    ensures Follows(stands, s, before, log + [Changed(id, page)], Act(t, SetData(id, data)))
  {
    if id in t.slots && t.slots[id].dirty { SetDataOk(t, id, data); }
    assert id < t.count ==> id in t.slots;
    assert id in t.slots ==> id < t.count;
    hide Fit, Ok;
    assert (log + [Changed(id, page)])[..|log|] == log;
  }

  /** The calls of a log, one by one, take the pager from the pages before to the pages that the log leads to. */
  lemma {:induction false} CallsAreTransaction<K(!new), V(!new)>(stands: (nat, PageData, Page<K, V>) -> bool, s: State, before: seq<Page<K, V>>,
                                                                 log: seq<Call<K, V>>, actions: seq<Action>)
    requires Encoding(stands) && Fit(s) && s.Tail() == [] && StandFor(stands, s.Contents(), before)
    requires Orderly(before, log) && Carries(stands, log, actions)
    ensures Follows(stands, s, before, log, Acts(s, actions))
    decreases |log|
  {
    if log == [] {
    } else {
      var call, rest, n := log[|log| - 1], log[..|log| - 1], |actions|;
      var k := if call.Announced? then n - 2 else n - 1;
      CallsAreTransaction(stands, s, before, rest, actions[..k]);
      var t := Acts(s, actions[..k]);
      assert log == rest + [call];
      hide Fit, Ok, Act, Follows, Replayed;
      match call
      case Allocated =>
        ActsOfOne(s, actions);
        FollowsAllocated(stands, s, before, rest, t);
      case Announced(id) =>
        ActsOfTwo(s, actions);
        FollowsAnnounced(stands, s, before, rest, t, id);
      case Changed(id, page) =>
        ActsOfOne(s, actions);
        FollowsChanged(stands, s, before, rest, t, id, page, actions[n - 1].data);
    }
  }

  /** The database opens with pages whose first ones stand for these. */
  ghost predicate OpensAs<K(!new), V(!new)>(stands: (nat, PageData, Page<K, V>) -> bool, found: Fs, pages: seq<Page<K, V>>) {
    var disk := Run(found, RecoveryOps(found)).disk;
    |pages| <= |disk| && StandFor(stands, disk[..|pages|], pages)
  }

  /**
  The transaction of these actions takes the pages `was` to the pages `now`: its commit leaves `now`, rolling it back leaves `was`, and wherever
  its commit is stopped, and however often opening the database is interrupted after that, the database opens with one or the other.
  */
  ghost predicate Atomically<K(!new), V(!new)>(stands: (nat, PageData, Page<K, V>) -> bool, s: State, actions: seq<Action>,
                                               was: seq<Page<K, V>>, now: seq<Page<K, V>>)
  {
    var t := Acts(AfterBegin(s), actions);
    && StandFor(stands, t.Contents(), now) && AfterCommit(t).fs.disk == t.Contents()
    && AfterRollback(t).Contents() == AfterRollback(t).fs.disk == s.Contents() && StandFor(stands, s.Contents(), was)
    && forall i: Interruption :: i.actions == actions && Interrupted(s, i) ==> OpensAs(stands, i.found, was) || OpensAs(stands, i.found, now)
  }

  /** However many operations made the calls of a log, the calls are a transaction from the pages before to the pages that the log leads to. */
  lemma CallsAreAtomic<K(!new), V(!new)>(stands: (nat, PageData, Page<K, V>) -> bool, s: State, before: seq<Page<K, V>>, log: seq<Call<K, V>>, actions: seq<Action>)
    requires Encoding(stands) && Ok(s) && Committed(s) && !s.inTxn && StandFor(stands, s.Contents(), before)
    requires Orderly(before, log) && Carries(stands, log, actions)
    ensures Atomically(stands, s, actions, before, Replayed(before, log))
  {
    BeginOk(s);
    assert AfterBegin(s).Tail() == [];
    hide Fit, Ok, Committed, Interrupted, Replayed, Orderly, Carries, Acts, AfterRollback, Run, RecoveryOps, AllOrNothing;
    CallsAreTransaction(stands, AfterBegin(s), before, log, actions);
    CommitOk(Acts(AfterBegin(s), actions));
    RollbackUndoes(s, actions);
    forall i: Interruption | i.actions == actions && Interrupted(s, i)
      ensures OpensAs(stands, i.found, before) || OpensAs(stands, i.found, Replayed(before, log))
    {
      CleanIsAtomic(s, i);
      FoundAs(stands, s, i, before, Replayed(before, log));
    }
  }

  lemma FoundAs<K(!new), V(!new)>(stands: (nat, PageData, Page<K, V>) -> bool, s: State, i: Interruption, was: seq<Page<K, V>>, now: seq<Page<K, V>>)
    requires AllOrNothing(s, i)
    requires StandFor(stands, s.Contents(), was) && StandFor(stands, Acts(AfterBegin(s), i.actions).Contents(), now)
    ensures OpensAs(stands, i.found, was) || OpensAs(stands, i.found, now)
  {
  }

  /** The bytes of a page stand for the page that they hold by module Slots; what the pages of others hold is no matter. */
  ghost function PageBytes(kind: Slots.Kind, others: set<nat>): (nat, PageData, Page<Slots.Key, Slots.Key>) -> bool {
    (id, data: PageData, page) => id in others || Slots.Holds(kind, data.bytes, page)
  }

  /** With the bytes that the operations of module Nodes leave: from the bytes of pages to the files after a stop. */
  lemma ByteCallsAreAtomic(kind: Slots.Kind, others: set<nat>, s: State, before: seq<Page<Slots.Key, Slots.Key>>, log: seq<Call<Slots.Key, Slots.Key>>,
                           actions: seq<Action>)
    requires Ok(s) && Committed(s) && !s.inTxn && StandFor(PageBytes(kind, others), s.Contents(), before)
    requires Orderly(before, log) && Carries(PageBytes(kind, others), log, actions)
    ensures Atomically(PageBytes(kind, others), s, actions, before, Replayed(before, log))
  {
    assert Encoding(PageBytes(kind, others));
    CallsAreAtomic(PageBytes(kind, others), s, before, log, actions);
  }

  /**
  An insertion as a transaction of its own: the calls that it makes to the pager, in the order in which it makes them, are atomic between the
  pages of the tree before and the pages of the tree after.
  */
  method InsertAtomically<K(!new), V(!new)>(tree: PagedTree<K, V>, c: Cell<K, V>, ghost stands: (nat, PageData, Page<K, V>) -> bool, ghost s: State)
    returns (ok: bool)
    requires tree.Valid() && Encoding(stands)
    requires tree.store.lay.accepts(c) ==>
      Absent(tree.store.lay.cmp, Entries(tree.tree), c.key) && SepsFit(tree.store.lay, tree.tree, c, |tree.store.pages|)
    requires Ok(s) && Committed(s) && !s.inTxn && StandFor(stands, s.Contents(), tree.store.pages)
    modifies tree`tree, tree`height, tree.store
    ensures tree.Valid() && ok == tree.store.lay.accepts(c)
    ensures tree.tree == if ok then InsertTree(tree.store.lay, old(tree.tree), c, old(|tree.store.pages|)).0 else old(tree.tree)
    ensures forall actions :: Carries(stands, tree.store.log, actions) ==>
      Atomically(stands, s, actions, old(tree.store.pages), tree.store.pages)
  {
    ghost var was := tree.store.pages;
    tree.store.Start();
    ok := tree.Insert(c);
    hide Ok, Committed, Carries, Atomically;
    forall actions | Carries(stands, tree.store.log, actions)
      ensures Atomically(stands, s, actions, was, tree.store.pages)
    {
      CallsAreAtomic(stands, s, was, tree.store.log, actions);
    }
  }
}
