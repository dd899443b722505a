/**
What the pager remembers, as a value, and what each of its operations does to it. The class in
module Pager is proved against these functions, and what transactions promise is proved about them.
*/
module PagerState {
  import opened Bytes
  import opened FileSystem
  import Journal

  /** A cached page. */
  datatype Slot = Slot(data: PageData, dirty: bool)

  /** `begun` is the file as it was when the transaction began; no code depends on it. */
  datatype State = State(slots: map<nat, Slot>, count: nat, journal: bool, inTxn: bool, startCount: nat,
                         begun: seq<PageData>, fs: Fs)
  {
    /** Page id as a caller sees it. */
    function PageOf(id: nat): PageData {
      if id in slots then slots[id].data else if id < |fs.disk| then fs.disk[id] else ZeroPage()
    }

    function Contents(): (r: seq<PageData>)
      ensures |r| == count && forall i :: 0 <= i < count ==> r[i] == PageOf(i)
    {
      seq(count, i requires 0 <= i => PageOf(i))
    }

    function Tail(): seq<Entry> {
      if fs.journal.Some? then fs.journal.value.tail else []
    }
  }

  ghost predicate Holds(tail: seq<Entry>, id: nat) {
    exists i :: 0 <= i < |tail| && tail[i].Intact? && tail[i].rec.id == id
  }

  /** `tail` holds whole records only, at most one for each page. */
  ghost predicate OneRecordEach(tail: seq<Entry>) {
    && (forall i :: 0 <= i < |tail| ==> tail[i].Intact?)
    && (forall i, j :: 0 <= i < j < |tail| ==> tail[i].Intact? && tail[j].Intact? && tail[i].rec.id != tail[j].rec.id)
  }

  /** Clean cached pages equal the file, and every page beyond the file is cached and dirty. */
  ghost predicate Indexed(s: State) {
    && |s.fs.disk| <= s.count
    && (forall id :: id in s.slots ==> id < s.count)
    && (forall id :: |s.fs.disk| <= id < s.count ==> id in s.slots && s.slots[id].dirty)
    && (forall id :: id in s.slots && !s.slots[id].dirty ==> id < |s.fs.disk| && s.slots[id].data == s.fs.disk[id])
  }

  /** No page waits to be written. */
  ghost predicate Clean(s: State) {
    forall id :: id in s.slots ==> !s.slots[id].dirty
  }

  /** Everything a caller sees is in the file. */
  ghost predicate Committed(s: State) {
    s.count == |s.fs.disk| && Clean(s)
  }

  /** The database file is durable and no write to it has begun. */
  ghost predicate Untouched(fs: Fs) {
    fs.synced == fs.disk && fs.touched == {} && fs.floor == |fs.disk| && fs.unlinked == None
  }

  /**
  Within a transaction: the file is still what it was at the beginning, and the journal, once there is one, holds pages of
  that file as they were, each once, and only pages that are dirty by now.
  */
  ghost predicate Kept(s: State) {
    && s.fs.disk == s.begun && |s.begun| <= s.startCount <= s.count
    && (s.fs.journal.Some? ==>
         var j := s.fs.journal.value;
         j.header && !j.headerDurable && j.durable == [] && j.pages == s.startCount && Recorded(j.tail, s.begun) && OneRecordEach(j.tail))
    && (forall id :: Holds(s.Tail(), id) ==> id in s.slots && s.slots[id].dirty)
  }

  /** What holds of a pager at all times. */
  ghost predicate Fit(s: State) {
    && Indexed(s) && s.fs.unlinked == None
    && (s.journal <==> s.fs.journal.Some?)
    && (if s.inTxn then Kept(s) else !s.journal)
  }

  /** Every page of the beginning was in the file then, and every one that has become dirty since is journalled. */
  ghost predicate Whole(s: State) {
    |s.begun| == s.startCount && forall id :: id in s.slots && id < s.startCount && s.slots[id].dirty ==> Holds(s.Tail(), id)
  }

  /** What holds besides of a pager whose file is durable, as long as its transactions begin with no dirty page. */
  ghost predicate Ok(s: State) {
    Fit(s) && Untouched(s.fs) && (s.inTxn ==> Whole(s))
  }

  /** In a committed database no page is dirty, and the other way round. */
  lemma CommittedIsClean(s: State)
    requires Fit(s)
    ensures Committed(s) <==> Clean(s)
  {
    if |s.fs.disk| < s.count { assert s.slots[|s.fs.disk|].dirty; }
  }

  lemma SnapshotGuarded(s: State)
    requires Ok(s) && s.inTxn
    ensures Guarded(s.fs, s.begun)
  {
    if s.fs.journal.Some? { assert [] + s.Tail() == s.Tail(); }
  }

  lemma HoldsAppend(tail: seq<Entry>, rec: Record, id: nat)
    ensures Holds(tail + [Intact(rec)], id) <==> Holds(tail, id) || id == rec.id
  {
    var all := tail + [Intact(rec)];
    if id == rec.id {
      assert all[|tail|] == Intact(rec);
    }
    if Holds(tail, id) {
      var i :| 0 <= i < |tail| && tail[i].Intact? && tail[i].rec.id == id;
      assert all[i] == tail[i];
    }
  }

  // ---- the operations ----

  function AfterGet(s: State, id: nat): State {
    if id in s.slots || id >= |s.fs.disk| then s
    else s.(slots := s.slots[id := Slot(s.fs.disk[id], false)])
  }

  function AfterAllocate(s: State): State {
    s.(slots := s.slots[s.count := Slot(ZeroPage(), true)], count := s.count + 1)
  }

  function AfterBegin(s: State): State {
    s.(inTxn := true, startCount := s.count, begun := s.fs.disk)
  }

  function Journalled(fs: Fs, startCount: nat, id: nat, data: PageData): Fs {
    var created := if fs.journal.Some? then fs else Apply(fs, CreateJournal(startCount));
    Apply(created, AppendJournal(id, data))
  }

  function AfterWrite(s: State, id: nat): State
    requires id in s.slots
  {
    var slot := s.slots[id];
    if slot.dirty then s
    else
      var capture := s.inTxn && id < s.startCount;
      s.(fs := if capture then Journalled(s.fs, s.startCount, id, slot.data) else s.fs,
         journal := s.journal || capture,
         slots := s.slots[id := Slot(slot.data, true)])
  }

  function AfterSetData(s: State, id: nat, data: PageData): State {
    s.(slots := s.slots[id := Slot(data, true)])
  }

  /** The cache with no page waiting to be written. */
  function Cleaned(slots: map<nat, Slot>): map<nat, Slot> {
    map id | id in slots :: slots[id].(dirty := false)
  }

  function AfterCommit(s: State): State {
    s.(slots := Cleaned(s.slots),
       journal := false, inTxn := false,
       fs := Fs(s.Contents(), s.Contents(), {}, s.count, None, None))
  }

  /** The journal, if there is one, decides the new length; otherwise nothing was ever written. */
  function AfterRollback(s: State): State {
    if s.fs.journal.Some? then
      var j := s.fs.journal.value;
      s.(slots := map[], count := j.pages, journal := false, inTxn := false,
         fs := Apply(Apply(Run(s.fs, ReplayOps(j)), RemoveJournal), SyncDir))
    else
      s.(slots := map[], count := s.startCount, inTxn := false, fs := Apply(s.fs, Truncate(s.startCount)))
  }

  lemma GetOk(s: State, id: nat)
    requires Fit(s)
    ensures var t := AfterGet(s, id); Fit(t) && (Ok(s) ==> Ok(t)) && t.Contents() == s.Contents()
    ensures id in AfterGet(s, id).slots <==> id < s.count
  {
  }

  lemma AllocateOk(s: State)
    requires Fit(s)
    ensures var t := AfterAllocate(s); Fit(t) && (Ok(s) ==> Ok(t)) && t.Contents() == s.Contents() + [ZeroPage()]
  {
  }

  /** A transaction may begin at any time; it starts out with every page safe exactly if none is dirty. */
  lemma BeginOk(s: State)
    requires Fit(s) && !s.inTxn
    ensures var t := AfterBegin(s);
      && Fit(t) && t.Contents() == s.Contents()
      && (Ok(s) ==> (Ok(t) <==> Committed(s)))
      && (Committed(s) ==> t.begun == s.Contents())
  {
    var t := AfterBegin(s);
    assert t.Tail() == [];
    CommittedIsClean(s);
  }

  /** The image of a page joins the journal. */
  lemma CaptureKeeps(s: State, id: nat)
    requires Fit(s) && id in s.slots && !s.slots[id].dirty && s.inTxn && id < s.startCount
    ensures var t := AfterWrite(s, id);
      && Kept(t) && (Whole(s) ==> Whole(t))
      && id < |s.begun| && t.Tail() == s.Tail() + [Intact(Record(id, s.begun[id]))]
  {
    var t, rec := AfterWrite(s, id), Record(id, s.slots[id].data);
    forall i ensures Holds(t.Tail(), i) <==> Holds(s.Tail(), i) || i == id {
      HoldsAppend(s.Tail(), rec, i);
    }
    hide Holds;
  }

  /** Announcing a page journals its first image, once, and never endangers the beginning. */
  lemma WriteOk(s: State, id: nat)
    requires Fit(s) && id in s.slots
    ensures var t := AfterWrite(s, id); Fit(t) && (Ok(s) ==> Ok(t)) && t.Contents() == s.Contents()
    ensures s.slots[id].dirty || !s.inTxn || s.startCount <= id ==> AfterWrite(s, id).fs == s.fs
    ensures !s.slots[id].dirty && s.inTxn && id < s.startCount ==>
      id < |s.begun| && AfterWrite(s, id).Tail() == s.Tail() + [Intact(Record(id, s.begun[id]))]
  {
    if !s.slots[id].dirty && s.inTxn && id < s.startCount {
      CaptureKeeps(s, id);
      hide Kept, Whole;
    }
  }

  lemma SetDataOk(s: State, id: nat, data: PageData)
    requires Fit(s) && id in s.slots && s.slots[id].dirty
    ensures var t := AfterSetData(s, id, data); Fit(t) && (Ok(s) ==> Ok(t)) && t.Contents() == s.Contents()[id := data]
  {
  }

  /** However a transaction began, committing it leaves a committed database whose file is durable. */
  lemma CommitOk(s: State)
    requires Fit(s)
    ensures var t := AfterCommit(s); Ok(t) && Committed(t) && t.Contents() == s.Contents() && t.fs.disk == s.Contents()
  {
  }

  /** Writing pages back as they are changes nothing that a read sees. */
  lemma {:induction false} RestoresChangeNothing(fs: Fs, records: seq<Record>, k: nat)
    requires k <= |records| && forall i :: 0 <= i < |records| ==> Restorable(records[i], fs.disk)
    ensures var r := Run(fs, Restores(records)[..k]); r.disk == fs.disk && r.journal == fs.journal && r.unlinked == fs.unlinked
  {
    if k > 0 {
      RestoresChangeNothing(fs, records, k - 1);
      RunSnoc(fs, Restores(records), k - 1);
      assert Restorable(records[k - 1], fs.disk);
    }
  }

  /** Replaying the journal of a transaction leaves the file of its beginning, with the length the transaction began with. */
  lemma ReplayRestores(s: State)
    requires Fit(s) && s.inTxn && s.journal
    ensures var pages := Resize(s.begun, s.startCount);
      Run(s.fs, ReplayOps(s.fs.journal.value)) == Fs(pages, pages, {}, |pages|, s.fs.journal, None)
  {
    var j := s.fs.journal.value;
    var records := IntactPrefix(j.Entries());
    assert j.Entries() == j.tail;
    forall i | 0 <= i < |records| ensures Restorable(records[i], s.fs.disk) {
      assert j.tail[i] == Intact(records[i]) && j.tail[i] in j.tail;
    }
    RestoresChangeNothing(s.fs, records, |records|);
    assert Restores(records)[..|records|] == Restores(records);
    RunAppend(s.fs, Restores(records), [Truncate(j.pages), SyncDb]);
    RunTwo(Run(s.fs, Restores(records)), Truncate(j.pages), SyncDb);
  }

  /** Rolling back gives the file as it was at the beginning, with the length the transaction began with. */
  lemma RollbackOk(s: State)
    requires Fit(s) && s.inTxn
    ensures var t := AfterRollback(s);
      && Fit(t) && (Ok(s) ==> Ok(t)) && Committed(t) && !t.inTxn
      && t.Contents() == t.fs.disk == Resize(s.begun, s.startCount) && t.count == s.startCount
  {
    if s.journal {
      ReplayRestores(s);
    }
    if Ok(s) {
      assert Resize(s.begun, |s.begun|) == s.begun;
    }
  }

  // ---- the file operations of a commit ----

  /** `order` lists the dirty pages, each once: the order in which the cache yields them. */
  ghost predicate Order(slots: map<nat, Slot>, order: seq<nat>) {
    && (forall id :: id in order <==> id in slots && slots[id].dirty)
    && (forall i, j :: 0 <= i < j < |order| ==> order[i] != order[j])
  }

  function WriteOps(slots: map<nat, Slot>, order: seq<nat>): (ops: seq<FileOp>)
    requires forall id :: id in order ==> id in slots
    ensures |ops| == |order| && forall i :: 0 <= i < |ops| ==> ops[i] == WriteAt(order[i], slots[order[i]].data)
  {
    seq(|order|, i requires 0 <= i < |order| => WriteAt(order[i], slots[order[i]].data))
  }

  /** Every dirty page written, the length restored, one sync. */
  function FlushOps(s: State, order: seq<nat>): seq<FileOp>
    requires forall id :: id in order ==> id in s.slots
  {
    WriteOps(s.slots, order) + [Truncate(s.count), SyncDb]
  }

  /** Everything a commit does to the files: the journal synced, the pages written and synced, the journal removed. */
  function CommitOps(s: State, order: seq<nat>): seq<FileOp>
    requires forall id :: id in order ==> id in s.slots
  {
    if s.journal then [SyncJournal] + FlushOps(s, order) + [RemoveJournal, SyncDir] else FlushOps(s, order)
  }

  /** Once the journal is synced, every page that a commit overwrites can be restored. */
  lemma CommitReady(s: State)
    requires Ok(s) && s.inTxn
    ensures var fs := if s.journal then Apply(s.fs, SyncJournal) else s.fs;
      Guarded(fs, s.begun) && forall id :: id in s.slots && s.slots[id].dirty ==> |s.begun| <= id || id in Saved(fs.journal)
  {
    hide Recorded, Untouched;
    SnapshotGuarded(s);
    HarmlessKeepsGuard(s.fs, SyncJournal, s.begun);
    if s.journal {
      var tail := s.Tail();
      assert [] + tail == tail;
      PrefixLength(tail, |tail|);
      var saved := IntactPrefix(tail);
      forall id | Holds(tail, id) ensures id in Ids(saved) {
        var i :| 0 <= i < |tail| && tail[i].Intact? && tail[i].rec.id == id;
        assert saved[i] == tail[i].rec;
      }
    }
  }

  /** Page id of a file, or zeros behind its end. */
  function PageIn(disk: seq<PageData>, id: nat): PageData {
    if id < |disk| then disk[id] else ZeroPage()
  }

  /** The pages written are in the file, and all others are as they were. */
  ghost predicate Written(slots: map<nat, Slot>, count: nat, was: seq<PageData>, now: seq<PageData>, done: seq<nat>)
    requires forall id :: id in done ==> id in slots
  {
    && |was| <= |now| <= count
    && forall id :: 0 <= id < count ==> PageIn(now, id) == if id in done then slots[id].data else PageIn(was, id)
  }

  lemma OneWritten(slots: map<nat, Slot>, count: nat, was: seq<PageData>, now: seq<PageData>, done: seq<nat>, id: nat)
    requires (forall i :: i in done ==> i in slots) && id in slots && id < count && Written(slots, count, was, now, done)
    ensures Written(slots, count, was, Overwrite(now, id, slots[id].data), done + [id])
  {
    var r := Overwrite(now, id, slots[id].data);
    forall i | 0 <= i < count ensures PageIn(r, i) == if i in done + [id] then slots[i].data else PageIn(was, i) {
      assert i in done + [id] <==> i in done || i == id;
    }
  }

  lemma NextWrite(fs: Fs, slots: map<nat, Slot>, order: seq<nat>, k: nat)
    requires k < |order| && forall id :: id in order ==> id in slots
    ensures order[k] in slots
    ensures var was, now := Run(fs, WriteOps(slots, order)[..k]), Run(fs, WriteOps(slots, order)[..k + 1]);
      now == Apply(was, WriteAt(order[k], slots[order[k]].data))
      && now.disk == Overwrite(was.disk, order[k], slots[order[k]].data) && now.journal == was.journal && now.unlinked == was.unlinked
  {
    assert order[k] in order;
    RunSnoc(fs, WriteOps(slots, order), k);
  }

  /** So it is after every single write of a flush. */
  lemma {:induction false} WritesLand(s: State, fs: Fs, order: seq<nat>, k: nat)
    requires Indexed(s) && fs.disk == s.fs.disk && k <= |order| && forall id :: id in order ==> id in s.slots
    ensures var r := Run(fs, WriteOps(s.slots, order)[..k]);
      r.journal == fs.journal && r.unlinked == fs.unlinked && Written(s.slots, s.count, fs.disk, r.disk, order[..k])
  {
    if k > 0 {
      var id, was := order[k - 1], Run(fs, WriteOps(s.slots, order)[..k - 1]);
      assert id in order && id < s.count;
      assert order[..k] == order[..k - 1] + [id];
      hide Run, WriteOps, Indexed, Written, Overwrite, Apply;
      WritesLand(s, fs, order, k - 1);
      NextWrite(fs, s.slots, order, k - 1);
      OneWritten(s.slots, s.count, fs.disk, was.disk, order[..k - 1], id);
    }
  }

  /** Whatever the order, at the end of a flush the synced file is what a caller sees. */
  lemma FlushLands(s: State, fs: Fs, order: seq<nat>)
    requires Indexed(s) && fs.disk == s.fs.disk && Order(s.slots, order)
    ensures Run(fs, FlushOps(s, order)) == Fs(s.Contents(), s.Contents(), {}, s.count, fs.journal, fs.unlinked)
  {
    var writes := WriteOps(s.slots, order);
    WritesLand(s, fs, order, |order|);
    assert writes[..|order|] == writes && order[..|order|] == order;
    RunAppend(fs, writes, [Truncate(s.count), SyncDb]);
    RunTwo(Run(fs, writes), Truncate(s.count), SyncDb);
    var disk := Run(fs, writes).disk;
    assert Resize(disk, s.count) == s.Contents() by {
      forall id | 0 <= id < s.count ensures Resize(disk, s.count)[id] == s.PageOf(id) {
        assert Resize(disk, s.count)[id] == PageIn(disk, id);
      }
    }
  }

  /** A write of a page that can be restored, or that the beginning did not have, keeps the beginning recoverable. */
  lemma {:induction false} WritesKeepGuard(fs: Fs, slots: map<nat, Slot>, order: seq<nat>, k: nat, pages: seq<PageData>)
    requires Guarded(fs, pages) && k <= |order|
    requires forall id :: id in order ==> id in slots && (|pages| <= id || id in Saved(fs.journal))
    ensures var r := Run(fs, WriteOps(slots, order)[..k]); Guarded(r, pages) && r.journal == fs.journal && r.unlinked == fs.unlinked
  {
    if k > 0 {
      var id := order[k - 1];
      assert id in order;
      WritesKeepGuard(fs, slots, order, k - 1, pages);
      NextWrite(fs, slots, order, k - 1);
      HarmlessKeepsGuard(Run(fs, WriteOps(slots, order)[..k - 1]), WriteAt(id, slots[id].data), pages);
    }
  }

  /** In every state on the way the commit has happened entirely or not at all. */
  ghost predicate Through(fs: Fs, ops: seq<FileOp>, before: seq<PageData>, after: seq<PageData>) {
    forall k :: 0 <= k <= |ops| ==> Committing(Run(fs, ops[..k]), before, after)
  }

  lemma ThroughAppend(fs: Fs, a: seq<FileOp>, b: seq<FileOp>, before: seq<PageData>, after: seq<PageData>)
    requires Through(fs, a, before, after) && Through(Run(fs, a), b, before, after)
    ensures Through(fs, a + b, before, after)
  {
    hide Run, Committing;
    forall k | 0 <= k <= |a + b| ensures Committing(Run(fs, (a + b)[..k]), before, after) {
      if k <= |a| {
        assert (a + b)[..k] == a[..k];
      } else {
        assert (a + b)[..k] == a + b[..k - |a|];
        RunAppend(fs, a, b[..k - |a|]);
      }
    }
  }

  lemma ThroughTwo(fs: Fs, a: FileOp, b: FileOp, before: seq<PageData>, after: seq<PageData>)
    requires Committing(fs, before, after) && Committing(Apply(fs, a), before, after) && Committing(Apply(Apply(fs, a), b), before, after)
    ensures Through(fs, [a, b], before, after)
  {
    hide Committing;
    RunTwo(fs, a, b);
    assert [a, b][..0] == [] && [a, b][..1] == [a] && [a, b][..2] == [a, b];
  }

  /** The flush of a commit: until the journal is removed the beginning can be restored. */
  lemma FlushKeepsGuard(s: State, fs: Fs, order: seq<nat>, pages: seq<PageData>, after: seq<PageData>)
    requires Guarded(fs, pages) && |pages| <= s.count && forall id :: id in order ==> id in s.slots
    requires forall id :: id in order ==> |pages| <= id || id in Saved(fs.journal)
    ensures Through(fs, FlushOps(s, order), pages, after) && Guarded(Run(fs, FlushOps(s, order)), pages)
  {
    hide Guarded, Saved, Committing, Run;
    var writes := WriteOps(s.slots, order);
    forall k | 0 <= k <= |writes| ensures Guarded(Run(fs, writes[..k]), pages) && Committing(Run(fs, writes[..k]), pages, after) {
      WritesKeepGuard(fs, s.slots, order, k, pages);
      GuardedIsCommitting(Run(fs, writes[..k]), pages, after);
    }
    assert writes[..|writes|] == writes;
    var r := Run(fs, writes);
    HarmlessKeepsGuard(r, Truncate(s.count), pages);
    HarmlessKeepsGuard(Apply(r, Truncate(s.count)), SyncDb, pages);
    GuardedIsCommitting(Apply(r, Truncate(s.count)), pages, after);
    GuardedIsCommitting(Apply(Apply(r, Truncate(s.count)), SyncDb), pages, after);
    ThroughTwo(r, Truncate(s.count), SyncDb, pages, after);
    ThroughAppend(fs, writes, [Truncate(s.count), SyncDb], pages, after);
    RunAppend(fs, writes, [Truncate(s.count), SyncDb]);
    RunTwo(r, Truncate(s.count), SyncDb);
  }

  lemma GuardedIsCommitting(fs: Fs, before: seq<PageData>, after: seq<PageData>)
    requires Guarded(fs, before)
    ensures Committing(fs, before, after)
  {
  }

  /**
  A commit of a transaction that began with no dirty page: in whatever order the cache yields the pages, in every state between two
  file operations it has happened entirely or not at all, and at the end it has happened.
  */
  lemma CommitIsAtomic(s: State, order: seq<nat>)
    requires Ok(s) && s.inTxn && Order(s.slots, order)
    ensures Through(s.fs, CommitOps(s, order), s.begun, s.Contents())
    ensures Run(s.fs, CommitOps(s, order)) == AfterCommit(s).fs
  {
    hide Guarded, Saved, Committing, Run, Whole, Recorded, OneRecordEach;
    var before, after, flush := s.begun, s.Contents(), FlushOps(s, order);
    CommitReady(s);
    if s.journal {
      var synced := Apply(s.fs, SyncJournal);
      JournalSynced(s, after);
      FlushKeepsGuard(s, synced, order, before, after);
      FlushLands(s, synced, order);
      RunAppend(s.fs, [SyncJournal], flush);
      ThroughAppend(s.fs, [SyncJournal], flush, before, after);
      Removal(Run(synced, flush), before, after);
      RunAppend(s.fs, [SyncJournal] + flush, [RemoveJournal, SyncDir]);
      ThroughAppend(s.fs, [SyncJournal] + flush, [RemoveJournal, SyncDir], before, after);
    } else {
      FlushKeepsGuard(s, s.fs, order, before, after);
      FlushLands(s, s.fs, order);
    }
  }

  /** The first step of a commit. */
  lemma JournalSynced(s: State, after: seq<PageData>)
    requires Ok(s) && s.inTxn && s.journal
    ensures Run(s.fs, [SyncJournal]) == Apply(s.fs, SyncJournal) && Through(s.fs, [SyncJournal], s.begun, after)
  {
    hide Guarded, Committing;
    SnapshotGuarded(s);
    CommitReady(s);
    assert [SyncJournal][1..] == [] && [SyncJournal][..0] == [] && [SyncJournal][..1] == [SyncJournal];
    assert Run(Apply(s.fs, SyncJournal), []) == Apply(s.fs, SyncJournal);
    GuardedIsCommitting(s.fs, s.begun, after);
    GuardedIsCommitting(Apply(s.fs, SyncJournal), s.begun, after);
  }

  /** The last step of a commit. */
  lemma Removal(fs: Fs, before: seq<PageData>, after: seq<PageData>)
    requires Journal.Flushed(fs, before, after)
    ensures Through(fs, [RemoveJournal, SyncDir], before, after)
    ensures Run(fs, [RemoveJournal, SyncDir]) == Fs(after, after, {}, |after|, None, None)
  {
    Journal.FlushedIsInDoubt(fs, before, after);
    RunTwo(fs, RemoveJournal, SyncDir);
    ThroughTwo(fs, RemoveJournal, SyncDir, before, after);
  }

  // ---- whole transactions ----

  /** What a caller may do between the beginning and the end of a transaction. */
  datatype Action = Get(id: nat) | Allocate | Write(id: nat) | SetData(id: nat, data: PageData)

  /** A caller writes only to pages it holds, and changes only those it has announced. */
  function Act(s: State, a: Action): State {
    match a
    case Get(id) => AfterGet(s, id)
    case Allocate => AfterAllocate(s)
    case Write(id) => if id in s.slots then AfterWrite(s, id) else s
    case SetData(id, data) => if id in s.slots && s.slots[id].dirty then AfterSetData(s, id, data) else s
  }

  function Acts(s: State, actions: seq<Action>): State
    decreases |actions|
  {
    if actions == [] then s else Acts(Act(s, actions[0]), actions[1..])
  }

  lemma {:induction false} ActsAppend(s: State, a: seq<Action>, b: seq<Action>)
    ensures Acts(s, a + b) == Acts(Acts(s, a), b)
    decreases |a|
  {
    if a == [] {
      assert a + b == b;
    } else {
      assert (a + b)[1..] == a[1..] + b;
      ActsAppend(Act(s, a[0]), a[1..], b);
    }
  }

  lemma ActOk(s: State, a: Action)
    requires Fit(s)
    ensures var t := Act(s, a);
      && Fit(t) && (Ok(s) ==> Ok(t)) && t.fs.disk == s.fs.disk
      && t.inTxn == s.inTxn && t.begun == s.begun && t.startCount == s.startCount
  {
    hide Indexed, Kept, Whole, Untouched;
    match a {
      case Get(id) => GetOk(s, id);
      case Allocate => AllocateOk(s);
      case Write(id) => if id in s.slots { WriteOk(s, id); }
      case SetData(id, data) => if id in s.slots && s.slots[id].dirty { SetDataOk(s, id, data); }
    }
  }

  /**
  Throughout a transaction the database file is untouched and no page is journalled twice. If it began with no dirty page,
  a stop at any point recovers the beginning.
  */
  lemma {:induction false} TransactionKeepsSnapshot(s: State, actions: seq<Action>)
    requires Fit(s) && s.inTxn
    ensures var t := Acts(s, actions);
      && Fit(t) && t.inTxn && t.begun == s.begun && t.startCount == s.startCount && t.fs.disk == s.fs.disk
      && (Ok(s) ==> Ok(t) && Guarded(t.fs, s.begun))
    decreases |actions|
  {
    hide Fit, Ok, Guarded, Act;
    if actions == [] {
      if Ok(s) { SnapshotGuarded(s); }
    } else {
      ActOk(s, actions[0]);
      TransactionKeepsSnapshot(Act(s, actions[0]), actions[1..]);
    }
  }

  /**
  A transaction that is rolled back, whatever it did, leaves the file that it found, with zeros for pages that were not yet in it:
  what callers saw exactly if no dirty page held anything else.
  */
  lemma RollbackUndoes(s: State, actions: seq<Action>)
    requires Fit(s) && !s.inTxn
    ensures var t := AfterRollback(Acts(AfterBegin(s), actions));
      && Fit(t) && Committed(t) && !t.inTxn && t.count == s.count
      && t.Contents() == Resize(s.fs.disk, s.count)
      && (t.Contents() == s.Contents() <==>
           forall id :: id in s.slots && s.slots[id].dirty ==> s.slots[id].data == PageIn(s.fs.disk, id))
      && (Committed(s) ==> t.Contents() == s.Contents())
      && (Ok(s) && Committed(s) ==> Ok(t))
  {
    hide Kept, Whole, Untouched;
    BeginOk(s);
    TransactionKeepsSnapshot(AfterBegin(s), actions);
    RollbackOk(Acts(AfterBegin(s), actions));
    RolledBackIs(s, AfterRollback(Acts(AfterBegin(s), actions)).Contents());
  }

  lemma RolledBackIs(s: State, pages: seq<PageData>)
    requires Indexed(s) && pages == Resize(s.fs.disk, s.count)
    ensures pages == s.Contents() <==> forall id :: id in s.slots && s.slots[id].dirty ==> s.slots[id].data == PageIn(s.fs.disk, id)
  {
    forall id | 0 <= id < s.count ensures pages[id] == PageIn(s.fs.disk, id) && s.Contents()[id] == s.PageOf(id) {
    }
  }

  // ---- which transactions are atomic ----

  /**
  A transaction of the given actions whose commit writes the pages in the given order and is stopped after `steps` file operations
  leaving `left`, and whose file is found in `found` after a number of attempts to open it that were stopped half way.
  */
  datatype Interruption = Interruption(actions: seq<Action>, order: seq<nat>, steps: nat, left: Fs, attempts: seq<Attempt>, found: Fs)

  ghost predicate Interrupted(s: State, i: Interruption) {
    var t := Acts(AfterBegin(s), i.actions);
    && Order(t.slots, i.order) && i.steps <= |CommitOps(t, i.order)|
    && Stop(Run(t.fs, CommitOps(t, i.order)[..i.steps]), i.left)
    && Attempts(i.left, i.attempts, i.found)
  }

  /** The database is found as it was when the transaction began, or as the transaction left it. */
  ghost predicate AllOrNothing(s: State, i: Interruption) {
    OpensWith(i.found, s.Contents()) || OpensWith(i.found, Acts(AfterBegin(s), i.actions).Contents())
  }

  /** Whatever the next transaction does and wherever its commit stops, it is seen to have happened entirely or not at all. */
  ghost predicate NextIsAtomic(s: State) {
    forall i: Interruption :: Interrupted(s, i) ==> AllOrNothing(s, i)
  }

  lemma CleanIsAtomic(s: State, i: Interruption)
    requires Ok(s) && !s.inTxn && Committed(s) && Interrupted(s, i)
    ensures AllOrNothing(s, i)
  {
    BeginOk(s);
    hide Ok, Committing, OpensWith, Run, Stop, Attempts;
    TransactionKeepsSnapshot(AfterBegin(s), i.actions);
    var t := Acts(AfterBegin(s), i.actions);
    CommitIsAtomic(t, i.order);
    AtomicRecovers(Run(t.fs, CommitOps(t, i.order)[..i.steps]), i.left, i.attempts, i.found, s.Contents(), t.Contents());
  }

  lemma BeginsSafely(s: State)
    requires Fit(s) && !s.inTxn
    ensures var t := AfterBegin(s);
      && Fit(t) && t.Contents() == s.Contents() && (Committed(s) ==> t.begun == s.Contents())
      && (Ok(s) ==> (Ok(t) <==> Committed(s)) && (NextIsAtomic(s) <==> Committed(s)))
  {
    BeginOk(s);
    CommittedIsClean(s);
    if Ok(s) { AtomicIffClean(s); }
  }

  /** Every set of pages can be listed, each once. */
  lemma Listed(ids: set<nat>) returns (order: seq<nat>)
    ensures forall id :: id in order <==> id in ids
    ensures forall i, j :: 0 <= i < j < |order| ==> order[i] != order[j]
    decreases ids
  {
    if ids == {} {
      order := [];
    } else {
      var id :| id in ids;
      var rest := Listed(ids - {id});
      order := [id] + rest;
    }
  }

  /** A transaction that changes page d and adds a page. */
  function Tearing(s: State, d: nat, x: PageData, y: PageData): seq<Action> {
    [SetData(d, x), Allocate, SetData(s.count, y)]
  }

  lemma TearingIs(s: State, d: nat, x: PageData, y: PageData)
    requires Fit(s) && !s.inTxn && d in s.slots && s.slots[d].dirty
    ensures var t := Acts(AfterBegin(s), Tearing(s, d, x, y));
      t == AfterBegin(s).(slots := s.slots[d := Slot(x, true)][s.count := Slot(y, true)], count := s.count + 1)
  {
    var b := AfterBegin(s);
    var b1 := AfterSetData(b, d, x);
    var b2 := AfterAllocate(b1);
    var actions := Tearing(s, d, x, y);
    assert actions[1..] == [Allocate, SetData(s.count, y)] && actions[1..][1..] == [SetData(s.count, y)];
    assert [SetData(s.count, y)][1..] == [];
    assert Acts(b2, [SetData(s.count, y)]) == AfterSetData(b2, s.count, y);
    assert Acts(b1, [Allocate, SetData(s.count, y)]) == Acts(b2, [SetData(s.count, y)]);
    assert b.slots[d := Slot(x, true)][s.count := Slot(ZeroPage(), true)][s.count := Slot(y, true)] ==
      s.slots[d := Slot(x, true)][s.count := Slot(y, true)];
  }

  /**
  A page that is dirty when a transaction begins is not journalled when the transaction changes it. Written first, and followed by
  a stop, it leaves a file that is neither that of before nor that of after: the changed page is there, and the added one is not.
  */
  lemma DirtyTears(s: State, d: nat, x: PageData, y: PageData) returns (i: Interruption)
    requires Ok(s) && !s.inTxn && d in s.slots && s.slots[d].dirty && x != s.slots[d].data
    ensures i.actions == Tearing(s, d, x, y) && i.steps == 1 && Interrupted(s, i) && !AllOrNothing(s, i)
    ensures Openable(i.found) && Run(i.found, RecoveryOps(i.found)).disk == Overwrite(s.fs.disk, d, x)
  {
    var t := Acts(AfterBegin(s), Tearing(s, d, x, y));
    TearingIs(s, d, x, y);
    var order := DirtyFirst(t, d);
    var disk := Overwrite(s.fs.disk, d, x);
    var c := Fs(disk, disk, {}, |disk|, None, None);
    FirstWrite(t, d, x, order);
    i := Interruption(Tearing(s, d, x, y), order, 1, c, [], c);
    Torn(s, t, d, x, c);
    assert Stop(Apply(t.fs, WriteAt(d, x)), c);
    hide OpensWith, Stop, Run, RecoveryOps, Tearing, CommitOps;
  }

  /** An order in which the cache may yield the pages: d in front of the others. */
  lemma DirtyFirst(t: State, d: nat) returns (order: seq<nat>)
    requires d in t.slots && t.slots[d].dirty
    ensures Order(t.slots, order) && order != [] && order[0] == d
  {
    var rest := Listed(set id | id in t.slots && t.slots[id].dirty && id != d);
    order := [d] + rest;
    forall id ensures id in order <==> id in t.slots && t.slots[id].dirty {
      if id in t.slots && t.slots[id].dirty && id != d { assert id in rest; }
    }
    assert forall j :: 1 <= j < |order| ==> order[j] == rest[j - 1] && order[j] in rest;
  }

  lemma FirstWrite(t: State, d: nat, x: PageData, order: seq<nat>)
    requires !t.journal && Order(t.slots, order) && order != [] && order[0] == d && t.slots[d].data == x
    ensures |CommitOps(t, order)| >= 1 && Run(t.fs, CommitOps(t, order)[..1]) == Apply(t.fs, WriteAt(d, x))
  {
    assert CommitOps(t, order)[..1] == [WriteAt(d, x)];
    assert [WriteAt(d, x)][1..] == [];
    assert Run(Apply(t.fs, WriteAt(d, x)), []) == Apply(t.fs, WriteAt(d, x));
  }

  lemma Torn(s: State, t: State, d: nat, x: PageData, c: Fs)
    requires Indexed(s) && d in s.slots && x != s.slots[d].data && t.count == s.count + 1
    requires c.disk == Overwrite(s.fs.disk, d, x) && c.journal == None
    ensures Run(c, RecoveryOps(c)) == c && !OpensWith(c, s.Contents()) && !OpensWith(c, t.Contents())
  {
    assert RecoveryOps(c) == [];
    var before := s.Contents();
    assert before[d] == s.slots[d].data && c.disk[d] == x;
    if |before| <= |c.disk| {
      assert c.disk[..|before|][d] == x;
    }
    assert |t.Contents()| == s.count + 1 > |c.disk|;
  }

  /**
  The exact condition for the atomicity of commits: every transaction of a pager whose file is durable is atomic, whatever it does and
  wherever its commit is stopped, if and only if no page is dirty when it begins.
  */
  lemma AtomicIffClean(s: State)
    requires Ok(s) && !s.inTxn
    ensures NextIsAtomic(s) <==> forall id :: id in s.slots ==> !s.slots[id].dirty
  {
    CommittedIsClean(s);
    hide Ok, Interrupted, AllOrNothing;
    if Clean(s) {
      forall i | Interrupted(s, i) ensures AllOrNothing(s, i) {
        CleanIsAtomic(s, i);
      }
    } else {
      var d :| d in s.slots && s.slots[d].dirty;
      var x := if s.slots[d].data == ZeroPage() then PageData(seq(PAGE_SIZE, _ => 1)) else ZeroPage();
      assert ZeroPage().bytes[0] == 0;
      var i := DirtyTears(s, d, x, x);
    }
  }
}
