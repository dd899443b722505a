/** The operating system's side of the files: one call per file operation. */
module Files {
  import opened Bytes
  import opened FileSystem

  class Os {
    var fs: Fs
    /** Every state the files have been in, the present one last: the machine may have stopped in any. */
    ghost var history: seq<Fs>

    constructor (fs: Fs)
      ensures this.fs == fs && history == [fs]
    {
      this.fs := fs;
      history := [fs];
    }

    method Do(op: FileOp)
      modifies this
      ensures fs == Apply(old(fs), op)
      ensures history == old(history) + [fs]
    {
      fs := Apply(fs, op);
      history := history + [fs];
    }
  }

  /** Every state reached since `before` keeps `pages` recoverable. */
  ghost predicate GuardedSince(before: seq<Fs>, now: seq<Fs>, pages: seq<PageData>) {
    before <= now && forall k :: |before| <= k < |now| ==> Guarded(now[k], pages)
  }

  /** In every state reached since `before` the commit has happened entirely or not at all. */
  ghost predicate AtomicSince(before: seq<Fs>, now: seq<Fs>, first: seq<PageData>, last: seq<PageData>) {
    before <= now && forall k :: |before| <= k < |now| ==> Committing(now[k], first, last)
  }

  lemma AtomicThen(before: seq<Fs>, mid: seq<Fs>, now: seq<Fs>, first: seq<PageData>, last: seq<PageData>)
    requires GuardedSince(before, mid, first) && AtomicSince(mid, now, first, last)
    ensures AtomicSince(before, now, first, last)
  {
    forall k | |before| <= k < |now|
      ensures Committing(now[k], first, last)
    {
      if k < |mid| { assert now[k] == mid[k]; }
    }
  }
}

/** The rollback journal: created with a header, appended to, replayed, removed. */
module Journal {
  import opened Bytes
  import opened FileSystem
  import opened Files

  /**
  A journal with a complete header that says how long the database is, no record in it and nothing of it durable yet.
  Whatever database of that length could be recovered without a journal still can be.
  */
  method Create(os: Os, pages: nat)
    modifies os
    ensures os.fs.journal == Some(JournalFile(true, false, pages, [], [])) && Openable(os.fs)
    ensures os.fs.(journal := old(os.fs).journal) == old(os.fs)
    ensures os.history == old(os.history) + [os.fs]
    ensures old(os.fs).journal.None? ==> forall image :: Guarded(old(os.fs), image) && |image| == pages ==> Guarded(os.fs, image)
  {
    ghost var fs := os.fs;
    os.Do(CreateJournal(pages));
    forall image | fs.journal.None? && Guarded(fs, image) && |image| == pages ensures Guarded(os.fs, image) {
      HarmlessKeepsGuard(fs, CreateJournal(pages), image);
    }
  }

  /**
  Removes the journal and syncs its directory: neither is there a journal afterwards nor can a stop bring the old one
  back, and the database is as it was. For a flushed database the removal is the commit point: a stop before it finds the pages
  from before, a stop after it those from after, and one between the two operations either.
  */
  method Remove(os: Os)
    modifies os
    ensures os.fs == old(os.fs).(journal := None, unlinked := None)
    ensures |os.history| == |old(os.history)| + 2 && old(os.history) <= os.history && os.history[|os.history| - 1] == os.fs
    ensures os.history[|old(os.history)|] == old(os.fs).(journal := None, unlinked := old(os.fs).journal)
    ensures forall before, after :: Flushed(old(os.fs), before, after) ==>
      AtomicSince(old(os.history), os.history, before, after) && Guarded(os.fs, after)
  {
    ghost var fs := os.fs;
    os.Do(RemoveJournal);
    os.Do(SyncDir);
    forall before, after | Flushed(fs, before, after)
      ensures AtomicSince(old(os.history), os.history, before, after) && Guarded(os.fs, after)
    {
      FlushedIsInDoubt(fs, before, after);
    }
  }

  /** All of `after` is in the durable file, and a durable journal still leads back to `before`. */
  ghost predicate Flushed(fs: Fs, before: seq<PageData>, after: seq<PageData>) {
    && Guarded(fs, before) && fs == Fs(after, after, {}, |after|, fs.journal, None)
    && fs.journal.Some? && fs.journal.value.header && fs.journal.value.headerDurable
  }

  /** Removing the journal of a flushed database leaves a stop only the two outcomes. */
  lemma FlushedIsInDoubt(fs: Fs, before: seq<PageData>, after: seq<PageData>)
    requires Flushed(fs, before, after)
    ensures InDoubt(Apply(fs, RemoveJournal), before, after)
    ensures Guarded(Apply(Apply(fs, RemoveJournal), SyncDir), after)
  {
  }

  /** The first i records are intact, and written back. */
  ghost predicate Replayed(fs: Fs, since: seq<Fs>, entries: seq<Entry>, ops: seq<FileOp>, i: nat, now: Fs, history: seq<Fs>) {
    && i <= |entries| && i <= |ops| && (forall k :: 0 <= k < i ==> entries[k].Intact?)
    && now == Run(fs, ops[..i]) && history == since + Trail(fs, ops)[..i]
  }

  lemma {:induction false} ReplayStep(fs: Fs, since: seq<Fs>, entries: seq<Entry>, ops: seq<FileOp>, i: nat, now: Fs, history: seq<Fs>)
    requires ops == Restores(IntactPrefix(entries)) && i < |entries| && entries[i].Intact?
    requires Replayed(fs, since, entries, ops, i, now, history)
    ensures var next := Apply(now, WriteAt(entries[i].rec.id, entries[i].rec.data));
      Replayed(fs, since, entries, ops, i + 1, next, history + [next])
  {
    PrefixLength(entries, i + 1);
    RunSnoc(fs, ops, i);
    hide Run, Apply, IntactPrefix;
    assert Trail(fs, ops)[..i + 1] == Trail(fs, ops)[..i] + [Run(fs, ops[..i + 1])];
  }

  /** Writes the images of the intact records back, up to the first torn one. */
  method ReplayRecords(os: Os, entries: seq<Entry>, ghost ops: seq<FileOp>)
    requires ops == Restores(IntactPrefix(entries))
    modifies os
    ensures os.fs == Run(old(os.fs), ops)
    ensures os.history == old(os.history) + Trail(old(os.fs), ops)
  {
    ghost var fs0 := os.fs;
    var i := 0;
    assert Replayed(fs0, old(os.history), entries, ops, 0, os.fs, os.history);
    while i < |entries| && entries[i].Intact?
      invariant 0 <= i <= |entries|
      invariant Replayed(fs0, old(os.history), entries, ops, i, os.fs, os.history)
    {
      hide Replayed, Apply, Run, Restores, IntactPrefix;
      ReplayStep(fs0, old(os.history), entries, ops, i, os.fs, os.history);
      os.Do(WriteAt(entries[i].rec.id, entries[i].rec.data));
      i := i + 1;
    }
    PrefixLength(entries, i);
    assert ops[..i] == ops && Trail(fs0, ops)[..i] == Trail(fs0, ops);
  }

  /** One more operation behind a list of them. */
  lemma TrailThenOne(fs: Fs, ops: seq<FileOp>, a: FileOp)
    ensures var r := Apply(Run(fs, ops), a); Run(fs, ops + [a]) == r && Trail(fs, ops + [a]) == Trail(fs, ops) + [r]
  {
    RunSnoc(fs, ops + [a], |ops|);
    assert (ops + [a])[..|ops|] == ops && (ops + [a])[..|ops| + 1] == ops + [a];
    forall k | 0 <= k < |ops| ensures Trail(fs, ops + [a])[k] == Trail(fs, ops)[k] {
      assert (ops + [a])[..k + 1] == ops[..k + 1];
    }
  }

  /** Two more operations behind a list of them. */
  lemma TrailThenTwo(fs: Fs, ops: seq<FileOp>, a: FileOp, b: FileOp)
    ensures var all := ops + [a, b]; var f := Apply(Run(fs, ops), a);
      Run(fs, all) == Apply(f, b) && Trail(fs, all) == Trail(fs, ops) + [f, Apply(f, b)]
  {
    RunAppend(fs, ops, [a, b]);
    TrailAppend(fs, ops, [a, b]);
    RunTwo(Run(fs, ops), a, b);
  }

  /**
  Copies the journalled images back into the database until the first record that is torn, then
  restores the length and syncs. Without a complete header it fails and touches nothing.
  */
  method Replay(os: Os) returns (dbPages: Option<nat>)
    requires os.fs.journal.Some?
    modifies os
    ensures var j := old(os.fs).journal.value;
      if j.header then
        && dbPages == Some(j.pages)
        && os.fs == Run(old(os.fs), ReplayOps(j))
        && os.history == old(os.history) + Trail(old(os.fs), ReplayOps(j))
      else dbPages == None && os.fs == old(os.fs) && os.history == old(os.history)
  {
    var j := os.fs.journal.value;
    if j.header {
      ghost var restores := Restores(IntactPrefix(j.Entries()));
      TrailThenTwo(os.fs, restores, Truncate(j.pages), SyncDb);
      ReplayRecords(os, j.Entries(), restores);
      os.Do(Truncate(j.pages));
      os.Do(SyncDb);
      dbPages := Some(j.pages);
    } else {
      dbPages := None;
    }
  }
}

/** The pager itself: page cache, allocation and transactions over the two files. */
module Pager {
  import opened Bytes
  import opened FileSystem
  import opened Files
  import opened PagerState
  import opened Journal

  class Page {
    const id: nat
    var data: PageData
    var dirty: bool

    constructor (id: nat, data: PageData, dirty: bool)
      ensures this.id == id && this.data == data && this.dirty == dirty
    {
      this.id, this.data, this.dirty := id, data, dirty;
    }
  }

  class Pager {
    const os: Os
    var cache: map<nat, Page>
    var count: nat
    var journal: bool
    var inTxn: bool
    var startCount: nat
    /** The pages of the database when the transaction began. */
    ghost var begun: seq<PageData>

    ghost function Slots(): map<nat, Slot>
      reads this`cache, cache.Values
    {
      map id | id in cache :: Slot(cache[id].data, cache[id].dirty)
    }

    /** The pager and its files as a value. */
    ghost function Now(): State
      reads this, os, cache.Values
    {
      State(Slots(), count, journal, inTxn, startCount, begun, os.fs)
    }

    ghost predicate Wired()
      reads this`cache, cache.Values
    {
      forall id :: id in cache ==> cache[id].id == id
    }

    ghost predicate Valid()
      reads this, os, cache.Values
    {
      Wired() && Fit(Now())
    }

    constructor (os: Os)
      ensures this.os == os && cache == map[] && count == |os.fs.disk| && !journal && !inTxn
    {
      this.os, cache, count := os, map[], |os.fs.disk|;
      journal, inTxn, startCount, begun := false, false, 0, [];
    }

    /** Rolls back whatever a stopped transaction left: replay the journal, then remove it. */
    static method Recover(os: Os) returns (ok: bool)
      modifies os
      ensures ok <==> Openable(old(os.fs))
      ensures os.fs == Run(old(os.fs), RecoveryOps(old(os.fs)))
      ensures os.history == old(os.history) + Trail(old(os.fs), RecoveryOps(old(os.fs)))
    {
      ok := true;
      ghost var fs0 := os.fs;
      if os.fs.journal.Some? {
        var r := Journal.Replay(os);
        if r.None? { return false; }
        ghost var replay := ReplayOps(fs0.journal.value);
        TrailAppend(fs0, replay, [RemoveJournal, SyncDir]);
        RunAppend(fs0, replay, [RemoveJournal, SyncDir]);
        RunTwo(os.fs, RemoveJournal, SyncDir);
        Journal.Remove(os);
      }
    }

    /** Opens the files as a stop left them: recovery first, and only then the page count. */
    static method Open(os: Os) returns (p: Option<Pager>)
      requires Settled(os.fs)
      modifies os
      ensures p.Some? <==> Openable(old(os.fs))
      ensures os.fs == Run(old(os.fs), RecoveryOps(old(os.fs)))
      ensures os.history == old(os.history) + Trail(old(os.fs), RecoveryOps(old(os.fs)))
      ensures p.Some? ==>
        && fresh(p.value) && fresh(p.value.cache.Values) && p.value.os == os
        && p.value.Valid() && Ok(p.value.Now()) && !p.value.inTxn
        && p.value.Now().Contents() == (if os.fs.disk == [] then [ZeroPage()] else os.fs.disk)
        && (Committed(p.value.Now()) <==> os.fs.disk != [])
    {
      var ok := Recover(os);
      if !ok { return None; }
      RecoverySettles(old(os.fs));
      var pager := new Pager(os);
      if pager.count == 0 {
        var _ := pager.Allocate();
      }
      p := Some(pager);
    }

    method Get(id: nat) returns (page: Option<Page>)
      requires Valid()
      modifies this`cache
      ensures Valid() && Now() == AfterGet(old(Now()), id) && Now().Contents() == old(Now()).Contents()
      ensures old(Ok(Now())) ==> Ok(Now())
      ensures page.Some? <==> id < count
      ensures page.Some? ==> id in cache && cache[id] == page.value && page.value.data == Now().Contents()[id]
      ensures page.Some? ==> page.value in old(cache.Values) || fresh(page.value)
      ensures cache == if page.Some? then old(cache)[id := page.value] else old(cache)
    {
      hide Fit, Ok;
      GetOk(Now(), id);
      if id in cache {
        page := Some(cache[id]);
      } else if id < |os.fs.disk| {
        var p := new Page(id, os.fs.disk[id], false);
        cache := cache[id := p];
        assert Slots() == old(Slots())[id := Slot(p.data, false)];
        page := Some(p);
      } else {
        page := None;
      }
    }

    method Allocate() returns (page: Page)
      requires Valid()
      modifies this`cache, this`count
      ensures Valid() && Now() == AfterAllocate(old(Now())) && Now().Contents() == old(Now()).Contents() + [ZeroPage()]
      ensures old(Ok(Now())) ==> Ok(Now())
      ensures fresh(page) && page.id == old(count) && cache == old(cache)[page.id := page]
    {
      hide Fit, Ok;
      AllocateOk(Now());
      page := new Page(count, ZeroPage(), true);
      cache := cache[page.id := page];
      count := count + 1;
      assert Slots() == old(Slots())[page.id := Slot(ZeroPage(), true)];
    }

    /** Starts a transaction. Its pages are safe from the start exactly if none of them is dirty. */
    method Begin()
      requires Valid() && !inTxn
      modifies this`inTxn, this`startCount, this`begun
      ensures Valid() && Now() == AfterBegin(old(Now())) && Now().Contents() == old(Now()).Contents()
      ensures old(Committed(Now())) ==> begun == Now().Contents()
      ensures old(Ok(Now())) ==> (Ok(Now()) <==> old(Committed(Now()))) && (NextIsAtomic(old(Now())) <==> old(Committed(Now())))
    {
      hide Fit, Ok, Committed, NextIsAtomic;
      BeginsSafely(Now());
      inTxn := true;
      startCount := count;
      begun := os.fs.disk;
    }

    /**
    Announces that `page` is about to change. The first announcement of a clean page that the transaction
    started with copies its image into the journal; no later one does.
    */
    method Write(page: Page)
      requires Valid() && page.id in cache && cache[page.id] == page
      modifies this`journal, os, page`dirty
      ensures Valid() && Now() == AfterWrite(old(Now()), page.id) && page.dirty
      ensures Now().Contents() == old(Now()).Contents()
      ensures old(Ok(Now())) ==> Ok(Now()) && (inTxn ==> GuardedSince(old(os.history), os.history, begun))
      ensures old(os.history) <= os.history
    {
      WriteOk(Now(), page.id);
      if Ok(Now()) && inTxn { SnapshotGuarded(Now()); }
      hide Fit, Ok, Guarded, GuardedSince;
      Announce(page, begun);
    }

    method Announce(page: Page, ghost pages: seq<PageData>)
      requires Wired() && (journal <==> os.fs.journal.Some?) && page.id in cache && cache[page.id] == page
      modifies this`journal, os, page`dirty
      ensures Wired() && Now() == AfterWrite(old(Now()), page.id) && page.dirty && old(os.history) <= os.history
      ensures Guarded(old(os.fs), pages) && startCount == |pages| && (!old(page.dirty) && page.id < startCount ==> page.data == pages[page.id]) ==>
        GuardedSince(old(os.history), os.history, pages)
    {
      hide Guarded;
      ghost var target := AfterWrite(Now(), page.id);
      if !page.dirty {
        if inTxn && page.id < startCount {
          Capture(page.id, page.data);
        }
        assert Slots() == old(Slots());
        Mark(page, true);
      }
      assert Slots() == target.slots;
      assert os.fs == target.fs;
    }

    /** Sets the dirty flag of one cached page. */
    method Mark(page: Page, dirty: bool)
      requires Wired() && page.id in cache && cache[page.id] == page
      modifies page`dirty
      ensures Wired() && Slots() == old(Slots())[page.id := Slot(page.data, dirty)]
    {
      page.dirty := dirty;
      forall id | id in cache && id != page.id ensures cache[id] != page {
      }
    }

    /** Copies a page image into the journal, which is created for the first of them. */
    method Capture(id: nat, data: PageData)
      requires journal <==> os.fs.journal.Some?
      modifies this`journal, os
      ensures journal && os.fs == Journalled(old(os.fs), startCount, id, data)
      ensures forall pages :: Guarded(old(os.fs), pages) && startCount == |pages| && id < |pages| && data == pages[id] ==>
        GuardedSince(old(os.history), os.history, pages)
      ensures old(os.history) <= os.history
    {
      ghost var fs := os.fs;
      if !journal {
        Journal.Create(os, startCount);
        journal := true;
      }
      ghost var created := os.fs;
      os.Do(AppendJournal(id, data));
      forall pages | Guarded(fs, pages) && startCount == |pages| && id < |pages| && data == pages[id]
        ensures GuardedSince(old(os.history), os.history, pages)
      {
        HarmlessKeepsGuard(created, AppendJournal(id, data), pages);
      }
    }

    /** The caller's own change to a page it has announced. */
    method SetData(page: Page, data: PageData)
      requires Valid() && page.id in cache && cache[page.id] == page && page.dirty
      modifies page`data
      ensures Valid() && Now() == AfterSetData(old(Now()), page.id, data)
      ensures page.id < old(count) && Now().Contents() == old(Now()).Contents()[page.id := data]
      ensures old(Ok(Now())) ==> Ok(Now())
    {
      hide Ok, Kept;
      SetDataOk(Now(), page.id, data);
      assert page.id in Slots();
      page.data := data;
      assert Slots() == old(Slots())[page.id := Slot(data, true)];
    }

    /** Writes every dirty page to the file, in the order in which the cache yields them. */
    method FlushPages() returns (ghost order: seq<nat>)
      requires Wired()
      modifies os, cache.Values`dirty
      ensures Wired() && Order(old(Slots()), order)
      ensures Slots() == Cleaned(old(Slots()))
      ensures os.fs == Run(old(os.fs), WriteOps(old(Slots()), order))
      ensures os.history == old(os.history) + Trail(old(os.fs), WriteOps(old(Slots()), order))
    {
      ghost var slots, fs, since := Slots(), os.fs, os.history;
      var todo := cache.Keys;
      order := [];
      FlushBegins(slots, fs, since);
      while todo != {}
        invariant Wired() && todo <= cache.Keys
        invariant Flushing(slots, todo, order, fs, since, Slots(), os.fs, os.history)
        decreases todo
      {
        hide Flushing, Slots;
        var id :| id in todo;
        FlushStep(slots, todo, order, fs, since, Slots(), os.fs, os.history, id);
        FlushPage(cache[id]);
        order := if slots[id].dirty then order + [id] else order;
        todo := todo - {id};
      }
    }

    /** Writes one page of the cache to the file if it is dirty. */
    method FlushPage(page: Page)
      requires Wired() && page.id in cache && cache[page.id] == page
      modifies os, page`dirty
      ensures Wired() && Slots() == old(Slots())[page.id := Slot(page.data, false)]
      ensures os.fs == if old(page.dirty) then Apply(old(os.fs), WriteAt(page.id, page.data)) else old(os.fs)
      ensures os.history == if old(page.dirty) then old(os.history) + [os.fs] else old(os.history)
    {
      if page.dirty {
        os.Do(WriteAt(page.id, page.data));
        Mark(page, false);
      }
      assert Slots() == old(Slots())[page.id := Slot(page.data, false)];
    }

    /** Writes every dirty page to the file, restores the length and syncs: the file is then all that a caller sees. */
    method Flush() returns (ghost order: seq<nat>)
      requires Wired() && Indexed(Now())
      modifies os, cache.Values`dirty
      ensures Wired() && Order(old(Slots()), order) && Slots() == Cleaned(old(Slots()))
      ensures os.history == old(os.history) + Trail(old(os.fs), FlushOps(old(Now()), order))
      ensures os.fs == Run(old(os.fs), FlushOps(old(Now()), order))
      ensures var now := old(Now()).Contents();
        os.fs == Fs(now, now, {}, count, old(os.fs.journal), old(os.fs.unlinked))
    {
      order := FlushPages();
      ghost var s := old(Now());
      FlushLands(s, s.fs, order);
      TrailThenTwo(s.fs, WriteOps(s.slots, order), Truncate(count), SyncDb);
      os.Do(Truncate(count));
      os.Do(SyncDb);
    }

    /**
    Makes the transaction durable: journal synced, dirty pages written, database synced, journal removed. `order` is the order in
    which the cache yielded the pages. If the transaction began with no dirty page, the database is between any two file operations
    recoverable as it was before or as it is after, and as it was before for as long as the journal exists.
    */
    method Commit() returns (ghost order: seq<nat>)
      requires Valid()
      modifies this`journal, this`inTxn, os, cache.Values`dirty
      ensures Valid() && Now() == AfterCommit(old(Now())) && Ok(Now()) && Committed(Now())
      ensures Now().Contents() == old(Now()).Contents() == os.fs.disk
      ensures Order(old(Slots()), order) && os.history == old(os.history) + Trail(old(os.fs), CommitOps(old(Now()), order))
      ensures old(Ok(Now())) && old(inTxn) ==> AtomicSince(old(os.history), os.history, begun, os.fs.disk)
    {
      hide Fit, Ok, Committed, Committing;
      ghost var s, target := Now(), AfterCommit(Now());
      CommitOk(s);
      order := CommitFiles();
      inTxn := false;
      assert Now() == target;
      if Ok(s) && s.inTxn {
        CommitIsAtomic(s, order);
        ThroughIsSince(old(os.history), s.fs, CommitOps(s, order), s.begun, os.fs.disk);
      }
    }

    /** The three steps of a commit, in the order that makes it atomic. */
    method CommitFiles() returns (ghost order: seq<nat>)
      requires Valid()
      modifies this`journal, os, cache.Values`dirty
      ensures Wired() && Slots() == Cleaned(old(Slots())) && !journal && os.fs == AfterCommit(old(Now())).fs
      ensures Order(old(Slots()), order) && os.history == old(os.history) + Trail(old(os.fs), CommitOps(old(Now()), order))
    {
      hide Run, Kept, Cleaned;
      ghost var s := Now();
      SyncImages();
      assert Indexed(Now()) && Now().Contents() == s.Contents();
      order := Flush();
      ghost var flushed := os.fs;
      Finish();
      if s.journal { CommitTrail(s.fs, FlushOps(s, order), flushed); }
    }

    /** First step of a commit: the images become durable. */
    method SyncImages()
      modifies os
      ensures os.fs == if journal then Apply(old(os.fs), SyncJournal) else old(os.fs)
      ensures os.history == if journal then old(os.history) + [os.fs] else old(os.history)
    {
      if journal { os.Do(SyncJournal); }
    }

    /** Last step of a commit: without its journal the transaction is committed. */
    method Finish()
      modifies this`journal, os
      ensures !journal && (!old(journal) ==> os.fs == old(os.fs) && os.history == old(os.history))
      ensures old(journal) ==>
        var removed := Apply(old(os.fs), RemoveJournal);
        os.fs == Apply(removed, SyncDir) && os.history == old(os.history) + [removed, os.fs]
    {
      if journal {
        Journal.Remove(os);
        journal := false;
      }
    }

    /** Gives back the file and the length the transaction began with, and forgets every cached page. */
    method Rollback() returns (ok: bool)
      requires Valid() && inTxn
      modifies this`cache, this`count, this`journal, this`inTxn, os
      ensures ok && Valid() && Now() == AfterRollback(old(Now())) && cache == map[]
      ensures Committed(Now()) && Now().Contents() == Resize(begun, startCount) == os.fs.disk && count == old(startCount)
      ensures old(Ok(Now())) ==> Ok(Now()) && Now().Contents() == begun && GuardedSince(old(os.history), os.history, begun)
      ensures old(os.history) <= os.history
    {
      ghost var s, target := Now(), AfterRollback(Now());
      RollbackOk(s);
      if Ok(s) { SnapshotGuarded(s); }
      ok := Restore();
      if !ok { return; }
      cache := map[];
      inTxn := false;
      assert Slots() == map[];
      assert Now() == target;
    }

    /** The part of a rollback that touches the files. */
    method Restore() returns (ok: bool)
      requires journal <==> os.fs.journal.Some?
      modifies this`count, this`journal, os
      ensures ok <==> Openable(old(os.fs))
      ensures ok && old(journal) ==>
        var j := old(os.fs).journal.value;
        !journal && count == j.pages && os.fs == Apply(Apply(Run(old(os.fs), ReplayOps(j)), RemoveJournal), SyncDir)
      ensures !old(journal) ==>
        !journal && count == old(startCount) && os.fs == Apply(old(os.fs), Truncate(startCount))
      ensures forall pages :: Guarded(old(os.fs), pages) && old(os.fs).disk == pages && startCount == |pages| ==>
        GuardedSince(old(os.history), os.history, pages)
      ensures old(os.history) <= os.history
    {
      ghost var fs := os.fs;
      if journal {
        var dbPages := Journal.Replay(os);
        if dbPages.None? { return false; }
        ghost var replayed := os.fs;
        Journal.Remove(os);
        forall pages | Guarded(fs, pages) && fs.disk == pages
          ensures GuardedSince(old(os.history), os.history, pages)
        {
          ReplayKeepsGuard(fs, pages);
          HarmlessKeepsGuard(replayed, RemoveJournal, pages);
          HarmlessKeepsGuard(Apply(replayed, RemoveJournal), SyncDir, pages);
        }
        journal := false;
        count := dbPages.value;
      } else {
        count := startCount;
        os.Do(Truncate(count));
        forall pages | Guarded(fs, pages) && startCount == |pages|
          ensures GuardedSince(old(os.history), os.history, pages)
        {
          HarmlessKeepsGuard(fs, Truncate(count), pages);
        }
      }
      ok := true;
    }
  }

  /** Part way through a flush: the pages outside `todo` are clean, and those of them that were dirty are written, in the order given. */
  ghost predicate Flushing(slots: map<nat, Slot>, todo: set<nat>, order: seq<nat>, fs: Fs, since: seq<Fs>,
                           slotsNow: map<nat, Slot>, fsNow: Fs, history: seq<Fs>)
  {
    && slotsNow == (map id | id in slots :: if id in todo then slots[id] else slots[id].(dirty := false))
    && (forall id :: id in order <==> id in slots && slots[id].dirty && id !in todo)
    && (forall i, j :: 0 <= i < j < |order| ==> order[i] != order[j])
    && fsNow == Run(fs, WriteOps(slots, order))
    && history == since + Trail(fs, WriteOps(slots, order))
  }

  lemma FlushBegins(slots: map<nat, Slot>, fs: Fs, since: seq<Fs>)
    ensures Flushing(slots, slots.Keys, [], fs, since, slots, fs, since)
  {
  }

  lemma FlushStep(slots: map<nat, Slot>, todo: set<nat>, order: seq<nat>, fs: Fs, since: seq<Fs>,
                  slotsNow: map<nat, Slot>, fsNow: Fs, history: seq<Fs>, id: nat)
    requires Flushing(slots, todo, order, fs, since, slotsNow, fsNow, history) && id in todo && todo <= slots.Keys
    ensures id in slotsNow && slotsNow[id] == slots[id]
    ensures var clean := slotsNow[id := Slot(slots[id].data, false)];
      if slots[id].dirty then
        var fsNext := Apply(fsNow, WriteAt(id, slots[id].data));
        Flushing(slots, todo - {id}, order + [id], fs, since, clean, fsNext, history + [fsNext])
      else Flushing(slots, todo - {id}, order, fs, since, clean, fsNow, history)
  {
    hide Run, Apply;
    if slots[id].dirty { WriteOpsSnoc(fs, slots, order, id); }
  }

  /** One more page written. */
  lemma WriteOpsSnoc(fs: Fs, slots: map<nat, Slot>, order: seq<nat>, id: nat)
    requires id in slots && forall i :: i in order ==> i in slots
    ensures var r := Apply(Run(fs, WriteOps(slots, order)), WriteAt(id, slots[id].data));
      && Run(fs, WriteOps(slots, order + [id])) == r
      && Trail(fs, WriteOps(slots, order + [id])) == Trail(fs, WriteOps(slots, order)) + [r]
  {
    var ops, more := WriteOps(slots, order), WriteOps(slots, order + [id]);
    assert more == ops + [WriteAt(id, slots[id].data)];
    TrailThenOne(fs, ops, WriteAt(id, slots[id].data));
  }

  /** The states that a commit with a journal passes through. */
  lemma CommitTrail(fs: Fs, flush: seq<FileOp>, flushed: Fs)
    requires flushed == Run(Apply(fs, SyncJournal), flush)
    ensures Trail(fs, [SyncJournal] + flush + [RemoveJournal, SyncDir]) ==
      [Apply(fs, SyncJournal)] + Trail(Apply(fs, SyncJournal), flush) + [Apply(flushed, RemoveJournal), Apply(Apply(flushed, RemoveJournal), SyncDir)]
  {
    TrailThenOne(fs, [], SyncJournal);
    assert [] + [SyncJournal] == [SyncJournal];
    TrailAppend(fs, [SyncJournal], flush);
    RunAppend(fs, [SyncJournal], flush);
    TrailAppend(fs, [SyncJournal] + flush, [RemoveJournal, SyncDir]);
    RunTwo(flushed, RemoveJournal, SyncDir);
  }

  /** What holds in every state on the way holds in every state of the history. */
  lemma ThroughIsSince(history: seq<Fs>, fs: Fs, ops: seq<FileOp>, before: seq<PageData>, after: seq<PageData>)
    requires Through(fs, ops, before, after)
    ensures AtomicSince(history, history + Trail(fs, ops), before, after)
  {
    hide Committing, Run;
  }
}
