/** The schema on its page: written through the pager, so that a stop leaves the old one or the new one. */
module SchemaStore {
  import opened Bytes
  import opened FileSystem
  import opened Files
  import opened PagerState
  import Pager
  import opened Catalog

  /** Page 0 stays empty. */
  const SCHEMA_PAGE := 1

  /** The schema that a database with these pages has. */
  function SchemaOf(pages: seq<PageData>): Option<Schema> {
    if SCHEMA_PAGE < |pages| then Unmarshalled(pages[SCHEMA_PAGE].bytes) else None
  }

  class Store {
    const pager: Pager.Pager

    constructor (pager: Pager.Pager)
      ensures this.pager == pager
    {
      this.pager := pager;
    }

    /**
    Opens the files as a stop left them. A file of fewer than two pages, new or left so by a stop, gets the pages it lacks, which wait
    to be written: exactly then the next transaction is not atomic.
    */
    static method Open(os: Os) returns (store: Option<Store>)
      requires Settled(os.fs)
      modifies os
      ensures store.Some? <==> Openable(old(os.fs))
      ensures os.fs == Run(old(os.fs), RecoveryOps(old(os.fs)))
      ensures os.history == old(os.history) + Trail(old(os.fs), RecoveryOps(old(os.fs)))
      ensures store.Some? ==>
        var pager, disk := store.value.pager, os.fs.disk;
        && fresh(pager) && fresh(pager.cache.Values) && pager.os == os
        && pager.Valid() && Ok(pager.Now()) && !pager.inTxn
        && pager.Now().Contents() == (if |disk| < 2 then Resize(disk, 2) else disk)
        && (Committed(pager.Now()) <==> 2 <= |disk|)
        && (NextIsAtomic(pager.Now()) <==> 2 <= |disk|)
    {
      hide Fit, Ok, NextIsAtomic, Run, RecoveryOps;
      store := None;
      var p := Pager.Pager.Open(os);
      if p.Some? {
        var pager := p.value;
        if pager.count <= SCHEMA_PAGE {
          ghost var cache := pager.cache;
          var page := pager.Allocate();
          assert forall p :: p in pager.cache.Values ==> p == page || p in cache.Values;
        }
        OpenedIs(pager.Now());
        var s := new Store(pager);
        store := Some(s);
      }
    }

    method ReadSchema() returns (schema: Option<Schema>)
      requires pager.Valid()
      modifies pager`cache
      ensures pager.Valid() && pager.Now().Contents() == old(pager.Now()).Contents()
      ensures schema == SchemaOf(pager.Now().Contents())
    {
      schema := None;
      var page := pager.Get(SCHEMA_PAGE);
      if page.Some? { schema := Unmarshal(page.value.data.bytes); }
    }

    /** Replaces the bytes of the schema page, after announcing it; bytes that do not fit are refused. */
    method WriteSchema(buf: seq<Byte>) returns (ok: bool)
      requires pager.Valid()
      modifies pager`cache, pager`journal, pager.os, pager.cache.Values
      ensures pager.Valid() && pager.inTxn == old(pager.inTxn) && pager.begun == old(pager.begun)
      ensures pager.count == old(pager.count) && pager.startCount == old(pager.startCount)
      ensures fresh(pager.cache.Values - old(pager.cache.Values)) && old(pager.os.history) <= pager.os.history
      ensures ok <==> |buf| <= PAGE_SIZE && SCHEMA_PAGE < |old(pager.Now()).Contents()|
      ensures var was := old(pager.Now()).Contents();
        pager.Now().Contents() == if ok then was[SCHEMA_PAGE := PageData(SchemaPage(buf).value)] else was
      ensures old(Ok(pager.Now())) ==>
        Ok(pager.Now()) && (pager.inTxn ==> GuardedSince(old(pager.os.history), pager.os.history, pager.begun))
    {
      hide Committed, Fit, Ok, AfterWrite, AfterGet, AfterSetData;
      ok := false;
      if |buf| <= PAGE_SIZE {
        var page := pager.Get(SCHEMA_PAGE);
        if page.Some? {
          pager.Write(page.value);
          pager.SetData(page.value, PageData(SchemaPage(buf).value));
          ok := true;
        }
      }
    }

    /**
    A transaction that writes the schema page and nothing else. If it does not, the file is what it was. In a committed
    database it is atomic.
    */
    method Replace(buf: seq<Byte>) returns (ok: bool)
      requires pager.Valid() && !pager.inTxn
      modifies pager, pager.os, pager.cache.Values
      ensures pager.Valid() && !pager.inTxn && Committed(pager.Now())
      ensures ok <==> |buf| <= PAGE_SIZE && SCHEMA_PAGE < |old(pager.Now()).Contents()|
      ensures ok ==> pager.Now().Contents() == old(pager.Now()).Contents()[SCHEMA_PAGE := PageData(SchemaPage(buf).value)]
      ensures !ok ==> pager.Now().Contents() == Resize(old(pager.os.fs).disk, old(pager.count))
      ensures old(Ok(pager.Now()) && Committed(pager.Now())) ==>
        && Ok(pager.Now())
        && (ok ==> AtomicSince(old(pager.os.history), pager.os.history, old(pager.Now()).Contents(), pager.Now().Contents()))
        && (!ok ==> GuardedSince(old(pager.os.history), pager.os.history, old(pager.Now()).Contents()))
    {
      hide Fit, Ok, Committed, NextIsAtomic, Guarded, Committing;
      pager.Begin();
      ok := WriteSchema(buf);
      ghost var mid := pager.os.history;
      if ok {
        ghost var _ := pager.Commit();
        if old(Ok(pager.Now()) && Committed(pager.Now())) {
          AtomicThen(old(pager.os.history), mid, pager.os.history, pager.begun, pager.os.fs.disk);
        }
      } else {
        var _ := pager.Rollback();
        if old(Ok(pager.Now()) && Committed(pager.Now())) {
          GuardedThen(old(pager.os.history), mid, pager.os.history, pager.begun);
        }
      }
    }

    /** A statement of its own that changes the schema. */
    method SaveSchema(schema: Schema) returns (ok: bool)
      requires pager.Valid() && !pager.inTxn && SchemaOk(schema)
      modifies pager, pager.os, pager.cache.Values
      ensures pager.Valid() && !pager.inTxn && Committed(pager.Now())
      ensures var was, now := old(pager.Now()).Contents(), pager.Now().Contents();
        && (ok ==> SchemaOf(now) == Some(schema) && |now| == |was| && forall i :: 0 <= i < |was| && i != SCHEMA_PAGE ==> now[i] == was[i])
        && (!ok ==> now == Resize(old(pager.os.fs).disk, |was|))
        && (old(Ok(pager.Now()) && Committed(pager.Now())) ==>
              && Ok(pager.Now())
              && (ok ==> AtomicSince(old(pager.os.history), pager.os.history, was, now))
              && (!ok ==> now == was && GuardedSince(old(pager.os.history), pager.os.history, was)))
    {
      hide AtomicSince, GuardedSince, SchemaPage, SchemaOf, Marshalled, SchemaOk, Fit, Ok, Clean;
      var buf := Marshal(schema);
      ghost var s, was := pager.Now(), pager.Now().Contents();
      ok := Replace(buf);
      if ok { SavedSchema(schema, buf, was, pager.Now().Contents()); }
      if Ok(s) && Committed(s) { RolledBack(s); }
    }
  }

  lemma RolledBack(s: State)
    requires Ok(s) && Committed(s)
    ensures Resize(s.fs.disk, s.count) == s.Contents()
  {
  }

  /** After opening, only the pages are dirty that the file lacked. */
  lemma OpenedIs(s: State)
    requires Ok(s) && !s.inTxn
    ensures NextIsAtomic(s) <==> Committed(s)
  {
    AtomicIffClean(s);
    CommittedIsClean(s);
  }

  /** A pager that has just opened a file of fewer than two pages. */
  function Opened(disk: seq<PageData>): State
    requires |disk| < 2
  {
    var schema := map[SCHEMA_PAGE := Slot(ZeroPage(), true)];
    State(if disk == [] then schema[0 := Slot(ZeroPage(), true)] else schema, 2, false, false, 0, [],
          Fs(disk, disk, {}, |disk|, None, None))
  }

  /** What creating a table asks of the pager: a page for its root, and the schema page announced and changed. */
  function NewTable(schema: PageData, root: PageData): seq<Action> {
    [Allocate, SetData(2, root), Get(SCHEMA_PAGE), Write(SCHEMA_PAGE), SetData(SCHEMA_PAGE, schema)]
  }

  lemma NewTableIs(disk: seq<PageData>, schema: PageData, root: PageData)
    requires |disk| < 2
    ensures var s := Opened(disk);
      Acts(AfterBegin(s), NewTable(schema, root)) == Acts(AfterBegin(s), Tearing(s, SCHEMA_PAGE, schema, root))
  {
    var s, actions := Opened(disk), NewTable(schema, root);
    TearingIs(s, SCHEMA_PAGE, schema, root);
    ActsAppend(AfterBegin(s), [Allocate, SetData(2, root)], [Get(SCHEMA_PAGE), Write(SCHEMA_PAGE), SetData(SCHEMA_PAGE, schema)]);
    assert actions == [Allocate, SetData(2, root)] + [Get(SCHEMA_PAGE), Write(SCHEMA_PAGE), SetData(SCHEMA_PAGE, schema)];
    hide Acts, Tearing, NewTable;
    RootAllocated(s, root);
    SchemaChanged(AfterBegin(s).(slots := s.slots[2 := Slot(root, true)], count := 3), schema);
    assert s.slots[2 := Slot(root, true)][SCHEMA_PAGE := Slot(schema, true)] == s.slots[SCHEMA_PAGE := Slot(schema, true)][2 := Slot(root, true)];
  }

  lemma RootAllocated(s: State, root: PageData)
    requires s.count == 2
    ensures Acts(AfterBegin(s), [Allocate, SetData(2, root)]) == AfterBegin(s).(slots := s.slots[2 := Slot(root, true)], count := 3)
  {
    ThreeActs(AfterBegin(s), Allocate, SetData(2, root), Allocate);
    assert s.slots[2 := Slot(ZeroPage(), true)][2 := Slot(root, true)] == s.slots[2 := Slot(root, true)];
  }

  lemma SchemaChanged(s: State, schema: PageData)
    requires SCHEMA_PAGE in s.slots && s.slots[SCHEMA_PAGE].dirty
    ensures Acts(s, [Get(SCHEMA_PAGE), Write(SCHEMA_PAGE), SetData(SCHEMA_PAGE, schema)]) == AfterSetData(s, SCHEMA_PAGE, schema)
  {
    ThreeActs(s, Get(SCHEMA_PAGE), Write(SCHEMA_PAGE), SetData(SCHEMA_PAGE, schema));
  }

  lemma ThreeActs(s: State, a: Action, b: Action, c: Action)
    ensures Acts(s, [a, b]) == Act(Act(s, a), b) && Acts(s, [a, b, c]) == Act(Act(Act(s, a), b), c)
  {
    assert [a, b, c][1..] == [b, c] && [b, c][1..] == [c] && [c][1..] == [] && [a, b][1..] == [b] && [b][1..] == [];
    assert Acts(Act(s, a), [b]) == Act(Act(s, a), b);
    assert Acts(Act(Act(s, a), b), [c]) == Act(Act(Act(s, a), b), c);
    assert Acts(Act(s, a), [b, c]) == Acts(Act(Act(s, a), b), [c]);
  }

  /**
  The first table of a database whose file had fewer than two pages when it was opened: a stop behind the first write of the commit, that of
  the schema page, leaves a schema whose table has no root page. The database opens neither as it was before nor as it is after, for all
  that nothing was wrong with the file.
  */
  lemma FirstTableCanTear(disk: seq<PageData>, schema: PageData, root: PageData) returns (i: Interruption)
    requires |disk| < 2 && schema != ZeroPage()
    ensures Ok(Opened(disk)) && !NextIsAtomic(Opened(disk))
    ensures i.actions == NewTable(schema, root) && Interrupted(Opened(disk), i) && i.steps == 1
    ensures !AllOrNothing(Opened(disk), i) && Openable(i.found)
    ensures var found := Run(i.found, RecoveryOps(i.found)).disk; |found| == 2 && SchemaOf(found) == Unmarshalled(schema.bytes)
  {
    var torn := DirtyTears(Opened(disk), SCHEMA_PAGE, schema, root);
    NewTableIs(disk, schema, root);
    i := torn.(actions := NewTable(schema, root));
    assert AllOrNothing(Opened(disk), i) <==> AllOrNothing(Opened(disk), torn);
    assert Interrupted(Opened(disk), i);
  }

  lemma SavedSchema(schema: Schema, buf: seq<Byte>, was: seq<PageData>, now: seq<PageData>)
    requires SchemaOk(schema) && Marshalled(schema, buf) && |buf| <= PAGE_SIZE && SCHEMA_PAGE < |was|
    requires now == was[SCHEMA_PAGE := PageData(SchemaPage(buf).value)]
    ensures SchemaOf(now) == Some(schema)
  {
    SchemaPageRoundTrip(schema, buf);
  }

  lemma GuardedThen(before: seq<Fs>, mid: seq<Fs>, now: seq<Fs>, pages: seq<PageData>)
    requires GuardedSince(before, mid, pages) && GuardedSince(mid, now, pages)
    ensures GuardedSince(before, now, pages)
  {
    forall k | |before| <= k < |now| ensures Guarded(now[k], pages) {
      if k < |mid| { assert now[k] == mid[k]; }
    }
  }

  /**
  Wherever a commit stops, and however often opening the database is interrupted after that, the
  database opens with the schema from before or with the schema from after; which of them the journal decides.
  */
  lemma SchemaAfterStop(fs: Fs, c: Fs, attempts: seq<Attempt>, f: Fs, before: seq<PageData>, after: seq<PageData>)
    requires Committing(fs, before, after) && Stop(fs, c) && Attempts(c, attempts, f)
    requires SCHEMA_PAGE < |before| && SCHEMA_PAGE < |after|
    ensures var schema := SchemaOf(Run(f, RecoveryOps(f)).disk);
      && schema in {SchemaOf(before), SchemaOf(after)}
      && (fs.journal.Some? ==> schema == SchemaOf(before))
      && (InDoubt(fs, before, after) ==> schema == SchemaOf(if c.journal.Some? then before else after))
      && (Guarded(fs, after) ==> schema == SchemaOf(after))
  {
    hide SchemaOf;
    AtomicRecovers(fs, c, attempts, f, before, after);
    if OpensWith(f, before) { OpensWithSchema(f, before); }
    if OpensWith(f, after) { OpensWithSchema(f, after); }
  }

  lemma OpensWithSchema(f: Fs, pages: seq<PageData>)
    requires OpensWith(f, pages) && SCHEMA_PAGE < |pages|
    ensures SchemaOf(Run(f, RecoveryOps(f)).disk) == SchemaOf(pages)
  {
    var disk := Run(f, RecoveryOps(f)).disk;
    assert disk[SCHEMA_PAGE] == disk[..|pages|][SCHEMA_PAGE];
  }
}
