/**
The two files a database consists of, as the operating system keeps them: the database file and
its rollback journal. Every file operation is one step; between any two steps the machine can stop.

What survives a stop is modelled against the code, never for it. A database page written since the
last sync may come back as anything at all (unless it was only rewritten with the very bytes that
were durable already: no mixture of equal bytes differs from them), the file length may be anything not below the shortest
length since the last sync, and of the journal records that were never synced any prefix may
survive, each record either whole or torn.
*/
module FileSystem {
  import opened Bytes

  /** A page id and the image of that page. */
  datatype Record = Record(id: nat, data: PageData)

  /** What a journal holds in the place of a record: the record, or bytes whose checksum fails. */
  datatype Entry = Intact(rec: Record) | Torn

  /** A journal file. `durable` and `tail` are the synced and the not yet synced records. */
  datatype JournalFile = JournalFile(header: bool, headerDurable: bool, pages: nat, durable: seq<Entry>, tail: seq<Entry>)
  {
    function Entries(): seq<Entry> { durable + tail }
  }

  /**
  `disk` is what a read sees, `synced` what the last sync made durable, `touched` the pages written
  since, and `floor` the shortest length of the file since. `unlinked` is a journal that was removed
  while its directory has not been synced, so that a stop may bring it back.
  */
  datatype Fs = Fs(disk: seq<PageData>, synced: seq<PageData>, touched: set<nat>, floor: nat,
                   journal: Option<JournalFile>, unlinked: Option<JournalFile>)

  datatype FileOp =
    | WriteAt(id: nat, data: PageData)
    | Truncate(pages: nat)
    | SyncDb
    | CreateJournal(startCount: nat)
    | AppendJournal(page: nat, image: PageData)
    | SyncJournal
    | RemoveJournal
    | SyncDir

  /** A file set to a length of n pages: cut, or extended with zero pages. */
  function Resize(disk: seq<PageData>, n: nat): (r: seq<PageData>)
    ensures |r| == n
    ensures forall i :: 0 <= i < n ==> r[i] == if i < |disk| then disk[i] else ZeroPage()
  {
    if n <= |disk| then disk[..n] else disk + seq(n - |disk|, _ => ZeroPage())
  }

  function Overwrite(disk: seq<PageData>, id: nat, data: PageData): (r: seq<PageData>)
    ensures |r| == if id < |disk| then |disk| else id + 1
    ensures forall i :: 0 <= i < |r| ==>
      r[i] == if i == id then data else if i < |disk| then disk[i] else ZeroPage()
  {
    if id < |disk| then disk[id := data] else Resize(disk, id) + [data]
  }

  function Apply(fs: Fs, op: FileOp): Fs {
    match op
    case WriteAt(id, data) =>
      var same := id < fs.floor && id < |fs.synced| && id !in fs.touched && fs.synced[id] == data;
      fs.(disk := Overwrite(fs.disk, id, data), touched := if same then fs.touched else fs.touched + {id})
    case Truncate(n) =>
      fs.(disk := Resize(fs.disk, n), floor := if n < fs.floor then n else fs.floor)
    case SyncDb =>
      fs.(synced := fs.disk, touched := {}, floor := |fs.disk|)
    case CreateJournal(n) =>
      fs.(journal := Some(JournalFile(true, false, n, [], [])))
    case AppendJournal(id, data) =>
      if fs.journal.Some?
      then fs.(journal := Some(fs.journal.value.(tail := fs.journal.value.tail + [Intact(Record(id, data))])))
      else fs
    case SyncJournal =>
      if fs.journal.Some?
      then var j := fs.journal.value; fs.(journal := Some(j.(headerDurable := true, durable := j.durable + j.tail, tail := [])))
      else fs
    case RemoveJournal => fs.(journal := None, unlinked := fs.journal)
    case SyncDir => fs.(unlinked := None)
  }

  /** The file system after each of a list of operations in turn. */
  function Run(fs: Fs, ops: seq<FileOp>): Fs
    decreases |ops|
  {
    if ops == [] then fs else Run(Apply(fs, ops[0]), ops[1..])
  }

  lemma {:induction false} RunAppend(fs: Fs, a: seq<FileOp>, b: seq<FileOp>)
    ensures Run(fs, a + b) == Run(Run(fs, a), b)
    decreases |a|
  {
    if a == [] {
      assert a + b == b;
    } else {
      assert (a + b)[0] == a[0] && (a + b)[1..] == a[1..] + b;
      RunAppend(Apply(fs, a[0]), a[1..], b);
    }
  }

  // ---- stopping ----

  /** What may be left of journal j after a stop. */
  ghost predicate JournalSurvives(j: JournalFile, k: JournalFile) {
    && k.pages == j.pages
    && k.tail == []
    && k.headerDurable == k.header
    && (j.headerDurable ==> k.header == j.header)
    && (k.header ==> j.header)
    && |j.durable| <= |k.durable| <= |j.durable| + |j.tail|
    && k.durable[..|j.durable|] == j.durable
    && (forall i :: |j.durable| <= i < |k.durable| ==>
         k.durable[i] == j.tail[i - |j.durable|] || k.durable[i] == Torn)
  }

  /** c is a state in which the files may be found after the machine stopped in state fs. */
  ghost predicate Stop(fs: Fs, c: Fs) {
    && c.synced == c.disk && c.touched == {} && c.floor == |c.disk| && c.unlinked == None
    && fs.floor <= |c.disk|
    && (forall i :: 0 <= i < fs.floor && i < |fs.synced| && i !in fs.touched ==> c.disk[i] == fs.synced[i])
    && match fs.journal
       case Some(j) => c.journal.Some? && JournalSurvives(j, c.journal.value)
       case None =>
         || c.journal.None?
         || (fs.unlinked.Some? && c.journal.Some? && JournalSurvives(fs.unlinked.value, c.journal.value))
  }

  // ---- recovery ----

  /** The records a replay applies: those before the first one whose checksum fails. */
  function IntactPrefix(entries: seq<Entry>): (r: seq<Record>)
    ensures |r| <= |entries|
    ensures forall i :: 0 <= i < |r| ==> entries[i] == Intact(r[i])
  {
    if entries == [] || entries[0].Torn? then [] else [entries[0].rec] + IntactPrefix(entries[1..])
  }

  /** A scan for the first torn entry finds the length of the intact prefix. */
  lemma {:induction false} PrefixLength(entries: seq<Entry>, i: nat)
    requires i <= |entries| && forall k :: 0 <= k < i ==> entries[k].Intact?
    ensures i <= |IntactPrefix(entries)|
    ensures i == |entries| || entries[i].Torn? ==> i == |IntactPrefix(entries)|
  {
    if i > 0 {
      PrefixLength(entries[1..], i - 1);
    }
  }

  function Restores(records: seq<Record>): (r: seq<FileOp>)
    ensures |r| == |records|
    ensures forall i :: 0 <= i < |r| ==> r[i] == WriteAt(records[i].id, records[i].data)
  {
    seq(|records|, i requires 0 <= i < |records| => WriteAt(records[i].id, records[i].data))
  }

  /** The operations of one replay: every intact record written back, the length restored, one sync. */
  function ReplayOps(j: JournalFile): seq<FileOp> {
    Restores(IntactPrefix(j.Entries())) + [Truncate(j.pages), SyncDb]
  }

  /** The states a list of operations passes through, the last one included. */
  ghost function Trail(fs: Fs, ops: seq<FileOp>): (t: seq<Fs>)
    ensures |t| == |ops|
  {
    seq(|ops|, k requires 0 <= k < |ops| => Run(fs, ops[..k + 1]))
  }

  lemma TrailAppend(fs: Fs, a: seq<FileOp>, b: seq<FileOp>)
    ensures Trail(fs, a + b) == Trail(fs, a) + Trail(Run(fs, a), b)
  {
    hide Run;
    forall k | 0 <= k < |a + b| ensures Trail(fs, a + b)[k] == (Trail(fs, a) + Trail(Run(fs, a), b))[k] {
      if k < |a| {
        assert (a + b)[..k + 1] == a[..k + 1];
      } else {
        assert (a + b)[..k + 1] == a + b[..k + 1 - |a|];
        RunAppend(fs, a, b[..k + 1 - |a|]);
      }
    }
  }

  lemma RunTwo(fs: Fs, a: FileOp, b: FileOp)
    ensures Run(fs, [a]) == Apply(fs, a) && Run(fs, [a, b]) == Apply(Apply(fs, a), b)
    ensures Trail(fs, [a, b]) == [Apply(fs, a), Apply(Apply(fs, a), b)]
  {
    assert [a, b][1..] == [b] && [a][1..] == [] && [b][1..] == [];
    assert [a, b][..1] == [a] && [a, b][..2] == [a, b];
    assert Run(Apply(fs, a), [b]) == Apply(Apply(fs, a), b);
  }

  /** Whether opening the database succeeds: a journal without a complete header is refused. */
  predicate Openable(fs: Fs) { fs.journal.Some? ==> fs.journal.value.header }

  /** Everything opening the database does to the files. */
  function RecoveryOps(fs: Fs): seq<FileOp> {
    if fs.journal.Some? && fs.journal.value.header
    then ReplayOps(fs.journal.value) + [RemoveJournal, SyncDir]
    else []
  }

  /** An attempt to open the database that stopped after `steps` operations, leaving `after`. */
  datatype Attempt = Attempt(steps: nat, after: Fs)

  /** Starting from c, the given attempts to open the database all stopped half way, the last one in f. */
  ghost predicate Attempts(c: Fs, attempts: seq<Attempt>, f: Fs)
    decreases |attempts|
  {
    if attempts == [] then f == c
    else
      var a := attempts[0];
      && a.steps <= |RecoveryOps(c)|
      && Stop(Run(c, RecoveryOps(c)[..a.steps]), a.after)
      && Attempts(a.after, attempts[1..], f)
  }

  // ---- what makes a state recoverable ----

  function Ids(records: seq<Record>): set<nat> {
    set i | 0 <= i < |records| :: records[i].id
  }

  /** The pages whose image is certain to be replayed if the machine stops now. */
  function Saved(journal: Option<JournalFile>): set<nat> {
    if journal.Some? && journal.value.header && journal.value.headerDurable
    then Ids(IntactPrefix(journal.value.durable)) else {}
  }

  /** Every whole record holds a page of `pages`. */
  ghost predicate Recorded(entries: seq<Entry>, pages: seq<PageData>) {
    forall e :: e in entries && e.Intact? ==> e.rec.id < |pages| && e.rec.data == pages[e.rec.id]
  }

  /** The journal leads back to `pages`: it holds pages of it, and its length. */
  ghost predicate Faithful(j: JournalFile, pages: seq<PageData>) {
    j.pages == |pages| && Recorded(j.durable + j.tail, pages)
  }

  ghost predicate Sane(fs: Fs) {
    && fs.floor <= |fs.synced| && fs.floor <= |fs.disk|
    && forall i :: 0 <= i < fs.floor && i !in fs.touched ==> fs.disk[i] == fs.synced[i]
  }

  /** Whenever the machine stops, the database opens with `pages` as its first pages. */
  ghost predicate Guarded(fs: Fs, pages: seq<PageData>) {
    && Sane(fs)
    && |pages| <= fs.floor
    && (forall i :: 0 <= i < |pages| && i !in Saved(fs.journal) ==> i !in fs.touched && fs.synced[i] == pages[i])
    && (fs.journal.Some? ==> Faithful(fs.journal.value, pages))
    && (fs.unlinked.Some? ==> Faithful(fs.unlinked.value, pages))
  }

  lemma {:induction false} IntactPrefixGrows(a: seq<Entry>, b: seq<Entry>)
    ensures IntactPrefix(a) <= IntactPrefix(a + b)
    ensures Ids(IntactPrefix(a)) <= Ids(IntactPrefix(a + b))
  {
    if a == [] || a[0].Torn? {
    } else {
      assert (a + b)[1..] == a[1..] + b;
      IntactPrefixGrows(a[1..], b);
      assert IntactPrefix(a) <= IntactPrefix(a + b);
    }
    var p, q := IntactPrefix(a), IntactPrefix(a + b);
    forall id | id in Ids(p) ensures id in Ids(q) {
      var i :| 0 <= i < |p| && p[i].id == id;
      assert q[i] == p[i];
    }
  }

  lemma StopKeepsGuard(fs: Fs, c: Fs, pages: seq<PageData>)
    requires Guarded(fs, pages) && Stop(fs, c)
    ensures Guarded(c, pages)
  {
    if c.journal.Some? {
      var j := if fs.journal.Some? then fs.journal.value else fs.unlinked.value;
      var k := c.journal.value;
      assert JournalSurvives(j, k);
      forall e | e in k.durable + k.tail && e.Intact? ensures e.rec.id < |pages| && e.rec.data == pages[e.rec.id] {
        var i :| 0 <= i < |k.durable| && k.durable[i] == e;
        if i < |j.durable| {
          assert k.durable[..|j.durable|][i] == e;
          assert e in j.durable;
        } else {
          assert e in j.tail;
        }
        assert e in j.durable + j.tail;
      }
      assert k.durable == j.durable + k.durable[|j.durable|..];
      IntactPrefixGrows(j.durable, k.durable[|j.durable|..]);
    }
  }

  /** An operation that leaves the guard standing. */
  ghost predicate Harmless(fs: Fs, op: FileOp, pages: seq<PageData>) {
    match op
    case WriteAt(id, data) => |pages| <= id || id in Saved(fs.journal) || data == pages[id]
    case Truncate(n) => |pages| <= n
    case SyncDb => true
    case CreateJournal(n) => fs.journal.None? && n == |pages|
    case AppendJournal(id, data) => id < |pages| && data == pages[id]
    case SyncJournal => true
    case RemoveJournal => |pages| <= |fs.synced| && forall i :: 0 <= i < |pages| ==> i !in fs.touched && fs.synced[i] == pages[i]
    case SyncDir => true
  }

  lemma HarmlessKeepsGuard(fs: Fs, op: FileOp, pages: seq<PageData>)
    requires Guarded(fs, pages) && Harmless(fs, op, pages)
    ensures Guarded(Apply(fs, op), pages)
  {
    match op
    case WriteAt(id, data) =>
    case Truncate(n) =>
    case SyncDb =>
    case CreateJournal(n) =>
    case AppendJournal(id, data) =>
    case SyncJournal =>
      if fs.journal.Some? {
        var j := fs.journal.value;
        assert (j.durable + j.tail) + [] == j.durable + j.tail;
        IntactPrefixGrows(j.durable, j.tail);
      }
    case RemoveJournal =>
    case SyncDir =>
  }

  ghost predicate Restorable(rec: Record, pages: seq<PageData>) {
    rec.id < |pages| && rec.data == pages[rec.id]
  }

  lemma RestoreOne(fs: Fs, rec: Record, pages: seq<PageData>)
    requires Guarded(fs, pages) && Restorable(rec, pages)
    ensures var r := Apply(fs, WriteAt(rec.id, rec.data));
      && Guarded(r, pages) && r.disk == fs.disk[rec.id := rec.data]
      && r.journal == fs.journal && r.unlinked == fs.unlinked
  {
    HarmlessKeepsGuard(fs, WriteAt(rec.id, rec.data), pages);
  }

  /** r is fs with the images of some pages written back. */
  ghost predicate Rewritten(fs: Fs, r: Fs, ids: set<nat>, pages: seq<PageData>) {
    && r.journal == fs.journal && r.unlinked == fs.unlinked
    && |fs.disk| == |r.disk|
    && forall i :: 0 <= i < |pages| && i < |r.disk| ==> r.disk[i] == if i in ids then pages[i] else fs.disk[i]
  }

  /** Writing intact records back leaves the guard standing after every single write. */
  lemma {:induction false} RestoresKeepGuard(fs: Fs, records: seq<Record>, k: nat, pages: seq<PageData>)
    requires Guarded(fs, pages)
    requires forall i :: 0 <= i < |records| ==> Restorable(records[i], pages)
    requires k <= |records|
    ensures Guarded(Run(fs, Restores(records)[..k]), pages)
    ensures Rewritten(fs, Run(fs, Restores(records)[..k]), Ids(records[..k]), pages)
    decreases k
  {
    if k == 0 {
    } else {
      var ops, rec := Restores(records), records[k - 1];
      var before := Run(fs, ops[..k - 1]);
      RestoresKeepGuard(fs, records, k - 1, pages);
      assert Restorable(rec, pages);
      RestoreOne(before, rec, pages);
      RunSnoc(fs, ops, k - 1);
      assert Ids(records[..k]) == Ids(records[..k - 1]) + {rec.id} by { IdsSnoc(records, k - 1); }
    }
  }

  lemma IdsSnoc(records: seq<Record>, k: nat)
    requires k < |records|
    ensures Ids(records[..k + 1]) == Ids(records[..k]) + {records[k].id}
  {
    var p, q := records[..k], records[..k + 1];
    forall id | id in Ids(p) + {records[k].id} ensures id in Ids(q) {
      if id in Ids(p) {
        var i :| 0 <= i < k && p[i].id == id;
        assert q[i] == p[i];
      } else {
        assert q[k].id == id;
      }
    }
  }

  lemma RunSnoc(fs: Fs, ops: seq<FileOp>, k: nat)
    requires k < |ops|
    ensures Run(fs, ops[..k + 1]) == Apply(Run(fs, ops[..k]), ops[k])
  {
    assert ops[..k + 1] == ops[..k] + [ops[k]];
    RunAppend(fs, ops[..k], [ops[k]]);
    var mid := Run(fs, ops[..k]);
    assert Run(mid, [ops[k]]) == Apply(mid, ops[k]) by { assert [ops[k]][1..] == []; }
  }

  /** The files as a stop leaves them, or as they are when nothing is under way. */
  ghost predicate Settled(fs: Fs) {
    && fs.synced == fs.disk && fs.touched == {} && fs.floor == |fs.disk| && fs.unlinked == None
    && (fs.journal.Some? ==> fs.journal.value.headerDurable == fs.journal.value.header && fs.journal.value.tail == [])
  }

  lemma RestorableRecords(j: JournalFile, pages: seq<PageData>)
    requires Faithful(j, pages)
    ensures var records := IntactPrefix(j.Entries());
      forall i :: 0 <= i < |records| ==> Restorable(records[i], pages)
  {
    var records := IntactPrefix(j.Entries());
    forall i | 0 <= i < |records| ensures Restorable(records[i], pages) {
      assert j.Entries()[i] in j.durable + j.tail;
    }
  }

  /** After the images are written back: restore the length and sync. */
  lemma ReplayTail(fs: Fs, pages: seq<PageData>)
    requires Guarded(fs, pages) && fs.disk[..|pages|] == pages
    ensures var r := Apply(fs, Truncate(|pages|));
      Guarded(r, pages) && Guarded(Apply(r, SyncDb), pages)
      && Apply(r, SyncDb) == Fs(pages, pages, {}, |pages|, fs.journal, fs.unlinked)
  {
    HarmlessKeepsGuard(fs, Truncate(|pages|), pages);
    var r := Apply(fs, Truncate(|pages|));
    assert r.disk == pages;
    HarmlessKeepsGuard(r, SyncDb, pages);
  }

  /** The state before a replay cuts the file has every guarded page in place. */
  lemma {:induction false} ReplayBody(fs: Fs, pages: seq<PageData>)
    requires Guarded(fs, pages) && fs.journal.Some?
    requires var ids := Ids(IntactPrefix(fs.journal.value.Entries()));
      forall i :: 0 <= i < |pages| && i !in ids ==> fs.disk[i] == pages[i]
    ensures var records := IntactPrefix(fs.journal.value.Entries());
      var r := Run(fs, Restores(records));
      && Guarded(r, pages) && r.disk[..|pages|] == pages && r.journal == fs.journal && r.unlinked == fs.unlinked
      && forall k :: 0 <= k <= |records| ==> Guarded(Run(fs, Restores(records)[..k]), pages)
  {
    var records := IntactPrefix(fs.journal.value.Entries());
    RestorableRecords(fs.journal.value, pages);
    forall k | 0 <= k <= |records| ensures Guarded(Run(fs, Restores(records)[..k]), pages) {
      RestoresKeepGuard(fs, records, k, pages);
    }
    RestoresKeepGuard(fs, records, |records|, pages);
    assert records[..|records|] == records && Restores(records)[..|records|] == Restores(records);
  }

  /**
  A replay keeps the guard standing after each of its operations and leaves exactly the guarded
  pages, durable, whenever it writes every page that is not certain to be intact already.
  */
  lemma {:induction false} ReplayKeepsGuard(fs: Fs, pages: seq<PageData>)
    requires Guarded(fs, pages) && fs.journal.Some?
    requires var ids := Ids(IntactPrefix(fs.journal.value.Entries()));
      forall i :: 0 <= i < |pages| && i !in ids ==> fs.disk[i] == pages[i]
    ensures var ops := ReplayOps(fs.journal.value);
      && (forall k :: 0 <= k <= |ops| ==> Guarded(Run(fs, ops[..k]), pages))
      && Run(fs, ops) == Fs(pages, pages, {}, |pages|, fs.journal, fs.unlinked)
  {
    var restores := Restores(IntactPrefix(fs.journal.value.Entries()));
    ReplayBody(fs, pages);
    ReplayTail(Run(fs, restores), pages);
    RunThenTwo(fs, restores, Truncate(|pages|), SyncDb, pages);
  }

  /** Two guarded operations after a guarded run. */
  lemma RunThenTwo(fs: Fs, ops: seq<FileOp>, a: FileOp, b: FileOp, pages: seq<PageData>)
    requires forall k :: 0 <= k <= |ops| ==> Guarded(Run(fs, ops[..k]), pages)
    requires Guarded(Apply(Run(fs, ops), a), pages) && Guarded(Apply(Apply(Run(fs, ops), a), b), pages)
    ensures Run(fs, ops + [a, b]) == Apply(Apply(Run(fs, ops), a), b)
    ensures forall k :: 0 <= k <= |ops| + 2 ==> Guarded(Run(fs, (ops + [a, b])[..k]), pages)
  {
    var all, n := ops + [a, b], |ops|;
    RunSnoc(fs, all, n);
    RunSnoc(fs, all, n + 1);
    assert all[..n] == ops && all[..n + 2] == all;
    forall k | 0 <= k <= n + 2 ensures Guarded(Run(fs, all[..k]), pages) {
      if k <= n {
        assert all[..k] == ops[..k];
      } else {
        assert k == n + 1 || k == n + 2;
      }
    }
  }

  lemma SavedIsReplayed(fs: Fs)
    requires fs.journal.Some?
    ensures Saved(fs.journal) <= Ids(IntactPrefix(fs.journal.value.Entries()))
  {
    IntactPrefixGrows(fs.journal.value.durable, fs.journal.value.tail);
  }

  /**
  Opening the database keeps the guard standing after each of its operations, and ends with exactly
  the guarded pages on disk, durable, and no journal.
  */
  lemma {:induction false} RecoveryKeepsGuard(fs: Fs, pages: seq<PageData>)
    requires Guarded(fs, pages) && Settled(fs)
    ensures forall k :: 0 <= k <= |RecoveryOps(fs)| ==> Guarded(Run(fs, RecoveryOps(fs)[..k]), pages)
    ensures fs.journal.Some? && Openable(fs) ==> Run(fs, RecoveryOps(fs)) == Fs(pages, pages, {}, |pages|, None, None)
  {
    if fs.journal.Some? && Openable(fs) {
      var replay := ReplayOps(fs.journal.value);
      SavedIsReplayed(fs);
      ReplayKeepsGuard(fs, pages);
      var r := Run(fs, replay);
      HarmlessKeepsGuard(r, RemoveJournal, pages);
      HarmlessKeepsGuard(Apply(r, RemoveJournal), SyncDir, pages);
      RunThenTwo(fs, replay, RemoveJournal, SyncDir, pages);
    } else {
      assert RecoveryOps(fs)[..0] == [];
    }
  }

  /**
  Crash atomicity, as far as the files are concerned: after a stop in a guarded state, and after any
  number of attempts to open the database that were themselves stopped between two operations, the
  next attempt finds the guarded pages. With a complete journal header the file is exactly them.
  */
  lemma {:induction false} GuardedRecovers(fs: Fs, c: Fs, attempts: seq<Attempt>, f: Fs, pages: seq<PageData>)
    requires Guarded(fs, pages) && Stop(fs, c) && Attempts(c, attempts, f)
    ensures Guarded(f, pages)
    ensures var r := Run(f, RecoveryOps(f));
      && |pages| <= |r.disk| && r.disk[..|pages|] == pages
      && r.synced == r.disk && r.touched == {} && r.floor == |r.disk|
      && (Openable(f) ==> r.journal == None)
      && (f.journal.Some? && Openable(f) ==> r.disk == pages)
      && (!Openable(f) ==> r == f)
    decreases |attempts|
  {
    StopKeepsGuard(fs, c, pages);
    RecoveryKeepsGuard(c, pages);
    assert RecoveryOps(c)[..|RecoveryOps(c)|] == RecoveryOps(c);
    if attempts == [] {
    } else {
      var a := attempts[0];
      GuardedRecovers(Run(c, RecoveryOps(c)[..a.steps]), a.after, attempts[1..], f, pages);
    }
  }

  /** Whatever the files held, a successful opening leaves them durable and without a journal. */
  lemma RecoverySettles(fs: Fs)
    requires Settled(fs) && Openable(fs)
    ensures var r := Run(fs, RecoveryOps(fs)); Settled(r) && r.journal == None
  {
    if fs.journal.Some? {
      var restores := Restores(IntactPrefix(fs.journal.value.Entries()));
      var n := fs.journal.value.pages;
      hide Restores, IntactPrefix, Run;
      assert RecoveryOps(fs) == restores + ([Truncate(n), SyncDb] + [RemoveJournal, SyncDir]);
      RunAppend(fs, restores, [Truncate(n), SyncDb] + [RemoveJournal, SyncDir]);
      var r0 := Run(fs, restores);
      RunAppend(r0, [Truncate(n), SyncDb], [RemoveJournal, SyncDir]);
      RunTwo(r0, Truncate(n), SyncDb);
      RunTwo(Apply(Apply(r0, Truncate(n)), SyncDb), RemoveJournal, SyncDir);
    }
  }

  // ---- the commit point ----

  /**
  The journal has been removed but its directory not yet synced: the new pages are durable, and the
  journal, should it come back, still restores the old ones.
  */
  ghost predicate InDoubt(fs: Fs, before: seq<PageData>, after: seq<PageData>) {
    && fs.synced == fs.disk == after && fs.touched == {} && fs.floor == |after|
    && |before| <= |after|
    && fs.journal.None? && fs.unlinked.Some?
    && fs.unlinked.value.header && fs.unlinked.value.headerDurable
    && Faithful(fs.unlinked.value, before)
    && forall i :: 0 <= i < |before| && i !in Saved(fs.unlinked) ==> after[i] == before[i]
  }

  /** In doubt, the database opens with all of the new pages or with all of the old ones. */
  lemma InDoubtResolves(fs: Fs, before: seq<PageData>, after: seq<PageData>, c: Fs)
    requires InDoubt(fs, before, after) && Stop(fs, c)
    ensures c.journal.Some? ==> Guarded(c, before)
    ensures c.journal.None? ==> Guarded(c, after)
  {
    if c.journal.Some? {
      var held := fs.(journal := fs.unlinked, unlinked := None);
      assert Guarded(held, before);
      StopKeepsGuard(held, c, before);
    }
  }

  /** Stopped in state fs, a commit is seen to have happened entirely or not at all. */
  ghost predicate Atomic(fs: Fs, before: seq<PageData>, after: seq<PageData>) {
    Guarded(fs, before) || Guarded(fs, after) || InDoubt(fs, before, after)
  }

  /** The state of a commit in which the machine stopped: as long as there is a journal, all goes back to the beginning. */
  ghost predicate Committing(fs: Fs, before: seq<PageData>, after: seq<PageData>) {
    Atomic(fs, before, after) && (fs.journal.Some? ==> Guarded(fs, before))
  }

  /** The database opens with these as its first pages, durably, and without a journal if its header is complete. */
  ghost predicate OpensWith(f: Fs, pages: seq<PageData>) {
    var r := Run(f, RecoveryOps(f));
    && |pages| <= |r.disk| && r.disk[..|pages|] == pages && r.synced == r.disk
    && (Openable(f) ==> r.journal == None)
    && (f.journal.Some? && Openable(f) ==> r.disk == pages)
  }

  /**
  Crash atomicity of a commit, over every stop and every run of interrupted attempts to open: if the stop leaves a journal
  the database opens as it was before. If it leaves none, the database opens as it was before or as it is after, and as it
  is after when the stop came once the journal was gone.
  */
  lemma AtomicRecovers(fs: Fs, c: Fs, attempts: seq<Attempt>, f: Fs, before: seq<PageData>, after: seq<PageData>)
    requires Committing(fs, before, after) && Stop(fs, c) && Attempts(c, attempts, f)
    ensures OpensWith(f, before) || OpensWith(f, after)
    ensures fs.journal.Some? ==> OpensWith(f, before)
    ensures InDoubt(fs, before, after) ==> OpensWith(f, if c.journal.Some? then before else after)
    ensures Guarded(fs, after) ==> OpensWith(f, after)
  {
    if Guarded(fs, before) { GuardedRecovers(fs, c, attempts, f, before); }
    if Guarded(fs, after) { GuardedRecovers(fs, c, attempts, f, after); }
    if InDoubt(fs, before, after) {
      InDoubtResolves(fs, before, after, c);
      StopTwice(c);
      GuardedRecovers(c, c, attempts, f, if c.journal.Some? then before else after);
    }
  }

  /** A settled state can be found unchanged after a further stop. */
  lemma StopTwice(c: Fs)
    requires Settled(c)
    ensures Stop(c, c)
  {
  }

  // ---- what a stop may do ----

  /** The files as they are found: everything there is durable, and a journal without a complete header has none. */
  function Found(disk: seq<PageData>, journal: Option<JournalFile>): Fs {
    Fs(disk, disk, {}, |disk|, journal, None)
  }

  /** A journal of which `kept` records are left, those at the positions in `torn` damaged. */
  function Left(j: JournalFile, header: bool, kept: nat, torn: set<nat>): JournalFile
    requires kept <= |j.tail|
  {
    JournalFile(header, header, j.pages, j.durable + seq(kept, i requires 0 <= i < kept => if i in torn then Torn else j.tail[i]), [])
  }

  /**
  A stop is free to do harm: a page written since the last sync with other bytes than before holds any bytes whatsoever, the file may
  have grown by anything or have any length that it had, and a journal that was removed may be back. Of what is synced it harms nothing.
  */
  lemma StopIsFree(fs: Fs, id: nat, data: PageData, found: PageData, n: nat)
    requires Settled(fs) && id < |fs.disk| && n >= |fs.disk|
    ensures fs.disk[id] != data ==> Stop(Apply(fs, WriteAt(id, data)), Found(fs.disk[id := found], fs.journal))
    ensures Stop(Apply(fs, WriteAt(id, data)), fs)
    ensures Stop(fs, Found(Resize(fs.disk, n), fs.journal))
    ensures Stop(Apply(fs, Truncate(id)), fs) && Stop(Apply(fs, Truncate(id)), Found(fs.disk[..id], fs.journal))
    ensures fs.journal.Some? ==> Stop(Apply(fs, RemoveJournal), fs) && Stop(Apply(fs, RemoveJournal), fs.(journal := None))
    ensures forall c :: Stop(fs, c) ==> fs.disk <= c.disk && c.journal == fs.journal
  {
    forall c | Stop(fs, c) ensures fs.disk <= c.disk && c.journal == fs.journal {
      if fs.journal.Some? {
        var j, k := fs.journal.value, c.journal.value;
        assert k.durable == k.durable[..|j.durable|];
      }
    }
  }

  /**
  Of the records appended since the last sync a stop may leave any number, and any of those torn; a header that was never synced may be incomplete,
  so that the database cannot be opened.
  */
  lemma JournalIsTorn(fs: Fs, kept: nat, torn: set<nat>, header: bool)
    requires fs.synced == fs.disk && fs.touched == {} && fs.floor == |fs.disk| && fs.journal.Some?
    requires kept <= |fs.journal.value.tail| && fs.journal.value.header && (fs.journal.value.headerDurable ==> header)
    ensures var c := Found(fs.disk, Some(Left(fs.journal.value, header, kept, torn))); Stop(fs, c) && (Openable(c) <==> header)
  {
    var j := fs.journal.value;
    assert Left(j, header, kept, torn).durable[..|j.durable|] == j.durable;
  }
}
