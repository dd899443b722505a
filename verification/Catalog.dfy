/** The schema as it is kept on the schema page: tables and indexes by name, and their bytes. */
module Catalog {
  import opened Bytes
  import opened Codecs

  type Text = seq<Byte>

  datatype Column = Column(name: Text, typ: Text, primaryKey: bool, notNull: bool)
  datatype Table = Table(name: Text, columns: seq<Column>, root: nat)
  datatype Index = Index(name: Text, table: Text, columns: seq<Text>, unique: bool, root: nat)

  // ---- items ----

  function ColumnFlag(c: Column): Byte { (if c.primaryKey then 1 else 0) + (if c.notNull then 2 else 0) }

  function FromColumn(c: Column): (Text, (Text, Byte)) { (c.name, (c.typ, ColumnFlag(c))) }

  function ToColumn(p: (Text, (Text, Byte))): Column { Column(p.0, p.1.0, p.1.1 % 2 == 1, p.1.1 / 2 % 2 == 1) }

  predicate ColumnOk(c: Column) { ShortString(c.name) && ShortString(c.typ) }

  function PutColumn(): Column -> seq<Byte> { PutAs(PutPair(PutString, PutPair(PutString, PutByte)), FromColumn) }

  function ReadColumn(): Reader<Column> { ReadAs(ReadPair(ReadString, ReadPair(ReadString, ReadByte)), ToColumn) }

  lemma ColumnView(c: Column)
    requires ColumnOk(c)
    ensures Both(ShortString, Both(ShortString, AnyByte))(FromColumn(c)) && ToColumn(FromColumn(c)) == c
  {
    var p := FromColumn(c);
    assert AnyByte(p.1.1);
    assert Both(ShortString, AnyByte)(p.1);
  }

  lemma ColumnCodec()
    ensures Codec(PutColumn(), ReadColumn(), ColumnOk)
  {
    var e, r, o := PutPair(PutString, PutByte), ReadPair(ReadString, ReadByte), Both(ShortString, AnyByte);
    assert Codec(e, r, o) by {
      ByteCodec();
      BehindString(PutByte, ReadByte, AnyByte);
    }
    assert Codec(PutPair(PutString, e), ReadPair(ReadString, r), Both(ShortString, o)) by { BehindString(e, r, o); }
    forall c | ColumnOk(c) ensures Both(ShortString, o)(FromColumn(c)) && ToColumn(FromColumn(c)) == c { ColumnView(c); }
    AsCodec(PutPair(PutString, e), ReadPair(ReadString, r), Both(ShortString, o), FromColumn, ToColumn, ColumnOk);
  }

  function FromTable(t: Table): (Text, (nat, seq<Column>)) { (t.name, (t.root, t.columns)) }

  /** Page numbers are cut to 32 bits. */
  function ToTable(p: (Text, (nat, seq<Column>))): Table { Table(p.0, p.1.1, p.1.0 % 0x1_0000_0000) }

  ghost predicate TableOk(t: Table) {
    ShortString(t.name) && t.root < 0x1_0000_0000 && EachOk(ColumnOk)(t.columns)
  }

  function PutTable(): Table -> seq<Byte> { PutAs(PutPair(PutString, PutPair(PutUvarint, PutList(PutColumn()))), FromTable) }

  function ReadTable(): Reader<Table> { ReadAs(ReadPair(ReadString, ReadPair(ReadUvarint, ReadList(ReadColumn()))), ToTable) }

  lemma ColumnsCodec()
    ensures Codec(PutList(PutColumn()), ReadList(ReadColumn()), EachOk(ColumnOk))
  {
    ColumnCodec();
    ListCodec(PutColumn(), ReadColumn(), ColumnOk);
  }

  lemma RootAndColumnsCodec()
    ensures Codec(PutPair(PutUvarint, PutList(PutColumn())), ReadPair(ReadUvarint, ReadList(ReadColumn())), Both(Fits64, EachOk(ColumnOk)))
  {
    UvarintCodec();
    ColumnsCodec();
    PairCodec(PutUvarint, ReadUvarint, Fits64, PutList(PutColumn()), ReadList(ReadColumn()), EachOk(ColumnOk));
  }

  lemma TableView(t: Table)
    requires TableOk(t)
    ensures Both(ShortString, Both(Fits64, EachOk(ColumnOk)))(FromTable(t)) && ToTable(FromTable(t)) == t
  {
    assert Both(Fits64, EachOk(ColumnOk))(FromTable(t).1);
  }

  lemma TableCodec()
    ensures Codec(PutTable(), ReadTable(), TableOk)
  {
    var e, r, o := PutPair(PutUvarint, PutList(PutColumn())), ReadPair(ReadUvarint, ReadList(ReadColumn())), Both(Fits64, EachOk(ColumnOk));
    assert Codec(e, r, o) by { RootAndColumnsCodec(); }
    assert Codec(PutPair(PutString, e), ReadPair(ReadString, r), Both(ShortString, o)) by { BehindString(e, r, o); }
    forall t | TableOk(t) ensures Both(ShortString, o)(FromTable(t)) && ToTable(FromTable(t)) == t { TableView(t); }
    AsCodec(PutPair(PutString, e), ReadPair(ReadString, r), Both(ShortString, o), FromTable, ToTable, TableOk);
  }

  function IndexFlag(ix: Index): Byte { if ix.unique then 1 else 0 }

  function FromIndex(ix: Index): (Text, (Text, (nat, (Byte, seq<Text>)))) {
    (ix.name, (ix.table, (ix.root, (IndexFlag(ix), ix.columns))))
  }

  function ToIndex(p: (Text, (Text, (nat, (Byte, seq<Text>))))): Index {
    Index(p.0, p.1.0, p.1.1.1.1, p.1.1.1.0 % 2 == 1, p.1.1.0 % 0x1_0000_0000)
  }

  ghost predicate IndexOk(ix: Index) {
    ShortString(ix.name) && ShortString(ix.table) && ix.root < 0x1_0000_0000 && EachOk(ShortString)(ix.columns)
  }

  function PutIndex(): Index -> seq<Byte> {
    PutAs(PutPair(PutString, PutPair(PutString, PutPair(PutUvarint, PutPair(PutByte, PutList(PutString))))), FromIndex)
  }

  function ReadIndex(): Reader<Index> {
    ReadAs(ReadPair(ReadString, ReadPair(ReadString, ReadPair(ReadUvarint, ReadPair(ReadByte, ReadList(ReadString))))), ToIndex)
  }

  lemma NamesCodec()
    ensures Codec(PutList(PutString), ReadList(ReadString), EachOk(ShortString))
  {
    StringCodec();
    ListCodec(PutString, ReadString, ShortString);
  }

  lemma FlagAndNamesCodec()
    ensures Codec(PutPair(PutByte, PutList(PutString)), ReadPair(ReadByte, ReadList(ReadString)), Both(AnyByte, EachOk(ShortString)))
  {
    ByteCodec();
    NamesCodec();
    PairCodec(PutByte, ReadByte, AnyByte, PutList(PutString), ReadList(ReadString), EachOk(ShortString));
  }

  lemma IndexView(ix: Index)
    requires IndexOk(ix)
    ensures Both(ShortString, Both(ShortString, Both(Fits64, Both(AnyByte, EachOk(ShortString)))))(FromIndex(ix)) && ToIndex(FromIndex(ix)) == ix
  {
  }

  lemma IndexCodec()
    ensures Codec(PutIndex(), ReadIndex(), IndexOk)
  {
    var e2, r2, o2 := PutPair(PutByte, PutList(PutString)), ReadPair(ReadByte, ReadList(ReadString)), Both(AnyByte, EachOk(ShortString));
    var e3, r3, o3 := PutPair(PutUvarint, e2), ReadPair(ReadUvarint, r2), Both(Fits64, o2);
    var e4, r4, o4 := PutPair(PutString, e3), ReadPair(ReadString, r3), Both(ShortString, o3);
    assert Codec(e3, r3, o3) by {
      FlagAndNamesCodec();
      BehindUvarint(e2, r2, o2);
    }
    assert Codec(e4, r4, o4) by { BehindString(e3, r3, o3); }
    assert Codec(PutPair(PutString, e4), ReadPair(ReadString, r4), Both(ShortString, o4)) by { BehindString(e4, r4, o4); }
    forall ix | IndexOk(ix) ensures Both(ShortString, o4)(FromIndex(ix)) && ToIndex(FromIndex(ix)) == ix { IndexView(ix); }
    AsCodec(PutPair(PutString, e4), ReadPair(ReadString, r4), Both(ShortString, o4), FromIndex, ToIndex, IndexOk);
  }

  // ---- the whole catalog ----

  function PutCatalog(): ((seq<Table>, seq<Index>)) -> seq<Byte> { PutPair(PutList(PutTable()), PutList(PutIndex())) }

  function ReadCatalog(): Reader<(seq<Table>, seq<Index>)> { ReadPair(ReadList(ReadTable()), ReadList(ReadIndex())) }

  lemma CatalogCodec()
    ensures Codec(PutCatalog(), ReadCatalog(), Both(EachOk(TableOk), EachOk(IndexOk)))
  {
    TableCodec();
    IndexCodec();
    ListCodec(PutTable(), ReadTable(), TableOk);
    ListCodec(PutIndex(), ReadIndex(), IndexOk);
    PairCodec(PutList(PutTable()), ReadList(ReadTable()), EachOk(TableOk), PutList(PutIndex()), ReadList(ReadIndex()), EachOk(IndexOk));
  }

  // ---- maps by name ----

  /** Things filed under their names; a later one takes the place of an earlier one. */
  function MapOf<T>(name: T -> Text, xs: seq<T>): map<Text, T> {
    if xs == [] then map[]
    else
      var n := |xs| - 1;
      MapOf(name, xs[..n])[name(xs[n]) := xs[n]]
  }

  ghost predicate NamesDiffer<T>(name: T -> Text, xs: seq<T>) {
    forall i, j :: 0 <= i < j < |xs| ==> name(xs[i]) != name(xs[j])
  }

  ghost predicate Listed<T>(name: T -> Text, xs: seq<T>, k: Text) {
    exists i :: 0 <= i < |xs| && name(xs[i]) == k
  }

  /** The things of a map in the order some iteration comes to them, each once, but for those still left. */
  ghost predicate OrderBut<T>(name: T -> Text, order: seq<T>, m: map<Text, T>, left: set<Text>) {
    && (forall i :: 0 <= i < |order| ==> name(order[i]) in m && m[name(order[i])] == order[i] && name(order[i]) !in left)
    && NamesDiffer(name, order)
    && (forall k :: k in m && k !in left ==> Listed(name, order, k))
  }

  ghost predicate Order<T>(name: T -> Text, order: seq<T>, m: map<Text, T>) {
    OrderBut(name, order, m, {})
  }

  lemma {:induction false} MapHas<T>(name: T -> Text, xs: seq<T>)
    requires NamesDiffer(name, xs)
    ensures forall k :: k in MapOf(name, xs) <==> Listed(name, xs, k)
    ensures forall i :: 0 <= i < |xs| ==> name(xs[i]) in MapOf(name, xs) && MapOf(name, xs)[name(xs[i])] == xs[i]
  {
    if xs != [] {
      var n := |xs| - 1;
      assert forall i :: 0 <= i < n ==> xs[..n][i] == xs[i];
      MapHas(name, xs[..n]);
      forall k ensures k in MapOf(name, xs) <==> Listed(name, xs, k) {
        ListedSnoc(name, xs, k);
      }
    }
  }

  lemma ListedSnoc<T>(name: T -> Text, xs: seq<T>, k: Text)
    requires xs != []
    ensures Listed(name, xs, k) <==> Listed(name, xs[..|xs| - 1], k) || name(xs[|xs| - 1]) == k
  {
    var n := |xs| - 1;
    if Listed(name, xs, k) {
      var i :| 0 <= i < |xs| && name(xs[i]) == k;
      if i < n { assert xs[..n][i] == xs[i]; }
    }
    if Listed(name, xs[..n], k) {
      var i :| 0 <= i < n && name(xs[..n][i]) == k;
      assert xs[i] == xs[..n][i];
    }
  }

  /** Whatever the order, the map comes back. */
  lemma OrderGivesMap<T>(name: T -> Text, order: seq<T>, m: map<Text, T>)
    requires Order(name, order, m)
    ensures MapOf(name, order) == m
  {
    MapHas(name, order);
  }

  function Names<T>(name: T -> Text, xs: seq<T>): set<Text> {
    set i | 0 <= i < |xs| :: name(xs[i])
  }

  lemma {:induction false} NamesSize<T>(name: T -> Text, xs: seq<T>)
    requires NamesDiffer(name, xs)
    ensures |Names(name, xs)| == |xs|
  {
    if xs != [] {
      var n := |xs| - 1;
      assert forall i :: 0 <= i < n ==> xs[..n][i] == xs[i];
      NamesSize(name, xs[..n]);
      assert Names(name, xs) == Names(name, xs[..n]) + {name(xs[n])};
    }
  }

  lemma OrderSize<T>(name: T -> Text, order: seq<T>, m: map<Text, T>)
    requires Order(name, order, m)
    ensures |order| == |m|
  {
    NamesSize(name, order);
    forall k | k in m ensures k in Names(name, order) {
      assert Listed(name, order, k);
    }
    assert Names(name, order) == m.Keys;
  }

  // ---- the schema page ----

  datatype Schema = Schema(tables: map<Text, Table>, indexes: map<Text, Index>)

  function TableName(t: Table): Text { t.name }
  function IndexName(ix: Index): Text { ix.name }

  /** Everything is kept under its own name, and has an encoding. */
  ghost predicate SchemaOk(s: Schema) {
    && |s.tables| < TWO_64 && |s.indexes| < TWO_64
    && (forall k :: k in s.tables ==> s.tables[k].name == k && TableOk(s.tables[k]))
    && (forall k :: k in s.indexes ==> s.indexes[k].name == k && IndexOk(s.indexes[k]))
  }

  /** The bytes of a schema, for one order of its maps. */
  ghost predicate Marshalled(s: Schema, buf: seq<Byte>) {
    exists tables, indexes :: Order(TableName, tables, s.tables) && Order(IndexName, indexes, s.indexes) && buf == PutCatalog()((tables, indexes))
  }

  function Unmarshalled(buf: seq<Byte>): Option<Schema> {
    match ReadCatalog()(buf)
    case None => None
    case Some(((tables, indexes), _)) => Some(Schema(MapOf(TableName, tables), MapOf(IndexName, indexes)))
  }

  lemma OrderOk(s: Schema, tables: seq<Table>, indexes: seq<Index>)
    requires SchemaOk(s) && Order(TableName, tables, s.tables) && Order(IndexName, indexes, s.indexes)
    ensures Both(EachOk(TableOk), EachOk(IndexOk))((tables, indexes))
  {
    OrderSize(TableName, tables, s.tables);
    OrderSize(IndexName, indexes, s.indexes);
    assert EachOk(TableOk)(tables) && EachOk(IndexOk)(indexes);
  }

  /** The lists that a reader finds in the bytes of a schema make the schema, and there are none in less. */
  lemma CatalogReads(tables: seq<Table>, indexes: seq<Index>, rest: seq<Byte>)
    requires Both(EachOk(TableOk), EachOk(IndexOk))((tables, indexes))
    ensures ReadCatalog()(PutCatalog()((tables, indexes)) + rest) == Some(((tables, indexes), rest))
    ensures forall k :: 0 <= k < |PutCatalog()((tables, indexes))| ==> ReadCatalog()(PutCatalog()((tables, indexes))[..k]) == None
  {
    hide PutCatalog, ReadCatalog, EachOk;
    CatalogCodec();
  }

  lemma ReadsAs(buf: seq<Byte>, tables: seq<Table>, indexes: seq<Index>, rest: seq<Byte>, s: Schema)
    requires ReadCatalog()(buf) == Some(((tables, indexes), rest))
    requires MapOf(TableName, tables) == s.tables && MapOf(IndexName, indexes) == s.indexes
    ensures Unmarshalled(buf) == Some(s)
  {
    hide ReadCatalog, MapOf;
  }

  /** A schema comes back from its bytes, in whatever order they were written and whatever zeros follow. */
  lemma SchemaRoundTrip(s: Schema, buf: seq<Byte>, rest: seq<Byte>)
    requires SchemaOk(s) && Marshalled(s, buf)
    ensures Unmarshalled(buf + rest) == Some(s)
  {
    hide PutCatalog, ReadCatalog, EachOk, SchemaOk, Order, MapOf, Unmarshalled, Both;
    var tables, indexes :| Order(TableName, tables, s.tables) && Order(IndexName, indexes, s.indexes) && buf == PutCatalog()((tables, indexes));
    OrderOk(s, tables, indexes);
    CatalogReads(tables, indexes, rest);
    OrderGivesMap(TableName, tables, s.tables);
    OrderGivesMap(IndexName, indexes, s.indexes);
    ReadsAs(buf + rest, tables, indexes, rest, s);
  }

  /** Bytes that are cut off early are rejected. */
  lemma TruncatedSchema(s: Schema, buf: seq<Byte>, k: nat)
    requires SchemaOk(s) && Marshalled(s, buf) && k < |buf|
    ensures Unmarshalled(buf[..k]) == None
  {
    hide PutCatalog, ReadCatalog, EachOk, SchemaOk, Order, Both;
    var tables, indexes :| Order(TableName, tables, s.tables) && Order(IndexName, indexes, s.indexes) && buf == PutCatalog()((tables, indexes));
    OrderOk(s, tables, indexes);
    CatalogReads(tables, indexes, []);
  }

  /** The schema page as it is written: the bytes, and zeros to the end of the page. */
  function SchemaPage(buf: seq<Byte>): Option<seq<Byte>> {
    if |buf| > PAGE_SIZE then None else Some(buf + Zeros(PAGE_SIZE - |buf|))
  }

  /** What was written to the schema page is what is read from it. */
  lemma SchemaPageRoundTrip(s: Schema, buf: seq<Byte>)
    requires SchemaOk(s) && Marshalled(s, buf)
    ensures SchemaPage(buf).Some? <==> |buf| <= 4096
    ensures SchemaPage(buf).Some? ==> |SchemaPage(buf).value| == 4096 && Unmarshalled(SchemaPage(buf).value) == Some(s)
  {
    hide SchemaOk, Marshalled, Unmarshalled;
    if |buf| <= PAGE_SIZE { SchemaRoundTrip(s, buf, Zeros(PAGE_SIZE - |buf|)); }
  }

  lemma EmptyIsMarshalled()
    ensures Marshalled(Schema(map[], map[]), [0, 0])
  {
    var s: Schema, tables: seq<Table>, indexes: seq<Index> := Schema(map[], map[]), [], [];
    assert Order(TableName, tables, s.tables) && Order(IndexName, indexes, s.indexes);
    assert PutList(PutTable())(tables) == [0] && PutList(PutIndex())(indexes) == [0];
    assert PutCatalog()((tables, indexes)) == [0, 0];
  }

  /** A fresh page, all zeros, is an empty schema. */
  lemma FreshPageIsEmpty()
    ensures Unmarshalled(Zeros(PAGE_SIZE)) == Some(Schema(map[], map[]))
  {
    EmptyIsMarshalled();
    assert Zeros(PAGE_SIZE) == [0, 0] + Zeros(PAGE_SIZE - 2);
    SchemaRoundTrip(Schema(map[], map[]), [0, 0], Zeros(PAGE_SIZE - 2));
  }

  // ---- the loops ----

  lemma {:induction false} PutAllSnoc<T>(enc: T -> seq<Byte>, xs: seq<T>, x: T)
    ensures PutAll(enc, xs + [x]) == PutAll(enc, xs) + enc(x)
  {
    if xs == [] {
      assert [x][1..] == [];
    } else {
      assert (xs + [x])[1..] == xs[1..] + [x];
      PutAllSnoc(enc, xs[1..], x);
    }
  }

  lemma OneListed<T>(name: T -> Text, order: seq<T>, m: map<Text, T>, left: set<Text>, k: Text)
    requires OrderBut(name, order, m, left) && k in left && k in m && name(m[k]) == k
    ensures OrderBut(name, order + [m[k]], m, left - {k})
  {
    var longer := order + [m[k]];
    forall j | j in m && j !in left - {k} ensures Listed(name, longer, j) {
      ListedSnoc(name, longer, j);
      assert longer[..|longer| - 1] == order;
    }
  }

  /** Appends everything in a map, in whatever order the map gives it out. */
  method MarshalMap<T>(name: T -> Text, enc: T -> seq<Byte>, m: map<Text, T>) returns (buf: seq<Byte>, ghost order: seq<T>)
    requires forall k :: k in m ==> name(m[k]) == k
    ensures Order(name, order, m) && buf == PutUvarint(|order|) + PutAll(enc, order)
  {
    buf, order := PutUvarint(|m|), [];
    var left := m.Keys;
    while left != {}
      invariant left <= m.Keys && buf == PutUvarint(|m|) + PutAll(enc, order)
      invariant OrderBut(name, order, m, left)
      decreases |left|
    {
      var k :| k in left;
      PutAllSnoc(enc, order, m[k]);
      OneListed(name, order, m, left, k);
      buf, left, order := buf + enc(m[k]), left - {k}, order + [m[k]];
    }
    OrderSize(name, order, m);
  }

  method Marshal(s: Schema) returns (buf: seq<Byte>)
    requires SchemaOk(s)
    ensures Marshalled(s, buf)
  {
    var tables, order := MarshalMap(TableName, PutTable(), s.tables);
    var indexes, order' := MarshalMap(IndexName, PutIndex(), s.indexes);
    buf := tables + indexes;
    assert buf == PutCatalog()((order, order'));
  }

  /** Items of which the first have been read. */
  function Behind<T>(xs: seq<T>, r: Option<(seq<T>, seq<Byte>)>): Option<(seq<T>, seq<Byte>)> {
    match r
    case None => None
    case Some((more, rest)) => Some((xs + more, rest))
  }

  lemma ReadNothing<T>(r: Option<(seq<T>, seq<Byte>)>)
    ensures Behind([], r) == r
  {
    if r.Some? { assert [] + r.value.0 == r.value.0; }
  }

  lemma OneItem<T>(read: Reader<T>, xs: seq<T>, b: seq<Byte>, left: nat)
    requires left > 0
    ensures match read(b)
      case None => Behind(xs, ReadAll(read, b, left)) == None
      case Some((x, rest)) => Behind(xs, ReadAll(read, b, left)) == Behind(xs + [x], ReadAll(read, rest, left - 1))
  {
    if read(b).Some? {
      var (x, rest) := read(b).value;
      var r := ReadAll(read, rest, left - 1);
      if r.Some? { assert xs + ([x] + r.value.0) == xs + [x] + r.value.0; }
    }
  }

  lemma MapSnoc<T>(name: T -> Text, xs: seq<T>, x: T)
    ensures MapOf(name, xs + [x]) == MapOf(name, xs)[name(x) := x]
  {
    assert (xs + [x])[..|xs|] == xs;
  }

  /** Reads items one after the other and files each under its name. */
  method UnmarshalMap<T>(name: T -> Text, read: Reader<T>, input: seq<Byte>, count: nat) returns (r: Option<(map<Text, T>, seq<Byte>)>)
    ensures r == match ReadAll(read, input, count)
      case None => None
      case Some((xs, rest)) => Some((MapOf(name, xs), rest))
  {
    var buf, m, left := input, map[], count;
    ghost var xs, result := [], ReadAll(read, input, count);
    ReadNothing(result);
    while left > 0
      invariant m == MapOf(name, xs) && result == Behind(xs, ReadAll(read, buf, left))
    {
      OneItem(read, xs, buf, left);
      var item := read(buf);
      if item.None? { return None; }
      var (x, rest) := item.value;
      MapSnoc(name, xs, x);
      buf, m, left, xs := rest, m[name(x) := x], left - 1, xs + [x];
    }
    assert xs + [] == xs;
    return Some((m, buf));
  }

  method Unmarshal(input: seq<Byte>) returns (r: Option<Schema>)
    ensures r == Unmarshalled(input)
  {
    var header := Uvarint(input);
    if header.None? { return None; }
    var tables := UnmarshalMap(TableName, ReadTable(), input[header.value.1..], header.value.0);
    if tables.None? { return None; }
    var buf := tables.value.1;
    header := Uvarint(buf);
    if header.None? { return None; }
    var indexes := UnmarshalMap(IndexName, ReadIndex(), buf[header.value.1..], header.value.0);
    if indexes.None? { return None; }
    r := Some(Schema(tables.value.0, indexes.value.0));
  }
}
