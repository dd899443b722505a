/** Pages of an index tree: the bytes of their keys are ordered and as large as the index tree takes them to be. */
module IndexPages {
  import opened Bytes
  import opened Cells
  import opened Values
  import opened Tuples
  import opened Indexes
  import opened IndexTrees
  import opened Slots
  import opened Nodes
  import Record

  /** The comparator of the source on bytes that it does not reject. */
  function CompareKeyBytes(a: Key, b: Key): int {
    match CompareIndexKeys(a, b)
    case Some(c) => c
    case None => 0
  }

  /** A key that an index on n columns can have, with values of the sizes that the encoding has room for. */
  ghost predicate Encodable(dom: Value -> bool, n: nat, t: Tuple) {
    Shaped(dom, n, t) && Record.StorableRow(t)
  }

  lemma KeySizes(k: seq<Byte>, child: nat)
    ensures LeafBytes(IndexKind)(Cell(k, [])) == UvarintLen(|k|) + |k| + 1 + 2
    ensures InnerBytes(IndexKind)(Cell(k, child)) == UvarintLen(|k|) + |k| + 4 + 2
  {
    assert PutUvarint(0) == [0];
  }

  /** Index pages, read as bytes, are ordered by tuple and as large as the index tree takes them to be. */
  lemma IndexKeys(dom: Value -> bool, n: nat, a: Tuple, b: Tuple, child: nat)
    requires Domain(dom) && Encodable(dom, n, a) && Encodable(dom, n, b)
    ensures CompareIndexKeys(Record.Encoded(a), Record.Encoded(b)) == Some(IdealTuples(a, b))
    ensures LeafBytes(IndexKind)(Cell(Record.Encoded(a), [])) == SourceLayout().leafSize(Cell(a, Unit))
    ensures InnerBytes(IndexKind)(Cell(Record.Encoded(a), child)) == SourceLayout().sepSize(a)
  {
    hide CompareIndexKeys, LeafBytes, InnerBytes, CompareTuples, IdealTuples, Record.Encoded;
    KeySizes(Record.Encoded(a), child);
    KeyBytesOrder(a, b);
    assert a == Tuples.Key(a[..n], a[n].n) && b == Tuples.Key(b[..n], b[n].n);
    KeysAgree(dom, a[..n], a[n].n, b[..n], b[n].n);
  }

  /** The keys of a page are the encodings of these tuples. */
  ghost predicate Encode<V>(cells: seq<Cell<Key, V>>, tuples: seq<Tuple>) {
    |cells| == |tuples| && forall i :: 0 <= i < |cells| ==> cells[i].key == Record.Encoded(tuples[i])
  }

  /** Whatever key is looked up on a page of an index, the binary search finds its place. */
  lemma IndexPageDivides<V>(dom: Value -> bool, n: nat, cells: seq<Cell<Key, V>>, tuples: seq<Tuple>, t: Tuple)
    requires Domain(dom) && Encode(cells, tuples) && Ascending(tuples) && Encodable(dom, n, t)
    requires forall i :: 0 <= i < |tuples| ==> Encodable(dom, n, tuples[i])
    ensures Sorted(CompareKeyBytes, cells) && Divides(CompareKeyBytes, Keys(cells), Record.Encoded(t))
  {
    var keys := Keys(cells);
    forall i, j | 0 <= i < j < |cells| ensures CompareKeyBytes(cells[i].key, cells[j].key) < 0 {
      IndexKeys(dom, n, tuples[i], tuples[j], 0);
    }
    forall i, j | 0 <= i < j < |keys| && CompareKeyBytes(keys[i], Record.Encoded(t)) >= 0
      ensures CompareKeyBytes(keys[j], Record.Encoded(t)) > 0
    {
      IndexKeys(dom, n, tuples[i], t, 0);
      IndexKeys(dom, n, tuples[j], t, 0);
      TuplesInOrder();
      assert Chain(IdealTuples, t, tuples[i], tuples[j]);
      assert IdealTuples(tuples[i], tuples[j]) < 0;
    }
  }
}
