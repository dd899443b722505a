/** Index keys as tuples of values, and the order that an index keeps them in. */
module Tuples {
  import opened Bytes
  import opened Cells
  import opened Values
  import Record

  type Tuple = seq<Value>

  /** Position by position; a tuple that runs out first comes first. */
  function Lex(cmp: (Value, Value) -> int, x: Tuple, y: Tuple): int {
    if x == [] && y == [] then 0
    else if x == [] then -1
    else if y == [] then 1
    else if cmp(x[0], y[0]) != 0 then cmp(x[0], y[0])
    else Lex(cmp, x[1..], y[1..])
  }

  function CompareTuples(x: Tuple, y: Tuple): int { Lex(Compare, x, y) }

  function IdealTuples(x: Tuple, y: Tuple): int { Lex(Ideal, x, y) }

  ghost predicate Ascending(tuples: seq<Tuple>) {
    forall i, j :: 0 <= i < j < |tuples| ==> IdealTuples(tuples[i], tuples[j]) < 0
  }

  lemma {:induction false} LexChain(x: Tuple, y: Tuple, z: Tuple)
    ensures Chain(IdealTuples, x, y, z)
  {
    var e: Tuple := [];
    if x != [] && y != [] && z != [] {
      IdealChain(x[0], y[0], z[0]);
      LexChain(x[1..], y[1..], z[1..]);
    } else if x != [] && y != [] {
      IdealChain(x[0], y[0], y[0]);
      LexChain(x[1..], y[1..], e);
    } else if x != [] && z != [] {
      IdealChain(x[0], z[0], z[0]);
      LexChain(x[1..], e, z[1..]);
    } else if y != [] && z != [] {
      IdealChain(y[0], z[0], z[0]);
      LexChain(e, y[1..], z[1..]);
    } else {
      LexSelf(x);
      LexSelf(y);
      LexSelf(z);
    }
  }

  lemma {:induction false} LexSelf(x: Tuple)
    ensures IdealTuples(x, x) == 0
  {
    if x != [] {
      IdealChain(x[0], x[0], x[0]);
      LexSelf(x[1..]);
    }
  }

  lemma TuplesInOrder()
    ensures TotalPreorder(IdealTuples)
  {
    forall x, y, z ensures Chain(IdealTuples, x, y, z) {
      LexChain(x, y, z);
    }
  }

  /** The first position where tuples differ decides, and a tuple comes behind its beginnings. */
  lemma {:induction false} FirstDifference(p: Tuple, q: Tuple, x: Value, s: Tuple, y: Value, t: Tuple)
    requires |p| == |q| && (forall i :: 0 <= i < |p| ==> Compare(p[i], q[i]) == 0) && Compare(x, y) != 0
    ensures CompareTuples(p + ([x] + s), q + ([y] + t)) == Compare(x, y)
    ensures CompareTuples(p, q) == 0 && CompareTuples(p, q + ([y] + t)) == -1 && CompareTuples(p + ([x] + s), q) == 1
  {
    var a, b := p + ([x] + s), q + ([y] + t);
    if p == [] {
      assert a == [x] + s && b == [y] + t;
      assert q == [] && p + ([x] + s) == a && q + ([y] + t) == b;
    } else {
      assert a[1..] == p[1..] + ([x] + s) && b[1..] == q[1..] + ([y] + t);
      FirstDifference(p[1..], q[1..], x, s, y, t);
    }
  }

  // ---- keys ----

  /** The entry of a row: its indexed values, then its rowid. */
  function Key(cols: Tuple, rowid: int): Tuple { cols + [Integer(rowid)] }

  /** Positions where the comparison of the source is that of the numbers themselves. */
  ghost predicate InDomain(dom: Value -> bool, cols: Tuple) {
    forall i :: 0 <= i < |cols| ==> dom(cols[i])
  }

  lemma OnlyRowids(i: int, j: int)
    ensures CompareTuples([Integer(i)], [Integer(j)]) == IdealTuples([Integer(i)], [Integer(j)]) == Ideal(Integer(i), Integer(j))
    ensures Ideal(Integer(i), Integer(j)) == if i < j then -1 else if i > j then 1 else 0
  {
    var x: Tuple, y: Tuple := [Integer(i)], [Integer(j)];
    assert x[1..] == [] && y[1..] == [];
    assert Lex(Compare, x[1..], y[1..]) == 0 && Lex(Ideal, x[1..], y[1..]) == 0;
    assert Lex(Compare, x, y) == Compare(x[0], y[0]) && Lex(Ideal, x, y) == Ideal(x[0], y[0]);
  }

  lemma {:induction false} KeysAgree(dom: Value -> bool, a: Tuple, i: int, b: Tuple, j: int)
    requires Tame(dom) && InDomain(dom, a) && InDomain(dom, b) && |a| == |b|
    ensures CompareTuples(Key(a, i), Key(b, j)) == IdealTuples(Key(a, i), Key(b, j))
  {
    if a == [] {
      OnlyRowids(i, j);
      assert Key(a, i) == [Integer(i)] && Key(b, j) == [Integer(j)];
    } else {
      assert Key(a, i)[1..] == Key(a[1..], i) && Key(b, j)[1..] == Key(b[1..], j);
      KeysAgree(dom, a[1..], i, b[1..], j);
    }
  }

  /** Equal in every position of the prefix. */
  predicate MatchesPrefix(cols: Tuple, entry: Tuple) {
    |cols| <= |entry| && forall i :: 0 <= i < |cols| ==> Compare(entry[i], cols[i]) == 0
  }

  /**
  The order of keys is that of their values, and where those are all equal that of the rowids; keys of
  different rowids are never equal.
  */
  lemma {:induction false} KeyOrder(dom: Value -> bool, a: Tuple, i: int, b: Tuple, j: int)
    requires Tame(dom) && InDomain(dom, a) && InDomain(dom, b) && |a| == |b|
    ensures IdealTuples(Key(a, i), Key(b, j)) == if MatchesPrefix(b, a) then Ideal(Integer(i), Integer(j)) else IdealTuples(a, b)
    ensures MatchesPrefix(b, a) <==> IdealTuples(a, b) == 0
    ensures IdealTuples(Key(a, i), Key(b, j)) == 0 ==> i == j
  {
    if a == [] {
      OnlyRowids(i, j);
      assert Key(a, i) == [Integer(i)] && Key(b, j) == [Integer(j)];
    } else {
      assert Key(a, i)[1..] == Key(a[1..], i) && Key(b, j)[1..] == Key(b[1..], j);
      KeyOrder(dom, a[1..], i, b[1..], j);
      PrefixStep(a, b);
    }
  }

  lemma PrefixStep(a: Tuple, b: Tuple)
    requires |a| == |b| > 0
    ensures MatchesPrefix(b, a) <==> Compare(a[0], b[0]) == 0 && MatchesPrefix(b[1..], a[1..])
  {
    if Compare(a[0], b[0]) == 0 && MatchesPrefix(b[1..], a[1..]) {
      forall i | 0 <= i < |b| ensures Compare(a[i], b[i]) == 0 {
        if i > 0 { assert a[i] == a[1..][i - 1] && b[i] == b[1..][i - 1]; }
      }
    }
    if MatchesPrefix(b, a) {
      forall i | 0 <= i < |b[1..]| ensures Compare(a[1..][i], b[1..][i]) == 0 {
        assert a[1..][i] == a[i + 1] && b[1..][i] == b[i + 1];
      }
    }
  }

  /** The bytes of an index key are ordered as the tuples they stand for. */
  lemma {:induction false} KeyBytesOrder(x: Tuple, y: Tuple)
    requires Record.StorableRow(x) && Record.StorableRow(y)
    ensures CompareIndexKeys(Record.Encoded(x), Record.Encoded(y)) == Some(CompareTuples(x, y))
  {
    Record.RoundTrip(x);
    Record.RoundTrip(y);
  }

  /** Bytes that are no index key make the source panic. */
  function CompareIndexKeys(a: seq<Byte>, b: seq<Byte>): Option<int> {
    match (Record.Decode(a), Record.Decode(b))
    case (Ok(x), Ok(y)) => Some(CompareTuples(x, y))
    case _ => None
  }
}
