/**
 * The part of a pandas DataFrame the program relies on: a sequence of rows,
 * each carrying an index value (the key column named at construction) and the
 * record it came from. Duplicate index values are possible, as in pandas.
 */
module Frames {

  datatype Row<V> = Row(index: int, values: V)

  type Frame<V> = seq<Row<V>>

  /** `pd.DataFrame.from_records(data, index=key_field)`. */
  function FromRecords<V>(items: seq<V>, key: V -> int): (f: Frame<V>)
    ensures |f| == |items|
    ensures forall i :: 0 <= i < |items| ==> f[i] == Row(key(items[i]), items[i])
  {
    if items == [] then [] else [Row(key(items[0]), items[0])] + FromRecords(items[1..], key)
  }

  function Indexes<V(==)>(f: Frame<V>): set<int> {
    set r | r in f :: r.index
  }

  /** No index value occurs twice. */
  predicate UniqueIndex<V>(f: Frame<V>) {
    forall i, j :: 0 <= i < j < |f| ==> f[i].index != f[j].index
  }

  /** The map view of a frame: a later row overrides an earlier one with the same index. */
  function AsMap<V>(f: Frame<V>): map<int, V> {
    if f == [] then map[] else map[f[0].index := f[0].values] + AsMap(f[1..])
  }

  /** Boolean-mask selection `df[mask]`: the rows that satisfy `keep`, in order. */
  function Select<V(==)>(f: Frame<V>, keep: Row<V> -> bool): (r: Frame<V>)
    ensures |r| <= |f|
    ensures forall i :: 0 <= i < |r| ==> r[i] in f && keep(r[i])
    ensures forall i :: 0 <= i < |f| && keep(f[i]) ==> f[i] in r
  {
    if f == [] then []
    else (if keep(f[0]) then [f[0]] else []) + Select(f[1..], keep)
  }

  /** `df[~df.index.duplicated(keep="last")]`: of each index value only its last row remains. */
  function KeepLast<V(==)>(f: Frame<V>): (r: Frame<V>)
    ensures |r| <= |f|
    ensures forall i :: 0 <= i < |r| ==> r[i] in f
  {
    if f == [] then []
    else if f[0].index in Indexes(f[1..]) then KeepLast(f[1..])
    else [f[0]] + KeepLast(f[1..])
  }

  // ---------------------------------------------------------------------------
  // Facts about index sets and the map view

  lemma IndexesCons<V>(f: Frame<V>)
    requires f != []
    ensures Indexes(f) == {f[0].index} + Indexes(f[1..])
  {
    assert f == [f[0]] + f[1..];
    forall k | k in Indexes(f) ensures k in {f[0].index} + Indexes(f[1..]) {
      var r :| r in f && r.index == k;
      if r != f[0] {
        var i :| 0 <= i < |f| && f[i] == r;
        assert f[1..][i - 1] == r;
      }
    }
  }

  lemma {:induction false} IndexesAppend<V>(a: Frame<V>, b: Frame<V>)
    ensures Indexes(a + b) == Indexes(a) + Indexes(b)
    decreases |a|
  {
    if a == [] {
      assert a + b == b;
    } else {
      IndexesCons(a);
      IndexesCons(a + b);
      assert (a + b)[1..] == a[1..] + b;
      IndexesAppend(a[1..], b);
    }
  }

  lemma {:induction false} AsMapKeys<V>(f: Frame<V>)
    ensures AsMap(f).Keys == Indexes(f)
    decreases |f|
  {
    if f != [] {
      IndexesCons(f);
      AsMapKeys(f[1..]);
    }
  }

  /** The map view of a concatenation: the second frame's rows override the first's. */
  lemma {:induction false} AsMapAppend<V>(a: Frame<V>, b: Frame<V>)
    ensures AsMap(a + b) == AsMap(a) + AsMap(b)
    decreases |a|
  {
    if a == [] {
      assert a + b == b;
    } else {
      assert (a + b)[1..] == a[1..] + b;
      AsMapAppend(a[1..], b);
    }
  }

  lemma UniqueTail<V>(f: Frame<V>)
    requires f != [] && UniqueIndex(f)
    ensures UniqueIndex(f[1..]) && f[0].index !in Indexes(f[1..])
  {
  }

  /** In a frame without repeated index values the row count is the key count (`len(df)`). */
  lemma {:induction false} UniqueCount<V>(f: Frame<V>)
    requires UniqueIndex(f)
    ensures |f| == |Indexes(f)|
    decreases |f|
  {
    if f != [] {
      UniqueTail(f);
      IndexesCons(f);
      UniqueCount(f[1..]);
    }
  }

  // ---------------------------------------------------------------------------
  // Facts about KeepLast

  /**
   * Dropping duplicates keeps every index value, leaves each only once, and
   * keeps for each the row the map view picks: the last one.
   */
  lemma {:induction false} KeepLastSpec<V>(f: Frame<V>)
    ensures UniqueIndex(KeepLast(f))
    ensures Indexes(KeepLast(f)) == Indexes(f)
    ensures AsMap(KeepLast(f)) == AsMap(f)
    decreases |f|
  {
    if f != [] {
      var rest := KeepLast(f[1..]);
      KeepLastSpec(f[1..]);
      IndexesCons(f);
      if f[0].index in Indexes(f[1..]) {
        AsMapKeys(f[1..]);
      } else {
        var r := [f[0]] + rest;
        assert r[1..] == rest;
        IndexesCons(r);
        forall i, j | 0 <= i < j < |r| ensures r[i].index != r[j].index {
          if i == 0 {
            assert r[j] in rest;
          } else {
            assert r[i] == rest[i - 1] && r[j] == rest[j - 1];
          }
        }
      }
    }
  }

  /** A frame that already has unique index values is left as it is. */
  lemma {:induction false} KeepLastOfUnique<V>(f: Frame<V>)
    requires UniqueIndex(f)
    ensures KeepLast(f) == f
    decreases |f|
  {
    if f != [] {
      UniqueTail(f);
      KeepLastOfUnique(f[1..]);
      assert f == [f[0]] + f[1..];
    }
  }

  /** Rows whose index reappears later are all dropped. */
  lemma {:induction false} KeepLastAbsorbs<V>(a: Frame<V>, b: Frame<V>)
    requires Indexes(a) <= Indexes(b)
    ensures KeepLast(a + b) == KeepLast(b)
    decreases |a|
  {
    if a == [] {
      assert a + b == b;
    } else {
      IndexesCons(a);
      assert (a + b)[0] == a[0] && (a + b)[1..] == a[1..] + b;
      IndexesAppend(a[1..], b);
      KeepLastAbsorbs(a[1..], b);
    }
  }

  // ---------------------------------------------------------------------------
  // Facts about Select

  /** Selecting by a mask and by its negation splits the rows between the two. */
  lemma {:induction false} SelectPartition<V>(f: Frame<V>, p: Row<V> -> bool, q: Row<V> -> bool)
    requires forall x :: q(x) == !p(x)
    ensures |Select(f, p)| + |Select(f, q)| == |f|
    decreases |f|
  {
    if f != [] {
      SelectPartition(f[1..], p, q);
    }
  }

  /** A mask every row passes selects the whole frame, and only such a mask does. */
  lemma {:induction false} SelectAll<V>(f: Frame<V>, keep: Row<V> -> bool)
    ensures (forall i :: 0 <= i < |f| ==> keep(f[i])) <==> Select(f, keep) == f
    decreases |f|
  {
    if f != [] && forall i :: 0 <= i < |f| ==> keep(f[i]) {
      assert forall i :: 0 <= i < |f[1..]| ==> keep(f[1..][i]) by {
        forall i | 0 <= i < |f[1..]| ensures keep(f[1..][i]) { assert f[1..][i] == f[i + 1]; }
      }
      SelectAll(f[1..], keep);
      assert f == [f[0]] + f[1..];
    }
  }

  /** A mask no row passes selects nothing, and only such a mask does. */
  lemma {:induction false} SelectNone<V>(f: Frame<V>, keep: Row<V> -> bool)
    ensures (forall i :: 0 <= i < |f| ==> !keep(f[i])) <==> Select(f, keep) == []
    decreases |f|
  {
    if f != [] && forall i :: 0 <= i < |f| ==> !keep(f[i]) {
      assert forall i :: 0 <= i < |f[1..]| ==> !keep(f[1..][i]) by {
        forall i | 0 <= i < |f[1..]| ensures !keep(f[1..][i]) { assert f[1..][i] == f[i + 1]; }
      }
      SelectNone(f[1..], keep);
    }
  }

  /** Selection keeps a frame free of repeated index values. */
  lemma {:induction false} SelectUnique<V>(f: Frame<V>, keep: Row<V> -> bool)
    requires UniqueIndex(f)
    ensures UniqueIndex(Select(f, keep))
    decreases |f|
  {
    if f != [] {
      UniqueTail(f);
      SelectUnique(f[1..], keep);
      var rest := Select(f[1..], keep);
      if keep(f[0]) {
        forall j | 0 <= j < |rest| ensures rest[j].index != f[0].index {
          assert rest[j] in f[1..];
        }
        UniqueCons(f[0], rest);
      }
    }
  }

  /** A row whose index value the rest lacks can go in front of a frame without repeats. */
  lemma UniqueCons<V>(x: Row<V>, rest: Frame<V>)
    requires UniqueIndex(rest)
    requires forall j :: 0 <= j < |rest| ==> rest[j].index != x.index
    ensures UniqueIndex([x] + rest)
  {
    var r := [x] + rest;
    forall i, j | 0 <= i < j < |r| ensures r[i].index != r[j].index {
      assert r[j] == rest[j - 1];
      if i > 0 { assert r[i] == rest[i - 1]; }
    }
  }

  /**
   * A selection keeps every row that satisfies the mask as many times as the
   * frame holds it, and no other row: the row counts of the selected frame.
   */
  lemma {:induction false} SelectCounts<V>(f: Frame<V>, keep: Row<V> -> bool, x: Row<V>)
    ensures multiset(Select(f, keep))[x] == if keep(x) then multiset(f)[x] else 0
  {
    if f != [] {
      assert f == [f[0]] + f[1..];
      SelectCounts(f[1..], keep, x);
    }
  }

  /** Selection distributes over concatenation: the selected rows keep their order. */
  lemma {:induction false} SelectAppend<V>(a: Frame<V>, b: Frame<V>, keep: Row<V> -> bool)
    ensures Select(a + b, keep) == Select(a, keep) + Select(b, keep)
  {
    if a != [] {
      assert (a + b)[1..] == a[1..] + b;
      SelectAppend(a[1..], b, keep);
    } else {
      assert a + b == b;
    }
  }
}
