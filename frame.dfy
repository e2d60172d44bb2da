/** The dataframe the dashboard works on, and the boolean-mask row selection
    (`df[mask]`) that both the age query and the categorical filters use. */
module Frame {

  /** One row of the bank marketing table: the integer `age`, held apart
      because the age query reads it as a number, and the value of every
      categorical column (`job`, `marital`, ..., `y`) by column name. */
  datatype Row = Row(age: int, cells: map<string, string>)

  /** A dataframe: its categorical column names, its row labels (the pandas
      index) and its rows, position by position. */
  datatype Table = Table(columns: set<string>, index: seq<int>, rows: seq<Row>)

  /** The failure pandas raises when a column is looked up that the table
      does not have (`KeyError` for `df[col]`, `AttributeError` for `df.y`). */
  datatype Error = UnknownColumn(name: string)

  datatype Result<T> = Ok(value: T) | Err(error: Error)

  /** A dataframe is rectangular: one label per row and every row has a
      value in every column. */
  predicate Valid(t: Table)
  {
    && |t.index| == |t.rows|
    && forall r :: r in t.rows ==> r.cells.Keys == t.columns
  }

  /** The predicates a row mask is built from. */
  datatype Pred =
    | AgeBetween(lo: int, hi: int)            // `age >= lo and age <= hi`
    | CellIn(col: string, values: seq<string>) // `df[col].isin(values)`

  predicate Holds(p: Pred, r: Row)
  {
    match p
    case AgeBetween(lo, hi) => lo <= r.age && r.age <= hi
    case CellIn(col, values) => col in r.cells && r.cells[col] in values
  }

  predicate HoldsAll(ps: seq<Pred>, r: Row)
  {
    forall i :: 0 <= i < |ps| ==> Holds(ps[i], r)
  }

  lemma HoldsAllSingle(p: Pred, r: Row)
    ensures HoldsAll([p], r) <==> Holds(p, r)
  {
    assert [p][0] == p;
  }

  lemma HoldsAllAppend(ps: seq<Pred>, qs: seq<Pred>, r: Row)
    ensures HoldsAll(ps + qs, r) <==> HoldsAll(ps, r) && HoldsAll(qs, r)
  {
    if HoldsAll(ps, r) && HoldsAll(qs, r) {
      forall i | 0 <= i < |ps + qs|
        ensures Holds((ps + qs)[i], r)
      {
        if i >= |ps| {
          assert (ps + qs)[i] == qs[i - |ps|];
        }
      }
    }
    if HoldsAll(ps + qs, r) {
      forall i | 0 <= i < |ps|
        ensures Holds(ps[i], r)
      {
        assert (ps + qs)[i] == ps[i];
      }
      forall i | 0 <= i < |qs|
        ensures Holds(qs[i], r)
      {
        assert (ps + qs)[|ps| + i] == qs[i];
      }
    }
  }

  /** The rows a mask built from `ps` selects, in their original order. */
  function Keep(rows: seq<Row>, ps: seq<Pred>): (r: seq<Row>)
    ensures |r| <= |rows|
    ensures forall x :: x in r ==> x in rows
    decreases |rows|
  {
    if |rows| == 0 then []
    else if HoldsAll(ps, rows[0]) then [rows[0]] + Keep(rows[1..], ps)
    else Keep(rows[1..], ps)
  }

  /** The labels of the rows `Keep` selects: a mask keeps each row's label. */
  function KeepLabels(index: seq<int>, rows: seq<Row>, ps: seq<Pred>): (r: seq<int>)
    requires |index| == |rows|
    ensures |r| == |Keep(rows, ps)|
    decreases |rows|
  {
    if |rows| == 0 then []
    else if HoldsAll(ps, rows[0]) then [index[0]] + KeepLabels(index[1..], rows[1..], ps)
    else KeepLabels(index[1..], rows[1..], ps)
  }

  /** The labels `0, 1, ..., n - 1` that `reset_index(drop=True)` assigns. */
  function Range(n: nat): (r: seq<int>)
    ensures |r| == n
    ensures forall i :: 0 <= i < n ==> r[i] == i
  {
    seq(n, i => i)
  }

  /** `a` is `b` with some elements left out, the rest in their order. */
  predicate IsSubseq<T(==)>(a: seq<T>, b: seq<T>)
    decreases |b|
  {
    if |a| == 0 then true
    else if |b| == 0 then false
    else (a[0] == b[0] && IsSubseq(a[1..], b[1..])) || IsSubseq(a, b[1..])
  }

  /** The (label, row) records of a table. */
  function Records(index: seq<int>, rows: seq<Row>): (r: seq<(int, Row)>)
    requires |index| == |rows|
    ensures |r| == |rows|
    ensures forall i :: 0 <= i < |r| ==> r[i] == (index[i], rows[i])
  {
    seq(|rows|, i requires 0 <= i < |rows| => (index[i], rows[i]))
  }

  /** The values of one column, row by row (`df[col]` as a list). */
  function Column(rows: seq<Row>, col: string): (r: seq<string>)
    requires forall x :: x in rows ==> col in x.cells
    ensures |r| == |rows|
    ensures forall i :: 0 <= i < |rows| ==> r[i] == rows[i].cells[col]
    decreases |rows|
  {
    if |rows| == 0 then [] else [rows[0].cells[col]] + Column(rows[1..], col)
  }

  // ---------------------------------------------------------------------
  // What a boolean mask selects

  /** A row is selected exactly when it is an input row that passes. */
  lemma {:induction false} KeepMembers(rows: seq<Row>, ps: seq<Pred>, x: Row)
    ensures x in Keep(rows, ps) <==> x in rows && HoldsAll(ps, x)
    decreases |rows|
  {
    if |rows| > 0 {
      KeepMembers(rows[1..], ps, x);
      assert rows == [rows[0]] + rows[1..];
    }
  }

  /** Every passing row is kept as often as it occurs, every failing row never. */
  lemma {:induction false} KeepMultiplicity(rows: seq<Row>, ps: seq<Pred>, x: Row)
    ensures multiset(Keep(rows, ps))[x] == if HoldsAll(ps, x) then multiset(rows)[x] else 0
    decreases |rows|
  {
    if |rows| > 0 {
      KeepMultiplicity(rows[1..], ps, x);
      assert rows == [rows[0]] + rows[1..];
    }
  }

  /** The selected rows keep their relative order. */
  lemma {:induction false} KeepIsSubseq(rows: seq<Row>, ps: seq<Pred>)
    ensures IsSubseq(Keep(rows, ps), rows)
    decreases |rows|
  {
    if |rows| > 0 {
      KeepIsSubseq(rows[1..], ps);
      var k := Keep(rows, ps);
      if HoldsAll(ps, rows[0]) {
        assert k[0] == rows[0] && k[1..] == Keep(rows[1..], ps);
      }
    }
  }

  /** Each selected row keeps the label it had: the (label, row) records of
      the result are a subsequence of the input's records. */
  lemma {:induction false} KeepLabelsIsSubseq(index: seq<int>, rows: seq<Row>, ps: seq<Pred>)
    requires |index| == |rows|
    ensures IsSubseq(Records(KeepLabels(index, rows, ps), Keep(rows, ps)), Records(index, rows))
    decreases |rows|
  {
    if |rows| > 0 {
      KeepLabelsIsSubseq(index[1..], rows[1..], ps);
      var rec := Records(index, rows);
      assert rec[1..] == Records(index[1..], rows[1..]);
      var out := Records(KeepLabels(index, rows, ps), Keep(rows, ps));
      var tail := Records(KeepLabels(index[1..], rows[1..], ps), Keep(rows[1..], ps));
      if HoldsAll(ps, rows[0]) {
        assert out[0] == rec[0];
        assert out[1..] == tail;
      } else {
        assert out == tail;
      }
    }
  }

  /** Masking twice in a row is masking once by both predicates. */
  lemma {:induction false} KeepKeep(rows: seq<Row>, ps: seq<Pred>, qs: seq<Pred>)
    ensures Keep(Keep(rows, ps), qs) == Keep(rows, ps + qs)
    decreases |rows|
  {
    if |rows| > 0 {
      KeepKeep(rows[1..], ps, qs);
      HoldsAllAppend(ps, qs, rows[0]);
      if HoldsAll(ps, rows[0]) {
        var k := Keep(rows, ps);
        assert k[0] == rows[0] && k[1..] == Keep(rows[1..], ps);
      }
    }
  }

  /** The mask works row by row: masking a concatenation masks each part. */
  lemma {:induction false} KeepAppend(a: seq<Row>, b: seq<Row>, ps: seq<Pred>)
    ensures Keep(a + b, ps) == Keep(a, ps) + Keep(b, ps)
    decreases |a|
  {
    if |a| > 0 {
      assert (a + b)[0] == a[0] && (a + b)[1..] == a[1..] + b;
      KeepAppend(a[1..], b, ps);
    } else {
      assert a + b == b;
    }
  }

  lemma {:induction false} KeepLabelsAppend(ia: seq<int>, a: seq<Row>, ib: seq<int>, b: seq<Row>, ps: seq<Pred>)
    requires |ia| == |a| && |ib| == |b|
    ensures KeepLabels(ia + ib, a + b, ps) == KeepLabels(ia, a, ps) + KeepLabels(ib, b, ps)
    decreases |a|
  {
    if |a| > 0 {
      assert (a + b)[0] == a[0] && (a + b)[1..] == a[1..] + b;
      assert (ia + ib)[0] == ia[0] && (ia + ib)[1..] == ia[1..] + ib;
      KeepLabelsAppend(ia[1..], a[1..], ib, b, ps);
    } else {
      assert a + b == b && ia + ib == ib;
    }
  }

  /** A mask whose every row passes selects everything. */
  lemma {:induction false} KeepAllPass(rows: seq<Row>, ps: seq<Pred>)
    requires forall x :: x in rows ==> HoldsAll(ps, x)
    ensures Keep(rows, ps) == rows
    decreases |rows|
  {
    if |rows| > 0 {
      assert rows[0] in rows;
      KeepAllPass(rows[1..], ps);
      assert rows == [rows[0]] + rows[1..];
    }
  }

  /** A mask that no row passes selects nothing. */
  lemma {:induction false} KeepNonePass(rows: seq<Row>, ps: seq<Pred>)
    requires forall x :: x in rows ==> !HoldsAll(ps, x)
    ensures Keep(rows, ps) == []
    decreases |rows|
  {
    if |rows| > 0 {
      assert rows[0] in rows;
      KeepNonePass(rows[1..], ps);
    }
  }

  /** Masks built from predicates that agree on every row select the same rows. */
  lemma {:induction false} KeepSameRows(rows: seq<Row>, ps: seq<Pred>, qs: seq<Pred>)
    requires forall x :: x in rows ==> (HoldsAll(ps, x) <==> HoldsAll(qs, x))
    ensures Keep(rows, ps) == Keep(rows, qs)
    decreases |rows|
  {
    if |rows| > 0 {
      assert rows[0] in rows;
      KeepSameRows(rows[1..], ps, qs);
    }
  }

  /** The mask of no predicates selects every row. */
  lemma KeepNoPreds(rows: seq<Row>)
    ensures Keep(rows, []) == rows
  {
    KeepAllPass(rows, []);
  }

  lemma {:induction false} KeepLabelsAllPass(index: seq<int>, rows: seq<Row>, ps: seq<Pred>)
    requires |index| == |rows|
    requires forall x :: x in rows ==> HoldsAll(ps, x)
    ensures KeepLabels(index, rows, ps) == index
    decreases |rows|
  {
    if |rows| > 0 {
      assert rows[0] in rows;
      KeepLabelsAllPass(index[1..], rows[1..], ps);
      assert index == [index[0]] + index[1..];
    }
  }

  /** A stricter mask selects a subsequence of what a looser one selects. */
  lemma {:induction false} KeepStricter(rows: seq<Row>, strict: seq<Pred>, loose: seq<Pred>)
    requires forall x :: x in rows && HoldsAll(strict, x) ==> HoldsAll(loose, x)
    ensures IsSubseq(Keep(rows, strict), Keep(rows, loose))
    decreases |rows|
  {
    if |rows| > 0 {
      assert rows[0] in rows;
      KeepStricter(rows[1..], strict, loose);
      var a, b := Keep(rows, strict), Keep(rows, loose);
      if HoldsAll(strict, rows[0]) {
        assert a[0] == rows[0] && a[1..] == Keep(rows[1..], strict);
        assert b[0] == rows[0] && b[1..] == Keep(rows[1..], loose);
      } else if HoldsAll(loose, rows[0]) {
        assert b[1..] == Keep(rows[1..], loose);
        SubseqOfTail(a, b);
      }
    }
  }

  lemma SubseqOfTail<T>(a: seq<T>, b: seq<T>)
    requires |b| > 0 && IsSubseq(a, b[1..])
    ensures IsSubseq(a, b)
  {
  }

  /** A subsequence is never longer. */
  lemma {:induction false} SubseqLength<T>(a: seq<T>, b: seq<T>)
    requires IsSubseq(a, b)
    ensures |a| <= |b|
    decreases |b|
  {
    if |a| > 0 {
      if a[0] == b[0] && IsSubseq(a[1..], b[1..]) {
        SubseqLength(a[1..], b[1..]);
      } else {
        SubseqLength(a, b[1..]);
      }
    }
  }

  /** Keeping rows keeps the table rectangular. */
  lemma KeepValid(t: Table, ps: seq<Pred>)
    requires Valid(t)
    ensures Valid(Table(t.columns, KeepLabels(t.index, t.rows, ps), Keep(t.rows, ps)))
  {
  }
}
