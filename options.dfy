/** The option list of each multiselect in the filter form
    (`multiselect_block`): the sorted distinct values of the column, then the
    sentinel "all", which is also the default selection. */
module Options {
  import opened StringOrder
  import opened Frame
  import Filters

  /** The list without its last element. */
  function Init(s: seq<string>): seq<string>
    requires |s| > 0
  {
    s[..|s| - 1]
  }

  /** `sorted(series.unique().tolist())` with "all" appended. Reading the
      series `bank.<col>` fails when the table has no such column. */
  function MultiselectOptions(t: Table, col: string): (r: Result<seq<string>>)
    requires Valid(t)
    ensures r.Err? <==> col !in t.columns
    ensures r.Err? ==> r.error == UnknownColumn(col)
    ensures r.Ok? ==> |r.value| > 0 && r.value[|r.value| - 1] == Filters.Sentinel
    ensures r.Ok? ==> StrictlySorted(Init(r.value))
    ensures r.Ok? ==> forall v :: v in Init(r.value) <==> v in Column(t.rows, col)
  {
    if col !in t.columns then Err(UnknownColumn(col))
    else
      var r := SortedDistinct(Column(t.rows, col)) + [Filters.Sentinel];
      assert Init(r) == SortedDistinct(Column(t.rows, col));
      Ok(r)
  }

  /** The options are determined by the column alone: any ascending list of
      the column's distinct values, followed by "all", is the option list. */
  lemma OptionsDetermined(t: Table, col: string, s: seq<string>)
    requires Valid(t) && col in t.columns
    requires StrictlySorted(s) && forall v :: v in s <==> v in Column(t.rows, col)
    ensures MultiselectOptions(t, col) == Ok(s + [Filters.Sentinel])
  {
    var r := MultiselectOptions(t, col).value;
    StrictlySortedUnique(s, Init(r));
    assert r == Init(r) + [r[|r| - 1]];
  }

  /** The default selection `["all"]` is one of the options, as the widget
      demands of a default. */
  lemma DefaultIsAnOption(t: Table, col: string)
    requires Valid(t) && col in t.columns
    ensures forall v :: v in Filters.DefaultSelection ==> v in MultiselectOptions(t, col).value
  {
    var r := MultiselectOptions(t, col).value;
    assert r[|r| - 1] in r;
  }

  /** A real category literally named "all" shows up twice among the
      options: once sorted in with the others and once appended. */
  lemma SentinelOccurrences(t: Table, col: string)
    requires Valid(t) && col in t.columns
    ensures multiset(MultiselectOptions(t, col).value)[Filters.Sentinel] ==
      if Filters.Sentinel in Column(t.rows, col) then 2 else 1
  {
    var r := MultiselectOptions(t, col).value;
    var body := Init(r);
    assert r == body + [Filters.Sentinel];
    StrictlySortedIsDistinct(body);
    if Filters.Sentinel in body {
      var k :| 0 <= k < |body| && body[k] == Filters.Sentinel;
      DistinctOnce(body, k);
    }
  }

  lemma DistinctOnce(s: seq<string>, k: int)
    requires Distinct(s) && 0 <= k < |s|
    ensures multiset(s)[s[k]] == 1
  {
    var x := s[k];
    var before, after := s[..k], s[k + 1..];
    assert s == before + [x] + after;
    assert x !in before by {
      forall j | 0 <= j < |before|
        ensures before[j] != x
      {
        assert before[j] == s[j];
      }
    }
    assert x !in after by {
      forall j | 0 <= j < |after|
        ensures after[j] != x
      {
        assert after[j] == s[k + 1 + j];
      }
    }
  }

  /** Choosing every real option (everything but the appended "all") keeps
      every row: the filter is then either off or passes all rows. */
  lemma EveryOptionKeepsAllRows(t: Table, col: string)
    requires Valid(t) && col in t.columns
    ensures Filters.MultiselectFilter(t, col, Init(MultiselectOptions(t, col).value)).Ok?
    ensures Filters.MultiselectFilter(t, col, Init(MultiselectOptions(t, col).value)).value.rows == t.rows
  {
    var sel := Init(MultiselectOptions(t, col).value);
    if Filters.Sentinel !in sel {
      var vals := Column(t.rows, col);
      forall x | x in t.rows
        ensures HoldsAll([CellIn(col, sel)], x)
      {
        var i :| 0 <= i < |t.rows| && t.rows[i] == x;
        assert vals[i] == x.cells[col];
        HoldsAllSingle(CellIn(col, sel), x);
      }
      KeepAllPass(t.rows, [CellIn(col, sel)]);
    }
  }
}
