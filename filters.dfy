/** The filter pipeline of the dashboard: the per-column categorical filter
    with its "all" sentinel (`multiselect_filter`), the inclusive age query,
    and the chain of the age query and eight categorical filters that the
    "apply filters" form submission runs. */
module Filters {
  import opened Frame

  /** The option that switches a column's filter off. */
  const Sentinel := "all"

  // ---------------------------------------------------------------------
  // multiselect_filter

  /** `multiselect_filter(df, col, selected)`: the table itself when "all" is
      among the selected values; otherwise the rows whose `col` value is
      selected, relabelled 0, 1, ... by `reset_index(drop=True)`. */
  function MultiselectFilter(t: Table, col: string, selected: seq<string>): (r: Result<Table>)
    requires Valid(t)
    ensures r.Ok? ==> Valid(r.value) && r.value.columns == t.columns
    ensures r.Ok? ==> |r.value.rows| <= |t.rows|
    ensures Sentinel in selected ==> r == Ok(t)
    ensures Sentinel !in selected ==> (r.Err? <==> col !in t.columns)
    ensures r.Err? ==> r.error == UnknownColumn(col)
  {
    if Sentinel in selected then Ok(t)
    else if col !in t.columns then Err(UnknownColumn(col))
    else
      var kept := Keep(t.rows, [CellIn(col, selected)]);
      Ok(Table(t.columns, Range(|kept|), kept))
  }

  /** With "all" not selected, the result holds exactly the input rows whose
      `col` value is selected, each as often as in the input, in input order,
      under fresh labels 0 .. n-1. */
  lemma MultiselectFilterSelects(t: Table, col: string, selected: seq<string>)
    requires Valid(t) && Sentinel !in selected && col in t.columns
    ensures MultiselectFilter(t, col, selected).Ok?
    ensures var u := MultiselectFilter(t, col, selected).value;
      && (forall x :: x in u.rows <==> x in t.rows && x.cells[col] in selected)
      && (forall x :: multiset(u.rows)[x] ==
            if col in x.cells && x.cells[col] in selected then multiset(t.rows)[x] else 0)
      && IsSubseq(u.rows, t.rows)
      && u.index == Range(|u.rows|)
  {
    var p := [CellIn(col, selected)];
    forall x
      ensures x in Keep(t.rows, p) <==> x in t.rows && x.cells[col] in selected
      ensures multiset(Keep(t.rows, p))[x] ==
        if col in x.cells && x.cells[col] in selected then multiset(t.rows)[x] else 0
    {
      HoldsAllSingle(p[0], x);
      KeepMembers(t.rows, p, x);
      KeepMultiplicity(t.rows, p, x);
    }
    KeepIsSubseq(t.rows, p);
  }

  /** With "all" deselected and nothing else chosen, the result is the empty
      table, not an error (unless the column does not exist). */
  lemma MultiselectFilterEmptySelection(t: Table, col: string)
    requires Valid(t)
    ensures MultiselectFilter(t, col, []) ==
      if col in t.columns then Ok(Table(t.columns, [], [])) else Err(UnknownColumn(col))
  {
    if col in t.columns {
      forall x
        ensures !HoldsAll([CellIn(col, [])], x)
      {
        HoldsAllSingle(CellIn(col, []), x);
      }
      KeepNonePass(t.rows, [CellIn(col, [])]);
    }
  }

  /** Filtering again by the same column and selection changes nothing. */
  lemma MultiselectFilterIdempotent(t: Table, col: string, selected: seq<string>)
    requires Valid(t) && MultiselectFilter(t, col, selected).Ok?
    ensures var u := MultiselectFilter(t, col, selected).value;
      MultiselectFilter(u, col, selected) == Ok(u)
  {
    if Sentinel !in selected {
      var p := [CellIn(col, selected)];
      var kept := Keep(t.rows, p);
      forall x | x in kept
        ensures HoldsAll(p, x)
      {
        KeepMembers(t.rows, p, x);
      }
      KeepAllPass(kept, p);
    }
  }

  /** `.pipe(multiselect_filter, col, selected)` on the outcome of the
      previous step: a failure propagates. */
  function Pipe(r: Result<Table>, col: string, selected: seq<string>): Result<Table>
    requires r.Ok? ==> Valid(r.value)
  {
    match r
    case Err(e) => Err(e)
    case Ok(t) => MultiselectFilter(t, col, selected)
  }

  /** Two categorical filters give the same table in either order, and one
      order fails exactly when the other does. */
  lemma FiltersCommute(t: Table, c1: string, s1: seq<string>, c2: string, s2: seq<string>)
    requires Valid(t)
    ensures var a := Pipe(MultiselectFilter(t, c1, s1), c2, s2);
      var b := Pipe(MultiselectFilter(t, c2, s2), c1, s1);
      && (a.Ok? <==> b.Ok?)
      && (a.Ok? ==> a == b)
  {
    var p, q := [CellIn(c1, s1)], [CellIn(c2, s2)];
    if Sentinel !in s1 && Sentinel !in s2 && c1 in t.columns && c2 in t.columns {
      KeepKeep(t.rows, p, q);
      KeepKeep(t.rows, q, p);
      forall x | x in t.rows
        ensures HoldsAll(p + q, x) <==> HoldsAll(q + p, x)
      {
        HoldsAllAppend(p, q, x);
        HoldsAllAppend(q, p, x);
      }
      KeepSameRows(t.rows, p + q, q + p);
    }
  }

  // ---------------------------------------------------------------------
  // The age query

  /** `df.query("age >= @lo and age <= @hi")`: the rows with an age in the
      closed range, keeping their labels. */
  function AgeQuery(t: Table, lo: int, hi: int): (r: Table)
    requires Valid(t)
    ensures Valid(r) && r.columns == t.columns
    ensures |r.rows| <= |t.rows|
  {
    var p := [AgeBetween(lo, hi)];
    KeepValid(t, p);
    Table(t.columns, KeepLabels(t.index, t.rows, p), Keep(t.rows, p))
  }

  /** The query keeps exactly the rows with `lo <= age <= hi`, inclusive at
      both ends, each as often as in the input, in input order and under the
      labels they had; an empty range (lo > hi) keeps nothing. */
  lemma AgeQuerySelects(t: Table, lo: int, hi: int)
    requires Valid(t)
    ensures var u := AgeQuery(t, lo, hi);
      && (forall x :: x in u.rows <==> x in t.rows && lo <= x.age <= hi)
      && (forall x :: multiset(u.rows)[x] == if lo <= x.age <= hi then multiset(t.rows)[x] else 0)
      && IsSubseq(u.rows, t.rows)
      && IsSubseq(Records(u.index, u.rows), Records(t.index, t.rows))
      && (lo > hi ==> u.rows == [])
  {
    var p := [AgeBetween(lo, hi)];
    forall x
      ensures HoldsAll(p, x) <==> lo <= x.age <= hi
    {
      HoldsAllSingle(p[0], x);
    }
    AgeQueryRows(t.rows, p, lo, hi);
    KeepIsSubseq(t.rows, p);
    KeepLabelsIsSubseq(t.index, t.rows, p);
    if lo > hi {
      KeepNonePass(t.rows, p);
    }
  }

  lemma AgeQueryRows(rows: seq<Row>, p: seq<Pred>, lo: int, hi: int)
    requires forall x :: HoldsAll(p, x) <==> lo <= x.age <= hi
    ensures forall x :: x in Keep(rows, p) <==> x in rows && lo <= x.age <= hi
    ensures forall x :: multiset(Keep(rows, p))[x] == if lo <= x.age <= hi then multiset(rows)[x] else 0
  {
    forall x
      ensures x in Keep(rows, p) <==> x in rows && lo <= x.age <= hi
      ensures multiset(Keep(rows, p))[x] == if lo <= x.age <= hi then multiset(rows)[x] else 0
    {
      KeepMembers(rows, p, x);
      KeepMultiplicity(rows, p, x);
    }
  }

  // ---------------------------------------------------------------------
  // The submitted form and the pipeline

  /** What the filter form submits: the age slider's range and the
      selection of each of the eight multiselects. */
  datatype Form = Form(
    ageRange: (int, int),
    jobs: seq<string>,
    marital: seq<string>,
    default: seq<string>,
    housing: seq<string>,
    loan: seq<string>,
    contact: seq<string>,
    month: seq<string>,
    day: seq<string>)

  /** One `.pipe(multiselect_filter, col, selected)` step. */
  datatype Step = Step(col: string, selected: seq<string>)

  /** The eight categorical steps, in the order of the chain. */
  function Steps(f: Form): (r: seq<Step>)
    ensures |r| == 8
  {
    [ Step("job", f.jobs), Step("marital", f.marital), Step("default", f.default),
      Step("housing", f.housing), Step("loan", f.loan), Step("contact", f.contact),
      Step("month", f.month), Step("day_of_week", f.day) ]
  }

  /** Runs the steps one after the other, stopping at the first failure. */
  function ApplySteps(t: Table, steps: seq<Step>): (r: Result<Table>)
    requires Valid(t)
    ensures r.Ok? ==> Valid(r.value) && r.value.columns == t.columns
    decreases |steps|
  {
    if |steps| == 0 then Ok(t)
    else
      match MultiselectFilter(t, steps[0].col, steps[0].selected)
      case Err(e) => Err(e)
      case Ok(u) => ApplySteps(u, steps[1..])
  }

  /** The assignment at the heart of the form submission: the age query, then
      the eight categorical filters. */
  function Pipeline(t: Table, f: Form): Result<Table>
    requires Valid(t)
  {
    ApplySteps(AgeQuery(t, f.ageRange.0, f.ageRange.1), Steps(f))
  }

  /** A step is active when "all" is not among its selected values. */
  predicate Active(s: Step)
  {
    Sentinel !in s.selected
  }

  /** Step `i` is active and names a column the table lacks. */
  predicate MissingAt(columns: set<string>, steps: seq<Step>, i: int)
    requires 0 <= i < |steps|
  {
    Active(steps[i]) && steps[i].col !in columns
  }

  /** The mask predicates of the active steps. */
  function ActivePreds(steps: seq<Step>): seq<Pred>
    decreases |steps|
  {
    if |steps| == 0 then []
    else if Active(steps[0]) then [CellIn(steps[0].col, steps[0].selected)] + ActivePreds(steps[1..])
    else ActivePreds(steps[1..])
  }

  /** Whether a row gets past step `s`: its filter is off, or it holds a
      selected value in that column. */
  predicate Passes(s: Step, x: Row)
  {
    !Active(s) || (s.col in x.cells && x.cells[s.col] in s.selected)
  }

  lemma {:induction false} ActivePredsHold(steps: seq<Step>, x: Row)
    ensures HoldsAll(ActivePreds(steps), x) <==> forall i :: 0 <= i < |steps| ==> Passes(steps[i], x)
    decreases |steps|
  {
    if |steps| > 0 {
      var rest := steps[1..];
      ActivePredsHold(rest, x);
      if Active(steps[0]) {
        var p := CellIn(steps[0].col, steps[0].selected);
        HoldsAllAppend([p], ActivePreds(rest), x);
        HoldsAllSingle(p, x);
      }
      assert HoldsAll(ActivePreds(steps), x) <==> Passes(steps[0], x) && HoldsAll(ActivePreds(rest), x);
      assert (forall i :: 0 <= i < |steps| ==> Passes(steps[i], x)) <==>
        Passes(steps[0], x) && forall i :: 0 <= i < |rest| ==> Passes(rest[i], x)
      by {
        assert forall i :: 0 < i < |steps| ==> steps[i] == rest[i - 1];
      }
    }
  }

  /** What running the steps does, by induction over the chain: it fails
      exactly when an active step names a missing column, and then with the
      first such column; otherwise it keeps the rows that pass every active
      step, and the labels are fresh once any step was active, untouched if
      none was. */
  lemma {:induction false} ApplyStepsSpec(t: Table, steps: seq<Step>)
    requires Valid(t)
    ensures var r := ApplySteps(t, steps);
      && (r.Err? <==> exists i :: 0 <= i < |steps| && MissingAt(t.columns, steps, i))
      && (r.Err? ==> exists i :: (0 <= i < |steps| && MissingAt(t.columns, steps, i)
            && r.error == UnknownColumn(steps[i].col)
            && forall j :: 0 <= j < i ==> !MissingAt(t.columns, steps, j)))
      && (r.Ok? ==> r.value.rows == Keep(t.rows, ActivePreds(steps)))
      && (r.Ok? && (exists i :: 0 <= i < |steps| && Active(steps[i])) ==>
            r.value.index == Range(|r.value.rows|))
      && (r.Ok? && (forall i :: 0 <= i < |steps| ==> !Active(steps[i])) ==> r.value == t)
    decreases |steps|
  {
    if |steps| == 0 {
      KeepNoPreds(t.rows);
    } else {
      var s, rest := steps[0], steps[1..];
      assert forall i :: 0 < i < |steps| ==> steps[i] == rest[i - 1];
      var first := MultiselectFilter(t, s.col, s.selected);
      if first.Err? {
        assert MissingAt(t.columns, steps, 0);
      } else {
        var u := first.value;
        ApplyStepsSpec(u, rest);
        var r := ApplySteps(u, rest);
        assert ApplySteps(t, steps) == r;
        assert !MissingAt(t.columns, steps, 0);
        if (exists i :: 0 <= i < |steps| && MissingAt(t.columns, steps, i)) {
          var i :| 0 <= i < |steps| && MissingAt(t.columns, steps, i);
          assert MissingAt(u.columns, rest, i - 1);
        }
        if r.Err? {
          var i :| 0 <= i < |rest| && MissingAt(u.columns, rest, i)
            && r.error == UnknownColumn(rest[i].col)
            && forall j :: 0 <= j < i ==> !MissingAt(u.columns, rest, j);
          assert MissingAt(t.columns, steps, i + 1);
          forall j | 0 <= j < i + 1
            ensures !MissingAt(t.columns, steps, j)
          {
            if j > 0 {
              assert !MissingAt(u.columns, rest, j - 1);
            }
          }
        } else {
          if Active(s) {
            KeepKeep(t.rows, [CellIn(s.col, s.selected)], ActivePreds(rest));
            if !exists i :: 0 <= i < |rest| && Active(rest[i]) {
              assert r.value == u;
            }
          } else {
            assert u == t;
            if exists i :: 0 <= i < |steps| && Active(steps[i]) {
              var i :| 0 <= i < |steps| && Active(steps[i]);
              assert Active(rest[i - 1]);
            }
          }
        }
      }
    }
  }

  // ---------------------------------------------------------------------
  // What the pipeline promises

  /** The row predicate the whole pipeline stands for, read off the form:
      the inclusive age range and, for each of the eight columns whose
      selection does not contain "all", membership of the row's value. */
  predicate Admits(f: Form, x: Row)
  {
    && f.ageRange.0 <= x.age <= f.ageRange.1
    && Passes(Step("job", f.jobs), x)
    && Passes(Step("marital", f.marital), x)
    && Passes(Step("default", f.default), x)
    && Passes(Step("housing", f.housing), x)
    && Passes(Step("loan", f.loan), x)
    && Passes(Step("contact", f.contact), x)
    && Passes(Step("month", f.month), x)
    && Passes(Step("day_of_week", f.day), x)
  }

  /** The mask the pipeline applies in the end. */
  function PipelinePreds(f: Form): seq<Pred>
  {
    [AgeBetween(f.ageRange.0, f.ageRange.1)] + ActivePreds(Steps(f))
  }

  lemma PipelinePredsHold(f: Form, x: Row)
    ensures HoldsAll(PipelinePreds(f), x) <==> Admits(f, x)
  {
    HoldsAllAppend([AgeBetween(f.ageRange.0, f.ageRange.1)], ActivePreds(Steps(f)), x);
    HoldsAllSingle(AgeBetween(f.ageRange.0, f.ageRange.1), x);
    ActivePredsHold(Steps(f), x);
    var st := Steps(f);
    if Admits(f, x) {
      assert forall i :: 0 <= i < |st| ==> Passes(st[i], x) by {
        assert st == [st[0], st[1], st[2], st[3], st[4], st[5], st[6], st[7]];
      }
    }
    if forall i :: 0 <= i < |st| ==> Passes(st[i], x) {
      assert Passes(st[0], x) && Passes(st[1], x) && Passes(st[2], x) && Passes(st[3], x);
      assert Passes(st[4], x) && Passes(st[5], x) && Passes(st[6], x) && Passes(st[7], x);
    }
  }

  /** The pipeline's rows are what one mask by all of its predicates keeps. */
  lemma PipelineKeeps(t: Table, f: Form)
    requires Valid(t) && Pipeline(t, f).Ok?
    ensures Pipeline(t, f).value.rows == Keep(t.rows, PipelinePreds(f))
  {
    var q := AgeQuery(t, f.ageRange.0, f.ageRange.1);
    ApplyStepsSpec(q, Steps(f));
    KeepKeep(t.rows, [AgeBetween(f.ageRange.0, f.ageRange.1)], ActivePreds(Steps(f)));
  }

  /** The filtered table holds exactly the input rows that the form admits,
      each as often as in the input, in input order, and is never longer. */
  lemma PipelineSelects(t: Table, f: Form)
    requires Valid(t) && Pipeline(t, f).Ok?
    ensures var u := Pipeline(t, f).value;
      && (forall x :: x in u.rows <==> x in t.rows && Admits(f, x))
      && (forall x :: multiset(u.rows)[x] == if Admits(f, x) then multiset(t.rows)[x] else 0)
      && IsSubseq(u.rows, t.rows)
      && |u.rows| <= |t.rows|
  {
    PipelineKeeps(t, f);
    forall x
      ensures x in Keep(t.rows, PipelinePreds(f)) <==> x in t.rows && Admits(f, x)
      ensures multiset(Keep(t.rows, PipelinePreds(f)))[x] ==
        if Admits(f, x) then multiset(t.rows)[x] else 0
    {
      PipelinePredsHold(f, x);
      KeepMembers(t.rows, PipelinePreds(f), x);
      KeepMultiplicity(t.rows, PipelinePreds(f), x);
    }
    KeepIsSubseq(t.rows, PipelinePreds(f));
  }

  /** The pipeline fails exactly when a filter whose selection lacks "all"
      names a column the table does not have; it reports the first one. */
  lemma PipelineFails(t: Table, f: Form)
    requires Valid(t)
    ensures var r := Pipeline(t, f);
      && (r.Err? <==> exists i :: 0 <= i < 8 && MissingAt(t.columns, Steps(f), i))
      && (r.Err? ==> exists i :: (0 <= i < 8 && MissingAt(t.columns, Steps(f), i)
            && r.error == UnknownColumn(Steps(f)[i].col)
            && forall j :: 0 <= j < i ==> !MissingAt(t.columns, Steps(f), j)))
  {
    ApplyStepsSpec(AgeQuery(t, f.ageRange.0, f.ageRange.1), Steps(f));
  }

  /** Row labels after the pipeline: fresh 0 .. n-1 once any filter was
      active; otherwise the table is exactly the age query's, labels included. */
  lemma PipelineLabels(t: Table, f: Form)
    requires Valid(t) && Pipeline(t, f).Ok?
    ensures var u := Pipeline(t, f).value;
      && ((exists i :: 0 <= i < 8 && Active(Steps(f)[i])) ==> u.index == Range(|u.rows|))
      && ((forall i :: 0 <= i < 8 ==> !Active(Steps(f)[i])) ==>
            u == AgeQuery(t, f.ageRange.0, f.ageRange.1))
  {
    ApplyStepsSpec(AgeQuery(t, f.ageRange.0, f.ageRange.1), Steps(f));
  }

  /** The default selection of every multiselect. */
  const DefaultSelection: seq<string> := [Sentinel]

  predicate AllDefault(f: Form)
  {
    && f.jobs == DefaultSelection && f.marital == DefaultSelection
    && f.default == DefaultSelection && f.housing == DefaultSelection
    && f.loan == DefaultSelection && f.contact == DefaultSelection
    && f.month == DefaultSelection && f.day == DefaultSelection
  }

  /** With every multiselect left at its default, the pipeline is the age
      query alone, and cannot fail. */
  lemma PipelineDefaults(t: Table, f: Form)
    requires Valid(t) && AllDefault(f)
    ensures Pipeline(t, f) == Ok(AgeQuery(t, f.ageRange.0, f.ageRange.1))
  {
    var st := Steps(f);
    assert forall i :: 0 <= i < 8 ==> !Active(st[i]) by {
      assert st == [st[0], st[1], st[2], st[3], st[4], st[5], st[6], st[7]];
    }
    ApplyStepsSpec(AgeQuery(t, f.ageRange.0, f.ageRange.1), st);
  }

  /** Submitting the same form again on the filtered table changes nothing. */
  lemma PipelineIdempotent(t: Table, f: Form)
    requires Valid(t) && Pipeline(t, f).Ok?
    ensures Pipeline(Pipeline(t, f).value, f) == Pipeline(t, f)
  {
    var u := Pipeline(t, f).value;
    var ps := PipelinePreds(f);
    PipelineFails(t, f);
    PipelineFails(u, f);
    var v := Pipeline(u, f).value;
    PipelineKeeps(t, f);
    PipelineKeeps(u, f);
    forall x | x in u.rows
      ensures HoldsAll(ps, x)
    {
      KeepMembers(t.rows, ps, x);
    }
    KeepAllPass(u.rows, ps);
    PipelineLabels(t, f);
    PipelineLabels(u, f);
    if forall i :: 0 <= i < 8 ==> !Active(Steps(f)[i]) {
      var age := [AgeBetween(f.ageRange.0, f.ageRange.1)];
      var q := AgeQuery(t, f.ageRange.0, f.ageRange.1);
      forall x | x in q.rows
        ensures HoldsAll(age, x)
      {
        KeepMembers(t.rows, age, x);
      }
      KeepLabelsAllPass(q.index, q.rows, age);
      KeepAllPass(q.rows, age);
    }
  }

  /** `narrow` selects a subset of what `wide` selects in one column. */
  predicate NarrowerStep(narrow: seq<string>, wide: seq<string>)
  {
    Sentinel in wide || (Sentinel !in narrow && forall v :: v in narrow ==> v in wide)
  }

  /** Form `g` is at least as restrictive as form `f` in every control. */
  predicate Narrower(g: Form, f: Form)
  {
    && f.ageRange.0 <= g.ageRange.0 && g.ageRange.1 <= f.ageRange.1
    && NarrowerStep(g.jobs, f.jobs) && NarrowerStep(g.marital, f.marital)
    && NarrowerStep(g.default, f.default) && NarrowerStep(g.housing, f.housing)
    && NarrowerStep(g.loan, f.loan) && NarrowerStep(g.contact, f.contact)
    && NarrowerStep(g.month, f.month) && NarrowerStep(g.day, f.day)
  }

  /** A more restrictive form yields a subsequence of the rows, so never
      more rows. */
  lemma PipelineMonotone(t: Table, g: Form, f: Form)
    requires Valid(t) && Narrower(g, f) && Pipeline(t, g).Ok? && Pipeline(t, f).Ok?
    ensures IsSubseq(Pipeline(t, g).value.rows, Pipeline(t, f).value.rows)
    ensures |Pipeline(t, g).value.rows| <= |Pipeline(t, f).value.rows|
  {
    PipelineKeeps(t, g);
    PipelineKeeps(t, f);
    forall x | x in t.rows && HoldsAll(PipelinePreds(g), x)
      ensures HoldsAll(PipelinePreds(f), x)
    {
      PipelinePredsHold(g, x);
      PipelinePredsHold(f, x);
    }
    KeepStricter(t.rows, PipelinePreds(g), PipelinePreds(f));
    SubseqLength(Pipeline(t, g).value.rows, Pipeline(t, f).value.rows);
  }

  /** Ten rows aged 20, 25, ..., 65. */
  const TenAges := [20, 25, 30, 35, 40, 45, 50, 55, 60, 65]

  function AgeRow(age: int): Row
  {
    Row(age, map[])
  }

  /** The range [30, 50] keeps the five rows aged 30 to 50, inclusive at both
      ends, under their original labels 2 to 6. */
  lemma AgeRangeExample()
    ensures var t := Table({}, Range(10), seq(10, i requires 0 <= i < 10 => AgeRow(TenAges[i])));
      var u := AgeQuery(t, 30, 50);
      u.rows == [AgeRow(30), AgeRow(35), AgeRow(40), AgeRow(45), AgeRow(50)] && u.index == [2, 3, 4, 5, 6]
  {
    var rows := seq(10, i requires 0 <= i < 10 => AgeRow(TenAges[i]));
    var idx := Range(10);
    var p := [AgeBetween(30, 50)];
    forall x
      ensures HoldsAll(p, x) <==> 30 <= x.age <= 50
    {
      HoldsAllSingle(p[0], x);
    }
    var young, mid, older := rows[..2], rows[2..7], rows[7..];
    assert rows == young + mid + older;
    assert idx == idx[..2] + idx[2..7] + idx[7..];
    assert mid == [AgeRow(30), AgeRow(35), AgeRow(40), AgeRow(45), AgeRow(50)];
    assert idx[2..7] == [2, 3, 4, 5, 6];
    KeepNonePass(young, p);
    KeepAllPass(mid, p);
    KeepNonePass(older, p);
    KeepLabelsAllPass(idx[2..7], mid, p);
    KeepAppend(young + mid, older, p);
    KeepAppend(young, mid, p);
    KeepLabelsAppend(idx[..2] + idx[2..7], young + mid, idx[7..], older, p);
    KeepLabelsAppend(idx[..2], young, idx[2..7], mid, p);
  }
}
