/** The outcome distribution shown before and after filtering:
    `df.y.value_counts(normalize=True).mul(100).sort_index()`, as exact
    percentages of integer counts. */
module Proportions {
  import opened StringOrder
  import opened Frame

  /** One row of the percentage table: a distinct value and its share. */
  datatype Share = Share(value: string, percent: real)

  /** How many of `vals` equal `v`. */
  function Count(vals: seq<string>, v: string): nat
  {
    multiset(vals)[v]
  }

  /** `100 * count / total`. */
  function Ratio(count: nat, total: nat): real
    requires total > 0
  {
    100.0 * (count as real) / (total as real)
  }

  function Percent(vals: seq<string>, v: string): real
    requires |vals| > 0
  {
    Ratio(Count(vals, v), |vals|)
  }

  /** The share of each key in `vals`; nothing when `vals` is empty. */
  function Shares(keys: seq<string>, vals: seq<string>): (r: seq<Share>)
    ensures |vals| == 0 ==> r == []
    ensures |vals| > 0 ==> |r| == |keys|
    ensures |vals| > 0 ==> forall i :: 0 <= i < |r| ==> r[i] == Share(keys[i], Percent(vals, keys[i]))
    decreases |keys|
  {
    if |keys| == 0 || |vals| == 0 then []
    else [Share(keys[0], Percent(vals, keys[0]))] + Shares(keys[1..], vals)
  }

  function Keys(shares: seq<Share>): (r: seq<string>)
    ensures |r| == |shares|
    ensures forall i :: 0 <= i < |r| ==> r[i] == shares[i].value
  {
    seq(|shares|, i requires 0 <= i < |shares| => shares[i].value)
  }

  /** The sum of the percentages. */
  function Total(shares: seq<Share>): real
    decreases |shares|
  {
    if |shares| == 0 then 0.0 else shares[0].percent + Total(shares[1..])
  }

  /** The percentage table of column `col`: one entry per distinct value,
      in ascending order of value, each holding 100 times its count over the
      row count; empty for an empty table. Reading `df.<col>` fails when the
      table has no such column. */
  function Distribution(t: Table, col: string): (r: Result<seq<Share>>)
    requires Valid(t)
    ensures r.Err? <==> col !in t.columns
    ensures r.Err? ==> r.error == UnknownColumn(col)
    ensures r.Ok? ==> (r.value == [] <==> |t.rows| == 0)
    ensures r.Ok? ==> StrictlySorted(Keys(r.value))
    ensures r.Ok? ==> forall v :: v in Keys(r.value) <==> v in Column(t.rows, col)
    ensures r.Ok? ==> forall i :: 0 <= i < |r.value| ==>
      && r.value[i].percent == Percent(Column(t.rows, col), r.value[i].value)
      && 0.0 < r.value[i].percent <= 100.0
  {
    if col !in t.columns then Err(UnknownColumn(col))
    else
      var vals := Column(t.rows, col);
      var keys := SortedDistinct(vals);
      var shares := Shares(keys, vals);
      assert Keys(shares) == (if |vals| == 0 then [] else keys);
      assert |vals| > 0 ==> vals[0] in keys;
      assert forall i :: 0 <= i < |shares| ==> 0.0 < shares[i].percent <= 100.0 by {
        forall i | 0 <= i < |shares|
          ensures 0.0 < shares[i].percent <= 100.0
        {
          PercentBounds(vals, keys[i]);
        }
      }
      Ok(shares)
  }

  lemma PercentBounds(vals: seq<string>, v: string)
    requires |vals| > 0 && v in vals
    ensures 0.0 < Percent(vals, v) <= 100.0
  {
    var c, n := Count(vals, v) as real, |vals| as real;
    assert 0.0 < c <= n by {
      assert multiset(vals)[v] <= |multiset(vals)|;
    }
    assert 100.0 * c / n <= 100.0 * n / n;
  }

  // ---------------------------------------------------------------------
  // The percentages sum to 100

  /** The counts of all the keys, added up. */
  function CountAll(keys: seq<string>, vals: seq<string>): nat
    decreases |keys|
  {
    if |keys| == 0 then 0 else Count(vals, keys[0]) + CountAll(keys[1..], vals)
  }

  /** One more value adds one to the total count exactly when it is a key. */
  lemma {:induction false} CountAllCons(keys: seq<string>, v: string, rest: seq<string>)
    requires Distinct(keys)
    ensures CountAll(keys, [v] + rest) == CountAll(keys, rest) + if v in keys then 1 else 0
    decreases |keys|
  {
    if |keys| > 0 {
      assert Distinct(keys[1..]);
      CountAllCons(keys[1..], v, rest);
      assert multiset([v] + rest) == multiset{v} + multiset(rest);
      assert v in keys <==> v == keys[0] || v in keys[1..] by {
        assert keys == [keys[0]] + keys[1..];
      }
      if v == keys[0] {
        assert v !in keys[1..] by {
          forall j | 0 <= j < |keys[1..]|
            ensures keys[1..][j] != v
          {
            assert keys[1..][j] == keys[j + 1];
          }
        }
      }
    }
  }

  /** Counting every value of `vals` under distinct keys that cover them all
      counts each row once. */
  lemma {:induction false} CountAllCovers(keys: seq<string>, vals: seq<string>)
    requires Distinct(keys) && forall v :: v in vals ==> v in keys
    ensures CountAll(keys, vals) == |vals|
    decreases |vals|
  {
    if |vals| == 0 {
      CountAllEmpty(keys);
    } else {
      assert vals == [vals[0]] + vals[1..];
      assert vals[0] in vals;
      CountAllCovers(keys, vals[1..]);
      CountAllCons(keys, vals[0], vals[1..]);
    }
  }

  lemma {:induction false} CountAllEmpty(keys: seq<string>)
    ensures CountAll(keys, []) == 0
    decreases |keys|
  {
    if |keys| > 0 {
      CountAllEmpty(keys[1..]);
    }
  }

  /** The percentages add up to 100 times the counts over the total. */
  lemma {:induction false} TotalShares(keys: seq<string>, vals: seq<string>)
    requires |vals| > 0
    ensures Total(Shares(keys, vals)) == Ratio(CountAll(keys, vals), |vals|)
    decreases |keys|
  {
    if |keys| > 0 {
      TotalShares(keys[1..], vals);
      RatioAdd(Count(vals, keys[0]), CountAll(keys[1..], vals), |vals|);
    }
  }

  lemma RatioAdd(a: nat, b: nat, n: nat)
    requires n > 0
    ensures Ratio(a, n) + Ratio(b, n) == Ratio(a + b, n)
  {
  }

  /** The percentage table of a non-empty table sums to exactly 100. */
  lemma DistributionSumsTo100(t: Table, col: string)
    requires Valid(t) && col in t.columns && |t.rows| > 0
    ensures Total(Distribution(t, col).value) == 100.0
  {
    var vals := Column(t.rows, col);
    assert Distribution(t, col).value == Shares(SortedDistinct(vals), vals);
    SharesSumTo100(vals);
  }

  lemma SharesSumTo100(vals: seq<string>)
    requires |vals| > 0
    ensures Total(Shares(SortedDistinct(vals), vals)) == 100.0
  {
    var keys := SortedDistinct(vals);
    StrictlySortedIsDistinct(keys);
    CountAllCovers(keys, vals);
    TotalShares(keys, vals);
    HundredPercent(|vals|);
  }

  lemma FiveRowShares()
    ensures Ratio(3, 5) == 60.0 && Ratio(2, 5) == 40.0
  {
  }

  lemma HundredPercent(n: nat)
    requires n > 0
    ensures Ratio(n, n) == 100.0
  {
  }

  /** Five rows whose outcomes are `yes, no, no, yes, no`. */
  const OutcomeRows := [Row(30, map["y" := "yes"]), Row(31, map["y" := "no"]), Row(32, map["y" := "no"]),
                        Row(33, map["y" := "yes"]), Row(34, map["y" := "no"])]

  /** These outcomes give 60 percent "no" and 40 percent "yes", "no" first. */
  lemma OutcomeExample()
    ensures Distribution(Table({"y"}, [0, 1, 2, 3, 4], OutcomeRows), "y") ==
      Ok([Share("no", 60.0), Share("yes", 40.0)])
  {
    var t := Table({"y"}, [0, 1, 2, 3, 4], OutcomeRows);
    assert Valid(t);
    var vals := Column(OutcomeRows, "y");
    OutcomeValues();
    OutcomeKeys();
    OutcomeShares();
    assert Distribution(t, "y") == Ok(Shares(SortedDistinct(vals), vals));
  }

  lemma OutcomeValues()
    ensures Column(OutcomeRows, "y") == ["yes", "no", "no", "yes", "no"]
  {
  }

  lemma OutcomeKeys()
    ensures SortedDistinct(["yes", "no", "no", "yes", "no"]) == ["no", "yes"]
  {
    assert Less("no", "yes");
    assert StrictlySorted(["no", "yes"]);
    StrictlySortedUnique(SortedDistinct(["yes", "no", "no", "yes", "no"]), ["no", "yes"]);
  }

  lemma OutcomeShares()
    ensures Shares(["no", "yes"], ["yes", "no", "no", "yes", "no"]) == [Share("no", 60.0), Share("yes", 40.0)]
  {
    var vals := ["yes", "no", "no", "yes", "no"];
    assert multiset(vals) == multiset{"yes", "no", "no", "yes", "no"};
    assert Count(vals, "no") == 3 && Count(vals, "yes") == 2;
    FiveRowShares();
    assert Percent(vals, "no") == 60.0;
    assert Percent(vals, "yes") == 40.0;
    assert Shares(["no", "yes"], vals) == [Share("no", 60.0)] + Shares(["yes"], vals);
    assert Shares(["yes"], vals) == [Share("yes", 40.0)];
  }
}
