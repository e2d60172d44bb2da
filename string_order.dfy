/** Python's ordering of `str` values and `sorted(...)` of the distinct values
    of a column. Python compares strings code point by code point, and a proper
    prefix sorts before any of its extensions. */
module StringOrder {

  /** `a < b` on Python strings. */
  predicate Less(a: string, b: string)
    decreases |a|
  {
    if |a| == 0 then |b| > 0
    else if |b| == 0 then false
    else if a[0] != b[0] then a[0] < b[0]
    else Less(a[1..], b[1..])
  }

  lemma {:induction false} LessIrreflexive(a: string)
    ensures !Less(a, a)
  {
    if |a| > 0 {
      LessIrreflexive(a[1..]);
    }
  }

  lemma {:induction false} LessTransitive(a: string, b: string, c: string)
    requires Less(a, b) && Less(b, c)
    ensures Less(a, c)
  {
    if |a| > 0 && a[0] == b[0] && b[0] == c[0] {
      LessTransitive(a[1..], b[1..], c[1..]);
    }
  }

  lemma {:induction false} LessTotal(a: string, b: string)
    requires a != b
    ensures Less(a, b) || Less(b, a)
  {
    if |a| > 0 && |b| > 0 && a[0] == b[0] {
      assert a == [a[0]] + a[1..] && b == [b[0]] + b[1..];
      LessTotal(a[1..], b[1..]);
    }
  }

  lemma LessAsymmetric(a: string, b: string)
    requires Less(a, b)
    ensures !Less(b, a)
  {
    if Less(b, a) {
      LessTransitive(a, b, a);
      LessIrreflexive(a);
    }
  }

  /** Every later element is strictly greater: sorted and free of duplicates. */
  predicate StrictlySorted(s: seq<string>)
  {
    forall i, j :: 0 <= i < j < |s| ==> Less(s[i], s[j])
  }

  predicate Distinct(s: seq<string>)
  {
    forall i, j :: 0 <= i < j < |s| ==> s[i] != s[j]
  }

  lemma StrictlySortedIsDistinct(s: seq<string>)
    requires StrictlySorted(s)
    ensures Distinct(s)
  {
    forall i, j | 0 <= i < j < |s|
      ensures s[i] != s[j]
    {
      LessIrreflexive(s[i]);
    }
  }

  /** `x` is below every element of `s`. */
  predicate Below(x: string, s: seq<string>)
  {
    forall j :: 0 <= j < |s| ==> Less(x, s[j])
  }

  lemma BelowHead(x: string, s: seq<string>)
    requires StrictlySorted(s) && |s| > 0 && Less(x, s[0])
    ensures Below(x, s)
  {
    forall j | 0 < j < |s|
      ensures Less(x, s[j])
    {
      LessTransitive(x, s[0], s[j]);
    }
  }

  /** Inserts `x` into a strictly sorted list unless it is already there. */
  function InsertNew(x: string, s: seq<string>): (r: seq<string>)
    requires StrictlySorted(s)
    ensures StrictlySorted(r)
    ensures forall y :: y in r <==> y == x || y in s
    decreases |s|
  {
    if |s| == 0 then [x]
    else if x == s[0] then s
    else if Less(x, s[0]) then
      BelowHead(x, s);
      [x] + s
    else
      LessTotal(x, s[0]);
      var rest := InsertNew(x, s[1..]);
      assert Below(s[0], rest) by {
        forall j | 0 <= j < |rest|
          ensures Less(s[0], rest[j])
        {
          assert rest[j] in rest;
          if rest[j] != x {
            var k :| 0 <= k < |s[1..]| && s[1..][k] == rest[j];
            assert s[k + 1] == rest[j];
          }
        }
      }
      [s[0]] + rest
  }

  /** `sorted(set(vals))`: the distinct values of `vals` in ascending order. */
  function SortedDistinct(vals: seq<string>): (r: seq<string>)
    ensures StrictlySorted(r)
    ensures forall y :: y in r <==> y in vals
    ensures |r| <= |vals|
    decreases |vals|
  {
    if |vals| == 0 then []
    else
      var rest := SortedDistinct(vals[1..]);
      assert vals == [vals[0]] + vals[1..];
      var r := InsertNew(vals[0], rest);
      assert |r| <= |vals| by {
        if vals[0] !in rest {
          InsertNewLength(vals[0], rest);
        } else {
          InsertExisting(vals[0], rest);
        }
      }
      r
  }

  lemma {:induction false} InsertNewLength(x: string, s: seq<string>)
    requires StrictlySorted(s) && x !in s
    ensures |InsertNew(x, s)| == |s| + 1
    decreases |s|
  {
    if |s| > 0 && x != s[0] && !Less(x, s[0]) {
      InsertNewLength(x, s[1..]);
    }
  }

  lemma {:induction false} InsertExisting(x: string, s: seq<string>)
    requires StrictlySorted(s) && x in s
    ensures InsertNew(x, s) == s
    decreases |s|
  {
    if x != s[0] {
      if Less(x, s[0]) {
        var k :| 0 <= k < |s| && s[k] == x;
        LessAsymmetric(s[0], x);
      } else {
        assert x in s[1..] by {
          var k :| 0 <= k < |s| && s[k] == x;
          assert s[1..][k - 1] == x;
        }
        InsertExisting(x, s[1..]);
        assert s == [s[0]] + s[1..];
      }
    }
  }

  /** A strictly sorted list is determined by its elements: whatever list of
      distinct values a correct `sorted` produces, it is the one above. */
  lemma {:induction false} StrictlySortedUnique(a: seq<string>, b: seq<string>)
    requires StrictlySorted(a) && StrictlySorted(b)
    requires forall y :: y in a <==> y in b
    ensures a == b
    decreases |a|
  {
    assert |b| == 0 || b[0] in a;
    if |a| > 0 {
      assert a[0] in a;
      assert |b| > 0;
      assert b[0] in b;
      var k :| 0 <= k < |b| && b[k] == a[0];
      var m :| 0 <= m < |a| && a[m] == b[0];
      if k > 0 {
        if m > 0 {
          LessAsymmetric(a[0], a[m]);
        } else {
          LessIrreflexive(a[0]);
        }
      }
      assert a[0] == b[0];
      forall y
        ensures y in a[1..] <==> y in b[1..]
      {
        TailMembers(a, y);
        TailMembers(b, y);
      }
      StrictlySortedUnique(a[1..], b[1..]);
      assert a == [a[0]] + a[1..] && b == [b[0]] + b[1..];
    }
  }

  lemma TailMembers(s: seq<string>, y: string)
    requires StrictlySorted(s) && |s| > 0
    ensures y in s[1..] <==> y in s && y != s[0]
  {
    if y in s[1..] {
      var k :| 0 <= k < |s[1..]| && s[1..][k] == y;
      assert s[k + 1] == y;
      LessIrreflexive(s[0]);
    }
    if y in s && y != s[0] {
      var k :| 0 <= k < |s| && s[k] == y;
      assert s[1..][k - 1] == y;
    }
  }
}
