/** The two charts' data: `value_counts()` over the `violation` and the
    `driver_gender` columns, as (value, count) pairs. */
module Grouping {
  import opened Wrappers
  import opened Records

  /** One row of `value_counts().reset_index()`: a value and how often it occurs. */
  datatype Bucket = Bucket(value: string, count: nat)

  /** The sum of the counts. */
  function Total(b: seq<Bucket>): (n: nat)
  {
    if |b| == 0 then 0 else b[0].count + Total(b[1..])
  }

  /** The values the buckets hold. */
  ghost function ValuesOf(b: seq<Bucket>): (vs: set<string>)
  {
    set i | 0 <= i < |b| :: b[i].value
  }

  ghost predicate DistinctValues(b: seq<Bucket>)
  {
    forall i, j :: 0 <= i < j < |b| ==> b[i].value != b[j].value
  }

  /** Counts in non-increasing order, the default ordering of `value_counts()`. */
  ghost predicate NonIncreasing(b: seq<Bucket>)
  {
    forall i, j :: 0 <= i < j < |b| ==> b[i].count >= b[j].count
  }

  lemma ValuesOfCons(x: Bucket, t: seq<Bucket>)
    ensures ValuesOf([x] + t) == {x.value} + ValuesOf(t)
  {
    var r := [x] + t;
    forall v ensures v in ValuesOf(r) <==> v in {x.value} + ValuesOf(t) {
      assert r[0] == x;
      if v in ValuesOf(r) {
        var i :| 0 <= i < |r| && r[i].value == v;
        if i > 0 {
          assert t[i - 1] == r[i];
        }
      }
      if v in ValuesOf(t) {
        var i :| 0 <= i < |t| && t[i].value == v;
        assert r[i + 1] == t[i];
      }
    }
  }

  lemma ValuesOfSnoc(t: seq<Bucket>, x: Bucket)
    ensures ValuesOf(t + [x]) == ValuesOf(t) + {x.value}
  {
    var r := t + [x];
    forall v ensures v in ValuesOf(r) <==> v in ValuesOf(t) + {x.value} {
      assert r[|t|] == x;
      if v in ValuesOf(r) {
        var i :| 0 <= i < |r| && r[i].value == v;
        if i < |t| {
          assert t[i] == r[i];
        }
      }
      if v in ValuesOf(t) {
        var i :| 0 <= i < |t| && t[i].value == v;
        assert r[i] == t[i];
      }
    }
  }

  lemma DistinctCons(x: Bucket, t: seq<Bucket>)
    ensures DistinctValues(t) && x.value !in ValuesOf(t) ==> DistinctValues([x] + t)
  {
    var r := [x] + t;
    if DistinctValues(t) && x.value !in ValuesOf(t) {
      forall i, j | 0 <= i < j < |r| ensures r[i].value != r[j].value {
        assert r[j] == t[j - 1];
        if i > 0 {
          assert r[i] == t[i - 1];
        }
      }
    }
  }

  /** `b` is a value count of the nullable column `col`: one pair per distinct
      present value, each with that value's number of occurrences, the counts
      adding up to the number of present values, largest count first. */
  ghost predicate IsValueCounts(col: seq<Option<string>>, b: seq<Bucket>)
  {
    && DistinctValues(b)
    && (forall v :: v in ValuesOf(b) <==> Some(v) in col)
    && (forall x :: x in b ==> x.count == multiset(col)[Some(x.value)] && x.count >= 1)
    && Total(b) == |col| - multiset(col)[None]
    && NonIncreasing(b)
  }

  lemma {:induction false} TotalAppend(b: seq<Bucket>, x: Bucket)
    ensures Total(b + [x]) == Total(b) + x.count
  {
    if |b| > 0 {
      assert (b + [x])[1..] == b[1..] + [x];
      TotalAppend(b[1..], x);
    }
  }

  lemma {:induction false} TotalIncrement(b: seq<Bucket>, k: nat)
    requires k < |b|
    ensures Total(b[k := Bucket(b[k].value, b[k].count + 1)]) == Total(b) + 1
  {
    if k > 0 {
      assert b[k := Bucket(b[k].value, b[k].count + 1)][1..] ==
             b[1..][k - 1 := Bucket(b[k].value, b[k].count + 1)];
      TotalIncrement(b[1..], k - 1);
    }
  }

  /** Position of the bucket holding `v`, or `|b|` when there is none. */
  function Find(b: seq<Bucket>, v: string): (k: nat)
    ensures k <= |b|
    ensures k < |b| ==> b[k].value == v
    ensures k == |b| ==> v !in ValuesOf(b)
  {
    if |b| == 0 then 0
    else if b[0].value == v then 0
    else
      assert ValuesOf(b) == {b[0].value} + ValuesOf(b[1..]);
      Find(b[1..], v) + 1
  }

  /** `b` holds the value counts of the first `i` entries of `col`, in order of
      first appearance. */
  ghost predicate CountsPrefix(col: seq<Option<string>>, i: nat, b: seq<Bucket>)
    requires i <= |col|
  {
    && DistinctValues(b)
    && (forall v :: v in ValuesOf(b) <==> Some(v) in col[..i])
    && (forall x :: x in b ==> x.count == multiset(col[..i])[Some(x.value)] && x.count >= 1)
    && Total(b) == i - multiset(col[..i])[None]
  }

  /** Extending a prefix of the column by its next entry. */
  lemma PrefixSnoc(col: seq<Option<string>>, i: nat)
    requires i < |col|
    ensures multiset(col[..i + 1]) == multiset(col[..i]) + multiset{col[i]}
    ensures forall v :: Some(v) in col[..i + 1] <==> Some(v) in col[..i] || col[i] == Some(v)
  {
    assert col[..i + 1] == col[..i] + [col[i]];
  }

  /** A null entry leaves the buckets unchanged. */
  lemma SkipNone(col: seq<Option<string>>, i: nat, b: seq<Bucket>)
    requires i < |col| && col[i].None? && CountsPrefix(col, i, b)
    ensures CountsPrefix(col, i + 1, b)
  {
    PrefixSnoc(col, i);
  }

  /** A value already seen bumps its bucket's count. */
  lemma BumpBucket(col: seq<Option<string>>, i: nat, b: seq<Bucket>, k: nat)
    requires i < |col| && CountsPrefix(col, i, b)
    requires k < |b| && col[i] == Some(b[k].value)
    ensures CountsPrefix(col, i + 1, b[k := Bucket(b[k].value, b[k].count + 1)])
  {
    PrefixSnoc(col, i);
    var b' := b[k := Bucket(b[k].value, b[k].count + 1)];
    TotalIncrement(b, k);
    assert ValuesOf(b') == ValuesOf(b) && DistinctValues(b') by {
      assert forall j :: 0 <= j < |b| ==> b'[j].value == b[j].value;
    }
    BumpCounts(col, i, b, k);
  }

  /** The counts after bumping bucket `k`: only that value gained an entry. */
  lemma BumpCounts(col: seq<Option<string>>, i: nat, b: seq<Bucket>, k: nat)
    requires i < |col| && k < |b| && col[i] == Some(b[k].value) && DistinctValues(b)
    requires forall x :: x in b ==> x.count == multiset(col[..i])[Some(x.value)] && x.count >= 1
    requires multiset(col[..i + 1]) == multiset(col[..i]) + multiset{col[i]}
    ensures forall x :: x in b[k := Bucket(b[k].value, b[k].count + 1)] ==>
      x.count == multiset(col[..i + 1])[Some(x.value)] && x.count >= 1
  {
    var b' := b[k := Bucket(b[k].value, b[k].count + 1)];
    forall x | x in b'
      ensures x.count == multiset(col[..i + 1])[Some(x.value)] && x.count >= 1
    {
      var j :| 0 <= j < |b'| && b'[j] == x;
      if j != k {
        assert b[j] == x && x.value != b[k].value;
      } else {
        assert b[k] in b;
      }
    }
  }

  /** A value not seen before opens a new bucket with count one. */
  lemma OpenBucket(col: seq<Option<string>>, i: nat, b: seq<Bucket>, v: string)
    requires i < |col| && CountsPrefix(col, i, b)
    requires col[i] == Some(v) && v !in ValuesOf(b)
    ensures CountsPrefix(col, i + 1, b + [Bucket(v, 1)])
  {
    PrefixSnoc(col, i);
    TotalAppend(b, Bucket(v, 1));
    ValuesOfSnoc(b, Bucket(v, 1));
    var b' := b + [Bucket(v, 1)];
    forall x | x in b'
      ensures x.count == multiset(col[..i + 1])[Some(x.value)]
    {
      if x != Bucket(v, 1) {
        var j :| 0 <= j < |b'| && b'[j] == x;
        assert b[j] == x;
      }
    }
  }

  /** The hash-table pass of `value_counts()`: one bucket per distinct present
      value, in order of first appearance. */
  method CountValues(col: seq<Option<string>>) returns (b: seq<Bucket>)
    ensures DistinctValues(b)
    ensures forall v :: v in ValuesOf(b) <==> Some(v) in col
    ensures forall x :: x in b ==> x.count == multiset(col)[Some(x.value)] && x.count >= 1
    ensures Total(b) == |col| - multiset(col)[None]
  {
    b := [];
    var i := 0;
    while i < |col|
      invariant 0 <= i <= |col|
      invariant CountsPrefix(col, i, b)
    {
      match col[i] {
        case None =>
          SkipNone(col, i, b);
        case Some(v) =>
          var k := Find(b, v);
          if k < |b| {
            BumpBucket(col, i, b, k);
            b := b[k := Bucket(v, b[k].count + 1)];
          } else {
            OpenBucket(col, i, b, v);
            b := b + [Bucket(v, 1)];
          }
      }
      i := i + 1;
    }
    assert col[..i] == col;
  }

  /** Places `p` before the first bucket whose count it reaches. */
  function Insert(t: seq<Bucket>, p: Bucket): (r: seq<Bucket>)
    ensures |r| == |t| + 1
    ensures multiset(r) == multiset(t) + multiset{p}
    ensures ValuesOf(r) == ValuesOf(t) + {p.value}
    ensures Total(r) == Total(t) + p.count
    ensures NonIncreasing(t) ==> NonIncreasing(r)
    ensures DistinctValues(t) && p.value !in ValuesOf(t) ==> DistinctValues(r)
  {
    if |t| == 0 then
      ValuesOfCons(p, t);
      assert [p] + t == [p];
      [p]
    else if p.count >= t[0].count then
      ValuesOfCons(p, t);
      DistinctCons(p, t);
      [p] + t
    else
      var rest := Insert(t[1..], p);
      InsertBehindHead(t, p, rest);
      [t[0]] + rest
  }

  /** The recursive case of `Insert`: with `rest` the insertion of `p` into the
      tail, putting the head back in front completes the insertion into `t`. */
  lemma InsertBehindHead(t: seq<Bucket>, p: Bucket, rest: seq<Bucket>)
    requires |t| > 0 && p.count < t[0].count
    requires multiset(rest) == multiset(t[1..]) + multiset{p}
    requires ValuesOf(rest) == ValuesOf(t[1..]) + {p.value}
    requires Total(rest) == Total(t[1..]) + p.count
    requires NonIncreasing(t[1..]) ==> NonIncreasing(rest)
    requires DistinctValues(t[1..]) && p.value !in ValuesOf(t[1..]) ==> DistinctValues(rest)
    ensures multiset([t[0]] + rest) == multiset(t) + multiset{p}
    ensures ValuesOf([t[0]] + rest) == ValuesOf(t) + {p.value}
    ensures Total([t[0]] + rest) == Total(t) + p.count
    ensures NonIncreasing(t) ==> NonIncreasing([t[0]] + rest)
    ensures DistinctValues(t) && p.value !in ValuesOf(t) ==> DistinctValues([t[0]] + rest)
  {
    var r := [t[0]] + rest;
    assert multiset(r) == multiset(t) + multiset{p} by {
      assert t == [t[0]] + t[1..];
    }
    assert ValuesOf(r) == ValuesOf(t) + {p.value} by {
      assert t == [t[0]] + t[1..];
      ValuesOfCons(t[0], t[1..]);
      ValuesOfCons(t[0], rest);
    }
    assert Total(r) == Total(t) + p.count by {
      assert r[1..] == rest;
    }
    if NonIncreasing(t) {
      HeadStaysInFront(t, p, rest);
    }
    if DistinctValues(t) && p.value !in ValuesOf(t) {
      HeadStaysDistinct(t, p, rest);
    }
  }

  /** A head whose value is new to the tail and to `p` keeps the insertion of
      `p` into the tail duplicate-free. */
  lemma HeadStaysDistinct(t: seq<Bucket>, p: Bucket, rest: seq<Bucket>)
    requires |t| > 0 && DistinctValues(t) && p.value !in ValuesOf(t)
    requires ValuesOf(rest) == ValuesOf(t[1..]) + {p.value}
    requires DistinctValues(t[1..]) && p.value !in ValuesOf(t[1..]) ==> DistinctValues(rest)
    ensures DistinctValues([t[0]] + rest)
  {
    DistinctTail(t);
    assert ValuesOf(t) == {t[0].value} + ValuesOf(t[1..]) by {
      assert t == [t[0]] + t[1..];
      ValuesOfCons(t[0], t[1..]);
    }
    DistinctCons(t[0], rest);
  }

  /** The tail of a duplicate-free sequence is duplicate-free and does not
      hold the head's value. */
  lemma DistinctTail(t: seq<Bucket>)
    requires |t| > 0 && DistinctValues(t)
    ensures DistinctValues(t[1..])
    ensures t[0].value !in ValuesOf(t[1..])
  {
    assert forall i :: 0 <= i < |t| - 1 ==> t[1..][i] == t[i + 1];
  }

  /** In a sorted `t`, the head's count reaches every count of the tail and
      of `p`, so it stays in front of their sorted insertion `rest`. */
  lemma HeadStaysInFront(t: seq<Bucket>, p: Bucket, rest: seq<Bucket>)
    requires |t| > 0 && p.count < t[0].count && NonIncreasing(t)
    requires multiset(rest) == multiset(t[1..]) + multiset{p}
    requires NonIncreasing(t[1..]) ==> NonIncreasing(rest)
    ensures NonIncreasing([t[0]] + rest)
  {
    var r := [t[0]] + rest;
    assert NonIncreasing(t[1..]) by {
      forall i, j | 0 <= i < j < |t| - 1 ensures t[1..][i].count >= t[1..][j].count {
        assert t[1..][i] == t[i + 1] && t[1..][j] == t[j + 1];
      }
    }
    forall j | 0 < j < |r| ensures t[0].count >= r[j].count {
      assert r[j] == rest[j - 1] && multiset(rest)[r[j]] > 0;
      if r[j] != p {
        assert multiset(t[1..])[r[j]] > 0;
        var k :| 0 <= k < |t[1..]| && t[1..][k] == r[j];
        assert t[k + 1] == r[j];
      }
    }
    forall i, j | 0 <= i < j < |r| ensures r[i].count >= r[j].count {
      if i > 0 {
        assert r[i] == rest[i - 1] && r[j] == rest[j - 1];
      }
    }
  }

  /** Sorts buckets by count, largest first; equal counts keep their order. */
  function SortByCount(s: seq<Bucket>): (r: seq<Bucket>)
    ensures |r| == |s|
    ensures multiset(r) == multiset(s)
    ensures forall x :: x in r <==> x in s
    ensures ValuesOf(r) == ValuesOf(s)
    ensures Total(r) == Total(s)
    ensures NonIncreasing(r)
    ensures DistinctValues(s) ==> DistinctValues(r)
  {
    if |s| == 0 then []
    else
      var u := SortByCount(s[1..]);
      var r := Insert(u, s[0]);
      SortStep(s, u, r);
      SortStepValues(s, u, r);
      r
  }

  /** The recursive case of `SortByCount`, for the buckets themselves: `u` is
      the sorted tail and `r` the head inserted into it. */
  lemma SortStep(s: seq<Bucket>, u: seq<Bucket>, r: seq<Bucket>)
    requires |s| > 0
    requires multiset(u) == multiset(s[1..])
    requires multiset(r) == multiset(u) + multiset{s[0]}
    ensures |r| == |s| && multiset(r) == multiset(s)
    ensures forall x :: x in r <==> x in s
  {
    assert multiset(r) == multiset(s) by {
      assert s == [s[0]] + s[1..];
    }
    assert |r| == |multiset(r)|;
    forall x ensures x in r <==> x in s {
      assert x in r <==> multiset(r)[x] > 0;
      assert x in s <==> multiset(s)[x] > 0;
    }
  }

  /** The recursive case of `SortByCount`, for values, total and distinctness. */
  lemma SortStepValues(s: seq<Bucket>, u: seq<Bucket>, r: seq<Bucket>)
    requires |s| > 0
    requires ValuesOf(u) == ValuesOf(s[1..]) && Total(u) == Total(s[1..])
    requires DistinctValues(s[1..]) ==> DistinctValues(u)
    requires ValuesOf(r) == ValuesOf(u) + {s[0].value}
    requires Total(r) == Total(u) + s[0].count
    requires DistinctValues(u) && s[0].value !in ValuesOf(u) ==> DistinctValues(r)
    ensures ValuesOf(r) == ValuesOf(s) && Total(r) == Total(s)
    ensures DistinctValues(s) ==> DistinctValues(r)
  {
    assert s == [s[0]] + s[1..];
    ValuesOfCons(s[0], s[1..]);
    if DistinctValues(s) {
      DistinctTail(s);
    }
  }

  /** `col.value_counts()`: absent values dropped, one pair per distinct value. */
  method ValueCounts(col: seq<Option<string>>) returns (r: seq<Bucket>)
    ensures IsValueCounts(col, r)
  {
    var b := CountValues(col);
    r := SortByCount(b);
  }

  /** The "Stops by Violation" chart data; `None` is the "No data available"
      branch, taken when the frame is empty and so has no `violation` column. */
  method ViolationChart(rows: seq<StopRecord>) returns (r: Option<seq<Bucket>>)
    ensures r.None? <==> |rows| == 0
    ensures r.Some? ==> IsValueCounts(Violations(rows), r.value)
  {
    if |rows| == 0 {
      r := None;
    } else {
      var counts := ValueCounts(Violations(rows));
      r := Some(counts);
    }
  }

  /** The "Driver Gender Distribution" chart data, skipped like the violation chart. */
  method GenderChart(rows: seq<StopRecord>) returns (r: Option<seq<Bucket>>)
    ensures r.None? <==> |rows| == 0
    ensures r.Some? ==> IsValueCounts(Genders(rows), r.value)
  {
    if |rows| == 0 {
      r := None;
    } else {
      var counts := ValueCounts(Genders(rows));
      r := Some(counts);
    }
  }
}
