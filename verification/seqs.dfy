/** Generic sequence operations behind the dashboard's pandas calls:
    boolean-mask selection (`data[mask]`), `dropna()` and `unique()`. */
module Seqs {
  import opened Wrappers

  /** `a` is obtained from `b` by deleting elements, keeping the order of the rest. */
  ghost predicate IsSubsequence<T>(a: seq<T>, b: seq<T>)
    decreases |b|
  {
    |a| == 0 ||
    (|b| > 0 &&
     ((a[|a| - 1] == b[|b| - 1] && IsSubsequence(a[..|a| - 1], b[..|b| - 1])) ||
      IsSubsequence(a, b[..|b| - 1])))
  }

  /** Appending the same element to both sides keeps a subsequence one. */
  lemma SubsequenceSnoc<T>(a: seq<T>, b: seq<T>, x: T)
    requires IsSubsequence(a, b)
    ensures IsSubsequence(a + [x], b + [x])
    ensures IsSubsequence(a, b + [x])
  {
    assert (a + [x])[..|a|] == a;
    assert (b + [x])[..|b|] == b;
  }

  /** A non-empty sequence is its front followed by its last element. */
  lemma SplitLast<T>(s: seq<T>)
    requires |s| > 0
    ensures s == s[..|s| - 1] + [s[|s| - 1]]
  {
  }

  /** Positions of `s` whose element satisfies `p`. */
  ghost function IndexesWhere<T>(s: seq<T>, p: T -> bool): (ks: set<nat>)
  {
    set i: nat | i < |s| && p(s[i])
  }

  /** The elements of `s` that satisfy `p`, in their original order: what
      `data[mask]` selects. */
  function Filter<T(!new)>(s: seq<T>, p: T -> bool): (r: seq<T>)
    ensures |r| <= |s|
    ensures forall i :: 0 <= i < |r| ==> p(r[i])
    ensures forall x :: multiset(r)[x] == if p(x) then multiset(s)[x] else 0
    ensures IsSubsequence(r, s)
  {
    if |s| == 0 then []
    else
      var n := |s| - 1;
      var f := Filter(s[..n], p);
      assert s == s[..n] + [s[n]];
      if p(s[n]) then
        assert (f + [s[n]])[..|f|] == f;
        f + [s[n]]
      else f
  }

  /** Extending a sequence by one element adds its position when the mask holds there. */
  lemma IndexesWhereSnoc<T>(s: seq<T>, p: T -> bool)
    requires |s| > 0
    ensures |s| - 1 !in IndexesWhere(s[..|s| - 1], p)
    ensures IndexesWhere(s, p) ==
            IndexesWhere(s[..|s| - 1], p) + (if p(s[|s| - 1]) then {|s| - 1} else {})
  {
    var n := |s| - 1;
    forall i: nat
      ensures i in IndexesWhere(s, p) <==>
              i in IndexesWhere(s[..n], p) + (if p(s[n]) then {n} else {})
    {
      if i < n {
        assert s[..n][i] == s[i];
      }
    }
  }

  /** A mask true everywhere selects every row. */
  lemma {:induction false} FilterAll<T(!new)>(s: seq<T>, p: T -> bool)
    requires forall i :: 0 <= i < |s| ==> p(s[i])
    ensures Filter(s, p) == s
  {
    if |s| > 0 {
      FilterAll(s[..|s| - 1], p);
      SplitLast(s);
    }
  }

  /** The number of selected rows is the number of positions the mask is true at. */
  lemma {:induction false} FilterCountsIndexes<T(!new)>(s: seq<T>, p: T -> bool)
    ensures |Filter(s, p)| == |IndexesWhere(s, p)|
  {
    if |s| > 0 {
      var n := |s| - 1;
      FilterCountsIndexes(s[..n], p);
      IndexesWhereSnoc(s, p);
    }
  }

  /** A mask and its negation `q` split the positions between them. */
  lemma {:induction false} IndexesPartition<T>(s: seq<T>, p: T -> bool, q: T -> bool)
    requires forall x :: q(x) == !p(x)
    ensures |IndexesWhere(s, p)| + |IndexesWhere(s, q)| == |s|
  {
    if |s| > 0 {
      IndexesPartition(s[..|s| - 1], p, q);
      IndexesWhereSnoc(s, p);
      IndexesWhereSnoc(s, q);
    }
  }

  /** The column entries of a sequence of present values. */
  function Lift<T>(s: seq<T>): (r: seq<Option<T>>)
    ensures |r| == |s| && forall k :: 0 <= k < |s| ==> r[k] == Some(s[k])
  {
    seq(|s|, k requires 0 <= k < |s| => Some(s[k]))
  }

  /** The present values of a nullable column, in order: `dropna()`. Each
      present value keeps its multiplicity, and read back as column entries
      the result is a subsequence of the column, so the column order is kept. */
  function DropNone<T(!new)>(col: seq<Option<T>>): (r: seq<T>)
    ensures forall v :: multiset(r)[v] == multiset(col)[Some(v)]
    ensures IsSubsequence(Lift(r), col)
    ensures forall v :: v in r <==> Some(v) in col
    ensures |r| == |col| - multiset(col)[None]
  {
    if |col| == 0 then []
    else
      var n := |col| - 1;
      var d := DropNone(col[..n]);
      var r := if col[n].Some? then d + [col[n].value] else d;
      DropNoneStep(col, d, r);
      DropNoneOrderStep(col, d, r);
      r
  }

  /** One step of `DropNone`: counts of the values and of the entries. */
  lemma DropNoneStep<T>(col: seq<Option<T>>, d: seq<T>, r: seq<T>)
    requires |col| > 0
    requires forall v :: multiset(d)[v] == multiset(col[..|col| - 1])[Some(v)]
    requires |d| == |col| - 1 - multiset(col[..|col| - 1])[None]
    requires r == if col[|col| - 1].Some? then d + [col[|col| - 1].value] else d
    ensures forall v :: multiset(r)[v] == multiset(col)[Some(v)]
    ensures forall v :: v in r <==> Some(v) in col
    ensures |r| == |col| - multiset(col)[None]
  {
    var n := |col| - 1;
    assert col == col[..n] + [col[n]];
    forall v ensures v in r <==> Some(v) in col {
      assert v in r <==> multiset(r)[v] > 0;
      assert Some(v) in col <==> multiset(col)[Some(v)] > 0;
    }
  }

  /** One step of `DropNone`: the present values stay in column order. */
  lemma DropNoneOrderStep<T>(col: seq<Option<T>>, d: seq<T>, r: seq<T>)
    requires |col| > 0
    requires IsSubsequence(Lift(d), col[..|col| - 1])
    requires r == if col[|col| - 1].Some? then d + [col[|col| - 1].value] else d
    ensures IsSubsequence(Lift(r), col)
  {
    var n := |col| - 1;
    assert col == col[..n] + [col[n]];
    if col[n].Some? {
      assert Lift(r) == Lift(d) + [col[n]];
    }
    SubsequenceSnoc(Lift(d), col[..n], col[n]);
  }

  /** `dropna()` keeps the order of first appearances: of two present values,
      the one whose first entry comes earlier in the column comes earlier in
      the result. */
  lemma {:induction false} DropNoneFirstIndex<T(!new)>(col: seq<Option<T>>, x: T, y: T)
    requires Some(x) in col && Some(y) in col
    ensures x in DropNone(col) && y in DropNone(col)
    ensures FirstIndex(DropNone(col), x) < FirstIndex(DropNone(col), y) <==>
            FirstIndex(col, Some(x)) < FirstIndex(col, Some(y))
  {
    var n := |col| - 1;
    var d := DropNone(col[..n]);
    if x in d && y in d {
      DropNoneFirstIndex(col[..n], x, y);
    }
    FirstIndexStep(col, d, DropNone(col), x, y);
  }

  /** The inductive step of `DropNoneFirstIndex`: `d` is the result for all
      but the last entry of `col`, and `r` the result for `col`. */
  lemma FirstIndexStep<T>(col: seq<Option<T>>, d: seq<T>, r: seq<T>, x: T, y: T)
    requires |col| > 0
    requires r == if col[|col| - 1].Some? then d + [col[|col| - 1].value] else d
    requires (x in d <==> Some(x) in col[..|col| - 1]) && (y in d <==> Some(y) in col[..|col| - 1])
    requires x in r && y in r
    requires x in d && y in d ==>
      (FirstIndex(d, x) < FirstIndex(d, y) <==>
       FirstIndex(col[..|col| - 1], Some(x)) < FirstIndex(col[..|col| - 1], Some(y)))
    ensures FirstIndex(r, x) < FirstIndex(r, y) <==>
            FirstIndex(col, Some(x)) < FirstIndex(col, Some(y))
  {
    FirstIndexLast(col, Some(x));
    FirstIndexLast(col, Some(y));
    if col[|col| - 1].Some? {
      assert r[..|d|] == d;
      FirstIndexLast(r, x);
      FirstIndexLast(r, y);
    }
  }

  /** Position of the first occurrence of `x` in `s`. */
  function FirstIndex<T(==)>(s: seq<T>, x: T): (i: nat)
    requires x in s
    ensures i < |s| && s[i] == x && x !in s[..i]
  {
    if s[0] == x then 0 else FirstIndex(s[1..], x) + 1
  }

  /** First occurrences do not move when the sequence is cut after them. */
  lemma {:induction false} FirstIndexInPrefix<T>(s: seq<T>, m: nat, x: T)
    requires m <= |s| && x in s[..m]
    ensures FirstIndex(s, x) == FirstIndex(s[..m], x)
  {
    if s[0] != x {
      assert s[1..][..m - 1] == s[..m][1..];
      FirstIndexInPrefix(s[1..], m - 1, x);
    }
  }

  /** The first occurrence of a value is in front of the last position, or,
      when the value is new there, at the last position itself. */
  lemma FirstIndexLast<T>(s: seq<T>, y: T)
    requires y in s
    ensures FirstIndex(s, y) == if y in s[..|s| - 1] then FirstIndex(s[..|s| - 1], y) else |s| - 1
  {
    var n := |s| - 1;
    if y in s[..n] {
      FirstIndexInPrefix(s, n, y);
    } else {
      assert forall k :: 0 <= k < n ==> s[..n][k] == s[k];
    }
  }

  /** The distinct elements of `s` in order of first appearance: `unique()`. */
  function Unique<T(==,!new)>(s: seq<T>): (r: seq<T>)
    ensures forall i, j :: 0 <= i < j < |r| ==> r[i] != r[j]
    ensures forall x :: x in r <==> x in s
    ensures forall i, j :: 0 <= i < j < |r| ==> FirstIndex(s, r[i]) < FirstIndex(s, r[j])
  {
    if |s| == 0 then []
    else
      var n := |s| - 1;
      var u := Unique(s[..n]);
      assert s == s[..n] + [s[n]];
      assert forall x :: x in s[..n] ==> FirstIndex(s, x) == FirstIndex(s[..n], x) by {
        forall x | x in s[..n] ensures FirstIndex(s, x) == FirstIndex(s[..n], x) {
          FirstIndexInPrefix(s, n, x);
        }
      }
      if s[n] in u then u else u + [s[n]]
  }
}
