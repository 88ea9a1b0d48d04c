/** `Series.mode()[0]`: the most frequent present value of a column. pandas
    drops nulls, returns all tied values sorted, and `[0]` takes the least. */
module Modes {
  import opened Wrappers
  import Seqs
  import Text

  /** How often `v` occurs in the column. */
  function Freq(col: seq<Option<string>>, v: string): (n: nat)
  {
    multiset(col)[Some(v)]
  }

  /** `v` occurs in `col`, no present value occurs more often, and `v` is the
      least, in Python's string order, of the values that occur as often. */
  ghost predicate IsLeastMode(col: seq<Option<string>>, v: string)
  {
    && Some(v) in col
    && (forall i :: 0 <= i < |col| && col[i].Some? ==> Freq(col, col[i].value) <= Freq(col, v))
    && (forall i :: 0 <= i < |col| && col[i].Some? && Freq(col, col[i].value) == Freq(col, v) ==>
          Text.LessEq(v, col[i].value))
  }

  /** Choosing between the head candidate `c` and the best `rest` of the others. */
  lemma PickBetter(cands: seq<string>, col: seq<Option<string>>, rest: string, b: string)
    requires |cands| > 1 && rest in cands[1..]
    requires forall c :: c in cands[1..] ==> Freq(col, c) <= Freq(col, rest)
    requires forall c :: c in cands[1..] && Freq(col, c) == Freq(col, rest) ==> Text.LessEq(rest, c)
    requires b == (if Freq(col, cands[0]) > Freq(col, rest) ||
                      (Freq(col, cands[0]) == Freq(col, rest) && Text.LessEq(cands[0], rest))
                   then cands[0] else rest)
    ensures b in cands
    ensures forall c :: c in cands ==> Freq(col, c) <= Freq(col, b)
    ensures forall c :: c in cands && Freq(col, c) == Freq(col, b) ==> Text.LessEq(b, c)
  {
    assert cands == [cands[0]] + cands[1..];
    var h := cands[0];
    Text.LessEqReflexive(b);
    if b == h {
      forall c | c in cands && Freq(col, c) == Freq(col, b)
        ensures Text.LessEq(b, c)
      {
        if c != h {
          Text.LessEqTransitive(h, rest, c);
        }
      }
    } else {
      Text.LessEqTotal(h, rest);
    }
  }

  /** The most frequent candidate, the least of them on a tie. */
  function Best(cands: seq<string>, col: seq<Option<string>>): (b: string)
    requires |cands| > 0
    ensures b in cands
    ensures forall c :: c in cands ==> Freq(col, c) <= Freq(col, b)
    ensures forall c :: c in cands && Freq(col, c) == Freq(col, b) ==> Text.LessEq(b, c)
  {
    if |cands| == 1 then
      Text.LessEqReflexive(cands[0]);
      cands[0]
    else
      var rest := Best(cands[1..], col);
      var b := if Freq(col, cands[0]) > Freq(col, rest) ||
                  (Freq(col, cands[0]) == Freq(col, rest) && Text.LessEq(cands[0], rest))
               then cands[0] else rest;
      PickBetter(cands, col, rest, b);
      b
  }

  /** `col.mode()[0]`, or `None` where the mode is empty and `[0]` raises. */
  function Mode(col: seq<Option<string>>): (r: Option<string>)
    ensures r.None? <==> forall i :: 0 <= i < |col| ==> col[i].None?
    ensures r.Some? ==> IsLeastMode(col, r.value)
  {
    var present := Seqs.DropNone(col);
    if |present| == 0 then
      None
    else
      var b := Best(present, col);
      assert forall i :: 0 <= i < |col| && col[i].Some? ==> col[i].value in present by {
        forall i | 0 <= i < |col| && col[i].Some? ensures col[i].value in present {
          assert Some(col[i].value) in col;
        }
      }
      Some(b)
  }

  /** The least mode is unique: any value meeting its description is what
      `Mode` returns. */
  lemma {:induction false} ModeIsUnique(col: seq<Option<string>>, m: string)
    requires IsLeastMode(col, m)
    ensures Mode(col) == Some(m)
  {
    var k :| 0 <= k < |col| && col[k] == Some(m);
    var r := Mode(col);
    assert r.Some?;
    var j :| 0 <= j < |col| && col[j] == Some(r.value);
    assert Freq(col, m) == Freq(col, r.value);
    Text.LessEqAntisymmetric(m, r.value);
  }
}
