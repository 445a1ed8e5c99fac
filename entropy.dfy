/**
 * `get_entropy` and the per-column scores `run` collects. The integer counts
 * (`x` rows per category, `y` observations, the "Yes" count) are exact; the
 * floating-point operations of the score, `log2` among them, are left
 * abstract as a `FloatOps` value.
 */
module Entropy {
  import opened StringOrder
  import opened Tables

  /**
   * The float operations `get_entropy` performs: `/` on two Python ints
   * (true division), `*`, `+` and unary `-` on floats, and `math.log2`.
   * Floats are compared as the reals they stand for.
   */
  datatype FloatOps = FloatOps(
    div: (int, int) -> real,
    mul: (real, real) -> real,
    add: (real, real) -> real,
    neg: real -> real,
    log2: real -> real)

  /** The literal `get_entropy` counts as the positive label. */
  const YesLabel: string := "Yes"

  /** `x`: the rows of the category's partition after its header row. */
  function CategorySize(t: Table, category: string, col: nat): nat
    requires WellFormed(t) && col < Width(t)
  {
    |Partition(t, category, col)| - 1
  }

  /** `yes_in_subtable`: the rows of the partition, header row included, labelled "Yes". */
  function YesCount(t: Table, category: string, col: nat): nat
    requires WellFormed(t) && col < Width(t)
  {
    LabelCount(Partition(t, category, col), YesLabel)
  }

  /** `no_in_subtable = x - yes_in_subtable`; negative when the header row's own "Yes" was counted. */
  function NoCount(t: Table, category: string, col: nat): int
    requires WellFormed(t) && col < Width(t)
  {
    CategorySize(t, category, col) - YesCount(t, category, col)
  }

  /** `log2(p) if p > 0 else 1` */
  function LogOrOne(p: real, ops: FloatOps): real {
    if p > 0.0 then ops.log2(p) else 1.0
  }

  /** One category's summand of the entropy: `-(prob1 * log(prob1) + prob2 * log(prob2)) * prob_of_cat`. */
  function Term(t: Table, col: nat, category: string, ops: FloatOps): real
    requires WellFormed(t) && col < Width(t)
  {
    var x := CategorySize(t, category, col);
    var probOfCat := ops.div(x, |t| - 1);
    var prob1 := ops.div(YesCount(t, category, col), x);
    var prob2 := ops.div(NoCount(t, category, col), x);
    ops.mul(ops.neg(ops.add(ops.mul(prob1, LogOrOne(prob1, ops)), ops.mul(prob2, LogOrOne(prob2, ops)))), probOfCat)
  }

  /** The running `entropy` after the given categories, added left to right. */
  function SumTerms(t: Table, col: nat, categories: seq<string>, ops: FloatOps): real
    requires WellFormed(t) && col < Width(t)
    decreases |categories|
  {
    if categories == [] then 0.0
    else
      var n := |categories| - 1;
      ops.add(SumTerms(t, col, categories[..n], ops), Term(t, col, categories[n], ops))
  }

  /** `get_entropy` on the column `col` the attribute name resolved to. */
  function Score(t: Table, col: nat, ops: FloatOps): real
    requires WellFormed(t) && col < Width(t)
  {
    SumTerms(t, col, Categories(t, col), ops)
  }

  /** `get_entropy` as a scorer of (table, column); columns that do not exist score 0. */
  function EntropyScorer(ops: FloatOps): (Table, nat) -> real {
    (t: Table, col: nat) => if WellFormed(t) && col < Width(t) then Score(t, col, ops) else 0.0
  }

  // ---------------------------------------------------------------------
  // The category weights x / y partition the observations

  /** How many entries of `cats` equal `v`. */
  function Occurrences(cats: seq<string>, v: string): nat
    decreases |cats|
  {
    if cats == [] then 0
    else Occurrences(cats[..|cats| - 1], v) + (if cats[|cats| - 1] == v then 1 else 0)
  }

  /** The sum over `cats` of the number of rows matching each category. */
  function SumMatches(rows: Table, col: nat, cats: seq<string>): nat
    requires HasColumn(rows, col)
    decreases |cats|
  {
    if cats == [] then 0
    else SumMatches(rows, col, cats[..|cats| - 1]) + |Matching(rows, col, cats[|cats| - 1])|
  }

  /** `sum(x for category in categories)` */
  function SumCategorySizes(t: Table, col: nat, cats: seq<string>): nat
    requires WellFormed(t) && col < Width(t)
    decreases |cats|
  {
    if cats == [] then 0
    else SumCategorySizes(t, col, cats[..|cats| - 1]) + CategorySize(t, cats[|cats| - 1], col)
  }

  lemma {:induction false} OccurrencesSorted(cats: seq<string>, v: string)
    requires StrictlySorted(cats)
    ensures Occurrences(cats, v) == if v in cats then 1 else 0
    decreases |cats|
  {
    if cats != [] {
      var init := cats[..|cats| - 1];
      assert StrictlySorted(init);
      OccurrencesSorted(init, v);
      StrictlySortedDistinct(cats);
      assert forall y :: y in cats <==> y in init || y == cats[|cats| - 1] by {
        assert cats == init + [cats[|cats| - 1]];
      }
    }
  }

  lemma {:induction false} SumMatchesEmpty(col: nat, cats: seq<string>)
    ensures SumMatches([], col, cats) == 0
    decreases |cats|
  {
    if cats != [] {
      SumMatchesEmpty(col, cats[..|cats| - 1]);
    }
  }

  lemma {:induction false} SumMatchesStep(rows: Table, r: Row, col: nat, cats: seq<string>)
    requires HasColumn(rows, col) && col < |r|
    ensures HasColumn(rows + [r], col)
    ensures SumMatches(rows + [r], col, cats) == SumMatches(rows, col, cats) + Occurrences(cats, r[col])
    decreases |cats|
  {
    assert HasColumn(rows + [r], col) by {
      forall i | 0 <= i < |rows + [r]| ensures col < |(rows + [r])[i]| {
        if i == |rows| { assert (rows + [r])[i] == r; }
      }
    }
    if cats != [] {
      SumMatchesStep(rows, r, col, cats[..|cats| - 1]);
      assert (rows + [r])[..|rows + [r]| - 1] == rows;
    }
  }

  lemma {:induction false} SumMatchesAppend(a: Table, b: Table, col: nat, cats: seq<string>)
    requires HasColumn(a, col) && HasColumn(b, col)
    ensures HasColumn(a + b, col)
    ensures SumMatches(a + b, col, cats) == SumMatches(a, col, cats) + SumMatches(b, col, cats)
    decreases |cats|
  {
    MatchingAppend(a, b, col, "");
    if cats != [] {
      SumMatchesAppend(a, b, col, cats[..|cats| - 1]);
      MatchingAppend(a, b, col, cats[|cats| - 1]);
    }
  }

  /** Summed over a sorted list of categories covering every row, the partitions count every row once. */
  lemma {:induction false} SumMatchesCovering(rows: Table, col: nat, cats: seq<string>)
    requires HasColumn(rows, col) && StrictlySorted(cats)
    requires forall i :: 0 <= i < |rows| ==> rows[i][col] in cats
    ensures SumMatches(rows, col, cats) == |rows|
    decreases |rows|
  {
    if rows == [] {
      SumMatchesEmpty(col, cats);
    } else {
      var init := rows[..|rows| - 1];
      var last := rows[|rows| - 1];
      assert rows == init + [last];
      SumMatchesCovering(init, col, cats);
      SumMatchesStep(init, last, col, cats);
      OccurrencesSorted(cats, last[col]);
    }
  }

  lemma {:induction false} SumCategorySizesIsSumMatches(t: Table, col: nat, cats: seq<string>)
    requires WellFormed(t) && col < Width(t)
    ensures SumCategorySizes(t, col, cats) == SumMatches(t, col, cats)
    decreases |cats|
  {
    if cats != [] {
      SumCategorySizesIsSumMatches(t, col, cats[..|cats| - 1]);
    }
  }

  /**
   * Summed over the distinct categories of a column, the `x` counts give `y`,
   * plus one when the header's own cell is among the categories (`get_rows`
   * then returns the header row twice). Without that case the weights `x / y`
   * sum to one.
   */
  lemma CategorySizesSum(t: Table, col: nat)
    requires WellFormed(t) && col < Width(t)
    ensures SumCategorySizes(t, col, Categories(t, col)) ==
              |t| - 1 + (if t[0][col] in ColumnOf(Observations(t), col) then 1 else 0)
  {
    var cats := Categories(t, col);
    var obs := Observations(t);
    SumCategorySizesIsSumMatches(t, col, cats);
    assert t == [t[0]] + obs;
    SumMatchesAppend([t[0]], obs, col, cats);
    assert [] + [t[0]] == [t[0]];
    SumMatchesStep([], t[0], col, cats);
    SumMatchesEmpty(col, cats);
    OccurrencesSorted(cats, t[0][col]);
    assert forall i :: 0 <= i < |obs| ==> obs[i][col] in cats by {
      forall i | 0 <= i < |obs| ensures obs[i][col] in cats {
        assert ColumnOf(obs, col)[i] == obs[i][col];
      }
    }
    SumMatchesCovering(obs, col, cats);
  }

  // ---------------------------------------------------------------------
  // The "Yes" count

  /**
   * `yes_in_subtable` counts the partition's rows labelled "Yes", the header
   * row included. When the header's label cell is not "Yes" it lies in
   * `0..x`, so `no_in_subtable` is the non-negative rest; when the header's
   * cell at `col` is not the category either, it is exactly the number of
   * matching observations labelled "Yes".
   */
  lemma YesCountBounds(t: Table, category: string, col: nat)
    requires WellFormed(t) && col < Width(t)
    ensures YesCount(t, category, col) <=
              CategorySize(t, category, col) + (if Label(t[0]) == YesLabel then 1 else 0)
    ensures Label(t[0]) != YesLabel ==>
              0 <= NoCount(t, category, col) <= CategorySize(t, category, col)
    ensures Label(t[0]) != YesLabel && t[0][col] != category ==>
              YesCount(t, category, col) == LabelCount(Matching(Observations(t), col, category), YesLabel)
  {
    var m := Matching(t, col, category);
    assert forall i :: 0 <= i < |m| ==> m[i] in t;
    assert Labelled(m);
    LabelCountAppend([t[0]], m, YesLabel);
    assert [t[0]][..0] == [];
    PartitionShape(t, category, col);
    if t[0][col] != category {
      assert Partition(t, category, col) == [t[0]] + Matching(Observations(t), col, category);
      assert m == Partition(t, category, col)[1..];
      assert m == Matching(Observations(t), col, category);
    }
  }

  /** The float facts a pure partition's summand relies on; they hold of IEEE arithmetic up to the sign of zero. */
  ghost predicate ZeroLaws(ops: FloatOps) {
    && ops.log2(1.0) == 0.0
    && ops.add(0.0, 0.0) == 0.0
    && ops.neg(0.0) == 0.0
    && (forall n: int :: n > 0 ==> ops.div(n, n) == 1.0 && ops.div(0, n) == 0.0)
    && (forall v: real :: ops.mul(0.0, v) == 0.0 && ops.mul(v, 0.0) == 0.0)
  }

  /** Exact rational arithmetic, with a given logarithm. */
  function ExactOps(log2: real -> real): FloatOps {
    FloatOps(
      (a: int, b: int) => if b == 0 then 0.0 else a as real / b as real,
      (a: real, b: real) => a * b,
      (a: real, b: real) => a + b,
      (a: real) => -a,
      log2)
  }

  /** The zero laws are consistent: exact arithmetic with `log2(1) = 0` satisfies them. */
  lemma ExactOpsZeroLaws(log2: real -> real)
    requires log2(1.0) == 0.0
    ensures ZeroLaws(ExactOps(log2))
  {
    var ops := ExactOps(log2);
    forall n: int | n > 0
      ensures ops.div(n, n) == 1.0 && ops.div(0, n) == 0.0
    {
      assert n as real / n as real == 1.0;
    }
  }

  /**
   * A partition whose `yes_in_subtable`, which counts the header row too, is
   * 0 or `x` adds nothing to the score: the `log2(0) -> 1` substitution is
   * then multiplied by a zero probability. That is a pure partition only
   * when the header's label is not "Yes" and its cell is not the category
   * (`YesCountBounds`); otherwise a pure partition can add a non-zero or
   * negative summand (`WorkedTrees.QuirkScore`).
   */
  lemma PureTermIsZero(t: Table, col: nat, category: string, ops: FloatOps)
    requires WellFormed(t) && col < Width(t)
    requires category in ColumnOf(Observations(t), col)
    requires ZeroLaws(ops)
    requires YesCount(t, category, col) == 0 || YesCount(t, category, col) == CategorySize(t, category, col)
    ensures Term(t, col, category, ops) == 0.0
  {
    CategoryPresent(t, col, category);
  }

  /** Neither division of `get_entropy` is by zero: every category has at least one row, and so the table has an observation. */
  lemma DivisorsPositive(t: Table, col: nat, category: string)
    requires WellFormed(t) && col < Width(t)
    requires category in Categories(t, col)
    ensures CategorySize(t, category, col) >= 1
    ensures |t| - 1 >= 1
  {
    CategoryPresent(t, col, category);
  }

  /** Summands that are all zero add up to zero. */
  lemma {:induction false} SumOfZeroTerms(t: Table, col: nat, categories: seq<string>, ops: FloatOps)
    requires WellFormed(t) && col < Width(t) && ZeroLaws(ops)
    requires forall k :: 0 <= k < |categories| ==> Term(t, col, categories[k], ops) == 0.0
    ensures SumTerms(t, col, categories, ops) == 0.0
    decreases |categories|
  {
    if categories != [] {
      var n := |categories| - 1;
      assert forall k :: 0 <= k < n ==> categories[..n][k] == categories[k];
      SumOfZeroTerms(t, col, categories[..n], ops);
    }
  }

  /**
   * `get_entropy` counts the literal "Yes": on a table where no row carries
   * that label (say labels "yes"/"no"), every column scores zero.
   */
  lemma ScoreWithoutYes(t: Table, col: nat, ops: FloatOps)
    requires WellFormed(t) && col < Width(t) && ZeroLaws(ops)
    requires forall i :: 0 <= i < |t| ==> Label(t[i]) != YesLabel
    ensures Score(t, col, ops) == 0.0
  {
    var cats := Categories(t, col);
    forall k | 0 <= k < |cats| ensures Term(t, col, cats[k], ops) == 0.0 {
      var p := Partition(t, cats[k], col);
      assert cats[k] in cats;
      var m := Matching(t, col, cats[k]);
      forall i | 0 <= i < |p| ensures Label(p[i]) != YesLabel {
        if i > 0 {
          assert p[i] == m[i - 1];
          assert m[i - 1] in m;
        }
        assert p[i] in t;
      }
      LabelCountPositive(p, YesLabel);
      PureTermIsZero(t, col, cats[k], ops);
    }
    SumOfZeroTerms(t, col, cats, ops);
  }
}
