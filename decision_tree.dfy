/**
 * The DecisionTree class: it owns a table, fills `entropies` one column at a
 * time, and builds `tree` category by category, constructing a new
 * DecisionTree for every impure partition.
 */
module DecisionTrees {
  import opened StringOrder
  import opened Tables
  import opened Entropy
  import opened Id3
  import Id3Properties

  class DecisionTree {
    var table: Table
    var entropies: seq<real>
    var tree: Node
    const ops: FloatOps

    /** The field initialisation of `__init__` for a table passed in directly. */
    constructor (table: Table, ops: FloatOps)
      ensures this.table == table && this.ops == ops
      ensures entropies == [] && tree == Empty
    {
      this.table := table;
      this.ops := ops;
      entropies := [];
      tree := Empty;
    }

    /** Scores every feature column in order, then builds the tree. */
    method Run() returns (outcome: Outcome)
      requires WellFormed(table) && entropies == [] && tree == Empty
      modifies this
      decreases Width(table), 2
      ensures table == old(table)
      ensures entropies == Entropies(table, EntropyScorer(ops))
      ensures |entropies| == Width(table) - 1
      ensures forall i :: 0 <= i < Width(table) - 1 ==> entropies[i] == Score(table, IndexOf(table[0], table[0][i]), ops)
      ensures outcome.Pass? <==> Build(table, EntropyScorer(ops)).Ok?
      ensures outcome.Pass? ==> tree == Build(table, EntropyScorer(ops)).value
    {
      var i := 0;
      while i < |table[0]| - 1
        invariant table == old(table) && tree == Empty
        invariant 0 <= i <= |table[0]| - 1
        invariant entropies == Scores(table, EntropyScorer(ops), i)
      {
        var e := GetEntropy(table[0][i]);
        entropies := entropies + [e];
        i := i + 1;
      }
      Id3Properties.EntropyPerColumn(table, ops);
      outcome := BuildTree();
    }

    /** The header, then every row of the table, row 0 included, whose cell at `colIndex` is `category`. */
    method GetRows(category: string, colIndex: nat) returns (tmpTable: Table)
      requires WellFormed(table) && colIndex < Width(table)
      ensures tmpTable == Partition(table, category, colIndex)
    {
      tmpTable := [table[0]];
      var i := 0;
      while i < |table|
        invariant 0 <= i <= |table|
        invariant tmpTable == [table[0]] + Matching(table[..i], colIndex, category)
      {
        var row := table[i];
        assert table[..i + 1][..i] == table[..i];
        if row[colIndex] == category {
          tmpTable := tmpTable + [row];
        }
        i := i + 1;
      }
      assert table[..|table|] == table;
    }

    /** The score of the column the header names `attribute` (the first such column). */
    method GetEntropy(attribute: string) returns (entropy: real)
      requires WellFormed(table) && attribute in table[0]
      ensures entropy == Score(table, IndexOf(table[0], attribute), ops)
    {
      var colIndex := IndexOf(table[0], attribute);
      var categories := Categories(table, colIndex);
      entropy := 0.0;
      var k := 0;
      while k < |categories|
        invariant 0 <= k <= |categories|
        invariant entropy == SumTerms(table, colIndex, categories[..k], ops)
      {
        var term := CategoryTerm(colIndex, categories[k]);
        assert categories[..k + 1][..k] == categories[..k];
        entropy := ops.add(entropy, term);
        k := k + 1;
      }
      assert categories[..|categories|] == categories;
    }

    /** Splits on the first lowest-scoring column and resolves each of its categories in sorted order. */
    method BuildTree() returns (outcome: Outcome)
      requires WellFormed(table) && entropies == Entropies(table, EntropyScorer(ops)) && tree == Empty
      modifies this
      decreases Width(table), 1
      ensures table == old(table) && entropies == old(entropies)
      ensures outcome.Pass? <==> Build(table, EntropyScorer(ops)).Ok?
      ensures outcome.Pass? ==> tree == Build(table, EntropyScorer(ops)).value
    {
      ghost var score := EntropyScorer(ops);
      if |entropies| == 0 {
        return Pass;
      }
      Id3Properties.BuildSplits(table, score);
      var rootIndex := ArgMin(entropies);
      var name := table[0][rootIndex];
      var categories := Categories(table, rootIndex);
      var i := 0;
      assert categories[..0] == [];
      while i < |categories|
        invariant 0 <= i <= |categories|
        invariant table == old(table) && entropies == old(entropies)
        invariant BuildBranches(table, score, rootIndex, categories[..i]).Ok?
        invariant tree == NodeOf(name, BuildBranches(table, score, rootIndex, categories[..i]).value)
      {
        var category := categories[i];
        assert categories[..i + 1][..i] == categories[..i];
        var decision := ResolveCategory(rootIndex, category);
        if decision.Err? {
          Id3Properties.BuildBranchesErr(table, score, rootIndex, categories, i);
          return Fail(decision.error);
        }
        var entry := decision.value;
        ghost var done := BuildBranches(table, score, rootIndex, categories[..i]).value;
        Id3Properties.BuildBranchesStep(table, score, rootIndex, categories, i);
        Id3Properties.BuildBranchesKeys(table, score, rootIndex, categories[..i]);
        SortedExcludesPrefix(categories, i);
        PutFresh(name, done, category, entry);
        tree := Split(name, Put(EntriesUnder(tree, name), category, entry));
        i := i + 1;
      }
      assert categories[..|categories|] == categories;
      outcome := Pass;
    }

    /** One pass of the category loop of `get_entropy`: the category's share of the entropy. */
    method CategoryTerm(colIndex: nat, category: string) returns (term: real)
      requires WellFormed(table) && colIndex < Width(table)
      ensures term == Term(table, colIndex, category, ops)
    {
      var subtable := GetRows(category, colIndex);
      var x := |subtable| - 1;
      var y := |table| - 1;
      var probOfCat := ops.div(x, y);
      var yesInSubtable := CountYes(subtable);
      var noInSubtable := x - yesInSubtable;
      var prob1 := ops.div(yesInSubtable, x);
      var prob2 := ops.div(noInSubtable, x);
      var log1 := if prob1 > 0.0 then ops.log2(prob1) else 1.0;
      var log2 := if prob2 > 0.0 then ops.log2(prob2) else 1.0;
      term := ops.mul(ops.neg(ops.add(ops.mul(prob1, log1), ops.mul(prob2, log2))), probOfCat);
    }

    /** `yes_in_subtable`: the rows of `subtable` whose last cell is "Yes". */
    method CountYes(subtable: Table) returns (count: nat)
      requires Labelled(subtable)
      ensures count == LabelCount(subtable, YesLabel)
    {
      count := 0;
      var i := 0;
      while i < |subtable|
        invariant 0 <= i <= |subtable|
        invariant count == LabelCount(subtable[..i], YesLabel)
      {
        assert subtable[..i + 1][..i] == subtable[..i];
        if subtable[i][|subtable[i]| - 1] == YesLabel {
          count := count + 1;
        }
        i := i + 1;
      }
      assert subtable[..|subtable|] == subtable;
    }

    /** One pass of the category loop of `build_tree`: a leaf for a pure partition, otherwise a new DecisionTree on it. */
    method ResolveCategory(rootIndex: nat, category: string) returns (decision: Result<Branch>)
      requires WellFormed(table) && rootIndex < Width(table) - 1
      decreases Width(table), 0
      ensures decision == Decide(table, EntropyScorer(ops), rootIndex, category)
    {
      var subtable := GetRows(category, rootIndex);
      var yesNo := LabelValues(table);
      if |yesNo| < 2 {
        return Err(SecondLabelMissing);
      }
      var yesCount := LabelCount(subtable, yesNo[1]);
      var noCount := LabelCount(subtable, yesNo[0]);
      if yesCount == |subtable| - 1 {
        decision := Ok(Leaf(yesNo[1]));
      } else if noCount == |subtable| - 1 {
        decision := Ok(Leaf(yesNo[0]));
      } else {
        var modSubtable := RemoveColumn(subtable, rootIndex);
        var dt, outcome := NewDecisionTree(modSubtable, ops);
        if outcome.Fail? {
          return Err(outcome.error);
        }
        var subtree := dt.GetTree();
        decision := Ok(Sub(subtree));
      }
    }

    /** The tree built by `run`. */
    method GetTree() returns (t: Node)
      ensures t == tree
    {
      t := tree;
    }
  }

  /** `DecisionTree(table)`: construct, score the columns, build the tree. */
  method NewDecisionTree(table: Table, ops: FloatOps) returns (dt: DecisionTree, outcome: Outcome)
    requires WellFormed(table)
    decreases Width(table), 3
    ensures fresh(dt)
    ensures dt.table == table && dt.ops == ops
    ensures dt.entropies == Entropies(table, EntropyScorer(ops))
    ensures |dt.entropies| == Width(table) - 1
    ensures forall i :: 0 <= i < Width(table) - 1 ==> dt.entropies[i] == Score(table, IndexOf(table[0], table[0][i]), ops)
    ensures outcome.Pass? <==> Build(table, EntropyScorer(ops)).Ok?
    ensures outcome.Pass? ==> dt.tree == Build(table, EntropyScorer(ops)).value
  {
    dt := new DecisionTree(table, ops);
    outcome := dt.Run();
  }
}
