/**
 * What `build_tree` promises about the tree it builds: its shape, the
 * leaf-or-recurse rule, when it raises, and how deep it gets.
 */
module Id3Properties {
  import opened StringOrder
  import opened Tables
  import opened Id3
  import opened Entropy

  // ---------------------------------------------------------------------
  // The entropies

  lemma {:induction false} ScoresAt(t: Table, score: Scorer, n: nat)
    requires WellFormed(t) && n <= Width(t)
    ensures forall i :: 0 <= i < n ==> Scores(t, score, n)[i] == score(t, IndexOf(t[0], t[0][i]))
    decreases n
  {
    if n > 0 {
      ScoresAt(t, score, n - 1);
    }
  }

  /**
   * `run` leaves one score per feature column, in column order; each is the
   * score of the first column carrying that header name, which is the column
   * itself when the header names are distinct.
   */
  lemma EntropiesPerColumn(t: Table, score: Scorer)
    requires WellFormed(t)
    ensures |Entropies(t, score)| == Width(t) - 1
    ensures forall i :: 0 <= i < Width(t) - 1 ==> Entropies(t, score)[i] == score(t, IndexOf(t[0], t[0][i]))
    ensures DistinctNames(t[0]) ==> forall i :: 0 <= i < Width(t) - 1 ==> Entropies(t, score)[i] == score(t, i)
  {
    ScoresAt(t, score, Width(t) - 1);
    if DistinctNames(t[0]) {
      forall i | 0 <= i < Width(t) - 1 ensures IndexOf(t[0], t[0][i]) == i {
        var k := IndexOf(t[0], t[0][i]);
        if k < i {
          assert t[0][k] == t[0][i];
        }
      }
    }
  }

  /** With no row labelled "Yes" every column scores zero, so the first-minimum rule always splits on column 0. */
  lemma NoYesSplitsFirstColumn(t: Table, ops: FloatOps)
    requires WellFormed(t) && Width(t) >= 2 && ZeroLaws(ops)
    requires forall i :: 0 <= i < |t| ==> Label(t[i]) != YesLabel
    ensures ArgMin(Entropies(t, EntropyScorer(ops))) == 0
  {
    var e := Entropies(t, EntropyScorer(ops));
    EntropiesPerColumn(t, EntropyScorer(ops));
    var root := ArgMin(e);
    ScoreWithoutYes(t, IndexOf(t[0], t[0][0]), ops);
    ScoreWithoutYes(t, IndexOf(t[0], t[0][root]), ops);
  }

  /** With `get_entropy` as the scorer, entry `i` is the entropy of the column header cell `i` names. */
  lemma EntropyPerColumn(t: Table, ops: FloatOps)
    requires WellFormed(t)
    ensures |Entropies(t, EntropyScorer(ops))| == Width(t) - 1
    ensures forall i :: 0 <= i < Width(t) - 1 ==>
              Entropies(t, EntropyScorer(ops))[i] == Score(t, IndexOf(t[0], t[0][i]), ops)
  {
    EntropiesPerColumn(t, EntropyScorer(ops));
  }

  // ---------------------------------------------------------------------
  // The split

  /** With a feature column, the tree splits on the first lowest-scoring one and holds one entry per category. */
  lemma BuildSplits(t: Table, score: Scorer)
    requires WellFormed(t) && Width(t) >= 2
    ensures |Entropies(t, score)| == Width(t) - 1
    ensures var root := ArgMin(Entropies(t, score));
            var r := BuildBranches(t, score, root, Categories(t, root));
            (Build(t, score).Ok? <==> r.Ok?) &&
            (r.Ok? ==> Build(t, score).value == NodeOf(t[0][root], r.value))
  {
  }

  /** A category list drawn from a non-empty column is non-empty. */
  lemma CategoriesNonEmpty(t: Table, col: nat)
    requires WellFormed(t) && col < Width(t) && |t| >= 2
    ensures |Categories(t, col)| >= 1
    ensures Categories(t, col)[0] in ColumnOf(Observations(t), col)
  {
    var column := ColumnOf(Observations(t), col);
    assert column[0] in column;
  }

  /** `build_tree` leaves `{}` exactly when the table has no feature column or no observation. */
  lemma EmptyTree(t: Table, score: Scorer)
    requires WellFormed(t)
    ensures Build(t, score) == Ok(Empty) <==> Width(t) == 1 || |t| == 1
  {
    if Width(t) >= 2 {
      BuildSplits(t, score);
      var root := ArgMin(Entropies(t, score));
      var cats := Categories(t, root);
      if |t| == 1 {
        assert Observations(t) == [];
        assert cats == [];
      } else {
        CategoriesNonEmpty(t, root);
        if BuildBranches(t, score, root, cats).Ok? {
          BuildBranchesKeys(t, score, root, cats);
          assert |Keys(BuildBranches(t, score, root, cats).value)| >= 1;
        }
      }
    }
  }

  /**
   * The shape of a tree `build_tree` completes: one attribute, the split
   * column's header name, whose keys are the category values of that column
   * among the observations, each once and in sorted order, and whose entries
   * are the decisions for those categories.
   */
  lemma TreeShape(t: Table, score: Scorer)
    requires WellFormed(t) && Width(t) >= 2 && |t| >= 2
    requires Build(t, score).Ok?
    ensures var root := ArgMin(Entropies(t, score));
            var tree := Build(t, score).value;
            && tree.Split?
            && tree.attribute == t[0][root]
            && Keys(tree.branches) == Categories(t, root)
            && StrictlySorted(Keys(tree.branches))
            && (forall c :: c in Keys(tree.branches) <==> c in ColumnOf(Observations(t), root))
            && (forall k :: 0 <= k < |tree.branches| ==>
                  Decide(t, score, root, tree.branches[k].0) == Ok(tree.branches[k].1))
  {
    BuildSplits(t, score);
    var root := ArgMin(Entropies(t, score));
    var cats := Categories(t, root);
    CategoriesNonEmpty(t, root);
    BuildBranchesEntries(t, score, root, cats);
    var bs := BuildBranches(t, score, root, cats).value;
    assert |Keys(bs)| >= 1;
    forall k | 0 <= k < |bs| ensures bs[k].0 == cats[k] {
      assert Keys(bs)[k] == bs[k].0;
    }
  }

  /** A table with a feature column and an observation but fewer than two distinct labels makes `build_tree` raise at `yes_no[1]`. */
  lemma SingleLabelFails(t: Table, score: Scorer)
    requires WellFormed(t) && Width(t) >= 2 && |t| >= 2
    requires |LabelValues(t)| < 2
    ensures Build(t, score) == Err(SecondLabelMissing)
  {
    BuildSplits(t, score);
    var root := ArgMin(Entropies(t, score));
    var cats := Categories(t, root);
    CategoriesNonEmpty(t, root);
    BuildBranchesErr(t, score, root, cats, 0);
  }

  // ---------------------------------------------------------------------
  // The category loop

  /** The loop records one entry per category, keyed by the category, in loop order. */
  lemma {:induction false} BuildBranchesKeys(t: Table, score: Scorer, root: nat, cats: seq<string>)
    requires WellFormed(t) && root < Width(t) - 1
    requires BuildBranches(t, score, root, cats).Ok?
    ensures Keys(BuildBranches(t, score, root, cats).value) == cats
    decreases |cats|
  {
    if cats != [] {
      var n := |cats| - 1;
      BuildBranchesKeys(t, score, root, cats[..n]);
      var prefix := BuildBranches(t, score, root, cats[..n]).value;
      var all := BuildBranches(t, score, root, cats).value;
      assert all == prefix + [(cats[n], Decide(t, score, root, cats[n]).value)];
      assert Keys(all) == Keys(prefix) + [cats[n]];
      assert cats == cats[..n] + [cats[n]];
    }
  }

  /** The loop records one entry per category, keyed by the category, in loop order, each the category's decision. */
  lemma {:induction false} BuildBranchesEntries(t: Table, score: Scorer, root: nat, cats: seq<string>)
    requires WellFormed(t) && root < Width(t) - 1
    requires BuildBranches(t, score, root, cats).Ok?
    ensures Keys(BuildBranches(t, score, root, cats).value) == cats
    ensures forall k :: 0 <= k < |cats| ==>
              Decide(t, score, root, cats[k]).Ok? &&
              BuildBranches(t, score, root, cats).value[k].1 == Decide(t, score, root, cats[k]).value
    decreases |cats|
  {
    if cats != [] {
      var n := |cats| - 1;
      BuildBranchesEntries(t, score, root, cats[..n]);
      var prefix := BuildBranches(t, score, root, cats[..n]).value;
      var all := BuildBranches(t, score, root, cats).value;
      assert all == prefix + [(cats[n], Decide(t, score, root, cats[n]).value)];
      assert Keys(all) == Keys(prefix) + [cats[n]];
      assert cats == cats[..n] + [cats[n]];
      forall k | 0 <= k < |cats|
        ensures Decide(t, score, root, cats[k]).Ok? && all[k].1 == Decide(t, score, root, cats[k]).value
      {
        if k < n {
          assert cats[..n][k] == cats[k];
          assert all[k] == prefix[k];
        }
      }
    }
  }

  /** Appending one category to the loop appends its decision, or raises its error. */
  lemma BuildBranchesStep(t: Table, score: Scorer, root: nat, cats: seq<string>, i: nat)
    requires WellFormed(t) && root < Width(t) - 1 && i < |cats|
    ensures BuildBranches(t, score, root, cats[..i + 1]) ==
              match BuildBranches(t, score, root, cats[..i])
              case Err(err) => Err(err)
              case Ok(prefix) =>
                match Decide(t, score, root, cats[i])
                case Err(err) => Err(err)
                case Ok(b) => Ok(prefix + [(cats[i], b)])
  {
    assert cats[..i + 1][..i] == cats[..i];
  }

  /** A category whose decision raises makes the whole loop raise. */
  lemma {:induction false} BuildBranchesErr(t: Table, score: Scorer, root: nat, cats: seq<string>, k: nat)
    requires WellFormed(t) && root < Width(t) - 1
    requires k < |cats| && Decide(t, score, root, cats[k]).Err?
    ensures BuildBranches(t, score, root, cats).Err?
    decreases |cats|
  {
    var n := |cats| - 1;
    var init := cats[..n];
    if k < n {
      assert init[k] == cats[k];
      BuildBranchesErr(t, score, root, init, k);
    }
  }



  // ---------------------------------------------------------------------
  // Leaf or recurse

  /** The header row's label is not among the labels of the observations. */
  lemma HeaderLabelUnused(t: Table, v: string)
    requires WellFormed(t) && Clean(t) && v in LabelValues(t)
    ensures Label(t[0]) != v
  {
    var labels := LabelsOf(Observations(t));
    var j :| 0 <= j < |labels| && labels[j] == v;
    assert t[j + 1][Width(t) - 1] != t[0][Width(t) - 1];
  }

  /**
   * The rule `build_tree` applies to one category of a clean table: a leaf
   * `yes_no[1]` when every observation of the partition carries it, else a
   * leaf `yes_no[0]` when every one carries that, else the subtree of the
   * partition without the split column.
   */
  lemma LeafOrRecurse(t: Table, score: Scorer, root: nat, category: string)
    requires WellFormed(t) && root < Width(t) - 1 && Clean(t)
    requires category in Categories(t, root) && |LabelValues(t)| >= 2
    ensures Labelled(Matching(Observations(t), root, category))
    ensures var obs := Matching(Observations(t), root, category);
            var yesNo := LabelValues(t);
            var d := Decide(t, score, root, category);
            var child := Build(RemoveColumn(Partition(t, category, root), root), score);
            && |obs| >= 1
            && (AllLabelled(obs, yesNo[1]) ==> d == Ok(Leaf(yesNo[1])))
            && (!AllLabelled(obs, yesNo[1]) && AllLabelled(obs, yesNo[0]) ==> d == Ok(Leaf(yesNo[0])))
            && (!AllLabelled(obs, yesNo[1]) && !AllLabelled(obs, yesNo[0]) ==>
                  (d.Ok? <==> child.Ok?) && (child.Ok? ==> d.value == Sub(child.value)))
  {
    var obs := Matching(Observations(t), root, category);
    var yesNo := LabelValues(t);
    var p := Partition(t, category, root);
    var column := ColumnOf(Observations(t), root);
    var i :| 0 <= i < |column| && column[i] == category;
    assert t[i + 1][root] != t[0][root];
    CategoryPresent(t, root, category);
    PartitionShape(t, category, root);
    assert p == [t[0]] + obs;
    assert Labelled(Observations(t));
    LabelCountAppend([t[0]], obs, yesNo[0]);
    LabelCountAppend([t[0]], obs, yesNo[1]);
    assert [t[0]][..0] == [];
    HeaderLabelUnused(t, yesNo[0]);
    HeaderLabelUnused(t, yesNo[1]);
    LabelCountFull(obs, yesNo[0]);
    LabelCountFull(obs, yesNo[1]);
  }

  // ---------------------------------------------------------------------
  // Depth

  /** A bound on every subtree among the first `k` branches bounds their depth. */
  lemma {:induction false} DepthUpToBound(n: Node, k: nat, m: nat)
    requires n.Split? && k <= |n.branches|
    requires forall j :: 0 <= j < k && n.branches[j].1.Sub? ==> Depth(n.branches[j].1.node) <= m
    ensures DepthUpTo(n, k) <= m
    decreases k
  {
    if k > 0 {
      DepthUpToBound(n, k - 1, m);
    }
  }

  /** Every recursive table has one column fewer, so a tree is at most as deep as its table has feature columns. */
  lemma DepthBound(t: Table, score: Scorer)
    requires WellFormed(t) && Build(t, score).Ok?
    ensures Depth(Build(t, score).value) <= Width(t) - 1
    decreases Width(t), 1
  {
    if Width(t) >= 2 {
      BuildSplits(t, score);
      var root := ArgMin(Entropies(t, score));
      var cats := Categories(t, root);
      BuildBranchesEntries(t, score, root, cats);
      var bs := BuildBranches(t, score, root, cats).value;
      if bs != [] {
        var n := Split(t[0][root], bs);
        forall j | 0 <= j < |bs| && bs[j].1.Sub?
          ensures Depth(bs[j].1.node) <= Width(t) - 2
        {
          SubtreeDepth(t, score, root, cats[j]);
        }
        DepthUpToBound(n, |bs|, Width(t) - 2);
      }
    }
  }

  lemma SubtreeDepth(t: Table, score: Scorer, root: nat, category: string)
    requires WellFormed(t) && root < Width(t) - 1
    requires Decide(t, score, root, category).Ok? && Decide(t, score, root, category).value.Sub?
    ensures Depth(Decide(t, score, root, category).value.node) <= Width(t) - 2
    decreases Width(t), 0
  {
    DepthBound(RemoveColumn(Partition(t, category, root), root), score);
  }

  // ---------------------------------------------------------------------
  // When build_tree completes

  /** Every observation of a partition carries one of the table's labels. */
  lemma PartitionLabelIn(t: Table, col: nat, category: string, i: nat)
    requires WellFormed(t) && col < Width(t)
    requires Labelled(Matching(Observations(t), col, category))
    requires i < |Matching(Observations(t), col, category)|
    ensures Label(Matching(Observations(t), col, category)[i]) in LabelValues(t)
  {
    var obs := Matching(Observations(t), col, category);
    assert obs[i] in obs;
    var m :| 0 <= m < |t| - 1 && Observations(t)[m] == obs[i];
    assert Labelled(Observations(t));
    assert LabelsOf(Observations(t))[m] == Label(obs[i]);
  }

  /** An impure partition of a clean table with two labels recurses on a table with the same two labels. */
  lemma ImpureChildLabels(t: Table, root: nat, category: string)
    requires WellFormed(t) && root < Width(t) - 1 && Clean(t)
    requires category in Categories(t, root) && |LabelValues(t)| == 2
    requires Labelled(Matching(Observations(t), root, category))
    requires !AllLabelled(Matching(Observations(t), root, category), LabelValues(t)[1])
    requires !AllLabelled(Matching(Observations(t), root, category), LabelValues(t)[0])
    ensures WellFormed(RemoveColumn(Partition(t, category, root), root))
    ensures LabelValues(RemoveColumn(Partition(t, category, root), root)) == LabelValues(t)
  {
    var obs := Matching(Observations(t), root, category);
    var yesNo := LabelValues(t);
    var child := RemoveColumn(Partition(t, category, root), root);
    PartitionChild(t, root, category);
    var labels := LabelsOf(Observations(child));
    assert labels == LabelsOf(obs);
    forall y | y in labels ensures y == yesNo[0] || y == yesNo[1] {
      var i :| 0 <= i < |obs| && Label(obs[i]) == y;
      PartitionLabelIn(t, root, category, i);
    }
    var i0 :| 0 <= i0 < |obs| && Label(obs[i0]) != yesNo[1];
    PartitionLabelIn(t, root, category, i0);
    assert labels[i0] == yesNo[0];
    var i1 :| 0 <= i1 < |obs| && Label(obs[i1]) != yesNo[0];
    PartitionLabelIn(t, root, category, i1);
    assert labels[i1] == yesNo[1];
    assert yesNo == [yesNo[0], yesNo[1]];
    SortedPair(LabelValues(child), yesNo[0], yesNo[1]);
  }

  /** On a clean table whose observations carry exactly two labels, `build_tree` never raises. */
  lemma CleanTwoLabelsSucceed(t: Table, score: Scorer)
    requires WellFormed(t) && Clean(t) && |LabelValues(t)| == 2
    ensures Build(t, score).Ok?
    decreases Width(t), 2, 0
  {
    if Width(t) >= 2 {
      BuildSplits(t, score);
      var root := ArgMin(Entropies(t, score));
      var cats := Categories(t, root);
      BranchesSucceed(t, score, root, cats);
    }
  }

  lemma {:induction false} BranchesSucceed(t: Table, score: Scorer, root: nat, cats: seq<string>)
    requires WellFormed(t) && root < Width(t) - 1 && Clean(t) && |LabelValues(t)| == 2
    requires forall c :: c in cats ==> c in Categories(t, root)
    ensures BuildBranches(t, score, root, cats).Ok?
    decreases Width(t), 1, |cats|
  {
    if cats != [] {
      var n := |cats| - 1;
      assert forall c :: c in cats[..n] ==> c in cats;
      BranchesSucceed(t, score, root, cats[..n]);
      assert cats[n] in cats;
      DecideSucceeds(t, score, root, cats[n]);
    }
  }

  lemma DecideSucceeds(t: Table, score: Scorer, root: nat, category: string)
    requires WellFormed(t) && root < Width(t) - 1 && Clean(t) && |LabelValues(t)| == 2
    requires category in Categories(t, root)
    ensures Decide(t, score, root, category).Ok?
    decreases Width(t), 0, 0
  {
    LeafOrRecurse(t, score, root, category);
    var obs := Matching(Observations(t), root, category);
    var yesNo := LabelValues(t);
    if !AllLabelled(obs, yesNo[1]) && !AllLabelled(obs, yesNo[0]) {
      var child := RemoveColumn(Partition(t, category, root), root);
      PartitionChild(t, root, category);
      ImpureChildLabels(t, root, category);
      CleanTwoLabelsSucceed(child, score);
    }
  }
}
