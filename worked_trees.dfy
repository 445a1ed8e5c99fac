/**
 * Two small tables and the trees `build_tree` makes of them, whatever the
 * column scores are.
 */
module WorkedTrees {
  import opened StringOrder
  import opened Tables
  import opened Id3
  import opened Entropy
  import Id3Properties

  const Weather: Table := [["Weather", "Play"], ["Sunny", "No"], ["Rainy", "Yes"]]

  /** The one feature column is the split; its categories sorted, and the labels sorted. */
  lemma WeatherColumns(score: Scorer)
    ensures WellFormed(Weather) && Width(Weather) == 2
    ensures ArgMin(Entropies(Weather, score)) == 0
    ensures Categories(Weather, 0) == ["Rainy", "Sunny"]
    ensures LabelValues(Weather) == ["No", "Yes"]
  {
    var t := Weather;
    assert |Entropies(t, score)| == 1;
    assert ColumnOf(Observations(t), 0) == ["Sunny", "Rainy"];
    assert Less("Rainy", "Sunny");
    assert Unique(["Sunny"]) == ["Sunny"];
    assert LabelsOf(Observations(t)) == ["No", "Yes"];
    assert Less("No", "Yes");
    assert Unique(["No"]) == ["No"];
  }

  lemma WeatherRainy(score: Scorer)
    ensures WellFormed(Weather) && Width(Weather) == 2
    ensures Decide(Weather, score, 0, "Rainy") == Ok(Leaf("Yes"))
  {
    var t := Weather;
    WeatherColumns(score);
    assert t[..2] == [["Weather", "Play"], ["Sunny", "No"]];
    assert t[..2][..1] == [["Weather", "Play"]];
    assert Matching([["Weather", "Play"]], 0, "Rainy") == [];
    assert Matching(t, 0, "Rainy") == [["Rainy", "Yes"]];
    var p := [["Weather", "Play"], ["Rainy", "Yes"]];
    assert Partition(t, "Rainy", 0) == p;
    assert p[..1] == [["Weather", "Play"]];
    assert LabelCount(p, "Yes") == 1;
  }

  lemma WeatherSunny(score: Scorer)
    ensures WellFormed(Weather) && Width(Weather) == 2
    ensures Decide(Weather, score, 0, "Sunny") == Ok(Leaf("No"))
  {
    var t := Weather;
    WeatherColumns(score);
    assert t[..2] == [["Weather", "Play"], ["Sunny", "No"]];
    assert t[..2][..1] == [["Weather", "Play"]];
    assert Matching([["Weather", "Play"]], 0, "Sunny") == [];
    assert Matching(t, 0, "Sunny") == [["Sunny", "No"]];
    var p := [["Weather", "Play"], ["Sunny", "No"]];
    assert Partition(t, "Sunny", 0) == p;
    assert p[..1] == [["Weather", "Play"]];
    assert LabelCount(p, "Yes") == 0;
    assert LabelCount(p, "No") == 1;
  }

  /** Each weather value decides the label alone: `{"Weather": {"Rainy": "Yes", "Sunny": "No"}}`. */
  lemma WeatherTree(score: Scorer)
    ensures WellFormed(Weather)
    ensures Build(Weather, score) == Ok(Split("Weather", [("Rainy", Leaf("Yes")), ("Sunny", Leaf("No"))]))
  {
    var t := Weather;
    var cats := ["Rainy", "Sunny"];
    WeatherColumns(score);
    WeatherRainy(score);
    WeatherSunny(score);
    assert cats[..0] == [] && cats[..1] == ["Rainy"] && cats[..2] == cats;
    assert BuildBranches(t, score, 0, cats[..0]) == Ok([]);
    Id3Properties.BuildBranchesStep(t, score, 0, cats, 0);
    assert [] + [(cats[0], Leaf("Yes"))] == [("Rainy", Leaf("Yes"))];
    assert BuildBranches(t, score, 0, cats[..1]) == Ok([("Rainy", Leaf("Yes"))]);
    Id3Properties.BuildBranchesStep(t, score, 0, cats, 1);
    assert [("Rainy", Leaf("Yes"))] + [(cats[1], Leaf("No"))] == [("Rainy", Leaf("Yes")), ("Sunny", Leaf("No"))];
    assert BuildBranches(t, score, 0, cats) == Ok([("Rainy", Leaf("Yes")), ("Sunny", Leaf("No"))]);
    Id3Properties.BuildSplits(t, score);
    assert t[0][0] == "Weather";
  }

  /**
   * A header whose label cell is itself a label value. The header row is
   * counted with every partition, so the category whose only observation is
   * "No" becomes a "Yes" leaf, and the one whose observation is "Yes" is not
   * seen as pure and maps to the empty tree of its one-column partition:
   * `{"A": {"x": {}, "y": "Yes"}}`.
   */
  const Quirk: Table := [["A", "Yes"], ["x", "Yes"], ["y", "No"]]

  lemma QuirkColumns(score: Scorer)
    ensures WellFormed(Quirk) && Width(Quirk) == 2
    ensures ArgMin(Entropies(Quirk, score)) == 0
    ensures Categories(Quirk, 0) == ["x", "y"]
    ensures LabelValues(Quirk) == ["No", "Yes"]
  {
    var t := Quirk;
    assert |Entropies(t, score)| == 1;
    assert ColumnOf(Observations(t), 0) == ["x", "y"];
    assert Less("x", "y");
    assert Unique(["x"]) == ["x"];
    assert LabelsOf(Observations(t)) == ["Yes", "No"];
    assert Less("No", "Yes");
    assert Unique(["Yes"]) == ["Yes"];
  }

  lemma QuirkX(score: Scorer)
    ensures WellFormed(Quirk) && Width(Quirk) == 2
    ensures Decide(Quirk, score, 0, "x") == Ok(Sub(Empty))
  {
    var t := Quirk;
    QuirkColumns(score);
    var p := [["A", "Yes"], ["x", "Yes"]];
    assert t[..2] == p && p[..1] == [["A", "Yes"]];
    assert Matching([["A", "Yes"]], 0, "x") == [];
    assert Matching(t, 0, "x") == [["x", "Yes"]];
    assert Partition(t, "x", 0) == p;
    assert LabelCount(p, "Yes") == 2;
    assert LabelCount(p, "No") == 0;
    var child := RemoveColumn(p, 0);
    assert |child[0]| == 1 && child[0][0] == "Yes";
    assert |child[1]| == 1 && child[1][0] == "Yes";
    assert Width(child) == 1;
    Id3Properties.EmptyTree(child, score);
  }

  lemma QuirkY(score: Scorer)
    ensures WellFormed(Quirk) && Width(Quirk) == 2
    ensures Decide(Quirk, score, 0, "y") == Ok(Leaf("Yes"))
  {
    var t := Quirk;
    QuirkColumns(score);
    assert t[..2] == [["A", "Yes"], ["x", "Yes"]];
    assert t[..2][..1] == [["A", "Yes"]];
    assert Matching([["A", "Yes"]], 0, "y") == [];
    assert Matching(t, 0, "y") == [["y", "No"]];
    var p := [["A", "Yes"], ["y", "No"]];
    assert Partition(t, "y", 0) == p;
    assert p[..1] == [["A", "Yes"]];
    assert LabelCount(p, "Yes") == 1;
  }

  lemma QuirkTree(score: Scorer)
    ensures WellFormed(Quirk)
    ensures Build(Quirk, score) == Ok(Split("A", [("x", Sub(Empty)), ("y", Leaf("Yes"))]))
  {
    var t := Quirk;
    var cats := ["x", "y"];
    QuirkColumns(score);
    QuirkX(score);
    QuirkY(score);
    assert cats[..0] == [] && cats[..1] == ["x"] && cats[..2] == cats;
    assert BuildBranches(t, score, 0, cats[..0]) == Ok([]);
    Id3Properties.BuildBranchesStep(t, score, 0, cats, 0);
    assert [] + [(cats[0], Sub(Empty))] == [("x", Sub(Empty))];
    assert BuildBranches(t, score, 0, cats[..1]) == Ok([("x", Sub(Empty))]);
    Id3Properties.BuildBranchesStep(t, score, 0, cats, 1);
    assert [("x", Sub(Empty))] + [(cats[1], Leaf("Yes"))] == [("x", Sub(Empty)), ("y", Leaf("Yes"))];
    assert BuildBranches(t, score, 0, cats) == Ok([("x", Sub(Empty)), ("y", Leaf("Yes"))]);
    Id3Properties.BuildSplits(t, score);
    assert t[0][0] == "A";
  }

  /** The partition of "x" in `Quirk`: the header row and the row of "x". */
  lemma QuirkPartitionX()
    ensures WellFormed(Quirk) && Width(Quirk) == 2
    ensures Partition(Quirk, "x", 0) == [["A", "Yes"], ["x", "Yes"]]
  {
    var t := Quirk;
    var h := [["A", "Yes"]];
    assert t[..2] == [["A", "Yes"], ["x", "Yes"]] && t[..2][..1] == h && h[..0] == [];
    assert Matching(h, 0, "x") == [];
    assert Matching(t[..2], 0, "x") == [["x", "Yes"]];
    assert Matching(t, 0, "x") == [["x", "Yes"]];
  }

  /** The partition of "y" in `Quirk`: the header row and the row of "y". */
  lemma QuirkPartitionY()
    ensures WellFormed(Quirk) && Width(Quirk) == 2
    ensures Partition(Quirk, "y", 0) == [["A", "Yes"], ["y", "No"]]
  {
    var t := Quirk;
    var h := [["A", "Yes"]];
    assert t[..2] == [["A", "Yes"], ["x", "Yes"]] && t[..2][..1] == h && h[..0] == [];
    assert Matching(h, 0, "y") == [];
    assert Matching(t[..2], 0, "y") == [];
    assert Matching(t, 0, "y") == [["y", "No"]];
  }

  /** In `Quirk`, "x" gets the header row's "Yes" too: `x = 1`, two "Yes" and `no_in_subtable = -1`. */
  lemma QuirkCountsX()
    ensures WellFormed(Quirk) && Width(Quirk) == 2
    ensures CategorySize(Quirk, "x", 0) == 1 && YesCount(Quirk, "x", 0) == 2 && NoCount(Quirk, "x", 0) == -1
  {
    var p := [["A", "Yes"], ["x", "Yes"]];
    QuirkPartitionX();
    assert p[..1] == [["A", "Yes"]] && p[..1][..0] == [];
    assert LabelCount(p[..1], "Yes") == 1;
    assert LabelCount(p, "Yes") == 2;
  }

  /** In `Quirk`, "y" has one "No" observation, yet the header row makes its "Yes" count 1. */
  lemma QuirkCountsY()
    ensures WellFormed(Quirk) && Width(Quirk) == 2
    ensures CategorySize(Quirk, "y", 0) == 1 && YesCount(Quirk, "y", 0) == 1 && NoCount(Quirk, "y", 0) == 0
  {
    var p := [["A", "Yes"], ["y", "No"]];
    QuirkPartitionY();
    assert p[..1] == [["A", "Yes"]] && p[..1][..0] == [];
    assert LabelCount(p[..1], "Yes") == 1;
    assert LabelCount(p, "Yes") == 1;
  }

  /** The summand of "x": `prob1 = 2`, `prob2 = -1`, weight 1/2, so `-(2 * log2(2) + -1 * 1) / 2 = -1/2`. */
  lemma QuirkTermX(log2: real -> real)
    requires log2(2.0) == 1.0
    ensures WellFormed(Quirk) && Width(Quirk) == 2
    ensures Term(Quirk, 0, "x", ExactOps(log2)) == -0.5
  {
    var ops := ExactOps(log2);
    QuirkCountsX();
    assert ops.div(1, 2) == 0.5;
    assert ops.div(2, 1) == 2.0;
    assert ops.div(-1, 1) == -1.0;
    assert LogOrOne(2.0, ops) == 1.0;
    assert LogOrOne(-1.0, ops) == 1.0;
  }

  /** The summand of "y": `prob1 = 1`, `prob2 = 0`, so it is `-(1 * log2(1) + 0 * 1) / 2 = 0`. */
  lemma QuirkTermY(log2: real -> real)
    requires log2(1.0) == 0.0
    ensures WellFormed(Quirk) && Width(Quirk) == 2
    ensures Term(Quirk, 0, "y", ExactOps(log2)) == 0.0
  {
    var ops := ExactOps(log2);
    QuirkCountsY();
    assert ops.div(1, 2) == 0.5;
    assert ops.div(1, 1) == 1.0;
    assert ops.div(0, 1) == 0.0;
    assert LogOrOne(1.0, ops) == 0.0;
    assert LogOrOne(0.0, ops) == 1.0;
  }

  /**
   * A header labelled "Yes" makes the entropy negative: with exact
   * arithmetic the one feature column of `Quirk` scores `-1/2`, although
   * each of its partitions holds a single observation.
   */
  lemma QuirkScore(log2: real -> real)
    requires log2(1.0) == 0.0 && log2(2.0) == 1.0
    ensures WellFormed(Quirk) && Width(Quirk) == 2
    ensures Score(Quirk, 0, ExactOps(log2)) == -0.5
  {
    var ops := ExactOps(log2);
    QuirkColumns(EntropyScorer(ops));
    QuirkTermX(log2);
    QuirkTermY(log2);
    var cats := ["x", "y"];
    assert cats[..1] == ["x"] && cats[..1][..0] == [];
    assert SumTerms(Quirk, 0, ["x"], ops) == -0.5;
    assert SumTerms(Quirk, 0, cats, ops) == -0.5;
  }
}
