/**
 * The table a DecisionTree owns: row 0 is the header, every later row an
 * observation, the last column the label. Partitioning (`get_rows`),
 * column removal (`np.delete`) and the label counts (`list.count`).
 */
module Tables {
  import opened StringOrder

  type Row = seq<string>
  type Table = seq<Row>

  /** A header, all rows as wide as the header, and at least the label column. */
  predicate WellFormed(t: Table) {
    |t| >= 1 && |t[0]| >= 1 && forall i :: 0 <= i < |t| ==> |t[i]| == |t[0]|
  }

  function Width(t: Table): nat
    requires |t| >= 1
  {
    |t[0]|
  }

  function Observations(t: Table): Table
    requires |t| >= 1
  {
    t[1..]
  }

  /** Every row has a cell at `col`. */
  predicate HasColumn(rows: Table, col: nat) {
    forall i :: 0 <= i < |rows| ==> col < |rows[i]|
  }

  /** Every row is non-empty, so it has a last (label) cell. */
  predicate Labelled(rows: Table) {
    forall i :: 0 <= i < |rows| ==> |rows[i]| > 0
  }

  function Label(row: Row): string
    requires |row| > 0
  {
    row[|row| - 1]
  }

  /** The cells of column `col`, top to bottom. */
  function ColumnOf(rows: Table, col: nat): (c: seq<string>)
    requires HasColumn(rows, col)
  {
    seq(|rows|, i requires 0 <= i < |rows| => rows[i][col])
  }

  /** The label cells, top to bottom. */
  function LabelsOf(rows: Table): (c: seq<string>)
    requires Labelled(rows)
  {
    seq(|rows|, i requires 0 <= i < |rows| => Label(rows[i]))
  }

  /** The distinct values of column `col` among the observations, sorted (`np.unique`). */
  function Categories(t: Table, col: nat): (cats: seq<string>)
    requires WellFormed(t) && col < Width(t)
  {
    Unique(ColumnOf(Observations(t), col))
  }

  /** The distinct labels of the observations, sorted: `yes_no` in `build_tree`. */
  function LabelValues(t: Table): (labels: seq<string>)
    requires WellFormed(t)
  {
    assert forall i :: 0 <= i < |t| - 1 ==> Observations(t)[i] == t[i + 1];
    Unique(LabelsOf(Observations(t)))
  }

  /** The rows whose cell at `col` equals `category`, in their original order. */
  function Matching(rows: Table, col: nat, category: string): (m: Table)
    requires HasColumn(rows, col)
    ensures |m| <= |rows|
    ensures forall r :: r in m ==> r in rows
    ensures Labelled(rows) ==> Labelled(m)
    decreases |rows|
  {
    if rows == [] then []
    else
      var last := rows[|rows| - 1];
      Matching(rows[..|rows| - 1], col, category) + (if last[col] == category then [last] else [])
  }

  /** `get_rows(category, col)`: the header, then every row of the whole table (row 0 included) whose cell at `col` is `category`. */
  function Partition(t: Table, category: string, col: nat): (p: Table)
    requires WellFormed(t) && col < Width(t)
    ensures WellFormed(p) && Width(p) == Width(t)
  {
    var m := Matching(t, col, category);
    assert forall i :: 0 <= i < |m| ==> m[i] in t;
    [t[0]] + m
  }

  /** The number of rows whose label cell is `value` (`list(...).count(value)` on a label column). */
  function LabelCount(rows: Table, value: string): (n: nat)
    requires Labelled(rows)
    ensures n <= |rows|
    decreases |rows|
  {
    if rows == [] then 0
    else LabelCount(rows[..|rows| - 1], value) + (if Label(rows[|rows| - 1]) == value then 1 else 0)
  }

  /** `np.delete(t, col, 1)`: every row without its cell at `col`. */
  function RemoveColumn(t: Table, col: nat): (r: Table)
    requires WellFormed(t) && col < Width(t)
    ensures |r| == |t|
    ensures Width(t) >= 2 ==> WellFormed(r) && Width(r) == Width(t) - 1
    ensures forall i, j :: 0 <= i < |t| && 0 <= j < Width(t) - 1 ==>
      |r[i]| == Width(t) - 1 && r[i][j] == t[i][if j < col then j else j + 1]
  {
    seq(|t|, i requires 0 <= i < |t| => t[i][..col] + t[i][col + 1..])
  }

  /** The first position of `name` in the header (`np.where(table == name)[1][0]`). */
  function IndexOf(header: Row, name: string): (k: nat)
    requires name in header
    ensures k < |header| && header[k] == name
    ensures forall j :: 0 <= j < k ==> header[j] != name
  {
    if header[0] == name then 0
    else
      assert name in header[1..] by { assert header == [header[0]] + header[1..]; }
      1 + IndexOf(header[1..], name)
  }

  /** No header cell reappears among the observations of its own column. */
  predicate Clean(t: Table)
    requires WellFormed(t)
  {
    forall i, j :: 1 <= i < |t| && 0 <= j < Width(t) ==> t[i][j] != t[0][j]
  }

  // ---------------------------------------------------------------------
  // Partitioning

  /** Filtering a concatenation filters each part and keeps their order. */
  lemma {:induction false} MatchingAppend(a: Table, b: Table, col: nat, category: string)
    requires HasColumn(a, col) && HasColumn(b, col)
    ensures HasColumn(a + b, col)
    ensures Matching(a + b, col, category) == Matching(a, col, category) + Matching(b, col, category)
    decreases |b|
  {
    assert HasColumn(a + b, col) by {
      forall i | 0 <= i < |a + b| ensures col < |(a + b)[i]| {
        if i >= |a| { assert (a + b)[i] == b[i - |a|]; }
      }
    }
    if b != [] {
      var b' := b[..|b| - 1];
      assert (a + b)[..|a + b| - 1] == a + b';
      assert (a + b)[|a + b| - 1] == b[|b| - 1];
      MatchingAppend(a, b', col, category);
    } else {
      assert a + b == a;
    }
  }

  /** Filtering keeps each matching row with its multiplicity and drops every other row. */
  lemma {:induction false} MatchingMultiset(rows: Table, col: nat, category: string)
    requires HasColumn(rows, col)
    ensures forall r ::
              multiset(Matching(rows, col, category))[r] ==
              (if r in rows && r[col] == category then multiset(rows)[r] else 0)
    decreases |rows|
  {
    if rows != [] {
      var init := rows[..|rows| - 1];
      var last := rows[|rows| - 1];
      assert rows == init + [last];
      MatchingMultiset(init, col, category);
      forall r
        ensures multiset(Matching(rows, col, category))[r] ==
                (if r in rows && r[col] == category then multiset(rows)[r] else 0)
      {
        if r !in init {
          assert multiset(init)[r] == 0;
        }
        if r !in rows {
          assert multiset(rows)[r] == 0;
        }
      }
    }
  }

  /**
   * `get_rows` returns the header, then the header a second time if its own
   * cell at `col` is `category`, then the matching observations in order.
   */
  lemma PartitionShape(t: Table, category: string, col: nat)
    requires WellFormed(t) && col < Width(t)
    ensures Partition(t, category, col) ==
      [t[0]] + (if t[0][col] == category then [t[0]] else []) + Matching(Observations(t), col, category)
  {
    assert t == [t[0]] + t[1..];
    MatchingAppend([t[0]], t[1..], col, category);
    assert Matching([t[0]], col, category) == (if t[0][col] == category then [t[0]] else []) by {
      assert [t[0]][..0] == [];
    }
  }

  /** The observations a partition holds are exactly the matching observations, with multiplicity. */
  lemma PartitionContents(t: Table, category: string, col: nat)
    requires WellFormed(t) && col < Width(t) && t[0][col] != category
    ensures Partition(t, category, col)[0] == t[0]
    ensures forall r ::
              multiset(Partition(t, category, col)[1..])[r] ==
              (if r in Observations(t) && r[col] == category then multiset(Observations(t))[r] else 0)
  {
    PartitionShape(t, category, col);
    assert Partition(t, category, col)[1..] == Matching(Observations(t), col, category);
    MatchingMultiset(Observations(t), col, category);
  }

  /** A value taken from a column of the observations has at least one observation in its partition. */
  lemma CategoryPresent(t: Table, col: nat, category: string)
    requires WellFormed(t) && col < Width(t)
    requires category in ColumnOf(Observations(t), col)
    ensures |t| >= 2
    ensures |Matching(Observations(t), col, category)| >= 1
    ensures |Partition(t, category, col)| >= 2
  {
    var obs := Observations(t);
    var i :| 0 <= i < |obs| && ColumnOf(obs, col)[i] == category;
    MatchingMultiset(obs, col, category);
    assert obs[i] in obs;
    assert multiset(Matching(obs, col, category))[obs[i]] > 0;
    PartitionShape(t, category, col);
  }

  // ---------------------------------------------------------------------
  // Label counts

  lemma {:induction false} LabelCountAppend(a: Table, b: Table, value: string)
    requires Labelled(a) && Labelled(b)
    ensures Labelled(a + b)
    ensures LabelCount(a + b, value) == LabelCount(a, value) + LabelCount(b, value)
    decreases |b|
  {
    assert Labelled(a + b) by {
      forall i | 0 <= i < |a + b| ensures |(a + b)[i]| > 0 {
        if i >= |a| { assert (a + b)[i] == b[i - |a|]; }
      }
    }
    if b != [] {
      var b' := b[..|b| - 1];
      assert (a + b)[..|a + b| - 1] == a + b';
      assert (a + b)[|a + b| - 1] == b[|b| - 1];
      LabelCountAppend(a, b', value);
    } else {
      assert a + b == a;
    }
  }

  /** Every row is labelled `value`. */
  predicate AllLabelled(rows: Table, value: string)
    requires Labelled(rows)
  {
    forall i :: 0 <= i < |rows| ==> Label(rows[i]) == value
  }

  /** The count reaches the number of rows exactly when every row carries that label. */
  lemma {:induction false} LabelCountFull(rows: Table, value: string)
    requires Labelled(rows)
    ensures LabelCount(rows, value) == |rows| <==> AllLabelled(rows, value)
    decreases |rows|
  {
    if rows != [] {
      var init := rows[..|rows| - 1];
      LabelCountFull(init, value);
      assert forall i :: 0 <= i < |init| ==> init[i] == rows[i];
    }
  }

  /** The count is positive exactly when some row carries the label. */
  lemma {:induction false} LabelCountPositive(rows: Table, value: string)
    requires Labelled(rows)
    ensures LabelCount(rows, value) > 0 <==> exists i :: 0 <= i < |rows| && Label(rows[i]) == value
    decreases |rows|
  {
    if rows != [] {
      var init := rows[..|rows| - 1];
      LabelCountPositive(init, value);
      assert forall i :: 0 <= i < |init| ==> init[i] == rows[i];
      if LabelCount(init, value) > 0 {
        var i :| 0 <= i < |init| && Label(init[i]) == value;
        assert Label(rows[i]) == value;
      }
    }
  }

  // ---------------------------------------------------------------------
  // Column removal

  /** Removing a feature column keeps every row's label. */
  lemma RemoveColumnKeepsLabels(t: Table, col: nat)
    requires WellFormed(t) && col < Width(t) - 1
    ensures Labelled(RemoveColumn(t, col))
    ensures LabelsOf(RemoveColumn(t, col)) == LabelsOf(t)
  {
    var r := RemoveColumn(t, col);
    forall i | 0 <= i < |t| ensures Label(r[i]) == Label(t[i]) {
      assert r[i][Width(t) - 2] == t[i][Width(t) - 1];
    }
  }

  /**
   * The table `build_tree` recurses on for a category of a clean table: one
   * column narrower, clean again, and its observations carry the labels of
   * the partition's observations.
   */
  lemma PartitionChild(t: Table, col: nat, category: string)
    requires WellFormed(t) && col < Width(t) - 1 && Clean(t)
    requires category in ColumnOf(Observations(t), col)
    ensures Labelled(Matching(Observations(t), col, category))
    ensures var child := RemoveColumn(Partition(t, category, col), col);
            && WellFormed(child) && Width(child) == Width(t) - 1 && Clean(child)
            && LabelsOf(Observations(child)) == LabelsOf(Matching(Observations(t), col, category))
  {
    var obs := Matching(Observations(t), col, category);
    var p := Partition(t, category, col);
    var child := RemoveColumn(p, col);
    var column := ColumnOf(Observations(t), col);
    var k :| 0 <= k < |column| && column[k] == category;
    assert t[k + 1][col] != t[0][col];
    PartitionShape(t, category, col);
    assert p == [t[0]] + obs;
    forall i, j | 1 <= i < |child| && 0 <= j < Width(child)
      ensures child[i][j] != child[0][j]
    {
      var j' := if j < col then j else j + 1;
      assert p[i] == obs[i - 1];
      assert obs[i - 1] in Observations(t);
      var m :| 0 <= m < |t| - 1 && Observations(t)[m] == obs[i - 1];
      assert t[m + 1][j'] != t[0][j'];
    }
    RemoveColumnKeepsLabels(p, col);
    assert Labelled(Observations(t));
    forall i | 0 <= i < |obs| ensures LabelsOf(Observations(child))[i] == Label(obs[i]) {
      assert LabelsOf(child)[i + 1] == LabelsOf(p)[i + 1];
    }
  }
}
