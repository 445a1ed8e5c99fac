/**
 * Split selection and tree building (`run` and `build_tree`), as functions
 * of the table and of the score each feature column gets.
 */
module Id3 {
  import opened StringOrder
  import opened Tables

  /** How `get_entropy` scores a column of a table; lower is a better split. */
  type Scorer = (Table, nat) -> real

  /** What a category maps to: a label, or the subtree of its partition. */
  datatype Branch = Leaf(value: string) | Sub(node: Node)

  /** `self.tree`: `{}`, or one attribute name mapped to an ordered map from category to branch. */
  datatype Node = Empty | Split(attribute: string, branches: seq<(string, Branch)>)

  /** `yes_no[1]` raises an IndexError when the observations carry fewer than two labels. */
  datatype BuildError = SecondLabelMissing

  datatype Result<T> = Ok(value: T) | Err(error: BuildError)

  /** How running a DecisionTree ends: normally, or with the exception `build_tree` raises. */
  datatype Outcome = Pass | Fail(error: BuildError)

  // ---------------------------------------------------------------------
  // The entropies run collects

  /** The scores of the first `n` header cells, each column found by its name. */
  function Scores(t: Table, score: Scorer, n: nat): (s: seq<real>)
    requires WellFormed(t) && n <= Width(t)
    ensures |s| == n
  {
    if n == 0 then []
    else Scores(t, score, n - 1) + [score(t, IndexOf(t[0], t[0][n - 1]))]
  }

  /** `self.entropies` after `run`: one score per header cell but the last. */
  function Entropies(t: Table, score: Scorer): (e: seq<real>)
    requires WellFormed(t)
  {
    Scores(t, score, Width(t) - 1)
  }

  /** No two header cells are equal. */
  predicate DistinctNames(header: Row) {
    forall i, j :: 0 <= i < j < |header| ==> header[i] != header[j]
  }

  // ---------------------------------------------------------------------
  // Split selection

  /** `np.argmin`: the first position of the smallest score. */
  function ArgMin(s: seq<real>): (k: nat)
    requires |s| > 0
    ensures k < |s|
    ensures forall j :: 0 <= j < |s| ==> s[k] <= s[j]
    ensures forall j :: 0 <= j < k ==> s[k] < s[j]
  {
    ArgMinFrom(s, 0, 1)
  }

  /** Scans on from `i`, `best` being the first minimum of `s[..i]`. */
  function ArgMinFrom(s: seq<real>, best: nat, i: nat): (k: nat)
    requires best < i <= |s|
    requires forall j :: 0 <= j < i ==> s[best] <= s[j]
    requires forall j :: 0 <= j < best ==> s[best] < s[j]
    ensures k < |s|
    ensures forall j :: 0 <= j < |s| ==> s[k] <= s[j]
    ensures forall j :: 0 <= j < k ==> s[k] < s[j]
    decreases |s| - i
  {
    if i == |s| then best
    else if s[i] < s[best] then ArgMinFrom(s, i, i + 1)
    else ArgMinFrom(s, best, i + 1)
  }

  // ---------------------------------------------------------------------
  // Tree building

  function Keys(branches: seq<(string, Branch)>): (keys: seq<string>) {
    seq(|branches|, i requires 0 <= i < |branches| => branches[i].0)
  }

  /** The tree a loop over categories leaves: untouched `{}` when there were none. */
  function NodeOf(attribute: string, branches: seq<(string, Branch)>): Node {
    if branches == [] then Empty else Split(attribute, branches)
  }

  /** `build_tree` on a table, with the tree of every impure partition built recursively. */
  function Build(t: Table, score: Scorer): Result<Node>
    requires WellFormed(t)
    decreases Width(t), 1, 0
  {
    var e := Entropies(t, score);
    if |e| == 0 then Ok(Empty)
    else
      var root := ArgMin(e);
      match BuildBranches(t, score, root, Categories(t, root))
      case Ok(branches) => Ok(NodeOf(t[0][root], branches))
      case Err(err) => Err(err)
  }

  /** The loop of `build_tree` over the given categories of the split column, in order. */
  function BuildBranches(t: Table, score: Scorer, root: nat, cats: seq<string>): Result<seq<(string, Branch)>>
    requires WellFormed(t) && root < Width(t) - 1
    decreases Width(t), 0, |cats|
  {
    if cats == [] then Ok([])
    else
      var n := |cats| - 1;
      match BuildBranches(t, score, root, cats[..n])
      case Err(err) => Err(err)
      case Ok(branches) =>
        match Decide(t, score, root, cats[n])
        case Err(err) => Err(err)
        case Ok(b) => Ok(branches + [(cats[n], b)])
  }

  /** One iteration of that loop: a leaf when the counts say pure, otherwise recurse without the split column. */
  function Decide(t: Table, score: Scorer, root: nat, category: string): Result<Branch>
    requires WellFormed(t) && root < Width(t) - 1
    decreases Width(t), 0, 0
  {
    var sub := Partition(t, category, root);
    var yesNo := LabelValues(t);
    if |yesNo| < 2 then Err(SecondLabelMissing)
    else
      var yesCount := LabelCount(sub, yesNo[1]);
      var noCount := LabelCount(sub, yesNo[0]);
      if yesCount == |sub| - 1 then Ok(Leaf(yesNo[1]))
      else if noCount == |sub| - 1 then Ok(Leaf(yesNo[0]))
      else
        match Build(RemoveColumn(sub, root), score)
        case Ok(node) => Ok(Sub(node))
        case Err(err) => Err(err)
  }

  // ---------------------------------------------------------------------
  // Tree depth

  function Max(a: nat, b: nat): nat {
    if a < b then b else a
  }

  /** Splits along the longest path from the root. */
  function Depth(n: Node): nat
    decreases n, if n.Split? then |n.branches| + 1 else 0
  {
    match n
    case Empty => 0
    case Split(_, branches) => 1 + DepthUpTo(n, |branches|)
  }

  /** The deepest of the first `k` branches of a split. */
  function DepthUpTo(n: Node, k: nat): nat
    requires n.Split? && k <= |n.branches|
    decreases n, k
  {
    if k == 0 then 0
    else
      var b := n.branches[k - 1].1;
      Max(DepthUpTo(n, k - 1), if b.Sub? then Depth(b.node) else 0)
  }

  // ---------------------------------------------------------------------
  // Merging into self.tree

  /** `{**entries, **{key: value}}`: an existing key keeps its place and takes the new value; a new key goes last. */
  function Put(entries: seq<(string, Branch)>, key: string, value: Branch): (r: seq<(string, Branch)>)
    ensures key !in Keys(entries) ==> r == entries + [(key, value)]
    ensures key in Keys(entries) ==> Keys(r) == Keys(entries)
  {
    if entries == [] then [(key, value)]
    else
      assert Keys(entries) == [entries[0].0] + Keys(entries[1..]);
      if entries[0].0 == key then [(key, value)] + entries[1..]
      else
        var rest := Put(entries[1..], key, value);
        assert Keys([entries[0]] + rest) == [entries[0].0] + Keys(rest);
        [entries[0]] + rest
  }

  /** Merging a key already present, with distinct keys: the key takes the new value, every other entry stays as it was. */
  lemma {:induction false} PutExisting(entries: seq<(string, Branch)>, key: string, value: Branch)
    requires key in Keys(entries)
    requires forall i, j :: 0 <= i < j < |entries| ==> entries[i].0 != entries[j].0
    ensures |Put(entries, key, value)| == |entries|
    ensures forall i :: 0 <= i < |entries| ==>
              Put(entries, key, value)[i] == if entries[i].0 == key then (key, value) else entries[i]
    decreases |entries|
  {
    assert Keys(entries) == [entries[0].0] + Keys(entries[1..]);
    if entries[0].0 != key {
      PutExisting(entries[1..], key, value);
    }
  }

  /** `self.tree.get(attribute, {})` */
  function EntriesUnder(tree: Node, attribute: string): seq<(string, Branch)> {
    if tree.Split? && tree.attribute == attribute then tree.branches else []
  }

  /** Merging a new key into the entries of a split on `attribute` appends it. */
  lemma PutFresh(attribute: string, entries: seq<(string, Branch)>, key: string, value: Branch)
    requires key !in Keys(entries)
    ensures Split(attribute, Put(EntriesUnder(NodeOf(attribute, entries), attribute), key, value)) ==
            NodeOf(attribute, entries + [(key, value)])
  {
  }
}
