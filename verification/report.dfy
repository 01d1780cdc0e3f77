/**
 Report preparation: an empty frame gets no report; otherwise every column
 holding a collection value (list, dict, tuple or set) is dropped before the
 frame goes to the profiling engine, and the labels of the dropped columns
 are reported.
 */
module Report {
  import opened Wrappers
  import opened Text
  import opened Header
  import opened Table

  /** No cell of column `c` holds a collection. */
  predicate CompatibleColumn(f: Frame, c: nat)
    requires WellFormed(f) && c < |f.columns|
  {
    forall k | 0 <= k < |f.rows| :: !f.rows[k][c].Composite?
  }

  /** Indices `0 <= i < j < |ks|` give `ks[i] < ks[j]`. */
  predicate StrictlyIncreasing(ks: seq<nat>) {
    forall i, j | 0 <= i < j < |ks| :: ks[i] < ks[j]
  }

  /** The compatible columns among `c ..`, in column order. */
  function CompatibleFrom(f: Frame, c: nat): (ks: seq<nat>)
    requires WellFormed(f) && c <= |f.columns|
    ensures forall i | 0 <= i < |ks| :: c <= ks[i] < |f.columns|
    ensures StrictlyIncreasing(ks)
    ensures forall d | c <= d < |f.columns| :: d in ks <==> CompatibleColumn(f, d)
    decreases |f.columns| - c
  {
    if c == |f.columns| then []
    else if CompatibleColumn(f, c) then [c] + CompatibleFrom(f, c + 1)
    else CompatibleFrom(f, c + 1)
  }

  /** The frame restricted to the columns `ks`, in that order. */
  function Select(f: Frame, ks: seq<nat>): Frame
    requires WellFormed(f)
    requires forall i | 0 <= i < |ks| :: ks[i] < |f.columns|
  {
    Frame(
      seq(|ks|, i requires 0 <= i < |ks| => f.columns[ks[i]]),
      seq(|f.rows|, k requires 0 <= k < |f.rows| =>
        seq(|ks|, i requires 0 <= i < |ks| => f.rows[k][ks[i]])))
  }

  /** The labels occurring in a sequence of labels. */
  function LabelSet(labels: seq<Label>): set<Label> {
    set i | 0 <= i < |labels| :: labels[i]
  }

  /** Outcome of the filter: the kept column indices, the reduced frame and
      the labels that were excluded. */
  datatype Filtered = Filtered(kept: seq<nat>, frame: Frame, excluded: set<Label>)

  /** The column-compatibility filter. */
  function FilterColumns(f: Frame): (r: Filtered)
    requires WellFormed(f)
    ensures forall c | 0 <= c < |f.columns| :: c in r.kept <==> CompatibleColumn(f, c)
    ensures StrictlyIncreasing(r.kept)
    ensures forall i | 0 <= i < |r.kept| :: r.kept[i] < |f.columns|
    ensures WellFormed(r.frame)
    ensures |r.frame.columns| == |r.kept|
    ensures forall i | 0 <= i < |r.kept| :: r.frame.columns[i] == f.columns[r.kept[i]]
    ensures |r.frame.rows| == |f.rows|
    ensures forall k, i | 0 <= k < |f.rows| && 0 <= i < |r.kept| ::
      r.frame.rows[k][i] == f.rows[k][r.kept[i]]
    ensures forall k, i | 0 <= k < |r.frame.rows| && 0 <= i < |r.frame.rows[k]| ::
      !r.frame.rows[k][i].Composite?
    ensures r.excluded !! LabelSet(r.frame.columns)
    ensures r.excluded + LabelSet(r.frame.columns) == LabelSet(f.columns)
  {
    var kept := CompatibleFrom(f, 0);
    var g := Select(f, kept);
    assert LabelSet(g.columns) <= LabelSet(f.columns) by {
      forall i | 0 <= i < |g.columns| ensures g.columns[i] in LabelSet(f.columns) {
        assert g.columns[i] == f.columns[kept[i]];
      }
    }
    forall k, i | 0 <= k < |g.rows| && 0 <= i < |g.rows[k]| ensures !g.rows[k][i].Composite? {
      assert kept[i] in kept;
      assert g.rows[k][i] == f.rows[k][kept[i]];
    }
    Filtered(kept, g, LabelSet(f.columns) - LabelSet(g.columns))
  }

  /** Columns carry distinct labels. */
  predicate DistinctLabels(f: Frame) {
    forall i, j | 0 <= i < j < |f.columns| :: f.columns[i] != f.columns[j]
  }

  /** With distinct labels, a column's label is reported as excluded exactly
      when some cell of that column holds a collection. */
  lemma ExcludedIffIncompatible(f: Frame, c: nat)
    requires WellFormed(f) && DistinctLabels(f) && c < |f.columns|
    ensures f.columns[c] in FilterColumns(f).excluded <==> !CompatibleColumn(f, c)
  {
  }

  // ---------------------------------------------------------------------
  // The filter by label, as pandas runs it.
  // ---------------------------------------------------------------------

  /** Another column carries the label of column `c`. */
  predicate Repeated(f: Frame, c: nat)
    requires c < |f.columns|
  {
    exists d | 0 <= d < |f.columns| :: d != c && f.columns[d] == f.columns[c]
  }

  /** The per-label test of the filter. Looking up a repeated label yields
      all its columns at once, so the collection test is applied to whole
      columns, never finds a collection, and the label passes. A label of
      one column passes when that column holds no collection. */
  predicate LabelPasses(f: Frame, c: nat)
    requires WellFormed(f) && c < |f.columns|
  {
    Repeated(f, c) || CompatibleColumn(f, c)
  }

  /** The columns from `c` on whose label passes, in column order. */
  function PassingFrom(f: Frame, c: nat): (ks: seq<nat>)
    requires WellFormed(f) && c <= |f.columns|
    ensures forall i | 0 <= i < |ks| :: c <= ks[i] < |f.columns|
    ensures forall d | c <= d < |f.columns| :: d in ks <==> LabelPasses(f, d)
    ensures StrictlyIncreasing(ks)
    decreases |f.columns| - c
  {
    if c == |f.columns| then []
    else if LabelPasses(f, c) then [c] + PassingFrom(f, c + 1)
    else PassingFrom(f, c + 1)
  }

  /** The labels at the given column indices. */
  function LabelsAt(labels: seq<Label>, ks: seq<nat>): seq<Label>
    requires forall i | 0 <= i < |ks| :: ks[i] < |labels|
  {
    seq(|ks|, i requires 0 <= i < |ks| => labels[ks[i]])
  }

  /** The columns from `c` on that carry label `l`, in column order. */
  function MatchingFrom(labels: seq<Label>, l: Label, c: nat): (cs: seq<nat>)
    requires c <= |labels|
    ensures forall i | 0 <= i < |cs| :: c <= cs[i] < |labels| && labels[cs[i]] == l
    ensures forall d | c <= d < |labels| :: d in cs <==> labels[d] == l
    ensures StrictlyIncreasing(cs)
    decreases |labels| - c
  {
    if c == |labels| then []
    else if labels[c] == l then [c] + MatchingFrom(labels, l, c + 1)
    else MatchingFrom(labels, l, c + 1)
  }

  /** Column lookup by a list of labels: for each key in turn, every column
      carrying that key. */
  function ColumnsFor(labels: seq<Label>, keys: seq<Label>): (cs: seq<nat>)
    ensures forall i | 0 <= i < |cs| :: cs[i] < |labels| && labels[cs[i]] in keys
    ensures forall c | 0 <= c < |labels| :: labels[c] in keys ==> c in cs
  {
    if keys == [] then []
    else
      var first, rest := MatchingFrom(labels, keys[0], 0), ColumnsFor(labels, keys[1..]);
      assert forall c | 0 <= c < |labels| && labels[c] in keys && labels[c] != keys[0] :: labels[c] in keys[1..];
      first + rest
  }

  /** Counting in a concatenation. */
  lemma AppendCount<T>(a: seq<T>, b: seq<T>, y: T)
    ensures multiset(a + b)[y] == multiset(a)[y] + multiset(b)[y]
  {
  }

  /** Counting in a sequence that starts with `x`. */
  lemma ConsCount<T>(x: T, s: seq<T>, y: T)
    ensures multiset([x] + s)[y] == (if x == y then 1 else 0) + multiset(s)[y]
  {
    assert multiset([x] + s) == multiset([x]) + multiset(s);
  }

  /** A strictly increasing list holds each number at most once. */
  lemma {:induction false} IncreasingCount(s: seq<nat>, x: nat)
    requires StrictlyIncreasing(s)
    ensures multiset(s)[x] == if x in s then 1 else 0
  {
    if s != [] {
      assert s == [s[0]] + s[1..];
      ConsCount(s[0], s[1..], x);
      assert StrictlyIncreasing(s[1..]) by {
        forall i, j | 0 <= i < j < |s[1..]| ensures s[1..][i] < s[1..][j] {
          assert s[i + 1] < s[j + 1];
        }
      }
      assert s[0] !in s[1..] by {
        forall i | 0 <= i < |s[1..]| ensures s[1..][i] != s[0] {
          assert s[0] < s[i + 1];
        }
      }
      IncreasingCount(s[1..], x);
    }
  }

  /** Looking up `l` from `c` on finds column `d` once when `d` is at or past
      `c` and carries `l`, and not at all otherwise. */
  lemma MatchingFromCount(labels: seq<Label>, l: Label, c: nat, d: nat)
    requires c <= |labels| && d < |labels|
    ensures multiset(MatchingFrom(labels, l, c))[d] == if c <= d && labels[d] == l then 1 else 0
  {
    IncreasingCount(MatchingFrom(labels, l, c), d);
  }

  lemma {:induction false} ColumnsForCount(labels: seq<Label>, keys: seq<Label>, d: nat)
    requires d < |labels|
    ensures multiset(ColumnsFor(labels, keys))[d] == multiset(keys)[labels[d]]
  {
    if keys != [] {
      var k, more := keys[0], keys[1..];
      assert keys == [k] + more;
      ConsCount(k, more, labels[d]);
      AppendCount(MatchingFrom(labels, k, 0), ColumnsFor(labels, more), d);
      MatchingFromCount(labels, k, 0, d);
      ColumnsForCount(labels, more, d);
    }
  }

  /** The lookup goes key by key: looking up `a + b` selects the columns for
      `a`, then those for `b`; one key selects its columns in column order. */
  lemma {:induction false} ColumnsForAppend(labels: seq<Label>, a: seq<Label>, b: seq<Label>)
    ensures ColumnsFor(labels, a + b) == ColumnsFor(labels, a) + ColumnsFor(labels, b)
    ensures forall l :: ColumnsFor(labels, [l]) == MatchingFrom(labels, l, 0)
  {
    forall l ensures ColumnsFor(labels, [l]) == MatchingFrom(labels, l, 0) {
      assert [l][1..] == [];
    }
    if a == [] {
      assert a + b == b;
    } else {
      assert (a + b)[0] == a[0];
      assert (a + b)[1..] == a[1..] + b;
      ColumnsForAppend(labels, a[1..], b);
    }
  }

  /** The labels that pass, in column order: the keys of the selection. */
  function ValidLabels(f: Frame): seq<Label>
    requires WellFormed(f)
  {
    LabelsAt(f.columns, PassingFrom(f, 0))
  }

  /** Reading the labels at a non-empty list of columns finds `l` once more
      than the rest of the list does when the first column carries it. */
  lemma LabelsAtConsCount(labels: seq<Label>, ks: seq<nat>, l: Label)
    requires ks != [] && forall i | 0 <= i < |ks| :: ks[i] < |labels|
    ensures multiset(LabelsAt(labels, ks))[l]
         == (if labels[ks[0]] == l then 1 else 0) + multiset(LabelsAt(labels, ks[1..]))[l]
  {
    assert LabelsAt(labels, ks) == [labels[ks[0]]] + LabelsAt(labels, ks[1..]);
    ConsCount(labels[ks[0]], LabelsAt(labels, ks[1..]), l);
  }

  /** Counting in the labels from `c` on: column `c`, then the rest. */
  lemma SuffixCount(labels: seq<Label>, c: nat, l: Label)
    requires c < |labels|
    ensures multiset(labels[c..])[l] == (if labels[c] == l then 1 else 0) + multiset(labels[c + 1..])[l]
  {
    assert labels[c..] == [labels[c]] + labels[c + 1..];
    ConsCount(labels[c], labels[c + 1..], l);
  }

  /** An increasing list of columns from `c` on that does not start at `c`
      lies past `c`. */
  lemma SkipColumn(ks: seq<nat>, c: nat)
    requires StrictlyIncreasing(ks) && (ks == [] || ks[0] != c)
    requires forall i | 0 <= i < |ks| :: c <= ks[i]
    ensures forall i | 0 <= i < |ks| :: c < ks[i]
  {
    forall i | 0 <= i < |ks| ensures c < ks[i] {
      if i > 0 {
        assert ks[0] < ks[i];
      }
    }
  }

  /** Dropping the first column `c` of an increasing list that includes
      every column from `c` on carrying `l` leaves an increasing list past
      `c` that includes every later column carrying `l`. */
  lemma TakeColumn(labels: seq<Label>, ks: seq<nat>, c: nat, l: Label)
    requires StrictlyIncreasing(ks) && ks != [] && ks[0] == c
    requires forall i | 0 <= i < |ks| :: c <= ks[i] < |labels|
    requires forall d | c <= d < |labels| && labels[d] == l :: d in ks
    ensures StrictlyIncreasing(ks[1..])
    ensures forall i | 0 <= i < |ks[1..]| :: c + 1 <= ks[1..][i] < |labels|
    ensures forall d | c + 1 <= d < |labels| && labels[d] == l :: d in ks[1..]
  {
    forall i, j | 0 <= i < j < |ks[1..]| ensures ks[1..][i] < ks[1..][j] {
      assert ks[i + 1] < ks[j + 1];
    }
    forall i | 0 <= i < |ks[1..]| ensures c + 1 <= ks[1..][i] {
      assert ks[0] < ks[i + 1];
    }
    forall d | c + 1 <= d < |labels| && labels[d] == l ensures d in ks[1..] {
      var i :| 0 <= i < |ks| && ks[i] == d;
      assert ks[1..][i - 1] == d;
    }
  }

  /** Reading the labels at an increasing list of columns that includes
      every column from `c` on carrying `l` finds `l` as often as those
      columns carry it. */
  lemma {:induction false} LabelsAtCount(labels: seq<Label>, ks: seq<nat>, c: nat, l: Label)
    requires c <= |labels| && StrictlyIncreasing(ks)
    requires forall i | 0 <= i < |ks| :: c <= ks[i] < |labels|
    requires forall d | c <= d < |labels| && labels[d] == l :: d in ks
    ensures multiset(LabelsAt(labels, ks))[l] == multiset(labels[c..])[l]
    decreases |labels| - c
  {
    if c < |labels| {
      SuffixCount(labels, c, l);
      if ks != [] && ks[0] == c {
        LabelsAtConsCount(labels, ks, l);
        TakeColumn(labels, ks, c, l);
        LabelsAtCount(labels, ks[1..], c + 1, l);
      } else {
        SkipColumn(ks, c);
        LabelsAtCount(labels, ks, c + 1, l);
      }
    }
  }

  /** A label all of whose columns pass occurs among the valid labels once
      per column carrying it. */
  lemma PassingLabelCount(f: Frame, l: Label)
    requires WellFormed(f)
    requires forall d | 0 <= d < |f.columns| && f.columns[d] == l :: LabelPasses(f, d)
    ensures multiset(ValidLabels(f))[l] == multiset(f.columns)[l]
  {
    LabelsAtCount(f.columns, PassingFrom(f, 0), 0, l);
    assert f.columns[0..] == f.columns;
  }

  /** Every column sharing the label of a passing column passes too: either
      it is the column itself or the label is repeated. */
  lemma SharedLabelPasses(f: Frame, c: nat)
    requires WellFormed(f) && c < |f.columns| && LabelPasses(f, c)
    ensures forall d | 0 <= d < |f.columns| && f.columns[d] == f.columns[c] :: LabelPasses(f, d)
  {
    forall d | 0 <= d < |f.columns| && f.columns[d] == f.columns[c] ensures LabelPasses(f, d) {
      if d != c {
        assert Repeated(f, d) by {
          assert c != d && f.columns[c] == f.columns[d];
        }
      }
    }
  }

  /** A column is selected by the passing labels exactly when its own label
      passes: a repeated label passes for all its columns at once. */
  lemma SelectedIffPasses(f: Frame, c: nat)
    requires WellFormed(f) && c < |f.columns|
    ensures c in ColumnsFor(f.columns, ValidLabels(f)) <==> LabelPasses(f, c)
  {
    var passing, valid := PassingFrom(f, 0), ValidLabels(f);
    if LabelPasses(f, c) {
      var j :| 0 <= j < |passing| && passing[j] == c;
      assert valid[j] == f.columns[c];
    }
    if f.columns[c] in valid {
      var j :| 0 <= j < |valid| && valid[j] == f.columns[c];
      if passing[j] != c {
        assert f.columns[passing[j]] == f.columns[c];
        assert Repeated(f, c);
      }
    }
  }

  /** The selected columns carry exactly the passing labels. */
  lemma SelectedLabels(f: Frame)
    requires WellFormed(f)
    ensures LabelSet(Select(f, ColumnsFor(f.columns, ValidLabels(f))).columns) == LabelSet(ValidLabels(f))
  {
    var passing, valid := PassingFrom(f, 0), ValidLabels(f);
    var cs := ColumnsFor(f.columns, valid);
    var g := Select(f, cs);
    forall i | 0 <= i < |g.columns| ensures g.columns[i] in LabelSet(valid) {
      assert g.columns[i] == f.columns[cs[i]];
    }
    forall j | 0 <= j < |valid| ensures valid[j] in LabelSet(g.columns) {
      var c := passing[j];
      assert f.columns[c] == valid[j];
      var i :| 0 <= i < |cs| && cs[i] == c;
      assert g.columns[i] == valid[j];
    }
  }

  /** A label fails to pass exactly when it belongs to a single column that
      holds a collection. */
  lemma UnselectedLabel(f: Frame, l: Label)
    requires WellFormed(f)
    ensures l in LabelSet(f.columns) - LabelSet(ValidLabels(f)) <==>
      exists c | 0 <= c < |f.columns| :: f.columns[c] == l && !LabelPasses(f, c)
  {
    var passing, valid := PassingFrom(f, 0), ValidLabels(f);
    forall c | 0 <= c < |f.columns| && LabelPasses(f, c) ensures f.columns[c] in LabelSet(valid) {
      var j :| 0 <= j < |passing| && passing[j] == c;
      assert valid[j] == f.columns[c];
    }
    forall j, c | 0 <= j < |valid| && 0 <= c < |f.columns| && f.columns[c] == valid[j]
      ensures LabelPasses(f, c)
    {
      if passing[j] != c {
        assert f.columns[passing[j]] == f.columns[c];
      }
    }
  }

  /** How often the label lookup selects a column: a passing column once
      per column carrying its label, a failing one never. */
  lemma KeptCount(f: Frame, c: nat)
    requires WellFormed(f) && c < |f.columns|
    ensures multiset(ColumnsFor(f.columns, ValidLabels(f)))[c]
         == if LabelPasses(f, c) then multiset(f.columns)[f.columns[c]] else 0
  {
    ColumnsForCount(f.columns, ValidLabels(f), c);
    if LabelPasses(f, c) {
      SharedLabelPasses(f, c);
      PassingLabelCount(f, f.columns[c]);
    } else {
      SelectedIffPasses(f, c);
    }
  }

  /** The filter by label: the labels that pass, in column order, and then
      every column carrying one of them, label by label. A column is
      profiled when its label passes, once for every column carrying that
      label; a label is excluded exactly when it belongs to a single column
      holding a collection. */
  function LabelFilter(f: Frame): (r: Filtered)
    requires WellFormed(f)
    ensures forall i | 0 <= i < |r.kept| :: r.kept[i] < |f.columns|
    ensures forall c | 0 <= c < |f.columns| :: c in r.kept <==> LabelPasses(f, c)
    ensures WellFormed(r.frame)
    ensures |r.frame.columns| == |r.kept|
    ensures forall i | 0 <= i < |r.kept| :: r.frame.columns[i] == f.columns[r.kept[i]]
    ensures |r.frame.rows| == |f.rows|
    ensures forall k, i | 0 <= k < |f.rows| && 0 <= i < |r.kept| ::
      r.frame.rows[k][i] == f.rows[k][r.kept[i]]
    ensures forall l :: l in r.excluded <==>
      exists c | 0 <= c < |f.columns| :: f.columns[c] == l && !LabelPasses(f, c)
    ensures r.excluded !! LabelSet(r.frame.columns)
    ensures r.excluded + LabelSet(r.frame.columns) == LabelSet(f.columns)
  {
    var valid := ValidLabels(f);
    var cs := ColumnsFor(f.columns, valid);
    forall c | 0 <= c < |f.columns| ensures c in cs <==> LabelPasses(f, c) {
      SelectedIffPasses(f, c);
    }
    SelectedLabels(f);
    forall l ensures l in LabelSet(f.columns) - LabelSet(valid) <==>
      exists c | 0 <= c < |f.columns| :: f.columns[c] == l && !LabelPasses(f, c)
    {
      UnselectedLabel(f, l);
    }
    assert LabelSet(valid) <= LabelSet(f.columns) by {
      forall j | 0 <= j < |valid| ensures valid[j] in LabelSet(f.columns) {
        assert valid[j] == f.columns[PassingFrom(f, 0)[j]];
      }
    }
    Filtered(cs, Select(f, cs), LabelSet(f.columns) - LabelSet(valid))
  }

  /** The filter by label keeps a passing column once for every column
      carrying its label, and a failing column not at all. */
  lemma LabelFilterCount(f: Frame)
    requires WellFormed(f)
    ensures forall c | 0 <= c < |f.columns| ::
      multiset(LabelFilter(f).kept)[c] == if LabelPasses(f, c) then multiset(f.columns)[f.columns[c]] else 0
  {
    forall c | 0 <= c < |f.columns|
      ensures multiset(LabelFilter(f).kept)[c] == if LabelPasses(f, c) then multiset(f.columns)[f.columns[c]] else 0
    {
      KeptCount(f, c);
    }
  }

  /** With distinct labels, a label passes exactly when its column holds no
      collection, so the passing columns are the compatible ones. */
  lemma {:induction false} PassingIsCompatible(f: Frame, c: nat)
    requires WellFormed(f) && DistinctLabels(f) && c <= |f.columns|
    ensures PassingFrom(f, c) == CompatibleFrom(f, c)
    decreases |f.columns| - c
  {
    if c < |f.columns| {
      assert !Repeated(f, c);
      PassingIsCompatible(f, c + 1);
    }
  }

  /** With distinct labels, looking up the label of column `c` from `start`
      on finds column `c` alone, or nothing once past it. */
  lemma {:induction false} MatchingDistinct(f: Frame, c: nat, start: nat)
    requires DistinctLabels(f) && c < |f.columns| && start <= |f.columns|
    ensures MatchingFrom(f.columns, f.columns[c], start) == if start <= c then [c] else []
    decreases |f.columns| - start
  {
    if start < |f.columns| {
      MatchingDistinct(f, c, start + 1);
    }
  }

  /** With distinct labels, looking up the labels of some columns finds
      exactly those columns, in the same order. */
  lemma {:induction false} LookupDistinct(f: Frame, ks: seq<nat>)
    requires DistinctLabels(f)
    requires forall i | 0 <= i < |ks| :: ks[i] < |f.columns|
    ensures ColumnsFor(f.columns, LabelsAt(f.columns, ks)) == ks
  {
    if ks != [] {
      var keys := LabelsAt(f.columns, ks);
      assert keys[0] == f.columns[ks[0]];
      assert keys[1..] == LabelsAt(f.columns, ks[1..]);
      assert ColumnsFor(f.columns, keys) ==
        MatchingFrom(f.columns, keys[0], 0) + ColumnsFor(f.columns, keys[1..]);
      MatchingDistinct(f, ks[0], 0);
      LookupDistinct(f, ks[1..]);
      assert ks == [ks[0]] + ks[1..];
    }
  }

  /** With distinct labels, the filter by label and the filter by position
      agree on everything: kept columns, resulting frame and excluded labels. */
  lemma LabelFilterMatchesPositional(f: Frame)
    requires WellFormed(f)
    ensures DistinctLabels(f) ==> LabelFilter(f) == FilterColumns(f)
  {
    if DistinctLabels(f) {
      var kept := CompatibleFrom(f, 0);
      PassingIsCompatible(f, 0);
      LookupDistinct(f, kept);
      assert LabelsAt(f.columns, kept) == Select(f, kept).columns;
    }
  }

  /** A frame without collection values passes the filter unchanged and
      nothing is reported as excluded. */
  lemma ScalarFrameUnchanged(f: Frame)
    requires WellFormed(f)
    requires forall k, c | 0 <= k < |f.rows| && 0 <= c < |f.columns| :: !f.rows[k][c].Composite?
    ensures FilterColumns(f).frame == f
    ensures FilterColumns(f).excluded == {}
  {
    var r := FilterColumns(f);
    AllColumnsKept(r.kept, |f.columns|);
    assert r.frame.columns == f.columns;
    assert r.frame.rows == f.rows by {
      forall k | 0 <= k < |f.rows| ensures r.frame.rows[k] == f.rows[k] {
      }
    }
  }

  /** A strictly increasing list of indices below `n` that contains every
      index below `n` is `0, 1, ..., n-1`. */
  lemma {:induction false} AllColumnsKept(ks: seq<nat>, n: nat)
    requires StrictlyIncreasing(ks)
    requires forall i | 0 <= i < |ks| :: ks[i] < n
    requires forall c | 0 <= c < n :: c in ks
    ensures |ks| == n
    ensures forall i | 0 <= i < |ks| :: ks[i] == i
  {
    if ks != [] {
      assert ks[0] < n;
    }
    if n > 0 {
      // The last entry is the largest, so it is n - 1; the others cover 0 .. n-2.
      assert n - 1 in ks;
      var last := |ks| - 1;
      assert ks[last] == n - 1;
      var init := ks[..last];
      forall c | 0 <= c < n - 1 ensures c in init {
        assert c in ks;
        var j :| 0 <= j < |ks| && ks[j] == c;
        assert j != last;
        assert init[j] == c;
      }
      AllColumnsKept(init, n - 1);
      assert ks == init + [n - 1];
    }
  }

  /** The outcome of a report: the title and the filtered frame handed to
      the profiling engine, and the excluded labels named in the warning
      shown beside it. */
  datatype Profile = Profile(title: string, data: Frame, excluded: set<Label>)

  /** Outcome of report generation: no report for an empty frame, the
      `TypeError` raised when the excluded labels are joined into the
      warning text and one of them is a position rather than a text, or the
      profile handed to the profiling engine. */
  datatype Outcome = NoReport | LabelJoinError | Generated(profile: Profile)

  /** Report generation: no report for an empty frame; otherwise the frame
      filtered by label, unless an excluded label is a position, which makes
      the warning's join fail. */
  function GenerateReport(f: Frame, document: string, sheet: string): (r: Outcome)
    requires WellFormed(f)
    ensures r.NoReport? <==> IsEmpty(f)
    ensures r.LabelJoinError? <==>
      !IsEmpty(f) && exists l | l in LabelFilter(f).excluded :: l.Position?
    ensures r.Generated? ==> r.profile.title == "Reporte: " + document + " - " + sheet
    ensures r.Generated? ==>
      && r.profile.data == LabelFilter(f).frame
      && r.profile.excluded == LabelFilter(f).excluded
    ensures r.Generated? && DistinctLabels(f) ==>
      && r.profile.data == FilterColumns(f).frame
      && r.profile.excluded == FilterColumns(f).excluded
    ensures r.Generated? && DistinctLabels(f) ==>
      forall k, i | 0 <= k < |r.profile.data.rows| && 0 <= i < |r.profile.data.rows[k]| ::
        !r.profile.data.rows[k][i].Composite?
    ensures r.Generated? ==> r.profile.excluded + LabelSet(r.profile.data.columns) == LabelSet(f.columns)
    ensures r.Generated? ==> forall l | l in r.profile.excluded :: l.Name?
  {
    if IsEmpty(f) then NoReport
    else
      var filtered := LabelFilter(f);
      if exists l | l in filtered.excluded :: l.Position? then LabelJoinError
      else
        LabelFilterMatchesPositional(f);
        Generated(Profile("Reporte: " + document + " - " + sheet, filtered.frame, filtered.excluded))
  }

  /** With distinct labels, the join fails exactly when the frame is not
      empty and some column labelled by position holds a collection. */
  lemma JoinFailsIffPositionalColumnDropped(f: Frame, document: string, sheet: string)
    requires WellFormed(f) && DistinctLabels(f)
    ensures GenerateReport(f, document, sheet).LabelJoinError? <==>
      !IsEmpty(f) && exists c | 0 <= c < |f.columns| :: f.columns[c].Position? && !CompatibleColumn(f, c)
  {
    LabelFilterMatchesPositional(f);
  }

  /** A frame whose columns all carry text labels never hits the join error. */
  lemma NamedColumnsJoin(f: Frame, document: string, sheet: string)
    requires WellFormed(f)
    requires forall c | 0 <= c < |f.columns| :: f.columns[c].Name?
    ensures !GenerateReport(f, document, sheet).LabelJoinError?
  {
  }

  /** One positional column holding a list: the report fails at the join. */
  lemma PositionalListColumnFails(document: string, sheet: string)
    ensures GenerateReport(Frame([Position(0)], [[Composite(List)]]), document, sheet).LabelJoinError?
  {
    var f := Frame([Position(0)], [[Composite(List)]]);
    assert f.rows[0][0] == Composite(List);
    assert !CompatibleColumn(f, 0);
    ExcludedIffIncompatible(f, 0);
  }

  /** Two columns under one label: whatever they hold, the label passes,
      nothing is excluded, and the lookup selects both columns once for each
      of the two keys. */
  lemma TwoColumnsOneLabelKept(f: Frame)
    requires WellFormed(f) && |f.columns| == 2 && f.columns[0] == f.columns[1]
    ensures LabelFilter(f).kept == [0, 1, 0, 1]
    ensures LabelFilter(f).excluded == {}
  {
    var l := f.columns[0];
    assert Repeated(f, 0) by { assert f.columns[1] == f.columns[0]; }
    assert Repeated(f, 1) by { assert f.columns[0] == f.columns[1]; }
    assert PassingFrom(f, 2) == [];
    assert PassingFrom(f, 1) == [1];
    assert PassingFrom(f, 0) == [0, 1];
    var keys := ValidLabels(f);
    assert keys == [l, l];
    assert MatchingFrom(f.columns, l, 2) == [];
    assert MatchingFrom(f.columns, l, 1) == [1];
    assert MatchingFrom(f.columns, l, 0) == [0, 1];
    assert ColumnsFor(f.columns, [l]) == [0, 1] by {
      assert ColumnsFor(f.columns, [l][1..]) == [];
    }
    assert ColumnsFor(f.columns, keys) == [0, 1, 0, 1] by {
      assert keys[1..] == [l];
    }
    var r := LabelFilter(f);
    forall m | m in r.excluded ensures false {
    }
  }

  /** The filtered frame of two columns under one label: the label four
      times, and each row twice over, side by side. */
  lemma TwoColumnsOneLabel(f: Frame)
    requires WellFormed(f) && |f.columns| == 2 && f.columns[0] == f.columns[1]
    ensures LabelFilter(f).excluded == {}
    ensures LabelFilter(f).frame.columns == [f.columns[0], f.columns[0], f.columns[0], f.columns[0]]
    ensures forall k | 0 <= k < |f.rows| :: LabelFilter(f).frame.rows[k] == f.rows[k] + f.rows[k]
  {
    TwoColumnsOneLabelKept(f);
    var r := LabelFilter(f);
    forall k | 0 <= k < |f.rows| ensures r.frame.rows[k] == f.rows[k] + f.rows[k] {
      SelectedTwice(f.rows[k], r.frame.rows[k], r.kept);
    }
  }

  /** A row read at the columns `0, 1, 0, 1` is the row twice over. */
  lemma SelectedTwice(row: seq<Cell>, out: seq<Cell>, ks: seq<nat>)
    requires |row| == 2 && ks == [0, 1, 0, 1] && |out| == |ks|
    requires forall i | 0 <= i < |ks| :: out[i] == row[ks[i]]
    ensures out == row + row
  {
  }

  /** A frame of two columns under one label gets a report that profiles
      each row twice over, side by side, and excludes nothing: a list in
      either column reaches the profiler. */
  lemma RepeatedLabelReport(f: Frame, document: string, sheet: string)
    requires WellFormed(f) && |f.rows| > 0
    requires |f.columns| == 2 && f.columns[0] == f.columns[1]
    ensures GenerateReport(f, document, sheet).Generated?
    ensures GenerateReport(f, document, sheet).profile.data.columns ==
      [f.columns[0], f.columns[0], f.columns[0], f.columns[0]]
    ensures forall k | 0 <= k < |f.rows| ::
      GenerateReport(f, document, sheet).profile.data.rows[k] == f.rows[k] + f.rows[k]
    ensures GenerateReport(f, document, sheet).profile.excluded == {}
  {
    TwoColumnsOneLabel(f);
  }

  /** A loaded sheet two cells wide whose header row repeats one text, with
      a row below it: the profile holds every loaded row twice over. */
  lemma RepeatedHeaderReport(data: seq<seq<string>>, document: string, sheet: string)
    requires Rectangular(data) && |data| > 0 && |data[0]| == 2
    requires FindHeader(data, DefaultMaxRows).Some?
    requires FindHeader(data, DefaultMaxRows).value < |data| - 1
    requires data[FindHeader(data, DefaultMaxRows).value][0] == data[FindHeader(data, DefaultMaxRows).value][1]
    ensures GenerateReport(Load(data), document, sheet).Generated?
    ensures |GenerateReport(Load(data), document, sheet).profile.data.columns| == 4
    ensures forall k | 0 <= k < |Load(data).rows| ::
      GenerateReport(Load(data), document, sheet).profile.data.rows[k] == Load(data).rows[k] + Load(data).rows[k]
  {
    var f := Load(data);
    var h := FindHeader(data, DefaultMaxRows).value;
    assert f.columns[0] == Name(data[h][0]) == f.columns[1];
    RepeatedLabelReport(f, document, sheet);
  }

  /** The scores of the rows `name`, `name` and `a`, `b`. */
  lemma DuplicateHeaderScores()
    ensures Score(["name", "name"]) == 16
    ensures Score(["a", "b"]) == 4
  {
    assert !IsSpace('n') && !IsSpace('e') && !IsSpace('a') && !IsSpace('b');
    assert Strip("name") == "name";
    assert Strip("a") == "a";
    assert Strip("b") == "b";
    assert NonEmptyCount(["name", "name"]) == 2 by { assert ["name", "name"][..1] == ["name"]; }
    assert NonEmptyCount(["a", "b"]) == 2 by { assert ["a", "b"][..1] == ["a"]; }
    assert TotalLen(["name", "name"]) == 8 by { assert ["name", "name"][..1] == ["name"]; }
    assert TotalLen(["a", "b"]) == 2 by { assert ["a", "b"][..1] == ["a"]; }
    TimesIsProduct(2, 8);
    TimesIsProduct(2, 2);
  }

  /** The header row `name`, `name` outscores the row `a`, `b` below it. */
  lemma DuplicateHeaderFound()
    ensures FindHeader([["name", "name"], ["a", "b"]], DefaultMaxRows) == Some(0)
  {
    var data := [["name", "name"], ["a", "b"]];
    var scores := RowScores(data);
    DuplicateHeaderScores();
    assert scores[0] == 16 && scores[1] == 4;
    assert IsBestHeader(data, 2, Some(0));
    BestHeaderUnique(data, 2, FindHeader(data, DefaultMaxRows), Some(0));
  }

  /** Loading the sheet `name`, `name` over `a`, `b` and generating its
      report: the header is promoted, and four columns reach the profiler,
      each loaded row twice over. */
  lemma DuplicateHeaderExample(document: string, sheet: string)
    ensures
      var data := [["name", "name"], ["a", "b"]];
      && GenerateReport(Load(data), document, sheet).Generated?
      && |Load(data).columns| == 2
      && |GenerateReport(Load(data), document, sheet).profile.data.columns| == 4
      && forall k | 0 <= k < |Load(data).rows| ::
           GenerateReport(Load(data), document, sheet).profile.data.rows[k] == Load(data).rows[k] + Load(data).rows[k]
  {
    var data := [["name", "name"], ["a", "b"]];
    DuplicateHeaderFound();
    RepeatedHeaderReport(data, document, sheet);
  }

  /** The whole pipeline on a worksheet's raw values. A report comes out
      unless the load is empty. Loaded cells are always text, so nothing is
      excluded, the join never fails, and every loaded column is profiled;
      with distinct labels the profile is the loaded frame itself. */
  lemma LoadedSheetReport(data: seq<seq<string>>, document: string, sheet: string)
    requires Rectangular(data)
    ensures GenerateReport(Load(data), document, sheet).NoReport? <==>
      || |data| == 0
      || |data[0]| == 0
      || FindHeader(data, DefaultMaxRows) == Some(|data| - 1)
    ensures !GenerateReport(Load(data), document, sheet).LabelJoinError?
    ensures GenerateReport(Load(data), document, sheet).Generated? ==>
      GenerateReport(Load(data), document, sheet).profile.excluded == {}
    ensures GenerateReport(Load(data), document, sheet).Generated? ==>
      forall c | 0 <= c < |Load(data).columns| :: c in LabelFilter(Load(data)).kept
    ensures GenerateReport(Load(data), document, sheet).Generated? && DistinctLabels(Load(data)) ==>
      GenerateReport(Load(data), document, sheet).profile.data == Load(data)
  {
    var f := Load(data);
    LoadedFrameEmptyIff(data);
    assert forall c | 0 <= c < |f.columns| :: LabelPasses(f, c);
    var filtered := LabelFilter(f);
    assert filtered.excluded == {} by {
      forall l | l in filtered.excluded ensures false {
      }
    }
    LabelFilterMatchesPositional(f);
    ScalarFrameUnchanged(f);
  }
}
