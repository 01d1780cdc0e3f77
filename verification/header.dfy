/**
 Header-row detection: among the first few rows of a sheet, pick the one that
 looks most like a row of column titles.

 A row's score is (cells whose stripped text is non-empty) times (average raw
 length of its cells). The detector keeps the first row whose score is
 strictly higher than every score seen before it, starting from zero, so a
 row scoring zero never wins and ties go to the earliest row.

 Every row of a data frame has the same width, so the average length can be
 replaced by the total length: `Score` below is the integer score
 `nonEmpty * totalLen`. `AveragedScan` keeps the division by the width, in
 exact real arithmetic rather than floating point, and is shown to choose the
 same row. With binary floating point a rounded product can break an exact tie
 toward a later row, so the earliest-tie rule is a property of this exact
 arithmetic.
 */
module Header {
  import opened Wrappers
  import opened Text

  /** How many leading rows the detector looks at unless told otherwise. */
  const DefaultMaxRows: nat := 5

  /** Every cell of the row is whitespace only. */
  predicate IsBlankRow(row: seq<string>) {
    forall k | 0 <= k < |row| :: IsBlank(row[k])
  }

  /** Number of cells whose stripped text is not empty. */
  function NonEmptyCount(row: seq<string>): (n: nat)
    ensures n <= |row|
  {
    if row == [] then 0
    else
      var last := row[|row| - 1];
      NonEmptyCount(row[..|row| - 1]) + (if Strip(last) != "" then 1 else 0)
  }

  /** No cell counts exactly when every cell is whitespace only. */
  lemma {:induction false} NonEmptyCountZeroIffBlank(row: seq<string>)
    ensures NonEmptyCount(row) == 0 <==> IsBlankRow(row)
  {
    if row != [] {
      var init, last := row[..|row| - 1], row[|row| - 1];
      NonEmptyCountZeroIffBlank(init);
      StripEmptyIffBlank(last);
      assert IsBlankRow(row) <==> IsBlankRow(init) && IsBlank(last) by {
        assert forall k | 0 <= k < |init| :: init[k] == row[k];
      }
    }
  }

  /** Sum of the raw lengths of the cells, whitespace included. */
  function TotalLen(row: seq<string>): nat {
    if row == [] then 0 else TotalLen(row[..|row| - 1]) + |row[|row| - 1]|
  }

  /** Each counted cell has at least one character, so the count never
      exceeds the total length. */
  lemma {:induction false} NonEmptyCountAtMostTotalLen(row: seq<string>)
    ensures NonEmptyCount(row) <= TotalLen(row)
  {
    if row != [] {
      NonEmptyCountAtMostTotalLen(row[..|row| - 1]);
      StripKeepsContent(row[|row| - 1]);
    }
  }

  /** `n * t` by repeated addition, which keeps non-linear arithmetic out
      of every proof that unfolds a score. */
  function Times(n: nat, t: nat): (p: nat)
    ensures n > 0 ==> p >= t
    ensures p == 0 <==> n == 0 || t == 0
  {
    if n == 0 then 0 else t + Times(n - 1, t)
  }

  /** Repeated addition is multiplication. */
  lemma {:induction false} TimesIsProduct(n: nat, t: nat)
    ensures Times(n, t) == n * t
  {
    if n > 0 {
      TimesIsProduct(n - 1, t);
    }
  }

  /** The row score with the common width factored out:
      `nonEmpty * totalLen`. */
  function Score(row: seq<string>): (s: nat)
    ensures s == 0 <==> IsBlankRow(row)
  {
    NonEmptyCountZeroIffBlank(row);
    NonEmptyCountAtMostTotalLen(row);
    Times(NonEmptyCount(row), TotalLen(row))
  }

  /** The number of rows the detector scans: `min(maxRows, len(rows))`. */
  function Scanned(rows: seq<seq<string>>, maxRows: nat): (n: nat)
    ensures n <= |rows| && n <= maxRows
    ensures n == |rows| || n == maxRows
  {
    if maxRows < |rows| then maxRows else |rows|
  }

  /** The score of every row, in row order. */
  function RowScores(rows: seq<seq<string>>): (scores: seq<nat>)
    ensures |scores| == |rows|
  {
    seq(|rows|, j requires 0 <= j < |rows| => Score(rows[j]))
  }

  /** `r` is the earliest position of the greatest positive value among the
      first `n` scores, or `None` when those scores are all zero. */
  predicate IsEarliestMax(scores: seq<nat>, n: nat, r: Option<nat>)
    requires n <= |scores|
  {
    match r
    case None => forall j | 0 <= j < n :: scores[j] == 0
    case Some(i) =>
      && i < n
      && scores[i] > 0
      && (forall j | 0 <= j < n :: scores[j] <= scores[i])
      && (forall j | 0 <= j < i :: scores[j] < scores[i])
  }

  /** `r` is the detector's answer over the first `n` rows: the earliest row
      with the greatest positive score, or `None` when every score is zero. */
  predicate IsBestHeader(rows: seq<seq<string>>, n: nat, r: Option<nat>)
    requires n <= |rows|
  {
    IsEarliestMax(RowScores(rows), n, r)
  }

  /** State of the scan: best score so far and the row that reached it. */
  datatype Best<S> = Best(score: S, row: Option<nat>)

  /** The scan over the first `n` scores: a position replaces the best one
      only when its score is strictly greater, starting from zero. */
  function ScanScores(scores: seq<nat>, n: nat): (b: Best<nat>)
    requires n <= |scores|
    ensures IsEarliestMax(scores, n, b.row)
    ensures b.row.None? ==> b.score == 0
    ensures b.row.Some? ==> b.score == scores[b.row.value]
  {
    if n == 0 then Best(0, None)
    else
      var b := ScanScores(scores, n - 1);
      if scores[n - 1] > b.score then Best(scores[n - 1], Some(n - 1)) else b
  }

  /** The header detector with the integer score. */
  function FindHeader(rows: seq<seq<string>>, maxRows: nat): (r: Option<nat>)
    ensures IsBestHeader(rows, Scanned(rows, maxRows), r)
    ensures r.Some? ==> r.value < maxRows && r.value < |rows|
  {
    ScanScores(RowScores(rows), Scanned(rows, maxRows)).row
  }

  /** At most one position meets the description. */
  lemma EarliestMaxUnique(scores: seq<nat>, n: nat, r1: Option<nat>, r2: Option<nat>)
    requires n <= |scores|
    requires IsEarliestMax(scores, n, r1) && IsEarliestMax(scores, n, r2)
    ensures r1 == r2
  {
  }

  /** At most one answer meets the description, so it pins the detector down. */
  lemma BestHeaderUnique(rows: seq<seq<string>>, n: nat, r1: Option<nat>, r2: Option<nat>)
    requires n <= |rows|
    requires IsBestHeader(rows, n, r1) && IsBestHeader(rows, n, r2)
    ensures r1 == r2
  {
  }

  /** `None` comes back exactly when every scanned row is blank; in
      particular for a table with no rows. */
  lemma NoHeaderIffBlank(rows: seq<seq<string>>, maxRows: nat)
    ensures FindHeader(rows, maxRows).None?
        <==> forall j | 0 <= j < Scanned(rows, maxRows) :: IsBlankRow(rows[j])
  {
    var n := Scanned(rows, maxRows);
    var scores := RowScores(rows);
    if FindHeader(rows, maxRows).Some? {
      var i := FindHeader(rows, maxRows).value;
      assert scores[i] == Score(rows[i]);
    } else {
      forall j | 0 <= j < n ensures IsBlankRow(rows[j]) {
        assert scores[j] == Score(rows[j]);
      }
    }
  }

  /** Rows at or past the scan limit play no part: two tables that agree on
      the scanned rows get the same answer. */
  lemma IgnoresRowsPastLimit(rows: seq<seq<string>>, other: seq<seq<string>>, maxRows: nat)
    requires Scanned(rows, maxRows) == Scanned(other, maxRows)
    requires forall j | 0 <= j < Scanned(rows, maxRows) :: other[j] == rows[j]
    ensures FindHeader(other, maxRows) == FindHeader(rows, maxRows)
  {
    var n := Scanned(rows, maxRows);
    var s, t := RowScores(rows), RowScores(other);
    assert forall j | 0 <= j < n :: t[j] == s[j];
    assert IsBestHeader(other, n, FindHeader(rows, maxRows));
    BestHeaderUnique(other, n, FindHeader(other, maxRows), FindHeader(rows, maxRows));
  }

  /** When exactly one scanned row has visible text, that row is chosen. */
  lemma SingleNonBlankRowChosen(rows: seq<seq<string>>, maxRows: nat, i: nat)
    requires i < Scanned(rows, maxRows)
    requires !IsBlankRow(rows[i])
    requires forall j | 0 <= j < Scanned(rows, maxRows) && j != i :: IsBlankRow(rows[j])
    ensures FindHeader(rows, maxRows) == Some(i)
  {
    var n := Scanned(rows, maxRows);
    var scores := RowScores(rows);
    assert forall j | 0 <= j < n && j != i :: scores[j] == 0;
    assert scores[i] > 0;
    assert IsBestHeader(rows, n, Some(i));
    BestHeaderUnique(rows, n, FindHeader(rows, maxRows), Some(i));
  }

  /** The count of non-empty cells adds up over a concatenation of cells. */
  lemma {:induction false} NonEmptyCountAppend(a: seq<string>, b: seq<string>)
    ensures NonEmptyCount(a + b) == NonEmptyCount(a) + NonEmptyCount(b)
  {
    if b == [] {
      assert a + b == a;
    } else {
      var init := b[..|b| - 1];
      assert (a + b)[..|a + b| - 1] == a + init;
      NonEmptyCountAppend(a, init);
    }
  }

  /** The total length adds up over a concatenation of cells. */
  lemma {:induction false} TotalLenAppend(a: seq<string>, b: seq<string>)
    ensures TotalLen(a + b) == TotalLen(a) + TotalLen(b)
  {
    if b == [] {
      assert a + b == a;
    } else {
      var init := b[..|b| - 1];
      assert (a + b)[..|a + b| - 1] == a + init;
      TotalLenAppend(a, init);
    }
  }

  lemma BlankCellMeasures(w: string)
    requires IsBlank(w)
    ensures NonEmptyCount([w]) == 0 && TotalLen([w]) == |w|
  {
    StripEmptyIffBlank(w);
    assert [w][..0] == [];
  }

  /** A whitespace-only cell, wherever it sits, adds nothing to the count of
      non-empty cells but its full length to the total length. */
  lemma WhitespaceCellOnlyAddsLength(front: seq<string>, w: string, back: seq<string>)
    requires IsBlank(w)
    ensures NonEmptyCount(front + [w] + back) == NonEmptyCount(front + back)
    ensures TotalLen(front + [w] + back) == TotalLen(front + back) + |w|
  {
    BlankCellMeasures(w);
    assert NonEmptyCount(front + [w] + back) == NonEmptyCount(front + back) by {
      NonEmptyCountAppend(front, [w]);
      NonEmptyCountAppend(front + [w], back);
      NonEmptyCountAppend(front, back);
    }
    assert TotalLen(front + [w] + back) == TotalLen(front + back) + |w| by {
      TotalLenAppend(front, [w]);
      TotalLenAppend(front + [w], back);
      TotalLenAppend(front, back);
    }
  }

  // ---------------------------------------------------------------------
  // The averaged score, with the division by the width, over exact reals.
  // ---------------------------------------------------------------------

  /** `non_empty * (total_len / width)` over the reals. */
  function AveragedScore(row: seq<string>): real
    requires |row| > 0
  {
    (NonEmptyCount(row) as real) * ((TotalLen(row) as real) / (|row| as real))
  }

  /** Every one of the first `n` rows has at least one cell (the division
      by the width is defined). */
  predicate HasCells(rows: seq<seq<string>>, n: nat)
    requires n <= |rows|
  {
    forall j | 0 <= j < n :: |rows[j]| > 0
  }

  /** The scan with averaged scores over exact reals: the best score starts
      at zero and a row replaces the best one only when its score is strictly
      greater. */
  function AveragedScan(rows: seq<seq<string>>, n: nat): Best<real>
    requires n <= |rows| && HasCells(rows, n)
  {
    if n == 0 then Best(0.0, None)
    else
      var b := AveragedScan(rows, n - 1);
      var p := AveragedScore(rows[n - 1]);
      if p > b.score then Best(p, Some(n - 1)) else b
  }

  /** The detector with averaged scores over exact reals, over the first
      `min(maxRows, len)` rows. */
  function AveragedFindHeader(rows: seq<seq<string>>, maxRows: nat): Option<nat>
    requires HasCells(rows, Scanned(rows, maxRows))
  {
    AveragedScan(rows, Scanned(rows, maxRows)).row
  }

  /** All of the first `n` rows are `w` cells wide. */
  predicate UniformWidth(rows: seq<seq<string>>, n: nat, w: nat)
    requires n <= |rows|
  {
    forall j | 0 <= j < n :: |rows[j]| == w
  }

  /** With a common positive width the real score is the integer score over the width. */
  lemma AveragedScoreIsScaled(row: seq<string>)
    requires |row| > 0
    ensures AveragedScore(row) == (Score(row) as real) / (|row| as real)
  {
    var n, t := NonEmptyCount(row), TotalLen(row);
    TimesIsProduct(n, t);
    ProductOverWidth(n, t, |row|);
  }

  lemma ProductOverWidth(n: nat, t: nat, w: nat)
    requires w > 0
    ensures (n as real) * ((t as real) / (w as real)) == ((n * t) as real) / (w as real)
  {
  }

  /** Dividing by a positive width keeps the order of scores. */
  lemma DivideKeepsOrder(x: nat, y: nat, w: nat)
    requires w > 0
    ensures (x as real) / (w as real) > (y as real) / (w as real) <==> x > y
  {
  }

  /** The exact-arithmetic scan and the integer scan walk in step: the same
      best row, and best scores that differ only by the width factor. */
  lemma {:induction false} AveragedScanAgrees(rows: seq<seq<string>>, n: nat, w: nat)
    requires n <= |rows| && w > 0 && UniformWidth(rows, n, w)
    ensures HasCells(rows, n)
    ensures AveragedScan(rows, n).row == ScanScores(RowScores(rows), n).row
    ensures AveragedScan(rows, n).score == (ScanScores(RowScores(rows), n).score as real) / (w as real)
  {
    if n > 0 {
      AveragedScanAgrees(rows, n - 1, w);
      var b, p := ScanScores(RowScores(rows), n - 1), AveragedScan(rows, n - 1);
      var s := RowScores(rows)[n - 1];
      assert AveragedScore(rows[n - 1]) == (s as real) / (w as real) by {
        assert s == Score(rows[n - 1]);
        AveragedScoreIsScaled(rows[n - 1]);
      }
      DivideKeepsOrder(s, b.score, w);
      assert AveragedScan(rows, n) == (if AveragedScore(rows[n - 1]) > p.score then Best(AveragedScore(rows[n - 1]), Some(n - 1)) else p);
      assert ScanScores(RowScores(rows), n) == (if s > b.score then Best(s, Some(n - 1)) else b);
    }
  }

  /** When the scanned rows share one positive width, the integer detector
      and the averaged detector over exact reals give the same answer. */
  lemma FindHeaderMatchesAveraged(rows: seq<seq<string>>, maxRows: nat, w: nat)
    requires w > 0 && UniformWidth(rows, Scanned(rows, maxRows), w)
    ensures HasCells(rows, Scanned(rows, maxRows))
    ensures AveragedFindHeader(rows, maxRows) == FindHeader(rows, maxRows)
  {
    AveragedScanAgrees(rows, Scanned(rows, maxRows), w);
  }

  // ---------------------------------------------------------------------
  // The scan as a loop.
  // ---------------------------------------------------------------------

  /** The detector's per-cell count and length sum as a loop over the cells:
      the number of non-empty cells and the total raw length. */
  method MeasureRow(row: seq<string>) returns (nonEmpty: nat, totalLen: nat)
    ensures nonEmpty == NonEmptyCount(row)
    ensures totalLen == TotalLen(row)
  {
    nonEmpty, totalLen := 0, 0;
    for k := 0 to |row|
      invariant nonEmpty == NonEmptyCount(row[..k])
      invariant totalLen == TotalLen(row[..k])
    {
      assert row[..k + 1][..k] == row[..k];
      if Strip(row[k]) != "" {
        nonEmpty := nonEmpty + 1;
      }
      totalLen := totalLen + |row[k]|;
    }
    assert row[..|row|] == row;
  }

  /** A row's score computed by the loop, with the common width factored out. */
  method ScoreRow(row: seq<string>) returns (score: nat)
    ensures score == Score(row)
    ensures score == 0 <==> IsBlankRow(row)
  {
    var nonEmpty, totalLen := MeasureRow(row);
    TimesIsProduct(nonEmpty, totalLen);
    score := nonEmpty * totalLen;
  }

  /** The detector as a loop over the leading rows, keeping the best row so far. */
  method FindBestHeader(rows: seq<seq<string>>, maxRows: nat) returns (best: Option<nat>)
    ensures IsBestHeader(rows, Scanned(rows, maxRows), best)
    ensures best == FindHeader(rows, maxRows)
  {
    var limit := if maxRows < |rows| then maxRows else |rows|;
    var bestScore: nat := 0;
    best := None;
    for i := 0 to limit
      invariant IsBestHeader(rows, i, best)
      invariant best.None? ==> bestScore == 0
      invariant best.Some? ==> best.value < i && bestScore == RowScores(rows)[best.value]
    {
      var score := ScoreRow(rows[i]);
      assert score == RowScores(rows)[i];
      if score > bestScore {
        bestScore := score;
        best := Some(i);
      }
    }
    BestHeaderUnique(rows, limit, best, FindHeader(rows, maxRows));
  }
}
