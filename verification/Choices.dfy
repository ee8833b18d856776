/** Choosing among options by their token log-probabilities, column by column. */
module Choices {
  type Row = seq<real>

  function Sum(row: Row): real
  {
    if row == [] then 0.0 else Sum(row[..|row| - 1]) + row[|row| - 1]
  }

  function Mean(row: Row): real
    requires row != []
  {
    Sum(row) / |row| as real
  }

  lemma {:induction false} SumOfBoth(a: Row, b: Row)
    ensures Sum(a + b) == Sum(a) + Sum(b)
    decreases |b|
  {
    if b == [] {
      assert a + b == a;
    } else {
      assert (a + b)[..|a + b| - 1] == a + b[..|b| - 1];
      SumOfBoth(a, b[..|b| - 1]);
    }
  }

  lemma MeanIsShare(row: Row)
    requires row != []
    ensures Mean(row) * |row| as real == Sum(row)
  {
  }

  /** The mean of one entry is that entry, and the mean of two rows put together weighs their means by their lengths. */
  lemma MeansAreWeighted(x: real, a: Row, b: Row)
    requires a != [] && b != []
    ensures Mean([x]) == x
    ensures Mean(a + b) * (|a| + |b|) as real == Mean(a) * |a| as real + Mean(b) * |b| as real
  {
    assert Sum([x][..0]) == 0.0;
    SumOfBoth(a, b);
    MeanIsShare(a);
    MeanIsShare(b);
    MeanIsShare(a + b);
  }

  /** row, extended by its mean to n columns. */
  ghost predicate Padded(row: Row, padded: Row, n: nat)
    requires row != []
  {
    && |padded| == n && |row| <= n && padded[..|row|] == row
    && forall j :: |row| <= j < n ==> padded[j] == Mean(row)
  }

  /** Padding with the mean keeps the mean. */
  lemma PaddingKeepsMean(row: Row, padded: Row, n: nat)
    requires row != [] && Padded(row, padded, n)
    ensures Mean(padded) == Mean(row)
  {
    assert padded[..n] == padded;
    PaddedSum(row, padded, n);
    Shares(Sum(row), Mean(row), |row|, n, Sum(padded));
  }

  /** A mean over m entries, continued to n entries. */
  lemma Shares(sum: real, mean: real, m: nat, n: nat, total: real)
    requires 0 < m <= n && mean == sum / m as real && total == sum + mean * (n - m) as real
    ensures total / n as real == mean
  {
    assert sum == mean * m as real;
    assert mean * m as real + mean * (n - m) as real == mean * n as real;
  }

  lemma {:induction false} PaddedSum(row: Row, padded: Row, k: nat)
    requires row != [] && |row| <= k <= |padded| && padded[..|row|] == row
    requires forall j :: |row| <= j < |padded| ==> padded[j] == Mean(row)
    ensures Sum(padded[..k]) == Sum(row) + Mean(row) * (k - |row|) as real
    decreases k
  {
    if k > |row| {
      PaddedSum(row, padded, k - 1);
      assert padded[..k][..k - 1] == padded[..k - 1];
      assert (k - |row|) as real == (k - 1 - |row|) as real + 1.0;
    }
  }

  // ----- comparing rows -----

  /** x is better than y in the first j columns: it is larger where they first differ. */
  ghost predicate Beats(x: Row, y: Row, j: nat)
    requires j <= |x| && j <= |y|
  {
    exists m {:trigger x[m]} :: 0 <= m < j && x[..m] == y[..m] && x[m] > y[m]
  }

  ghost predicate Matrix(rows: seq<Row>, columns: nat)
  {
    rows != [] && forall i {:trigger rows[i]} :: 0 <= i < |rows| ==> |rows[i]| == columns
  }

  /** No row is better than row i in the first j columns. */
  ghost predicate Unbeaten(rows: seq<Row>, columns: nat, i: nat, j: nat)
    requires Matrix(rows, columns) && j <= columns
  {
    i < |rows| && forall k {:trigger rows[k]} :: 0 <= k < |rows| ==> !Beats(rows[k], rows[i], j)
  }

  /** Rows that nobody beats agree. */
  lemma UnbeatenAgree(rows: seq<Row>, columns: nat, i: nat, k: nat, j: nat)
    requires Matrix(rows, columns) && j <= columns && Unbeaten(rows, columns, i, j) && Unbeaten(rows, columns, k, j)
    ensures rows[i][..j] == rows[k][..j]
  {
    var x, y := rows[i], rows[k];
    for m := 0 to j
      invariant x[..m] == y[..m]
    {
      assert x[m] == y[m];
    }
  }

  lemma BeatsMore(x: Row, y: Row, j: nat)
    requires j < |x| && j < |y|
    ensures Beats(x, y, j + 1) <==> Beats(x, y, j) || (x[..j] == y[..j] && x[j] > y[j])
  {
    if m :| 0 <= m < j + 1 && x[..m] == y[..m] && x[m] > y[m] {
      assert m < j ==> Beats(x, y, j);
    }
    if Beats(x, y, j) {
      var m :| 0 <= m < j && x[..m] == y[..m] && x[m] > y[m];
    }
  }

  /** One more column: of the rows that were unbeaten, those with the largest entry stay. */
  lemma UnbeatenMore(rows: seq<Row>, columns: nat, j: nat, i: nat, best: real, b: nat)
    requires Matrix(rows, columns) && j < columns
    requires Unbeaten(rows, columns, b, j) && rows[b][j] == best
    requires forall k: nat {:trigger Unbeaten(rows, columns, k, j)} ::
      Unbeaten(rows, columns, k, j) ==> rows[k][j] <= best
    ensures Unbeaten(rows, columns, i, j + 1) <==> Unbeaten(rows, columns, i, j) && rows[i][j] == best
  {
    if i < |rows| {
      forall k | 0 <= k < |rows|
        ensures Beats(rows[k], rows[i], j + 1) <==>
          Beats(rows[k], rows[i], j) || (rows[k][..j] == rows[i][..j] && rows[k][j] > rows[i][j])
      {
        BeatsMore(rows[k], rows[i], j);
      }
      if Unbeaten(rows, columns, i, j) {
        UnbeatenAgree(rows, columns, i, b, j);
        if rows[i][j] == best {
          forall k | 0 <= k < |rows| ensures !Beats(rows[k], rows[i], j + 1) {
            if rows[k][..j] == rows[i][..j] { SameIsUnbeaten(rows, columns, i, k, j); }
          }
        }
      }
    }
  }

  lemma SameIsUnbeaten(rows: seq<Row>, columns: nat, i: nat, k: nat, j: nat)
    requires Matrix(rows, columns) && j <= columns && Unbeaten(rows, columns, i, j) && k < |rows|
    requires rows[k][..j] == rows[i][..j]
    ensures Unbeaten(rows, columns, k, j)
  {
    forall l | 0 <= l < |rows| ensures !Beats(rows[l], rows[k], j) {
      BeatsSame(rows[l], rows[k], rows[i], j);
    }
  }

  lemma BeatsSame(z: Row, x: Row, y: Row, j: nat)
    requires j <= |x| && j <= |y| && j <= |z| && x[..j] == y[..j]
    ensures Beats(z, x, j) ==> Beats(z, y, j)
  {
    if m :| 0 <= m < j && z[..m] == x[..m] && z[m] > x[m] {
      assert x[..m] == x[..j][..m] && y[..m] == y[..j][..m];
      assert x[m] == x[..j][m] && y[m] == y[..j][m];
    }
  }

  /** With one unbeaten row left, no later column can matter. */
  lemma OnlyOneLeft(rows: seq<Row>, columns: nat, i: nat, j: nat, n: nat)
    requires Matrix(rows, columns) && j <= n <= columns && Unbeaten(rows, columns, i, j)
    requires forall k: nat {:trigger Unbeaten(rows, columns, k, j)} :: Unbeaten(rows, columns, k, j) ==> k == i
    ensures Unbeaten(rows, columns, i, n)
    ensures forall k: nat {:trigger Unbeaten(rows, columns, k, n)} :: Unbeaten(rows, columns, k, n) ==> k == i
    decreases n - j
  {
    if j < n {
      forall k: nat {:trigger Unbeaten(rows, columns, k, j + 1)} ensures Unbeaten(rows, columns, k, j + 1) <==> k == i {
        UnbeatenMore(rows, columns, j, k, rows[i][j], i);
      }
      OnlyOneLeft(rows, columns, i, j + 1, n);
    }
  }

  // ----- the selection -----

  /** Indices in ascending order. */
  ghost predicate Ascending(s: seq<nat>)
  {
    forall a, b :: 0 <= a < b < |s| ==> s[a] < s[b]
  }

  /** remaining lists exactly the rows that are unbeaten in the first j columns. */
  ghost predicate Remaining(rows: seq<Row>, columns: nat, remaining: seq<nat>, j: nat)
    requires Matrix(rows, columns) && j <= columns
  {
    && remaining != [] && Ascending(remaining)
    && (forall a {:trigger remaining[a]} :: 0 <= a < |remaining| ==> remaining[a] < |rows|)
    && forall i: nat {:trigger i in remaining} {:trigger Unbeaten(rows, columns, i, j)} ::
      i in remaining <==> Unbeaten(rows, columns, i, j)
  }

  /** The largest entry of column j among the remaining rows, and a row that has it. */
  method MaxOf(rows: seq<Row>, columns: nat, remaining: seq<nat>, j: nat) returns (best: real, ghost b: nat)
    requires Matrix(rows, columns) && j < columns && Remaining(rows, columns, remaining, j)
    ensures b in remaining && rows[b][j] == best && forall i :: i in remaining ==> rows[i][j] <= best
  {
    assert remaining[0] in remaining;
    best, b := rows[remaining[0]][j], remaining[0];
    for a := 1 to |remaining|
      invariant b in remaining && rows[b][j] == best
      invariant forall c :: 0 <= c < a ==> rows[remaining[c]][j] <= best
    {
      assert remaining[a] in remaining;
      if rows[remaining[a]][j] > best {
        best, b := rows[remaining[a]][j], remaining[a];
      }
    }
  }

  /** The remaining rows with that entry in column j, in the same order. */
  method Filter(rows: seq<Row>, columns: nat, remaining: seq<nat>, j: nat, best: real) returns (kept: seq<nat>)
    requires Matrix(rows, columns) && j < columns && Remaining(rows, columns, remaining, j)
    ensures Ascending(kept) && forall a {:trigger kept[a]} :: 0 <= a < |kept| ==> kept[a] < |rows|
    ensures forall i {:trigger i in kept} :: i in kept <==> i in remaining && rows[i][j] == best
  {
    kept := [];
    for a := 0 to |remaining|
      invariant Ascending(kept) && forall c {:trigger kept[c]} :: 0 <= c < |kept| ==> kept[c] < |rows|
      invariant forall i :: i in kept <==> i in remaining[..a] && i < |rows| && rows[i][j] == best
      invariant forall c :: 0 <= c < |kept| ==> exists d :: 0 <= d < a && remaining[d] == kept[c]
    {
      assert remaining[a] in remaining;
      assert remaining[..a + 1] == remaining[..a] + [remaining[a]];
      if rows[remaining[a]][j] == best {
        kept := kept + [remaining[a]];
      }
    }
    assert remaining[..|remaining|] == remaining;
  }

  method NextColumn(rows: seq<Row>, columns: nat, remaining: seq<nat>, j: nat) returns (kept: seq<nat>)
    requires Matrix(rows, columns) && j < columns && Remaining(rows, columns, remaining, j)
    ensures Remaining(rows, columns, kept, j + 1)
  {
    var best;
    ghost var b;
    best, b := MaxOf(rows, columns, remaining, j);
    kept := Filter(rows, columns, remaining, j, best);
    assert b in kept;
    forall i: nat ensures i in kept <==> Unbeaten(rows, columns, i, j + 1) {
      UnbeatenMore(rows, columns, j, i, best, b);
    }
  }

  /** _greedy_selection: the rows that are lexicographically largest, although it stops once one row is left. */
  method GreedySelection(rows: seq<Row>, columns: nat) returns (remaining: seq<nat>)
    requires Matrix(rows, columns)
    ensures Remaining(rows, columns, remaining, columns)
  {
    remaining := seq(|rows|, i requires 0 <= i < |rows| => i);
    forall i: nat ensures i in remaining <==> Unbeaten(rows, columns, i, 0) {
      assert i < |rows| ==> remaining[i] == i;
    }
    var j := 0;
    while j < columns
      invariant j <= columns && Remaining(rows, columns, remaining, j)
    {
      remaining := NextColumn(rows, columns, remaining, j);
      j := j + 1;
      if |remaining| == 1 {
        OneRemains(rows, columns, remaining, j);
        return;
      }
    }
  }

  lemma OneRemains(rows: seq<Row>, columns: nat, remaining: seq<nat>, j: nat)
    requires Matrix(rows, columns) && j <= columns && Remaining(rows, columns, remaining, j) && |remaining| == 1
    ensures Remaining(rows, columns, remaining, columns)
  {
    var i := remaining[0];
    assert i in remaining;
    forall k: nat {:trigger Unbeaten(rows, columns, k, j)} ensures Unbeaten(rows, columns, k, j) ==> k == i {
      assert k in remaining ==> k == remaining[0];
    }
    OnlyOneLeft(rows, columns, i, j, columns);
  }

  /** The number of tokens of the longest option. */
  function Longest(options: seq<Row>): (n: nat)
    ensures forall i {:trigger options[i]} :: 0 <= i < |options| ==> |options[i]| <= n
    ensures options != [] ==> exists i :: 0 <= i < |options| && |options[i]| == n
  {
    if options == [] then 0
    else
      var rest, last := Longest(options[..|options| - 1]), |options[|options| - 1]|;
      assert forall i :: 0 <= i < |options| - 1 ==> options[i] == options[..|options| - 1][i];
      assert |options[|options| - 1]| == last;
      if rest < last then last else rest
  }

  /** Every option, extended by its mean to the length of the longest. */
  ghost predicate Table(options: seq<Row>, rows: seq<Row>)
    requires forall i {:trigger options[i]} :: 0 <= i < |options| ==> options[i] != []
  {
    |rows| == |options| && forall i {:trigger rows[i]} ::
      0 <= i < |rows| ==> Padded(options[i], rows[i], Longest(options))
  }

  /** __call__: the first of the options whose rows are lexicographically largest. */
  method Choose(options: seq<Row>) returns (choice: nat)
    requires options != [] && forall i {:trigger options[i]} :: 0 <= i < |options| ==> options[i] != []
    ensures choice < |options| && exists rows :: Table(options, rows)
    ensures forall rows {:trigger Table(options, rows)} :: Table(options, rows) ==>
      Matrix(rows, Longest(options)) && First(rows, Longest(options), choice)
  {
    var columns := LongestOf(options);
    var rows := BuildMatrix(options, columns);
    var remaining := GreedySelection(rows, columns);
    choice := remaining[0];
    FirstRemains(rows, columns, remaining);
    forall rows' | Table(options, rows') ensures rows' == rows {
      TableIsUnique(options, rows, rows');
    }
  }

  /** choice is the smallest index of a row that no row beats. */
  ghost predicate First(rows: seq<Row>, columns: nat, choice: nat)
    requires Matrix(rows, columns)
  {
    Unbeaten(rows, columns, choice, columns) && forall i: nat :: Unbeaten(rows, columns, i, columns) ==> choice <= i
  }

  lemma FirstRemains(rows: seq<Row>, columns: nat, remaining: seq<nat>)
    requires Matrix(rows, columns) && Remaining(rows, columns, remaining, columns)
    ensures First(rows, columns, remaining[0]) && remaining[0] < |rows|
  {
    var choice := remaining[0];
    assert choice in remaining;
    forall i: nat | Unbeaten(rows, columns, i, columns) ensures choice <= i {
      assert i in remaining;
    }
  }

  lemma TableIsUnique(options: seq<Row>, rows: seq<Row>, rows': seq<Row>)
    requires forall i {:trigger options[i]} :: 0 <= i < |options| ==> options[i] != []
    requires Table(options, rows) && Table(options, rows')
    ensures rows == rows'
  {
    forall i | 0 <= i < |rows| ensures rows[i] == rows'[i] {
      forall j | 0 <= j < |rows[i]| ensures rows[i][j] == rows'[i][j] {
        if j < |options[i]| {
          assert rows[i][j] == rows[i][..|options[i]|][j] && rows'[i][j] == rows'[i][..|options[i]|][j];
        }
      }
    }
  }

  method LongestOf(options: seq<Row>) returns (n: nat)
    ensures n == Longest(options)
  {
    n := 0;
    for i := 0 to |options|
      invariant n == Longest(options[..i])
    {
      assert options[..i + 1][..i] == options[..i];
      if n < |options[i]| { n := |options[i]|; }
    }
    assert options[..|options|] == options;
  }

  /** _build_logprob_matrix: shorter options are extended by their mean. */
  method BuildMatrix(options: seq<Row>, columns: nat) returns (rows: seq<Row>)
    requires options != [] && columns == Longest(options)
    requires forall i {:trigger options[i]} :: 0 <= i < |options| ==> options[i] != []
    ensures Matrix(rows, columns) && Table(options, rows)
  {
    rows := [];
    for i := 0 to |options|
      invariant |rows| == i
      invariant forall k :: 0 <= k < i ==> |rows[k]| == columns && Padded(options[k], rows[k], columns)
    {
      var average := Mean(options[i]);
      var row := options[i] + seq(columns - |options[i]|, _ => average);
      assert row[..|options[i]|] == options[i];
      rows := rows + [row];
    }
  }
}
