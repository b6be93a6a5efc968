/** The dotplot functions: zero matrices, the basic and the windowed
    dotplot of two sequences, and the diagonal-run measure. */
module Dotplots {
  import opened Wrappers

  /** Number of values `range(n)` yields. */
  function RangeLen(n: int): nat {
    if n > 0 then n else 0
  }

  /** `mat` has `rows` rows of `cols` entries each. */
  predicate IsMatrix(mat: seq<seq<int>>, rows: nat, cols: nat) {
    |mat| == rows && forall r :: 0 <= r < |mat| ==> |mat[r]| == cols
  }

  /** `create_mat(nrows, ncols)`: a list of `nrows` lists of `ncols` zeros;
      a negative dimension counts as zero, as `range` does. */
  method CreateMat(nrows: int, ncols: int) returns (mat: seq<seq<int>>)
    ensures IsMatrix(mat, RangeLen(nrows), RangeLen(ncols))
    ensures forall r, c :: 0 <= r < |mat| && 0 <= c < |mat[r]| ==> mat[r][c] == 0
  {
    mat := [];
    var i := 0;
    while i < nrows
      invariant 0 <= i == |mat| <= RangeLen(nrows)
      invariant forall r :: 0 <= r < |mat| ==> |mat[r]| == RangeLen(ncols)
      invariant forall r, c :: 0 <= r < |mat| && 0 <= c < |mat[r]| ==> mat[r][c] == 0
    {
      var row := [];
      var j := 0;
      while j < ncols
        invariant 0 <= j == |row| <= RangeLen(ncols)
        invariant forall c :: 0 <= c < |row| ==> row[c] == 0
      {
        row := row + [0];
        j := j + 1;
      }
      mat := mat + [row];
      i := i + 1;
    }
  }

  /** The entry the basic dotplot puts at `(i, j)`. */
  function DotCell<T(==)>(s1: seq<T>, s2: seq<T>, i: nat, j: nat): int
    requires i < |s1| && j < |s2|
  {
    if s1[i] == s2[j] then 1 else 0
  }

  /** `dotplot(seq1, seq2)`: a `|seq1| x |seq2|` matrix with a 1 exactly
      where the symbols coincide. */
  method Dotplot<T(==)>(s1: seq<T>, s2: seq<T>) returns (mat: seq<seq<int>>)
    ensures IsMatrix(mat, |s1|, |s2|)
    ensures forall i, j :: 0 <= i < |s1| && 0 <= j < |s2| ==> (mat[i][j] == 1 <==> s1[i] == s2[j])
    ensures forall i, j :: 0 <= i < |s1| && 0 <= j < |s2| ==> (mat[i][j] == 0 <==> s1[i] != s2[j])
  {
    mat := CreateMat(|s1|, |s2|);
    for i := 0 to |s1|
      invariant IsMatrix(mat, |s1|, |s2|)
      invariant forall r, c :: 0 <= r < |s1| && 0 <= c < |s2| ==>
        mat[r][c] == if r < i then DotCell(s1, s2, r, c) else 0
    {
      for j := 0 to |s2|
        invariant IsMatrix(mat, |s1|, |s2|)
        invariant forall r, c :: 0 <= r < |s1| && 0 <= c < |s2| ==>
          mat[r][c] == if r < i || (r == i && c < j) then DotCell(s1, s2, r, c) else 0
      {
        if s1[i] == s2[j] {
          mat := mat[i := mat[i][j := 1]];
        }
      }
    }
  }

  /** Python's `int(window / 2)`: halving rounded toward zero. `window / 2`
      is a float division; it is exact while `|window| <= 2^53`, and
      `RoundedHalfIsBlank` shows that its rounding beyond changes nothing. */
  function HalfTowardZero(window: int): int {
    if window >= 0 then window / 2 else -((-window) / 2)
  }

  function Pow2(n: nat): nat {
    if n == 0 then 1 else 2 * Pow2(n - 1)
  }

  /** The largest finite double is `2^1024 - 2^971`; a quotient at or past
      the midpoint `2^1024 - 2^970` rounds to infinity, so `window / 2`
      raises `OverflowError` from this magnitude of `window` on. */
  const HalvingLimit: int := Pow2(1025) - Pow2(971)

  /** `window / 2` raises `OverflowError`. */
  predicate HalvingOverflows(window: int) {
    window <= -HalvingLimit || HalvingLimit <= window
  }

  /** How many of the `n` aligned pairs `s1[a + t]`, `s2[b + t]` (`t < n`) coincide. */
  function WindowMatches<T(==)>(s1: seq<T>, s2: seq<T>, a: int, b: int, n: nat): (r: nat)
    requires n == 0 || (0 <= a && a + n <= |s1| && 0 <= b && b + n <= |s2|)
    ensures r <= n
  {
    if n == 0 then 0
    else WindowMatches(s1, s2, a, b, n - 1) + (if s1[a + n - 1] == s2[b + n - 1] then 1 else 0)
  }

  /** `(i, j)` is a cell whose whole window of half-width `start` lies
      inside both sequences: the cells `extended_dotplot` visits. */
  predicate InBand(n1: nat, n2: nat, start: int, i: int, j: int) {
    0 <= start && start <= i < n1 - start && start <= j < n2 - start
  }

  /** The entry the windowed dotplot puts at `(i, j)`: 1 for a cell of the
      band whose window has at least `stringency` coinciding pairs. */
  function ExtendedCell<T(==)>(s1: seq<T>, s2: seq<T>, window: int, stringency: int, i: int, j: int): int
  {
    var start := HalfTowardZero(window);
    if InBand(|s1|, |s2|, start, i, j)
      && WindowMatches(s1, s2, i - start, j - start, 2 * start + 1) >= stringency
    then 1 else 0
  }

  /** `extended_dotplot(seq1, seq2, window, stringency)`: `None` where
      `window / 2` raises `OverflowError`, otherwise the matrix. */
  method ExtendedDotplot<T(==)>(s1: seq<T>, s2: seq<T>, window: int, stringency: int)
    returns (r: Option<seq<seq<int>>>)
    ensures r.None? <==> HalvingOverflows(window)
    ensures r.Some? ==> IsMatrix(r.value, |s1|, |s2|)
    ensures r.Some? ==> forall i, j :: 0 <= i < |s1| && 0 <= j < |s2| ==>
      r.value[i][j] == ExtendedCell(s1, s2, window, stringency, i, j)
  {
    var mat := CreateMat(|s1|, |s2|);
    if HalvingOverflows(window) {
      return None;
    }
    var start := HalfTowardZero(window);
    var i := start;
    while i < |s1| - start
      invariant start <= i
      invariant IsMatrix(mat, |s1|, |s2|)
      invariant forall r, c :: 0 <= r < |s1| && 0 <= c < |s2| ==>
        mat[r][c] == if r < i then ExtendedCell(s1, s2, window, stringency, r, c) else 0
    {
      var j := start;
      while j < |s2| - start
        invariant start <= j
        invariant IsMatrix(mat, |s1|, |s2|)
        invariant forall r, c :: 0 <= r < |s1| && 0 <= c < |s2| ==>
          mat[r][c] == if r < i || (r == i && c < j) then ExtendedCell(s1, s2, window, stringency, r, c) else 0
      {
        mat := WindowCell(s1, s2, window, stringency, mat, i, j);
        j := j + 1;
      }
      i := i + 1;
    }
    r := Some(mat);
  }

  /** The body of the two outer loops of `extended_dotplot` for the cell
      `(i, j)`: count the coinciding pairs of its window, setting the cell
      to 1 as soon as the count reaches `stringency`. */
  method WindowCell<T(==)>(s1: seq<T>, s2: seq<T>, window: int, stringency: int, mat0: seq<seq<int>>, i: int, j: int)
    returns (mat: seq<seq<int>>)
    requires HalfTowardZero(window) <= i < |s1| - HalfTowardZero(window)
    requires HalfTowardZero(window) <= j < |s2| - HalfTowardZero(window)
    requires IsMatrix(mat0, |s1|, |s2|)
    requires 0 <= i < |s1| && 0 <= j < |s2| ==> mat0[i][j] == 0
    ensures IsMatrix(mat, |s1|, |s2|)
    ensures forall r, c :: 0 <= r < |s1| && 0 <= c < |s2| && (r != i || c != j) ==> mat[r][c] == mat0[r][c]
    ensures 0 <= i < |s1| && 0 <= j < |s2| ==> mat[i][j] == ExtendedCell(s1, s2, window, stringency, i, j)
  {
    mat := mat0;
    var start := HalfTowardZero(window);
    var matches := 0;
    var l := j - start;
    var k := i - start;
    while k < i + start + 1
      invariant i - start <= k
      invariant k > i - start ==> k <= i + start + 1 && 0 <= start
      invariant l == j - start + (k - (i - start))
      invariant matches == WindowMatches(s1, s2, i - start, j - start, k - (i - start))
      invariant IsMatrix(mat, |s1|, |s2|)
      invariant forall r, c :: 0 <= r < |s1| && 0 <= c < |s2| && (r != i || c != j) ==> mat[r][c] == mat0[r][c]
      invariant 0 <= i < |s1| && 0 <= j < |s2| ==>
        mat[i][j] == if k > i - start && matches >= stringency then 1 else 0
    {
      if s1[k] == s2[l] {
        matches := matches + 1;
      }
      l := l + 1;
      if matches >= stringency {
        mat := mat[i := mat[i][j := 1]];
      }
      k := k + 1;
    }
  }

  /** With window 1 and stringency 1 the windowed dotplot is the basic one. */
  lemma WindowOneIsDotplot<T>(s1: seq<T>, s2: seq<T>)
    ensures forall i, j :: 0 <= i < |s1| && 0 <= j < |s2| ==>
      ExtendedCell(s1, s2, 1, 1, i, j) == DotCell(s1, s2, i, j)
  {
    forall i, j | 0 <= i < |s1| && 0 <= j < |s2|
      ensures ExtendedCell(s1, s2, 1, 1, i, j) == DotCell(s1, s2, i, j)
    {
      assert WindowMatches(s1, s2, i, j, 1) == WindowMatches(s1, s2, i, j, 0) + DotCell(s1, s2, i, j);
    }
  }

  /** The band is `start` cells away from every border; everything outside
      it stays 0, and every entry is 0 or 1. A window of -2 or less halves
      to a negative start, which leaves the matrix blank wherever
      `window / 2` does not overflow; a window of -1 halves to 0 and acts
      as a window of 1. */
  lemma ExtendedCellShape<T>(s1: seq<T>, s2: seq<T>, window: int, stringency: int, i: int, j: int)
    ensures ExtendedCell(s1, s2, window, stringency, i, j) in {0, 1}
    ensures !InBand(|s1|, |s2|, HalfTowardZero(window), i, j) ==> ExtendedCell(s1, s2, window, stringency, i, j) == 0
    ensures window <= -2 ==> ExtendedCell(s1, s2, window, stringency, i, j) == 0
  {
  }

  /** Past `2^53` the float `window / 2` may round to a start other than
      the exact half. Any such start keeps the sign of `window` and, for a
      positive window, is at least `2^52`: the exact half leaves the cell
      blank, and the rounded start puts it outside the band the loops
      visit, so the matrix is blank either way for sequences no longer
      than `2^53`. */
  lemma RoundedHalfIsBlank<T>(s1: seq<T>, s2: seq<T>, window: int, stringency: int, start: int, i: int, j: int)
    requires |s1| <= Pow2(53)
    requires (Pow2(53) < window && Pow2(52) <= start) || (window + Pow2(53) < 0 && start < 0)
    ensures ExtendedCell(s1, s2, window, stringency, i, j) == 0
    ensures !InBand(|s1|, |s2|, start, i, j)
  {
    assert Pow2(53) == 2 * Pow2(52);
  }

  // ---------------------------------------------------------------------
  // test_diagonal_length

  /** Python accepts `k` as an index into a list of length `n`. */
  predicate PyValid(n: nat, k: int) {
    -(n as int) <= k < n
  }

  /** The position Python reads for index `k`: negative indices count from the end. */
  function PyIndex(n: nat, k: int): (r: nat)
    requires PyValid(n, k)
    ensures r < n
  {
    if k < 0 then n + k else k
  }

  /** How many cells the loop of `test_diagonal_length` visits: the
      smaller of the rows below `istart` and the columns right of `jstart`. */
  function DiagLen(mat: seq<seq<int>>, istart: int, jstart: int): nat
    requires |mat| > 0
  {
    var rows := |mat| - istart;
    var cols := |mat[0]| - jstart;
    RangeLen(if rows < cols then rows else cols)
  }

  /** The `t`-th cell of the diagonal can be read without an `IndexError`. */
  predicate CellReadable(mat: seq<seq<int>>, istart: int, jstart: int, t: int) {
    PyValid(|mat|, istart + t) && PyValid(|mat[PyIndex(|mat|, istart + t)]|, jstart + t)
  }

  /** Every cell the loop reads exists. */
  predicate DiagonalInBounds(mat: seq<seq<int>>, istart: int, jstart: int)
    requires |mat| > 0
  {
    forall t :: 0 <= t < DiagLen(mat, istart, jstart) ==> CellReadable(mat, istart, jstart, t)
  }

  /** The `t`-th cell of the diagonal, `mat[istart + t][jstart + t]`. */
  function DiagCell(mat: seq<seq<int>>, istart: int, jstart: int, t: int): int
    requires CellReadable(mat, istart, jstart, t)
  {
    var row := mat[PyIndex(|mat|, istart + t)];
    row[PyIndex(|row|, jstart + t)]
  }

  /** The cells the loop visits, in order. */
  function Diagonal(mat: seq<seq<int>>, istart: int, jstart: int): (d: seq<int>)
    requires |mat| > 0 && DiagonalInBounds(mat, istart, jstart)
    ensures |d| == DiagLen(mat, istart, jstart)
    ensures forall t :: 0 <= t < |d| ==> d[t] == DiagCell(mat, istart, jstart, t)
  {
    seq(DiagLen(mat, istart, jstart), t requires 0 <= t < DiagLen(mat, istart, jstart) => DiagCell(mat, istart, jstart, t))
  }

  /** `d[a..b]` holds only ones. */
  predicate AllOnes(d: seq<int>, a: int, b: int)
    requires 0 <= a <= b <= |d|
  {
    forall t :: a <= t < b ==> d[t] == 1
  }

  /** `r` is the length of the longest run of ones in `d` that is followed
      by a cell other than 1 (0 when there is none). */
  ghost predicate IsLongestClosedRun(d: seq<int>, r: nat) {
    && (forall a, b :: 0 <= a <= b < |d| && AllOnes(d, a, b) && d[b] != 1 ==> b - a <= r)
    && (r == 0 || exists a, b :: 0 <= a <= b < |d| && AllOnes(d, a, b) && d[b] != 1 && b - a == r)
  }

  /** `r` is the length of the longest run of ones in `d`. */
  ghost predicate IsLongestRun(d: seq<int>, r: nat) {
    && (forall a, b :: 0 <= a <= b <= |d| && AllOnes(d, a, b) ==> b - a <= r)
    && (exists a, b :: 0 <= a <= b <= |d| && AllOnes(d, a, b) && b - a == r)
  }

  /** The number of ones immediately before position `e`: the loop's `rang`. */
  function OnesBefore(d: seq<int>, e: nat): (r: nat)
    requires e <= |d|
    ensures r <= e
  {
    if e == 0 || d[e - 1] != 1 then 0 else OnesBefore(d, e - 1) + 1
  }

  /** `OnesBefore(d, e)` measures the longest run of ones ending at `e`. */
  lemma {:induction false} OnesBeforeIsRun(d: seq<int>, e: nat)
    requires e <= |d|
    ensures AllOnes(d, e - OnesBefore(d, e), e)
    ensures forall a :: 0 <= a <= e && AllOnes(d, a, e) ==> e - a <= OnesBefore(d, e)
  {
    if e > 0 && d[e - 1] == 1 {
      OnesBeforeIsRun(d, e - 1);
      forall a | 0 <= a <= e && AllOnes(d, a, e) ensures e - a <= OnesBefore(d, e) {
        if a < e {
          assert AllOnes(d, a, e - 1);
        }
      }
    } else {
      forall a | 0 <= a <= e && AllOnes(d, a, e) ensures e - a <= OnesBefore(d, e) {
      }
    }
  }

  /** The loop state of `test_diagonal_length` after `i` cells: `rang`
      counts the ones just read and `longest` is the longest closed run
      seen so far. */
  ghost predicate ClosedRunsSoFar(d: seq<int>, i: nat, rang: nat, longest: nat)
    requires i <= |d|
  {
    && rang == OnesBefore(d, i) && longest <= i
    && (forall a, b :: 0 <= a <= b < i && AllOnes(d, a, b) && d[b] != 1 ==> b - a <= longest)
    && (longest == 0 || exists a, b :: 0 <= a <= b < i && AllOnes(d, a, b) && d[b] != 1 && b - a == longest)
  }

  /** One iteration of the loop as written keeps its state meaningful. */
  lemma ClosedRunsStep(d: seq<int>, i: nat, rang: nat, longest: nat)
    requires i < |d| && ClosedRunsSoFar(d, i, rang, longest)
    ensures d[i] == 1 ==> ClosedRunsSoFar(d, i + 1, rang + 1, longest)
    ensures d[i] != 1 ==> ClosedRunsSoFar(d, i + 1, 0, if rang > longest then rang else longest)
  {
    if d[i] != 1 {
      OnesBeforeIsRun(d, i);
      var m := if rang > longest then rang else longest;
      forall a, b | 0 <= a <= b < i + 1 && AllOnes(d, a, b) && d[b] != 1 ensures b - a <= m {
        if b == i {
          assert i - a <= rang;
        }
      }
      if rang > longest {
        assert AllOnes(d, i - rang, i) && d[i] != 1;
      }
    }
  }

  /** `test_diagonal_length(mat, istart, jstart)` as written: the loop
      records the current run only when it meets a cell other than 1, so
      the longest CLOSED run is returned. */
  method TestDiagonalLength(mat: seq<seq<int>>, istart: int, jstart: int) returns (longest: nat)
    requires |mat| > 0 && DiagonalInBounds(mat, istart, jstart)
    ensures longest <= DiagLen(mat, istart, jstart)
    ensures IsLongestClosedRun(Diagonal(mat, istart, jstart), longest)
  {
    ghost var d := Diagonal(mat, istart, jstart);
    var iniI := |mat| - istart;
    var iniJ := |mat[0]| - jstart;
    var ini := if iniI < iniJ then iniI else iniJ;
    longest := 0;
    var rang := 0;
    var i := 0;
    while i < ini
      invariant 0 <= i <= |d|
      invariant ClosedRunsSoFar(d, i, rang, longest)
    {
      assert CellReadable(mat, istart, jstart, i);
      var row := mat[PyIndex(|mat|, istart + i)];
      assert row[PyIndex(|row|, jstart + i)] == d[i];
      ClosedRunsStep(d, i, rang, longest);
      if row[PyIndex(|row|, jstart + i)] == 1 {
        rang := rang + 1;
      } else {
        if rang > longest {
          longest := rang;
        }
        rang := 0;
      }
      i := i + 1;
    }
  }

  /** The loop state of the corrected loop after `i` cells: every run so
      far is no longer than the larger of `rang` and `longest`, and
      `longest` is the length of some run. */
  ghost predicate RunsSoFar(d: seq<int>, i: nat, rang: nat, longest: nat)
    requires i <= |d|
  {
    && rang == OnesBefore(d, i) && longest <= i
    && (forall a, b :: 0 <= a <= b <= i && AllOnes(d, a, b) ==> b - a <= if rang > longest then rang else longest)
    && (exists a, b :: 0 <= a <= b <= i && AllOnes(d, a, b) && b - a == longest)
  }

  lemma RunsStep(d: seq<int>, i: nat, rang: nat, longest: nat)
    requires i < |d| && RunsSoFar(d, i, rang, longest)
    ensures d[i] == 1 ==> RunsSoFar(d, i + 1, rang + 1, longest)
    ensures d[i] != 1 ==> RunsSoFar(d, i + 1, 0, if rang > longest then rang else longest)
  {
    OnesBeforeIsRun(d, i);
    OnesBeforeIsRun(d, i + 1);
    if d[i] != 1 {
      var m := if rang > longest then rang else longest;
      forall a, b | 0 <= a <= b <= i + 1 && AllOnes(d, a, b) ensures b - a <= m {
        if b == i + 1 && a <= i {
          assert false;
        }
      }
      if rang > longest {
        assert AllOnes(d, i - rang, i);
      }
    } else {
      forall a, b | 0 <= a <= b <= i + 1 && AllOnes(d, a, b)
        ensures b - a <= if rang + 1 > longest then rang + 1 else longest
      {
        if b == i + 1 {
          assert i + 1 - a <= rang + 1;
        }
      }
    }
  }

  /** Recording the run still open at the end makes the invariant exact. */
  lemma RunsFinish(d: seq<int>, rang: nat, longest: nat)
    requires RunsSoFar(d, |d|, rang, longest)
    ensures IsLongestRun(d, if rang > longest then rang else longest)
  {
    OnesBeforeIsRun(d, |d|);
    if rang > longest {
      assert AllOnes(d, |d| - rang, |d|);
    }
  }

  /** The evidently intended measure: the same loop, with the run still
      open at the end of the diagonal recorded too. */
  method LongestDiagonalRun(mat: seq<seq<int>>, istart: int, jstart: int) returns (longest: nat)
    requires |mat| > 0 && DiagonalInBounds(mat, istart, jstart)
    ensures longest <= DiagLen(mat, istart, jstart)
    ensures IsLongestRun(Diagonal(mat, istart, jstart), longest)
  {
    ghost var d := Diagonal(mat, istart, jstart);
    var iniI := |mat| - istart;
    var iniJ := |mat[0]| - jstart;
    var ini := if iniI < iniJ then iniI else iniJ;
    longest := 0;
    var rang := 0;
    var i := 0;
    assert AllOnes(d, 0, 0);
    while i < ini
      invariant 0 <= i <= |d|
      invariant RunsSoFar(d, i, rang, longest)
    {
      assert CellReadable(mat, istart, jstart, i);
      var row := mat[PyIndex(|mat|, istart + i)];
      assert row[PyIndex(|row|, jstart + i)] == d[i];
      RunsStep(d, i, rang, longest);
      if row[PyIndex(|row|, jstart + i)] == 1 {
        rang := rang + 1;
      } else {
        if rang > longest {
          longest := rang;
        }
        rang := 0;
      }
      i := i + 1;
    }
    RunsFinish(d, rang, longest);
    if rang > longest {
      longest := rang;
    }
  }

  /** A rectangular matrix read from a non-negative start never fails; the
      loop reads `mat[istart + t][jstart + t]` until it reaches the last row
      or the last column, whichever comes first. */
  lemma RectangularInBounds(mat: seq<seq<int>>, istart: int, jstart: int)
    requires |mat| > 0 && IsMatrix(mat, |mat|, |mat[0]|)
    requires istart >= 0 && jstart >= 0
    ensures DiagonalInBounds(mat, istart, jstart)
    ensures forall t :: 0 <= t < |Diagonal(mat, istart, jstart)| ==>
      istart + t < |mat| && jstart + t < |mat[0]| &&
      Diagonal(mat, istart, jstart)[t] == mat[istart + t][jstart + t]
    ensures istart <= |mat| && jstart <= |mat[0]| ==>
      istart + |Diagonal(mat, istart, jstart)| == |mat| || jstart + |Diagonal(mat, istart, jstart)| == |mat[0]|
    ensures istart >= |mat| || jstart >= |mat[0]| ==> Diagonal(mat, istart, jstart) == []
  {
    forall t | 0 <= t < DiagLen(mat, istart, jstart) ensures CellReadable(mat, istart, jstart, t) {
      assert istart + t < |mat| && jstart + t < |mat[0]|;
    }
    var d := Diagonal(mat, istart, jstart);
    forall t | 0 <= t < |d|
      ensures istart + t < |mat| && jstart + t < |mat[0]| && d[t] == mat[istart + t][jstart + t]
    {
      assert |mat[istart + t]| == |mat[0]|;
      assert d[t] == DiagCell(mat, istart, jstart, t);
    }
  }

  /** On a diagonal of ones only, the code as written reports 0 while the
      longest run is the whole diagonal; `[[1]]` from `(0, 0)` is the
      smallest case. */
  lemma {:induction false} TrailingRunIsDropped(d: seq<int>)
    requires |d| > 0 && forall t :: 0 <= t < |d| ==> d[t] == 1
    ensures forall r: nat :: IsLongestClosedRun(d, r) <==> r == 0
    ensures forall r: nat :: IsLongestRun(d, r) <==> r == |d|
  {
    assert AllOnes(d, 0, |d|);
    forall r: nat | IsLongestRun(d, r) ensures r == |d| {
      var a, b :| 0 <= a <= b <= |d| && AllOnes(d, a, b) && b - a == r;
    }
  }

  lemma SingleCellExample()
    ensures DiagonalInBounds([[1]], 0, 0) && Diagonal([[1]], 0, 0) == [1]
    ensures forall r: nat :: IsLongestClosedRun(Diagonal([[1]], 0, 0), r) <==> r == 0
    ensures forall r: nat :: IsLongestRun(Diagonal([[1]], 0, 0), r) <==> r == 1
  {
    RectangularInBounds([[1]], 0, 0);
    assert Diagonal([[1]], 0, 0) == [1];
    TrailingRunIsDropped([1]);
  }
}
