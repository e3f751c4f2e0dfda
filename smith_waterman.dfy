/**
 * The in-place wavefront Smith-Waterman alignment: the cell computation that
 * each task runs, the zeroing of the matrix borders and the wave loop that
 * fills the `e`, `f` and `h` matrices of one pair of sequences, anti-diagonal
 * by anti-diagonal, waiting for the whole wave before starting the next.
 * Tasks of one wave are run one after the other here; see ReadsEarlierWaves
 * for why their order within a wave does not matter.
 */
module SmithWaterman {
  import opened AlignmentScores
  import opened Wavefront

  /** The argument block handed to each cell task. */
  datatype ElementArgs = ElementArgs(
    np: int, mp: int, i: int, k: int, l: int,
    h: array2<int>, e: array2<int>, f: array2<int>,
    sequences: seq<string>, open: nat, extension: nat)
  {
    /** The cell this task computes. */
    function Row(): int { np - i }
    function Col(): int { mp + i }
  }

  /** Three distinct matrices of rows + 1 by cols + 1 cells. */
  predicate Matrices(h: array2<int>, e: array2<int>, f: array2<int>, rows: int, cols: int)
  {
    h != e && h != f && e != f &&
    h.Length0 == e.Length0 == f.Length0 == rows + 1 &&
    h.Length1 == e.Length1 == f.Length1 == cols + 1
  }

  /** Cell (r, c) of all three matrices holds the score of prefixes s[..r] and t[..c]. */
  ghost predicate Scored(h: array2<int>, e: array2<int>, f: array2<int>,
                         s: string, t: string, p: Penalties, r: int, c: int)
    requires Matrices(h, e, f, |s|, |t|)
    requires 0 <= r <= |s| && 0 <= c <= |t|
    reads h, e, f
  {
    h[r, c] == ScoreH(s, t, p, r, c) && e[r, c] == ScoreE(s, t, p, r, c) && f[r, c] == ScoreF(s, t, p, r, c)
  }

  ghost predicate AllScored(h: array2<int>, e: array2<int>, f: array2<int>, s: string, t: string, p: Penalties)
    requires Matrices(h, e, f, |s|, |t|)
    reads h, e, f
  {
    forall r, c :: 0 <= r <= |s| && 0 <= c <= |t| ==> Scored(h, e, f, s, t, p, r, c)
  }

  /**
   * One cell task: computes cell (np - i, mp + i) of `e`, `f` and `h` from its
   * left, upper and diagonal neighbours, and writes nothing else.
   */
  method CalculateElement(args: ElementArgs)
    requires Matrices(args.h, args.e, args.f, args.h.Length0 - 1, args.h.Length1 - 1)
    requires 0 <= args.k < |args.sequences| && 0 <= args.l < |args.sequences|
    requires 1 <= args.Row() < args.h.Length0 && args.Row() <= |args.sequences[args.k]|
    requires 1 <= args.Col() < args.h.Length1 && args.Col() <= |args.sequences[args.l]|
    modifies args.h, args.e, args.f
    ensures var r, c, h, e, f := args.Row(), args.Col(), args.h, args.e, args.f;
            e[r, c] == Max(h[r, c - 1] - args.open, e[r, c - 1] - args.extension) &&
            f[r, c] == Max(h[r - 1, c] - args.open, f[r - 1, c] - args.extension) &&
            h[r, c] == Max(0, Max(h[r - 1, c - 1] + Similarity(args.sequences[args.k][r - 1], args.sequences[args.l][c - 1]),
                                  Max(e[r, c], f[r, c])))
    ensures forall r, c :: 0 <= r < args.h.Length0 && 0 <= c < args.h.Length1 && (r, c) != (args.Row(), args.Col()) ==>
              args.h[r, c] == old(args.h[r, c]) && args.e[r, c] == old(args.e[r, c]) && args.f[r, c] == old(args.f[r, c])
  {
    var h, e, f := args.h, args.e, args.f;
    var r, c := args.Row(), args.Col();
    var a, b;

    // the gap in the row sequence
    a := h[r, c - 1] - args.open;
    b := e[r, c - 1] - args.extension;
    e[r, c] := if a > b then a else b;

    // the gap in the column sequence
    a := h[r - 1, c] - args.open;
    b := f[r - 1, c] - args.extension;
    f[r, c] := if a > b then a else b;

    // the local alignment score
    a := h[r - 1, c - 1] + Similarity(args.sequences[args.k][r - 1], args.sequences[args.l][c - 1]);
    if e[r, c] > f[r, c] {
      if a > e[r, c] {
        h[r, c] := if a > 0 then a else 0;
      } else {
        h[r, c] := if e[r, c] > 0 then e[r, c] else 0;
      }
    } else {
      if a > f[r, c] {
        h[r, c] := if a > 0 then a else 0;
      } else {
        h[r, c] := if f[r, c] > 0 then f[r, c] else 0;
      }
    }
  }

  /** Writes zeroes to column 0 and row 0 of `h`, `e` and `f`; the interior is unchanged. */
  method ZeroBorders(h: array2<int>, e: array2<int>, f: array2<int>, n: int, m: int)
    requires 0 <= n && 0 <= m && Matrices(h, e, f, n, m)
    modifies h, e, f
    ensures forall r :: 0 <= r <= n ==> h[r, 0] == 0 && e[r, 0] == 0 && f[r, 0] == 0
    ensures forall c :: 0 <= c <= m ==> h[0, c] == 0 && e[0, c] == 0 && f[0, c] == 0
    ensures forall r, c :: 1 <= r <= n && 1 <= c <= m ==>
              h[r, c] == old(h[r, c]) && e[r, c] == old(e[r, c]) && f[r, c] == old(f[r, c])
  {
    for i := 0 to n + 1
      invariant forall r :: 0 <= r < i ==> h[r, 0] == 0 && e[r, 0] == 0 && f[r, 0] == 0
      invariant forall r, c :: 0 <= r <= n && 1 <= c <= m ==>
                  h[r, c] == old(h[r, c]) && e[r, c] == old(e[r, c]) && f[r, c] == old(f[r, c])
    {
      h[i, 0], e[i, 0], f[i, 0] := 0, 0, 0;
    }
    for i := 1 to m + 1
      invariant forall r :: 0 <= r <= n ==> h[r, 0] == 0 && e[r, 0] == 0 && f[r, 0] == 0
      invariant forall c :: 1 <= c < i ==> h[0, c] == 0 && e[0, c] == 0 && f[0, c] == 0
      invariant forall r, c :: 1 <= r <= n && 1 <= c <= m ==>
                  h[r, c] == old(h[r, c]) && e[r, c] == old(e[r, c]) && f[r, c] == old(f[r, c])
    {
      h[0, i], e[0, i], f[0, i] := 0, 0, 0;
    }
  }

  /**
   * The cells that are final once the elements before element i of wave `wave`
   * (which starts on row np) have run: the borders, every earlier wave, and the
   * first i elements of this one.
   */
  predicate Before(wave: int, np: int, i: int, r: int, c: int)
  {
    r == 0 || c == 0 || r + c < wave + 2 || (r + c == wave + 2 && np - i < r <= np)
  }

  ghost predicate ScoredBefore(h: array2<int>, e: array2<int>, f: array2<int>, s: string, t: string, p: Penalties,
                               wave: int, np: int, i: int)
    requires Matrices(h, e, f, |s|, |t|)
    reads h, e, f
  {
    forall r, c :: 0 <= r <= |s| && 0 <= c <= |t| && Before(wave, np, i, r, c) ==> Scored(h, e, f, s, t, p, r, c)
  }

  /** Once all elements of a wave have run, every cell of that diagonal is final. */
  lemma WaveComplete(h: array2<int>, e: array2<int>, f: array2<int>, s: string, t: string, p: Penalties,
                     wave: int, np': int)
    requires |s| <= |t| && Matrices(h, e, f, |s|, |t|) && 0 <= wave < Waves(|s|, |t|)
    requires ScoredBefore(h, e, f, s, t, p, wave, Shape(|s|, |t|, wave).np, Shape(|s|, |t|, wave).elements)
    ensures ScoredBefore(h, e, f, s, t, p, wave + 1, np', 0)
  {
    var w := Shape(|s|, |t|, wave);
    forall r, c | 0 <= r <= |s| && 0 <= c <= |t| && Before(wave + 1, np', 0, r, c)
      ensures Scored(h, e, f, s, t, p, r, c)
    {
      if r != 0 && c != 0 && r + c == wave + 2 {
        WaveReachesCell(|s|, |t|, r, c);
      }
      assert Before(wave, w.np, w.elements, r, c);
    }
  }

  /**
   * Runs the task of cell (np - i, mp + i) once its left, upper and diagonal
   * neighbours are final: afterwards the cell is final too, and no other cell
   * has changed.
   */
  method ComputeCell(h: array2<int>, e: array2<int>, f: array2<int>, sequences: seq<string>,
                     k: int, l: int, open: nat, extension: nat, np: int, mp: int, i: int)
    requires 0 <= k < |sequences| && 0 <= l < |sequences|
    requires Matrices(h, e, f, |sequences[k]|, |sequences[l]|)
    requires 1 <= np - i <= |sequences[k]| && 1 <= mp + i <= |sequences[l]|
    requires var s, t, p, r, c := sequences[k], sequences[l], Penalties(open, extension), np - i, mp + i;
             Scored(h, e, f, s, t, p, r, c - 1) && Scored(h, e, f, s, t, p, r - 1, c) &&
             Scored(h, e, f, s, t, p, r - 1, c - 1)
    modifies h, e, f
    ensures Scored(h, e, f, sequences[k], sequences[l], Penalties(open, extension), np - i, mp + i)
    ensures forall r, c :: 0 <= r < h.Length0 && 0 <= c < h.Length1 && (r, c) != (np - i, mp + i) ==>
              h[r, c] == old(h[r, c]) && e[r, c] == old(e[r, c]) && f[r, c] == old(f[r, c])
  {
    ghost var s, t, p := sequences[k], sequences[l], Penalties(open, extension);
    var r, c := np - i, mp + i;
    ghost var left, leftE := ScoreH(s, t, p, r, c - 1), ScoreE(s, t, p, r, c - 1);
    ghost var up, upF := ScoreH(s, t, p, r - 1, c), ScoreF(s, t, p, r - 1, c);
    ghost var diagonal := ScoreH(s, t, p, r - 1, c - 1);
    assert h[r, c - 1] == left && e[r, c - 1] == leftE && h[r - 1, c] == up && f[r - 1, c] == upF;
    assert h[r - 1, c - 1] == diagonal;
    ScoreStep(s, t, p, r, c);
    var args := ElementArgs(np, mp, i, k, l, h, e, f, sequences, open, extension);
    assert args.Row() == r && args.Col() == c;
    CalculateElement(args);
    assert e[r, c] == Max(left - open, leftE - extension) == ScoreE(s, t, p, r, c);
    assert f[r, c] == Max(up - open, upF - extension) == ScoreF(s, t, p, r, c);
    assert h[r, c] == Max(0, Max(diagonal + Similarity(s[r - 1], t[c - 1]), Max(e[r, c], f[r, c]))) == ScoreH(s, t, p, r, c);
  }

  /**
   * Starts the task of element i of a wave and waits for it: if every cell
   * before that element is final, then so is the element's own cell, and no
   * other cell has changed.
   */
  method RunElement(h: array2<int>, e: array2<int>, f: array2<int>, sequences: seq<string>,
                    k: int, l: int, n: int, m: int, open: nat, extension: nat, wave: int, i: int)
    requires 0 <= k < |sequences| && 0 <= l < |sequences|
    requires |sequences[k]| == n && |sequences[l]| == m && n <= m
    requires Matrices(h, e, f, n, m)
    requires 0 <= wave < Waves(n, m) && 0 <= i < Shape(n, m, wave).elements
    requires ScoredBefore(h, e, f, sequences[k], sequences[l], Penalties(open, extension), wave, Shape(n, m, wave).np, i)
    modifies h, e, f
    ensures ScoredBefore(h, e, f, sequences[k], sequences[l], Penalties(open, extension), wave, Shape(n, m, wave).np, i + 1)
    ensures forall r, c :: 0 <= r <= n && 0 <= c <= m && (r, c) != (Shape(n, m, wave).Row(i), Shape(n, m, wave).Col(i)) ==>
              h[r, c] == old(h[r, c]) && e[r, c] == old(e[r, c]) && f[r, c] == old(f[r, c])
  {
    ghost var s, t, p := sequences[k], sequences[l], Penalties(open, extension);
    var shape := Shape(n, m, wave);
    var np, mp := shape.np, shape.mp;
    var r, c := shape.Row(i), shape.Col(i);
    assert Scored(h, e, f, s, t, p, r, c - 1) && Scored(h, e, f, s, t, p, r - 1, c) &&
           Scored(h, e, f, s, t, p, r - 1, c - 1) by {
      ReadsEarlierWaves(n, m, wave, i);
      assert Before(wave, np, i, r, c - 1) && Before(wave, np, i, r - 1, c) && Before(wave, np, i, r - 1, c - 1);
    }
    ComputeCell(h, e, f, sequences, k, l, open, extension, np, mp, i);
    forall r', c' | 0 <= r' <= n && 0 <= c' <= m && Before(wave, np, i + 1, r', c')
      ensures Scored(h, e, f, s, t, p, r', c')
    {
      if (r', c') != (r, c) {
        assert Before(wave, np, i, r', c');
        assert old(Scored(h, e, f, s, t, p, r', c'));
      }
    }
  }

  /**
   * Aligns sequence k (the rows) with sequence l (the columns): zeroes the
   * borders, then runs the waves in order, every cell of a wave before the next
   * wave starts. Afterwards every cell holds its alignment score.
   */
  method AlignPair(h: array2<int>, e: array2<int>, f: array2<int>, sequences: seq<string>,
                   k: int, l: int, n: int, m: int, open: nat, extension: nat)
    requires 0 <= k < |sequences| && 0 <= l < |sequences|
    requires |sequences[k]| == n && |sequences[l]| == m && n <= m
    requires Matrices(h, e, f, n, m)
    modifies h, e, f
    ensures AllScored(h, e, f, sequences[k], sequences[l], Penalties(open, extension))
  {
    ghost var s, t, p := sequences[k], sequences[l], Penalties(open, extension);
    ZeroBorders(h, e, f, n, m);
    var waves := Waves(n, m);
    var wave := 0;
    while wave < waves
      invariant 0 <= wave && (0 <= waves ==> wave <= waves)
      invariant ScoredBefore(h, e, f, s, t, p, wave, 0, 0)
    {
      var shape := Shape(n, m, wave);
      var elements, np, mp := shape.elements, shape.np, shape.mp;
      for i := 0 to elements
        invariant ScoredBefore(h, e, f, s, t, p, wave, np, i)
      {
        RunElement(h, e, f, sequences, k, l, n, m, open, extension, wave, i);
      }
      WaveComplete(h, e, f, s, t, p, wave, 0);
      wave := wave + 1;
    }
    forall r, c | 0 <= r <= n && 0 <= c <= m ensures Scored(h, e, f, s, t, p, r, c) {
      assert Before(wave, 0, 0, r, c);
    }
  }

  /**
   * The alignment loop of the program: every pair k < l of the q sequences of
   * length n is aligned in turn into the same three (n + 1) x (n + 1) matrices,
   * so that afterwards they hold the scores of the last pair.
   */
  method AlignAll(sequences: seq<string>, n: nat, open: nat, extension: nat)
    returns (h: array2<int>, e: array2<int>, f: array2<int>)
    requires forall j :: 0 <= j < |sequences| ==> |sequences[j]| == n
    ensures fresh(h) && fresh(e) && fresh(f) && Matrices(h, e, f, n, n)
    ensures |sequences| >= 2 ==>
              AllScored(h, e, f, sequences[|sequences| - 2], sequences[|sequences| - 1], Penalties(open, extension))
  {
    var q := |sequences|;
    var m := n;
    h := new int[n + 1, m + 1];
    e := new int[n + 1, m + 1];
    f := new int[n + 1, m + 1];
    ghost var p := Penalties(open, extension);
    for k := 0 to q
      invariant 2 <= q && 1 <= k ==>
                  AllScored(h, e, f, sequences[if k < q then k - 1 else q - 2], sequences[q - 1], p)
    {
      for l := k + 1 to q
        invariant k + 1 < l ==> AllScored(h, e, f, sequences[k], sequences[l - 1], p)
        invariant 2 <= q && 1 <= k && l == k + 1 ==>
                    AllScored(h, e, f, sequences[if k < q then k - 1 else q - 2], sequences[q - 1], p)
      {
        AlignPair(h, e, f, sequences, k, l, n, m, open, extension);
      }
    }
  }
}
