/**
 * The anti-diagonal schedule of the wavefront: for an n x m interior (rows and
 * columns 1..n and 1..m of matrices of size (n+1) x (m+1)), wave w holds the
 * cells (r, c) with r + c == w + 2. Each wave is described, as in the program,
 * by its number of elements and the start point (np, mp); element i of the wave
 * is the cell (np - i, mp + i).
 */
module Wavefront {

  datatype WaveShape = WaveShape(elements: int, np: int, mp: int) {
    /** Row of element i of this wave. */
    function Row(i: int): int { np - i }
    /** Column of element i of this wave. */
    function Col(i: int): int { mp + i }
  }

  /** Index of the wave that holds cell (r, c). */
  function WaveOf(r: int, c: int): int { r + c - 2 }

  /**
   * Number of waves: the last wave is the one of the far corner (n, m). With
   * signed arithmetic, empty sequences give no wave at all.
   */
  function Waves(n: int, m: int): (w: int)
    ensures w == WaveOf(n, m) + 1
    ensures n <= 0 && m <= 1 ==> w <= 0
  {
    n + m - 1
  }

  /**
   * The three cases of the wave loop: waves that still start on column 1, the
   * waves that start on the last row and still end on the first row, and the
   * closing waves that start on the last row and shrink.
   */
  function Shape(n: int, m: int, wave: int): (w: WaveShape)
    requires 0 <= n <= m && 0 <= wave < Waves(n, m)
    ensures 0 <= w.elements
    ensures forall i :: 0 <= i < w.elements ==>
              1 <= w.Row(i) <= n && 1 <= w.Col(i) <= m && w.Row(i) + w.Col(i) == wave + 2
  {
    if wave < n - 1 then WaveShape(wave + 1, wave + 1, 0 + 1)
    else if wave < m then WaveShape(n, n - 1 + 1, wave - (n - 1) + 1)
    else WaveShape(n - 1 - (wave - m), n - 1 + 1, wave - (n - 1) + 1)
  }

  /** Position of cell (r, c) within its wave. */
  function IndexOf(n: int, m: int, r: int, c: int): int
    requires 0 <= n <= m && 1 <= r <= n && 1 <= c <= m
  {
    Shape(n, m, WaveOf(r, c)).np - r
  }

  /**
   * Every interior cell is element IndexOf(r, c) of wave WaveOf(r, c), and its row
   * lies within the rows that the elements of that wave cover.
   */
  lemma WaveReachesCell(n: int, m: int, r: int, c: int)
    requires 0 <= n <= m && 1 <= r <= n && 1 <= c <= m
    ensures 0 <= WaveOf(r, c) < Waves(n, m)
    ensures var w := Shape(n, m, WaveOf(r, c));
            0 <= IndexOf(n, m, r, c) < w.elements &&
            w.Row(IndexOf(n, m, r, c)) == r && w.Col(IndexOf(n, m, r, c)) == c &&
            w.np - w.elements < r <= w.np
  {
  }

  /** The set of (wave, element) pairs of the whole schedule that land on cell (r, c). */
  function Visits(n: int, m: int, r: int, c: int): set<(int, int)>
    requires 0 <= n <= m
  {
    set wave, i | 0 <= wave < Waves(n, m) && 0 <= i < Shape(n, m, wave).elements &&
                  Shape(n, m, wave).Row(i) == r && Shape(n, m, wave).Col(i) == c :: (wave, i)
  }

  /** Across all waves, every interior cell is visited exactly once. */
  lemma VisitedExactlyOnce(n: int, m: int, r: int, c: int)
    requires 0 <= n <= m && 1 <= r <= n && 1 <= c <= m
    ensures Visits(n, m, r, c) == {(WaveOf(r, c), IndexOf(n, m, r, c))}
  {
    WaveReachesCell(n, m, r, c);
    var visit := (WaveOf(r, c), IndexOf(n, m, r, c));
    assert visit in Visits(n, m, r, c);
    forall v | v in Visits(n, m, r, c) ensures v == visit {
      var w := Shape(n, m, v.0);
      assert w.Row(v.1) + w.Col(v.1) == v.0 + 2;
    }
  }

  /** No cell outside the interior is ever visited. */
  lemma OnlyInteriorVisited(n: int, m: int, r: int, c: int)
    requires 0 <= n <= m
    requires !(1 <= r <= n && 1 <= c <= m)
    ensures Visits(n, m, r, c) == {}
  {
    forall v: (int, int) ensures v !in Visits(n, m, r, c) {
    }
  }

  /** A neighbour a cell reads is on row 0 or column 0, or is visited on a strictly earlier wave. */
  ghost predicate ReadyBefore(n: int, m: int, wave: int, r: int, c: int)
    requires 0 <= n <= m
  {
    r == 0 || c == 0 ||
    (1 <= r <= n && 1 <= c <= m && WaveOf(r, c) < wave &&
     exists v :: v in Visits(n, m, r, c) && v.0 < wave)
  }

  /**
   * The left, upper and diagonal neighbours of every element of a wave are ready
   * before the wave starts, which is what the wait for the whole group after
   * each wave relies on.
   */
  lemma ReadsEarlierWaves(n: int, m: int, wave: int, i: int)
    requires 0 <= n <= m && 0 <= wave < Waves(n, m) && 0 <= i < Shape(n, m, wave).elements
    ensures var w := Shape(n, m, wave);
            ReadyBefore(n, m, wave, w.Row(i), w.Col(i) - 1) &&
            ReadyBefore(n, m, wave, w.Row(i) - 1, w.Col(i)) &&
            ReadyBefore(n, m, wave, w.Row(i) - 1, w.Col(i) - 1)
  {
    var r, c := Shape(n, m, wave).Row(i), Shape(n, m, wave).Col(i);
    if c - 1 != 0 {
      VisitedExactlyOnce(n, m, r, c - 1);
    }
    if r - 1 != 0 {
      VisitedExactlyOnce(n, m, r - 1, c);
    }
    if r - 1 != 0 && c - 1 != 0 {
      VisitedExactlyOnce(n, m, r - 1, c - 1);
    }
  }

  // The program computes the schedule on 32-bit unsigned integers.

  const U32: int := 0x1_0000_0000

  function Unsigned(x: int): nat { x % U32 }

  /** Number of waves as the program computes it: `n + m - 1` on unsigned integers. */
  function WavesAsWritten(n: nat, m: nat): (w: nat)
    ensures w < U32
    ensures 1 <= n + m <= U32 ==> w == Waves(n, m)
    ensures n + m == 0 ==> w == U32 - 1
  {
    Unsigned(n + m - 1)
  }

  /**
   * The wave cases as the program computes them on unsigned integers; they
   * agree with the signed ones whenever the row sequence is not empty.
   */
  function ShapeAsWritten(n: nat, m: nat, wave: nat): (w: WaveShape)
    ensures 1 <= n <= m < U32 && wave < Waves(n, m) ==> w == Shape(n, m, wave)
  {
    if wave < Unsigned(n - 1) then WaveShape(Unsigned(wave + 1), Unsigned(wave + 1), 1)
    else if wave < m then WaveShape(n, Unsigned(n - 1 + 1), Unsigned(wave - (n - 1) + 1))
    else WaveShape(Unsigned(n - 1 - (wave - m)), Unsigned(n - 1 + 1), Unsigned(wave - (n - 1) + 1))
  }

  /**
   * With empty sequences (n == m == 0) the unsigned wave count wraps around to
   * 2^32 - 1, and the first wave holds one element, cell (1, 1), which lies
   * outside matrices of a single row and a single column.
   */
  lemma EmptySequencesOverrun()
    ensures WavesAsWritten(0, 0) == U32 - 1
    ensures ShapeAsWritten(0, 0, 0) == WaveShape(1, 1, 1)
    ensures ShapeAsWritten(0, 0, 0).Row(0) > 0 && ShapeAsWritten(0, 0, 0).Col(0) > 0
  {
  }

  /** With signed arithmetic, empty row sequences produce no cell on any wave. */
  lemma EmptySequencesNoWork(m: int)
    requires 0 <= m
    ensures Waves(0, 0) < 0
    ensures forall wave :: 0 <= wave < Waves(0, m) ==> Shape(0, m, wave).elements == 0
  {
  }
}
