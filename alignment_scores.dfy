/**
 * The scoring model of the Smith-Waterman (Gotoh, affine gap) local alignment:
 * the character similarity, the gap penalties and the three score recurrences
 * that the wavefront fills into the matrices `e`, `f` and `h`.
 *
 * Row r stands for the first r characters of the row sequence `s`, column c for
 * the first c characters of the column sequence `t`. Row 0 and column 0 are the
 * zeroed borders.
 */
module AlignmentScores {

  /** The two gap penalties, read as unsigned integers by the program. */
  datatype Penalties = Penalties(open: nat, extension: nat)

  function Max(a: int, b: int): int { if a > b then a else b }

  function Min(a: int, b: int): int { if a < b then a else b }

  /** Score of aligning character x with character y: a match earns 2, a mismatch costs 1. */
  function Similarity(x: char, y: char): (r: int)
    ensures r == 2 <==> x == y
    ensures x != y ==> r == -1
  {
    if x == y then 2 else -1
  }

  lemma SimilaritySymmetric(x: char, y: char)
    ensures Similarity(x, y) == Similarity(y, x)
    ensures -1 <= Similarity(x, y) <= 2
  {
  }

  /** Best score of an alignment ending at (r, c) with a gap in the row sequence (the `e` matrix). */
  function ScoreE(s: string, t: string, p: Penalties, r: nat, c: nat): int
    requires r <= |s| && c <= |t|
    decreases r + c, 0
  {
    if r == 0 || c == 0 then 0
    else Max(ScoreH(s, t, p, r, c - 1) - p.open, ScoreE(s, t, p, r, c - 1) - p.extension)
  }

  /** Best score of an alignment ending at (r, c) with a gap in the column sequence (the `f` matrix). */
  function ScoreF(s: string, t: string, p: Penalties, r: nat, c: nat): int
    requires r <= |s| && c <= |t|
    decreases r + c, 0
  {
    if r == 0 || c == 0 then 0
    else Max(ScoreH(s, t, p, r - 1, c) - p.open, ScoreF(s, t, p, r - 1, c) - p.extension)
  }

  /** Best local alignment score ending at (r, c) (the `h` matrix). */
  function ScoreH(s: string, t: string, p: Penalties, r: nat, c: nat): int
    requires r <= |s| && c <= |t|
    decreases r + c, 1
  {
    if r == 0 || c == 0 then 0
    else Max(0, Max(ScoreH(s, t, p, r - 1, c - 1) + Similarity(s[r - 1], t[c - 1]),
                    Max(ScoreE(s, t, p, r, c), ScoreF(s, t, p, r, c))))
  }

  /** One step of the recurrences at an interior cell, as the wavefront computes it. */
  lemma ScoreStep(s: string, t: string, p: Penalties, r: nat, c: nat)
    requires 1 <= r <= |s| && 1 <= c <= |t|
    ensures ScoreE(s, t, p, r, c) == Max(ScoreH(s, t, p, r, c - 1) - p.open, ScoreE(s, t, p, r, c - 1) - p.extension)
    ensures ScoreF(s, t, p, r, c) == Max(ScoreH(s, t, p, r - 1, c) - p.open, ScoreF(s, t, p, r - 1, c) - p.extension)
    ensures ScoreH(s, t, p, r, c) ==
            Max(0, Max(ScoreH(s, t, p, r - 1, c - 1) + Similarity(s[r - 1], t[c - 1]),
                       Max(ScoreE(s, t, p, r, c), ScoreF(s, t, p, r, c))))
  {
  }

  /** `h` is never negative, and `e` and `f` never drop below minus the opening penalty. */
  lemma ScoreFloor(s: string, t: string, p: Penalties, r: nat, c: nat)
    requires r <= |s| && c <= |t|
    ensures 0 <= ScoreH(s, t, p, r, c)
    ensures -(p.open as int) <= ScoreE(s, t, p, r, c)
    ensures -(p.open as int) <= ScoreF(s, t, p, r, c)
  {
    if r != 0 && c != 0 {
      assert 0 <= ScoreH(s, t, p, r, c - 1) && 0 <= ScoreH(s, t, p, r - 1, c);
    }
  }

  /** No score exceeds two points per character of the shorter of the two prefixes. */
  lemma {:induction false} ScoreCeiling(s: string, t: string, p: Penalties, r: nat, c: nat)
    requires r <= |s| && c <= |t|
    ensures ScoreH(s, t, p, r, c) <= 2 * Min(r, c)
    ensures ScoreE(s, t, p, r, c) <= 2 * Min(r, c)
    ensures ScoreF(s, t, p, r, c) <= 2 * Min(r, c)
    decreases r + c
  {
    if r != 0 && c != 0 {
      ScoreCeiling(s, t, p, r, c - 1);
      ScoreCeiling(s, t, p, r - 1, c);
      ScoreCeiling(s, t, p, r - 1, c - 1);
    }
  }

  /** Aligning a sequence with itself scores exactly two points per character along the diagonal. */
  lemma {:induction false} SelfAlignmentDiagonal(s: string, p: Penalties, r: nat)
    requires r <= |s|
    ensures ScoreH(s, s, p, r, r) == 2 * r
  {
    if r > 0 {
      SelfAlignmentDiagonal(s, p, r - 1);
      ScoreCeiling(s, s, p, r, r);
    }
  }
}
