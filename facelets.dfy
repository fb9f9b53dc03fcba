/**
 * The facelet grid: six faces of 3x3 colour letters, kept in one flat
 * sequence of 54 characters. Facelet (f, r, c) is face f, row r, column c.
 */
module Facelets {
  /** Face numbers. */
  const U: nat := 0
  const L: nat := 1
  const F: nat := 2
  const R: nat := 3
  const B: nat := 4
  const D: nat := 5

  /** Number of facelets on the cube. */
  const Size: nat := 54

  /** The colour every facelet of face f shows on a solved cube. */
  const SolvedColors: seq<char> := ['O', 'G', 'W', 'B', 'Y', 'R']

  /**
   * Position of facelet (f, r, c) in the flat grid, 9 * f + 3 * r + c:
   * faces in order, each face row by row. Written as sums so that the
   * solver evaluates it on constants by addition alone.
   */
  function Idx(f: nat, r: nat, c: nat): nat
    requires f < 6 && r < 3 && c < 3
  {
    var row := r + r + r;
    f + f + f + f + f + f + f + f + f + row + c
  }

  /** Every grid position is (f, r, c) for exactly its own face, row and column. */
  lemma Decompose(k: nat)
    requires k < Size
    ensures k / 9 < 6 && k % 9 / 3 < 3 && k % 3 < 3
    ensures k == Idx(k / 9, k % 9 / 3, k % 3)
  {
  }

  /** Face, row and column recovered from a grid position. */
  lemma Compose(f: nat, r: nat, c: nat)
    requires f < 6 && r < 3 && c < 3
    ensures Idx(f, r, c) / 9 == f && Idx(f, r, c) % 9 / 3 == r && Idx(f, r, c) % 3 == c
  {
  }

  /** A colour letter of the cube (the blank is not one). */
  predicate IsColor(ch: char) {
    ch in SolvedColors
  }

  /** The solved cube: every facelet shows its face's colour. */
  function SolvedState(): (s: seq<char>)
    ensures |s| == Size
    ensures forall f: nat, r: nat, c: nat :: f < 6 && r < 3 && c < 3 ==> s[Idx(f, r, c)] == SolvedColors[f]
  {
    seq(Size, k requires 0 <= k < Size => SolvedColors[k / 9])
  }

  /** Every facelet shows the colour of the face it is on. */
  predicate IsSolved(s: seq<char>)
    requires |s| == Size
  {
    forall k :: 0 <= k < Size ==> s[k] == SolvedColors[k / 9]
  }

  /** The solved cube is the only grid that looks solved. */
  lemma SolvedIsUnique(s: seq<char>)
    requires |s| == Size
    ensures IsSolved(s) <==> s == SolvedState()
  {
    if IsSolved(s) {
      assert forall k :: 0 <= k < Size ==> s[k] == SolvedState()[k];
    }
  }
}
