/**
 * The order of a move sequence: how many times it must be applied to a
 * solved cube before the cube is solved again.
 */
module Orders {
  import opened Facelets
  import opened Cycles
  import opened Moves

  /** The repetition ceiling of the order search: it gives up after Ceiling + 1 rounds. */
  const Ceiling: nat := 1000000

  /** s after k applications of the move string m. */
  function Power(s: seq<char>, m: string, k: nat): (r: seq<char>)
    requires |s| == Size
    ensures |r| == Size && multiset(r) == multiset(s)
  {
    if k == 0 then s else Run(Power(s, m, k - 1), m)
  }

  /** A solved cube is solved again after k applications of m. */
  predicate SolvedAfter(m: string, k: nat) {
    IsSolved(Power(SolvedState(), m, k))
  }

  /** Applying m a times and then b times is applying it a + b times. */
  lemma {:induction false} PowerAdd(s: seq<char>, m: string, a: nat, b: nat)
    requires |s| == Size
    ensures Power(s, m, a + b) == Power(Power(s, m, a), m, b)
    decreases b
  {
    if b > 0 {
      PowerAdd(s, m, a, b - 1);
    }
  }

  /** Once m brings the solved cube back after k rounds, it does so after every multiple of k. */
  lemma {:induction false} SolvedAfterMultiple(m: string, k: nat, j: nat)
    requires SolvedAfter(m, k)
    ensures SolvedAfter(m, j * k)
    decreases j
  {
    SolvedIsUnique(Power(SolvedState(), m, k));
    if j > 0 {
      SolvedAfterMultiple(m, k, j - 1);
      var p := (j - 1) * k;
      assert j * k == p + k;
      SolvedIsUnique(Power(SolvedState(), m, p));
      PowerAdd(SolvedState(), m, p, k);
    }
  }

  /** m acts on every grid as the disjoint 4-cycles cs. */
  ghost predicate ActsAs(m: string, cs: seq<Cycle>) {
    && AllFit(cs, Size) && Disjoint(cs)
    && forall t: seq<char> {:trigger Run(t, m)} :: |t| == Size ==> Run(t, m) == RotateAll(t, cs)
  }

  /** Applying m once more is one more pass of its cycles. */
  lemma PowerStep(m: string, cs: seq<Cycle>, s: seq<char>, k: nat)
    requires ActsAs(m, cs) && |s| == Size
    ensures Power(s, m, k + 1) == RotateAll(Power(s, m, k), cs)
  {
  }

  /** One pass of disjoint cycles moves a to b, d to a and c to d along cycle j. */
  lemma CycleSteps(s: seq<char>, cs: seq<Cycle>, j: nat)
    requires AllFit(cs, |s|) && Disjoint(cs) && j < |cs|
    ensures cs[j].Fits(|s|)
    ensures var cy := cs[j]; var r := RotateAll(s, cs);
      r[cy.b] == s[cy.a] && r[cy.a] == s[cy.d] && r[cy.d] == s[cy.c]
  {
    var cy := cs[j];
    assert cy.Fits(|s|);
    SourceOnCycle(cs, j, cy.b);
    SourceOnCycle(cs, j, cy.a);
    SourceOnCycle(cs, j, cy.d);
    RotateAllAt(s, cs, cy.b);
    RotateAllAt(s, cs, cy.a);
    RotateAllAt(s, cs, cy.d);
  }

  /** A grid with one facelet off its face's colour is not solved. */
  lemma NotSolvedAt(s: seq<char>, k: nat)
    requires |s| == Size && k < Size && s[k] != SolvedState()[k]
    ensures !IsSolved(s)
  {
    SolvedIsUnique(s);
  }

  /**
   * A move string that acts as disjoint 4-cycles, one of which visits
   * facelets of four different colours on the solved cube, has order
   * exactly four: the cube is solved after four rounds and not before.
   */
  lemma OrderFour(m: string, cs: seq<Cycle>, j: nat)
    requires ActsAs(m, cs) && j < |cs|
    requires var cy := cs[j]; var sol := SolvedState();
      cy.Fits(Size) && sol[cy.a] != sol[cy.b] && sol[cy.d] != sol[cy.b] && sol[cy.c] != sol[cy.b]
    ensures SolvedAfter(m, 4)
    ensures !SolvedAfter(m, 1) && !SolvedAfter(m, 2) && !SolvedAfter(m, 3)
  {
    var cy := cs[j];
    var s := SolvedState();
    var p1 := Power(s, m, 1);
    var p2 := Power(s, m, 2);
    var p3 := Power(s, m, 3);
    PowerStep(m, cs, s, 0);
    PowerStep(m, cs, s, 1);
    PowerStep(m, cs, s, 2);
    PowerStep(m, cs, s, 3);
    assert Power(s, m, 0) == s;
    RotateAllFourTimes(s, cs);
    SolvedIsUnique(Power(s, m, 4));
    CycleSteps(s, cs, j);
    CycleSteps(p1, cs, j);
    CycleSteps(p2, cs, j);
    NotSolvedAt(p1, cy.b);
    NotSolvedAt(p2, cy.b);
    NotSolvedAt(p3, cy.b);
  }

  /** A single move letter acts as the five cycles of its turn. */
  lemma LetterActsAsTurn(ch: char)
    requires ch in "FBLRUD"
    ensures ActsAs([ch], TurnCycles(MoveFace(ch).value))
  {
    var f := MoveFace(ch).value;
    TurnCyclesValid(f);
    forall t: seq<char> | |t| == Size
      ensures Run(t, [ch]) == RotateAll(t, TurnCycles(f))
    {
      assert [ch][..0] == [];
      TurnIsCycles(t, f);
    }
  }

  /** Every strip cycle of a turn lies on the grid and visits faces of four different solved colours. */
  lemma StripCycleColours(f: nat, i: nat)
    requires f < 6 && i < 3
    ensures var cy := StripCycle(f, i); var sol := SolvedState();
      cy.Fits(Size) && sol[cy.a] != sol[cy.b] && sol[cy.d] != sol[cy.b] && sol[cy.c] != sol[cy.b]
  {
    if f == U {} else if f == L {} else if f == F {} else if f == R {} else if f == B {} else {}
  }

  /** Every single move letter has order four. */
  lemma LetterOrder(ch: char)
    requires ch in "FBLRUD"
    ensures SolvedAfter([ch], 4)
    ensures !SolvedAfter([ch], 1) && !SolvedAfter([ch], 2) && !SolvedAfter([ch], 3)
  {
    var f := MoveFace(ch).value;
    LetterActsAsTurn(ch);
    StripCycleColours(f, 0);
    TurnCycleAt(f, 2);
    OrderFour([ch], TurnCycles(f), 2);
  }

  /** The front and back turns share no facelet: their ten cycles are pairwise apart. */
  lemma FrontBackApart()
    ensures AllFit(TurnCycles(F) + TurnCycles(B), Size) && Disjoint(TurnCycles(F) + TurnCycles(B))
  {
    TurnCyclesValid(F);
    TurnCyclesValid(B);
    forall i, j | 0 <= i < 5 && 0 <= j < 5
      ensures TurnCycles(F)[i].Apart(TurnCycles(B)[j])
    {
      FrontBackCyclesApart(i, j);
    }
    DisjointAppend(TurnCycles(F), TurnCycles(B), Size);
  }

  /** No cycle of the front turn meets a cycle of the back turn. */
  lemma FrontBackCyclesApart(i: nat, j: nat)
    requires i < 5 && j < 5
    ensures TurnCycles(F)[i].Apart(TurnCycles(B)[j])
  {
    TurnCycleAt(F, i);
    TurnCycleAt(B, j);
    if i == 0 {} else if i == 1 {} else if i == 2 {} else if i == 3 {} else {}
  }

  /** "FB" is the front turn followed by the back turn. */
  lemma FrontBackRun(t: seq<char>)
    requires |t| == Size
    ensures Run(t, "FB") == Turn(Turn(t, F), B)
  {
    assert "FB"[..1] == "F" && "F"[..0] == [];
    assert MoveFace('F').value == F && MoveFace('B').value == B;
    assert Run(t, "F") == Turn(t, F);
    assert Run(t, "FB") == Step(Run(t, "F"), 'B');
  }

  /** "FB" acts as the front turn's cycles followed by the back turn's. */
  lemma FrontBackActs()
    ensures ActsAs("FB", TurnCycles(F) + TurnCycles(B))
  {
    FrontBackApart();
    TurnCyclesValid(F);
    TurnCyclesValid(B);
    forall t: seq<char> | |t| == Size
      ensures Run(t, "FB") == RotateAll(t, TurnCycles(F) + TurnCycles(B))
    {
      FrontBackRun(t);
      TurnIsCycles(t, F);
      TurnIsCycles(Turn(t, F), B);
      RotateAllAppend(t, TurnCycles(F), TurnCycles(B));
    }
  }

  /** "FB" has order four, because the front and back turns touch disjoint facelets. */
  lemma FrontBackOrder()
    ensures SolvedAfter("FB", 4)
    ensures !SolvedAfter("FB", 1) && !SolvedAfter("FB", 2) && !SolvedAfter("FB", 3)
  {
    FrontBackActs();
    var cs := TurnCycles(F) + TurnCycles(B);
    StripCycleColours(F, 0);
    TurnCycleAt(F, 2);
    assert cs[2] == TurnCycles(F)[2];
    OrderFour("FB", cs, 2);
  }

  /**
   * n is what the order search answers for a non-empty m: the first round
   * count from 1 to Ceiling + 1 after which the solved cube is solved
   * again, or -1 when there is none.
   */
  ghost predicate IsOrder(m: string, n: int) {
    && (n == -1 || 1 <= n <= Ceiling + 1)
    && (n != -1 ==> SolvedAfter(m, n))
    && forall k :: 1 <= k <= Ceiling + 1 && (n == -1 || k < n) ==> !SolvedAfter(m, k)
  }

  /** The first round count after which the cube is solved again is the answer. */
  lemma IsOrderFound(m: string, n: nat)
    requires 1 <= n <= Ceiling + 1 && SolvedAfter(m, n)
    requires forall k :: 1 <= k < n ==> !SolvedAfter(m, k)
    ensures IsOrder(m, n)
  {
  }

  /** When no round count up to Ceiling + 1 solves the cube again, the answer is -1. */
  lemma IsOrderNone(m: string)
    requires forall k :: 1 <= k <= Ceiling + 1 ==> !SolvedAfter(m, k)
    ensures IsOrder(m, -1)
  {
  }

  /** One more unsolved round extends the run of unsolved rounds. */
  lemma UnsolvedUpTo(m: string, n: nat)
    requires forall k :: 1 <= k < n ==> !SolvedAfter(m, k)
    requires n >= 1 ==> !SolvedAfter(m, n)
    ensures forall k :: 1 <= k <= n ==> !SolvedAfter(m, k)
  {
  }

  /** The order search has a single possible answer. */
  lemma IsOrderUnique(m: string, n1: int, n2: int)
    requires IsOrder(m, n1) && IsOrder(m, n2)
    ensures n1 == n2
  {
  }

  /** Solved after four rounds and not before means the order search answers 4. */
  lemma OrderFromFour(m: string)
    requires SolvedAfter(m, 4) && !SolvedAfter(m, 1) && !SolvedAfter(m, 2) && !SolvedAfter(m, 3)
    ensures IsOrder(m, 4)
  {
    forall k | 1 <= k < 4 ensures !SolvedAfter(m, k) {
      assert k == 1 || k == 2 || k == 3;
    }
  }

  /** The order search answers 4 for every single move letter. */
  lemma LetterIsOrderFour(ch: char)
    requires ch in "FBLRUD"
    ensures IsOrder([ch], 4)
  {
    LetterOrder(ch);
    OrderFromFour([ch]);
  }

  /** The order search answers 4 for "FB". */
  lemma FrontBackIsOrderFour()
    ensures IsOrder("FB", 4)
  {
    FrontBackOrder();
    OrderFromFour("FB");
  }
}
