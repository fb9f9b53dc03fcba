/**
 * Rearrangements of a character sequence made of 4-cycles of positions.
 * Every turn of the cube moves its facelets along five disjoint 4-cycles;
 * this module proves, once for all such lists of cycles, that applying
 * them only relocates values, that each position receives the value of
 * one known position, and that applying them four times changes nothing.
 */
module Cycles {
  /**
   * The cycle a -> b -> c -> d -> a: the value at a moves to b, the value
   * at b to c, the value at c to d and the value at d back to a.
   */
  datatype Cycle = Cycle(a: nat, b: nat, c: nat, d: nat)
  {
    predicate Has(k: nat) {
      k == a || k == b || k == c || k == d
    }

    predicate Distinct() {
      a != b && a != c && a != d && b != c && b != d && c != d
    }

    predicate Fits(n: nat) {
      Distinct() && a < n && b < n && c < n && d < n
    }

    /** The position whose value the cycle brings to k. */
    function Pre(k: nat): nat {
      if k == b then a else if k == c then b else if k == d then c else if k == a then d else k
    }

    /** The n-th position of the cycle, counting from a. */
    function At(n: nat): nat
      requires n < 4
    {
      if n == 0 then a else if n == 1 then b else if n == 2 then c else d
    }

    /** No position of this cycle belongs to o. */
    predicate Apart(o: Cycle) {
      !o.Has(a) && !o.Has(b) && !o.Has(c) && !o.Has(d)
    }
  }

  /** On a cycle of distinct positions, the n-th position receives the value of the one before it. */
  lemma PreAt(cy: Cycle, n: nat)
    requires cy.Distinct() && n < 4
    ensures cy.Has(cy.At(n))
    ensures cy.Pre(cy.At(n)) == cy.At(if n == 0 then 3 else n - 1)
  {
  }

  /** Moves the four values of s along cy; each value is read before any is written. */
  function Rotate(s: seq<char>, cy: Cycle): (r: seq<char>)
    requires cy.Fits(|s|)
    ensures |r| == |s|
  {
    s[cy.b := s[cy.a]][cy.c := s[cy.b]][cy.d := s[cy.c]][cy.a := s[cy.d]]
  }

  /** Pointwise meaning of Rotate: position k receives the value of its predecessor on the cycle. */
  lemma RotateAt(s: seq<char>, cy: Cycle, k: nat)
    requires cy.Fits(|s|) && k < |s|
    ensures Rotate(s, cy)[k] == s[cy.Pre(k)]
  {
  }

  /** Exchanging two values keeps the multiset of values. */
  lemma SwapPermutes(s: seq<char>, i: nat, j: nat)
    requires i < |s| && j < |s|
    ensures multiset(s[i := s[j]][j := s[i]]) == multiset(s)
  {
    var t := s[i := s[j]];
    assert multiset(t) == multiset(s) - multiset{s[i]} + multiset{s[j]};
    assert multiset(t[j := s[i]]) == multiset(t) - multiset{t[j]} + multiset{s[i]};
  }

  /** Exchanging a with b, then a with c, then a with d moves the values along the cycle. */
  function ThreeSwaps(s: seq<char>, cy: Cycle): (r: seq<char>)
    requires cy.Fits(|s|)
    ensures r == Rotate(s, cy)
  {
    var t1 := s[cy.a := s[cy.b]][cy.b := s[cy.a]];
    var t2 := t1[cy.a := t1[cy.c]][cy.c := t1[cy.a]];
    t2[cy.a := t2[cy.d]][cy.d := t2[cy.a]]
  }

  /** A 4-cycle is three exchanges, so it keeps the multiset of values. */
  lemma RotatePermutes(s: seq<char>, cy: Cycle)
    requires cy.Fits(|s|)
    ensures multiset(Rotate(s, cy)) == multiset(s)
  {
    var t1 := s[cy.a := s[cy.b]][cy.b := s[cy.a]];
    var t2 := t1[cy.a := t1[cy.c]][cy.c := t1[cy.a]];
    SwapPermutes(s, cy.a, cy.b);
    SwapPermutes(t1, cy.a, cy.c);
    SwapPermutes(t2, cy.a, cy.d);
    assert ThreeSwaps(s, cy) == t2[cy.a := t2[cy.d]][cy.d := t2[cy.a]];
  }

  predicate AllFit(cs: seq<Cycle>, n: nat) {
    forall i :: 0 <= i < |cs| ==> cs[i].Fits(n)
  }

  /** No two cycles of cs share a position. */
  predicate Disjoint(cs: seq<Cycle>) {
    forall i, j :: 0 <= i < j < |cs| ==> cs[i].Apart(cs[j])
  }

  /** Some cycle of cs contains position k. */
  predicate Touches(cs: seq<Cycle>, k: nat) {
    exists i :: 0 <= i < |cs| && cs[i].Has(k)
  }

  /** Applies the cycles of cs one after the other, first to last. */
  function RotateAll(s: seq<char>, cs: seq<Cycle>): (r: seq<char>)
    requires AllFit(cs, |s|)
    ensures |r| == |s|
    decreases |cs|
  {
    if cs == [] then s else RotateAll(Rotate(s, cs[0]), cs[1..])
  }

  /** The position whose value a list of disjoint cycles brings to k. */
  function Source(cs: seq<Cycle>, k: nat): (j: nat)
    ensures forall n: nat :: AllFit(cs, n) && k < n ==> j < n
    decreases |cs|
  {
    if cs == [] then k
    else if cs[0].Has(k) then cs[0].Pre(k)
    else
      assert forall n: nat :: AllFit(cs, n) ==> AllFit(cs[1..], n);
      Source(cs[1..], k)
  }

  /** A position on cycle j receives its value from that cycle's predecessor. */
  lemma {:induction false} SourceOnCycle(cs: seq<Cycle>, j: nat, k: nat)
    requires Disjoint(cs) && j < |cs| && cs[j].Has(k)
    ensures Source(cs, k) == cs[j].Pre(k)
  {
    if j > 0 {
      assert cs[0].Apart(cs[j]);
      SourceOnCycle(cs[1..], j - 1, k);
    }
  }

  /** A position on no cycle keeps its value. */
  lemma {:induction false} SourceOffCycles(cs: seq<Cycle>, k: nat)
    requires !Touches(cs, k)
    ensures Source(cs, k) == k
  {
    if cs != [] {
      assert !cs[0].Has(k);
      assert !Touches(cs[1..], k) by {
        forall i | 0 <= i < |cs| - 1
          ensures !cs[1..][i].Has(k)
        {
          assert cs[1..][i] == cs[i + 1];
        }
      }
      SourceOffCycles(cs[1..], k);
    }
  }

  /** Pointwise meaning of RotateAll: position k ends up with the value at Source(cs, k). */
  lemma {:induction false} RotateAllAt(s: seq<char>, cs: seq<Cycle>, k: nat)
    requires AllFit(cs, |s|) && Disjoint(cs) && k < |s|
    ensures RotateAll(s, cs)[k] == s[Source(cs, k)]
    decreases |cs|
  {
    if cs != [] {
      var t := Rotate(s, cs[0]);
      var rest := cs[1..];
      assert AllFit(rest, |t|);
      assert Disjoint(rest);
      RotateAllAt(t, rest, k);
      if cs[0].Has(k) {
        assert !Touches(rest, k) by {
          forall i | 0 <= i < |rest|
            ensures !rest[i].Has(k)
          {
            assert cs[0].Apart(cs[i + 1]);
          }
        }
        SourceOffCycles(rest, k);
      } else if Touches(rest, k) {
        var j :| 0 <= j < |rest| && rest[j].Has(k);
        SourceOnCycle(rest, j, k);
        assert cs[0].Apart(cs[j + 1]);
      } else {
        SourceOffCycles(rest, k);
      }
      RotateAt(s, cs[0], Source(rest, k));
    }
  }

  /** Positions that no cycle touches keep their value. */
  lemma RotateAllOutside(s: seq<char>, cs: seq<Cycle>, k: nat)
    requires AllFit(cs, |s|) && Disjoint(cs) && k < |s| && !Touches(cs, k)
    ensures RotateAll(s, cs)[k] == s[k]
  {
    RotateAllAt(s, cs, k);
    SourceOffCycles(cs, k);
  }

  /** Rotating along cycles only relocates values: the multiset of values is kept. */
  lemma {:induction false} RotateAllPermutes(s: seq<char>, cs: seq<Cycle>)
    requires AllFit(cs, |s|)
    ensures multiset(RotateAll(s, cs)) == multiset(s)
    decreases |cs|
  {
    if cs != [] {
      RotatePermutes(s, cs[0]);
      assert AllFit(cs[1..], |s|);
      RotateAllPermutes(Rotate(s, cs[0]), cs[1..]);
    }
  }

  /** Applying cs then ds is applying their concatenation. */
  lemma {:induction false} RotateAllAppend(s: seq<char>, cs: seq<Cycle>, ds: seq<Cycle>)
    requires AllFit(cs, |s|) && AllFit(ds, |s|)
    ensures AllFit(cs + ds, |s|)
    ensures RotateAll(s, cs + ds) == RotateAll(RotateAll(s, cs), ds)
    decreases |cs|
  {
    if cs == [] {
      assert cs + ds == ds;
    } else {
      assert (cs + ds)[1..] == cs[1..] + ds;
      assert AllFit(cs[1..], |s|);
      RotateAllAppend(Rotate(s, cs[0]), cs[1..], ds);
    }
  }

  /** Two lists of disjoint cycles that meet nowhere form one list of disjoint cycles. */
  lemma DisjointAppend(cs: seq<Cycle>, ds: seq<Cycle>, n: nat)
    requires AllFit(cs, n) && AllFit(ds, n) && Disjoint(cs) && Disjoint(ds)
    requires forall i, j :: 0 <= i < |cs| && 0 <= j < |ds| ==> cs[i].Apart(ds[j])
    ensures AllFit(cs + ds, n) && Disjoint(cs + ds)
  {
    var es := cs + ds;
    forall i | 0 <= i < |es| ensures es[i].Fits(n) {
      if i >= |cs| {
        assert es[i] == ds[i - |cs|];
      }
    }
    forall i, j | 0 <= i < j < |es| ensures es[i].Apart(es[j]) {
      if j < |cs| {
      } else if |cs| <= i {
        assert es[i] == ds[i - |cs|] && es[j] == ds[j - |cs|];
      } else {
        assert es[j] == ds[j - |cs|];
      }
    }
  }

  /** Following Source four times leads back to the start. */
  lemma SourceFourTimes(cs: seq<Cycle>, n: nat, k: nat)
    requires AllFit(cs, n) && Disjoint(cs)
    ensures Source(cs, Source(cs, Source(cs, Source(cs, k)))) == k
  {
    if Touches(cs, k) {
      var j :| 0 <= j < |cs| && cs[j].Has(k);
      var cy := cs[j];
      assert cy.Fits(n);
      SourceOnCycle(cs, j, k);
      SourceOnCycle(cs, j, cy.Pre(k));
      SourceOnCycle(cs, j, cy.Pre(cy.Pre(k)));
      SourceOnCycle(cs, j, cy.Pre(cy.Pre(cy.Pre(k))));
    } else {
      SourceOffCycles(cs, k);
    }
  }

  /** Applying disjoint 4-cycles four times restores the sequence. */
  lemma RotateAllFourTimes(s: seq<char>, cs: seq<Cycle>)
    requires AllFit(cs, |s|) && Disjoint(cs)
    ensures RotateAll(RotateAll(RotateAll(RotateAll(s, cs), cs), cs), cs) == s
  {
    var s1 := RotateAll(s, cs);
    var s2 := RotateAll(s1, cs);
    var s3 := RotateAll(s2, cs);
    var s4 := RotateAll(s3, cs);
    forall k | 0 <= k < |s|
      ensures s4[k] == s[k]
    {
      RotateAllAt(s3, cs, k);
      RotateAllAt(s2, cs, Source(cs, k));
      RotateAllAt(s1, cs, Source(cs, Source(cs, k)));
      RotateAllAt(s, cs, Source(cs, Source(cs, Source(cs, k))));
      SourceFourTimes(cs, |s|, k);
    }
  }
}
