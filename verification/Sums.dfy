/** Sums of a natural-valued function over a finite set. */
module Sums {

  ghost function SumOver(f: nat -> nat, S: set<nat>): nat
    decreases S
  {
    if S == {} then 0 else
      var x :| x in S;
      f(x) + SumOver(f, S - {x})
  }

  /** Any element can be taken out first. */
  lemma {:induction false} SumRemove(f: nat -> nat, S: set<nat>, x: nat)
    requires x in S
    ensures SumOver(f, S) == f(x) + SumOver(f, S - {x})
    decreases S
  {
    var y :| y in S && SumOver(f, S) == f(y) + SumOver(f, S - {y});
    if y != x {
      SumRemove(f, S - {y}, x);
      SumRemove(f, S - {x}, y);
      assert S - {y} - {x} == S - {x} - {y};
    }
  }

  lemma SumAdd(f: nat -> nat, S: set<nat>, x: nat)
    requires x !in S
    ensures SumOver(f, S + {x}) == SumOver(f, S) + f(x)
  {
    SumRemove(f, S + {x}, x);
    assert S + {x} - {x} == S;
  }

  /** Pointwise sums add up. */
  lemma {:induction false} SumPointwise(f: nat -> nat, g: nat -> nat, h: nat -> nat, S: set<nat>)
    requires forall x :: x in S ==> f(x) == g(x) + h(x)
    ensures SumOver(f, S) == SumOver(g, S) + SumOver(h, S)
    decreases S
  {
    if S != {} {
      var x :| x in S;
      SumRemove(f, S, x);
      SumRemove(g, S, x);
      SumRemove(h, S, x);
      SumPointwise(f, g, h, S - {x});
    }
  }

  lemma {:induction false} SumMonotone(f: nat -> nat, g: nat -> nat, S: set<nat>)
    requires forall x :: x in S ==> f(x) <= g(x)
    ensures SumOver(f, S) <= SumOver(g, S)
    decreases S
  {
    if S != {} {
      var x :| x in S;
      SumRemove(f, S, x);
      SumRemove(g, S, x);
      SumMonotone(f, g, S - {x});
    }
  }

  lemma {:induction false} SumDisjoint(f: nat -> nat, A: set<nat>, B: set<nat>)
    requires A !! B
    ensures SumOver(f, A + B) == SumOver(f, A) + SumOver(f, B)
    decreases A
  {
    if A == {} {
      assert A + B == B;
    } else {
      var x :| x in A;
      SumRemove(f, A, x);
      SumRemove(f, A + B, x);
      assert A + B - {x} == (A - {x}) + B;
      SumDisjoint(f, A - {x}, B);
    }
  }

  /** A union weighs no more than its parts together. */
  lemma SumUnion(f: nat -> nat, A: set<nat>, B: set<nat>)
    ensures SumOver(f, A + B) <= SumOver(f, A) + SumOver(f, B)
    ensures SumOver(f, A) <= SumOver(f, A + B)
    ensures SumOver(f, A + B) == SumOver(f, A) + SumOver(f, B - A)
  {
    assert A + B == A + (B - A);
    SumDisjoint(f, A, B - A);
    assert B == (B - A) + (A * B);
    SumDisjoint(f, B - A, A * B);
  }

  /** A zero sum has only zero terms. */
  lemma SumZero(f: nat -> nat, S: set<nat>, x: nat)
    requires SumOver(f, S) == 0 && x in S
    ensures f(x) == 0
  {
    SumRemove(f, S, x);
  }
}
