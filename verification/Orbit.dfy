/**
 Loops that take one deterministic step after another as long as a test is passed: with finitely many
 states, such a loop goes on for ever exactly when it meets a state again.
 */
module Orbit {

  /** The state after `k` steps. */
  function At<S>(step: S -> S, s: S, k: nat): S {
    if k == 0 then s else step(At(step, s, k - 1))
  }

  /** The test is passed at the start and after each of the first `n` steps. */
  ghost predicate PassesFor<S>(step: S -> S, pass: S -> bool, s: S, n: nat) {
    forall k :: 0 <= k <= n ==> pass(At(step, s, k))
  }

  ghost predicate PassesForEver<S>(step: S -> S, pass: S -> bool, s: S) {
    forall n: nat :: PassesFor(step, pass, s, n)
  }

  /** Some state is met again, and the test is passed up to there. */
  ghost predicate ComesRound<S>(step: S -> S, pass: S -> bool, s: S) {
    exists i: nat, j: nat :: i < j && At(step, s, i) == At(step, s, j) && PassesFor(step, pass, s, j)
  }

  lemma {:induction false} AtNext<S>(step: S -> S, s: S, k: nat)
    ensures At(step, step(s), k) == At(step, s, k + 1)
  {
    if k > 0 {
      AtNext(step, s, k - 1);
    } else {
      assert At(step, s, 0) == s;
    }
  }

  lemma PassesNext<S>(step: S -> S, pass: S -> bool, s: S, n: nat)
    requires n > 0
    ensures PassesFor(step, pass, s, n) <==> pass(s) && PassesFor(step, pass, step(s), n - 1)
  {
    assert At(step, s, 0) == s;
    if PassesFor(step, pass, s, n) {
      forall k | 0 <= k <= n - 1 ensures pass(At(step, step(s), k)) { AtNext(step, s, k); }
    }
    if pass(s) && PassesFor(step, pass, step(s), n - 1) {
      forall k | 0 <= k <= n ensures pass(At(step, s, k)) {
        if k > 0 { AtNext(step, s, k - 1); }
      }
    }
  }

  lemma PassesNow<S>(step: S -> S, pass: S -> bool, s: S)
    ensures PassesFor(step, pass, s, 0) <==> pass(s)
  {
    assert At(step, s, 0) == s;
  }

  lemma {:induction false} AtRepeats<S>(step: S -> S, s: S, i: nat, j: nat, k: nat)
    requires At(step, s, i) == At(step, s, j)
    ensures At(step, s, i + k) == At(step, s, j + k)
  {
    if k > 0 { AtRepeats(step, s, i, j, k - 1); }
  }

  lemma {:induction false} RoundAgain<S>(step: S -> S, pass: S -> bool, s: S, i: nat, j: nat, k: nat)
    requires i < j && At(step, s, i) == At(step, s, j) && PassesFor(step, pass, s, j)
    ensures pass(At(step, s, k))
    decreases k
  {
    if k > j {
      AtRepeats(step, s, i, j, k - j);
      RoundAgain(step, pass, s, i, j, i + (k - j));
    }
  }

  lemma RoundForEver<S>(step: S -> S, pass: S -> bool, s: S)
    requires ComesRound(step, pass, s)
    ensures PassesForEver(step, pass, s)
  {
    var i: nat, j: nat :| i < j && At(step, s, i) == At(step, s, j) && PassesFor(step, pass, s, j);
    forall k: nat ensures pass(At(step, s, k)) { RoundAgain(step, pass, s, i, j, k); }
  }

  lemma {:induction false} Pigeonhole<S>(s: seq<S>, all: set<S>) returns (i: nat, j: nat)
    requires |s| > |all| && forall x <- s :: x in all
    ensures i < j < |s| && s[i] == s[j]
  {
    var x, rest := s[0], s[1..];
    if x in rest {
      var k :| 0 <= k < |rest| && rest[k] == x;
      i, j := 0, k + 1;
    } else {
      assert forall y <- rest :: y in all - {x};
      i, j := Pigeonhole(rest, all - {x});
      i, j := i + 1, j + 1;
    }
  }

  /** With more steps than states, one is met again. */
  lemma StepsRepeat<S>(step: S -> S, s: S, all: set<S>) returns (i: nat, j: nat)
    requires forall k :: 0 <= k <= |all| ==> At(step, s, k) in all
    ensures i < j <= |all| && At(step, s, i) == At(step, s, j)
  {
    var states := seq(|all| + 1, k requires 0 <= k <= |all| => At(step, s, k));
    i, j := Pigeonhole(states, all);
  }

  /** A loop that still passes after as many steps as there are states comes round. */
  lemma PassesIsRound<S>(step: S -> S, pass: S -> bool, s: S, all: set<S>)
    requires PassesFor(step, pass, s, |all|)
    requires forall k :: 0 <= k <= |all| ==> At(step, s, k) in all
    ensures ComesRound(step, pass, s)
  {
    var i, j := StepsRepeat(step, s, all);
    assert PassesFor(step, pass, s, j);
  }
}
