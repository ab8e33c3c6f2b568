/** Least fixpoints of linear rule systems: facts that hold outright (init) and rules
    that derive one fact from another (step). Every interprocedural analysis modelled
    in this project is compared against these definitions. */
module Reachability {

  /** x has a derivation that uses at most n steps. */
  ghost predicate ReachIn<T(!new)>(init: T -> bool, step: (T, T) -> bool, n: nat, x: T)
    decreases n
  {
    init(x) || (n > 0 && exists w :: ReachIn(init, step, n - 1, w) && step(w, x))
  }

  /** x belongs to the least set that contains init and is closed under step. */
  ghost predicate Reachable<T(!new)>(init: T -> bool, step: (T, T) -> bool, x: T) {
    exists n: nat :: ReachIn(init, step, n, x)
  }

  lemma {:induction false} ReachInMonotone<T(!new)>(init: T -> bool, step: (T, T) -> bool, m: nat, n: nat, x: T)
    requires m <= n && ReachIn(init, step, m, x)
    ensures ReachIn(init, step, n, x)
    decreases m
  {
    if !init(x) {
      var w :| ReachIn(init, step, m - 1, w) && step(w, x);
      ReachInMonotone(init, step, m - 1, n - 1, w);
    }
  }

  lemma StepReachable<T(!new)>(init: T -> bool, step: (T, T) -> bool, w: T, x: T)
    requires Reachable(init, step, w) && step(w, x)
    ensures Reachable(init, step, x)
  {
    var n: nat :| ReachIn(init, step, n, w);
    assert ReachIn(init, step, n + 1, x);
  }

  lemma InitReachable<T(!new)>(init: T -> bool, step: (T, T) -> bool, x: T)
    requires init(x)
    ensures Reachable(init, step, x)
  {
    assert ReachIn(init, step, 0, x);
  }

  ghost predicate Closed<T(!new)>(init: T -> bool, step: (T, T) -> bool, s: T -> bool) {
    && (forall x :: init(x) ==> s(x))
    && (forall w, x :: s(w) && step(w, x) ==> s(x))
  }

  /** Minimality: every closed set contains every reachable fact. */
  lemma {:induction false} ClosedContainsReachIn<T(!new)>(
    init: T -> bool, step: (T, T) -> bool, s: T -> bool, n: nat, x: T)
    requires Closed(init, step, s) && ReachIn(init, step, n, x)
    ensures s(x)
    decreases n
  {
    if !init(x) {
      var w :| ReachIn(init, step, n - 1, w) && step(w, x);
      ClosedContainsReachIn(init, step, s, n - 1, w);
    }
  }

  lemma ClosedContainsReachable<T(!new)>(init: T -> bool, step: (T, T) -> bool, s: T -> bool)
    requires Closed(init, step, s)
    ensures forall x :: Reachable(init, step, x) ==> s(x)
  {
    forall x | Reachable(init, step, x) ensures s(x) {
      var n: nat :| ReachIn(init, step, n, x);
      ClosedContainsReachIn(init, step, s, n, x);
    }
  }

  // In-place rounds: every round visits the owners of facts in order, so a step from an earlier
  // owner is taken within the round and any other step waits for the next one.

  /** x has a derivation with at most n steps from an owner that does not come earlier. */
  ghost predicate ReachInRounds<T(!new)>(init: T -> bool, step: (T, T) -> bool, owner: T -> nat, n: nat, x: T)
    decreases n, owner(x)
  {
    || init(x)
    || (exists w :: step(w, x) &&
          if owner(w) < owner(x) then ReachInRounds(init, step, owner, n, w)
          else n > 0 && ReachInRounds(init, step, owner, n - 1, w))
  }

  /** Round n + 1 derives something no earlier round did. */
  ghost predicate GainsIn<T(!new)>(init: T -> bool, step: (T, T) -> bool, owner: T -> nat, n: nat) {
    exists x :: ReachInRounds(init, step, owner, n, x) && !(n > 0 && ReachInRounds(init, step, owner, n - 1, x))
  }

  lemma {:induction false} MoreRoundsReachMore<T(!new)>(
    init: T -> bool, step: (T, T) -> bool, owner: T -> nat, m: nat, n: nat, x: T)
    requires m <= n && ReachInRounds(init, step, owner, m, x)
    ensures ReachInRounds(init, step, owner, n, x)
    decreases m, owner(x)
  {
    if !init(x) {
      var w :| step(w, x) &&
        if owner(w) < owner(x) then ReachInRounds(init, step, owner, m, w)
        else m > 0 && ReachInRounds(init, step, owner, m - 1, w);
      if owner(w) < owner(x) {
        MoreRoundsReachMore(init, step, owner, m, n, w);
      } else {
        MoreRoundsReachMore(init, step, owner, m - 1, n - 1, w);
      }
    }
  }

  /** A round that gains nothing is followed by none that does. */
  lemma {:induction false} NothingLater<T(!new)>(
    init: T -> bool, step: (T, T) -> bool, owner: T -> nat, n: nat, m: nat, x: T)
    requires !GainsIn(init, step, owner, n)
    requires n <= m && ReachInRounds(init, step, owner, m, x)
    ensures n > 0 && ReachInRounds(init, step, owner, n - 1, x) && ReachInRounds(init, step, owner, n, x)
    decreases m, owner(x)
  {
    if n < m && !init(x) {
      var w :| step(w, x) &&
        if owner(w) < owner(x) then ReachInRounds(init, step, owner, m, w)
        else m > 0 && ReachInRounds(init, step, owner, m - 1, w);
      NothingLater(init, step, owner, n, if owner(w) < owner(x) then m else m - 1, w);
    }
    assert ReachInRounds(init, step, owner, n, x);
  }

  lemma NoLaterGain<T(!new)>(init: T -> bool, step: (T, T) -> bool, owner: T -> nat, n: nat, m: nat)
    requires !GainsIn(init, step, owner, n) && n <= m
    ensures !GainsIn(init, step, owner, m)
  {
    forall x | ReachInRounds(init, step, owner, m, x) ensures m > 0 && ReachInRounds(init, step, owner, m - 1, x) {
      NothingLater(init, step, owner, n, m, x);
      MoreRoundsReachMore(init, step, owner, n - 1, m - 1, x);
    }
  }

  /** The most steps a derivation within n rounds over so many owners can have before the last round. */
  ghost function StepsIn(owners: nat, n: nat): nat {
    if n == 0 then 0 else StepsIn(owners, n - 1) + owners
  }

  lemma {:induction false} StepsInIsProduct(owners: nat, n: nat)
    ensures StepsIn(owners, n) == n * owners
  {
    if n > 0 {
      StepsInIsProduct(owners, n - 1);
      assert (n - 1) * owners + owners == n * owners;
    }
  }

  ghost predicate OwnersBelow<T(!new)>(step: (T, T) -> bool, owner: T -> nat, owners: nat) {
    forall w, y :: step(w, y) ==> owner(w) < owners
  }

  /** Every step goes to a later owner. */
  ghost predicate StepsForward<T(!new)>(step: (T, T) -> bool, owner: T -> nat) {
    forall w, y :: step(w, y) ==> owner(w) < owner(y)
  }

  /** Rounds take boundedly many steps. */
  lemma {:induction false} RoundsAreSteps<T(!new)>(
    init: T -> bool, step: (T, T) -> bool, owner: T -> nat, owners: nat, n: nat, x: T)
    requires OwnersBelow(step, owner, owners) && ReachInRounds(init, step, owner, n, x)
    ensures ReachIn(init, step, StepsIn(owners, n) + owner(x), x)
    decreases n, owner(x)
  {
    if !init(x) {
      var w :| step(w, x) &&
        if owner(w) < owner(x) then ReachInRounds(init, step, owner, n, w)
        else n > 0 && ReachInRounds(init, step, owner, n - 1, w);
      var m := if owner(w) < owner(x) then n else n - 1;
      RoundsAreSteps(init, step, owner, owners, m, w);
      ReachInMonotone(init, step, StepsIn(owners, m) + owner(w), StepsIn(owners, n) + owner(x) - 1, w);
    }
  }

  lemma RoundsAreBounded<T(!new)>(
    init: T -> bool, step: (T, T) -> bool, owner: T -> nat, owners: nat, n: nat, x: T)
    requires OwnersBelow(step, owner, owners) && owner(x) < owners && ReachInRounds(init, step, owner, n, x)
    ensures (n + 1) * owners > 0 && ReachIn(init, step, (n + 1) * owners - 1, x)
  {
    RoundsAreSteps(init, step, owner, owners, n, x);
    StepsInIsProduct(owners, n + 1);
    ReachInMonotone(init, step, StepsIn(owners, n) + owner(x), (n + 1) * owners - 1, x);
  }

  /** n steps never need more than n rounds. */
  lemma {:induction false} StepsAreRounds<T(!new)>(init: T -> bool, step: (T, T) -> bool, owner: T -> nat, n: nat, x: T)
    requires ReachIn(init, step, n, x)
    ensures ReachInRounds(init, step, owner, n, x)
    decreases n
  {
    if !init(x) {
      var w :| ReachIn(init, step, n - 1, w) && step(w, x);
      StepsAreRounds(init, step, owner, n - 1, w);
      MoreRoundsReachMore(init, step, owner, n - 1, n, w);
    }
  }

  /** If every step goes to a later owner, one round reaches everything. */
  lemma {:induction false} OneRoundIsEnough<T(!new)>(
    init: T -> bool, step: (T, T) -> bool, owner: T -> nat, n: nat, x: T)
    requires StepsForward(step, owner) && ReachInRounds(init, step, owner, n, x)
    ensures ReachInRounds(init, step, owner, 0, x)
    decreases owner(x)
  {
    if !init(x) {
      var w :| step(w, x) && ReachInRounds(init, step, owner, n, w);
      OneRoundIsEnough(init, step, owner, n, w);
    }
  }
}
