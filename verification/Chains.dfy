/** Hashing as a chain of steps: when each step can be undone, no two messages that differ in one block collide. */
module Chains {
  /** The blocks, absorbed one after the other. */
  function Run<S, B>(step: (S, B) -> S, blocks: seq<B>, start: S): S {
    if |blocks| == 0 then start
    else step(Run(step, blocks[..|blocks| - 1], start), blocks[|blocks| - 1])
  }

  /** For each block, different states stay different. */
  ghost predicate KeepsStates<S(!new), B(!new)>(step: (S, B) -> S) {
    forall s, t, b :: step(s, b) == step(t, b) ==> s == t
  }

  /** In each state, different blocks lead to different states. */
  ghost predicate TellsBlocks<S(!new), B(!new)>(step: (S, B) -> S) {
    forall s, b, c :: step(s, b) == step(s, c) ==> b == c
  }

  lemma {:induction false} RunKeepsStates<S(!new), B(!new)>(step: (S, B) -> S, blocks: seq<B>, s: S, t: S)
    requires KeepsStates(step) && Run(step, blocks, s) == Run(step, blocks, t)
    ensures s == t
  {
    if |blocks| == 0 {
    } else {
      RunKeepsStates(step, blocks[..|blocks| - 1], s, t);
    }
  }

  /** Exactly one block differs. */
  ghost predicate DifferOnlyAt<B>(a: seq<B>, b: seq<B>, j: nat) {
    && |a| == |b| && j < |a|
    && a[j] != b[j]
    && forall k :: 0 <= k < |a| && k != j ==> a[k] == b[k]
  }

  lemma {:induction false} OneBlockMatters<S(!new), B(!new)>(step: (S, B) -> S, a: seq<B>, b: seq<B>, j: nat, s: S)
    requires KeepsStates(step) && TellsBlocks(step) && DifferOnlyAt(a, b, j)
    ensures Run(step, a, s) != Run(step, b, s)
    decreases |a|
  {
    var n := |a| - 1;
    if j == n {
      assert a[..n] == b[..n];
    } else {
      OneBlockMatters(step, a[..n], b[..n], j, s);
    }
  }

  /** The blocks taken out again, last first. */
  function Back<S, B>(unstep: (S, B) -> S, blocks: seq<B>, end: S): S {
    if |blocks| == 0 then end
    else Back(unstep, blocks[..|blocks| - 1], unstep(end, blocks[|blocks| - 1]))
  }

  ghost predicate Undoes<S(!new), B(!new)>(step: (S, B) -> S, unstep: (S, B) -> S) {
    && (forall s, b :: unstep(step(s, b), b) == s)
    && (forall s, b :: step(unstep(s, b), b) == s)
  }

  /** For fixed blocks, a chain of steps that can be undone is a permutation of the states. */
  lemma {:induction false} BackUndoesRun<S(!new), B(!new)>(step: (S, B) -> S, unstep: (S, B) -> S, blocks: seq<B>, s: S)
    requires Undoes(step, unstep)
    ensures Back(unstep, blocks, Run(step, blocks, s)) == s
    ensures Run(step, blocks, Back(unstep, blocks, s)) == s
    decreases |blocks|
  {
    if |blocks| == 0 {
    } else {
      var init, last := blocks[..|blocks| - 1], blocks[|blocks| - 1];
      BackUndoesRun(step, unstep, init, s);
      BackUndoesRun(step, unstep, init, unstep(s, last));
    }
  }

  lemma UndoneKeepsStates<S(!new), B(!new)>(step: (S, B) -> S, unstep: (S, B) -> S)
    requires Undoes(step, unstep)
    ensures KeepsStates(step)
  {
    forall s, t, b | step(s, b) == step(t, b)
      ensures s == t
    {
      assert unstep(step(s, b), b) == s && unstep(step(t, b), b) == t;
    }
  }
}
