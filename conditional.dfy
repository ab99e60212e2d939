/**
 * The `apply_if!` macro: a lazy conditional that yields its action when the
 * condition holds and its fallback value otherwise. Only the chosen branch is
 * evaluated, which is how the oracles decide whether a gate is issued at all;
 * `Circuit.EmitIf` applies it to the builder's log of operations.
 */
module Conditional {

  function ApplyIf<T>(cond: bool, action: T, val: T): (r: T)
    ensures cond ==> r == action
    ensures !cond ==> r == val
  {
    if cond then action else val
  }

  /** When both branches are the same expression the condition is irrelevant. */
  lemma ApplyIfSameBranches<T>(cond: bool, e: T)
    ensures ApplyIf(cond, e, e) == e
  {
  }
}
