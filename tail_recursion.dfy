/**
 * The `TailRecursion` trampoline. A frame is either still pending (a lambda
 * whose `invoke` computes the next frame) or a `LastStackFrame` holding the
 * output. A pending frame's lambda is modelled by its captured state `S` and
 * one `step` function shared by all pending frames of a recursion.
 */
module TailRecursion {
  import opened Wrappers

  datatype Frame<S, O> = Pending(state: S) | LastStackFrame(output: O)
  {
    /** `done()`: false by default, true for the last frame. */
    predicate Done()
    {
      LastStackFrame?
    }
  }

  /** `invoke()`: the user's step on a pending frame; the last frame throws. */
  function Invoke<S, O>(f: Frame<S, O>, step: S -> Frame<S, O>): (r: Outcome<Frame<S, O>>)
    ensures r.Threw? <==> f.Done()
    ensures r.Threw? ==> r.error == IllegalState
  {
    match f
    case Pending(s) => Returned(step(s))
    case LastStackFrame(_) => Threw(IllegalState)
  }

  /** `get()`: the output of the last frame; an unfinished frame throws. */
  function Get<S, O>(f: Frame<S, O>): (r: Outcome<O>)
    ensures r.Returned? <==> f.Done()
    ensures r.Returned? ==> r.value == f.output
    ensures r.Threw? ==> r.error == IllegalState
  {
    match f
    case Pending(_) => Threw(IllegalState)
    case LastStackFrame(o) => Returned(o)
  }

  /** `endsWith(output)`. */
  function EndsWith<S, O>(output: O): (r: Frame<S, O>)
    ensures r.Done() && Get(r) == Returned(output)
  {
    LastStackFrame(output)
  }

  /**
   * The recursion the frames describe terminates: every step from a pending
   * frame lowers `rank`. Java would loop forever otherwise.
   */
  ghost predicate Terminates<S(!new), O>(step: S -> Frame<S, O>, rank: S -> nat)
  {
    forall s :: step(s).Pending? ==> rank(step(s).state) < rank(s)
  }

  /** The `n`-th element of `Stream.iterate(f, TailRecursion::invoke)`, stopping at a finished frame. */
  function Iterate<S, O>(f: Frame<S, O>, step: S -> Frame<S, O>, n: nat): Frame<S, O>
    decreases n
  {
    if n == 0 || f.Done() then f else Iterate(step(f.state), step, n - 1)
  }

  /** `collect()`: follow `invoke` until a finished frame and return its output. */
  function Collect<S(!new), O>(f: Frame<S, O>, step: S -> Frame<S, O>, rank: S -> nat): O
    requires Terminates(step, rank)
    decreases if f.Pending? then rank(f.state) + 1 else 0
  {
    match f
    case LastStackFrame(o) => o
    case Pending(s) => Collect(step(s), step, rank)
  }

  /** How many `invoke` calls lead from `f` to a finished frame. */
  ghost function StepsToDone<S(!new), O>(f: Frame<S, O>, step: S -> Frame<S, O>, rank: S -> nat): nat
    requires Terminates(step, rank)
    decreases if f.Pending? then rank(f.state) + 1 else 0
  {
    if f.Done() then 0 else 1 + StepsToDone(step(f.state), step, rank)
  }

  /**
   * `collect` returns `get()` of the first finished frame of the stream: the
   * element at `StepsToDone` is done, no earlier one is, and its output is the
   * result.
   */
  lemma {:induction false} CollectIsFirstDone<S(!new), O>(f: Frame<S, O>, step: S -> Frame<S, O>, rank: S -> nat)
    requires Terminates(step, rank)
    ensures Iterate(f, step, StepsToDone(f, step, rank)).Done()
    ensures forall m: nat :: m < StepsToDone(f, step, rank) ==> !Iterate(f, step, m).Done()
    ensures Get(Iterate(f, step, StepsToDone(f, step, rank))) == Returned(Collect(f, step, rank))
    decreases if f.Pending? then rank(f.state) + 1 else 0
  {
    if !f.Done() {
      var g := step(f.state);
      CollectIsFirstDone(g, step, rank);
      var n := StepsToDone(g, step, rank);
      assert Iterate(f, step, n + 1) == Iterate(g, step, n);
      forall m: nat | m < n + 1
        ensures !Iterate(f, step, m).Done()
      {
        if m > 0 {
          assert Iterate(f, step, m) == Iterate(g, step, m - 1);
        }
      }
    }
  }

  /** `endsWith(o).collect()` is `o`. */
  lemma EndsWithCollects<S(!new), O>(output: O, step: S -> Frame<S, O>, rank: S -> nat)
    requires Terminates(step, rank)
    ensures Collect(EndsWith(output), step, rank) == output
  {
  }

  /** The documented example: `accumulate(number, total)`, defined for number >= 1. */
  type Positive = n: int | n >= 1 witness 1

  function AccumulateStep(s: (Positive, int)): Frame<(Positive, int), int>
  {
    if s.0 == 1 then EndsWith(s.1) else Pending((s.0 - 1, s.1 + s.0))
  }

  function AccumulateRank(s: (Positive, int)): nat
  {
    s.0
  }

  /** `stdAccumulate`, the plain recursion the trampoline replaces. */
  function StdAccumulate(number: Positive, total: int): int
    decreases number
  {
    if number == 1 then total else StdAccumulate(number - 1, total + number)
  }

  lemma AccumulateTerminates()
    ensures Terminates(AccumulateStep, AccumulateRank)
  {
  }

  /** The trampoline gives the same result as the plain recursion, for every start. */
  lemma {:induction false} AccumulateMatchesRecursion(number: Positive, total: int)
    ensures Terminates(AccumulateStep, AccumulateRank)
    ensures Collect(Pending((number, total)), AccumulateStep, AccumulateRank) == StdAccumulate(number, total)
    ensures StdAccumulate(number, total) == total + number * (number + 1) / 2 - 1
    decreases number
  {
    AccumulateTerminates();
    if number > 1 {
      AccumulateMatchesRecursion(number - 1, total + number);
    }
  }

  /** `accumulate(5, 1).collect()` is 15. */
  lemma DocumentedExample()
    ensures Terminates(AccumulateStep, AccumulateRank)
    ensures Collect(Pending((5, 1)), AccumulateStep, AccumulateRank) == 15
  {
    AccumulateMatchesRecursion(5, 1);
  }
}
