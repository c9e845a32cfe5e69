/** The loop shared by the BIC and DIC selectors: walk the candidate state
    counts in increasing order, keep the best score seen with a strict
    comparison (so the earliest of equal scores wins), skip a candidate whose
    evaluation failed, or stop the whole walk. */
module Sweep {
  import opened Wrappers
  import opened Scores

  /** BIC keeps the lowest score, DIC the highest. */
  datatype Goal = Minimize | Maximize

  /** `a` strictly improves on `b`: `a < b` when minimising, `a > b` when maximising. */
  predicate Better(goal: Goal, a: Score, b: Score)
  {
    if goal.Minimize? then Lt(a, b) else Lt(b, a)
  }

  /** What one loop iteration did: `continue` after a caught exception, `break`
      after a caught exception, an exception that escapes `select()`, or a
      scored model. */
  datatype Eval<M> = Skip | Stop | Raise | Candidate(value: Score, model: M)

  /** `best_score, best_model`. */
  datatype Best<M> = Best(score: Score, model: Option<M>)

  /** Either a value returned, or an exception that escaped. */
  datatype Completion<T> = Returned(value: T) | Raised

  /** The loop over the evaluations, in order, from the running best `best`. */
  function Run<M>(goal: Goal, evals: seq<Eval<M>>, best: Best<M>): Completion<Best<M>>
    decreases |evals|
  {
    if evals == [] then Returned(best)
    else
      match evals[0]
      case Skip => Run(goal, evals[1..], best)
      case Stop => Returned(best)
      case Raise => Raised
      case Candidate(v, m) =>
        Run(goal, evals[1..], if Better(goal, v, best.score) then Best(v, Some(m)) else best)
  }

  /** Index of the first evaluation that ends the loop (`Stop` or `Raise`), or |evals|. */
  function Halt<M>(evals: seq<Eval<M>>): (k: nat)
    ensures k <= |evals|
    ensures forall j :: 0 <= j < k ==> !evals[j].Stop? && !evals[j].Raise?
    ensures k < |evals| ==> evals[k].Stop? || evals[k].Raise?
  {
    if evals == [] then 0
    else if evals[0].Stop? || evals[0].Raise? then 0
    else 1 + Halt(evals[1..])
  }

  /** Iteration `i` is the one whose model the loop keeps, starting from the
      score `init`: it runs before the loop ends, it improves on `init`, it
      strictly improves on every earlier candidate that did, and no later
      candidate strictly improves on it. */
  ghost predicate IsWinner<M>(goal: Goal, evals: seq<Eval<M>>, init: Score, i: nat, v: Score, m: M)
  {
    && i < Halt(evals)
    && evals[i] == Candidate(v, m)
    && Better(goal, v, init)
    && (forall j :: 0 <= j < i && evals[j].Candidate? && Better(goal, evals[j].value, init) ==>
          Better(goal, v, evals[j].value))
    && (forall j :: i < j < Halt(evals) && evals[j].Candidate? ==> !Better(goal, evals[j].value, v))
  }

  lemma BetterTransitive(goal: Goal, a: Score, b: Score, c: Score)
    requires Better(goal, a, b) && Better(goal, b, c)
    ensures Better(goal, a, c)
  {
    if goal.Minimize? {
      LtTransitive(a, b, c);
    } else {
      LtTransitive(c, b, a);
    }
  }

  /** If `x` improves on `y` and `z` does not, then `x` improves on `z`. */
  lemma BetterMix(goal: Goal, x: Score, y: Score, z: Score)
    requires Better(goal, x, y) && !Better(goal, z, y) && !z.NaN?
    ensures Better(goal, x, z)
  {
    LtTotal(y, z);
    if z != y {
      BetterTransitive(goal, x, y, z);
    }
  }

  lemma WinnerShift<M>(goal: Goal, evals: seq<Eval<M>>, s: Score, i: nat, v: Score, m: M)
    requires evals != [] && !evals[0].Stop? && !evals[0].Raise?
    requires evals[0].Candidate? ==> !Better(goal, evals[0].value, s)
    requires IsWinner(goal, evals[1..], s, i, v, m)
    ensures IsWinner(goal, evals, s, i + 1, v, m)
  {
    assert Halt(evals) == 1 + Halt(evals[1..]);
    forall j | 0 < j < |evals| ensures evals[j] == evals[1..][j - 1] {
    }
  }

  lemma WinnerExtend<M>(goal: Goal, evals: seq<Eval<M>>, s: Score, i: nat, v: Score, m: M)
    requires evals != [] && evals[0].Candidate? && Better(goal, evals[0].value, s)
    requires IsWinner(goal, evals[1..], evals[0].value, i, v, m)
    ensures IsWinner(goal, evals, s, i + 1, v, m)
  {
    var v0 := evals[0].value;
    assert Halt(evals) == 1 + Halt(evals[1..]);
    forall j | 0 < j < |evals| ensures evals[j] == evals[1..][j - 1] {
    }
    BetterTransitive(goal, v, v0, s);
    forall j | 0 <= j < i + 1 && evals[j].Candidate? && Better(goal, evals[j].value, s)
      ensures Better(goal, v, evals[j].value)
    {
      if j > 0 && !Better(goal, evals[j].value, v0) {
        BetterMix(goal, v, v0, evals[j].value);
      }
    }
  }

  lemma WinnerFirst<M>(goal: Goal, evals: seq<Eval<M>>, s: Score)
    requires evals != [] && evals[0].Candidate? && Better(goal, evals[0].value, s)
    requires forall j :: 0 <= j < Halt(evals[1..]) && evals[1..][j].Candidate? ==>
      !Better(goal, evals[1..][j].value, evals[0].value)
    ensures IsWinner(goal, evals, s, 0, evals[0].value, evals[0].model)
  {
    assert Halt(evals) == 1 + Halt(evals[1..]);
    forall j | 0 < j < |evals| ensures evals[j] == evals[1..][j - 1] {
    }
  }

  /** The loop raises exactly when it ends on `Raise`; otherwise it keeps the
      running best when no candidate before the end improves on it, and else
      keeps the winner's score and model. */
  lemma {:induction false} RunSpec<M>(goal: Goal, evals: seq<Eval<M>>, best: Best<M>)
    ensures var r := Run(goal, evals, best);
      && (r.Raised? <==> Halt(evals) < |evals| && evals[Halt(evals)].Raise?)
      && (r.Returned? ==>
            || (r.value == best
                && forall j :: 0 <= j < Halt(evals) && evals[j].Candidate? ==>
                     !Better(goal, evals[j].value, best.score))
            || (r.value.model.Some?
                && exists i :: IsWinner(goal, evals, best.score, i, r.value.score, r.value.model.value)))
    decreases |evals|
  {
    if evals != [] {
      var rest := evals[1..];
      assert forall j :: 0 < j < |evals| ==> evals[j] == rest[j - 1];
      match evals[0]
      case Skip =>
        RunSpec(goal, rest, best);
        var r := Run(goal, rest, best);
        if r.Returned? && r.value.model.Some? && r.value != best {
          var i: nat :| IsWinner(goal, rest, best.score, i, r.value.score, r.value.model.value);
          WinnerShift(goal, evals, best.score, i, r.value.score, r.value.model.value);
        }
      case Stop =>
      case Raise =>
      case Candidate(v, m) =>
        if Better(goal, v, best.score) {
          var b' := Best(v, Some(m));
          RunSpec(goal, rest, b');
          var r := Run(goal, rest, b');
          if r.Returned? {
            if r.value == b' && forall j :: 0 <= j < Halt(rest) && rest[j].Candidate? ==> !Better(goal, rest[j].value, v) {
              WinnerFirst(goal, evals, best.score);
            } else {
              var i: nat :| IsWinner(goal, rest, v, i, r.value.score, r.value.model.value);
              WinnerExtend(goal, evals, best.score, i, r.value.score, r.value.model.value);
            }
          }
        } else {
          RunSpec(goal, rest, best);
          var r := Run(goal, rest, best);
          if r.Returned? && r.value.model.Some? && r.value != best {
            var i: nat :| IsWinner(goal, rest, best.score, i, r.value.score, r.value.model.value);
            WinnerShift(goal, evals, best.score, i, r.value.score, r.value.model.value);
          }
        }
    }
  }

  /** From `best_model = None`: nothing is kept exactly when no candidate before
      the end improves on the starting score, and what is kept is the winner. */
  lemma RunFromScratch<M>(goal: Goal, evals: seq<Eval<M>>, init: Score)
    ensures var r := Run(goal, evals, Best(init, None));
      && (r.Raised? <==> Halt(evals) < |evals| && evals[Halt(evals)].Raise?)
      && (r.Returned? ==>
            (r.value.model.None? <==>
               forall j :: 0 <= j < Halt(evals) && evals[j].Candidate? ==> !Better(goal, evals[j].value, init)))
      && (r.Returned? && r.value.model.None? ==> r.value.score == init)
      && (r.Returned? && r.value.model.Some? ==>
            exists i :: IsWinner(goal, evals, init, i, r.value.score, r.value.model.value))
  {
    RunSpec(goal, evals, Best(init, None));
    var r := Run(goal, evals, Best(init, None));
    if r.Returned? && r.value.model.Some? {
      var i: nat :| IsWinner(goal, evals, init, i, r.value.score, r.value.model.value);
      assert evals[i].Candidate? && Better(goal, evals[i].value, init);
    }
  }

  /** Length of `range(lo, hi)`. */
  function Span(lo: int, hi: int): nat
  {
    if hi <= lo then 0 else hi - lo
  }

  /** The evaluations of the loop `for n in range(lo, hi)`, one per n. */
  function Evals<M>(e: int -> Eval<M>, lo: int, hi: int): seq<Eval<M>>
  {
    seq(Span(lo, hi), i requires 0 <= i < Span(lo, hi) => e(lo + i))
  }

  lemma EvalsAt<M>(e: int -> Eval<M>, lo: int, hi: int)
    ensures |Evals(e, lo, hi)| == Span(lo, hi)
    ensures forall i :: 0 <= i < Span(lo, hi) ==> Evals(e, lo, hi)[i] == e(lo + i)
  {
  }

  /** range(lo, hi) starts with lo, followed by range(lo + 1, hi). */
  lemma EvalsStep<M>(e: int -> Eval<M>, lo: int, hi: int)
    requires lo < hi
    ensures Evals(e, lo, hi) == [e(lo)] + Evals(e, lo + 1, hi)
  {
    var a := Evals(e, lo, hi);
    var b := Evals(e, lo + 1, hi);
    EvalsAt(e, lo, hi);
    EvalsAt(e, lo + 1, hi);
    forall i | 0 <= i < |a| ensures a[i] == ([e(lo)] + b)[i] {
      if i > 0 {
        assert b[i - 1] == e(lo + i);
      }
    }
  }

  /** The first n in range(lo, hi) whose iteration breaks or raises, or the end of the range. */
  function HaltAt<M>(e: int -> Eval<M>, lo: int, hi: int): (h: int)
    ensures lo <= h <= lo + Span(lo, hi)
    ensures forall n :: lo <= n < h ==> !e(n).Stop? && !e(n).Raise?
    ensures h < lo + Span(lo, hi) ==> e(h).Stop? || e(h).Raise?
  {
    var evals := Evals(e, lo, hi);
    EvalsAt(e, lo, hi);
    var k := Halt(evals);
    assert forall n :: lo <= n < lo + k ==> evals[n - lo] == e(n);
    lo + k
  }

  /** n is the state count whose model the loop over range(lo, hi) keeps: it
      runs before the loop ends, improves on `init`, strictly improves on
      every earlier candidate that did, and no later candidate before the end
      strictly improves on it. */
  ghost predicate IsChoice<M>(goal: Goal, e: int -> Eval<M>, lo: int, hi: int, init: Score, n: int, m: M)
  {
    && lo <= n < HaltAt(e, lo, hi)
    && e(n).Candidate?
    && e(n).model == m
    && Better(goal, e(n).value, init)
    && (forall n' :: lo <= n' < n && e(n').Candidate? && Better(goal, e(n').value, init) ==>
          Better(goal, e(n).value, e(n').value))
    && (forall n' :: n < n' < HaltAt(e, lo, hi) && e(n').Candidate? ==> !Better(goal, e(n').value, e(n).value))
  }

  lemma ChoiceOfWinner<M>(goal: Goal, e: int -> Eval<M>, lo: int, hi: int, init: Score, i: nat, v: Score, m: M)
    requires IsWinner(goal, Evals(e, lo, hi), init, i, v, m)
    ensures IsChoice(goal, e, lo, hi, init, lo + i, m)
  {
    var evals := Evals(e, lo, hi);
    EvalsAt(e, lo, hi);
    assert HaltAt(e, lo, hi) == lo + Halt(evals);
    forall n' | lo <= n' < lo + Halt(evals) ensures e(n') == evals[n' - lo] {
    }
  }

  /** The loop `for n in range(lo, hi)` from `best_model = None`, stated over
      state counts: it raises exactly when it ends on a raising n; it keeps
      nothing exactly when no candidate before the end improves on `init`;
      otherwise it keeps the model of the choice. */
  lemma RunOverRange<M>(goal: Goal, e: int -> Eval<M>, lo: int, hi: int, init: Score)
    ensures var r := Run(goal, Evals(e, lo, hi), Best(init, None));
      var h := HaltAt(e, lo, hi);
      && (r.Raised? <==> h < lo + Span(lo, hi) && e(h).Raise?)
      && (r.Returned? ==>
            (r.value.model.None? <==>
               forall n :: lo <= n < h && e(n).Candidate? ==> !Better(goal, e(n).value, init)))
      && (r.Returned? && r.value.model.Some? ==>
            exists n :: IsChoice(goal, e, lo, hi, init, n, r.value.model.value))
  {
    var evals := Evals(e, lo, hi);
    EvalsAt(e, lo, hi);
    var h := HaltAt(e, lo, hi);
    RunFromScratch(goal, evals, init);
    assert h == lo + Halt(evals);
    assert h < lo + Span(lo, hi) ==> evals[h - lo] == e(h);
    assert forall n :: lo <= n < h ==> evals[n - lo] == e(n);
    var r := Run(goal, evals, Best(init, None));
    if r.Returned? && r.value.model.Some? {
      var i: nat :| IsWinner(goal, evals, init, i, r.value.score, r.value.model.value);
      ChoiceOfWinner(goal, e, lo, hi, init, i, r.value.score, r.value.model.value);
    }
    if r.Returned? && r.value.model.None? {
      forall n | lo <= n < h && e(n).Candidate? ensures !Better(goal, e(n).value, init) {
        assert evals[n - lo] == e(n);
      }
    }
  }
}
