/** `SelectorCV.select()` of my_model_selectors.py, modelled as written: the
    k-fold split is given, `self.X, self.lengths` is overwritten by every
    training fold, `scores` is never reset between state counts, and the value
    compared for a state count is `np.mean(logL)`, where `logL` is the scalar
    of the last fold scored. */
module CrossValidation {
  import opened Wrappers
  import opened Sequences
  import opened AslData
  import opened Scores
  import opened Sweep
  import opened ModelSelectors

  /** `n_splits = 2`. */
  const NumSplits: nat := 2

  /** One (train_index, test_index) pair of the k-fold split. */
  datatype Fold = Fold(train: seq<nat>, test: seq<nat>)

  ghost predicate InRange(idx: seq<nat>, count: nat)
  {
    forall j :: 0 <= j < |idx| ==> idx[j] < count
  }

  /** What `KFold(n_splits=2, shuffle=True, random_state=...).split` yields for
      `count` sequences: two folds whose indices are all in range. */
  ghost predicate IsSplit(folds: seq<Fold>, count: nat)
  {
    && |folds| == NumSplits
    && forall i :: 0 <= i < |folds| ==> InRange(folds[i].train, count) && InRange(folds[i].test, count)
  }

  /** `asl_utils.combine_sequences(indices, sequences)`, taken to be the
      combined view of the sequences at these indices, in index order. */
  function FoldView(seqs: seq<Sequence>, idx: seq<nat>): View
    requires InRange(idx, |seqs|)
  {
    Combine(seq(|idx|, j requires 0 <= j < |idx| => seqs[idx[j]]))
  }

  /** The scores one state count's fold loop obtains: fold by fold, fit on the
      training view and score the test view, until a fit or a score fails. */
  function FoldScores<M>(sel: Selector, t: Trainer<M>, n: int, folds: seq<Fold>, i: nat): (r: seq<real>)
    requires i <= |folds|
    requires IsSplit(folds, |sel.sequences|)
    ensures |r| <= |folds| - i
    decreases |folds| - i
  {
    if i == |folds| then []
    else
      var train := FoldView(sel.sequences, folds[i].train);
      var test := FoldView(sel.sequences, folds[i].test);
      match BaseModel(sel.(view := train), t, n)
      case None => []
      case Some(m) =>
        match t.score(m, test.cat, test.lengths)
        case None => []
        case Some(logL) => [logL] + FoldScores(sel, t, n, folds, i + 1)
  }

  /** The fold at which a fold loop started at fold `i` leaves the view: the
      first fold whose fit or score failed, or else the last fold. */
  function StopIndex<M>(sel: Selector, t: Trainer<M>, n: int, folds: seq<Fold>, i: nat): (k: nat)
    requires i < |folds|
    requires IsSplit(folds, |sel.sequences|)
    ensures i <= k < |folds|
  {
    var k := i + |FoldScores(sel, t, n, folds, i)|;
    if k < |folds| then k else |folds| - 1
  }

  /** The variables the loops carry: `(self.X, self.lengths)`, `scores` and `model`. */
  datatype CvState<M> = CvState(view: View, scores: seq<real>, model: Option<M>)

  /** The fold loop for one state count. Each fold first overwrites the view
      with its training view; a failed fit leaves `model` as `None`, whose
      `.score` raises, and a failed score raises too: either breaks the loop. */
  function FoldLoop<M>(sel: Selector, t: Trainer<M>, n: int, folds: seq<Fold>, i: nat, st: CvState<M>): (r: CvState<M>)
    requires i <= |folds|
    requires IsSplit(folds, |sel.sequences|)
    ensures r.scores == st.scores + FoldScores(sel, t, n, folds, i)
    ensures i == |folds| ==> r == st
    ensures i < |folds| ==> r.model == BaseModel(sel.(view := r.view), t, n)
    decreases |folds| - i
  {
    if i == |folds| then st
    else
      var train := FoldView(sel.sequences, folds[i].train);
      var test := FoldView(sel.sequences, folds[i].test);
      var model := BaseModel(sel.(view := train), t, n);
      match model
      case None => CvState(train, st.scores, None)
      case Some(m) =>
        match t.score(m, test.cat, test.lengths)
        case None => CvState(train, st.scores, model)
        case Some(logL) =>
          if i + 1 == |folds| then CvState(train, st.scores + [logL], model)
          else
            var r := FoldLoop(sel, t, n, folds, i + 1, CvState(train, st.scores + [logL], model));
            assert st.scores + [logL] + FoldScores(sel, t, n, folds, i + 1)
                == st.scores + ([logL] + FoldScores(sel, t, n, folds, i + 1));
            r
  }

  /** The fold loop leaves the view at the training view of `StopIndex`. */
  lemma {:induction false} FoldLoopStops<M>(sel: Selector, t: Trainer<M>, n: int, folds: seq<Fold>, i: nat, st: CvState<M>)
    requires i < |folds|
    requires IsSplit(folds, |sel.sequences|)
    ensures FoldLoop(sel, t, n, folds, i, st).view == FoldView(sel.sequences, folds[StopIndex(sel, t, n, folds, i)].train)
    decreases |folds| - i
  {
    var train := FoldView(sel.sequences, folds[i].train);
    var test := FoldView(sel.sequences, folds[i].test);
    var fs := FoldScores(sel, t, n, folds, i);
    match BaseModel(sel.(view := train), t, n)
    case None =>
      assert fs == [];
    case Some(m) =>
      match t.score(m, test.cat, test.lengths)
      case None =>
        assert fs == [];
      case Some(logL) =>
        assert fs == [logL] + FoldScores(sel, t, n, folds, i + 1);
        var st' := CvState(train, st.scores + [logL], Some(m));
        if i + 1 < |folds| {
          assert FoldLoop(sel, t, n, folds, i, st) == FoldLoop(sel, t, n, folds, i + 1, st');
          FoldLoopStops(sel, t, n, folds, i + 1, st');
          assert StopIndex(sel, t, n, folds, i) == StopIndex(sel, t, n, folds, i + 1);
        }
  }

  /** How a state count's value is computed from `scores` before and after its fold loop. */
  datatype Averaging = AsWritten | Intended

  /** As written, `np.mean(logL) if len(scores) > 0 else float("-inf")`: the
      last score obtained so far, by this or any earlier state count. As
      intended, the mean of this state count's own fold scores. */
  function ComparedValue(avg: Averaging, before: seq<real>, after: seq<real>): (v: Score)
    requires |before| <= |after|
    ensures v.Fin? || v.NegInf?
  {
    match avg
    case AsWritten => if |after| > 0 then Fin(after[|after| - 1]) else NegInf
    case Intended => if |after| > |before| then Mean(after[|before|..]) else NegInf
  }

  /** The sweep over range(min_n, max_n + 1), from `n`: each state count runs
      its fold loop and is kept when its value is strictly above the best; the
      kept model is whatever `model` holds after the fold loop. The sweep
      breaks at once when there are fewer sequences than splits. */
  function CvSweep<M>(avg: Averaging, sel: Selector, t: Trainer<M>, folds: seq<Fold>, n: int,
                      st: CvState<M>, best: Best<M>): (r: (Best<M>, CvState<M>))
    requires |sel.sequences| >= NumSplits ==> IsSplit(folds, |sel.sequences|)
    ensures n > sel.maxN || |sel.sequences| < NumSplits ==> r == (best, st)
    ensures n <= sel.maxN && |sel.sequences| >= NumSplits ==>
      r.1.view == FoldView(sel.sequences, folds[StopIndex(sel, t, sel.maxN, folds, 0)].train)
    ensures r.0.model != best.model ==> FittedOnFold(sel, t, folds, r.0.model)
    decreases sel.maxN + 1 - n
  {
    if n > sel.maxN || |sel.sequences| < NumSplits then (best, st)
    else
      var st' := FoldLoop(sel, t, n, folds, 0, st);
      var v := ComparedValue(avg, st.scores, st'.scores);
      var best' := if Lt(best.score, v) then Best(v, st'.model) else best;
      var j := StopIndex(sel, t, n, folds, 0);
      FoldLoopStops(sel, t, n, folds, 0, st);
      assert st'.view == FoldView(sel.sequences, folds[j].train);
      assert FittedOnFold(sel, t, folds, st'.model) by {
        assert st'.model == BaseModel(sel.(view := FoldView(sel.sequences, folds[j].train)), t, n);
      }
      var r := CvSweep(avg, sel, t, folds, n + 1, st', best');
      assert n == sel.maxN ==> r == (best', st');
      r
  }

  /** `model` was fitted, for some state count, on one of the training folds. */
  ghost predicate FittedOnFold<M>(sel: Selector, t: Trainer<M>, folds: seq<Fold>, model: Option<M>)
    requires |sel.sequences| >= NumSplits ==> IsSplit(folds, |sel.sequences|)
  {
    && |sel.sequences| >= NumSplits
    && exists n, j :: 0 <= j < |folds| && model == BaseModel(sel.(view := FoldView(sel.sequences, folds[j].train)), t, n)
  }

  /** The model chosen and the selector as `select()` leaves it. */
  datatype CvResult<M> = CvResult(model: Option<M>, selector: Selector)

  /** `SelectorCV.select()` with the given averaging: the sweep from
      (-inf, None), then, unless a model was kept, `base_model(n_constant)` on
      the view the sweep left behind. */
  function CvRun<M>(avg: Averaging, sel: Selector, t: Trainer<M>, folds: seq<Fold>): (r: CvResult<M>)
    requires |sel.sequences| >= NumSplits ==> IsSplit(folds, |sel.sequences|)
    ensures r.selector == sel.(view := r.selector.view)
    ensures |sel.sequences| < NumSplits || sel.maxN < sel.minN ==> r == CvResult(ConstantSelect(sel, t), sel)
    ensures |sel.sequences| >= NumSplits && sel.minN <= sel.maxN ==>
      r.selector.view == FoldView(sel.sequences, folds[StopIndex(sel, t, sel.maxN, folds, 0)].train)
    ensures r.model.None? ==> r.model == ConstantSelect(r.selector, t)
    ensures r.model.Some? ==> FittedOnFold(sel, t, folds, r.model) || r.model == ConstantSelect(r.selector, t)
  {
    var (best, st) := CvSweep(avg, sel, t, folds, sel.minN, CvState(sel.view, [], None), Best(NegInf, None));
    var final := sel.(view := st.view);
    CvResult(if best.model.Some? then best.model else ConstantSelect(final, t), final)
  }

  /** `scores` when the sweep reaches state count n: the fold scores of
      min_n, ..., n - 1, in that order. */
  function PriorScores<M>(sel: Selector, t: Trainer<M>, folds: seq<Fold>, n: int): seq<real>
    requires IsSplit(folds, |sel.sequences|)
    decreases n - sel.minN
  {
    if n <= sel.minN then [] else PriorScores(sel, t, folds, n - 1) + FoldScores(sel, t, n - 1, folds, 0)
  }

  /** The value the sweep compares for state count n. */
  function CvValue<M>(avg: Averaging, sel: Selector, t: Trainer<M>, folds: seq<Fold>, n: int): Score
    requires IsSplit(folds, |sel.sequences|)
  {
    var before := PriorScores(sel, t, folds, n);
    ComparedValue(avg, before, before + FoldScores(sel, t, n, folds, 0))
  }

  /** What `model` holds after state count n's fold loop: the fit on the
      training view of the fold where that loop stopped, possibly `None`. */
  function FoldModel<M>(sel: Selector, t: Trainer<M>, n: int, folds: seq<Fold>): Option<M>
    requires IsSplit(folds, |sel.sequences|)
  {
    BaseModel(sel.(view := FoldView(sel.sequences, folds[StopIndex(sel, t, n, folds, 0)].train)), t, n)
  }

  /** The sweep's iterations as evaluations of the shared loop: every state
      count is a candidate, with its compared value and its (possibly absent)
      model; `best_model = model` may thus keep a `None`. */
  function CvLoop<M>(avg: Averaging, sel: Selector, t: Trainer<M>, folds: seq<Fold>): int -> Eval<Option<M>>
    requires IsSplit(folds, |sel.sequences|)
  {
    n => Candidate(CvValue(avg, sel, t, folds, n), FoldModel(sel, t, n, folds))
  }

  /** A running best of the shared loop, with a kept `None` read as nothing kept. */
  function Flat<M>(b: Best<Option<M>>): Best<M>
  {
    Best(b.score, if b.model.Some? then b.model.value else None)
  }

  /** One state count of the CV sweep: run its fold loop, then keep its model
      exactly when its compared value is strictly above the best. */
  lemma CvSweepStep<M>(avg: Averaging, sel: Selector, t: Trainer<M>, folds: seq<Fold>,
                       n: int, st: CvState<M>, b: Best<Option<M>>)
    requires |sel.sequences| >= NumSplits && IsSplit(folds, |sel.sequences|)
    requires sel.minN <= n <= sel.maxN
    requires st.scores == PriorScores(sel, t, folds, n)
    ensures var st' := FoldLoop(sel, t, n, folds, 0, st);
      var v := CvValue(avg, sel, t, folds, n);
      var b' := if Better(Maximize, v, b.score) then Best(v, Some(FoldModel(sel, t, n, folds))) else b;
      && st'.scores == PriorScores(sel, t, folds, n + 1)
      && CvSweep(avg, sel, t, folds, n, st, Flat(b)) == CvSweep(avg, sel, t, folds, n + 1, st', Flat(b'))
  {
    var st' := FoldLoop(sel, t, n, folds, 0, st);
    FoldLoopStops(sel, t, n, folds, 0, st);
    assert st'.scores == PriorScores(sel, t, folds, n + 1);
    assert ComparedValue(avg, st.scores, st'.scores) == CvValue(avg, sel, t, folds, n);
    assert st'.model == FoldModel(sel, t, n, folds);
  }

  /** The CV sweep from state count n is the shared strict-maximum loop over
      range(n, max_n + 1) of `CvLoop`. */
  lemma {:induction false} CvSweepRuns<M>(avg: Averaging, sel: Selector, t: Trainer<M>, folds: seq<Fold>,
                                          n: int, st: CvState<M>, b: Best<Option<M>>)
    requires |sel.sequences| >= NumSplits && IsSplit(folds, |sel.sequences|)
    requires sel.minN <= n
    requires st.scores == PriorScores(sel, t, folds, n)
    ensures Run(Maximize, Evals(CvLoop(avg, sel, t, folds), n, sel.maxN + 1), b).Returned?
    ensures CvSweep(avg, sel, t, folds, n, st, Flat(b)).0
         == Flat(Run(Maximize, Evals(CvLoop(avg, sel, t, folds), n, sel.maxN + 1), b).value)
    decreases sel.maxN + 1 - n
  {
    var e := CvLoop(avg, sel, t, folds);
    var evals := Evals(e, n, sel.maxN + 1);
    if n <= sel.maxN {
      var v := CvValue(avg, sel, t, folds, n);
      var m := FoldModel(sel, t, n, folds);
      EvalsStep(e, n, sel.maxN + 1);
      assert evals[0] == e(n) == Candidate(v, m);
      assert evals[1..] == Evals(e, n + 1, sel.maxN + 1);
      var st' := FoldLoop(sel, t, n, folds, 0, st);
      var b' := if Better(Maximize, v, b.score) then Best(v, Some(m)) else b;
      assert Run(Maximize, evals, b) == Run(Maximize, evals[1..], b');
      CvSweepStep(avg, sel, t, folds, n, st, b);
      CvSweepRuns(avg, sel, t, folds, n + 1, st', b');
    } else {
      assert evals == [];
    }
  }

  /** CV keeps the model of the state count with the highest compared value
      (strict `>`, so the earliest of equal values wins), whatever that model
      is; when no value rises above -inf, or the kept model is `None`, it falls
      back to `base_model(n_constant)` on the view the sweep left behind. */
  lemma CvRunIsArgmax<M>(avg: Averaging, sel: Selector, t: Trainer<M>, folds: seq<Fold>)
    requires |sel.sequences| >= NumSplits && IsSplit(folds, |sel.sequences|)
    ensures var r := CvRun(avg, sel, t, folds);
      && ((forall n :: sel.minN <= n <= sel.maxN ==> CvValue(avg, sel, t, folds, n).NegInf?) ==>
            r.model == ConstantSelect(r.selector, t))
      && ((exists n :: sel.minN <= n <= sel.maxN && CvValue(avg, sel, t, folds, n).Fin?) ==>
            exists n :: && IsChoice(Maximize, CvLoop(avg, sel, t, folds), sel.minN, sel.maxN + 1, NegInf, n,
                                    FoldModel(sel, t, n, folds))
                        && r.model == if FoldModel(sel, t, n, folds).Some? then FoldModel(sel, t, n, folds)
                                      else ConstantSelect(r.selector, t))
  {
    var e := CvLoop(avg, sel, t, folds);
    var b0: Best<Option<M>> := Best(NegInf, None);
    var st0 := CvState(sel.view, [], None);
    CvSweepRuns(avg, sel, t, folds, sel.minN, st0, b0);
    RunOverRange(Maximize, e, sel.minN, sel.maxN + 1, NegInf);
    var h := HaltAt(e, sel.minN, sel.maxN + 1);
    assert e(h).Candidate?;
    var run := Run(Maximize, Evals(e, sel.minN, sel.maxN + 1), b0);
    var r := CvRun(avg, sel, t, folds);
    var sw := CvSweep(avg, sel, t, folds, sel.minN, st0, Best(NegInf, None));
    assert Flat(b0) == Best(NegInf, None);
    assert sw.0 == Flat(run.value);
    assert r.selector == sel.(view := sw.1.view);
    assert r.model == if sw.0.model.Some? then sw.0.model else ConstantSelect(r.selector, t);
    if forall n :: sel.minN <= n <= sel.maxN ==> CvValue(avg, sel, t, folds, n).NegInf? {
      forall n | sel.minN <= n < h && e(n).Candidate? ensures !Better(Maximize, e(n).value, NegInf) {
        assert e(n).value == CvValue(avg, sel, t, folds, n);
      }
      assert run.value.model.None?;
    }
    if exists n :: sel.minN <= n <= sel.maxN && CvValue(avg, sel, t, folds, n).Fin? {
      var n :| sel.minN <= n <= sel.maxN && CvValue(avg, sel, t, folds, n).Fin?;
      assert e(n).Candidate? && Better(Maximize, e(n).value, NegInf);
      var k :| IsChoice(Maximize, e, sel.minN, sel.maxN + 1, NegInf, k, run.value.model.value);
      assert run.value.model.value == FoldModel(sel, t, k, folds);
    }
  }

  /** `SelectorCV.select()` as written. */
  function CvSelect<M>(sel: Selector, t: Trainer<M>, folds: seq<Fold>): CvResult<M>
    requires |sel.sequences| >= NumSplits ==> IsSplit(folds, |sel.sequences|)
  {
    CvRun(AsWritten, sel, t, folds)
  }

  /** `SelectorCV.select()` with `np.mean(scores)` over a `scores` reset per state count. */
  function CvIntended<M>(sel: Selector, t: Trainer<M>, folds: seq<Fold>): CvResult<M>
    requires |sel.sequences| >= NumSplits ==> IsSplit(folds, |sel.sequences|)
  {
    CvRun(Intended, sel, t, folds)
  }

  /** With fewer sequences than splits, CV breaks before any fold: it is the
      constant selector on the untouched full view. */
  lemma CvTooFewSequences<M>(sel: Selector, t: Trainer<M>, folds: seq<Fold>)
    requires |sel.sequences| < NumSplits
    ensures CvSelect(sel, t, folds) == CvResult(ConstantSelect(sel, t), sel)
  {
  }

  /** As written, the value compared for a state count is the last fold score
      it obtained, or, when it obtained none, the last score of an earlier
      state count; never the mean of its folds. */
  lemma CvAsWrittenValue<M>(sel: Selector, t: Trainer<M>, n: int, folds: seq<Fold>, st: CvState<M>)
    requires IsSplit(folds, |sel.sequences|)
    ensures var fs := FoldScores(sel, t, n, folds, 0);
      var after := FoldLoop(sel, t, n, folds, 0, st).scores;
      ComparedValue(AsWritten, st.scores, after) ==
        if fs != [] then Fin(fs[|fs| - 1])
        else if st.scores != [] then Fin(st.scores[|st.scores| - 1])
        else NegInf
  {
  }

  /** Two folds scoring -10 and -20 are compared as -20, not as their mean -15. */
  lemma CvLastFoldNotMean()
    ensures ComparedValue(AsWritten, [], [-10.0, -20.0]) == Fin(-20.0)
    ensures ComparedValue(Intended, [], [-10.0, -20.0]) == Fin(-15.0)
  {
    assert [-10.0, -20.0][0..] == [-10.0, -20.0];
    assert SumR([-10.0, -20.0]) == -30.0;
  }

  /** As intended, the value compared for a state count is the mean of its own
      fold scores (so it lies between their minimum and maximum), whatever
      earlier state counts scored, and -inf when no fold scored. */
  lemma CvIntendedValue<M>(sel: Selector, t: Trainer<M>, n: int, folds: seq<Fold>, st: CvState<M>, lo: real, hi: real)
    requires IsSplit(folds, |sel.sequences|)
    requires forall i :: 0 <= i < |FoldScores(sel, t, n, folds, 0)| ==> lo <= FoldScores(sel, t, n, folds, 0)[i] <= hi
    ensures var fs := FoldScores(sel, t, n, folds, 0);
      var v := ComparedValue(Intended, st.scores, FoldLoop(sel, t, n, folds, 0, st).scores);
      && (fs == [] ==> v == NegInf)
      && (fs != [] ==> v == Mean(fs) && v.Fin? && lo <= v.r <= hi)
  {
    var fs := FoldScores(sel, t, n, folds, 0);
    var after := FoldLoop(sel, t, n, folds, 0, st).scores;
    assert after[|st.scores|..] == fs;
    if fs != [] {
      MeanBounds(fs, lo, hi);
    }
  }

  /** When no state count's fit succeeds on the first training fold, no fold is
      ever scored, nothing is kept, and the fallback `base_model(n_constant)`
      fits on that training fold, not on the word's full view. */
  lemma CvFallbackOnFirstTrainFold<M>(sel: Selector, t: Trainer<M>, folds: seq<Fold>)
    requires |sel.sequences| >= NumSplits && IsSplit(folds, |sel.sequences|)
    requires sel.minN <= sel.maxN
    requires forall n :: sel.minN <= n <= sel.maxN ==>
      BaseModel(sel.(view := FoldView(sel.sequences, folds[0].train)), t, n).None?
    ensures var train := FoldView(sel.sequences, folds[0].train);
      CvSelect(sel, t, folds) == CvResult(BaseModel(sel.(view := train), t, sel.nConstant), sel.(view := train))
  {
    var train := FoldView(sel.sequences, folds[0].train);
    NoScoresSweep(sel, t, folds, sel.minN, CvState(sel.view, [], None));
  }

  lemma {:induction false} NoScoresSweep<M>(sel: Selector, t: Trainer<M>, folds: seq<Fold>, n: int, st: CvState<M>)
    requires |sel.sequences| >= NumSplits && IsSplit(folds, |sel.sequences|)
    requires n <= sel.maxN
    requires st.scores == []
    requires forall n' :: n <= n' <= sel.maxN ==>
      BaseModel(sel.(view := FoldView(sel.sequences, folds[0].train)), t, n').None?
    ensures CvSweep(AsWritten, sel, t, folds, n, st, Best(NegInf, None))
         == (Best(NegInf, None), CvState(FoldView(sel.sequences, folds[0].train), [], None))
    decreases sel.maxN - n
  {
    var train := FoldView(sel.sequences, folds[0].train);
    var b := Best(NegInf, None);
    assert BaseModel(sel.(view := train), t, n).None?;
    var st' := FoldLoop(sel, t, n, folds, 0, st);
    assert st' == CvState(train, [], None);
    assert !Lt(b.score, ComparedValue(AsWritten, st.scores, st'.scores));
    assert CvSweep(AsWritten, sel, t, folds, n, st, b) == CvSweep(AsWritten, sel, t, folds, n + 1, st', b);
    if n < sel.maxN {
      NoScoresSweep(sel, t, folds, n + 1, st');
    }
  }

  /** A trainer whose every fit fails makes CV equal to the constant selector (both `None`). */
  lemma CvAllFitsFail<M>(sel: Selector, t: Trainer<M>, folds: seq<Fold>)
    requires |sel.sequences| >= NumSplits ==> IsSplit(folds, |sel.sequences|)
    requires forall n, seed, x, l :: t.fit(n, seed, x, l).None?
    ensures CvSelect(sel, t, folds).model == ConstantSelect(sel, t) == None
  {
  }
}
