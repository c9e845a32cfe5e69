/** The model-selection strategies of my_model_selectors.py: the shared fitting
    helper `ModelSelector.base_model`, and the `select()` of `SelectorConstant`,
    `SelectorBIC` and `SelectorDIC`, modelled as the code is written. The
    hmmlearn trainer is a pair of given functions. */
module ModelSelectors {
  import opened Wrappers
  import opened Sequences
  import opened Grouping
  import opened AslData
  import opened Scores
  import opened Sweep

  /** A combined (X, lengths) view. */
  type View = Combined<Frame>

  /** The sequence-model trainer. `fit(n, seed, X, lengths)` is
      `GaussianHMM(n_components=n, covariance_type="diag", n_iter=1000,
      random_state=seed).fit(X, lengths)`, `None` when that raises;
      `score(m, X, lengths)` is `m.score(X, lengths)`, `None` when that raises. */
  datatype Trainer<!M> = Trainer(
    fit: (int, int, seq<Frame>, seq<nat>) -> Option<M>,
    score: (M, seq<Frame>, seq<nat>) -> Option<real>)

  /** The constructor defaults of `ModelSelector.__init__`. */
  const DefaultNConstant: int := 3
  const DefaultMinN: int := 2
  const DefaultMaxN: int := 10
  const DefaultRandomState: int := 14

  /** The state of a `ModelSelector`; `view` is `(self.X, self.lengths)`. */
  datatype Selector = Selector(
    words: Groups<string, Sequence>,
    hwords: map<string, View>,
    thisWord: string,
    nConstant: int,
    minN: int,
    maxN: int,
    randomState: int,
    sequences: seq<Sequence>,
    view: View)

  /** `ModelSelector.__init__`: the word's own sequences and combined view are
      looked up in the two collections (a missing word raises `KeyError`). */
  function NewSelector(words: Groups<string, Sequence>, hwords: map<string, View>, thisWord: string,
                       nConstant: int, minN: int, maxN: int, randomState: int): (s: Selector)
    requires thisWord in words.data && thisWord in hwords
    ensures s.sequences == words.data[thisWord]
    ensures s.view == hwords[thisWord]
    ensures s.words == words && s.hwords == hwords && s.thisWord == thisWord
    ensures s.nConstant == nConstant && s.minN == minN && s.maxN == maxN && s.randomState == randomState
    ensures hwords == CreateHmmData(words.data) ==> s.view == Combine(s.sequences)
  {
    Selector(words, hwords, thisWord, nConstant, minN, maxN, randomState, words.data[thisWord], hwords[thisWord])
  }

  /** A selector built from the training `WordsData` for a word of its CSV rows
      holds that word's row sequences in row order, and its view is their
      concatenation with one length per sequence. */
  lemma SelectorOfTrainingWord(table: FrameLookup, rows: seq<Row>, features: seq<string>, word: string,
                               nConstant: int, minN: int, maxN: int, randomState: int)
    requires exists i :: 0 <= i < |rows| && rows[i].word == word
    ensures var wd := MakeWordsData(table, rows, features);
      var s := NewSelector(wd.data, wd.hmmData, word, nConstant, minN, maxN, randomState);
      && s.sequences == ValuesOf(WordItems(table, rows, features), word)
      && s.view.cat == Flatten(s.sequences)
      && |s.view.lengths| == |s.sequences|
      && (forall i :: 0 <= i < |s.sequences| ==> s.view.lengths[i] == |s.sequences[i]|)
  {
    var wd := MakeWordsData(table, rows, features);
    WordsDataGrouping(table, rows, features);
    CombineFlattens(wd.data.data[word]);
  }

  /** `base_model(n)`: fit on the selector's current view with its seed; any
      exception is caught and becomes `None`, so nothing propagates. */
  function BaseModel<M>(sel: Selector, t: Trainer<M>, n: int): Option<M>
  {
    t.fit(n, sel.randomState, sel.view.cat, sel.view.lengths)
  }

  /** `base_model` depends on nothing of the selector but its seed and current view. */
  lemma BaseModelDependsOnView<M>(a: Selector, b: Selector, t: Trainer<M>, n: int)
    requires a.view == b.view && a.randomState == b.randomState
    ensures BaseModel(a, t, n) == BaseModel(b, t, n)
  {
  }

  /** `SelectorConstant.select()`. */
  function ConstantSelect<M>(sel: Selector, t: Trainer<M>): Option<M>
  {
    BaseModel(sel, t, sel.nConstant)
  }

  // ---------------------------------------------------------------- BIC

  /** Free parameters of a diagonal Gaussian HMM with n states and f features, as the loop computes it. */
  function ParamCount(n: int, f: int): int
  {
    n * n + 2 * f * n - 1
  }

  /** n(n-1) transition + (n-1) start + nf mean + nf variance parameters. */
  lemma ParamCountIsSum(n: int, f: int)
    ensures ParamCount(n, f) == n * (n - 1) + (n - 1) + n * f + n * f
  {
  }

  /** BIC = -2 logL + p ln N. */
  function BicScore(logL: real, n: int, f: int, lnN: real): real
  {
    -2.0 * logL + (ParamCount(n, f) as real) * lnN
  }

  /** One iteration of the BIC loop as written: its first statement builds
      `GaussianHMM(n_components=num_states, ...)`, and `num_states` is not bound
      in `select`, so a `NameError` is raised before the trainer is called;
      `except Exception: continue` turns it into a skip. */
  function BicEvalAsWritten<M>(sel: Selector, t: Trainer<M>, n: int): Eval<M>
  {
    Skip
  }

  /** `SelectorBIC.select()` as written. `N, features_num = self.X.shape` raises
      (outside the `try`) when X is empty; otherwise the loop over
      range(min_n, max_n) runs from (+inf, None), and `None` falls back. */
  function BicSelect<M>(sel: Selector, t: Trainer<M>): Completion<Option<M>>
  {
    if |sel.view.cat| == 0 then Raised
    else
      match Run(Minimize, Evals(n => BicEvalAsWritten(sel, t, n), sel.minN, sel.maxN), Best(PosInf, None))
      case Raised => Raised
      case Returned(b) => Returned(if b.model.Some? then b.model else ConstantSelect(sel, t))
  }

  /** As written, BIC never keeps a candidate: on a non-empty view it is exactly
      the constant selector, and on an empty view it raises. */
  lemma BicSelectFallsBack<M>(sel: Selector, t: Trainer<M>)
    ensures BicSelect(sel, t) == if |sel.view.cat| == 0 then Raised else Returned(ConstantSelect(sel, t))
  {
    RunOverRange(Minimize, n => BicEvalAsWritten(sel, t, n), sel.minN, sel.maxN, PosInf);
  }

  /** Number of feature columns of a view (`features_num`). */
  function FeatureCount(v: View): nat
  {
    if |v.cat| == 0 then 0 else |v.cat[0]|
  }

  /** One iteration of the BIC loop as evidently intended (`components_num` in
      place of `num_states`): a failed fit or a failed score skips n. */
  function BicEval<M>(sel: Selector, t: Trainer<M>, lnN: real, n: int): (e: Eval<M>)
    ensures !e.Stop? && !e.Raise?
    ensures e.Skip? <==>
      (BaseModel(sel, t, n).None? || t.score(BaseModel(sel, t, n).value, sel.view.cat, sel.view.lengths).None?)
    ensures e.Candidate? ==>
      && BaseModel(sel, t, n) == Some(e.model)
      && e.value == Fin(-2.0 * t.score(e.model, sel.view.cat, sel.view.lengths).value
                        + ParamCount(n, FeatureCount(sel.view)) as real * lnN)
  {
    match BaseModel(sel, t, n)
    case None => Skip
    case Some(m) =>
      match t.score(m, sel.view.cat, sel.view.lengths)
      case None => Skip
      case Some(logL) => Candidate(Fin(BicScore(logL, n, FeatureCount(sel.view), lnN)), m)
  }

  /** The intended BIC loop body as a function of n. */
  function BicLoop<M>(sel: Selector, t: Trainer<M>, lnN: real): int -> Eval<M>
  {
    n => BicEval(sel, t, lnN, n)
  }

  /** `SelectorBIC.select()` with the unbound name corrected; `lnN` is `np.log(N)`. */
  function BicIntended<M>(sel: Selector, t: Trainer<M>, lnN: real): Completion<Option<M>>
  {
    if |sel.view.cat| == 0 then Raised
    else
      match Run(Minimize, Evals(BicLoop(sel, t, lnN), sel.minN, sel.maxN), Best(PosInf, None))
      case Raised => Raised
      case Returned(b) => Returned(if b.model.Some? then b.model else ConstantSelect(sel, t))
  }

  /** The intended BIC returns the model of the lowest score, keeping the lowest
      n on ties, and falls back to the constant selector when no n was scored. */
  lemma BicIntendedIsArgmin<M>(sel: Selector, t: Trainer<M>, lnN: real)
    requires |sel.view.cat| > 0
    ensures BicIntended(sel, t, lnN).Returned?
    ensures (forall n :: sel.minN <= n < sel.maxN ==> BicEval(sel, t, lnN, n).Skip?) ==>
      BicIntended(sel, t, lnN).value == ConstantSelect(sel, t)
    ensures (exists n :: sel.minN <= n < sel.maxN && BicEval(sel, t, lnN, n).Candidate?) ==>
      exists n, m :: IsChoice(Minimize, BicLoop(sel, t, lnN), sel.minN, sel.maxN, PosInf, n, m) &&
                     BicIntended(sel, t, lnN).value == Some(m)
  {
    var e := BicLoop(sel, t, lnN);
    RunOverRange(Minimize, e, sel.minN, sel.maxN, PosInf);
    assert HaltAt(e, sel.minN, sel.maxN) == sel.minN + Span(sel.minN, sel.maxN);
    if exists n :: sel.minN <= n < sel.maxN && BicEval(sel, t, lnN, n).Candidate? {
      var n :| sel.minN <= n < sel.maxN && BicEval(sel, t, lnN, n).Candidate?;
      assert e(n).Candidate? && Better(Minimize, e(n).value, PosInf);
    }
  }

  /** A word with two features, candidates n = 2 and 3 (range(2, 4)), fits that
      always succeed, and log-likelihoods -50 for n = 2 and -45 for n = 3:
      p is 11 and 20, the BIC scores are 100 + 11 ln N and 90 + 20 ln N, and
      once ln N > 10/9 the intended loop keeps n = 2. As written, BIC returns
      the n_constant = 3 model instead. */
  lemma BicTwoCandidates(sel: Selector, t: Trainer<int>, lnN: real)
    requires |sel.view.cat| > 0 && FeatureCount(sel.view) == 2
    requires sel.minN == 2 && sel.maxN == 4 && sel.nConstant == 3
    requires forall n, seed, x, l :: t.fit(n, seed, x, l) == Some(n)
    requires t.score(2, sel.view.cat, sel.view.lengths) == Some(-50.0)
    requires t.score(3, sel.view.cat, sel.view.lengths) == Some(-45.0)
    requires 9.0 * lnN > 10.0
    ensures ParamCount(2, 2) == 11 && ParamCount(3, 2) == 20
    ensures BicEval(sel, t, lnN, 2) == Candidate(Fin(100.0 + 11.0 * lnN), 2)
    ensures BicEval(sel, t, lnN, 3) == Candidate(Fin(90.0 + 20.0 * lnN), 3)
    ensures BicIntended(sel, t, lnN) == Returned(Some(2))
    ensures BicSelect(sel, t) == Returned(Some(3))
  {
    var evals := Evals(BicLoop(sel, t, lnN), sel.minN, sel.maxN);
    assert evals == [BicEval(sel, t, lnN, 2), BicEval(sel, t, lnN, 3)];
    assert evals[1..] == [BicEval(sel, t, lnN, 3)];
    var b2 := Best(Fin(100.0 + 11.0 * lnN), Some(2));
    assert Better(Minimize, Fin(100.0 + 11.0 * lnN), PosInf);
    assert Run(Minimize, evals, Best(PosInf, None)) == Run(Minimize, evals[1..], b2);
    assert !Better(Minimize, Fin(90.0 + 20.0 * lnN), b2.score);
    assert Run(Minimize, evals[1..], b2) == Run(Minimize, evals[1..][1..], b2);
    assert evals[1..][1..] == [];
    BicSelectFallsBack(sel, t);
  }

  // ---------------------------------------------------------------- DIC

  /** `for word in self.words: if word != self.this_word`: every other key, in key order. */
  function OtherWords(order: seq<string>, thisWord: string): (r: seq<string>)
    ensures forall w :: w in r <==> w in order && w != thisWord
    ensures thisWord !in order ==> r == order
    ensures Distinct(order) && thisWord in order ==> |r| + 1 == |order|
  {
    if order == [] then []
    else
      var rest := OtherWords(order[1..], thisWord);
      assert Distinct(order) ==> Distinct(order[1..]) by {
        if Distinct(order) {
          forall i, j | 0 <= i < j < |order[1..]| ensures order[1..][i] != order[1..][j] {
            assert order[1..][i] == order[i + 1] && order[1..][j] == order[j + 1];
          }
        }
      }
      assert Distinct(order) && order[0] == thisWord ==> thisWord !in order[1..] by {
        if Distinct(order) && order[0] == thisWord {
          forall j | 0 <= j < |order[1..]| ensures order[1..][j] != thisWord {
            assert order[1..][j] == order[j + 1];
          }
        }
      }
      assert order == [order[0]] + order[1..];
      if order[0] == thisWord then rest else [order[0]] + rest
  }

  /** `other_words`: the combined view of every other word, in key order. */
  function OtherViews(sel: Selector): seq<View>
    requires forall w :: w in sel.words.order ==> w in sel.hwords
  {
    var others := OtherWords(sel.words.order, sel.thisWord);
    seq(|others|, i requires 0 <= i < |others| => sel.hwords[others[i]])
  }

  /** `[model.score(X, lengths) for (X, lengths) in views]`; `None` when any score raises. */
  function ScoreAll<M>(t: Trainer<M>, m: M, views: seq<View>): (r: Option<seq<real>>)
    ensures r.Some? <==> forall i :: 0 <= i < |views| ==> t.score(m, views[i].cat, views[i].lengths).Some?
    ensures r.Some? ==> |r.value| == |views|
    ensures r.Some? ==> forall i :: 0 <= i < |views| ==> t.score(m, views[i].cat, views[i].lengths) == Some(r.value[i])
  {
    if views == [] then Some([])
    else
      match t.score(m, views[0].cat, views[0].lengths)
      case None => None
      case Some(l) =>
        var rest := ScoreAll(t, m, views[1..]);
        assert forall i :: 0 < i < |views| ==> views[i] == views[1..][i - 1];
        if rest.None? then None else Some([l] + rest.value)
  }

  /** DIC = logL - mean(other words' logL); NaN when there is no other word. */
  function DicScore(logL: real, others: seq<real>): (r: Score)
    ensures r.NaN? <==> others == []
    ensures others != [] ==> r.Fin? && (logL - r.r) * |others| as real == SumR(others)
  {
    match Mean(others)
    case Fin(mu) => Fin(logL - mu)
    case _ => NaN
  }

  /** Holding logL fixed, a lower mean over the other words never lowers DIC. */
  lemma DicScoreMonotone(logL: real, a: seq<real>, b: seq<real>)
    requires a != [] && b != [] && Mean(a).r <= Mean(b).r
    ensures DicScore(logL, b).r <= DicScore(logL, a).r
  {
  }

  /** One iteration of the DIC loop: a failed fit leaves `model` as `None`, so
      `model.score` raises too; either failure is caught and breaks the loop.
      Scoring the other words is outside the `try`, so a failure there escapes. */
  function DicEval<M>(sel: Selector, t: Trainer<M>, others: seq<View>, n: int): (e: Eval<M>)
    ensures !e.Skip?
    ensures e.Stop? <==>
      (BaseModel(sel, t, n).None? || t.score(BaseModel(sel, t, n).value, sel.view.cat, sel.view.lengths).None?)
    ensures e.Raise? <==> !e.Stop? && ScoreAll(t, BaseModel(sel, t, n).value, others).None?
    ensures e.Candidate? ==>
      && BaseModel(sel, t, n) == Some(e.model)
      && e.value == DicScore(t.score(e.model, sel.view.cat, sel.view.lengths).value,
                             ScoreAll(t, e.model, others).value)
    ensures e.Candidate? ==> (e.value.Fin? <==> others != [])
  {
    match BaseModel(sel, t, n)
    case None => Stop
    case Some(m) =>
      match t.score(m, sel.view.cat, sel.view.lengths)
      case None => Stop
      case Some(logL) =>
        match ScoreAll(t, m, others)
        case None => Raise
        case Some(ls) => Candidate(DicScore(logL, ls), m)
  }

  /** The DIC loop body as a function of n. */
  function DicLoop<M>(sel: Selector, t: Trainer<M>, others: seq<View>): int -> Eval<M>
  {
    n => DicEval(sel, t, others, n)
  }

  /** `SelectorDIC.select()`: the loop over range(min_n, max_n) from (-inf, None),
      then the constant selector if nothing was kept. */
  function DicSelect<M>(sel: Selector, t: Trainer<M>): Completion<Option<M>>
    requires forall w :: w in sel.words.order ==> w in sel.hwords
  {
    match Run(Maximize, Evals(DicLoop(sel, t, OtherViews(sel)), sel.minN, sel.maxN), Best(NegInf, None))
    case Raised => Raised
    case Returned(b) => Returned(if b.model.Some? then b.model else ConstantSelect(sel, t))
  }

  /** DIC stops at the first n whose fit or own score fails (`h` below); it
      raises exactly when scoring another word raises at that n; if the first
      n already stops it is the constant selector; otherwise, with at least one
      other word, it returns the model of the highest DIC among the n tried,
      keeping the earliest on ties. */
  lemma DicSelectIsArgmax<M>(sel: Selector, t: Trainer<M>)
    requires forall w :: w in sel.words.order ==> w in sel.hwords
    ensures var others := OtherViews(sel);
      var e := DicLoop(sel, t, others);
      var h := HaltAt(e, sel.minN, sel.maxN);
      var r := DicSelect(sel, t);
      && (r.Raised? <==> h < sel.maxN && DicEval(sel, t, others, h).Raise?)
      && (r.Returned? && h == sel.minN ==> r.value == ConstantSelect(sel, t))
      && (r.Returned? && h > sel.minN && others != [] ==>
            exists n, m :: IsChoice(Maximize, e, sel.minN, sel.maxN, NegInf, n, m) && r.value == Some(m))
  {
    var others := OtherViews(sel);
    var e := DicLoop(sel, t, others);
    RunOverRange(Maximize, e, sel.minN, sel.maxN, NegInf);
    var h := HaltAt(e, sel.minN, sel.maxN);
    if h > sel.minN && others != [] {
      assert e(sel.minN).Candidate? && e(sel.minN).value.Fin?;
    }
  }

  /** A trainer that fails every fit in the sweep makes DIC the constant selector. */
  lemma DicAllFitsFail<M>(sel: Selector, t: Trainer<M>)
    requires forall w :: w in sel.words.order ==> w in sel.hwords
    requires forall n :: sel.minN <= n < sel.maxN ==> BaseModel(sel, t, n).None?
    ensures DicSelect(sel, t) == Returned(ConstantSelect(sel, t))
  {
    var e := DicLoop(sel, t, OtherViews(sel));
    RunOverRange(Maximize, e, sel.minN, sel.maxN, NegInf);
    if sel.minN < sel.maxN {
      assert e(sel.minN).Stop?;
    }
  }

  /** With no other word, `np.mean([])` is NaN, NaN > best is false, nothing is
      kept, and DIC is the constant selector. */
  lemma DicNoOtherWords<M>(sel: Selector, t: Trainer<M>)
    requires forall w :: w in sel.words.order ==> w in sel.hwords
    requires OtherViews(sel) == []
    ensures DicSelect(sel, t) == Returned(ConstantSelect(sel, t))
  {
    RunOverRange(Maximize, DicLoop(sel, t, []), sel.minN, sel.maxN, NegInf);
  }
}
