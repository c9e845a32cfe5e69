# ASL recognizer: sequence assembly and HMM state-count selection

This project models two pieces of the ASL word recognizer in Dafny.

1. **Sequence assembly** (`asl_data.py`). Each CSV row names a video, a word and an inclusive frame range. Its frames are sampled into one observation sequence. `WordsData` groups the sequences by word in an insertion-ordered dict. `SinglesData` gives every row index its own entry. `combine_sequences` / `create_hmmlearn_data` turn a list of sequences into the `(X, lengths)` view the HMM trainer consumes.
2. **Model selection** (`my_model_selectors.py`). `ModelSelector.base_model` fits a Gaussian HMM for one state count and turns any exception into `None`. Four `select()` strategies (Constant, BIC, DIC, CV) choose a state count. They are modelled **as the code is written**, including its defects. Separately labelled "intended" variants show the evidently meant behaviour.

Modules (one per file):

- `Wrappers`: `Option`.
- `Sequences`: the combined view, `Combine`, `CreateHmmData`.
- `Grouping`: a Python dict of lists as `Groups(order, data)`, filled item by item.
- `AslData`: frame ranges, samples, row sequences, `WordsData`, `SinglesData`.
- `Scores`: the float values compared: finite, `-inf`, `+inf`, and NaN (every comparison with NaN is false). Also `np.mean`.
- `Sweep`: the BIC/DIC loop over `range(min_n, max_n)` with a strict comparison. An iteration can skip (`continue`), stop (`break`), raise, or produce a scored candidate. Proved: the loop keeps the argbest before the first stop, and the earliest candidate wins a tie.
- `ModelSelectors`: selector state, `BaseModel`, Constant, BIC (as written and intended), DIC.
- `CrossValidation`: CV with the fold split given. `self.X` is overwritten in place and `scores` is never reset.

The trainer is a value `Trainer(fit, score)` of two given functions:

- `fit(n, seed, X, lengths)` is `None` when `GaussianHMM(...).fit` raises.
- `score(m, X, lengths)` is `None` when `m.score` raises.

An exception that escapes `select()` is the `Raised` outcome of `Completion`. This covers BIC's `self.X.shape` unpack on an empty X, and DIC scoring another word.

Behaviour of the code that the class docstrings do not spell out, modelled as written:

- `select()` can raise. BIC raises on an empty view, from the `self.X.shape` unpack at my_model_selectors.py:105. DIC raises when scoring another word fails, because line 175 is outside the `try`.
- BIC as written never scores any candidate (Findings).
- CV compares the last fold score, not the fold average (Findings).
- CV may keep a `None`. That happens when a state count's first fold scores, its second fit fails, and the value it compares is still the best so far. Such a `None` blocks later fitted models with lower values, and `select()` then falls back (`CvRunIsArgmax`).
- CV's fallback calls `base_model(n_constant)` on the view the sweep left behind. After a sweep that view is a training fold, not the word's full data (`CvFallbackOnFirstTrainFold`). CV equals the Constant selector on the full view when there are too few sequences or the range is empty (`CvTooFewSequences`, `CvRun`). It also gives the Constant selector's `None` when every fit fails (`CvAllFitsFail`).
- DIC with no other word takes `np.mean([])`, which is NaN. Nothing is kept and DIC falls back (`DicNoOtherWords`).

## Model

| member | source | states |
|---|---|---|
| Sequences.Combine | term_1/P5-AIND-Recognizer-Adam_Liu/asl_data.py:322-330 | one length entry per input sequence, entry i is the length of sequence i (an empty sequence gives a 0 entry), and the lengths sum to the length of the concatenation; no sequences give ([], []) |
| Sequences.CombineFlattens | term_1/P5-AIND-Recognizer-Adam_Liu/asl_data.py:326-328 | the concatenation is the input sequences flattened in input order (against an independent front-to-back flattening) |
| Sequences.CombinePlacesEach | term_1/P5-AIND-Recognizer-Adam_Liu/asl_data.py:326-329 | sequence i occupies exactly positions [sum(lengths[..i]), sum(lengths[..i+1])) of the concatenation |
| Sequences.CombineSingleton | term_1/P5-AIND-Recognizer-Adam_Liu/asl_data.py:322-330 | a lone sequence combines to itself with the single length entry |
| Sequences.CreateHmmData | term_1/P5-AIND-Recognizer-Adam_Liu/asl_data.py:333-339 | the result has exactly the input's keys, and each value is the combined view of that key's sequences |
| AslData.FrameRange | term_1/P5-AIND-Recognizer-Adam_Liu/asl_data.py:122 | `range(start, end + 1)` has max(0, end - start + 1) frame numbers, the k-th being start + k |
| AslData.BuildSequence | term_1/P5-AIND-Recognizer-Adam_Liu/asl_data.py:120-128 | with features, one sample per frame in frame order; with an empty feature list every sample is skipped and the sequence is empty |
| AslData.RowSequenceShape | term_1/P5-AIND-Recognizer-Adam_Liu/asl_data.py:120-128 | a row's sequence has max(0, endframe - startframe + 1) frames of the row's video, each with one value per feature; none when the feature list is empty |
| Grouping.GroupAll | term_1/P5-AIND-Recognizer-Adam_Liu/asl_data.py:130-133 | the dict lists each key once, lists exactly its keys, and its keys are exactly the keys carried by the items |
| Grouping.GroupAllValues | term_1/P5-AIND-Recognizer-Adam_Liu/asl_data.py:130-133 | each key's list is the values of the items with that key in item order (a new key starts a singleton list) |
| Grouping.GroupAllOrder | term_1/P5-AIND-Recognizer-Adam_Liu/asl_data.py:116-133 | keys are listed in the order of their first item |
| Grouping.GroupAllTotal | term_1/P5-AIND-Recognizer-Adam_Liu/asl_data.py:116-133 | the lists together hold exactly one value per item |
| Grouping.CardOfValid | term_1/P5-AIND-Recognizer-Adam_Liu/asl_data.py:96-97 | the dict's size (`len(self._data)`) equals the length of its key list |
| Grouping.DistinctKeysSingletons | term_1/P5-AIND-Recognizer-Adam_Liu/asl_data.py:238-241 | when no key repeats, each key's list is its own item's value alone |
| Grouping.IndexedGroups | term_1/P5-AIND-Recognizer-Adam_Liu/asl_data.py:230-241 | grouping values under their own indices yields keys exactly 0..n-1, each holding only its own value, and n entries |
| AslData.MakeWordsData | term_1/P5-AIND-Recognizer-Adam_Liu/asl_data.py:93-98 | `words` is the dict's key list, `num_items` is the key count, the keys are exactly the words of the rows, and the combined views cover exactly those keys |
| AslData.WordsDataGrouping | term_1/P5-AIND-Recognizer-Adam_Liu/asl_data.py:111-135 | each word holds its rows' sequences in row order, words are listed by first appearance, and the total number of sequences equals the number of rows |
| AslData.MakeSinglesData | term_1/P5-AIND-Recognizer-Adam_Liu/asl_data.py:203-210 | `wordlist` is the rows' words in row order, and the combined views cover exactly the item keys |
| AslData.SinglesDataShape | term_1/P5-AIND-Recognizer-Adam_Liu/asl_data.py:226-242 | keys are exactly the row indices 0..len-1, each holds its own row's sequence alone, every item's lengths list has exactly one entry, and `num_items` equals the row count |
| ModelSelectors.NewSelector | term_1/P5-AIND-Recognizer-Adam_Liu/my_model_selectors.py:16-28 | the selector's sequences and current view are the word's own entries of the two collections; when the views were built by `create_hmmlearn_data` from the sequences, the current view is the combination of the word's own sequences |
| ModelSelectors.SelectorOfTrainingWord | term_1/P5-AIND-Recognizer-Adam_Liu/my_model_selectors.py:27-28 | for a word of the training rows, the selector built from `WordsData` holds that word's row sequences in row order, and X is their concatenation with one length per sequence |
| ModelSelectors.BaseModelDependsOnView | term_1/P5-AIND-Recognizer-Adam_Liu/my_model_selectors.py:35-54 | `base_model(n)` is determined by n, the seed and the current view alone; any failure is `None`, never an exception |
| ModelSelectors.ParamCountIsSum | term_1/P5-AIND-Recognizer-Adam_Liu/my_model_selectors.py:81-88 | the parameter count n² + 2fn - 1 of line 124 equals the documented sum n(n-1) + (n-1) + nf + nf |
| ModelSelectors.BicSelectFallsBack | term_1/P5-AIND-Recognizer-Adam_Liu/my_model_selectors.py:104-139 | as written, every iteration fails on the unbound `num_states` and continues, so BIC equals the Constant selector on a non-empty view and raises on an empty one |
| ModelSelectors.BicEval | term_1/P5-AIND-Recognizer-Adam_Liu/my_model_selectors.py:110-133 | an intended BIC iteration never breaks or raises; it skips exactly when the fit or the own-data score fails; otherwise its candidate is the fitted model with score -2 logL + p ln N, p = n² + 2fn - 1 |
| ModelSelectors.BicIntendedIsArgmin | term_1/P5-AIND-Recognizer-Adam_Liu/my_model_selectors.py:104-139 | intended BIC returns the model with the lowest score (strict `<` from +inf, the lowest n wins a tie) and falls back to Constant when no n was scored |
| ModelSelectors.BicTwoCandidates | term_1/P5-AIND-Recognizer-Adam_Liu/my_model_selectors.py:120-130 | with logL -50 at n = 2 and -45 at n = 3, two features and ln N > 10/9: p = 11 and 20, intended BIC picks n = 2, and as written BIC returns the n_constant = 3 model |
| ModelSelectors.OtherWords | term_1/P5-AIND-Recognizer-Adam_Liu/my_model_selectors.py:159-164 | the other words are every key except `this_word`, and there is one fewer of them than keys when `this_word` is a key |
| ModelSelectors.ScoreAll | term_1/P5-AIND-Recognizer-Adam_Liu/my_model_selectors.py:175 | the other words' scores, one per view, present exactly when no score raises |
| ModelSelectors.DicScore | term_1/P5-AIND-Recognizer-Adam_Liu/my_model_selectors.py:177 | DIC is NaN exactly when there is no other score; otherwise it is finite and (logL - DIC) times the number of other scores is their sum, so DIC is logL minus their mean |
| ModelSelectors.DicScoreMonotone | term_1/P5-AIND-Recognizer-Adam_Liu/my_model_selectors.py:177 | holding logL fixed, a lower mean of the other words' scores never lowers DIC |
| ModelSelectors.DicEval | term_1/P5-AIND-Recognizer-Adam_Liu/my_model_selectors.py:169-181 | a DIC iteration never skips; it breaks exactly when the fit or the own-data score fails; otherwise it raises exactly when scoring some other word fails; a candidate is the fitted model with the DIC of its own score and the other words' scores, finite exactly when another word exists |
| ModelSelectors.DicSelectIsArgmax | term_1/P5-AIND-Recognizer-Adam_Liu/my_model_selectors.py:156-186 | DIC raises exactly when scoring another word raises before the first break; if the first n breaks it equals Constant; otherwise (with another word) it returns the argmax over the n tried before the break, the earliest winning ties |
| ModelSelectors.DicAllFitsFail | term_1/P5-AIND-Recognizer-Adam_Liu/my_model_selectors.py:167-186 | when every fit in the sweep fails, DIC equals the Constant selector |
| ModelSelectors.DicNoOtherWords | term_1/P5-AIND-Recognizer-Adam_Liu/my_model_selectors.py:175-186 | with no other word the mean is NaN, nothing is kept, and DIC equals the Constant selector |
| Scores.Mean | term_1/P5-AIND-Recognizer-Adam_Liu/my_model_selectors.py:177 | `np.mean` is NaN exactly for an empty list; otherwise it is finite and times the count gives the sum |
| Sweep.Halt | term_1/P5-AIND-Recognizer-Adam_Liu/my_model_selectors.py:169-173 | the loop ends at the first iteration that breaks or raises: none before it does |
| Sweep.HaltAt | term_1/P5-AIND-Recognizer-Adam_Liu/my_model_selectors.py:167-173 | the same, stated over the state counts of `range(min_n, max_n)` |
| Sweep.RunSpec | term_1/P5-AIND-Recognizer-Adam_Liu/my_model_selectors.py:179-181 | the strict-comparison loop raises exactly when its first halting iteration raises; otherwise it keeps its running best when no candidate before the halt improves on it, and else keeps the winner: the candidate that improves on every earlier improving one and is not beaten by any later one |
| Sweep.RunFromScratch | term_1/P5-AIND-Recognizer-Adam_Liu/my_model_selectors.py:160-186 | from `best_model = None`: nothing is kept exactly when no candidate before the end beats the start value, and a kept model is the winner's |
| Sweep.RunOverRange | term_1/P5-AIND-Recognizer-Adam_Liu/my_model_selectors.py:104-133 | the same, indexed by state count, for the BIC and DIC loops |
| CrossValidation.FoldLoop | term_1/P5-AIND-Recognizer-Adam_Liu/my_model_selectors.py:212-223 | the fold loop appends this n's fold scores to `scores`, and leaves `model` as the fit (possibly `None`) on the training view it leaves behind |
| CrossValidation.FoldLoopStops | term_1/P5-AIND-Recognizer-Adam_Liu/my_model_selectors.py:212-223 | the fold loop leaves the view at the training view of the first fold whose fit or score failed, or else of the last fold |
| CrossValidation.ComparedValue | term_1/P5-AIND-Recognizer-Adam_Liu/my_model_selectors.py:225 | the value compared is never NaN or +inf: a finite score or -inf |
| CrossValidation.CvSweep | term_1/P5-AIND-Recognizer-Adam_Liu/my_model_selectors.py:204-228 | the sweep breaks at once with fewer than two sequences; otherwise it ends on the training view where max_n's fold loop stopped; a newly kept model was fitted on a training fold |
| CrossValidation.CvSweepStep | term_1/P5-AIND-Recognizer-Adam_Liu/my_model_selectors.py:212-228 | one state count runs its fold loop, extends `scores` by its fold scores, and replaces the best exactly when its compared value is strictly greater, keeping its fold-loop model even when that is `None` |
| CrossValidation.CvSweepRuns | term_1/P5-AIND-Recognizer-Adam_Liu/my_model_selectors.py:204-228 | the CV sweep is the shared strict-maximum loop over range(n, max_n + 1), with every state count a candidate of its compared value and fold-loop model |
| CrossValidation.CvRun | term_1/P5-AIND-Recognizer-Adam_Liu/my_model_selectors.py:194-233 | select() changes only the selector's view; after a sweep it leaves the view at the training view where max_n's fold loop stopped; with too few sequences or an empty range it is the Constant selector on the full view; the result is a fold-fitted model or `base_model(n_constant)` on the final view |
| CrossValidation.CvRunIsArgmax | term_1/P5-AIND-Recognizer-Adam_Liu/my_model_selectors.py:201-233 | for either averaging, when every compared value is -inf CV falls back to `base_model(n_constant)` on the final view; otherwise CV returns the fold-loop model of the state count with the strictly highest compared value (the earliest on ties), or the fallback when that model is `None` |
| CrossValidation.CvTooFewSequences | term_1/P5-AIND-Recognizer-Adam_Liu/my_model_selectors.py:204-207 | with fewer than two sequences CV breaks before any fold, leaves the view untouched and equals the Constant selector |
| CrossValidation.CvAsWrittenValue | term_1/P5-AIND-Recognizer-Adam_Liu/my_model_selectors.py:225 | the value compared for n is the last fold score this n obtained, or else the last score of an earlier n (`scores` is never reset), or -inf |
| CrossValidation.CvLastFoldNotMean | term_1/P5-AIND-Recognizer-Adam_Liu/my_model_selectors.py:225 | folds scoring -10 and -20 are compared as -20 as written, and as their mean -15 as intended |
| CrossValidation.CvIntendedValue | term_1/P5-AIND-Recognizer-Adam_Liu/my_model_selectors.py:225 | as intended, the compared value is the mean of this n's own fold scores, between their bounds, independent of earlier n, and -inf with no fold scored |
| CrossValidation.CvFallbackOnFirstTrainFold | term_1/P5-AIND-Recognizer-Adam_Liu/my_model_selectors.py:215-233 | when no fit succeeds on the first training fold, CV falls back to `base_model(n_constant)` fitted on that training fold and leaves the view there |
| CrossValidation.CvAllFitsFail | term_1/P5-AIND-Recognizer-Adam_Liu/my_model_selectors.py:217-233 | when every fit fails, CV and the Constant selector both give `None` |

## Left out

- `AslDb.__init__`, the pandas CSV reading, `merge`, `set_index` and the `.ix` lookups (asl_data.py:43-48, 113, 205) are file I/O. The frame table is the parameter `FrameLookup`, and the CSV rows are a `seq<Row>`. The speaker column is not used by the modelled code.
- A frame missing from the table raises `KeyError` in the source; the `len(sample) > 0` guard does not catch it. `FrameLookup` is total, so this error path is not modelled.
- `SinglesData._load_sentence_word_indices` and `num_sentences` (asl_data.py:253-263) depend on pandas sort/pivot/transpose/fillna semantics, which are not modelled.
- The getters (`get_all_sequences`, `get_word_Xlengths`, ...) are plain field reads of the modelled data and have no members of their own.
- hmmlearn's `GaussianHMM` fitting and scoring are the given `fit`/`score` functions. `n_iter=1000` and `covariance_type="diag"` are folded into `fit`.
- sklearn's `KFold` shuffle is foreign and randomised. The folds are a parameter. Only two folds with in-range indices are required, not that they partition the indices.
- `asl_utils.combine_sequences(indices, sequences)` is not part of this model. `FoldView` assumes it concatenates the sequences at those indices, in index order.
- Floats are reals. `np.log(N)` is the parameter `lnN` of `BicIntended`. Of IEEE behaviour only ±inf and the NaN of `np.mean([])` are modelled.
- CV's `if best_model:` is taken as "is not `None`": a fitted `GaussianHMM` defines neither `__len__` nor `__bool__`, so it is truthy.
- CV reads `model` only after a fold loop has run, and the first fold of every fold loop assigns it, so its undefined start value is never read. The model starts it at `None`.
- ModelSelectors.NewSelector: requires `this_word` to be a key of both collections. A missing word raises `KeyError` at my_model_selectors.py:27-28, and that error path is not modelled.
- DIC looks up `self.hwords[word]` for every key. A missing key raises `KeyError`; `DicSelect` requires every key to have a view.
- `warnings.filterwarnings`, the verbose `print`s and the `__main__` block have no effect on the results.
- ModelSelectors.DicSelectIsArgmax: characterises the argmax only when at least one other word exists; the no-other-word case is `DicNoOtherWords`.

## Findings

| source | as written | input that shows it | evidently intended | confidence | as-written member | corrected member |
|---|---|---|---|---|---|---|
| term_1/P5-AIND-Recognizer-Adam_Liu/my_model_selectors.py:112 | `GaussianHMM(n_components=num_states, ...)` names a variable unbound in `SelectorBIC.select`; every iteration raises `NameError`, which `except Exception: continue` swallows | any word with a non-empty view; e.g. n = 2 scoring 100 + 11 ln N below n = 3 at 90 + 20 ln N, yet the n_constant = 3 model is returned | `n_components=components_num`, giving the argmin over BIC scores | not executed | ModelSelectors.BicSelectFallsBack | ModelSelectors.BicIntendedIsArgmin |
| term_1/P5-AIND-Recognizer-Adam_Liu/my_model_selectors.py:225 | `np.mean(logL)` averages the scalar score of the last fold, and `scores` is never reset between state counts | two folds scoring -10 and -20 are compared as -20 | the mean of the state count's own fold scores, -15 | not executed | CrossValidation.CvAsWrittenValue | CrossValidation.CvIntendedValue |
