/** Construction of the per-word and per-item sequence collections of
    asl_data.py (`WordsData` and `SinglesData`), with the pandas frame lookup
    replaced by an abstract table. */
module AslData {
  import opened Sequences
  import opened Grouping

  /** One frame's feature values. */
  type Frame = seq<real>

  /** The frames of one segmented word occurrence. */
  type Sequence = seq<Frame>

  /** `asl.df.ix[(video, frame)][feature]`: the value of one feature in one frame of one video. */
  type FrameLookup = (int, int, string) -> real

  /** One row of a words CSV file (`video,speaker,word,startframe,endframe`); the speaker is not used. */
  datatype Row = Row(video: int, word: string, startFrame: int, endFrame: int)

  /** Number of frames in the inclusive range [start, end]. */
  function FrameCount(start: int, end: int): nat
  {
    if end < start then 0 else end - start + 1
  }

  /** `range(start, end + 1)`: the frame numbers start, start + 1, ..., end. */
  function FrameRange(start: int, end: int): (r: seq<int>)
    ensures |r| == FrameCount(start, end)
    ensures forall k :: 0 <= k < |r| ==> r[k] == start + k
    decreases end - start + 1
  {
    if end < start then [] else FrameRange(start, end - 1) + [end]
  }

  /** `[asl.df.ix[vid_frame][f] for f in feature_list]`: the listed features of one frame, in list order. */
  function Sample(table: FrameLookup, video: int, frame: int, features: seq<string>): Frame
  {
    seq(|features|, j requires 0 <= j < |features| => table(video, frame, features[j]))
  }

  /** The inner frame loop of `_load_data`: each frame's sample is appended in
      frame order, unless the sample is empty (which happens exactly when the
      feature list is empty). */
  function BuildSequence(table: FrameLookup, video: int, frames: seq<int>, features: seq<string>): (r: Sequence)
    ensures |features| == 0 ==> r == []
    ensures |features| > 0 ==> |r| == |frames|
    ensures |features| > 0 ==> forall k :: 0 <= k < |r| ==> r[k] == Sample(table, video, frames[k], features)
  {
    if frames == [] then []
    else
      var prev := BuildSequence(table, video, frames[..|frames| - 1], features);
      var sample := Sample(table, video, frames[|frames| - 1], features);
      if |sample| > 0 then prev + [sample] else prev
  }

  /** The sequence of one row: its inclusive frame range, sampled. */
  function RowSequence(table: FrameLookup, row: Row, features: seq<string>): Sequence
  {
    BuildSequence(table, row.video, FrameRange(row.startFrame, row.endFrame), features)
  }

  /** A row's sequence has one frame per frame number in [startFrame, endFrame],
      each holding one value per feature; with no features it is empty. */
  lemma RowSequenceShape(table: FrameLookup, row: Row, features: seq<string>)
    ensures var r := RowSequence(table, row, features);
      && (|features| == 0 ==> r == [])
      && (|features| > 0 ==> |r| == FrameCount(row.startFrame, row.endFrame))
      && (|features| > 0 ==> forall k :: 0 <= k < |r| ==>
            r[k] == Sample(table, row.video, row.startFrame + k, features) && |r[k]| == |features|)
  {
  }

  /** Each row paired with its word, in row order. */
  function WordItems(table: FrameLookup, rows: seq<Row>, features: seq<string>): seq<(string, Sequence)>
  {
    seq(|rows|, i requires 0 <= i < |rows| => (rows[i].word, RowSequence(table, rows[i], features)))
  }

  lemma WordItemsOccurs(table: FrameLookup, rows: seq<Row>, features: seq<string>)
    ensures forall word :: Occurs(WordItems(table, rows, features), word) <==>
      exists i :: 0 <= i < |rows| && rows[i].word == word
  {
    var items := WordItems(table, rows, features);
    forall word ensures Occurs(items, word) <==> exists i :: 0 <= i < |rows| && rows[i].word == word {
      if exists i :: 0 <= i < |rows| && rows[i].word == word {
        var i :| 0 <= i < |rows| && rows[i].word == word;
        assert items[i].0 == word;
      }
    }
  }

  /** `WordsData`: the grouped sequences, the key count, the key list and the combined views. */
  datatype WordsData = WordsData(
    data: Groups<string, Sequence>,
    numItems: nat,
    words: seq<string>,
    hmmData: map<string, Combined<Frame>>)

  /** `WordsData.__init__` over the rows of a training CSV file. */
  function MakeWordsData(table: FrameLookup, rows: seq<Row>, features: seq<string>): (w: WordsData)
    ensures w.words == w.data.order
    ensures w.numItems == |w.words| == |w.data.data|
    ensures forall word :: word in w.data.data <==> exists i :: 0 <= i < |rows| && rows[i].word == word
    ensures w.hmmData.Keys == w.data.data.Keys
    ensures forall word :: word in w.hmmData ==> w.hmmData[word] == Combine(w.data.data[word])
  {
    var items := WordItems(table, rows, features);
    var d := GroupAll(items);
    CardOfValid(d);
    WordItemsOccurs(table, rows, features);
    WordsData(d, |d.data|, d.order, CreateHmmData(d.data))
  }

  /** Word grouping: each word's list holds the sequences of the rows with that
      word in row order (so a new word starts a singleton list), the words are
      listed in order of first appearance, and there is one sequence per row. */
  lemma WordsDataGrouping(table: FrameLookup, rows: seq<Row>, features: seq<string>)
    ensures var w := MakeWordsData(table, rows, features);
      var items := WordItems(table, rows, features);
      && (forall word :: word in w.data.data ==> w.data.data[word] == ValuesOf(items, word))
      && FirstAppearanceOrder(items, w.words)
      && TotalCount(w.words, w.data.data) == |rows|
  {
    var items := WordItems(table, rows, features);
    GroupAllValues(items);
    GroupAllOrder(items);
    GroupAllTotal(items);
  }

  /** `SinglesData`: the word of each row, the per-row collection, the combined views, the item count. */
  datatype SinglesData = SinglesData(
    wordlist: seq<string>,
    data: Groups<int, Sequence>,
    hmmData: map<int, Combined<Frame>>,
    numItems: nat)

  /** The sequence of every row, in row order. */
  function RowSequences(table: FrameLookup, rows: seq<Row>, features: seq<string>): seq<Sequence>
  {
    seq(|rows|, i requires 0 <= i < |rows| => RowSequence(table, rows[i], features))
  }

  /** `SinglesData.__init__` over the rows of a test CSV file: each row index is
      a key of its own (sentence indices not included). */
  function MakeSinglesData(table: FrameLookup, rows: seq<Row>, features: seq<string>): (s: SinglesData)
    ensures |s.wordlist| == |rows|
    ensures forall i :: 0 <= i < |rows| ==> s.wordlist[i] == rows[i].word
    ensures s.hmmData.Keys == s.data.data.Keys
  {
    var d := GroupAll(Indexed(RowSequences(table, rows, features)));
    SinglesData(seq(|rows|, i requires 0 <= i < |rows| => rows[i].word), d, CreateHmmData(d.data), |d.data|)
  }

  /** Every row index 0..|rows|-1 is a key, and nothing else; each maps to its
      row's sequence alone, so every item's lengths list has exactly one entry. */
  lemma SinglesDataShape(table: FrameLookup, rows: seq<Row>, features: seq<string>)
    ensures var s := MakeSinglesData(table, rows, features);
      && (forall k :: k in s.data.data <==> 0 <= k < |rows|)
      && s.numItems == |rows|
      && (forall i :: 0 <= i < |rows| ==>
            && s.data.data[i] == [RowSequence(table, rows[i], features)]
            && s.hmmData[i].lengths == [|RowSequence(table, rows[i], features)|]
            && s.hmmData[i].cat == RowSequence(table, rows[i], features))
  {
    var vals := RowSequences(table, rows, features);
    IndexedGroups(vals);
    forall i | 0 <= i < |rows| ensures Combine([vals[i]]) == Combined(vals[i], [|vals[i]|]) {
      CombineSingleton(vals[i]);
    }
  }
}
