/** Concatenation of observation sequences into the (X, lengths) view that the
    sequence-model trainer consumes (`combine_sequences` and
    `create_hmmlearn_data` in asl_data.py). */
module Sequences {

  /** The combined view: every contributor's frames in order, and each one's length. */
  datatype Combined<T> = Combined(cat: seq<T>, lengths: seq<nat>)

  /** Sum of a list of lengths. */
  function Sum(xs: seq<nat>): nat
  {
    if xs == [] then 0 else Sum(xs[..|xs| - 1]) + xs[|xs| - 1]
  }

  lemma SumSnoc(xs: seq<nat>, x: nat)
    ensures Sum(xs + [x]) == Sum(xs) + x
  {
    assert (xs + [x])[..|xs|] == xs;
  }

  /** Position at which contributor `i` starts in the concatenation. */
  function Offset(lengths: seq<nat>, i: nat): nat
    requires i <= |lengths|
  {
    Sum(lengths[..i])
  }

  /** Reference flattening, defined from the front. */
  function Flatten<T>(seqs: seq<seq<T>>): seq<T>
  {
    if seqs == [] then [] else seqs[0] + Flatten(seqs[1..])
  }

  /** Combine, following the loop of `combine_sequences`: each sequence in turn
      is appended to the concatenation and its length to the length list. An
      empty sequence contributes a 0 entry. */
  function Combine<T>(seqs: seq<seq<T>>): (r: Combined<T>)
    ensures |r.lengths| == |seqs|
    ensures forall i :: 0 <= i < |seqs| ==> r.lengths[i] == |seqs[i]|
    ensures Sum(r.lengths) == |r.cat|
  {
    if seqs == [] then Combined([], [])
    else
      var prev := Combine(seqs[..|seqs| - 1]);
      var last := seqs[|seqs| - 1];
      SumSnoc(prev.lengths, |last|);
      Combined(prev.cat + last, prev.lengths + [|last|])
  }

  lemma {:induction false} FlattenSnoc<T>(seqs: seq<seq<T>>, s: seq<T>)
    ensures Flatten(seqs + [s]) == Flatten(seqs) + s
    decreases |seqs|
  {
    if seqs == [] {
      assert [s][1..] == [];
      assert Flatten([s]) == s + Flatten([]);
    } else {
      assert (seqs + [s])[0] == seqs[0];
      assert (seqs + [s])[1..] == seqs[1..] + [s];
      FlattenSnoc(seqs[1..], s);
    }
  }

  /** The concatenation is the input flattened in input order. */
  lemma {:induction false} CombineFlattens<T>(seqs: seq<seq<T>>)
    ensures Combine(seqs).cat == Flatten(seqs)
    decreases |seqs|
  {
    if seqs != [] {
      var init := seqs[..|seqs| - 1];
      CombineFlattens(init);
      FlattenSnoc(init, seqs[|seqs| - 1]);
      assert init + [seqs[|seqs| - 1]] == seqs;
    }
  }

  /** Sequence i occupies positions [Offset(i), Offset(i + 1)) of the concatenation. */
  lemma {:induction false} CombinePlacesEach<T>(seqs: seq<seq<T>>, i: nat)
    requires i < |seqs|
    ensures var r := Combine(seqs);
      && Offset(r.lengths, i + 1) == Offset(r.lengths, i) + |seqs[i]|
      && Offset(r.lengths, i + 1) <= |r.cat|
      && r.cat[Offset(r.lengths, i)..Offset(r.lengths, i + 1)] == seqs[i]
    decreases |seqs|
  {
    var r := Combine(seqs);
    var init := seqs[..|seqs| - 1];
    var prev := Combine(init);
    assert r.lengths == prev.lengths + [|seqs[|seqs| - 1]|];
    assert r.cat == prev.cat + seqs[|seqs| - 1];
    assert r.lengths[..i] == prev.lengths[..i];
    if i == |seqs| - 1 {
      assert r.lengths[..i] == prev.lengths;
      assert r.lengths[..i + 1] == r.lengths;
    } else {
      assert r.lengths[..i + 1] == prev.lengths[..i + 1];
      CombinePlacesEach(init, i);
      assert r.cat[Offset(r.lengths, i)..Offset(r.lengths, i + 1)]
          == prev.cat[Offset(prev.lengths, i)..Offset(prev.lengths, i + 1)];
    }
  }

  /** A single sequence combines to itself with the one length entry. */
  lemma CombineSingleton<T>(s: seq<T>)
    ensures Combine([s]) == Combined(s, [|s|])
  {
    CombineFlattens([s]);
    assert [s][1..] == [];
  }

  /** `create_hmmlearn_data`: the combined view of every key's sequences. */
  function CreateHmmData<K, T>(d: map<K, seq<seq<T>>>): (r: map<K, Combined<T>>)
    ensures r.Keys == d.Keys
    ensures forall k :: k in r ==> r[k] == Combine(d[k])
    ensures forall k :: k in r ==> |r[k].lengths| == |d[k]| && Sum(r[k].lengths) == |r[k].cat|
  {
    map k | k in d :: Combine(d[k])
  }
}
