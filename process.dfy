/**
 * The bookkeeping of process.py: reducing fragment scores to one score per
 * sequence (`to_sequence_prediction`), deriving the fields of each output
 * row (`append_predictions_to_csv`), and dropping already processed
 * sequences from the buffers (`get_new_fragments`).
 *
 * Scores are only compared, never combined, so they are modelled as reals.
 */
module Process {
  import opened SeqUtil

  /** An output row: id, probability, 1-based begin, end (or -1), fragment. */
  datatype Row = Row(id: string, prob: real, beg: int, end: int, frag: string)

  /** The window length the row's `end` is computed for (the literal 40 in the source). */
  const FullWindow: nat := 40

  /**
   * numpy's `argmax` on a non-empty vector: the first index holding the
   * largest value.
   */
  function ArgMax(s: seq<real>): (r: nat)
    requires |s| >= 1
    ensures r < |s|
    ensures forall j :: 0 <= j < |s| ==> s[j] <= s[r]
    ensures forall j :: 0 <= j < r ==> s[j] < s[r]
  {
    if |s| == 1 then 0
    else
      var m := ArgMax(s[..|s| - 1]);
      if s[|s| - 1] > s[m] then |s| - 1 else m
  }

  /** Every scope is non-empty and the scopes fit the vector they group. */
  predicate Grouping(scopes: seq<nat>, size: nat)
  {
    (forall k :: 0 <= k < |scopes| ==> scopes[k] >= 1) && Sum(scopes) <= size
  }

  /**
   * Group `k`'s reduction: `start` is the first index of the group's best
   * score, `score` that score and `frag` the fragment it belongs to.
   */
  ghost predicate BestOfGroup(fragmentsPrediction: seq<real>, frags: seq<string>, scopes: seq<nat>, k: nat,
                              score: real, frag: string, start: nat)
    requires Grouping(scopes, |fragmentsPrediction|) && Sum(scopes) <= |frags| && k < |scopes|
  {
    start < scopes[k] &&
    start == ArgMax(Group(fragmentsPrediction, scopes, k)) &&
    score == fragmentsPrediction[Offset(scopes, k) + start] &&
    frag == frags[Offset(scopes, k) + start]
  }

  /** The reduced score is the group's maximum, and no earlier fragment of the group reaches it. */
  lemma BestIsGroupMax(fragmentsPrediction: seq<real>, frags: seq<string>, scopes: seq<nat>, k: nat,
                       score: real, frag: string, start: nat)
    requires Grouping(scopes, |fragmentsPrediction|) && Sum(scopes) <= |frags| && k < |scopes|
    requires BestOfGroup(fragmentsPrediction, frags, scopes, k, score, frag, start)
    ensures forall j :: 0 <= j < scopes[k] ==>
      Group(fragmentsPrediction, scopes, k)[j] <= score &&
      (j < start ==> Group(fragmentsPrediction, scopes, k)[j] < score)
  {
    var g := Group(fragmentsPrediction, scopes, k);
    assert g[start] == score;
  }

  /**
   * `to_sequence_prediction`: walks the scopes with a running offset and,
   * in each group of fragment scores, picks the first best one.
   */
  method ToSequencePrediction(fragmentsPrediction: seq<real>, frags: seq<string>, scopes: seq<nat>)
    returns (pred: seq<real>, selectedFrags: seq<string>, startIndex: seq<nat>)
    requires Grouping(scopes, |fragmentsPrediction|) && Sum(scopes) <= |frags|
    ensures |pred| == |scopes| && |selectedFrags| == |scopes| && |startIndex| == |scopes|
    ensures forall k :: 0 <= k < |scopes| ==>
      BestOfGroup(fragmentsPrediction, frags, scopes, k, pred[k], selectedFrags[k], startIndex[k])
  {
    pred, selectedFrags, startIndex := [], [], [];
    var p := 0;
    for k := 0 to |scopes|
      invariant p == Offset(scopes, k)
      invariant |pred| == k && |selectedFrags| == k && |startIndex| == k
      invariant forall k' :: 0 <= k' < k ==>
        BestOfGroup(fragmentsPrediction, frags, scopes, k', pred[k'], selectedFrags[k'], startIndex[k'])
    {
      var ss := scopes[k];
      OffsetNext(scopes, k);
      var scopedFragsPred := fragmentsPrediction[p..p + ss];
      var maxPredIndex := ArgMax(scopedFragsPred);
      assert BestOfGroup(fragmentsPrediction, frags, scopes, k,
        scopedFragsPred[maxPredIndex], frags[p + maxPredIndex], maxPredIndex);
      pred := pred + [scopedFragsPred[maxPredIndex]];
      selectedFrags := selectedFrags + [frags[p + maxPredIndex]];
      startIndex := startIndex + [maxPredIndex];
      p := p + ss;
    }
  }

  /**
   * `append_predictions_to_csv`, with the rows returned instead of written:
   * one row per (id, scope) pair, stopping at the shorter list as `zip`
   * does; `beg` is the 1-based start of the best fragment and `end` its
   * inclusive end, or -1 when the fragment is shorter than a full window.
   */
  method AppendPredictionsToCsv(ids: seq<string>, fragmentsPrediction: seq<real>, frags: seq<string>, scopes: seq<nat>)
    returns (rows: seq<Row>)
    requires Grouping(scopes, |fragmentsPrediction|) && Sum(scopes) <= |frags|
    ensures |rows| == Min(|ids|, |scopes|)
    ensures forall k :: 0 <= k < |rows| ==>
      rows[k].id == ids[k] && rows[k].beg >= 1 &&
      BestOfGroup(fragmentsPrediction, frags, scopes, k, rows[k].prob, rows[k].frag, rows[k].beg - 1)
    ensures forall k :: 0 <= k < |rows| ==>
      (rows[k].end == -1 <==> |rows[k].frag| < FullWindow) &&
      (rows[k].end != -1 ==> rows[k].end == rows[k].beg + FullWindow - 1)
  {
    var pred, selectedFrags, startIndex := ToSequencePrediction(fragmentsPrediction, frags, scopes);
    rows := [];
    for k := 0 to Min(|ids|, |scopes|)
      invariant |rows| == k
      invariant forall k' :: 0 <= k' < k ==>
        rows[k'] == Row(ids[k'], pred[k'], startIndex[k'] + 1,
                        if |selectedFrags[k']| < FullWindow then -1 else startIndex[k'] + FullWindow,
                        selectedFrags[k'])
    {
      var f := selectedFrags[k];
      var endIndex: int;
      if |f| < FullWindow {
        endIndex := -1;
      } else {
        endIndex := startIndex[k] + FullWindow;
      }
      rows := rows + [Row(ids[k], pred[k], startIndex[k] + 1, endIndex, f)];
    }
  }

  /**
   * Indices, in ascending order, of the first `n` sequences whose id is not
   * in `processedIds`.
   */
  function KeptIndices(ids: seq<string>, processedIds: set<string>, n: nat): (r: seq<nat>)
    requires n <= |ids|
    ensures |r| <= n && forall j :: 0 <= j < |r| ==> r[j] < n
  {
    if n == 0 then []
    else KeptIndices(ids, processedIds, n - 1) + (if ids[n - 1] in processedIds then [] else [n - 1])
  }

  /** Only the sequences whose id is not yet processed are kept. */
  lemma {:induction false} KeptIndicesUnprocessed(ids: seq<string>, processedIds: set<string>, n: nat)
    requires n <= |ids|
    ensures forall j :: 0 <= j < |KeptIndices(ids, processedIds, n)| ==>
      ids[KeptIndices(ids, processedIds, n)[j]] !in processedIds
  {
    if n > 0 {
      KeptIndicesUnprocessed(ids, processedIds, n - 1);
    }
  }

  /** The kept indices are in ascending order. */
  lemma {:induction false} KeptIndicesAscending(ids: seq<string>, processedIds: set<string>, n: nat)
    requires n <= |ids|
    ensures forall i, j :: 0 <= i < j < |KeptIndices(ids, processedIds, n)| ==>
      KeptIndices(ids, processedIds, n)[i] < KeptIndices(ids, processedIds, n)[j]
  {
    if n > 0 {
      KeptIndicesAscending(ids, processedIds, n - 1);
    }
  }

  /** Every sequence whose id is not yet processed is kept. */
  lemma {:induction false} KeptIndicesComplete(ids: seq<string>, processedIds: set<string>, n: nat)
    requires n <= |ids|
    ensures forall k :: 0 <= k < n && ids[k] !in processedIds ==> k in KeptIndices(ids, processedIds, n)
  {
    if n > 0 {
      KeptIndicesComplete(ids, processedIds, n - 1);
      var prev, r := KeptIndices(ids, processedIds, n - 1), KeptIndices(ids, processedIds, n);
      assert forall k :: k in prev ==> k in r;
      if ids[n - 1] !in processedIds {
        assert r[|prev|] == n - 1;
      }
    }
  }

  lemma KeptIndicesNext(ids: seq<string>, processedIds: set<string>, k: nat)
    requires k < |ids|
    ensures KeptIndices(ids, processedIds, k + 1) ==
      KeptIndices(ids, processedIds, k) + (if ids[k] in processedIds then [] else [k])
  {
  }

  /** The (clamped) fragment slices of the groups at the given indices. */
  function GroupSlices(frags: seq<string>, scopes: seq<nat>, kept: seq<nat>): (r: seq<seq<string>>)
    requires forall j :: 0 <= j < |kept| ==> kept[j] < |scopes|
    ensures |r| == |kept|
  {
    seq(|kept|, j requires 0 <= j < |kept| =>
      Slice(frags, Offset(scopes, kept[j]), Offset(scopes, kept[j]) + scopes[kept[j]]))
  }

  lemma GroupSlicesSnoc(frags: seq<string>, scopes: seq<nat>, kept: seq<nat>, k: nat)
    requires forall j :: 0 <= j < |kept| ==> kept[j] < |scopes|
    requires k < |scopes|
    ensures GroupSlices(frags, scopes, kept + [k]) ==
      GroupSlices(frags, scopes, kept) + [Slice(frags, Offset(scopes, k), Offset(scopes, k) + scopes[k])]
  {
  }

  /**
   * The new buffers hold, in order, the id, the scope and the fragment
   * slice of each sequence listed in `kept`.
   */
  ghost predicate Filtered(ids: seq<string>, frags: seq<string>, scopes: seq<nat>, kept: seq<nat>,
                           newFrags: seq<string>, newScopes: seq<nat>, newIds: seq<string>)
    requires forall j :: 0 <= j < |kept| ==> kept[j] < |ids| && kept[j] < |scopes|
  {
    |newIds| == |kept| && |newScopes| == |kept| &&
    (forall j :: 0 <= j < |kept| ==> newIds[j] == ids[kept[j]] && newScopes[j] == scopes[kept[j]]) &&
    newFrags == Concat(GroupSlices(frags, scopes, kept))
  }

  lemma FilteredSnoc(ids: seq<string>, frags: seq<string>, scopes: seq<nat>, kept: seq<nat>,
                     newFrags: seq<string>, newScopes: seq<nat>, newIds: seq<string>, k: nat)
    requires forall j :: 0 <= j < |kept| ==> kept[j] < |ids| && kept[j] < |scopes|
    requires k < |ids| && k < |scopes|
    requires Filtered(ids, frags, scopes, kept, newFrags, newScopes, newIds)
    ensures Filtered(ids, frags, scopes, kept + [k],
      newFrags + Slice(frags, Offset(scopes, k), Offset(scopes, k) + scopes[k]), newScopes + [scopes[k]], newIds + [ids[k]])
  {
    GroupSlicesSnoc(frags, scopes, kept, k);
    ConcatSnoc(GroupSlices(frags, scopes, kept), Slice(frags, Offset(scopes, k), Offset(scopes, k) + scopes[k]));
  }

  /** One iteration of the filter: the next sequence is kept or skipped. */
  lemma FilteredStep(ids: seq<string>, frags: seq<string>, scopes: seq<nat>, processedIds: set<string>, k: nat,
                     newFrags: seq<string>, newScopes: seq<nat>, newIds: seq<string>)
    requires k < |ids| && k < |scopes|
    requires Filtered(ids, frags, scopes, KeptIndices(ids, processedIds, k), newFrags, newScopes, newIds)
    ensures ids[k] !in processedIds ==>
      Filtered(ids, frags, scopes, KeptIndices(ids, processedIds, k + 1),
        newFrags + Slice(frags, Offset(scopes, k), Offset(scopes, k) + scopes[k]), newScopes + [scopes[k]], newIds + [ids[k]])
    ensures ids[k] in processedIds ==>
      Filtered(ids, frags, scopes, KeptIndices(ids, processedIds, k + 1), newFrags, newScopes, newIds)
  {
    var kept := KeptIndices(ids, processedIds, k);
    KeptIndicesNext(ids, processedIds, k);
    if ids[k] !in processedIds {
      FilteredSnoc(ids, frags, scopes, kept, newFrags, newScopes, newIds, k);
    } else {
      assert KeptIndices(ids, processedIds, k + 1) == kept;
    }
  }

  /**
   * `get_new_fragments`: keeps, in order, the ids and scopes of the
   * sequences not processed yet, and the fragments of exactly those groups.
   */
  method GetNewFragments(ids: seq<string>, frags: seq<string>, scopes: seq<nat>, processedIds: set<string>)
    returns (newFrags: seq<string>, newScopes: seq<nat>, newIds: seq<string>)
    ensures Filtered(ids, frags, scopes, KeptIndices(ids, processedIds, Min(|ids|, |scopes|)), newFrags, newScopes, newIds)
  {
    newFrags, newScopes, newIds := [], [], [];
    var startIdx := 0;
    for k := 0 to Min(|ids|, |scopes|)
      invariant startIdx == Offset(scopes, k)
      invariant Filtered(ids, frags, scopes, KeptIndices(ids, processedIds, k), newFrags, newScopes, newIds)
    {
      var id, scope := ids[k], scopes[k];
      FilteredStep(ids, frags, scopes, processedIds, k, newFrags, newScopes, newIds);
      if id !in processedIds {
        newIds := newIds + [id];
        newScopes := newScopes + [scope];
        newFrags := newFrags + Slice(frags, startIdx, startIdx + scope);
      }
      OffsetNext(scopes, k);
      startIdx := startIdx + scope;
    }
  }

  /**
   * The new buffers stay aligned: the new scopes count the new fragments,
   * and group `j` of the new fragments is the original group of the `j`-th
   * kept sequence.
   */
  lemma {:induction false} FilteredAligned(ids: seq<string>, frags: seq<string>, scopes: seq<nat>, kept: seq<nat>,
                                           newFrags: seq<string>, newScopes: seq<nat>, newIds: seq<string>)
    requires forall j :: 0 <= j < |kept| ==> kept[j] < |ids| && kept[j] < |scopes|
    requires Sum(scopes) <= |frags|
    requires Filtered(ids, frags, scopes, kept, newFrags, newScopes, newIds)
    ensures |newIds| == |newScopes| && Sum(newScopes) == |newFrags|
    ensures forall j :: 0 <= j < |kept| ==> Group(newFrags, newScopes, j) == Group(frags, scopes, kept[j])
    decreases |kept|
  {
    if kept == [] {
      assert newScopes == [];
    } else {
      var n := |kept| - 1;
      var init, k := kept[..n], kept[n];
      var prevFrags := Concat(GroupSlices(frags, scopes, init));
      var prevScopes, prevIds := newScopes[..n], newIds[..n];
      assert kept == init + [k];
      FilteredInit(ids, frags, scopes, init, k, newFrags, newScopes, newIds);
      GroupSlicesLast(frags, scopes, init, k);
      assert newScopes == prevScopes + [scopes[k]] by {
        assert newScopes[n] == scopes[kept[n]];
      }
      FilteredAligned(ids, frags, scopes, init, prevFrags, prevScopes, prevIds);
      AlignedStep(frags, scopes, init, k, prevFrags, prevScopes);
    }
  }

  /** Dropping the last kept sequence leaves filtered buffers for the others. */
  lemma FilteredInit(ids: seq<string>, frags: seq<string>, scopes: seq<nat>, init: seq<nat>, k: nat,
                     newFrags: seq<string>, newScopes: seq<nat>, newIds: seq<string>)
    requires forall j :: 0 <= j < |init| ==> init[j] < |ids| && init[j] < |scopes|
    requires k < |ids| && k < |scopes|
    requires Filtered(ids, frags, scopes, init + [k], newFrags, newScopes, newIds)
    ensures |newScopes| == |newIds| == |init| + 1
    ensures Filtered(ids, frags, scopes, init, Concat(GroupSlices(frags, scopes, init)), newScopes[..|init|], newIds[..|init|])
  {
    var n, kept := |init|, init + [k];
    forall j | 0 <= j < n
      ensures newIds[..n][j] == ids[init[j]] && newScopes[..n][j] == scopes[init[j]]
    {
      assert init[j] == kept[j];
    }
  }

  /** The last kept sequence contributes its whole group. */
  lemma GroupSlicesLast(frags: seq<string>, scopes: seq<nat>, init: seq<nat>, k: nat)
    requires forall j :: 0 <= j < |init| ==> init[j] < |scopes|
    requires k < |scopes| && Sum(scopes) <= |frags|
    ensures Concat(GroupSlices(frags, scopes, init + [k])) ==
      Concat(GroupSlices(frags, scopes, init)) + Group(frags, scopes, k)
  {
    var o := Offset(scopes, k);
    var last, gs := Slice(frags, o, o + scopes[k]), GroupSlices(frags, scopes, init);
    GroupSlicesSnoc(frags, scopes, init, k);
    ConcatSnoc(gs, last);
  }

  /** One more kept group: the alignment of the earlier groups carries over. */
  lemma AlignedStep(frags: seq<string>, scopes: seq<nat>, init: seq<nat>, k: nat,
                    prevFrags: seq<string>, prevScopes: seq<nat>)
    requires Sum(scopes) <= |frags| && k < |scopes| && |prevScopes| == |init|
    requires forall j :: 0 <= j < |init| ==> init[j] < |scopes|
    requires Sum(prevScopes) == |prevFrags|
    requires forall j :: 0 <= j < |init| ==> Group(prevFrags, prevScopes, j) == Group(frags, scopes, init[j])
    ensures Sum(prevScopes + [scopes[k]]) == |prevFrags + Group(frags, scopes, k)|
    ensures forall j :: 0 <= j < |init| + 1 ==>
      Group(prevFrags + Group(frags, scopes, k), prevScopes + [scopes[k]], j) == Group(frags, scopes, (init + [k])[j])
  {
    AppendGroup(prevFrags, prevScopes, Group(frags, scopes, k));
  }

  /** Appending one group to an aligned flat list keeps the earlier groups where they were. */
  lemma AppendGroup<T>(prevFlat: seq<T>, prevScopes: seq<nat>, last: seq<T>)
    requires Sum(prevScopes) == |prevFlat|
    ensures Sum(prevScopes + [|last|]) == |prevFlat + last|
    ensures Group(prevFlat + last, prevScopes + [|last|], |prevScopes|) == last
    ensures forall j :: 0 <= j < |prevScopes| ==>
      Group(prevFlat + last, prevScopes + [|last|], j) == Group(prevFlat, prevScopes, j)
  {
    var ss := prevScopes + [|last|];
    assert ss[..|prevScopes|] == prevScopes;
    forall j | 0 <= j < |prevScopes|
      ensures Group(prevFlat + last, ss, j) == Group(prevFlat, prevScopes, j)
    {
      AppendGroupAt(prevFlat, prevScopes, last, j);
    }
    SliceOfPrefix(prevFlat, last, |prevFlat|, |prevFlat + last|);
  }

  lemma AppendGroupAt<T>(prevFlat: seq<T>, prevScopes: seq<nat>, last: seq<T>, j: nat)
    requires Sum(prevScopes) == |prevFlat| && j < |prevScopes|
    ensures Offset(prevScopes + [|last|], j) + prevScopes[j] <= |prevFlat + last|
    ensures Group(prevFlat + last, prevScopes + [|last|], j) == Group(prevFlat, prevScopes, j)
  {
    var ss, o := prevScopes + [|last|], Offset(prevScopes, j);
    OffsetPrefix(prevScopes, [|last|], j);
    assert o + prevScopes[j] <= |prevFlat|;
    assert ss[j] == prevScopes[j];
    SliceOfPrefix(prevFlat, last, o, o + prevScopes[j]);
  }

  lemma SliceOfPrefix<T>(a: seq<T>, b: seq<T>, i: nat, j: nat)
    requires i <= j <= |a + b|
    ensures j <= |a| ==> (a + b)[i..j] == a[i..j]
    ensures i == |a| && j == |a + b| ==> (a + b)[i..j] == b
  {
  }
}
