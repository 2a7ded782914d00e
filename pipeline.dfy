/**
 * The hand-off between the accumulator of utils/FragmentedSet.py and the
 * reducer of process.py: the buffers a `FragmentedSet` holds are always a
 * valid grouping for `to_sequence_prediction`.
 */
module Pipeline {
  import opened SeqUtil
  import opened FragmentedSets
  import opened Process

  /** The scopes of a fragmented batch group exactly its fragments. */
  lemma FragmentedBatchIsGrouping(sequences: seq<string>, maxSeqLen: nat)
    ensures Grouping(Scopes(sequences, maxSeqLen), |Fragments(sequences, maxSeqLen)|)
  {
    FragmentsCount(sequences, maxSeqLen);
  }

  /** Whatever chunks it has accumulated, a set's buffers meet the reducer's precondition. */
  lemma BuffersAreGrouping(fs: FragmentedSet)
    requires fs.Valid()
    ensures Grouping(fs.scopes, |fs.frags|)
    ensures Sum(fs.scopes) == |fs.frags|
  {
  }
}
