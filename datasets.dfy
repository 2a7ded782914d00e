/**
 * The chunked FASTA reader of utils/datasets.py, `load_fasta_as_generator`.
 *
 * Parsing the file is done by an external FASTA parser; here its output is
 * given as a sequence of records. What is modelled is the grouping: records
 * are collected into batches of `chunk_size`, each batch is yielded as a pair
 * of parallel id and sequence lists, and a non-empty remainder is yielded at
 * the end.
 */
module Datasets {
  import opened SeqUtil

  /** One parsed FASTA record: its id and its residues. */
  datatype Record = Record(id: string, residues: string)

  /** One yielded batch: the ids and the sequences of consecutive records. */
  datatype Batch = Batch(ids: seq<string>, sequences: seq<string>)

  function IdsOf(rs: seq<Record>): (r: seq<string>)
    ensures |r| == |rs|
  {
    seq(|rs|, i requires 0 <= i < |rs| => rs[i].id)
  }

  function SequencesOf(rs: seq<Record>): (r: seq<string>)
    ensures |r| == |rs|
  {
    seq(|rs|, i requires 0 <= i < |rs| => rs[i].residues)
  }

  function BatchOf(rs: seq<Record>): Batch
  {
    Batch(IdsOf(rs), SequencesOf(rs))
  }

  /**
   * How many records a batch holds when the generator yields it before the
   * end of the file: the test `len(ids) >= chunk_size` first succeeds after
   * `chunk_size` appends, or after the first one when `chunk_size <= 0`.
   */
  function BatchLimit(chunkSize: int): nat
  {
    if chunkSize < 1 then 1 else chunkSize
  }

  /**
   * Reference grouping of the records into the batches the generator yields:
   * consecutive runs of `BatchLimit(chunkSize)` records, the last run shorter.
   */
  function Chunks(rs: seq<Record>, chunkSize: int): seq<seq<Record>>
    decreases |rs|
  {
    if rs == [] then []
    else
      var m := Min(BatchLimit(chunkSize), |rs|);
      [rs[..m]] + Chunks(rs[m..], chunkSize)
  }

  lemma IdsOfAppend(a: seq<Record>, b: seq<Record>)
    ensures IdsOf(a + b) == IdsOf(a) + IdsOf(b)
    ensures SequencesOf(a + b) == SequencesOf(a) + SequencesOf(b)
  {
  }

  /** Concatenating the batches in order gives back every record in order. */
  lemma {:induction false} ChunksConcat(rs: seq<Record>, chunkSize: int)
    ensures Concat(Chunks(rs, chunkSize)) == rs
    decreases |rs|
  {
    if rs != [] {
      var m := Min(BatchLimit(chunkSize), |rs|);
      ChunksConcat(rs[m..], chunkSize);
      ConcatAppend([rs[..m]], Chunks(rs[m..], chunkSize));
      assert Concat([rs[..m]]) == rs[..m] by {
        assert [rs[..m]][..0] == [];
      }
      assert rs == rs[..m] + rs[m..];
    }
  }

  /** No batch is empty, none exceeds the limit, and all but the last are full. */
  lemma {:induction false} ChunksSizes(rs: seq<Record>, chunkSize: int)
    ensures forall i :: 0 <= i < |Chunks(rs, chunkSize)| ==>
      1 <= |Chunks(rs, chunkSize)[i]| <= BatchLimit(chunkSize)
    ensures forall i :: 0 <= i < |Chunks(rs, chunkSize)| - 1 ==>
      |Chunks(rs, chunkSize)[i]| == BatchLimit(chunkSize)
    decreases |rs|
  {
    if rs != [] {
      var m := Min(BatchLimit(chunkSize), |rs|);
      ChunksSizes(rs[m..], chunkSize);
      var tail := Chunks(rs[m..], chunkSize);
      assert Chunks(rs, chunkSize) == [rs[..m]] + tail;
      if m < BatchLimit(chunkSize) {
        assert tail == [];
      }
    }
  }

  /**
   * There are `ceil(n / chunk_size)` batches: none for an empty file, and
   * otherwise the least count whose full batches would hold every record.
   */
  lemma {:induction false} ChunksCount(rs: seq<Record>, chunkSize: int)
    ensures rs == [] <==> |Chunks(rs, chunkSize)| == 0
    ensures rs != [] ==>
      (|Chunks(rs, chunkSize)| - 1) * BatchLimit(chunkSize) < |rs| <= |Chunks(rs, chunkSize)| * BatchLimit(chunkSize)
    decreases |rs|
  {
    var b := BatchLimit(chunkSize);
    if rs != [] {
      if |rs| <= b {
        assert Chunks(rs[|rs|..], chunkSize) == [];
      } else {
        ChunksCount(rs[b..], chunkSize);
        var c := |Chunks(rs[b..], chunkSize)|;
        assert |Chunks(rs, chunkSize)| == c + 1;
        assert (c + 1) * b == c * b + b;
      }
    }
  }

  /** The next run from `start` is the records up to `pos`, and the runs after it start at `pos`. */
  lemma RunAt(records: seq<Record>, chunkSize: int, start: nat, pos: nat)
    requires start < pos <= |records| && pos - start == Min(BatchLimit(chunkSize), |records| - start)
    ensures Chunks(records[start..], chunkSize)[0] == records[start..pos]
    ensures Chunks(records[start..], chunkSize)[1..] == Chunks(records[pos..], chunkSize)
  {
    assert records[start..][..pos - start] == records[start..pos];
    assert records[start..][pos - start..] == records[pos..];
  }

  /**
   * The generator of `load_fasta_as_generator` over the records of one file:
   * a cursor `pos` into the records, resumed by each `Next` call.
   */
  class FastaChunkReader {
    const records: seq<Record>
    const chunkSize: int
    var pos: nat

    ghost predicate Valid()
      reads this
    {
      pos <= |records|
    }

    /** The record runs the generator has still to yield. */
    ghost function Remaining(): seq<seq<Record>>
      reads this
      requires Valid()
    {
      Chunks(records[pos..], chunkSize)
    }

    constructor (records: seq<Record>, chunkSize: int)
      ensures Valid()
      ensures this.records == records && this.chunkSize == chunkSize && pos == 0
      ensures Remaining() == Chunks(records, chunkSize)
    {
      this.records := records;
      this.chunkSize := chunkSize;
      pos := 0;
      new;
      assert records[0..] == records;
    }

    /**
     * `next(generator)`: runs the generator's loop up to its next `yield`.
     * Yields the next run of records, or `None` (StopIteration) when nothing
     * is left, without moving the cursor.
     */
    method Next() returns (b: Option<Batch>)
      requires Valid()
      modifies this
      ensures Valid() && old(pos) <= pos
      ensures b.None? <==> old(Remaining()) == []
      ensures b.None? ==> pos == old(pos)
      ensures b.Some? ==> b.value == BatchOf(old(Remaining())[0])
      ensures b.Some? ==> records[old(pos)..pos] == old(Remaining())[0]
      ensures Remaining() == if b.None? then old(Remaining()) else old(Remaining())[1..]
    {
      var ids: seq<string> := [];
      var sequences: seq<string> := [];
      ghost var start := pos;
      ghost var limit := BatchLimit(chunkSize);
      while pos < |records|
        invariant start <= pos <= |records|
        invariant pos - start < limit
        invariant ids == IdsOf(records[start..pos])
        invariant sequences == SequencesOf(records[start..pos])
        decreases |records| - pos
      {
        assert records[start..pos + 1] == records[start..pos] + [records[pos]];
        IdsOfAppend(records[start..pos], [records[pos]]);
        ids := ids + [records[pos].id];
        sequences := sequences + [records[pos].residues];
        pos := pos + 1;
        if |ids| >= chunkSize {
          RunAt(records, chunkSize, start, pos);
          return Some(Batch(ids, sequences));
        }
      }
      if |ids| > 0 {
        RunAt(records, chunkSize, start, pos);
        return Some(Batch(ids, sequences));
      }
      return None;
    }
  }

  /**
   * Draining the generator: every batch it yields, in order, is the batch
   * of the corresponding run of the reference grouping.
   */
  method DrainGenerator(records: seq<Record>, chunkSize: int) returns (batches: seq<Batch>)
    ensures |batches| == |Chunks(records, chunkSize)|
    ensures forall i :: 0 <= i < |batches| ==> batches[i] == BatchOf(Chunks(records, chunkSize)[i])
    ensures forall i :: 0 <= i < |batches| ==>
      1 <= |batches[i].ids| == |batches[i].sequences| <= BatchLimit(chunkSize)
  {
    ghost var all := Chunks(records, chunkSize);
    ChunksSizes(records, chunkSize);
    var reader := new FastaChunkReader(records, chunkSize);
    batches := [];
    var b := reader.Next();
    while b.Some?
      invariant reader.Valid() && reader.records == records && reader.chunkSize == chunkSize
      invariant |batches| <= |all|
      invariant forall i :: 0 <= i < |batches| ==> batches[i] == BatchOf(all[i])
      invariant b.Some? ==> |batches| < |all| && b.value == BatchOf(all[|batches|])
      invariant b.Some? ==> reader.Remaining() == all[|batches| + 1..]
      invariant b.None? ==> reader.Remaining() == [] && |batches| == |all|
      decreases |reader.Remaining()| + (if b.Some? then 1 else 0)
    {
      batches := batches + [b.value];
      b := reader.Next();
    }
  }
}
