/**
 * utils/FragmentedSet.py: the fragmenter `_fragment_sequences`, the set name
 * derived from the input path, and the `FragmentedSet` accumulator whose
 * `ids`, `frags` and `scopes` buffers grow by one chunk per pull.
 */
module FragmentedSets {
  import opened SeqUtil
  import opened Datasets

  /** `f` is a contiguous piece of `s`, starting at offset `i`. */
  ghost predicate PieceAt(f: string, s: string, i: int)
  {
    0 <= i && i + |f| <= |s| && f == s[i..i + |f|]
  }

  /** How many fragments a sequence is split into. */
  function Scope(s: string, maxSeqLen: nat): nat
  {
    if |s| > maxSeqLen then |s| - maxSeqLen + 1 else 1
  }

  /**
   * The fragments of one sequence: the stride-1 windows of length
   * `maxSeqLen` when it is longer, otherwise the sequence itself.
   */
  function Windows(s: string, maxSeqLen: nat): (r: seq<string>)
    ensures |r| == Scope(s, maxSeqLen) >= 1
  {
    if |s| > maxSeqLen then
      seq(|s| - maxSeqLen + 1, i requires 0 <= i <= |s| - maxSeqLen => s[i..i + maxSeqLen])
    else
      [s]
  }

  /** All fragments of a batch of sequences, sequence by sequence. */
  function Fragments(sequences: seq<string>, maxSeqLen: nat): seq<string>
  {
    if sequences == [] then []
    else Fragments(sequences[..|sequences| - 1], maxSeqLen) + Windows(sequences[|sequences| - 1], maxSeqLen)
  }

  /** The scope list of a batch: one fragment count per sequence. */
  function Scopes(sequences: seq<string>, maxSeqLen: nat): (r: seq<nat>)
    ensures |r| == |sequences|
  {
    seq(|sequences|, k requires 0 <= k < |sequences| => Scope(sequences[k], maxSeqLen))
  }

  /**
   * `_fragment_sequences`: splits every sequence into its windows and
   * records, per sequence, how many fragments it gave.
   */
  method FragmentSequences(sequences: seq<string>, maxSeqLen: nat) returns (frags: seq<string>, scopes: seq<nat>)
    ensures frags == Fragments(sequences, maxSeqLen)
    ensures scopes == Scopes(sequences, maxSeqLen)
    ensures |scopes| == |sequences| && Sum(scopes) == |frags|
    ensures forall k :: 0 <= k < |scopes| ==> scopes[k] >= 1
  {
    frags, scopes := [], [];
    for k := 0 to |sequences|
      invariant frags == Fragments(sequences[..k], maxSeqLen)
      invariant scopes == Scopes(sequences[..k], maxSeqLen)
    {
      var s := sequences[k];
      var seqLen := |s|;
      ghost var frags0, scopes0 := frags, scopes;
      if seqLen > maxSeqLen {
        var fragsNumber := seqLen - maxSeqLen + 1;
        frags := AppendWindows(frags, s, maxSeqLen);
        scopes := scopes + [fragsNumber];
      } else {
        frags := frags + [s];
        scopes := scopes + [1];
      }
      assert frags == frags0 + Windows(s, maxSeqLen) && scopes == scopes0 + [Scope(s, maxSeqLen)];
      FragmentsSnoc(sequences, maxSeqLen, k);
    }
    assert sequences[..|sequences|] == sequences;
    assert Sum(scopes) == |frags| by {
      FragmentsCount(sequences, maxSeqLen);
    }
  }

  /** The inner loop of `_fragment_sequences`: appends every window of a long sequence. */
  method AppendWindows(frags: seq<string>, s: string, maxSeqLen: nat) returns (r: seq<string>)
    requires |s| > maxSeqLen
    ensures r == frags + Windows(s, maxSeqLen)
  {
    ghost var w := Windows(s, maxSeqLen);
    var fragsNumber := |s| - maxSeqLen + 1;
    r := frags;
    for i := 0 to fragsNumber
      invariant r == frags + w[..i]
    {
      TakeSnoc(w, i);
      r := r + [s[i..i + maxSeqLen]];
    }
    assert w[..fragsNumber] == w;
  }

  lemma FragmentsSnoc(sequences: seq<string>, maxSeqLen: nat, k: nat)
    requires k < |sequences|
    ensures Fragments(sequences[..k + 1], maxSeqLen) == Fragments(sequences[..k], maxSeqLen) + Windows(sequences[k], maxSeqLen)
    ensures Scopes(sequences[..k + 1], maxSeqLen) == Scopes(sequences[..k], maxSeqLen) + [Scope(sequences[k], maxSeqLen)]
  {
    assert sequences[..k + 1][..k] == sequences[..k];
  }

  lemma ScopesAppend(a: seq<string>, b: seq<string>, maxSeqLen: nat)
    ensures Scopes(a + b, maxSeqLen) == Scopes(a, maxSeqLen) + Scopes(b, maxSeqLen)
  {
  }

  /** The scope list counts every fragment: `sum(scopes) == len(frags)`. */
  lemma {:induction false} FragmentsCount(sequences: seq<string>, maxSeqLen: nat)
    ensures Sum(Scopes(sequences, maxSeqLen)) == |Fragments(sequences, maxSeqLen)|
    decreases |sequences|
  {
    if sequences != [] {
      var init := sequences[..|sequences| - 1];
      var last := sequences[|sequences| - 1];
      FragmentsCount(init, maxSeqLen);
      assert sequences == init + [last];
      ScopesAppend(init, [last], maxSeqLen);
      assert Scopes(sequences, maxSeqLen)[..|sequences| - 1] == Scopes(init, maxSeqLen);
    }
  }

  /**
   * The fragments of one sequence: the sequence itself when it is at most
   * `maxSeqLen` long, otherwise `n - maxSeqLen + 1` windows, window `i`
   * being the `maxSeqLen` characters from offset `i`.
   */
  lemma WindowsShape(s: string, maxSeqLen: nat)
    ensures |s| <= maxSeqLen ==> Windows(s, maxSeqLen) == [s]
    ensures |s| > maxSeqLen ==> |Windows(s, maxSeqLen)| == |s| - maxSeqLen + 1
    ensures |s| > maxSeqLen ==> forall i :: 0 <= i < |Windows(s, maxSeqLen)| ==>
      |Windows(s, maxSeqLen)[i]| == maxSeqLen && PieceAt(Windows(s, maxSeqLen)[i], s, i)
  {
  }

  /** Fragmenting two batches one after the other gives the fragments of their concatenation. */
  lemma {:induction false} FragmentsAppend(a: seq<string>, b: seq<string>, maxSeqLen: nat)
    ensures Fragments(a + b, maxSeqLen) == Fragments(a, maxSeqLen) + Fragments(b, maxSeqLen)
    decreases |b|
  {
    if b == [] {
      assert a + b == a;
    } else {
      var init, last := b[..|b| - 1], b[|b| - 1];
      assert (a + b)[..|a + b| - 1] == a + init && (a + b)[|a + b| - 1] == last;
      assert Fragments(a + b, maxSeqLen) == Fragments(a + init, maxSeqLen) + Windows(last, maxSeqLen);
      assert Fragments(b, maxSeqLen) == Fragments(init, maxSeqLen) + Windows(last, maxSeqLen);
      FragmentsAppend(a, init, maxSeqLen);
      AppendAssoc(Fragments(a, maxSeqLen), Fragments(init, maxSeqLen), Windows(last, maxSeqLen));
    }
  }

  /**
   * Fragment `i` of sequence `k` sits at the offset given by the earlier
   * scopes: the fragments of sequence `k` all precede those of sequence `k + 1`.
   */
  lemma FragmentAt(sequences: seq<string>, maxSeqLen: nat, k: nat, i: nat)
    requires k < |sequences| && i < Scope(sequences[k], maxSeqLen)
    ensures Offset(Scopes(sequences, maxSeqLen), k) + i < |Fragments(sequences, maxSeqLen)|
    ensures |sequences[k]| <= maxSeqLen ==>
      Fragments(sequences, maxSeqLen)[Offset(Scopes(sequences, maxSeqLen), k)] == sequences[k]
    ensures |sequences[k]| > maxSeqLen ==>
      Fragments(sequences, maxSeqLen)[Offset(Scopes(sequences, maxSeqLen), k) + i] == sequences[k][i..i + maxSeqLen]
  {
    var fs, o := Fragments(sequences, maxSeqLen), Offset(Scopes(sequences, maxSeqLen), k);
    var fb, w, fr := Fragments(sequences[..k], maxSeqLen), Windows(sequences[k], maxSeqLen), Fragments(sequences[k + 1..], maxSeqLen);
    assert fs == fb + w + fr && o == |fb| by {
      FragmentsSplit(sequences, maxSeqLen, k);
    }
    assert o + i < |fs| && fs[o + i] == w[i] by {
      IndexMiddle(fb, w, fr, i);
    }
    WindowAt(sequences[k], maxSeqLen, i);
  }

  lemma WindowAt(s: string, maxSeqLen: nat, i: nat)
    requires i < Scope(s, maxSeqLen)
    ensures |s| <= maxSeqLen ==> i == 0 && Windows(s, maxSeqLen)[i] == s
    ensures |s| > maxSeqLen ==> Windows(s, maxSeqLen)[i] == s[i..i + maxSeqLen]
  {
  }

  /** The fragments of a batch around sequence `k`, and where sequence `k`'s begin. */
  lemma FragmentsSplit(sequences: seq<string>, maxSeqLen: nat, k: nat)
    requires k < |sequences|
    ensures Fragments(sequences, maxSeqLen) ==
      Fragments(sequences[..k], maxSeqLen) + Windows(sequences[k], maxSeqLen) + Fragments(sequences[k + 1..], maxSeqLen)
    ensures Offset(Scopes(sequences, maxSeqLen), k) == |Fragments(sequences[..k], maxSeqLen)|
  {
    var before, sk, rest := sequences[..k], sequences[k], sequences[k + 1..];
    assert Fragments(sequences, maxSeqLen) == Fragments(before, maxSeqLen) + Windows(sk, maxSeqLen) + Fragments(rest, maxSeqLen) by {
      assert sequences == (before + [sk]) + rest;
      FragmentsAppend(before + [sk], rest, maxSeqLen);
      FragmentsAppend(before, [sk], maxSeqLen);
      assert [sk][..0] == [];
    }
    assert Offset(Scopes(sequences, maxSeqLen), k) == |Fragments(before, maxSeqLen)| by {
      FragmentsCount(before, maxSeqLen);
      assert Scopes(sequences, maxSeqLen)[..k] == Scopes(before, maxSeqLen);
    }
  }

  lemma IndexMiddle<T>(a: seq<T>, b: seq<T>, c: seq<T>, i: nat)
    requires i < |b|
    ensures |a| + i < |a + b + c| && (a + b + c)[|a| + i] == b[i]
  {
  }

  /**
   * Every fragment is a contiguous piece of one of the sequences, and no
   * longer than `maxSeqLen`.
   */
  lemma {:induction false} FragmentsArePieces(sequences: seq<string>, maxSeqLen: nat)
    ensures forall j :: 0 <= j < |Fragments(sequences, maxSeqLen)| ==>
      |Fragments(sequences, maxSeqLen)[j]| <= maxSeqLen &&
      exists k, i :: 0 <= k < |sequences| && PieceAt(Fragments(sequences, maxSeqLen)[j], sequences[k], i)
    decreases |sequences|
  {
    if sequences != [] {
      var init := sequences[..|sequences| - 1];
      var last := sequences[|sequences| - 1];
      FragmentsArePieces(init, maxSeqLen);
      var fi, w := Fragments(init, maxSeqLen), Windows(last, maxSeqLen);
      forall j | 0 <= j < |fi + w|
        ensures |(fi + w)[j]| <= maxSeqLen
        ensures exists k, i :: 0 <= k < |sequences| && PieceAt((fi + w)[j], sequences[k], i)
      {
        if j < |fi| {
          var k, i :| 0 <= k < |init| && PieceAt(fi[j], init[k], i);
          assert sequences[k] == init[k];
        } else {
          WindowsShape(last, maxSeqLen);
          assert PieceAt(w[j - |fi|], sequences[|sequences| - 1], j - |fi|);
        }
      }
    }
  }

  /** Everything after the last `sep` (Python's `s.split(sep)[-1]`). */
  function AfterLast(s: string, sep: char): (r: string)
    ensures sep !in r && |r| <= |s|
  {
    if s == [] then []
    else if s[|s| - 1] == sep then []
    else AfterLast(s[..|s| - 1], sep) + [s[|s| - 1]]
  }

  /** Everything before the first `sep` (Python's `s.split(sep)[0]`). */
  function BeforeFirst(s: string, sep: char): (r: string)
    ensures sep !in r && |r| <= |s|
  {
    if s == [] then []
    else if s[0] == sep then []
    else [s[0]] + BeforeFirst(s[1..], sep)
  }

  /** `s.split(sep)[-1]` is the suffix of `s` that follows its last `sep`, or all of `s`. */
  lemma {:induction false} AfterLastIsLastField(s: string, sep: char)
    ensures AfterLast(s, sep) == s[|s| - |AfterLast(s, sep)|..]
    ensures |AfterLast(s, sep)| < |s| ==> s[|s| - |AfterLast(s, sep)| - 1] == sep
    decreases |s|
  {
    if s != [] && s[|s| - 1] != sep {
      var p := s[..|s| - 1];
      AfterLastIsLastField(p, sep);
      var r := AfterLast(p, sep);
      assert AfterLast(s, sep) == r + [s[|s| - 1]];
      assert s[|s| - |r| - 1..] == p[|p| - |r|..] + [s[|s| - 1]];
      if |r| < |p| {
        assert s[|s| - |r| - 2] == p[|p| - |r| - 1];
      }
    }
  }

  /** `s.split(sep)[0]` is the prefix of `s` that precedes its first `sep`, or all of `s`. */
  lemma {:induction false} BeforeFirstIsFirstField(s: string, sep: char)
    ensures BeforeFirst(s, sep) == s[..|BeforeFirst(s, sep)|]
    ensures |BeforeFirst(s, sep)| < |s| ==> s[|BeforeFirst(s, sep)|] == sep
    decreases |s|
  {
    if s != [] && s[0] != sep {
      BeforeFirstIsFirstField(s[1..], sep);
    }
  }

  /**
   * `set_name`: the file name of the input path up to its first `.`. The
   * path is split on the platform's separator `os.sep`, given as `pathSep`.
   */
  function SetName(fastaFilepath: string, pathSep: char): (r: string)
    ensures pathSep !in r && '.' !in r
  {
    var file := AfterLast(fastaFilepath, pathSep);
    BeforeFirstIsFirstField(file, '.');
    BeforeFirst(file, '.')
  }

  /**
   * The set name of `dir/base.ext` (or of `base.ext` alone) is `base`,
   * whatever the directory and whatever follows the first dot.
   */
  lemma SetNameOfFile(dir: string, base: string, ext: string, pathSep: char)
    requires pathSep !in base && '.' !in base && pathSep !in ext
    requires ext == [] || ext[0] == '.'
    ensures SetName(base + ext, pathSep) == base
    ensures SetName(dir + [pathSep] + base + ext, pathSep) == base
  {
    AfterLastOfJoin([], base + ext, pathSep);
    assert [] + (base + ext) == base + ext;
    assert dir + [pathSep] + base + ext == (dir + [pathSep]) + (base + ext);
    AfterLastOfJoin(dir + [pathSep], base + ext, pathSep);
    BeforeFirstOfJoin(base, ext, '.');
  }

  lemma {:induction false} AfterLastOfJoin(prefix: string, tail: string, sep: char)
    requires sep !in tail && (prefix == [] || prefix[|prefix| - 1] == sep)
    ensures AfterLast(prefix + tail, sep) == tail
    decreases |tail|
  {
    if tail == [] {
      assert prefix + tail == prefix;
    } else {
      var s := prefix + tail;
      assert s[|s| - 1] == tail[|tail| - 1];
      assert s[..|s| - 1] == prefix + tail[..|tail| - 1];
      AfterLastOfJoin(prefix, tail[..|tail| - 1], sep);
    }
  }

  lemma {:induction false} BeforeFirstOfJoin(head: string, rest: string, sep: char)
    requires sep !in head && (rest == [] || rest[0] == sep)
    ensures BeforeFirst(head + rest, sep) == head
    decreases |head|
  {
    if head == [] {
      assert head + rest == rest;
    } else {
      var s := head + rest;
      assert s[0] == head[0];
      assert s[1..] == head[1..] + rest;
      BeforeFirstOfJoin(head[1..], rest, sep);
    }
  }

  /** The buffers built from two consecutive runs of records are those built from their union. */
  lemma RecordsSplit(records: seq<Record>, start: nat, mid: nat, end: nat, maxSeqLen: nat)
    requires start <= mid <= end <= |records|
    ensures IdsOf(records[start..end]) == IdsOf(records[start..mid]) + IdsOf(records[mid..end])
    ensures Fragments(SequencesOf(records[start..end]), maxSeqLen) ==
      Fragments(SequencesOf(records[start..mid]), maxSeqLen) + Fragments(SequencesOf(records[mid..end]), maxSeqLen)
    ensures Scopes(SequencesOf(records[start..end]), maxSeqLen) ==
      Scopes(SequencesOf(records[start..mid]), maxSeqLen) + Scopes(SequencesOf(records[mid..end]), maxSeqLen)
  {
    var before, chunk := records[start..mid], records[mid..end];
    assert records[start..end] == before + chunk;
    IdsOfAppend(before, chunk);
    FragmentsAppend(SequencesOf(before), SequencesOf(chunk), maxSeqLen);
    ScopesAppend(SequencesOf(before), SequencesOf(chunk), maxSeqLen);
  }

  /**
   * Buffers that hold the records from `start` to `mid` on top of their
   * initial contents, extended by the records from `mid` to `end`, hold the
   * records from `start` to `end`.
   */
  lemma BuffersStep(records: seq<Record>, start: nat, mid: nat, end: nat, maxSeqLen: nat,
                    ids0: seq<string>, frags0: seq<string>, scopes0: seq<nat>,
                    ids1: seq<string>, frags1: seq<string>, scopes1: seq<nat>,
                    ids2: seq<string>, frags2: seq<string>, scopes2: seq<nat>)
    requires start <= mid <= end <= |records|
    requires var before := records[start..mid];
      ids1 == ids0 + IdsOf(before) &&
      frags1 == frags0 + Fragments(SequencesOf(before), maxSeqLen) &&
      scopes1 == scopes0 + Scopes(SequencesOf(before), maxSeqLen)
    requires var chunk := records[mid..end];
      ids2 == ids1 + IdsOf(chunk) &&
      frags2 == frags1 + Fragments(SequencesOf(chunk), maxSeqLen) &&
      scopes2 == scopes1 + Scopes(SequencesOf(chunk), maxSeqLen)
    ensures var done := records[start..end];
      ids2 == ids0 + IdsOf(done) &&
      frags2 == frags0 + Fragments(SequencesOf(done), maxSeqLen) &&
      scopes2 == scopes0 + Scopes(SequencesOf(done), maxSeqLen)
  {
    var before, chunk := records[start..mid], records[mid..end];
    RecordsSplit(records, start, mid, end, maxSeqLen);
    AppendAssoc(ids0, IdsOf(before), IdsOf(chunk));
    AppendAssoc(frags0, Fragments(SequencesOf(before), maxSeqLen), Fragments(SequencesOf(chunk), maxSeqLen));
    AppendAssoc(scopes0, Scopes(SequencesOf(before), maxSeqLen), Scopes(SequencesOf(chunk), maxSeqLen));
  }

  /**
   * `FragmentedSet`: a generator over one input file and the three buffers
   * that `process_next_chunk` extends and the caller clears.
   */
  class FragmentedSet {
    const setName: string
    const fastaFilepath: string
    const maxSeqLen: nat
    const chunkSize: int
    const generator: FastaChunkReader
    var ids: seq<string>
    var frags: seq<string>
    var scopes: seq<nat>

    /** The buffers stay aligned: one scope per id, and the scopes count the fragments. */
    ghost predicate Valid()
      reads this, generator
    {
      generator.Valid() && generator.chunkSize == chunkSize &&
      |ids| == |scopes| && Sum(scopes) == |frags| &&
      forall k :: 0 <= k < |scopes| ==> scopes[k] >= 1
    }

    /**
     * `__init__`; the parsed records of the file stand for the file itself,
     * and `pathSep` for `os.sep`.
     */
    constructor (fastaFilepath: string, pathSep: char, records: seq<Record>, maxSeqLen: nat, chunkSize: int)
      ensures Valid() && fresh(generator)
      ensures setName == SetName(fastaFilepath, pathSep) && this.fastaFilepath == fastaFilepath
      ensures this.maxSeqLen == maxSeqLen && this.chunkSize == chunkSize
      ensures generator.records == records && generator.pos == 0
      ensures ids == [] && frags == [] && scopes == []
    {
      setName := SetName(fastaFilepath, pathSep);
      this.fastaFilepath := fastaFilepath;
      this.maxSeqLen := maxSeqLen;
      this.chunkSize := chunkSize;
      generator := new FastaChunkReader(records, chunkSize);
      ids, frags, scopes := [], [], [];
    }

    /**
     * `process_next_chunk`: pulls the next batch from the generator and
     * appends its ids, fragments and scopes; on exhaustion returns false and
     * changes nothing.
     */
    method ProcessNextChunk() returns (more: bool)
      requires Valid()
      modifies this, generator
      ensures Valid()
      ensures more <==> old(generator.Remaining()) != []
      ensures generator.Remaining() == if more then old(generator.Remaining())[1..] else old(generator.Remaining())
      ensures old(generator.pos) <= generator.pos
      ensures more ==> generator.records[old(generator.pos)..generator.pos] == old(generator.Remaining())[0]
      ensures !more ==> generator.pos == old(generator.pos)
      ensures var chunk := generator.records[old(generator.pos)..generator.pos];
        ids == old(ids) + IdsOf(chunk) &&
        frags == old(frags) + Fragments(SequencesOf(chunk), maxSeqLen) &&
        scopes == old(scopes) + Scopes(SequencesOf(chunk), maxSeqLen)
    {
      var next := generator.Next();
      if next.None? {
        assert generator.records[generator.pos..generator.pos] == [];
        return false;
      }
      var chunkIds, chunkSeqs := next.value.ids, next.value.sequences;
      var chunkFrags, chunkScopes := FragmentSequences(chunkSeqs, maxSeqLen);
      SumAppend(scopes, chunkScopes);
      ids := ids + chunkIds;
      frags := frags + chunkFrags;
      scopes := scopes + chunkScopes;
      return true;
    }

    /** `process_all`: pulls chunks until the generator is exhausted. */
    method ProcessAll()
      requires Valid()
      modifies this, generator
      ensures Valid() && generator.Remaining() == []
      ensures var rest := generator.records[old(generator.pos)..];
        ids == old(ids) + IdsOf(rest) &&
        frags == old(frags) + Fragments(SequencesOf(rest), maxSeqLen) &&
        scopes == old(scopes) + Scopes(SequencesOf(rest), maxSeqLen)
    {
      ghost var start := generator.pos;
      ghost var ids0, frags0, scopes0 := ids, frags, scopes;
      var more := ProcessNextChunk();
      while more
        invariant Valid() && start <= generator.pos <= |generator.records|
        invariant !more ==> generator.Remaining() == []
        invariant var done := generator.records[start..generator.pos];
          ids == ids0 + IdsOf(done) &&
          frags == frags0 + Fragments(SequencesOf(done), maxSeqLen) &&
          scopes == scopes0 + Scopes(SequencesOf(done), maxSeqLen)
        decreases |generator.Remaining()| + (if more then 1 else 0)
      {
        ghost var mid, ids1, frags1, scopes1 := generator.pos, ids, frags, scopes;
        more := ProcessNextChunk();
        BuffersStep(generator.records, start, mid, generator.pos, maxSeqLen,
          ids0, frags0, scopes0, ids1, frags1, scopes1, ids, frags, scopes);
      }
      assert generator.pos == |generator.records| by {
        ChunksConcat(generator.records[generator.pos..], chunkSize);
      }
      assert generator.records[start..generator.pos] == generator.records[start..];
    }

    /** The caller's `ids.clear()`, `frags.clear()`, `scopes.clear()` between chunks. */
    method ClearBuffers()
      requires Valid()
      modifies this
      ensures Valid() && ids == [] && frags == [] && scopes == []
      ensures generator.pos == old(generator.pos)
    {
      ids, frags, scopes := [], [], [];
    }
  }
}
