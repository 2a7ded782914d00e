# Fragment bookkeeping of a protein-sequence batch predictor

This project models, in Dafny, the bookkeeping core of a batch predictor.
The predictor scores protein sequences with an ensemble of pretrained
classifiers. The model covers how sequences are batched, windowed and
reduced. It leaves out how they are scored.

- **Chunked reader** (`load_fasta_as_generator`, utils/datasets.py). The
  parsed records of a FASTA file are grouped into batches of `chunk_size`
  records. Each batch holds parallel id and sequence lists. A non-empty
  remainder is yielded at the end. The records stand in for the file. The
  generator is the class `Datasets.FastaChunkReader`: a cursor into the
  records, and a `Next` method that runs the generator's loop up to its
  next `yield`. `Datasets.Chunks` is an independent reference grouping.
- **Fragmenter** (`_fragment_sequences`, utils/FragmentedSet.py). A sequence
  longer than `max_seq_len` becomes its stride-1 windows of that length.
  A shorter sequence is kept whole. A parallel scope list gives the
  fragment count of each sequence.
- **Accumulator** (`FragmentedSet`, utils/FragmentedSet.py). It is a class
  with the `ids`, `frags` and `scopes` buffers. Each `ProcessNextChunk`
  appends one batch, or returns false and changes nothing. Its invariant
  is `|ids| == |scopes|`, `sum(scopes) == |frags|`, every scope >= 1. The
  set name is derived from the input path.
- **Reducer and rows** (`to_sequence_prediction`,
  `append_predictions_to_csv`, process.py). For each scope group, the
  reducer picks the first fragment with the highest score. It returns the
  rows `(id, prob, beg, end, frag)` rather than writing them.
- **Filter** (`get_new_fragments`, process.py). It drops the sequences
  whose id was already processed and keeps the fragments aligned with the
  scopes.

Scores are only compared, so they are `real`s. Scopes are `nat`s.
`SeqUtil` holds the shared helpers: `Sum`, `Offset` (start of group `k`
in a flat list), `Group`, `Concat`, and Python's clamped slice `Slice`.

Where the code is more precise than a plain reading of it, the model
follows the code:

- A sequence exactly `max_seq_len` long takes the "keep whole" branch,
  because the test is `seq_len > max_seq_len`. It gives the same single
  fragment as a one-window split would.
- `end` is `s_i + 40`, the 1-based inclusive end `beg + 39`. It uses the
  literal 40, not `max_seq_len`. A sequence of exactly 40 residues gives
  `beg = 1`, `end = 40`.
- A `chunk_size` of 0 or less yields one record per batch. This is because
  `len(ids) >= chunk_size` already holds after the first append
  (`Datasets.BatchLimit`).
- Both `zip` loops stop at the shorter list: `|rows| == min(|ids|, |scopes|)`.
- `get_new_fragments` slices `frags` with Python's clamping slice.

The buffers that `FragmentedSet.Valid()` maintains meet the reducer's
precondition `Process.Grouping(scopes, |frags|)` (`Pipeline`). The caller
passes one score per fragment.

## Model

| member | source | states |
|---|---|---|
| `Datasets.FastaChunkReader.constructor` | utils/datasets.py:6-11 | a new generator is at the start of the records; what it will yield is the reference grouping `Chunks(records, chunk_size)` |
| `Datasets.FastaChunkReader.Next` | utils/datasets.py:9-23 | one `next()`. When something is left, it yields the batch of the next run of the reference grouping, and that run is exactly the records between the old and new cursor. The remaining runs lose their head. Otherwise it returns None (StopIteration) and the cursor stays put |
| `Datasets.DrainGenerator` | utils/datasets.py:6-23 | draining the generator yields as many batches as the reference grouping has runs; batch `i` holds the ids and sequences of run `i`, in parallel lists of equal length between 1 and `chunk_size` |
| `Datasets.ChunksConcat` | utils/datasets.py:12-23 | concatenating the batches in order gives back every record in order |
| `Datasets.ChunksSizes` | utils/datasets.py:16-23 | no batch is empty or larger than `chunk_size`, and every batch except the last holds exactly `chunk_size` records |
| `Datasets.ChunksCount` | utils/datasets.py:12-23 | an input with no records gives no batch. Otherwise the batch count `c` is `ceil(n / chunk_size)`, that is `(c - 1) * chunk_size < n <= c * chunk_size` |
| `FragmentedSets.Windows` | utils/FragmentedSet.py:44-55 | a sequence gives its scope's number of fragments, at least one |
| `FragmentedSets.WindowsShape` | utils/FragmentedSet.py:46-55 | a sequence of length `n <= max_seq_len` is its own single fragment. A longer one gives `n - max_seq_len + 1` fragments; fragment `i` is the `max_seq_len` characters from offset `i` |
| `FragmentedSets.AppendWindows` | utils/FragmentedSet.py:47-50 | the inner loop appends exactly the windows of a long sequence, in order, after the fragments already collected |
| `FragmentedSets.FragmentSequences` | utils/FragmentedSet.py:39-57 | `_fragment_sequences` returns the reference fragments and scopes: one scope per sequence, every scope >= 1, and `sum(scopes) == len(frags)` |
| `FragmentedSets.FragmentsCount` | utils/FragmentedSet.py:43-57 | the scopes of a batch sum to its fragment count |
| `FragmentedSets.FragmentsAppend` | utils/FragmentedSet.py:43-57 | fragmenting two batches one after the other gives the fragments of their concatenation |
| `FragmentedSets.FragmentAt` | utils/FragmentedSet.py:43-57 | fragment `i` of sequence `k` sits at `sum(scopes[..k]) + i`. It is the sequence itself when short, otherwise `seq[i..i + max_seq_len]`. So the fragments of sequence `k` all come before those of sequence `k + 1` |
| `FragmentedSets.FragmentsArePieces` | utils/FragmentedSet.py:50-54 | every fragment is at most `max_seq_len` long and is a contiguous piece of one of the input sequences |
| `FragmentedSets.AfterLast` | utils/FragmentedSet.py:9 | the last field of a path contains no separator |
| `FragmentedSets.AfterLastIsLastField` | utils/FragmentedSet.py:9 | `split(sep)[-1]` is the suffix after the last separator, or the whole string when there is none |
| `FragmentedSets.BeforeFirst` | utils/FragmentedSet.py:10 | the first field contains no dot |
| `FragmentedSets.BeforeFirstIsFirstField` | utils/FragmentedSet.py:10 | `split(".")[0]` is the prefix before the first dot, or the whole string when there is none |
| `FragmentedSets.SetName` | utils/FragmentedSet.py:9-10 | the set name contains neither the path separator `os.sep` nor `.` |
| `FragmentedSets.SetNameOfFile` | utils/FragmentedSet.py:9-10 | the set name of `dir` + `os.sep` + `base.ext` and of `base.ext` is `base`, whatever the directory and whatever follows the first dot |
| `FragmentedSets.FragmentedSet.constructor` | utils/FragmentedSet.py:8-19 | empty buffers, the set name derived with the given `os.sep`, the given maximum length and chunk size, and a fresh generator at the start of the records |
| `FragmentedSets.FragmentedSet.ProcessNextChunk` | utils/FragmentedSet.py:21-32 | returns true exactly when a batch is left. Each buffer becomes its old contents followed by that batch's ids, fragments and scopes. On exhaustion it returns false and nothing changes. The buffer invariant is preserved |
| `FragmentedSets.FragmentedSet.ProcessAll` | utils/FragmentedSet.py:34-36 | pulls until exhaustion. The buffers then end with the ids, fragments and scopes of all remaining records, as if fragmented in one go |
| `FragmentedSets.FragmentedSet.ClearBuffers` | process.py:81-83 | the caller's clear empties all three buffers and leaves the generator where it was |
| `Pipeline.FragmentedBatchIsGrouping` | utils/FragmentedSet.py:43-57 | the scopes `_fragment_sequences` returns are a valid grouping of its fragments for the reducer: each >= 1, summing to the fragment count |
| `Pipeline.BuffersAreGrouping` | utils/FragmentedSet.py:21-32 | whatever chunks a set has accumulated, its `scopes` group its `frags` as `to_sequence_prediction` needs |
| `Process.ArgMax` | process.py:143 | `np.argmax` of a non-empty vector: an index holding the maximum, with every earlier value strictly smaller (first occurrence) |
| `Process.ToSequencePrediction` | process.py:134-149 | three lists, one entry per scope, in scope order. Entry `k` holds the first best index of group `k` (the scores from `sum(scopes[..k])`, `scopes[k]` long). It also holds the score and the fragment at that index |
| `Process.BestIsGroupMax` | process.py:141-146 | the reduced score is the maximum of its group, and every fragment of the group before the chosen one scores strictly less |
| `Process.AppendPredictionsToCsv` | process.py:123-131 | one row per (id, scope) pair, up to the shorter list. Row `k` has id `ids[k]`, the group's best score and fragment, and `beg` = chosen index + 1. `end` is -1 exactly when the fragment is shorter than 40; otherwise it is `beg + 39` |
| `Process.KeptIndicesUnprocessed` | process.py:113-114 | every kept sequence has an id that is not in `processed_ids` |
| `Process.KeptIndicesComplete` | process.py:113-114 | every sequence whose id is not in `processed_ids` is kept |
| `Process.KeptIndicesAscending` | process.py:113-114 | the kept sequences stay in their original order |
| `Process.GetNewFragments` | process.py:107-120 | the new ids and scopes are those of the kept sequences, in order. The new fragments are the kept groups' slices, concatenated. The offsets still count every original scope, kept or not |
| `Process.FilteredAligned` | process.py:113-118 | when the scopes fit the fragments, the new buffers stay aligned. One scope per id, `sum(new_scopes) == len(new_frags)`, and new group `j` equals the original group of the `j`-th kept sequence |

## Left out

- `predict` (process.py:17-97) is not modelled. It covers model discovery and loading, calling the models, printing progress and timing. These are file-system, framework and clock operations. This includes the end-of-file statistics, which divide by the sequence and fragment counts and fail for an empty file.
- The ensemble mean `np.mean` (process.py:67) is left out. It is floating-point arithmetic over an external library.
- `tokenize_seqs` is not part of this model. It is an external tokenizer.
- `initialize_csv`, the header line, `file.write` and the `%.3f` formatting (process.py:100-104, 131) are left out. The model returns the rows instead.
- `makedir` and the constants of utils/config.py are left out (file-system I/O). Only the literal window length 40 is kept (`Process.FullWindow`).
- FASTA parsing by the external parser (utils/datasets.py:12) is left out. Its output is the given record sequence. Opening the file lazily and I/O errors are not modelled.
- The command-line interface (process.py:152-163) is left out.
- `Process.ToSequencePrediction` requires every scope >= 1 and that the scopes fit both the scores and the fragments. The source does not check this. An empty group makes `np.argmax` raise, and a too-short list makes the indexing fail. `np.argmax` on a truncated final slice is not modelled either.
- `Process.AppendPredictionsToCsv` has the same precondition as `Process.ToSequencePrediction`, for the same reason.
- `Process.ArgMax` compares real numbers, so the NaN handling of `np.argmax` is not modelled.
- `FragmentedSets.FragmentSequences` takes `max_seq_len` as a natural number. A negative one would make Python's slices count from the end; the program only passes 40.
- The default arguments `chunk_size=10` (utils/FragmentedSet.py:8) and `chunk_size=1000` (utils/datasets.py:6) are not modelled, because every caller passes `chunk_size`.
- `FragmentedSets.SetName` does not read `os.sep` from the platform. The separator is a parameter (`pathSep`), so the model covers `/` (POSIX) and `\` (Windows) alike.
