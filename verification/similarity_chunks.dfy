/**
 * The offline builder of the similarity map (`generateMatrixChunks.py`, and
 * its copy under `book-select-app/backend/`). The rows of the book table are
 * processed in chunks of `ChunkSize`; for every row the similarity scores
 * against all books are ranked, the best entry (the book itself) is skipped
 * and the next 100 are kept under the row's title. Each chunk's map goes to
 * its own file, and the files are merged in chunk order with `dict.update`.
 *
 * The similarity matrix is an input (`sim[i][j]` is the score of book `j`
 * for book `i`); how it is computed is not part of this model.
 */
module SimilarityChunks {
  import opened Api
  import opened Sorting

  /** `chunkSize`: rows per chunk. */
  const ChunkSize: nat := 1000
  /** How many ranked entries are kept after the skipped first one. */
  const TopCount: nat := 100

  // ---------------------------------------------------------------------------
  // Chunk bounds

  /** Python's `range(start, stop, step)` for a positive step. */
  function Range(start: nat, stop: nat, step: nat): (r: seq<nat>)
    requires step > 0
    ensures forall k :: 0 <= k < |r| ==> start <= r[k] < stop
    decreases stop - start
  {
    if start >= stop then [] else [start] + Range(start + step, stop, step)
  }

  /** The chunk starts: `range(0, numBooks, chunkSize)`. */
  function ChunkStarts(numBooks: nat, chunkSize: nat): seq<nat>
    requires chunkSize > 0
  {
    Range(0, numBooks, chunkSize)
  }

  /** `endIndex = min(startIndex + chunkSize, numBooks)`. */
  function ChunkEnd(start: nat, numBooks: nat, chunkSize: nat): (e: nat)
    ensures e <= numBooks && e <= start + chunkSize
    ensures e == numBooks || e == start + chunkSize
  {
    if start + chunkSize < numBooks then start + chunkSize else numBooks
  }

  /** The chunk file number `int(startIndex / chunkSize)` (a non-negative quotient, so truncation is floor). */
  function FileIndex(start: nat): nat {
    start / ChunkSize
  }

  /** The `k`-th element of a range is `start + k * step`. */
  lemma {:induction false} RangeAt(start: nat, stop: nat, step: nat, k: nat)
    requires step > 0 && k < |Range(start, stop, step)|
    ensures Range(start, stop, step)[k] == start + k * step
    decreases stop - start
  {
    if k > 0 {
      RangeAt(start + step, stop, step, k - 1);
    }
  }

  /** Consecutive elements of a range are one step apart; the last is within a step of `stop`. */
  lemma {:induction false} RangeNext(start: nat, stop: nat, step: nat, k: nat)
    requires step > 0 && k < |Range(start, stop, step)|
    ensures k + 1 < |Range(start, stop, step)| ==> Range(start, stop, step)[k + 1] == Range(start, stop, step)[k] + step
    ensures k + 1 == |Range(start, stop, step)| ==> stop <= Range(start, stop, step)[k] + step
    decreases stop - start
  {
    if k > 0 {
      RangeNext(start + step, stop, step, k - 1);
    }
  }

  /** Every chunk is non-empty and holds at most `chunkSize` rows. */
  lemma ChunkSizes(numBooks: nat, chunkSize: nat, k: nat)
    requires chunkSize > 0 && k < |ChunkStarts(numBooks, chunkSize)|
    ensures ChunkStarts(numBooks, chunkSize)[k] < ChunkEnd(ChunkStarts(numBooks, chunkSize)[k], numBooks, chunkSize)
    ensures ChunkEnd(ChunkStarts(numBooks, chunkSize)[k], numBooks, chunkSize) - ChunkStarts(numBooks, chunkSize)[k] <= chunkSize
  {
    assert ChunkStarts(numBooks, chunkSize)[k] in Range(0, numBooks, chunkSize);
  }

  /** Chunks do not overlap: each ends no later than any later chunk starts. */
  lemma {:induction false} ChunksDisjoint(start: nat, numBooks: nat, chunkSize: nat, i: nat, j: nat)
    requires chunkSize > 0 && i < j < |Range(start, numBooks, chunkSize)|
    ensures ChunkEnd(Range(start, numBooks, chunkSize)[i], numBooks, chunkSize) <= Range(start, numBooks, chunkSize)[j]
    decreases numBooks - start
  {
    var r := Range(start, numBooks, chunkSize);
    var tail := Range(start + chunkSize, numBooks, chunkSize);
    assert r == [start] + tail;
    if i == 0 {
      assert r[j] == tail[j - 1];
    } else {
      ChunksDisjoint(start + chunkSize, numBooks, chunkSize, i - 1, j - 1);
    }
  }

  /** Every row from `start` up to `numBooks` lies in some chunk. */
  lemma {:induction false} ChunksCover(start: nat, numBooks: nat, chunkSize: nat, x: nat)
    requires chunkSize > 0 && start <= x < numBooks
    ensures exists k :: 0 <= k < |Range(start, numBooks, chunkSize)| &&
              Range(start, numBooks, chunkSize)[k] <= x < ChunkEnd(Range(start, numBooks, chunkSize)[k], numBooks, chunkSize)
    decreases numBooks - start
  {
    var r := Range(start, numBooks, chunkSize);
    var tail := Range(start + chunkSize, numBooks, chunkSize);
    assert r == [start] + tail;
    if x < start + chunkSize {
      assert r[0] <= x < ChunkEnd(r[0], numBooks, chunkSize);
    } else {
      ChunksCover(start + chunkSize, numBooks, chunkSize, x);
      var k :| 0 <= k < |tail| && tail[k] <= x < ChunkEnd(tail[k], numBooks, chunkSize);
      assert r[k + 1] == tail[k];
    }
  }

  /** The chunk starting at `k * chunkSize` is written to file `k`, so no two chunks share a file. */
  lemma ChunkFileIndex(numBooks: nat, k: nat)
    requires k < |ChunkStarts(numBooks, ChunkSize)|
    ensures ChunkStarts(numBooks, ChunkSize)[k] == k * ChunkSize
    ensures FileIndex(ChunkStarts(numBooks, ChunkSize)[k]) == k
  {
    RangeAt(0, numBooks, ChunkSize, k);
  }

  // ---------------------------------------------------------------------------
  // One row's top list

  /** One element of `enumerate(scores)`: a column index and its score. */
  datatype Scored = Scored(index: nat, score: real)

  /** The sort key `x[1]`. */
  function ScoreOf(e: Scored): real {
    e.score
  }

  /** The score of a stored pair. */
  function SimilarScore(e: Similar): real {
    e.score
  }

  /** `list(enumerate(row))`. */
  function Enumerate(row: seq<real>): (r: seq<Scored>)
    ensures |r| == |row|
    ensures forall j :: 0 <= j < |row| ==> r[j] == Scored(j, row[j])
  {
    seq(|row|, j requires 0 <= j < |row| => Scored(j, row[j]))
  }

  /** Python's `s[1:101]`: skip the first element, keep up to the next 100. */
  function SkipFirstTake(s: seq<Scored>): (r: seq<Scored>)
    ensures |s| <= 1 ==> r == []
    ensures |s| > 1 ==> |r| == (if |s| - 1 < TopCount then |s| - 1 else TopCount)
    ensures forall k :: 0 <= k < |r| ==> r[k] == s[k + 1]
  {
    if |s| <= 1 then []
    else s[1..if |s| < TopCount + 1 then |s| else TopCount + 1]
  }

  /** The ranking of a row: the enumerated scores sorted by descending score; every entry names a column. */
  function Ranking(row: seq<real>): (r: seq<Scored>)
    ensures SortedDesc(r, ScoreOf) && multiset(r) == multiset(Enumerate(row))
    ensures |r| == |row|
    ensures forall k :: 0 <= k < |r| ==> r[k].index < |row|
  {
    var r := SortDesc(Enumerate(row), ScoreOf);
    assert forall k :: 0 <= k < |r| ==> r[k].index < |row| by {
      forall k | 0 <= k < |r| ensures r[k].index < |row| {
        SortedFromInput(Enumerate(row), ScoreOf, k);
      }
    }
    r
  }

  /** `[(title_of[j], score) for j, score in entries]`. */
  function Label(titles: seq<string>, entries: seq<Scored>): (r: seq<Similar>)
    requires forall k :: 0 <= k < |entries| ==> entries[k].index < |titles|
    ensures |r| == |entries|
    ensures forall k :: 0 <= k < |r| ==> r[k] == Similar(titles[entries[k].index], entries[k].score)
  {
    seq(|entries|, k requires 0 <= k < |entries| => Similar(titles[entries[k].index], entries[k].score))
  }

  /** The stored list of one row: rank, skip the first, keep 100, label with titles. */
  function TopList(titles: seq<string>, row: seq<real>): seq<Similar>
    requires |row| <= |titles|
  {
    Label(titles, SkipFirstTake(Ranking(row)))
  }

  /**
   * A stored list has `min(100, |row| - 1)` entries (none for an empty row),
   * is ordered by non-increasing score, and is the ranking with its first
   * entry skipped.
   */
  lemma TopListSpec(titles: seq<string>, row: seq<real>)
    requires |row| <= |titles|
    ensures |TopList(titles, row)| == if |row| <= 1 then 0 else if |row| - 1 < TopCount then |row| - 1 else TopCount
    ensures SortedDesc(TopList(titles, row), SimilarScore)
    ensures forall k :: 0 <= k < |TopList(titles, row)| ==>
              TopList(titles, row)[k] == Similar(titles[Ranking(row)[k + 1].index], Ranking(row)[k + 1].score)
  {
    var ranked := Ranking(row);
    var kept := SkipFirstTake(ranked);
    var r := TopList(titles, row);
    forall i, j | 0 <= i < j < |r| ensures SimilarScore(r[i]) >= SimilarScore(r[j]) {
      assert r[i].score == ranked[i + 1].score && r[j].score == ranked[j + 1].score;
      assert ScoreOf(ranked[i + 1]) >= ScoreOf(ranked[j + 1]);
    }
  }

  // ---------------------------------------------------------------------------
  // Chunk maps and the merge

  /** The matrix has one row per book and one column per book. */
  predicate WellShaped(titles: seq<string>, sim: seq<seq<real>>) {
    |sim| == |titles| && forall i :: 0 <= i < |sim| ==> |sim[i]| == |titles|
  }

  /**
   * The dictionary a loop over positions `start..end` builds by assigning
   * `values[i]` to `keys[i]`: a later position overwrites an earlier one with
   * the same key.
   */
  function Collect<V>(keys: seq<string>, values: seq<V>, start: nat, end: nat): map<string, V>
    requires |keys| == |values| && end <= |keys|
    decreases end
  {
    if end <= start then map[]
    else Collect(keys, values, start, end - 1)[keys[end - 1] := values[end - 1]]
  }

  /** A key is present exactly when some position of the range carries it. */
  lemma {:induction false} CollectKeys<V>(keys: seq<string>, values: seq<V>, start: nat, end: nat, t: string)
    requires |keys| == |values| && end <= |keys|
    ensures t in Collect(keys, values, start, end) <==> exists i :: start <= i < end && keys[i] == t
    decreases end
  {
    if end > start {
      CollectKeys(keys, values, start, end - 1, t);
    }
  }

  /** For a key carried by several positions, the last of them decides the value. */
  lemma {:induction false} CollectLastWins<V>(keys: seq<string>, values: seq<V>, start: nat, end: nat, i: nat)
    requires |keys| == |values| && start <= i < end <= |keys|
    requires forall j :: i < j < end ==> keys[j] != keys[i]
    ensures keys[i] in Collect(keys, values, start, end)
    ensures Collect(keys, values, start, end)[keys[i]] == values[i]
    decreases end
  {
    if i < end - 1 {
      CollectLastWins(keys, values, start, end - 1, i);
    }
  }

  /** `dict.update` of the map of positions `a..b` with the map of positions `b..c` gives the map of `a..c`. */
  lemma {:induction false} CollectUpdate<V>(keys: seq<string>, values: seq<V>, a: nat, b: nat, c: nat)
    requires |keys| == |values| && a <= b <= c <= |keys|
    ensures Collect(keys, values, a, b) + Collect(keys, values, b, c) == Collect(keys, values, a, c)
    decreases c
  {
    if c > b {
      CollectUpdate(keys, values, a, b, c - 1);
    } else {
      assert Collect(keys, values, b, c) == map[];
    }
  }

  /** The stored list of every row. */
  function TopLists(titles: seq<string>, sim: seq<seq<real>>): (r: seq<seq<Similar>>)
    requires WellShaped(titles, sim)
    ensures |r| == |sim|
  {
    seq(|sim|, i requires 0 <= i < |sim| => TopList(titles, sim[i]))
  }

  /** The dictionary `processChunkSimilarity` builds for the rows `start..end`. */
  function ChunkMap(titles: seq<string>, sim: seq<seq<real>>, start: nat, end: nat): map<string, seq<Similar>>
    requires WellShaped(titles, sim) && end <= |titles|
  {
    Collect(titles, TopLists(titles, sim), start, end)
  }

  /** One more row of the loop assigns that row's stored list to its title. */
  lemma ChunkMapStep(titles: seq<string>, sim: seq<seq<real>>, start: nat, index: nat)
    requires WellShaped(titles, sim) && start <= index < |titles|
    ensures ChunkMap(titles, sim, start, index + 1) == ChunkMap(titles, sim, start, index)[titles[index] := TopLists(titles, sim)[index]]
  {
  }

  /** Chunk file `k` holds the dictionary of the `k`-th chunk of rows. */
  predicate HoldsChunk(files: map<nat, map<string, seq<Similar>>>, titles: seq<string>, sim: seq<seq<real>>, k: nat)
    requires WellShaped(titles, sim)
  {
    var starts := ChunkStarts(|titles|, ChunkSize);
    k < |starts| && k in files &&
    files[k] == ChunkMap(titles, sim, starts[k], ChunkEnd(starts[k], |titles|, ChunkSize))
  }

  /**
   * One round of the merge loop: chunk `k` starts at `k * 1000`, lives in file
   * `k`, and its map extends the merged map of the rows before it up to the
   * next chunk's start (or the end, after the last chunk).
   */
  lemma MergeStep(titles: seq<string>, sim: seq<seq<real>>, k: nat)
    requires WellShaped(titles, sim) && k < |ChunkStarts(|titles|, ChunkSize)|
    ensures FileIndex(ChunkStarts(|titles|, ChunkSize)[k]) == k
    ensures ChunkMap(titles, sim, 0, ChunkStarts(|titles|, ChunkSize)[k]) +
            ChunkMap(titles, sim, ChunkStarts(|titles|, ChunkSize)[k], ChunkEnd(ChunkStarts(|titles|, ChunkSize)[k], |titles|, ChunkSize)) ==
            ChunkMap(titles, sim, 0, ChunkEnd(ChunkStarts(|titles|, ChunkSize)[k], |titles|, ChunkSize))
    ensures k + 1 < |ChunkStarts(|titles|, ChunkSize)| ==>
              ChunkStarts(|titles|, ChunkSize)[k + 1] == ChunkEnd(ChunkStarts(|titles|, ChunkSize)[k], |titles|, ChunkSize)
    ensures k + 1 == |ChunkStarts(|titles|, ChunkSize)| ==>
              ChunkEnd(ChunkStarts(|titles|, ChunkSize)[k], |titles|, ChunkSize) == |titles|
  {
    var starts := ChunkStarts(|titles|, ChunkSize);
    ChunkFileIndex(|titles|, k);
    RangeNext(0, |titles|, ChunkSize, k);
    CollectUpdate(titles, TopLists(titles, sim), 0, starts[k], ChunkEnd(starts[k], |titles|, ChunkSize));
  }

  /** The files numbered `from` and above are the same in `f` and `g`: none appeared, vanished or changed. */
  ghost predicate SameFrom(f: map<nat, map<string, seq<Similar>>>, g: map<nat, map<string, seq<Similar>>>, from: nat) {
    forall k: nat :: from <= k ==> (k in f <==> k in g) && (k in f ==> f[k] == g[k])
  }

  /**
   * Deleting chunk file `k` after the files before it are gone: files up to
   * `k` are gone, every later chunk file is as it was, and so is every file
   * that holds no chunk.
   */
  lemma MergedFileRemoved(files: map<nat, map<string, seq<Similar>>>, orig: map<nat, map<string, seq<Similar>>>,
                          titles: seq<string>, sim: seq<seq<real>>, k: nat)
    requires WellShaped(titles, sim) && k < |ChunkStarts(|titles|, ChunkSize)|
    requires forall m :: 0 <= m < k ==> m !in files
    requires forall m :: k < m < |ChunkStarts(|titles|, ChunkSize)| ==> HoldsChunk(files, titles, sim, m)
    requires SameFrom(files, orig, |ChunkStarts(|titles|, ChunkSize)|)
    ensures forall m :: 0 <= m <= k ==> m !in files - {k}
    ensures forall m :: k < m < |ChunkStarts(|titles|, ChunkSize)| ==> HoldsChunk(files - {k}, titles, sim, m)
    ensures SameFrom(files - {k}, orig, |ChunkStarts(|titles|, ChunkSize)|)
  {
    var rest := files - {k};
    forall m | k < m < |ChunkStarts(|titles|, ChunkSize)| ensures HoldsChunk(rest, titles, sim, m) {
      assert HoldsChunk(files, titles, sim, m);
    }
  }

  /** The global state of the builder: the book titles, the matrix, and the chunk files on disk. */
  class SimilarityBuilder {
    const titles: seq<string>
    const sim: seq<seq<real>>
    /** The pickled chunk files, by chunk number. */
    var files: map<nat, map<string, seq<Similar>>>

    constructor (titles: seq<string>, sim: seq<seq<real>>)
      requires WellShaped(titles, sim)
      ensures this.titles == titles && this.sim == sim && files == map[]
    {
      this.titles := titles;
      this.sim := sim;
      files := map[];
    }

    /** The body of the row loop: enumerate the row's scores, sort them, skip the first, keep 100, label. */
    method RowTopList(index: nat) returns (list: seq<Similar>)
      requires WellShaped(titles, sim) && index < |titles|
      ensures list == TopLists(titles, sim)[index]
    {
      var simScores := Enumerate(sim[index]);
      simScores := SortDesc(simScores, ScoreOf);
      assert simScores == Ranking(sim[index]);
      var top := SkipFirstTake(simScores);
      list := Label(titles, top);
    }

    /** The row loop of `processChunkSimilarity(startIndex)`: the chunk's dictionary, built row by row. */
    method ChunkSimilarity(startIndex: nat) returns (topSimilarBooks: map<string, seq<Similar>>)
      requires WellShaped(titles, sim) && startIndex < |titles|
      ensures topSimilarBooks == ChunkMap(titles, sim, startIndex, ChunkEnd(startIndex, |titles|, ChunkSize))
    {
      var endIndex := ChunkEnd(startIndex, |titles|, ChunkSize);
      topSimilarBooks := map[];
      var index := startIndex;
      while index < endIndex
        invariant startIndex <= index <= endIndex <= |titles|
        invariant topSimilarBooks == ChunkMap(titles, sim, startIndex, index)
      {
        var list := RowTopList(index);
        ChunkMapStep(titles, sim, startIndex, index);
        topSimilarBooks := topSimilarBooks[titles[index] := list];
        index := index + 1;
      }
    }

    /** `processChunkSimilarity(startIndex)`: build the chunk's dictionary and write it to the chunk's file. */
    method ProcessChunkSimilarity(startIndex: nat)
      requires WellShaped(titles, sim) && startIndex < |titles|
      modifies this
      ensures files == old(files)[FileIndex(startIndex) :=
                ChunkMap(titles, sim, startIndex, ChunkEnd(startIndex, |titles|, ChunkSize))]
    {
      var topSimilarBooks := ChunkSimilarity(startIndex);
      files := files[FileIndex(startIndex) := topSimilarBooks];
    }

    /** The `pool.map(processChunkSimilarity, chunk_starts)` step: every chunk is written to its own file. */
    method ProcessAllChunks()
      requires WellShaped(titles, sim)
      modifies this
      ensures forall k :: 0 <= k < |ChunkStarts(|titles|, ChunkSize)| ==> HoldsChunk(files, titles, sim, k)
      ensures SameFrom(files, old(files), |ChunkStarts(|titles|, ChunkSize)|)
    {
      var starts := ChunkStarts(|titles|, ChunkSize);
      var k := 0;
      while k < |starts|
        invariant 0 <= k <= |starts|
        invariant forall m :: 0 <= m < k ==> HoldsChunk(files, titles, sim, m)
        invariant SameFrom(files, old(files), |starts|)
      {
        ChunkFileIndex(|titles|, k);
        ghost var before := files;
        ProcessChunkSimilarity(starts[k]);
        forall m | 0 <= m <= k ensures HoldsChunk(files, titles, sim, m) {
          if m < k {
            assert HoldsChunk(before, titles, sim, m);
          }
        }
        k := k + 1;
      }
    }

    /**
     * The merge: read the chunk files in chunk order into one dictionary with
     * `dict.update`, deleting each file after it is read. The merged map is the
     * one a single pass over all rows would build, and no chunk file is left.
     */
    method MergeChunks() returns (all: map<string, seq<Similar>>)
      requires WellShaped(titles, sim)
      requires forall k :: 0 <= k < |ChunkStarts(|titles|, ChunkSize)| ==> HoldsChunk(files, titles, sim, k)
      modifies this
      ensures all == ChunkMap(titles, sim, 0, |titles|)
      ensures forall k :: 0 <= k < |ChunkStarts(|titles|, ChunkSize)| ==> k !in files
      ensures SameFrom(files, old(files), |ChunkStarts(|titles|, ChunkSize)|)
    {
      var n := |titles|;
      var starts := ChunkStarts(n, ChunkSize);
      all := map[];
      var merged: nat := 0;
      var k := 0;
      while k < |starts|
        invariant 0 <= k <= |starts|
        invariant merged == if k < |starts| then starts[k] else n
        invariant merged <= n
        invariant all == ChunkMap(titles, sim, 0, merged)
        invariant forall m :: 0 <= m < k ==> m !in files
        invariant forall m :: k <= m < |starts| ==> HoldsChunk(files, titles, sim, m)
        invariant SameFrom(files, old(files), |starts|)
      {
        MergeStep(titles, sim, k);
        var file := FileIndex(starts[k]);
        assert file == k && HoldsChunk(files, titles, sim, k);
        var chunkData := files[file];
        all := all + chunkData;
        MergedFileRemoved(files, old(files), titles, sim, k);
        files := files - {file};
        merged := ChunkEnd(starts[k], n, ChunkSize);
        k := k + 1;
      }
      if starts == [] {
        assert n == 0;
      }
    }

    /** The `__main__` block: process every chunk, then merge the chunk files. */
    method BuildAll() returns (all: map<string, seq<Similar>>)
      requires WellShaped(titles, sim)
      modifies this
      ensures all == ChunkMap(titles, sim, 0, |titles|)
      ensures forall k :: 0 <= k < |ChunkStarts(|titles|, ChunkSize)| ==> k !in files
      ensures SameFrom(files, old(files), |ChunkStarts(|titles|, ChunkSize)|)
    {
      ProcessAllChunks();
      all := MergeChunks();
    }
  }
}
