/**
 * How Mist cuts a payload into shards. Every revision slices with a fixed
 * step, `data[i:i+step]` for `i` in `xrange(0, len(data), step)`; they
 * differ in how the step is chosen.
 */
module Split {
  import opened Common

  /** `MistChunk.CHUNK_SIZE` in mist_chunk.py: 512*10*1000 bytes. */
  const CHUNK_SIZE: nat := 5120000

  /** `MistDataFile.MAX_DATA_FILE_SPLIT_NUM`. */
  const MAX_DATA_FILE_SPLIT_NUM: nat := 10

  /** The pieces `data[i:i+step]` for `i = 0, step, 2*step, ...` below `|data|`. */
  function Slices<T>(data: seq<T>, step: nat): seq<seq<T>>
    requires step > 0
    decreases |data|
  {
    if data == [] then [] else [Take(data, step)] + Slices(Drop(data, step), step)
  }

  /** The pieces joined in order. */
  function Concat<T>(parts: seq<seq<T>>): seq<T>
  {
    if parts == [] then [] else parts[0] + Concat(parts[1..])
  }

  lemma {:induction false} ConcatAppend<T>(a: seq<seq<T>>, b: seq<seq<T>>)
    ensures Concat(a + b) == Concat(a) + Concat(b)
  {
    if a != [] {
      assert (a + b)[1..] == a[1..] + b;
      ConcatAppend(a[1..], b);
    } else {
      assert a + b == b;
    }
  }

  /** Joining the pieces in order gives the payload back. */
  lemma {:induction false} SlicesConcat<T>(data: seq<T>, step: nat)
    requires step > 0
    ensures Concat(Slices(data, step)) == data
    decreases |data|
  {
    if data != [] {
      SlicesConcat(Drop(data, step), step);
    }
  }

  /** Slicing from offset `i` takes one piece there and goes on one step later. */
  lemma SlicesUnfold<T>(data: seq<T>, i: nat, step: nat)
    requires step > 0 && i < |data|
    ensures Slices(Drop(data, i), step) == [Take(Drop(data, i), step)] + Slices(Drop(data, i + step), step)
  {
    DropDrop(data, i, step);
  }

  /** One more round of a slicing loop that has produced `pieces` and stands at offset `i`. */
  lemma SlicesStep<T>(data: seq<T>, step: nat, pieces: seq<seq<T>>, i: nat)
    requires step > 0 && i < |data|
    requires Slices(data, step) == pieces + Slices(Drop(data, i), step)
    ensures Slices(data, step) == (pieces + [Take(Drop(data, i), step)]) + Slices(Drop(data, i + step), step)
    ensures |pieces| < |Slices(data, step)|
  {
    SlicesUnfold(data, i, step);
  }

  /** A payload of at most `k` steps is cut into at most `k` pieces. */
  lemma {:induction false} SlicesAtMost<T>(data: seq<T>, step: nat, k: nat)
    requires step > 0 && |data| <= k * step
    ensures |Slices(data, step)| <= k
    decreases |data|
  {
    if data != [] {
      assert k > 0;
      assert |Drop(data, step)| <= (k - 1) * step by {
        assert (k - 1) * step == k * step - step;
      }
      SlicesAtMost(Drop(data, step), step, k - 1);
    }
  }

  /** A payload of more than `k` steps is cut into more than `k` pieces. */
  lemma {:induction false} SlicesMoreThan<T>(data: seq<T>, step: nat, k: nat)
    requires step > 0 && |data| > k * step
    ensures |Slices(data, step)| > k
    decreases k
  {
    if k > 0 {
      assert |Drop(data, step)| > (k - 1) * step by {
        assert (k - 1) * step == k * step - step;
      }
      SlicesMoreThan(Drop(data, step), step, k - 1);
    }
  }

  /** Every piece but the last has exactly `step` elements; the last has 1 to `step`. */
  lemma {:induction false} SlicesSizes<T>(data: seq<T>, step: nat)
    requires step > 0
    ensures forall k :: 0 <= k < |Slices(data, step)| - 1 ==> |Slices(data, step)[k]| == step
    ensures |Slices(data, step)| > 0 ==> 1 <= |Slices(data, step)[|Slices(data, step)| - 1]| <= step
    ensures data == [] <==> Slices(data, step) == []
    decreases |data|
  {
    if data != [] {
      SlicesSizes(Drop(data, step), step);
    }
  }

  /** The total length of the pieces. */
  function SumOfSizes<T>(parts: seq<seq<T>>): nat
  {
    if parts == [] then 0 else |parts[0]| + SumOfSizes(parts[1..])
  }

  lemma {:induction false} ConcatLength<T>(parts: seq<seq<T>>)
    ensures |Concat(parts)| == SumOfSizes(parts)
  {
    if parts != [] {
      ConcatLength(parts[1..]);
    }
  }

  /** The slices of `data` together are exactly as long as `data`. */
  lemma SlicesTotal<T>(data: seq<T>, step: nat)
    requires step > 0
    ensures SumOfSizes(Slices(data, step)) == |data|
  {
    SlicesConcat(data, step);
    ConcatLength(Slices(data, step));
  }

  // ---------------------------------------------------------------------
  // Step policies
  // ---------------------------------------------------------------------

  /**
   * `MistDataFile._data_file_size` in data_files.py and mist_data_files.py:
   * a tenth of the payload when it is more than ten chunks long, one chunk
   * otherwise.
   */
  function PieceSize(n: nat): (step: nat)
    ensures step > 0
  {
    if n / CHUNK_SIZE > MAX_DATA_FILE_SPLIT_NUM then n / MAX_DATA_FILE_SPLIT_NUM else CHUNK_SIZE
  }

  /** Whatever its size, a payload is cut into at most 11 shards. */
  lemma PieceSizeBound<T>(data: seq<T>)
    ensures |Slices(data, PieceSize(|data|))| <= MAX_DATA_FILE_SPLIT_NUM + 1
  {
    var n := |data|;
    var step := PieceSize(n);
    if n / CHUNK_SIZE > MAX_DATA_FILE_SPLIT_NUM {
      assert n <= 11 * step;
    } else {
      assert n < 11 * CHUNK_SIZE;
    }
    SlicesAtMost(data, step, 11);
  }

  /**
   * The step of `MistDataFile._SplitFileIntoChunks` in mist.py: a tenth of
   * the payload, used only above `mist.MistChunk.CHUNK_SIZE` = 512000 bytes.
   */
  function TenthStep(n: nat): (step: nat)
    requires n > 512000
    ensures step > 0
  {
    n / 10
  }

  /** With a tenth as the step, a payload is cut into 10 or 11 pieces. */
  lemma TenthStepBound<T>(data: seq<T>)
    requires |data| > 512000
    ensures 10 <= |Slices(data, TenthStep(|data|))| <= 11
  {
    var n := |data|;
    var step := TenthStep(n);
    assert 9 * step < n <= 11 * step;
    SlicesAtMost(data, step, 11);
    SlicesMoreThan(data, step, 9);
  }
}
