/**
 * The list comprehension [words[i:i + n] for i in range(0, len(words), n)]
 * that cuts the word list into consecutive chunks of n words; the slice
 * stops at the end of the list, so the last chunk may be shorter.
 */
module Chunking {
  import opened Common

  /** range(start, stop, step) for a positive step: start, start + step, ... below stop. */
  function Range(start: nat, stop: nat, step: nat): (r: seq<nat>)
    requires step > 0
    ensures forall k :: 0 <= k < |r| ==> start <= r[k] < stop
    decreases stop - start
  {
    if start >= stop then [] else [start] + Range(start + step, stop, step)
  }

  /** The range has ceil((stop - start) / step) elements. */
  lemma {:induction false} RangeLength(start: nat, stop: nat, step: nat)
    requires step > 0
    ensures |Range(start, stop, step)| == if start < stop then (stop - start + step - 1) / step else 0
    decreases stop - start
  {
    if start < stop {
      RangeLength(start + step, stop, step);
      if start + step < stop {
        DivShift(stop - start - 1, step);
        assert (stop - start - 1) + step == stop - start + step - 1;
      } else {
        assert 0 <= stop - start - 1 < step;
        DivUnique(stop - start + step - 1, step, 1, stop - start - 1);
      }
    }
  }

  /** The k-th element of the range is start + k * step. */
  lemma {:induction false} RangeAt(start: nat, stop: nat, step: nat, k: nat)
    requires step > 0 && k < |Range(start, stop, step)|
    ensures Range(start, stop, step)[k] == start + k * step
    decreases k
  {
    if k > 0 {
      RangeAt(start + step, stop, step, k - 1);
      MulPred(k, step);
    }
  }

  lemma MulPred(k: nat, step: nat)
    requires k > 0
    ensures step + (k - 1) * step == k * step
  {
  }

  lemma DivShift(x: nat, step: nat)
    requires step > 0
    ensures (x + step) / step == x / step + 1
  {
    var q, r := x / step, x % step;
    assert x + step == (q + 1) * step + r;
    DivUnique(x + step, step, q + 1, r);
  }

  /** Euclidean division is determined by quotient and remainder. */
  lemma DivUnique(x: nat, d: nat, q: int, r: int)
    requires d > 0 && 0 <= r < d && x == q * d + r
    ensures x / d == q
  {
    var q', r' := x / d, x % d;
    assert q * d + r == q' * d + r';
    MulSub(q, q', d);
    if q > q' {
      MulAtLeast(q - q', d);
    } else if q < q' {
      MulSub(q', q, d);
      MulAtLeast(q' - q, d);
    }
  }

  lemma MulSub(a: int, b: int, d: int)
    ensures (a - b) * d == a * d - b * d
  {
  }

  lemma MulAtLeast(a: int, d: nat)
    requires a >= 1
    ensures a * d >= d
  {
    assert a * d == (a - 1) * d + d;
  }

  /** The comprehension itself: chunk k is the slice words[i:i + size] for the k-th i of the range. */
  function Chunks<T>(words: seq<T>, size: nat): (r: seq<seq<T>>)
    requires size > 0
  {
    var starts := Range(0, |words|, size);
    seq(|starts|, k requires 0 <= k < |starts| => words[starts[k] .. Min(starts[k] + size, |words|)])
  }

  /** Chunk k is the slice from k * size up to (k + 1) * size or the end of the list. */
  lemma ChunkAt<T>(words: seq<T>, size: nat, k: nat)
    requires size > 0 && k < |Chunks(words, size)|
    ensures k * size < |words|
    ensures Chunks(words, size)[k] == words[k * size .. Min((k + 1) * size, |words|)]
  {
    var starts := Range(0, |words|, size);
    RangeAt(0, |words|, size, k);
    assert starts[k] < |words|;
    MulPred(k + 1, size);
    assert Chunks(words, size)[k] == words[starts[k] .. Min(starts[k] + size, |words|)];
  }

  /**
   * The number of chunks is ceil(|words| / size): the smallest count whose
   * size-word blocks cover the list, and zero exactly for an empty list.
   */
  lemma ChunksCount<T>(words: seq<T>, size: nat)
    requires size > 0
    ensures |Chunks(words, size)| == (|words| + size - 1) / size
    ensures |Chunks(words, size)| * size >= |words|
    ensures |Chunks(words, size)| > 0 ==> (|Chunks(words, size)| - 1) * size < |words|
    ensures Chunks(words, size) == [] <==> words == []
  {
    RangeLength(0, |words|, size);
    CeilFacts(|words|, size);
  }

  /** (len + size - 1) / size is the least count of size-blocks that covers len. */
  lemma CeilFacts(len: nat, size: nat)
    requires size > 0
    ensures (len + size - 1) / size * size >= len
    ensures len == 0 <==> (len + size - 1) / size == 0
    ensures len > 0 ==> ((len + size - 1) / size - 1) * size < len
  {
    var q, r := (len + size - 1) / size, (len + size - 1) % size;
    assert q * size + r == len + size - 1;
    if len == 0 {
      DivUnique(size - 1, size, 0, size - 1);
    } else {
      DivAtLeastOne(len + size - 1, size);
      MulPred(q, size);
    }
  }

  lemma DivAtLeastOne(x: nat, d: nat)
    requires d > 0 && x >= d
    ensures x / d >= 1
  {
    DivShift(x - d, d);
  }

  /**
   * Every chunk is non-empty; all but the last hold exactly `size` words and
   * the last holds between 1 and `size`.
   */
  lemma ChunkSizes<T>(words: seq<T>, size: nat)
    requires size > 0
    ensures forall k :: 0 <= k < |Chunks(words, size)| ==> 1 <= |Chunks(words, size)[k]| <= size
    ensures forall k :: 0 <= k < |Chunks(words, size)| - 1 ==> |Chunks(words, size)[k]| == size
  {
    var cs := Chunks(words, size);
    forall k | 0 <= k < |cs|
      ensures 1 <= |cs[k]| <= size
      ensures k < |cs| - 1 ==> |cs[k]| == size
    {
      ChunkAt(words, size, k);
      if k < |cs| - 1 {
        ChunkAt(words, size, k + 1);
        assert (k + 1) * size == k * size + size;
      }
    }
  }

  /** Past the first chunk, the chunks of a list are the chunks of its remainder. */
  lemma ChunksTail<T>(words: seq<T>, size: nat)
    requires size > 0 && |words| > 0
    ensures Chunks(words, size) == [words[..Min(size, |words|)]] + Chunks(words[Min(size, |words|)..], size)
  {
    var cs := Chunks(words, size);
    var m := Min(size, |words|);
    var rest := words[m..];
    var ts := Chunks(rest, size);
    RangeLength(0, |words|, size);
    RangeLength(0, |rest|, size);
    ChunkAt(words, size, 0);
    if |words| <= size {
      DivUnique(|words| + size - 1, size, 1, |words| - 1);
      assert rest == [];
    } else {
      DivShift(|words| - 1, size);
      assert |words| + size - 1 == (|words| - 1) + size;
      assert |rest| + size - 1 == |words| - 1;
      assert |cs| == |ts| + 1;
      forall k | 0 <= k < |ts|
        ensures ts[k] == cs[k + 1]
      {
        ChunkAtTail(words, size, k);
      }
    }
    assert cs == [cs[0]] + cs[1..];
  }

  lemma ChunkAtTail<T>(words: seq<T>, size: nat, k: nat)
    requires size > 0 && |words| > size
    requires k < |Chunks(words[size..], size)| && k + 1 < |Chunks(words, size)|
    ensures Chunks(words[size..], size)[k] == Chunks(words, size)[k + 1]
  {
    var rest := words[size..];
    ChunkAt(rest, size, k);
    ChunkAt(words, size, k + 1);
    var lo, hi := k * size, (k + 1) * size;
    assert (k + 1) * size == size + lo by { MulPred(k + 1, size); }
    assert (k + 2) * size == size + hi by { MulPred(k + 2, size); }
    SliceShift(words, size, lo, Min(hi, |rest|));
  }

  /** A slice of a suffix is the shifted slice of the whole. */
  lemma SliceShift<T>(words: seq<T>, d: nat, lo: nat, hi: nat)
    requires d <= |words| && lo <= hi <= |words| - d
    ensures words[d..][lo..hi] == words[d + lo .. d + hi]
  {
  }

  /**
   * No word is dropped, duplicated or reordered: the chunks, laid end to
   * end, are the original list.
   */
  lemma {:induction false} ChunksConcat<T>(words: seq<T>, size: nat)
    requires size > 0
    ensures Concat(Chunks(words, size)) == words
    decreases |words|
  {
    if |words| == 0 {
      ChunksCount(words, size);
    } else {
      var m := Min(size, |words|);
      ChunksTail(words, size);
      ChunksConcat(words[m..], size);
      assert ([words[..m]] + Chunks(words[m..], size))[1..] == Chunks(words[m..], size);
      assert words == words[..m] + words[m..];
    }
  }
}
