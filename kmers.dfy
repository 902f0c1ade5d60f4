/**
 * K-mer extraction (`get_kmers` in assemble.py): a window of width k slides
 * over each read. The window count is `range(len(read) - k)`, one fewer than
 * the number of width-k windows a read has, so the final window of every
 * read is never emitted.
 */
module Kmers {
  import opened Python

  /** The number of offsets `get_kmers` visits in a read of length `len`. */
  function WindowCount(len: nat, k: int): nat
  {
    RangeLength(len - k)
  }

  /** The k-mers taken from one read, in offset order. */
  function ReadKmers(read: string, k: int): seq<string>
  {
    seq(WindowCount(|read|, k), i requires 0 <= i => Slice(read, i, i + k))
  }

  /** The k-mers taken from all reads: read order, then offset order. */
  function AllKmers(readList: seq<string>, k: int): seq<string>
  {
    if readList == [] then []
    else AllKmers(readList[..|readList| - 1], k) + ReadKmers(readList[|readList| - 1], k)
  }

  /** The sum over the reads of max(0, len(read) - k). */
  function TotalWindows(readList: seq<string>, k: int): nat
  {
    if readList == [] then 0
    else TotalWindows(readList[..|readList| - 1], k) + WindowCount(|readList[|readList| - 1]|, k)
  }

  /** Where the k-mers of read number r start in the output. */
  function Offset(readList: seq<string>, r: nat, k: int): nat
    requires r <= |readList|
  {
    TotalWindows(readList[..r], k)
  }

  /** `get_kmers(reads, k)`: the nested loops appending to `kmers`. */
  method GetKmers(readList: seq<string>, k: int) returns (kmers: seq<string>)
    ensures kmers == AllKmers(readList, k)
  {
    kmers := [];
    for r := 0 to |readList|
      invariant kmers == AllKmers(readList[..r], k)
    {
      var read := readList[r];
      for i := 0 to RangeLength(|read| - k)
        invariant kmers == AllKmers(readList[..r], k) + ReadKmers(read, k)[..i]
      {
        assert ReadKmers(read, k)[..i + 1] == ReadKmers(read, k)[..i] + [Slice(read, i, i + k)];
        kmers := kmers + [Slice(read, i, i + k)];
      }
      AllKmersStep(readList, r, k);
    }
    assert readList[..|readList|] == readList;
  }

  /** The k-mers of one more read follow those of the reads before it. */
  lemma {:induction false} AllKmersStep(readList: seq<string>, r: nat, k: int)
    requires r < |readList|
    ensures AllKmers(readList[..r + 1], k) == AllKmers(readList[..r], k) + ReadKmers(readList[r], k)
  {
    assert readList[..r + 1][..r] == readList[..r];
    assert readList[..r + 1][r] == readList[r];
  }

  /** The output holds exactly sum(max(0, len(read) - k)) k-mers. */
  lemma {:induction false} KmerCount(readList: seq<string>, k: int)
    ensures |AllKmers(readList, k)| == TotalWindows(readList, k)
  {
    if readList != [] {
      KmerCount(readList[..|readList| - 1], k);
    }
  }

  /** Offsets grow with the read number: read r's k-mers all come before read r2's. */
  lemma {:induction false} OffsetOrder(readList: seq<string>, r: nat, r2: nat, k: int)
    requires r < r2 <= |readList|
    ensures Offset(readList, r, k) + WindowCount(|readList[r]|, k) <= Offset(readList, r2, k)
  {
    assert readList[..r2][..r2 - 1] == readList[..r2 - 1];
    if r < r2 - 1 {
      OffsetOrder(readList, r, r2 - 1, k);
    }
  }

  /** The k-mer at offset i of read r sits at position Offset(r) + i and is `read[i:i+k]`. */
  lemma {:induction false} KmerAt(readList: seq<string>, k: nat, r: nat, i: nat)
    requires r < |readList| && i < |readList[r]| - k
    ensures Offset(readList, r, k) + i < |AllKmers(readList, k)|
    ensures AllKmers(readList, k)[Offset(readList, r, k) + i] == readList[r][i..i + k]
  {
    var init := readList[..|readList| - 1];
    KmerCount(init, k);
    assert AllKmers(readList, k) == AllKmers(init, k) + ReadKmers(readList[|readList| - 1], k);
    if r == |readList| - 1 {
      assert readList[..r] == init;
      assert ReadKmers(readList[r], k)[i] == Slice(readList[r], i, i + k);
    } else {
      assert init[..r] == readList[..r];
      KmerAt(init, k, r, i);
    }
  }

  /** Every emitted k-mer is `read[i:i+k]` for a read and an offset 0 <= i < len(read) - k. */
  lemma {:induction false} KmerOrigin(readList: seq<string>, k: nat, j: nat) returns (r: nat, i: nat)
    requires j < |AllKmers(readList, k)|
    ensures r < |readList| && i < |readList[r]| - k
    ensures j == Offset(readList, r, k) + i
    ensures AllKmers(readList, k)[j] == readList[r][i..i + k]
  {
    var init := readList[..|readList| - 1];
    KmerCount(init, k);
    if j < |AllKmers(init, k)| {
      r, i := KmerOrigin(init, k, j);
      assert init[..r] == readList[..r];
    } else {
      r, i := |readList| - 1, j - |AllKmers(init, k)|;
      assert readList[..r] == init;
      assert AllKmers(readList, k) == AllKmers(init, k) + ReadKmers(readList[r], k);
      assert AllKmers(readList, k)[j] == ReadKmers(readList[r], k)[i] == Slice(readList[r], i, i + k);
    }
  }

  /** With k >= 0 every k-mer has length exactly k. */
  lemma {:induction false} KmerLength(readList: seq<string>, k: nat)
    ensures forall km :: km in AllKmers(readList, k) ==> |km| == k
  {
    forall km | km in AllKmers(readList, k)
      ensures |km| == k
    {
      var j :| 0 <= j < |AllKmers(readList, k)| && AllKmers(readList, k)[j] == km;
      var r, i := KmerOrigin(readList, k, j);
    }
  }

  /** All L - k + 1 windows of width k of a read of length L >= k. */
  function FullWindows(read: string, k: nat): (w: seq<string>)
    requires k <= |read|
  {
    seq(|read| - k + 1, i requires 0 <= i < |read| - k + 1 => read[i..i + k])
  }

  /** `get_kmers` emits every window of a read but the last one. */
  lemma {:induction false} LastWindowOmitted(read: string, k: nat)
    requires k <= |read|
    ensures ReadKmers(read, k) == FullWindows(read, k)[..|read| - k]
    ensures |ReadKmers(read, k)| + 1 == |FullWindows(read, k)|
  {
    forall i | 0 <= i < |read| - k
      ensures ReadKmers(read, k)[i] == FullWindows(read, k)[i]
    {
      assert ReadKmers(read, k)[i] == Slice(read, i, i + k);
    }
  }

  /**
   * For a read that ends in a newline, the omitted last window is the one
   * holding the newline, and the k-mers are exactly all windows of the text
   * before it. `readlines` gives every line a newline except a last line
   * without one: from that read the omitted window is a real k-mer
   * (`LastWindowOmitted`).
   */
  lemma {:induction false} NewlineTerminatedRead(line: string, k: nat)
    requires k <= |line|
    ensures ReadKmers(line + ['\n'], k) == FullWindows(line, k)
  {
    var read := line + ['\n'];
    forall i | 0 <= i < |line| - k + 1
      ensures ReadKmers(read, k)[i] == FullWindows(line, k)[i]
    {
      assert ReadKmers(read, k)[i] == Slice(read, i, i + k);
      assert read[i..i + k] == line[i..i + k];
    }
  }
}
