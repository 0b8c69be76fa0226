/**
 * `calculateFileHash`: hash a file by reading it in fixed-size slices from offset 0,
 * feeding each slice to an incremental SHA-256 accumulator and reporting progress
 * after each slice. The hash function itself is the parameter `digestOf`: the digest
 * of whatever byte sequence the accumulator has absorbed.
 */
module HashCalculator {
  import opened Wrappers
  import opened Files

  /** `const chunkSize = 256 * 1024` */
  const ChunkSize: nat := 256 * 1024

  /** One call `onProgress(processedBytes, totalBytes)`. */
  datatype Progress = Progress(processed: nat, total: nat)

  /** Why the returned promise rejects: the read of the slice starting at `start` failed. */
  datatype HashError = ReadFailed(start: nat, fault: ReadFault)

  /** What one run of the engine produces: digest or rejection, slice offsets read, progress calls. */
  datatype HashRun = HashRun(digest: Result<string, HashError>, requested: seq<nat>, progress: seq<Progress>)

  function Min(a: int, b: int): int
  {
    if a < b then a else b
  }

  // ---------------------------------------------------------------------------
  // Chunk geometry

  /** Offset of the k-th slice: the loop's `start` after k iterations. */
  function ChunkStart(k: nat, chunkSize: nat): nat
  {
    k * chunkSize
  }

  /** `Math.min(start + chunkSize, fileSize)` for the k-th slice. */
  function ChunkEnd(k: nat, chunkSize: nat, size: nat): nat
  {
    Min(ChunkStart(k, chunkSize) + chunkSize, size)
  }

  /** ceil(size / chunkSize) */
  function NumChunks(size: nat, chunkSize: nat): nat
    requires chunkSize > 0
  {
    (size + chunkSize - 1) / chunkSize
  }

  /** The loop condition `start < fileSize` holds at the k-th slice exactly when k < ceil(size / chunkSize). */
  lemma ChunkStartBelowSize(k: nat, size: nat, chunkSize: nat)
    requires chunkSize > 0
    ensures ChunkStart(k, chunkSize) < size <==> k < NumChunks(size, chunkSize)
  {
    var n := NumChunks(size, chunkSize);
    var r := (size + chunkSize - 1) % chunkSize;
    assert n * chunkSize + r == size + chunkSize - 1;
    if k < n {
      MulMonotone(k + 1, n, chunkSize);
      assert (k + 1) * chunkSize == k * chunkSize + chunkSize;
    } else {
      MulMonotone(n, k, chunkSize);
    }
  }

  lemma MulMonotone(a: nat, b: nat, c: nat)
    requires a <= b
    ensures a * c <= b * c
  {
    assert b * c == a * c + (b - a) * c;
  }

  lemma ChunkStartStep(k: nat, chunkSize: nat)
    ensures ChunkStart(k + 1, chunkSize) == ChunkStart(k, chunkSize) + chunkSize
  {
    assert (k + 1) * chunkSize == k * chunkSize + chunkSize;
  }

  /** The bytes `file.slice(start, Math.min(start + chunkSize, fileSize))` of the k-th slice. */
  function Chunk(file: seq<byte>, k: nat, chunkSize: nat): seq<byte>
    requires chunkSize > 0 && k < NumChunks(|file|, chunkSize)
  {
    ChunkStartBelowSize(k, |file|, chunkSize);
    file[ChunkStart(k, chunkSize)..ChunkEnd(k, chunkSize, |file|)]
  }

  /** All slices the loop visits, in order. */
  function Chunks(file: seq<byte>, chunkSize: nat): (r: seq<seq<byte>>)
    requires chunkSize > 0
    ensures |r| == NumChunks(|file|, chunkSize)
  {
    seq(NumChunks(|file|, chunkSize), k requires 0 <= k < NumChunks(|file|, chunkSize) => Chunk(file, k, chunkSize))
  }

  function Concat(chunks: seq<seq<byte>>): seq<byte>
  {
    if chunks == [] then [] else Concat(chunks[..|chunks| - 1]) + chunks[|chunks| - 1]
  }

  // ---------------------------------------------------------------------------
  // What one run is specified to produce

  /**
   * The first slice, at index k or later and below n, whose read fails.
   */
  function FirstFaultFrom(faults: map<nat, ReadFault>, n: nat, chunkSize: nat, k: nat): (r: Option<nat>)
    decreases n - k
    ensures r.Some? ==> k <= r.value < n && ChunkStart(r.value, chunkSize) in faults
    ensures forall i :: k <= i < n && (r.None? || i < r.value) ==> ChunkStart(i, chunkSize) !in faults
  {
    if k >= n then None
    else if ChunkStart(k, chunkSize) in faults then Some(k)
    else FirstFaultFrom(faults, n, chunkSize, k + 1)
  }

  function FirstFault(file: UserFile, chunkSize: nat): Option<nat>
    requires chunkSize > 0
  {
    FirstFaultFrom(file.chunkFaults, NumChunks(|file.contents|, chunkSize), chunkSize, 0)
  }

  /** The offsets of the first `count` slices. */
  function Starts(count: nat, chunkSize: nat): (r: seq<nat>)
    ensures |r| == count
  {
    seq(count, k requires 0 <= k < count => ChunkStart(k, chunkSize))
  }

  /** The progress calls after the first `count` slices: bytes up to each slice's end, out of `size`. */
  function ProgressReports(count: nat, chunkSize: nat, size: nat): (r: seq<Progress>)
    ensures |r| == count
  {
    seq(count, k requires 0 <= k < count => Progress(ChunkEnd(k, chunkSize, size), size))
  }

  /**
   * The run of `calculateFileHash`: slices are read from offset 0 until the end or until the
   * first failing read. Without a failure the result is the digest of the whole file.
   */
  function HashSpec(file: UserFile, chunkSize: nat, digestOf: seq<byte> -> string): HashRun
    requires chunkSize > 0
  {
    var size := |file.contents|;
    match FirstFault(file, chunkSize)
    case None =>
      var n := NumChunks(size, chunkSize);
      HashRun(Ok(digestOf(file.contents)), Starts(n, chunkSize), ProgressReports(n, chunkSize, size))
    case Some(j) =>
      var at := ChunkStart(j, chunkSize);
      HashRun(Err(ReadFailed(at, file.chunkFaults[at])), Starts(j + 1, chunkSize), ProgressReports(j, chunkSize, size))
  }

  // ---------------------------------------------------------------------------
  // Properties of the specified run

  /**
   * Every slice is non-empty and at most `chunkSize` long; each slice ends where the next one
   * begins, so all but the last are exactly `chunkSize` long; the last one ends at the file's end.
   */
  lemma ChunkShape(file: seq<byte>, chunkSize: nat, k: nat)
    requires chunkSize > 0 && k < NumChunks(|file|, chunkSize)
    ensures 0 < |Chunk(file, k, chunkSize)| <= chunkSize
    ensures k + 1 < NumChunks(|file|, chunkSize) ==>
              ChunkEnd(k, chunkSize, |file|) == ChunkStart(k + 1, chunkSize) &&
              |Chunk(file, k, chunkSize)| == chunkSize
    ensures k + 1 == NumChunks(|file|, chunkSize) ==> ChunkEnd(k, chunkSize, |file|) == |file|
  {
    ChunkStartBelowSize(k, |file|, chunkSize);
    ChunkStartBelowSize(k + 1, |file|, chunkSize);
    ChunkStartStep(k, chunkSize);
  }

  /** The first k slices, concatenated, are the file up to the k-th slice's offset. */
  lemma {:induction false} ConcatPrefix(file: seq<byte>, chunkSize: nat, k: nat)
    requires chunkSize > 0 && k <= NumChunks(|file|, chunkSize)
    ensures Concat(Chunks(file, chunkSize)[..k]) == file[..Min(ChunkStart(k, chunkSize), |file|)]
  {
    if k > 0 {
      var chunks := Chunks(file, chunkSize);
      ConcatPrefix(file, chunkSize, k - 1);
      assert chunks[..k][..k - 1] == chunks[..k - 1];
      ChunkStartBelowSize(k - 1, |file|, chunkSize);
      ChunkStartStep(k - 1, chunkSize);
      assert file[..ChunkStart(k - 1, chunkSize)] + Chunk(file, k - 1, chunkSize) ==
             file[..Min(ChunkStart(k, chunkSize), |file|)];
    }
  }

  /** The slices tile the file: in order, without gaps or overlaps, they make up exactly its bytes. */
  lemma ChunksTile(file: seq<byte>, chunkSize: nat)
    requires chunkSize > 0
    ensures Concat(Chunks(file, chunkSize)) == file
  {
    var n := NumChunks(|file|, chunkSize);
    ConcatPrefix(file, chunkSize, n);
    ChunkStartBelowSize(n, |file|, chunkSize);
    assert Chunks(file, chunkSize)[..n] == Chunks(file, chunkSize);
  }

  /**
   * Each progress call reports the bytes of all slices hashed so far, so `processedSize`
   * grows by exactly each slice's size; every call passes the file size as `totalBytes`.
   */
  lemma ProgressCountsBytes(file: UserFile, chunkSize: nat, digestOf: seq<byte> -> string)
    requires chunkSize > 0
    ensures var p := HashSpec(file, chunkSize, digestOf).progress;
            |p| <= NumChunks(|file.contents|, chunkSize) &&
            forall i :: 0 <= i < |p| ==>
              p[i].total == |file.contents| &&
              p[i].processed == |Concat(Chunks(file.contents, chunkSize)[..i + 1])|
  {
    var p := HashSpec(file, chunkSize, digestOf).progress;
    forall i | 0 <= i < |p|
      ensures p[i].processed == |Concat(Chunks(file.contents, chunkSize)[..i + 1])|
    {
      ConcatPrefix(file.contents, chunkSize, i + 1);
      ChunkStartStep(i, chunkSize);
    }
  }

  /** Reported progress strictly increases and never exceeds the file size. */
  lemma ProgressIncreases(file: UserFile, chunkSize: nat, digestOf: seq<byte> -> string)
    requires chunkSize > 0
    ensures var p := HashSpec(file, chunkSize, digestOf).progress;
            (forall i, j :: 0 <= i < j < |p| ==> p[i].processed < p[j].processed) &&
            (forall i :: 0 <= i < |p| ==> p[i].processed <= |file.contents|)
  {
    var size := |file.contents|;
    var p := HashSpec(file, chunkSize, digestOf).progress;
    ProgressCountsBytes(file, chunkSize, digestOf);
    forall i, j | 0 <= i < j < |p|
      ensures p[i].processed < p[j].processed
    {
      ChunkStartBelowSize(j, size, chunkSize);
      ChunkStartStep(i, chunkSize);
      ChunkStartStep(j, chunkSize);
      MulMonotone(i + 1, j, chunkSize);
    }
  }

  /** A run that succeeds on a non-empty file reports once per slice, the last time with the file size. */
  lemma ProgressEndsAtSize(file: UserFile, chunkSize: nat, digestOf: seq<byte> -> string)
    requires chunkSize > 0
    requires HashSpec(file, chunkSize, digestOf).digest.Ok? && |file.contents| > 0
    ensures var p := HashSpec(file, chunkSize, digestOf).progress;
            |p| == NumChunks(|file.contents|, chunkSize) > 0 &&
            p[|p| - 1] == Progress(|file.contents|, |file.contents|)
  {
    var n := NumChunks(|file.contents|, chunkSize);
    ChunkStartBelowSize(0, |file.contents|, chunkSize);
    ChunkShape(file.contents, chunkSize, n - 1);
  }

  /** A zero-length file makes no reads and no progress calls and yields the digest of no bytes. */
  lemma EmptyFileRun(file: UserFile, chunkSize: nat, digestOf: seq<byte> -> string)
    requires chunkSize > 0 && |file.contents| == 0
    ensures HashSpec(file, chunkSize, digestOf) == HashRun(Ok(digestOf([])), [], [])
  {
    ChunkStartBelowSize(0, 0, chunkSize);
  }

  /**
   * A failed read rejects the run: the failing offset is the last one read, every earlier
   * read succeeded and was reported, and no digest is produced.
   */
  lemma ReadFailureStops(file: UserFile, chunkSize: nat, digestOf: seq<byte> -> string)
    requires chunkSize > 0 && HashSpec(file, chunkSize, digestOf).digest.Err?
    ensures var run := HashSpec(file, chunkSize, digestOf);
            var at := run.digest.error.start;
            at < |file.contents| && at in file.chunkFaults &&
            run.digest.error.fault == file.chunkFaults[at] &&
            |run.requested| == |run.progress| + 1 && run.requested[|run.requested| - 1] == at &&
            forall i :: 0 <= i < |run.progress| ==> run.requested[i] !in file.chunkFaults
  {
    var j := FirstFault(file, chunkSize).value;
    ChunkStartBelowSize(j, |file.contents|, chunkSize);
  }

  /** When no read fails, the digest is that of the whole file, whatever the slice size. */
  lemma DigestIgnoresChunkSize(file: UserFile, size1: nat, size2: nat, digestOf: seq<byte> -> string)
    requires size1 > 0 && size2 > 0 && file.chunkFaults == map[]
    ensures HashSpec(file, size1, digestOf).digest == HashSpec(file, size2, digestOf).digest
    ensures HashSpec(file, size1, digestOf).digest == Ok(digestOf(file.contents))
  {
    NoFaultFound(file.chunkFaults, NumChunks(|file.contents|, size1), size1);
    NoFaultFound(file.chunkFaults, NumChunks(|file.contents|, size2), size2);
  }

  // ---------------------------------------------------------------------------
  // One loop step at a time

  lemma StartsSnoc(k: nat, chunkSize: nat)
    ensures Starts(k + 1, chunkSize) == Starts(k, chunkSize) + [ChunkStart(k, chunkSize)]
  {
  }

  lemma ProgressSnoc(k: nat, chunkSize: nat, size: nat)
    ensures ProgressReports(k + 1, chunkSize, size) ==
            ProgressReports(k, chunkSize, size) + [Progress(ChunkEnd(k, chunkSize, size), size)]
  {
  }

  lemma ChunksSnoc(file: seq<byte>, chunkSize: nat, k: nat)
    requires chunkSize > 0 && k < NumChunks(|file|, chunkSize)
    ensures Chunks(file, chunkSize)[..k + 1] == Chunks(file, chunkSize)[..k] + [Chunk(file, k, chunkSize)]
  {
  }

  lemma {:induction false} NoFaultFound(faults: map<nat, ReadFault>, n: nat, chunkSize: nat)
    requires forall i :: 0 <= i < n ==> ChunkStart(i, chunkSize) !in faults
    ensures FirstFaultFrom(faults, n, chunkSize, 0).None?
  {
  }

  lemma {:induction false} FaultFound(faults: map<nat, ReadFault>, n: nat, chunkSize: nat, k: nat)
    requires k < n && ChunkStart(k, chunkSize) in faults
    requires forall i :: 0 <= i < k ==> ChunkStart(i, chunkSize) !in faults
    ensures FirstFaultFrom(faults, n, chunkSize, 0) == Some(k)
  {
  }

  // ---------------------------------------------------------------------------
  // The engine

  /**
   * `calculateFileHash(file, onProgress)` with the slice size as a parameter (the source uses
   * `ChunkSize`). `absorbed` is the hasher's state, `progress` the calls to `onProgress`,
   * `requested` the offsets handed to `readChunk`, and `fed` the arguments of `hasher.update`.
   */
  method CalculateFileHash(file: UserFile, chunkSize: nat, digestOf: seq<byte> -> string)
    returns (digest: Result<string, HashError>, requested: seq<nat>, progress: seq<Progress>, ghost fed: seq<seq<byte>>)
    requires chunkSize > 0
    ensures HashRun(digest, requested, progress) == HashSpec(file, chunkSize, digestOf)
    ensures fed == Chunks(file.contents, chunkSize)[..|progress|]
    ensures digest.Ok? ==> Concat(fed) == file.contents
  {
    var size := |file.contents|;
    ghost var n := NumChunks(size, chunkSize);
    var absorbed: seq<byte> := [];
    var processedSize: nat := 0;
    requested, progress, fed := [], [], [];
    var start: nat := 0;
    ghost var k: nat := 0;
    while start < size
      invariant start == ChunkStart(k, chunkSize)
      invariant k <= n
      invariant forall i :: 0 <= i < k ==> ChunkStart(i, chunkSize) !in file.chunkFaults
      invariant processedSize == Min(start, size)
      invariant absorbed == file.contents[..processedSize]
      invariant requested == Starts(k, chunkSize)
      invariant progress == ProgressReports(k, chunkSize, size)
      invariant fed == Chunks(file.contents, chunkSize)[..k]
      invariant Concat(fed) == absorbed
      decreases size - start
    {
      ChunkStartBelowSize(k, size, chunkSize);
      StartsSnoc(k, chunkSize);
      if start in file.chunkFaults {
        FaultFound(file.chunkFaults, n, chunkSize, k);
        requested := requested + [start];
        digest := Err(ReadFailed(start, file.chunkFaults[start]));
        return;
      }
      var end := Min(start + chunkSize, size);
      var chunk := file.contents[start..end];
      assert chunk == Chunk(file.contents, k, chunkSize);
      ProgressSnoc(k, chunkSize, size);
      ChunksSnoc(file.contents, chunkSize, k);
      absorbed := absorbed + chunk;
      processedSize := processedSize + |chunk|;
      progress := progress + [Progress(processedSize, size)];
      requested := requested + [start];
      fed := fed + [chunk];
      ChunkStartStep(k, chunkSize);
      start := start + chunkSize;
      k := k + 1;
    }
    ChunkStartBelowSize(k, size, chunkSize);
    assert k == n;
    NoFaultFound(file.chunkFaults, n, chunkSize);
    assert FirstFault(file, chunkSize).None?;
    assert processedSize == size;
    assert absorbed == file.contents;
    digest := Ok(digestOf(absorbed));
  }
}
