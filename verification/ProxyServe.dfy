/** The two loops of `serve` around the object cache: proxy/proxy.c:243-264, 301-321. */
module ProxyServe {
  import opened ObjectCache
  import opened ProxyThreads
  import opened Sequences

  /** The first `n` writes to the client work. */
  ghost predicate AllWork(works: nat -> bool, n: nat) {
    forall k: nat | k < n :: works(k)
  }

  /** The loop that copies a cached object to the client; write `k` succeeds when `works(k)`. */
  method SendObject(obj: CacheObj, works: nat -> bool) returns (sent: seq<bv8>, ghost writes: nat)
    requires obj.size == |obj.webObj|
    ensures |sent| <= obj.size && sent == obj.webObj[..|sent|]
    ensures sent == obj.webObj || (!works(writes) && |sent| == writes * MAXLINE)
    ensures AllWork(works, writes) && (sent == obj.webObj ==> writes == (obj.size + MAXLINE - 1) / MAXLINE)
  {
    sent := [];
    var writtenSize, k := 0, 0;
    writes := 0;
    while writtenSize < obj.size
      invariant |sent| == writtenSize <= obj.size && sent == obj.webObj[..writtenSize] && AllWork(works, k)
                && writes == k
      invariant if writtenSize < obj.size then writtenSize == k * MAXLINE else k == (obj.size + MAXLINE - 1) / MAXLINE
    {
      var chunkSize := obj.size - writtenSize;
      if chunkSize > MAXLINE {
        chunkSize := MAXLINE;
      }
      if !works(k) {
        break;
      }
      sent := sent + obj.webObj[writtenSize..writtenSize + chunkSize];
      writtenSize := writtenSize + chunkSize;
      k := k + 1;
      writes := k;
    }
  }

  /**
   * The loop that passes the response on: it is kept exactly when every write worked and all of it fits, and then the
   * buffer holds the whole response. The buffer has room for the largest object.
   */
  method CollectResponse(chunks: seq<seq<bv8>>, works: nat -> bool, buffer: array<bv8>)
    returns (objSize: nat, cachable: bool)
    requires buffer.Length == MAX_OBJECT_SIZE && forall k | 0 <= k < |chunks| :: 0 < |chunks[k]| <= MAXLINE
    modifies buffer
    ensures objSize <= MAX_OBJECT_SIZE
    ensures cachable <==> AllWork(works, |chunks|) && |Joined(chunks)| <= MAX_OBJECT_SIZE
    ensures cachable ==> buffer[..objSize] == Joined(chunks)
  {
    objSize := 0;
    cachable := true;
    var k := 0;
    while k < |chunks|
      invariant 0 <= k <= |chunks| && objSize <= MAX_OBJECT_SIZE && AllWork(works, k)
      invariant if cachable then buffer[..objSize] == Joined(chunks[..k]) else |Joined(chunks[..k])| > MAX_OBJECT_SIZE
    {
      var chunk := chunks[k];
      assert chunks[..k + 1] == chunks[..k] + [chunk];
      JoinedOneMore(chunks[..k], chunk);
      if !works(k) {
        cachable := false;
        break;
      }
      if objSize + |chunk| <= MAX_OBJECT_SIZE {
        CopyChunk(buffer, objSize, chunk);
        objSize := objSize + |chunk|;
      } else {
        cachable := false;
      }
      k := k + 1;
    }
    assert chunks[..|chunks|] == chunks;
  }

  /** `memcpy` of a chunk behind what the buffer holds. */
  method CopyChunk(buffer: array<bv8>, at: nat, chunk: seq<bv8>)
    requires at + |chunk| <= buffer.Length
    modifies buffer
    ensures buffer[..at + |chunk|] == old(buffer[..at]) + chunk
  {
    var i := 0;
    while i < |chunk|
      invariant 0 <= i <= |chunk| && buffer[..at] == old(buffer[..at])
      invariant forall j | 0 <= j < i :: buffer[at + j] == chunk[j]
    {
      buffer[at + i] := chunk[i];
      i := i + 1;
    }
  }
}
