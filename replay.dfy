/**
 * The replay buffer's eviction rule (`REPLAY_BUFFER_CAP`, the per-chunk trim in the reader
 * thread of src-tauri/src/pty.rs) as pure functions on byte sequences, and what a sequence
 * of reader steps leaves in the buffer.
 */
module Replay {
  import opened Base

  /** `REPLAY_BUFFER_CAP`: 64 KiB of recent output are kept. */
  const ReplayBufferCap: nat := 65536

  /** Length of the reader thread's stack buffer `[0u8; 8192]`: no read returns more. */
  const ReadChunkSize: nat := 8192

  function Min(a: nat, b: nat): nat { if a <= b then a else b }

  /** The last `k` elements of `s`, or all of `s` when it is shorter. */
  function LastN<T>(s: seq<T>, k: nat): (r: seq<T>)
    ensures |r| == Min(k, |s|)
  {
    s[|s| - Min(k, |s|)..]
  }

  /** The number of oldest bytes the reader drains before appending `n` bytes to a buffer of `len`. */
  function DrainCount(len: nat, n: nat): nat
  {
    if len + n > ReplayBufferCap then len + n - ReplayBufferCap else 0
  }

  /**
   * The buffer after one chunk: drain the oldest `DrainCount` bytes, then extend with the chunk.
   * The result is exactly the newest `ReplayBufferCap` bytes of the old buffer followed by the
   * chunk, so no byte is evicted that would have fitted.
   */
  function Appended(buf: seq<byte>, data: seq<byte>): (r: seq<byte>)
    requires |buf| <= ReplayBufferCap && |data| <= ReadChunkSize
    ensures |r| == Min(ReplayBufferCap, |buf| + |data|)
    ensures r == LastN(buf + data, ReplayBufferCap)
    ensures |buf| + |data| <= ReplayBufferCap ==> r == buf + data
  {
    var drain := DrainCount(|buf|, |data|);
    assert (buf + data)[drain..] == buf[drain..] + data;
    buf[drain..] + data
  }

  /** The concatenation of a sequence of chunks, in order. */
  function Flatten(chunks: seq<seq<byte>>): seq<byte>
  {
    if chunks == [] then [] else Flatten(chunks[..|chunks| - 1]) + chunks[|chunks| - 1]
  }

  /** Every chunk is no longer than one read can return. */
  ghost predicate ChunksFit(chunks: seq<seq<byte>>)
  {
    forall i :: 0 <= i < |chunks| ==> |chunks[i]| <= ReadChunkSize
  }

  /** The buffer after the reader thread has handled `chunks`, one step each, starting from `buf`. */
  function FillFrom(buf: seq<byte>, chunks: seq<seq<byte>>): (r: seq<byte>)
    requires |buf| <= ReplayBufferCap && ChunksFit(chunks)
    ensures |r| <= ReplayBufferCap
  {
    if chunks == [] then buf
    else Appended(FillFrom(buf, chunks[..|chunks| - 1]), chunks[|chunks| - 1])
  }

  /** One more chunk: it fits, it extends the stream, and the buffer takes one more step. */
  lemma ExtendChunks(buf: seq<byte>, chunks: seq<seq<byte>>, data: seq<byte>)
    requires |buf| <= ReplayBufferCap && ChunksFit(chunks) && |data| <= ReadChunkSize
    ensures ChunksFit(chunks + [data])
    ensures Flatten(chunks + [data]) == Flatten(chunks) + data
    ensures FillFrom(buf, chunks + [data]) == Appended(FillFrom(buf, chunks), data)
  {
    assert (chunks + [data])[..|chunks|] == chunks;
  }

  /** Keeping the newest `k` elements, then appending and keeping the newest `k` again, loses nothing more. */
  lemma LastNOfLastN<T>(s: seq<T>, d: seq<T>, k: nat)
    ensures LastN(LastN(s, k) + d, k) == LastN(s + d, k)
  {
    var m := Min(k, |s|);
    var j := |s| - m;
    assert LastN(s, k) + d == (s + d)[j..];
    var x := (s + d)[j..];
    assert Min(k, |x|) == Min(k, |s + d|);
    assert x[|x| - Min(k, |x|)..] == (s + d)[|s + d| - Min(k, |s + d|)..];
  }

  /**
   * After any sequence of reader steps the buffer holds exactly the newest `ReplayBufferCap`
   * bytes of everything it ever held followed by the whole chunk stream, in order.
   */
  lemma {:induction false} FillFromKeepsNewest(buf: seq<byte>, chunks: seq<seq<byte>>)
    requires |buf| <= ReplayBufferCap && ChunksFit(chunks)
    ensures FillFrom(buf, chunks) == LastN(buf + Flatten(chunks), ReplayBufferCap)
  {
    if chunks == [] {
      assert buf + Flatten(chunks) == buf;
    } else {
      var init, last := chunks[..|chunks| - 1], chunks[|chunks| - 1];
      assert ChunksFit(init) by {
        forall i | 0 <= i < |init| ensures |init[i]| <= ReadChunkSize {
          assert init[i] == chunks[i];
        }
      }
      FillFromKeepsNewest(buf, init);
      LastNOfLastN(buf + Flatten(init), last, ReplayBufferCap);
      assert buf + Flatten(init) + last == buf + Flatten(chunks);
    }
  }

  /**
   * 70 KiB of output read in chunks of at most 8 KiB leave a full 64 KiB buffer whose first
   * byte is the stream's byte at offset 6 KiB: the oldest 6 KiB were evicted.
   */
  lemma SeventyKiBScenario(chunks: seq<seq<byte>>)
    requires ChunksFit(chunks) && |Flatten(chunks)| == 70 * 1024
    ensures |FillFrom([], chunks)| == ReplayBufferCap
    ensures FillFrom([], chunks)[0] == Flatten(chunks)[6 * 1024]
  {
    FillFromKeepsNewest([], chunks);
    assert [] + Flatten(chunks) == Flatten(chunks);
  }
}
