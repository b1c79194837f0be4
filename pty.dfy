/**
 * One PTY session of src-tauri/src/pty.rs: the replay buffer and channel slot shared by the
 * reader thread and attach/detach (`PtyOutput`), the reader thread's loop, the handle that
 * owns the session (`PtyHandle`), and the small decisions around it: shell and initial cwd,
 * liveness, and the cwd lookup with its parse of `lsof -Fn` output.
 *
 * Each section the source runs under the `output` mutex is one method here, so concurrent
 * threads become an interleaving of these methods. A channel is identified by a number; what
 * it received is recorded in the ghost log `sent` of the state that sends on it.
 */
module Pty {
  import opened Base
  import opened Replay

  /** Identifies one `Channel<Vec<u8>>` handed over by the front end. */
  type ChannelId = nat

  /** One `ch.send(...)`: the channel it went to and the bytes it carried. */
  datatype Delivery = Delivery(to: ChannelId, data: seq<byte>)

  /** The payloads channel `c` received, in the order they were sent. */
  function MessagesTo(log: seq<Delivery>, c: ChannelId): seq<seq<byte>>
  {
    if log == [] then []
    else MessagesTo(log[..|log| - 1], c) + (if log[|log| - 1].to == c then [log[|log| - 1].data] else [])
  }

  /** What a channel receives from the two halves of a log is what it receives from the whole. */
  lemma {:induction false} MessagesToSplit(a: seq<Delivery>, b: seq<Delivery>, c: ChannelId)
    ensures MessagesTo(a + b, c) == MessagesTo(a, c) + MessagesTo(b, c)
  {
    if b == [] {
      assert a + b == a;
    } else {
      var b' := b[..|b| - 1];
      assert (a + b)[..|a + b| - 1] == a + b';
      MessagesToSplit(a, b', c);
    }
  }

  /** A log with no delivery to `c` gives `c` nothing. */
  lemma {:induction false} MessagesToNone(log: seq<Delivery>, c: ChannelId)
    requires forall i :: 0 <= i < |log| ==> log[i].to != c
    ensures MessagesTo(log, c) == []
  {
    if log != [] {
      MessagesToNone(log[..|log| - 1], c);
    }
  }

  /** A log made only of deliveries to `c` gives `c` every payload, in order. */
  lemma {:induction false} MessagesToAll(log: seq<Delivery>, c: ChannelId)
    requires forall i :: 0 <= i < |log| ==> log[i].to == c
    ensures |MessagesTo(log, c)| == |log|
    ensures forall i :: 0 <= i < |log| ==> MessagesTo(log, c)[i] == log[i].data
  {
    if log != [] {
      MessagesToAll(log[..|log| - 1], c);
    }
  }

  /** The replay `attach` sends: the whole buffer as one message, or nothing when it is empty. */
  function Replayed(c: ChannelId, buffer: seq<byte>): seq<Delivery>
  {
    if buffer == [] then [] else [Delivery(c, buffer)]
  }

  /** What the reader thread sends for one chunk: the chunk to the attached channel, if any. */
  function Forwarded(channel: Option<ChannelId>, data: seq<byte>): seq<Delivery>
  {
    if channel.Some? then [Delivery(channel.value, data)] else []
  }

  /**
   * Delivery since the current channel was installed at position `mark` of the log: every
   * later message went to that channel, and their payloads are exactly the stream from
   * `liveFrom` on. With no channel, nothing was sent since `mark`.
   */
  ghost predicate LiveSince(sent: seq<Delivery>, mark: nat, channel: Option<ChannelId>,
                            stream: seq<byte>, liveFrom: nat)
  {
    && mark <= |sent| && liveFrom <= |stream|
    && (channel.None? ==> mark == |sent|)
    && (channel.Some? ==> forall i :: mark <= i < |sent| ==> sent[i].to == channel.value)
    && (channel.Some? ==> Flatten(MessagesTo(sent[mark..], channel.value)) == stream[liveFrom..])
  }

  /** A reader step keeps delivery gap-free: the chunk extends the stream and what was sent alike. */
  lemma LiveSinceChunk(sent: seq<Delivery>, mark: nat, channel: Option<ChannelId>,
                       stream: seq<byte>, liveFrom: nat, data: seq<byte>)
    requires LiveSince(sent, mark, channel, stream, liveFrom)
    ensures LiveSince(sent + Forwarded(channel, data), mark, channel, stream + data, liveFrom)
  {
    var sent' := sent + Forwarded(channel, data);
    if channel.Some? {
      var c := channel.value;
      var before := sent[mark..];
      forall i | mark <= i < |sent'| ensures sent'[i].to == c {
        if i < |sent| { assert sent'[i] == sent[i]; }
      }
      assert sent'[mark..] == before + [Delivery(c, data)];
      assert sent'[mark..][..|sent'[mark..]| - 1] == before;
      var got := MessagesTo(sent'[mark..], c);
      assert got == MessagesTo(before, c) + [data];
      assert got[..|got| - 1] == MessagesTo(before, c);
      assert (stream + data)[liveFrom..] == stream[liveFrom..] + data;
    } else {
      assert sent' == sent;
    }
  }

  /** `attach` starts a gap-free delivery: the replay is exactly the stream's buffered tail. */
  lemma LiveSinceAttach(sent: seq<Delivery>, c: ChannelId, stream: seq<byte>, buffer: seq<byte>)
    requires buffer == LastN(stream, ReplayBufferCap)
    ensures LiveSince(sent + Replayed(c, buffer), |sent|, Some(c), stream, |stream| - |buffer|)
  {
    var sent' := sent + Replayed(c, buffer);
    assert |buffer| <= |stream| && stream[|stream| - |buffer|..] == buffer;
    if buffer != [] {
      var d := Delivery(c, buffer);
      assert sent' == sent + [d];
      assert sent'[|sent|..] == [d];
      assert [d][..0] == [];
      assert MessagesTo([d], c) == [buffer];
      assert [buffer][..0] == [];
      assert Flatten([buffer]) == buffer;
    } else {
      assert sent'[|sent|..] == [];
    }
  }

  /** Delivery starts gap-free: the spawning channel was given nothing of an empty stream. */
  lemma LiveSinceSpawn(c: ChannelId)
    ensures LiveSince([], 0, Some(c), [], 0)
  {
    assert MessagesTo([], c) == [];
  }

  /** `PtyOutput`: the state the reader thread and attach/detach share under one mutex. */
  class PtyOutput {
    var channel: Option<ChannelId>
    var buffer: seq<byte>
    /** Rust's poison flag: set when a thread panicked while holding this mutex. Panics are not
        modelled, so no method sets it; once set, every `lock()` fails. */
    var poisoned: bool

    /** Every byte the reader thread has appended, in order. */
    ghost var stream: seq<byte>
    /** Every message sent from this state, in order. */
    ghost var sent: seq<Delivery>
    /** Length of `sent` when the current channel was installed. */
    ghost var mark: nat
    /** Offset in `stream` of the first byte the current channel was given. */
    ghost var liveFrom: nat

    /**
     * The buffer is the newest 64 KiB of the stream, everything sent since the current channel
     * was installed went to it, and what it got is exactly the stream from `liveFrom` on: no
     * gap and no duplicate.
     */
    ghost predicate Valid()
      reads this
    {
      && |buffer| <= ReplayBufferCap
      && buffer == LastN(stream, ReplayBufferCap)
      && LiveSince(sent, mark, channel, stream, liveFrom)
    }

    /** The state `spawn` creates: the spawning channel attached and an empty buffer. */
    constructor (c: ChannelId)
      ensures Valid()
      ensures channel == Some(c) && buffer == [] && !poisoned
      ensures stream == [] && sent == [] && mark == 0 && liveFrom == 0
    {
      channel := Some(c);
      buffer := [];
      poisoned := false;
      stream := [];
      sent := [];
      mark := 0;
      liveFrom := 0;
      new;
      LiveSinceSpawn(c);
      assert LiveSince(sent, mark, channel, stream, liveFrom);
    }

    /**
     * The reader thread's work on one non-empty chunk. `locked` is false when the mutex is
     * poisoned; the thread then stops and nothing changes. Otherwise the oldest bytes are
     * drained so that the chunk fits, the chunk is appended, and it is sent, unchanged, to the
     * attached channel if there is one.
     */
    method OnChunk(data: seq<byte>) returns (locked: bool)
      requires Valid() && 0 < |data| <= ReadChunkSize
      modifies this
      ensures Valid()
      ensures locked == !old(poisoned)
      ensures !locked ==> unchanged(this)
      ensures locked ==> && buffer == Appended(old(buffer), data)
                         && stream == old(stream) + data
                         && channel == old(channel) && poisoned == old(poisoned)
                         && sent == old(sent) + Forwarded(channel, data)
                         && mark == old(mark) && liveFrom == old(liveFrom)
    {
      if poisoned {
        return false;
      }
      ghost var before := buffer;
      if |buffer| + |data| > ReplayBufferCap {
        var drain := |buffer| + |data| - ReplayBufferCap;
        buffer := buffer[drain..];
      }
      buffer := buffer + data;
      assert buffer == Appended(before, data);
      LastNOfLastN(stream, data, ReplayBufferCap);
      LiveSinceChunk(sent, mark, channel, stream, liveFrom, data);
      sent := sent + Forwarded(channel, data);
      stream := stream + data;
      return true;
    }

    /**
     * The locked part of `attach`: send the whole buffer as one message when it is non-empty,
     * then install `c` in place of whatever channel was there. The buffer is left as it is.
     * `locked` is false when the mutex is poisoned, and then nothing changes.
     */
    method Attach(c: ChannelId) returns (locked: bool)
      requires Valid()
      modifies this
      ensures Valid()
      ensures locked == !old(poisoned)
      ensures !locked ==> unchanged(this)
      ensures locked ==> && channel == Some(c)
                         && buffer == old(buffer) && stream == old(stream) && poisoned == old(poisoned)
                         && sent == old(sent) + Replayed(c, old(buffer))
                         && mark == |old(sent)| && liveFrom == |stream| - |buffer|
    {
      if poisoned {
        return false;
      }
      LiveSinceAttach(sent, c, stream, buffer);
      mark := |sent|;
      sent := sent + Replayed(c, buffer);
      liveFrom := |stream| - |buffer|;
      channel := Some(c);
      return true;
    }

    /** `detach`: clear the channel. A poisoned mutex is ignored and changes nothing. */
    method Detach()
      requires Valid()
      modifies this
      ensures Valid()
      ensures old(poisoned) ==> unchanged(this)
      ensures !old(poisoned) ==> && channel == None
                                 && buffer == old(buffer) && stream == old(stream) && sent == old(sent)
                                 && poisoned == old(poisoned)
    {
      if !poisoned {
        channel := None;
        mark := |sent|;
      }
    }
  }

  /**
   * A channel that received nothing before it was attached has, at any later point of the
   * interleaving, received exactly the stream from the replay's first byte on: the buffer as
   * it was at attach, then every later chunk, with no gap and no duplicate.
   */
  lemma ReceivedSinceAttach(o: PtyOutput, c: ChannelId)
    requires o.Valid() && o.channel == Some(c)
    requires forall i :: 0 <= i < o.mark ==> o.sent[i].to != c
    ensures Flatten(MessagesTo(o.sent, c)) == o.stream[o.liveFrom..]
  {
    assert o.sent == o.sent[..o.mark] + o.sent[o.mark..];
    MessagesToSplit(o.sent[..o.mark], o.sent[o.mark..], c);
    MessagesToNone(o.sent[..o.mark], c);
    assert MessagesTo(o.sent, c) == MessagesTo(o.sent[o.mark..], c);
  }

  /**
   * A channel replaced by `attach`, or cleared by `detach`, receives nothing more: everything it
   * ever received was sent before the current channel was installed.
   */
  lemma ReplacedChannelCutOff(o: PtyOutput, c: ChannelId)
    requires o.Valid() && o.channel != Some(c)
    ensures MessagesTo(o.sent, c) == MessagesTo(o.sent[..o.mark], c)
  {
    assert o.sent == o.sent[..o.mark] + o.sent[o.mark..];
    MessagesToSplit(o.sent[..o.mark], o.sent[o.mark..], c);
    if o.channel.Some? {
      MessagesToNone(o.sent[o.mark..], c);
    } else {
      assert o.sent[o.mark..] == [];
    }
  }

  // ---------------------------------------------------------------------------------------
  // The reader thread

  /** One call of `reader.read(&mut buf)`: `ReadOk([])` is end of stream. */
  datatype ReadResult = ReadOk(data: seq<byte>) | ReadErr(msg: string)

  /** Why the reader loop ended; `Blocked` means the given results ran out and it waits in `read`. */
  datatype LoopExit = EndOfStream | ReadFailed | LockFailed | Blocked

  /** Whether the loop leaves on this read, and why. */
  function ExitOn(r: ReadResult, poisoned: bool): (e: Option<LoopExit>)
    ensures e.None? <==> r.ReadOk? && |r.data| > 0 && !poisoned
    ensures e == Some(EndOfStream) <==> r.ReadOk? && |r.data| == 0
    ensures e == Some(ReadFailed) <==> r.ReadErr?
    ensures e == Some(LockFailed) <==> r.ReadOk? && |r.data| > 0 && poisoned
  {
    match r
    case ReadOk(data) =>
      if |data| == 0 then Some(EndOfStream)
      else if poisoned then Some(LockFailed)
      else None
    case ReadErr(_) => Some(ReadFailed)
  }

  /** The index of the first read on which the loop leaves, or `|results|` if there is none. */
  function FirstExit(results: seq<ReadResult>, poisoned: bool): (k: nat)
    ensures k <= |results|
    ensures forall i :: 0 <= i < k ==> ExitOn(results[i], poisoned).None?
    ensures k < |results| ==> ExitOn(results[k], poisoned).Some?
  {
    if results == [] || ExitOn(results[0], poisoned).Some? then 0
    else 1 + FirstExit(results[1..], poisoned)
  }

  /** The bytes each read delivered (nothing for an error). */
  function Chunks(results: seq<ReadResult>): seq<seq<byte>>
  {
    if results == [] then []
    else Chunks(results[..|results| - 1]) + [if results[|results| - 1].ReadOk? then results[|results| - 1].data else []]
  }

  /** What the reader thread sends for `chunks`: each one, in order, to the attached channel. */
  function ForwardedAll(channel: Option<ChannelId>, chunks: seq<seq<byte>>): seq<Delivery>
  {
    if channel.None? then []
    else if chunks == [] then []
    else ForwardedAll(channel, chunks[..|chunks| - 1]) + [Delivery(channel.value, chunks[|chunks| - 1])]
  }

  /** The first read that ends the loop is the one `FirstExit` names. */
  lemma FirstExitIs(results: seq<ReadResult>, poisoned: bool, k: nat)
    requires k <= |results|
    requires forall i :: 0 <= i < k ==> ExitOn(results[i], poisoned).None?
    requires k < |results| ==> ExitOn(results[k], poisoned).Some?
    ensures FirstExit(results, poisoned) == k
  {
    var f := FirstExit(results, poisoned);
  }

  /** The chunks of the first `k` reads, when none of them failed, are those reads' bytes. */
  lemma {:induction false} ChunksOfReads(results: seq<ReadResult>, chunks: seq<seq<byte>>)
    requires |chunks| == |results|
    requires forall i :: 0 <= i < |results| ==> results[i] == ReadOk(chunks[i])
    ensures Chunks(results) == chunks
  {
    if results != [] {
      var n := |results| - 1;
      ChunksOfReads(results[..n], chunks[..n]);
      assert chunks == chunks[..n] + [chunks[n]];
    }
  }

  /** One more successful, non-empty read extends the list of chunks read so far by its bytes. */
  lemma ReadStep(results: seq<ReadResult>, chunks: seq<seq<byte>>)
    requires |chunks| < |results|
    requires forall i :: 0 <= i < |chunks| ==> results[i] == ReadOk(chunks[i]) && |chunks[i]| > 0
    requires results[|chunks|].ReadOk? && |results[|chunks|].data| > 0
    ensures forall i :: 0 <= i < |chunks| + 1 ==>
              results[i] == ReadOk((chunks + [results[|chunks|].data])[i])
              && |(chunks + [results[|chunks|].data])[i]| > 0
  {
  }

  /**
   * One more chunk: the stream, the buffer and what was forwarded each take exactly one more
   * step of their fold over the chunks.
   */
  lemma FoldStep(buffer0: seq<byte>, stream0: seq<byte>, sent0: seq<Delivery>, channel: Option<ChannelId>,
                 chunks: seq<seq<byte>>, data: seq<byte>)
    requires |buffer0| <= ReplayBufferCap && ChunksFit(chunks) && |data| <= ReadChunkSize
    ensures ChunksFit(chunks + [data])
    ensures (stream0 + Flatten(chunks)) + data == stream0 + Flatten(chunks + [data])
    ensures Appended(FillFrom(buffer0, chunks), data) == FillFrom(buffer0, chunks + [data])
    ensures (sent0 + ForwardedAll(channel, chunks)) + Forwarded(channel, data)
         == sent0 + ForwardedAll(channel, chunks + [data])
  {
    ExtendChunks(buffer0, chunks, data);
    assert (chunks + [data])[..|chunks|] == chunks;
  }

  /**
   * The reader thread's loop, fed the results its `read` calls return. It handles reads until
   * the first that ends it (a zero-length read, a read error, or a poisoned mutex after a
   * non-empty read) and reports why. Every chunk before that went into the buffer and, when a
   * channel is attached, to that channel.
   */
  method ReaderThread(out: PtyOutput, results: seq<ReadResult>) returns (exit: LoopExit, handled: nat)
    requires out.Valid()
    requires forall i :: 0 <= i < |results| && results[i].ReadOk? ==> |results[i].data| <= ReadChunkSize
    modifies out
    ensures out.Valid()
    ensures handled == FirstExit(results, old(out.poisoned))
    ensures exit == if handled < |results| then ExitOn(results[handled], old(out.poisoned)).value else Blocked
    ensures out.channel == old(out.channel) && out.poisoned == old(out.poisoned)
    ensures ChunksFit(Chunks(results[..handled]))
    ensures out.stream == old(out.stream) + Flatten(Chunks(results[..handled]))
    ensures out.buffer == FillFrom(old(out.buffer), Chunks(results[..handled]))
    ensures out.sent == old(out.sent) + ForwardedAll(out.channel, Chunks(results[..handled]))
  {
    ghost var poisoned, channel := out.poisoned, out.channel;
    ghost var buffer0, stream0, sent0 := out.buffer, out.stream, out.sent;
    ghost var chunks: seq<seq<byte>> := [];
    handled := 0;
    while handled < |results|
      invariant handled <= |results| && |chunks| == handled
      invariant forall i :: 0 <= i < handled ==> results[i] == ReadOk(chunks[i]) && |chunks[i]| > 0
      invariant handled > 0 ==> !poisoned
      invariant out.Valid()
      invariant out.channel == channel && out.poisoned == poisoned
      invariant ChunksFit(chunks)
      invariant out.stream == stream0 + Flatten(chunks)
      invariant out.buffer == FillFrom(buffer0, chunks)
      invariant out.sent == sent0 + ForwardedAll(channel, chunks)
    {
      var r := results[handled];
      if r.ReadErr? || |r.data| == 0 {
        exit := if r.ReadErr? then ReadFailed else EndOfStream;
        break;
      }
      ReadStep(results, chunks);
      FoldStep(buffer0, stream0, sent0, channel, chunks, r.data);
      var locked := out.OnChunk(r.data);
      if !locked {
        exit := LockFailed;
        break;
      }
      chunks := chunks + [r.data];
      handled := handled + 1;
    }
    if handled == |results| {
      exit := Blocked;
    }
    ChunksOfReads(results[..handled], chunks);
    FirstExitIs(results, poisoned, handled);
  }

  // ---------------------------------------------------------------------------------------
  // Small decisions of `spawn`, `is_alive` and `get_cwd`

  datatype TargetOs = Windows | MacOs | Linux | OtherOs

  /** The shell: PowerShell on Windows, otherwise `$SHELL`, falling back to bash. */
  function ShellFor(os: TargetOs, shellVar: Option<string>): (shell: string)
    ensures os == Windows ==> shell == "powershell.exe"
    ensures os != Windows && shellVar.Some? ==> shell == shellVar.value
    ensures os != Windows && shellVar.None? ==> shell == "/bin/bash"
  {
    if os == Windows then "powershell.exe" else shellVar.GetOr("/bin/bash")
  }

  /** The initial cwd: the caller's if given, else the home directory, else `.`. */
  function InitialCwd(cwd: Option<string>, home: Option<string>): (dir: string)
    ensures cwd.Some? ==> dir == cwd.value
    ensures cwd.None? && home.Some? ==> dir == home.value
    ensures cwd.None? && home.None? ==> dir == "."
  {
    cwd.GetOr(home.GetOr("."))
  }

  /** What `try_wait` answers: no exit status yet, an exit status, or an error. */
  datatype TryWait = StillRunning | Exited(code: int) | WaitFailed(msg: string)

  /**
   * What the OS would answer about the child at this moment: whether the `child` mutex is
   * poisoned, `try_wait`, `process_id`, the lines `lsof -p <pid> -Fn` prints (absent when lsof
   * cannot be run or its output is not UTF-8) and the `/proc/<pid>/cwd` link as a string.
   */
  datatype ChildView = ChildView(
    poisoned: bool,
    tryWait: TryWait,
    pid: Option<nat>,
    lsofLines: Option<seq<string>>,
    procCwd: Option<string>)

  /** `try_wait().ok()`: the exit status if there is one, or nothing when the call failed. */
  function WaitStatus(t: TryWait): Option<Option<int>>
  {
    match t
    case StillRunning => Some(None)
    case Exited(code) => Some(Some(code))
    case WaitFailed(_) => None
  }

  /** `is_alive`: the child lock was taken and `try_wait` succeeded with no exit status. */
  function IsAlive(child: ChildView): (alive: bool)
    ensures alive <==> !child.poisoned && child.tryWait == StillRunning
  {
    var status := if child.poisoned then None else WaitStatus(child.tryWait);
    match status
    case Some(s) => s.None?
    case None => false
  }

  /** A line of `lsof -Fn` output that names a file. */
  predicate IsNameLine(line: string)
  {
    |line| > 0 && line[0] == 'n'
  }

  /** Some line equal to `fcwd` is followed, somewhere later, by a name line. */
  ghost predicate HasCwdRecord(lines: seq<string>)
  {
    exists i, j :: 0 <= i < j < |lines| && lines[i] == "fcwd" && IsNameLine(lines[j])
  }

  /** Line `i` is the first `fcwd` and line `j` the first name line after it. */
  ghost predicate FirstCwdRecord(lines: seq<string>, i: int, j: int)
  {
    && 0 <= i < j < |lines| && lines[i] == "fcwd" && IsNameLine(lines[j])
    && (forall k :: 0 <= k < i ==> lines[k] != "fcwd")
    && (forall k :: i < k < j ==> !IsNameLine(lines[k]))
  }

  /** The first index at or after `from` whose line is `fcwd`, or `|lines|`. */
  function FirstFcwd(lines: seq<string>, from: nat): (k: nat)
    requires from <= |lines|
    ensures from <= k <= |lines|
    ensures forall m :: from <= m < k ==> lines[m] != "fcwd"
    ensures k < |lines| ==> lines[k] == "fcwd"
    decreases |lines| - from
  {
    if from == |lines| || lines[from] == "fcwd" then from else FirstFcwd(lines, from + 1)
  }

  /** The first index at or after `from` holding a name line, or `|lines|`. */
  function FirstNameLine(lines: seq<string>, from: nat): (k: nat)
    requires from <= |lines|
    ensures from <= k <= |lines|
    ensures forall m :: from <= m < k ==> !IsNameLine(lines[m])
    ensures k < |lines| ==> IsNameLine(lines[k])
    decreases |lines| - from
  {
    if from == |lines| || IsNameLine(lines[from]) then from else FirstNameLine(lines, from + 1)
  }

  /**
   * The cwd in `lsof -Fn` output: the text after the `n` of the first name line that follows
   * the first `fcwd` line; nothing if no name line follows it.
   */
  function LsofCwd(lines: seq<string>): Option<string>
  {
    var i := FirstFcwd(lines, 0);
    if i == |lines| then None
    else
      var j := FirstNameLine(lines, i + 1);
      if j == |lines| then None else Some(lines[j][1..])
  }

  /**
   * The parse finds a cwd exactly when some name line follows an `fcwd` line, and then it is
   * the text after the `n` of the first name line after the first `fcwd` line.
   */
  lemma LsofCwdFinds(lines: seq<string>)
    ensures LsofCwd(lines).None? <==> !HasCwdRecord(lines)
    ensures LsofCwd(lines).Some? ==>
              exists i, j :: FirstCwdRecord(lines, i, j) && LsofCwd(lines).value == lines[j][1..]
  {
    var i := FirstFcwd(lines, 0);
    if i < |lines| {
      var j := FirstNameLine(lines, i + 1);
      if j == |lines| {
        forall a, b | 0 <= a < b < |lines| && lines[a] == "fcwd"
          ensures !IsNameLine(lines[b])
        {
          assert i <= a;
        }
      } else {
        assert FirstCwdRecord(lines, i, j);
      }
    }
  }

  /** The loop of `get_cwd` on macOS over the lines of lsof's output. */
  method ParseLsofCwd(lines: seq<string>) returns (r: Option<string>)
    ensures r == LsofCwd(lines)
  {
    var found := false;
    ghost var first := FirstFcwd(lines, 0);
    for k := 0 to |lines|
      invariant found <==> first < k
      invariant found ==> forall m :: first < m < k ==> !IsNameLine(lines[m])
    {
      if lines[k] == "fcwd" {
        found := true;
      } else if found && IsNameLine(lines[k]) {
        assert FirstNameLine(lines, first + 1) == k;
        return Some(lines[k][1..]);
      }
    }
    assert first < |lines| ==> FirstNameLine(lines, first + 1) == |lines|;
    return None;
  }

  /** What `get_cwd` returns for a child as `child` shows it, on `os`. */
  function CwdOf(os: TargetOs, child: ChildView): Option<string>
  {
    if child.poisoned || child.pid.None? then None
    else match os
      case MacOs => if child.lsofLines.None? then None else LsofCwd(child.lsofLines.value)
      case Linux => child.procCwd
      case _ => None
  }

  /**
   * A cwd is found only when the child lock is taken and the child has a pid, and only on macOS
   * or Linux; on Linux it is the `/proc` link, on macOS what the lsof parse finds.
   */
  lemma CwdOfFinds(os: TargetOs, child: ChildView)
    ensures CwdOf(os, child).Some? ==> !child.poisoned && child.pid.Some? && (os == MacOs || os == Linux)
    ensures os == Linux && !child.poisoned && child.pid.Some? ==> CwdOf(os, child) == child.procCwd
    ensures os == MacOs && !child.poisoned && child.pid.Some? && child.lsofLines.Some?
            ==> CwdOf(os, child) == LsofCwd(child.lsofLines.value)
    ensures os == MacOs && !child.poisoned && child.pid.Some? && child.lsofLines.None?
            ==> CwdOf(os, child) == None
  {
  }

  // ---------------------------------------------------------------------------------------
  // The handle

  /** A `PtySize` with zero pixel sizes, as every call in the source passes. */
  datatype PtySize = PtySize(cols: u16, rows: u16)

  /** The combined outcome of `openpty`, `spawn_command`, `take_writer` and `try_clone_reader`. */
  datatype SpawnOutcome = Spawned(child: ChildView) | SpawnFailed(msg: string)

  /** What `write_all` did: wrote everything, or failed after the first `accepted` bytes. */
  datatype WriteOutcome = WroteAll | WriteFailed(accepted: nat, msg: string)

  /** `$SHELL` and the home directory, as the process environment gives them. */
  datatype Environment = Environment(shellVar: Option<string>, home: Option<string>)

  /** `PtyHandle`: one session's process, terminal and shared output state. */
  class PtyHandle {
    const output: PtyOutput
    const shell: string
    const initialCwd: string
    /** The size the terminal last accepted. */
    var size: PtySize
    /** Poison flags of the `master` and `writer` mutexes (set by no modelled code). */
    var masterPoisoned: bool
    var writerPoisoned: bool
    /** The child as the OS shows it; it changes outside this program. */
    var child: ChildView
    /** Every byte handed to the child's input. */
    ghost var input: seq<byte>

    ghost predicate Valid()
      reads this, output
    {
      output.Valid()
    }

    constructor (shell: string, initialCwd: string, size: PtySize, c: ChannelId, child: ChildView)
      ensures Valid() && fresh(output)
      ensures this.shell == shell && this.initialCwd == initialCwd && this.size == size && this.child == child
      ensures !masterPoisoned && !writerPoisoned && input == []
      ensures output.channel == Some(c) && output.buffer == [] && !output.poisoned
      ensures output.stream == [] && output.sent == []
    {
      output := new PtyOutput(c);
      this.shell := shell;
      this.initialCwd := initialCwd;
      this.size := size;
      masterPoisoned := false;
      writerPoisoned := false;
      this.child := child;
      input := [];
    }

    /**
     * `spawn`: on success a new handle whose shell and initial cwd follow the defaults, with
     * `c` attached and an empty buffer; on failure the OS's message.
     */
    static method Spawn(os: TargetOs, cols: u16, rows: u16, c: ChannelId, cwd: Option<string>,
                        env: Environment, launch: SpawnOutcome) returns (r: Result<PtyHandle>)
      ensures launch.SpawnFailed? ==> r == Err(launch.msg)
      ensures launch.Spawned? ==> && r.Ok? && fresh(r.value) && fresh(r.value.output) && r.value.Valid()
                                  && r.value.shell == ShellFor(os, env.shellVar)
                                  && r.value.initialCwd == InitialCwd(cwd, env.home)
                                  && r.value.size == PtySize(cols, rows)
                                  && r.value.child == launch.child
                                  && r.value.output.channel == Some(c) && r.value.output.buffer == []
                                  && r.value.output.sent == [] && r.value.output.stream == []
                                  && !r.value.output.poisoned && !r.value.masterPoisoned
                                  && !r.value.writerPoisoned && r.value.input == []
    {
      if launch.SpawnFailed? {
        return Err(launch.msg);
      }
      var shell := ShellFor(os, env.shellVar);
      var dir := InitialCwd(cwd, env.home);
      var h := new PtyHandle(shell, dir, PtySize(cols, rows), c, launch.child);
      return Ok(h);
    }

    /** `write`: hand `data` to the child's input. */
    method Write(data: seq<byte>, os: WriteOutcome) returns (r: Result<()>)
      modifies this
      ensures size == old(size) && child == old(child)
      ensures writerPoisoned == old(writerPoisoned) && masterPoisoned == old(masterPoisoned)
      ensures writerPoisoned ==> r == Err(PoisonMessage) && input == old(input)
      ensures !writerPoisoned && os.WroteAll? ==> r == Ok(()) && input == old(input) + data
      ensures !writerPoisoned && os.WriteFailed? ==>
                r == Err(os.msg) && input == old(input) + data[..Min(os.accepted, |data|)]
    {
      if writerPoisoned {
        return Err(PoisonMessage);
      }
      match os
      case WroteAll =>
        input := input + data;
        r := Ok(());
      case WriteFailed(accepted, msg) =>
        input := input + data[..Min(accepted, |data|)];
        r := Err(msg);
    }

    /** `resize`: the terminal takes the new size, or the error is returned and the size stays. */
    method Resize(cols: u16, rows: u16, os: Result<()>) returns (r: Result<()>)
      modifies this
      ensures input == old(input) && child == old(child)
      ensures writerPoisoned == old(writerPoisoned) && masterPoisoned == old(masterPoisoned)
      ensures masterPoisoned ==> r == Err(PoisonMessage) && size == old(size)
      ensures !masterPoisoned ==> r == os
      ensures !masterPoisoned && os.Ok? ==> size == PtySize(cols, rows)
      ensures !masterPoisoned && os.Err? ==> size == old(size)
    {
      if masterPoisoned {
        return Err(PoisonMessage);
      }
      if os.Ok? {
        size := PtySize(cols, rows);
      }
      return os;
    }

    /**
     * `attach`: replay the buffer to `c` and install it (see `PtyOutput.Attach`), then resize.
     * A failed resize is returned, but the new channel stays installed.
     */
    method Attach(c: ChannelId, cols: u16, rows: u16, resizeOs: Result<()>) returns (r: Result<()>)
      requires Valid()
      modifies this, output
      ensures Valid()
      ensures input == old(input) && child == old(child)
      ensures writerPoisoned == old(writerPoisoned) && masterPoisoned == old(masterPoisoned)
      ensures old(output.poisoned) ==> r == Err(PoisonMessage) && unchanged(output) && size == old(size)
      ensures !old(output.poisoned) ==>
                && output.channel == Some(c) && output.buffer == old(output.buffer)
                && output.stream == old(output.stream) && output.poisoned == old(output.poisoned)
                && output.sent == old(output.sent) + Replayed(c, old(output.buffer))
                && (masterPoisoned ==> r == Err(PoisonMessage) && size == old(size))
                && (!masterPoisoned ==> r == resizeOs)
                && (!masterPoisoned && resizeOs.Ok? ==> size == PtySize(cols, rows))
                && (!masterPoisoned && resizeOs.Err? ==> size == old(size))
    {
      var locked := output.Attach(c);
      if !locked {
        return Err(PoisonMessage);
      }
      r := Resize(cols, rows, resizeOs);
    }

    /** `detach`: clear the channel; the reader thread keeps filling the buffer. */
    method Detach()
      requires Valid()
      modifies output
      ensures Valid()
      ensures old(output.poisoned) ==> unchanged(output)
      ensures !old(output.poisoned) ==> output.channel == None && output.buffer == old(output.buffer)
                                        && output.stream == old(output.stream)
                                        && output.sent == old(output.sent)
                                        && output.poisoned == old(output.poisoned)
    {
      output.Detach();
    }

    /** `get_cwd`, with `lsof`'s output parsed as on macOS. */
    method GetCwd(os: TargetOs) returns (r: Option<string>)
      ensures r == CwdOf(os, child)
    {
      if child.poisoned || child.pid.None? {
        return None;
      }
      match os
      case MacOs =>
        if child.lsofLines.None? {
          return None;
        }
        r := ParseLsofCwd(child.lsofLines.value);
      case Linux =>
        r := child.procCwd;
      case _ =>
        r := None;
    }
  }
}
