# PTY sessions of the yolo terminal back end, in Dafny

This project models the Rust back end of the yolo terminal app. It covers two files.

- `src-tauri/src/pty.rs` defines one PTY session:
  - the output state that the reader thread and `attach`/`detach` share under one mutex. It holds a replay buffer of the newest 64 KiB and the slot of the front end's output channel;
  - the reader thread's loop;
  - the handle that owns the session: `spawn`, `write`, `resize`, `attach`, `detach`, `is_alive` and `get_cwd`, including the parse of `lsof -Fn` output.
- `src-tauri/src/lib.rs` defines the session registry. It is a map from session id to handle behind one mutex, with these commands:
  - `spawn_shell`, `attach_shell`, `detach_shell`, `write_pty`, `resize_pty` and `list_sessions`;
  - the snapshot that `save_sessions` writes at exit;
  - `get_saved_sessions`, which reads that snapshot back.

The model is split into four modules:

- `Base` (`base.dfy`): bytes, `u16`, `Option`, `Result`, and the text of a poisoned-lock error.
- `Replay` (`replay.dfy`): the eviction rule as pure functions. It proves that any sequence of reader steps leaves exactly the newest 65536 bytes of the stream, in order.
- `Pty` (`pty.dfy`):
  - The class `PtyOutput` models the shared output state. Each section the source runs under the `output` mutex becomes one atomic method, so concurrent threads become an interleaving of method calls.
  - A channel is a number. A ghost log `sent` records every message sent from the state.
  - The class invariant `Valid` says that everything sent since the current channel was installed went to that channel, and that it carries exactly the stream from the replay's first byte on. So a channel attached at any point gets the buffer and then every later chunk, with no gap and no duplicate (`ReceivedSinceAttach`).
  - `ReaderThread` runs the reader loop over a given sequence of read results.
  - The class `PtyHandle` holds the rest of a session.
- `Sessions` (`sessions.dfy`): the class `AppState` with a `map<string, PtyHandle>` and one method per command.

Everything outside the program is an input to the model:

- what the OS answers: spawn outcome, write and resize results, `try_wait`, the pid, lsof's output lines, the `/proc/<pid>/cwd` link;
- the environment: `$SHELL`, the home directory, the target OS;
- whether the data directory exists and whether the file write succeeded.

A poisoned mutex is a boolean flag on the object that owns the mutex. No modelled code sets it, because panics are not modelled. Every operation handles it as the source does.

## Model

| member | source | states |
|---|---|---|
| Replay.Appended | src-tauri/src/pty.rs:94-99 | One reader step drains exactly `len + n - 65536` of the oldest bytes, or none when the chunk fits, then appends the chunk. The result has length `min(65536, len + n)`, equals the newest 65536 bytes of the old buffer followed by the chunk, and is `old ++ data` when nothing had to go. |
| Replay.FillFrom | src-tauri/src/pty.rs:83-99 | Any sequence of reader steps over chunks of at most 8192 bytes leaves at most 65536 bytes in the buffer. |
| Replay.LastNOfLastN | src-tauri/src/pty.rs:95-99 | Trimming to the newest k bytes, appending, then trimming again keeps the same bytes as appending to the untrimmed sequence and trimming once. |
| Replay.ExtendChunks | src-tauri/src/pty.rs:94-99 | One more chunk extends the stream by that chunk, and the buffer takes exactly one more step. |
| Replay.FillFromKeepsNewest | src-tauri/src/pty.rs:94-99 | After any sequence of reader steps, the buffer is the last `min(65536, total)` bytes of the initial buffer followed by all chunks, in order. |
| Replay.SeventyKiBScenario | src-tauri/src/pty.rs:7 | After 70 KiB of output the buffer is full, and it starts at the stream's byte 6 KiB: exactly the oldest 6 KiB were evicted. |
| Pty.MessagesToSplit | src-tauri/src/pty.rs:102-104 | What a channel received from a concatenation of logs is what it received from each part, in order. |
| Pty.MessagesToNone | src-tauri/src/pty.rs:102-104 | A channel receives nothing from a log without a delivery to it. |
| Pty.MessagesToAll | src-tauri/src/pty.rs:102-104 | A log of deliveries all to one channel gives that channel every payload, in order. |
| Pty.LiveSinceChunk | src-tauri/src/pty.rs:99-104 | A reader step sends the chunk to the attached channel only, so the channel's received bytes and the stream both grow by exactly that chunk. With no channel, nothing is sent. |
| Pty.LiveSinceAttach | src-tauri/src/pty.rs:127-134 | The replay message is exactly the stream's buffered tail. It is absent for an empty buffer, so the new channel starts gap-free at the buffer's first byte. |
| Pty.LiveSinceSpawn | src-tauri/src/pty.rs:74-77 | The channel given at spawn starts gap-free on an empty stream. |
| Pty.PtyOutput.constructor | src-tauri/src/pty.rs:74-77 | The spawned output state has the spawning channel, an empty buffer, and the invariant. |
| Pty.PtyOutput.OnChunk | src-tauri/src/pty.rs:88-104 | A non-empty chunk under the lock: the buffer becomes `Appended(old, data)`, the chunk joins the stream, and it is sent unchanged to the attached channel or to nobody. The invariant holds. A poisoned lock changes nothing and reports failure. |
| Pty.PtyOutput.Attach | src-tauri/src/pty.rs:124-135 | The buffer is replayed as one message only when it is non-empty, then the new channel replaces the old one. The buffer is unchanged and the invariant holds. A poisoned lock changes nothing. |
| Pty.PtyOutput.Detach | src-tauri/src/pty.rs:142-146 | The channel is cleared and the buffer is unchanged. A poisoned lock is ignored. |
| Pty.ReceivedSinceAttach | src-tauri/src/pty.rs:88-135 | A channel that got nothing before its attach has received exactly the stream from the replay's first byte on, at any later point: the buffer at attach, then every later chunk, with no gap and no duplicate. |
| Pty.ReplacedChannelCutOff | src-tauri/src/pty.rs:133-134 | A channel that is no longer installed receives nothing after the swap or the detach. |
| Pty.ExitOn | src-tauri/src/pty.rs:85-106 | The loop leaves on a zero-length read, a read error, or a poisoned lock after a non-empty read, and goes on exactly for a non-empty read with the lock taken. |
| Pty.FirstExit | src-tauri/src/pty.rs:84-108 | The index of the first read that ends the loop: every earlier read continues it. |
| Pty.FirstExitIs | src-tauri/src/pty.rs:84-108 | Any index whose earlier reads all continue the loop and whose own read ends it is `FirstExit`. |
| Pty.ChunksOfReads | src-tauri/src/pty.rs:85-88 | When every read succeeded, the chunk list is those reads' bytes. |
| Pty.ReadStep | src-tauri/src/pty.rs:85-88 | One more successful non-empty read extends the chunks read so far by its bytes. |
| Pty.FoldStep | src-tauri/src/pty.rs:94-104 | One more chunk takes stream, buffer and forwarded messages exactly one more step of their folds. |
| Pty.ReaderThread | src-tauri/src/pty.rs:81-109 | The loop handles exactly the reads before `FirstExit` and reports why it stopped. Stream, buffer and sent messages equal the fold of those reads' chunks, the channel is unchanged, and the invariant holds. |
| Pty.ShellFor | src-tauri/src/pty.rs:42-46 | The shell is `powershell.exe` on Windows, else `$SHELL`, else `/bin/bash`. |
| Pty.InitialCwd | src-tauri/src/pty.rs:48-53 | The initial cwd is the caller's cwd if given, else the home directory, else `.`. |
| Pty.IsAlive | src-tauri/src/pty.rs:169-176 | True exactly when the child lock was taken and `try_wait` succeeded with no exit status. False on an exit status, a wait error or a poisoned lock. |
| Pty.FirstFcwd | src-tauri/src/pty.rs:198-200 | The first `fcwd` line at or after a position, and no earlier one. |
| Pty.FirstNameLine | src-tauri/src/pty.rs:201 | The first `n`-prefixed line at or after a position, and no earlier one. |
| Pty.LsofCwdFinds | src-tauri/src/pty.rs:196-205 | Absent exactly when no `n` line follows an `fcwd` line. Otherwise it is the text after the `n` of the first `n` line after the first `fcwd` line. |
| Pty.ParseLsofCwd | src-tauri/src/pty.rs:197-205 | The loop with its `found_cwd` flag returns exactly `LsofCwd` of the lines. |
| Pty.CwdOfFinds | src-tauri/src/pty.rs:187-220 | A cwd is found only with the child lock taken and a pid. On Linux it is the `/proc` link, on macOS the lsof parse (nothing when lsof cannot be run or its output is not UTF-8), and on other systems nothing. |
| Pty.PtyHandle.constructor | src-tauri/src/pty.rs:111-118 | A new handle owns a fresh output state with the spawning channel and an empty buffer. |
| Pty.PtyHandle.Spawn | src-tauri/src/pty.rs:25-119 | A failed spawn returns the OS's error. A successful one returns a fresh valid handle with the chosen shell, initial cwd, size, child and channel, an empty buffer, stream, log and input, and all three locks unpoisoned. |
| Pty.PtyHandle.Write | src-tauri/src/pty.rs:148-154 | Success appends all the data to the child's input. A failure returns the OS's error after the first `accepted` bytes. A poisoned writer lock writes nothing. Size, child and lock flags are unchanged. |
| Pty.PtyHandle.Resize | src-tauri/src/pty.rs:156-167 | The size changes exactly when the resize succeeds, and the OS's result is returned. A poisoned master lock changes nothing. Input, child and lock flags are unchanged. |
| Pty.PtyHandle.Attach | src-tauri/src/pty.rs:124-139 | Replay and channel swap, with buffer, stream and output lock flag kept, then resize: the size changes exactly when the resize succeeds. A failed resize is returned, but the new channel stays installed. A poisoned output lock returns the poison error with nothing changed. Input, child and the other lock flags are unchanged. |
| Pty.PtyHandle.Detach | src-tauri/src/pty.rs:142-146 | The channel is cleared; buffer, stream, log and lock flag are kept, so nothing is sent. A poisoned output lock changes nothing. |
| Pty.PtyHandle.GetCwd | src-tauri/src/pty.rs:187-220 | Returns exactly `CwdOf` of the child as the OS shows it. |
| Sessions.GetSavedSessions | src-tauri/src/lib.rs:111-119 | A missing file gives an empty list. Otherwise the result is the file's sessions, or the read/parse error, or the data directory's error. |
| Sessions.AfterSave | src-tauri/src/lib.rs:140-150 | An empty snapshot, a missing data directory or a failed write leaves the file as it was. Otherwise loading the file gives back exactly the snapshot. |
| Sessions.AppState.constructor | src-tauri/src/lib.rs:157-159 | The registry starts empty. |
| Sessions.AppState.Insert | src-tauri/src/lib.rs:34-38 | `id` maps to the new handle, replacing any old one, and the registry invariant holds. |
| Sessions.AppState.SpawnShell | src-tauri/src/lib.rs:24-40 | Inserts only when the spawn succeeded and the lock was taken; an existing id is overwritten. The new session has the chosen shell, cwd, size, child and channel, empty buffer, stream, log and input, and clean locks. A failed spawn or a poisoned registry leaves the map unchanged and returns the error. |
| Sessions.AppState.AttachShell | src-tauri/src/lib.rs:42-57 | An absent id gives `Session not found` and changes nothing. A present id gets the handle's attach: `Ok` exactly when the output and master locks are clean and the resize succeeds; a poisoned output lock changes nothing. Other sessions are unchanged. |
| Sessions.AppState.DetachShell | src-tauri/src/lib.rs:59-69 | An absent id gives `Session not found`. A present id returns `Ok`, even with a poisoned output lock, and clears only that session's channel, keeping its buffer, stream and log. |
| Sessions.AppState.WritePty | src-tauri/src/lib.rs:83-92 | An absent id gives `Session not found` and changes nothing. A present id gets the handle's write: `Ok` with all data appended when the writer lock is clean and the write succeeds; size, child and lock flags are kept. Other sessions are unchanged. |
| Sessions.AppState.ResizePty | src-tauri/src/lib.rs:94-108 | An absent id gives `Session not found` and changes nothing. A present id gets the handle's resize: `Ok` and the new size when the master lock is clean and the resize succeeds, else the error with the size kept; input, child and lock flags are kept. Other sessions are unchanged. |
| Sessions.IterationOrder | src-tauri/src/lib.rs:74-75 | The map's ids in iteration order: each id of the map exactly once. |
| Sessions.AppState.ListSessions | src-tauri/src/lib.rs:71-81 | One entry per id in the map, no id twice, each with `alive == is_alive()`. A poisoned registry gives its error. |
| Sessions.AppState.AliveAmongSpec | src-tauri/src/lib.rs:128-130 | The `filter` keeps exactly the ids whose session is alive, and keeps distinct ids distinct. |
| Sessions.AppState.AliveIds | src-tauri/src/lib.rs:128-130 | The ids of exactly the alive sessions, each once. |
| Sessions.AppState.Entries | src-tauri/src/lib.rs:131-135 | One entry per given id, in order, each with that session's shell and `get_cwd()`, falling back to its initial cwd. |
| Sessions.AppState.SaveSessions | src-tauri/src/lib.rs:121-151 | The snapshot holds exactly the alive sessions, each once, with their shell and with `get_cwd()`, falling back to the initial cwd. The file afterwards is `AfterSave` of it. A poisoned registry takes and writes nothing. |

## Left out

- Real PTY allocation, process spawning, `take_writer`/`try_clone_reader`, and the `write_all`/`resize` system calls. Their outcomes are inputs (`SpawnOutcome`, `WriteOutcome`, `Result<()>`).
- Threads and the `Arc`/`Mutex` machinery:
  - each locked section is one atomic method, and real concurrency is not modelled;
  - mutex poisoning is a flag that no modelled code sets, because panics are not modelled;
  - the reader thread is fed an explicit sequence of read results.
- Tauri `Channel` transport. A send is a ghost log entry. Send failures, which the source ignores, are not modelled.
- Running `lsof` and reading `/proc/<pid>/cwd`:
  - lsof's output is given as lines, so `str::lines` splitting and the UTF-8 check are not modelled;
  - an unreadable link is an absent value.
- `to_string_lossy` in the initial-cwd default is not modelled: the home directory is given as a string.
- `$SHELL`, the home directory and the env overrides `SHELL_SESSIONS_DISABLE`/`TERM_PROGRAM` are foreign state. The first two are inputs, and the overrides are not modelled.
- JSON serialisation and the filesystem. The saved file is a value: missing, holding sessions, or unreadable with an error. A failed or partial write leaves the modelled file unchanged.
- The ctrlc handler, the Tauri app builder and `run`. The front end is not part of this model.
- What becomes of the child process and reader thread of a handle that `spawn_shell` drops, on a poisoned registry or when it overwrites an id. That is decided by the PTY library's drop code, which is not part of this model. The model only removes the handle from the map.
- `HashMap` iteration order is unspecified in the source, so `ListSessions` and `SaveSessions` pick ids in an arbitrary order.
- Pty.PtyHandle.Write: the bytes passed before `write_all` fails are modelled by the input `accepted`. How many that is depends on the OS.
