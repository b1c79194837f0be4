/**
 * The session registry of src-tauri/src/lib.rs: `AppState`'s map from session id to PTY
 * handle behind one mutex, the commands the front end invokes on it, the snapshot taken when
 * the app exits, and how the saved file is read back.
 */
module Sessions {
  import opened Base
  import opened Replay
  import opened Pty

  /** The error every command returns for an id that is not in the map. */
  const SessionNotFound: string := "Session not found"

  /** One entry of `list_sessions`. */
  datatype SessionInfo = SessionInfo(id: string, alive: bool)

  /** One entry of the saved file. */
  datatype SavedSession = SavedSession(id: string, shell: string, cwd: string)

  /**
   * `sessions.json` in the app data directory: absent, holding a list of saved sessions, or
   * present but not readable as one (the read or the JSON parse fails with `msg`).
   */
  datatype StoredFile = Missing | Stored(saved: seq<SavedSession>) | Unreadable(msg: string)

  /**
   * `get_saved_sessions`: the data directory's error if it cannot be found, an empty list when
   * the file does not exist, otherwise what the file holds or the error reading it.
   */
  function GetSavedSessions(dataDir: Result<()>, file: StoredFile): (r: Result<seq<SavedSession>>)
    ensures dataDir.Err? ==> r == Err(dataDir.error)
    ensures dataDir.Ok? && file.Missing? ==> r == Ok([])
    ensures dataDir.Ok? && file.Stored? ==> r == Ok(file.saved)
    ensures dataDir.Ok? && file.Unreadable? ==> r == Err(file.msg)
  {
    if dataDir.Err? then Err(dataDir.error)
    else match file
      case Missing => Ok([])
      case Stored(saved) => Ok(saved)
      case Unreadable(msg) => Err(msg)
  }

  /**
   * The file after the write part of `save_sessions` with snapshot `saved`: nothing is written
   * for an empty snapshot, when the data directory is not found, or when the write fails;
   * otherwise the file holds the snapshot, and loading it gives the snapshot back.
   */
  function AfterSave(file: StoredFile, saved: seq<SavedSession>, dataDir: Result<()>, written: bool)
    : (r: StoredFile)
    ensures saved == [] || dataDir.Err? || !written ==> r == file
    ensures saved != [] && dataDir.Ok? && written ==> GetSavedSessions(dataDir, r) == Ok(saved)
  {
    if saved == [] || dataDir.Err? || !written then file else Stored(saved)
  }

  /** Whether `ids` holds no id twice. */
  predicate Distinct(ids: seq<string>)
  {
    forall i, j :: 0 <= i < j < |ids| ==> ids[i] != ids[j]
  }

  /** The ids of a list of entries, in order; `id` picks an entry's id. */
  function Ids<T>(entries: seq<T>, id: T -> string): (ids: seq<string>)
    ensures |ids| == |entries| && forall i :: 0 <= i < |entries| ==> ids[i] == id(entries[i])
  {
    if entries == [] then [] else Ids(entries[..|entries| - 1], id) + [id(entries[|entries| - 1])]
  }

  /** An id not yet listed keeps a list of distinct ids distinct. */
  lemma DistinctSnoc(ids: seq<string>, x: string)
    requires Distinct(ids) && x !in ids
    ensures Distinct(ids + [x])
  {
  }

  /** The entry `save_sessions` writes for session `id`: its shell, and its cwd or the initial one. */
  function EntryOf(os: TargetOs, id: string, h: PtyHandle): SavedSession
    reads h
  {
    SavedSession(id, h.shell, CwdOf(os, h.child).GetOr(h.initialCwd))
  }

  /** The ids of `m`, each once, in the order `HashMap::iter` visits them (which is unspecified). */
  method IterationOrder<V>(m: map<string, V>) returns (ids: seq<string>)
    ensures |ids| == |m| && Distinct(ids)
    ensures forall id :: id in ids <==> id in m
  {
    ids := [];
    var left := m.Keys;
    while left != {}
      invariant left <= m.Keys
      invariant |ids| + |left| == |m|
      invariant Distinct(ids)
      invariant forall id :: id in ids ==> id in m
      invariant forall id :: id in m ==> (id in ids <==> id !in left)
      decreases |left|
    {
      var id :| id in left;
      DistinctSnoc(ids, id);
      ids := ids + [id];
      left := left - {id};
    }
  }

  /** The registry: `AppState { sessions: Mutex<HashMap<String, PtyHandle>> }`. */
  class AppState {
    var sessions: map<string, PtyHandle>
    /** Poison flag of the registry mutex (set by no modelled code). */
    var poisoned: bool
    /** The platform the app was built for; it decides how `get_cwd` works. */
    const os: TargetOs

    ghost function Handles(): set<object>
      reads this
    {
      set id | id in sessions :: sessions[id]
    }

    ghost function Outputs(): set<object>
      reads this
    {
      set id | id in sessions :: sessions[id].output
    }

    /** Every handle is valid, and no two ids share a handle or an output state. */
    ghost predicate Valid()
      reads this, Handles(), Outputs()
    {
      && (forall id :: id in sessions ==> sessions[id].Valid())
      && (forall a, b :: a in sessions && b in sessions && a != b ==>
            sessions[a] != sessions[b] && sessions[a].output != sessions[b].output)
    }

    /** The state the app builder installs: an empty map. */
    constructor (os: TargetOs)
      ensures Valid() && sessions == map[] && !poisoned && this.os == os
    {
      sessions := map[];
      poisoned := false;
      this.os := os;
    }

    /** `HashMap::insert` of a new handle: `id` maps to `h`, replacing what it mapped to. */
    method Insert(id: string, h: PtyHandle)
      requires Valid() && h.Valid() && h !in Handles() && h.output !in Outputs()
      modifies this
      ensures Valid() && sessions == old(sessions)[id := h] && poisoned == old(poisoned)
      ensures unchanged(h) && unchanged(h.output)
    {
      ghost var before := sessions;
      sessions := sessions[id := h];
      forall k | k in sessions && k != id
        ensures sessions[k] == before[k] && sessions[k] != h && sessions[k].output != h.output
      {
        assert before[k] in old(Handles()) && before[k].output in old(Outputs());
      }
    }

    /**
     * `spawn_shell`: spawn first, then take the registry lock and insert under `id`, replacing
     * any handle already there. A failed spawn or a poisoned registry leaves the map as it was.
     */
    method SpawnShell(id: string, cols: u16, rows: u16, c: ChannelId, cwd: Option<string>,
                      env: Environment, launch: SpawnOutcome) returns (r: Result<()>)
      requires Valid()
      modifies this
      ensures Valid() && poisoned == old(poisoned)
      ensures launch.SpawnFailed? ==> r == Err(launch.msg) && sessions == old(sessions)
      ensures launch.Spawned? && poisoned ==> r == Err(PoisonMessage) && sessions == old(sessions)
      ensures launch.Spawned? && !poisoned ==>
                && r == Ok(()) && id in sessions && sessions == old(sessions)[id := sessions[id]]
                && fresh(sessions[id]) && fresh(sessions[id].output)
                && sessions[id].shell == ShellFor(os, env.shellVar)
                && sessions[id].initialCwd == InitialCwd(cwd, env.home)
                && sessions[id].size == PtySize(cols, rows)
                && sessions[id].child == launch.child
                && sessions[id].output.channel == Some(c) && sessions[id].output.buffer == []
                && sessions[id].output.sent == [] && sessions[id].output.stream == []
                && !sessions[id].output.poisoned && !sessions[id].masterPoisoned
                && !sessions[id].writerPoisoned && sessions[id].input == []
    {
      ghost var registry := sessions;
      var spawned := PtyHandle.Spawn(os, cols, rows, c, cwd, env, launch);
      assert sessions == registry;
      if spawned.Err? {
        return Err(spawned.error);
      }
      if poisoned {
        return Err(PoisonMessage);
      }
      var h := spawned.value;
      Insert(id, h);
      assert sessions[id] == h;
      return Ok(());
    }

    /**
     * `attach_shell`: look `id` up and attach `c` to its session (see `PtyHandle.Attach`).
     * Only that session changes.
     */
    method AttachShell(id: string, cols: u16, rows: u16, c: ChannelId, resizeOs: Result<()>)
      returns (r: Result<()>)
      requires Valid()
      modifies if id in sessions then {sessions[id], sessions[id].output} else {}
      ensures Valid()
      ensures poisoned ==> r == Err(PoisonMessage)
      ensures !poisoned && id !in sessions ==> r == Err(SessionNotFound)
      ensures !poisoned && id in sessions ==>
                var h := sessions[id];
                && h.writerPoisoned == old(h.writerPoisoned) && h.masterPoisoned == old(h.masterPoisoned)
                && h.child == old(h.child) && h.input == old(h.input)
                && (old(h.output.poisoned) ==>
                      r == Err(PoisonMessage) && unchanged(h.output) && h.size == old(h.size))
                && (!old(h.output.poisoned) ==>
                      && h.output.channel == Some(c) && h.output.buffer == old(h.output.buffer)
                      && h.output.stream == old(h.output.stream) && h.output.poisoned == old(h.output.poisoned)
                      && h.output.sent == old(h.output.sent) + Replayed(c, old(h.output.buffer))
                      && (h.masterPoisoned ==> r == Err(PoisonMessage) && h.size == old(h.size))
                      && (!h.masterPoisoned ==> r == resizeOs)
                      && (!h.masterPoisoned && resizeOs.Ok? ==> h.size == PtySize(cols, rows))
                      && (!h.masterPoisoned && resizeOs.Err? ==> h.size == old(h.size)))
      ensures poisoned || id !in sessions ==>
                id in sessions ==> unchanged(sessions[id]) && unchanged(sessions[id].output)
      ensures forall k | k in sessions && k != id :: unchanged(sessions[k]) && unchanged(sessions[k].output)
    {
      if poisoned {
        return Err(PoisonMessage);
      }
      if id !in sessions {
        return Err(SessionNotFound);
      }
      ghost var registry := sessions;
      var h := sessions[id];
      forall k | k in sessions && k != id
        ensures sessions[k] != h && sessions[k].output != h.output
      {
      }
      r := h.Attach(c, cols, rows, resizeOs);
      assert sessions == registry && sessions[id] == h && h.Valid();
    }

    /**
     * `detach_shell`: look `id` up and clear its channel. It succeeds even when the session's
     * output lock is poisoned, and no other session changes.
     */
    method DetachShell(id: string) returns (r: Result<()>)
      requires Valid()
      modifies if id in sessions then {sessions[id].output} else {}
      ensures Valid()
      ensures poisoned ==> r == Err(PoisonMessage)
      ensures !poisoned && id !in sessions ==> r == Err(SessionNotFound)
      ensures !poisoned && id in sessions ==>
                var out := sessions[id].output;
                && r == Ok(())
                && (old(out.poisoned) ==> unchanged(out))
                && (!old(out.poisoned) ==> && out.channel == None && out.buffer == old(out.buffer)
                                           && out.stream == old(out.stream) && out.sent == old(out.sent)
                                           && out.poisoned == old(out.poisoned))
      ensures poisoned && id in sessions ==> unchanged(sessions[id].output)
      ensures forall k | k in sessions && k != id :: unchanged(sessions[k].output)
    {
      if poisoned {
        return Err(PoisonMessage);
      }
      if id !in sessions {
        return Err(SessionNotFound);
      }
      sessions[id].Detach();
      return Ok(());
    }

    /** `write_pty`: look `id` up and hand `data` to its child's input. */
    method WritePty(id: string, data: seq<byte>, writeOs: WriteOutcome) returns (r: Result<()>)
      requires Valid()
      modifies if id in sessions then {sessions[id]} else {}
      ensures Valid()
      ensures poisoned ==> r == Err(PoisonMessage)
      ensures !poisoned && id !in sessions ==> r == Err(SessionNotFound)
      ensures !poisoned && id in sessions ==>
                var h := sessions[id];
                && h.writerPoisoned == old(h.writerPoisoned) && h.masterPoisoned == old(h.masterPoisoned)
                && h.child == old(h.child) && h.size == old(h.size)
                && (h.writerPoisoned ==> r == Err(PoisonMessage) && h.input == old(h.input))
                && (!h.writerPoisoned && writeOs.WroteAll? ==> r == Ok(()) && h.input == old(h.input) + data)
                && (!h.writerPoisoned && writeOs.WriteFailed? ==>
                      r == Err(writeOs.msg) && h.input == old(h.input) + data[..Min(writeOs.accepted, |data|)])
      ensures poisoned && id in sessions ==> unchanged(sessions[id])
      ensures forall k | k in sessions && k != id :: unchanged(sessions[k])
    {
      if poisoned {
        return Err(PoisonMessage);
      }
      if id !in sessions {
        return Err(SessionNotFound);
      }
      r := sessions[id].Write(data, writeOs);
    }

    /** `resize_pty`: look `id` up and resize its terminal. */
    method ResizePty(id: string, cols: u16, rows: u16, resizeOs: Result<()>) returns (r: Result<()>)
      requires Valid()
      modifies if id in sessions then {sessions[id]} else {}
      ensures Valid()
      ensures poisoned ==> r == Err(PoisonMessage)
      ensures !poisoned && id !in sessions ==> r == Err(SessionNotFound)
      ensures !poisoned && id in sessions ==>
                var h := sessions[id];
                && h.writerPoisoned == old(h.writerPoisoned) && h.masterPoisoned == old(h.masterPoisoned)
                && h.child == old(h.child) && h.input == old(h.input)
                && (h.masterPoisoned ==> r == Err(PoisonMessage) && h.size == old(h.size))
                && (!h.masterPoisoned ==> r == resizeOs)
                && (!h.masterPoisoned && resizeOs.Ok? ==> h.size == PtySize(cols, rows))
                && (!h.masterPoisoned && resizeOs.Err? ==> h.size == old(h.size))
      ensures poisoned && id in sessions ==> unchanged(sessions[id])
      ensures forall k | k in sessions && k != id :: unchanged(sessions[k])
    {
      if poisoned {
        return Err(PoisonMessage);
      }
      if id !in sessions {
        return Err(SessionNotFound);
      }
      r := sessions[id].Resize(cols, rows, resizeOs);
    }

    /** The ids among `ids` whose session is alive, in the same order: the `filter` of `save_sessions`. */
    function AliveAmong(ids: seq<string>): (alive: seq<string>)
      requires forall id :: id in ids ==> id in sessions
      reads this, Handles()
    {
      if ids == [] then []
      else
        var last := ids[|ids| - 1];
        AliveAmong(ids[..|ids| - 1]) + (if IsAlive(sessions[last].child) then [last] else [])
    }

    /** The filter keeps exactly the alive ids, and keeps them distinct. */
    lemma {:induction false} AliveAmongSpec(ids: seq<string>)
      requires forall id :: id in ids ==> id in sessions
      ensures forall id :: id in AliveAmong(ids) <==> id in ids && IsAlive(sessions[id].child)
      ensures Distinct(ids) ==> Distinct(AliveAmong(ids))
    {
      if ids != [] {
        var init, last := ids[..|ids| - 1], ids[|ids| - 1];
        assert ids == init + [last];
        AliveAmongSpec(init);
        if Distinct(ids) {
          assert last !in init;
          if IsAlive(sessions[last].child) {
            DistinctSnoc(AliveAmong(init), last);
          }
        }
      }
    }

    /**
     * `list_sessions`: one entry per id in the map, in the map's iteration order, each saying
     * whether that session's shell is alive.
     */
    method ListSessions() returns (r: Result<seq<SessionInfo>>)
      ensures poisoned ==> r == Err(PoisonMessage)
      ensures !poisoned ==> r.Ok? && |r.value| == |sessions| && Distinct(Ids(r.value, (s: SessionInfo) => s.id))
      ensures !poisoned ==> forall id :: id in sessions <==> id in Ids(r.value, (s: SessionInfo) => s.id)
      ensures !poisoned ==> forall i :: 0 <= i < |r.value| ==>
                r.value[i].id in sessions && r.value[i].alive == IsAlive(sessions[r.value[i].id].child)
    {
      if poisoned {
        return Err(PoisonMessage);
      }
      var ids := IterationOrder(sessions);
      var infos: seq<SessionInfo> := [];
      for i := 0 to |ids|
        invariant |infos| == i
        invariant forall j :: 0 <= j < i ==> infos[j] == SessionInfo(ids[j], IsAlive(sessions[ids[j]].child))
      {
        infos := infos + [SessionInfo(ids[i], IsAlive(sessions[ids[i]].child))];
      }
      assert Ids(infos, (s: SessionInfo) => s.id) == ids;
      return Ok(infos);
    }

    /** The `filter` of `save_sessions`: the ids of the alive sessions, each once. */
    method AliveIds() returns (alive: seq<string>)
      ensures Distinct(alive)
      ensures forall id :: id in alive <==> id in sessions && IsAlive(sessions[id].child)
    {
      var ids := IterationOrder(sessions);
      alive := [];
      for i := 0 to |ids|
        invariant alive == AliveAmong(ids[..i])
      {
        assert ids[..i + 1][..i] == ids[..i];
        if IsAlive(sessions[ids[i]].child) {
          alive := alive + [ids[i]];
        }
      }
      assert ids[..|ids|] == ids;
      AliveAmongSpec(ids);
    }

    /** The `map` of `save_sessions`: the saved entry of each session in `ids`, in order. */
    method Entries(ids: seq<string>) returns (saved: seq<SavedSession>)
      requires forall id :: id in ids ==> id in sessions
      ensures |saved| == |ids|
      ensures forall k :: 0 <= k < |ids| ==> saved[k] == EntryOf(os, ids[k], sessions[ids[k]])
    {
      saved := [];
      for j := 0 to |ids|
        invariant |saved| == j
        invariant forall k :: 0 <= k < j ==> saved[k] == EntryOf(os, ids[k], sessions[ids[k]])
      {
        var h := sessions[ids[j]];
        var cwd := h.GetCwd(os);
        saved := saved + [SavedSession(ids[j], h.shell, cwd.GetOr(h.initialCwd))];
      }
    }

    /**
     * `save_sessions`: snapshot the alive sessions, each with its shell and its current cwd,
     * falling back to the cwd it was started in; then write the snapshot unless it is empty.
     * Nothing is taken or written when the registry lock is poisoned. `dataDir` and `written`
     * are whether the data directory was found and whether the write succeeded.
     */
    method SaveSessions(file: StoredFile, dataDir: Result<()>, written: bool)
      returns (saved: seq<SavedSession>, after: StoredFile)
      ensures poisoned ==> saved == [] && after == file
      ensures Distinct(Ids(saved, (s: SavedSession) => s.id))
      ensures !poisoned ==> forall id :: id in Ids(saved, (s: SavedSession) => s.id) <==> id in sessions && IsAlive(sessions[id].child)
      ensures forall i :: 0 <= i < |saved| ==>
                var h := sessions[saved[i].id];
                && saved[i].id in sessions
                && saved[i].shell == h.shell
                && saved[i].cwd == CwdOf(os, h.child).GetOr(h.initialCwd)
      ensures after == AfterSave(file, saved, dataDir, written)
    {
      if poisoned {
        return [], file;
      }
      var alive := AliveIds();
      saved := Entries(alive);
      assert Ids(saved, (s: SavedSession) => s.id) == alive;
      after := AfterSave(file, saved, dataDir, written);
    }
  }
}
