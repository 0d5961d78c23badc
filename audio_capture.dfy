/** Starting and stopping per-process audio captures: a registry from process
    id to the spawned ApplicationLoopback process, which allows at most one
    capture per id, rejects a second start, and stops idempotently. The
    spawned program, its output stream and the `onData` callback are not
    modelled; a spawned process is reduced to its argument list and to
    whether it has been killed. */
module AudioCapture {

  /** A spawned capture process: `spawn(binary, [processId])`. */
  class ChildProcess {
    const args: seq<string>
    var killed: bool

    constructor Spawn(processId: string)
      ensures args == [processId] && !killed
    {
      args := [processId];
      killed := false;
    }

    /** `kill()`: sends the termination signal; the handle records it. */
    method Kill()
      modifies this
      ensures killed
    {
      killed := true;
    }
  }

  /** The error `startAudioCapture` throws for an id that is already capturing. */
  datatype CaptureError = AlreadyStarted(processId: string)

  datatype Result<T> = Success(value: T) | Failure(error: CaptureError)

  // ---------------------------------------------------------------------
  // The registry as a value: one step per call, over any handle type.

  /** `startAudioCapture` on registry `m`, spawning handle `h`: its result and
      the registry afterwards. */
  function StartStep<H>(m: map<string, H>, processId: string, h: H): (res: (Result<string>, map<string, H>))
    ensures processId in m ==> res == (Failure(AlreadyStarted(processId)), m)
    ensures processId !in m ==> res.0 == Success(processId)
    ensures processId !in m ==> res.1.Keys == m.Keys + {processId} && res.1[processId] == h
    ensures forall p | p in m :: p in res.1 && res.1[p] == m[p]
  {
    if processId in m then (Failure(AlreadyStarted(processId)), m)
    else (Success(processId), m[processId := h])
  }

  /** `stopAudioCapture` on registry `m`: whether a capture was found, and the
      registry afterwards. */
  function StopStep<H>(m: map<string, H>, processId: string): (res: (bool, map<string, H>))
    ensures res.0 <==> processId in m
    ensures res.1.Keys == m.Keys - {processId}
    ensures forall p | p in res.1 :: res.1[p] == m[p]
  {
    if processId in m then (true, m - {processId}) else (false, m)
  }

  /** Stopping twice: the second stop finds nothing and changes nothing. */
  lemma StopIdempotent<H>(m: map<string, H>, processId: string)
    ensures var after := StopStep(m, processId).1;
            StopStep(after, processId) == (false, after)
  {
  }

  /** Start then stop on a free id gives the registry back. */
  lemma StartThenStopRestores<H>(m: map<string, H>, processId: string, h: H)
    requires processId !in m
    ensures StopStep(StartStep(m, processId, h).1, processId) == (true, m)
  {
    var started := StartStep(m, processId, h).1;
    var after := StopStep(started, processId).1;
    assert after.Keys == m.Keys;
    assert forall p | p in after :: after[p] == started[p] == m[p];
    assert after == m;
  }

  /** After a stop the id can be started again. */
  lemma StopThenStartSucceeds<H>(m: map<string, H>, processId: string, h: H)
    ensures StartStep(StopStep(m, processId).1, processId, h).0 == Success(processId)
  {
  }

  /** Calls on different ids do not affect each other. */
  lemma DifferentIdsIndependent<H>(m: map<string, H>, p: string, q: string, h: H)
    requires p != q
    ensures StopStep(StartStep(m, p, h).1, q).0 == StopStep(m, q).0
    ensures StartStep(StopStep(m, q).1, p, h).0 == StartStep(m, p, h).0
  {
  }

  // ---------------------------------------------------------------------
  // The registry over a run of calls, and the per-id state machine.

  datatype Call<H> = Start(processId: string, handle: H) | Stop(processId: string)

  /** The registry after the given calls, from the empty registry of module load. */
  function Run<H>(calls: seq<Call<H>>): map<string, H>
  {
    if |calls| == 0 then map[]
    else
      var m := Run(calls[..|calls| - 1]);
      match calls[|calls| - 1]
      case Start(p, h) => StartStep(m, p, h).1
      case Stop(p) => StopStep(m, p).1
  }

  /** The id's slot is ACTIVE: some start on it succeeded and no stop on it
      came later. Read from the end: the last call that changed the slot was
      a start. */
  predicate Active<H>(calls: seq<Call<H>>, processId: string)
  {
    if |calls| == 0 then false
    else
      var prev := calls[..|calls| - 1];
      match calls[|calls| - 1]
      case Start(p, _) => p == processId || Active(prev, processId)
      case Stop(p) => p != processId && Active(prev, processId)
  }

  /** The registry holds an id exactly when its slot is ACTIVE. */
  lemma {:induction false} RunMatchesSlots<H>(calls: seq<Call<H>>, processId: string)
    ensures processId in Run(calls) <==> Active(calls, processId)
  {
    if |calls| > 0 {
      RunMatchesSlots(calls[..|calls| - 1], processId);
    }
  }

  /** A start fails exactly when its id is ACTIVE, and a stop reports true
      exactly then. */
  lemma {:induction false} StartFailsIffActive<H>(calls: seq<Call<H>>, processId: string, h: H)
    ensures StartStep(Run(calls), processId, h).0.Failure? <==> Active(calls, processId)
    ensures StopStep(Run(calls), processId).0 <==> Active(calls, processId)
  {
    RunMatchesSlots(calls, processId);
  }

  // ---------------------------------------------------------------------
  // The module-level registry.

  /** `spawnedAudioCaptures` and the two calls that change it. */
  class CaptureRegistry {
    var captures: map<string, ChildProcess>
    /** Every handle killed so far, in order. */
    ghost var killLog: seq<ChildProcess>

    /** Each entry is the live process spawned for its own id. */
    ghost predicate Valid()
      reads this, captures.Values
    {
      forall p | p in captures :: captures[p].args == [p] && !captures[p].killed
    }

    /** No process is registered under two ids. */
    lemma DistinctHandles(p: string, q: string)
      requires Valid()
      requires p in captures && q in captures && p != q
      ensures captures[p] != captures[q]
    {
    }

    /** The empty map created at module load. */
    constructor ()
      ensures Valid() && captures == map[] && killLog == []
    {
      captures := map[];
      killLog := [];
    }

    /** `startAudioCapture(processId, options)`: refuses an id that is
        already registered, otherwise spawns a capture process for it,
        registers it and returns the id. */
    method StartAudioCapture(processId: string) returns (r: Result<string>)
      requires Valid()
      modifies this
      ensures Valid() && killLog == old(killLog)
      ensures processId in captures
      ensures (r, captures) == StartStep(old(captures), processId, captures[processId])
      ensures processId !in old(captures) ==>
                fresh(captures[processId]) && captures[processId].args == [processId]
    {
      if processId in captures {
        return Failure(AlreadyStarted(processId));
      }
      var cppProcess := new ChildProcess.Spawn(processId);
      captures := captures[processId := cppProcess];
      return Success(processId);
    }

    /** `stopAudioCapture(processId)`: kills and unregisters the process of
        a registered id and returns true; returns false otherwise. */
    method StopAudioCapture(processId: string) returns (stopped: bool)
      requires Valid()
      modifies this, if processId in captures then {captures[processId]} else {}
      ensures Valid()
      ensures (stopped, captures) == StopStep(old(captures), processId)
      ensures stopped ==> old(captures)[processId].killed
      ensures killLog == old(killLog) + if stopped then [old(captures)[processId]] else []
    {
      if processId in captures {
        var cppProcess := captures[processId];
        cppProcess.Kill();
        captures := captures - {processId};
        killLog := killLog + [cppProcess];
        return true;
      }
      return false;
    }
  }

  /** A client: start one id, start it again, stop it twice. */
  method StartStopTwice(processId: string) returns (first: Result<string>, second: Result<string>, stop1: bool, stop2: bool)
    ensures first == Success(processId) && second == Failure(AlreadyStarted(processId))
    ensures stop1 && !stop2
  {
    var registry := new CaptureRegistry();
    first := registry.StartAudioCapture(processId);
    second := registry.StartAudioCapture(processId);
    stop1 := registry.StopAudioCapture(processId);
    stop2 := registry.StopAudioCapture(processId);
  }
}
