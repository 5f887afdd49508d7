/** Helper calls of GPU threads served by a host thread over one shared request block: a spin lock, a request flag
    and a response flag. A step is one access to shared memory; any step may come next. */
module GpuProtocol {
  import opened Wrappers

  /** Where a GPU thread stands in a helper call. */
  datatype Pc =
    | Idle
    | CopyKey       // copy the key into the request block, before taking the lock
    | Spin          // atom.cas on occupy_flag
    | StoreRequest
    | StoreMap
    | RaiseRequest  // flag1 = 1
    | AwaitResponse // spin until flag2 != 0
    | ClearResponse // flag2 = 0
    | ReadResponse
    | Release       // atom.exch on occupy_flag

  /** Where the host's watcher stands. */
  datatype HostPc =
    | Polling
    | ClearRequest
    | ReadRequest
    | ReadMap(request: int)
    | Respond(request: int, mapId: int)
    | RaiseResponse

  datatype Thread = Thread(pc: Pc, request: int, mapId: int, key: nat)

  /** A response, with the request it was computed for and the key found in the request block. */
  datatype Response = Response(request: int, mapId: int, key: nat, value: int)

  /** A call as raised, with the key it was made for. */
  datatype Call = Call(thread: nat, request: int, mapId: int, key: nat)

  datatype Result = Result(thread: nat, response: Response)

  /** Shared memory, both sides' positions, who holds the lock, and the history of calls raised, answers given
      and results read. */
  datatype State = State(flag1: int, flag2: int, occupy: int, request: int, mapId: int, key: nat, response: Response,
                         threads: seq<Thread>, host: HostPc, owner: Option<nat>,
                         calls: seq<Call>, answers: seq<Response>, results: seq<Result>)

  /** A thread begins a helper call for a key, a thread takes a step, or the host takes one (with the value it
      computes). */
  datatype Action = Begin(t: nat, request: int, mapId: int, key: nat) | Gpu(t: nat) | Host(value: int)

  /** The requests the watcher knows; for any other it leaves the response as it was. */
  predicate Known(request: int) {
    request in {1, 2, 3, 6, 14, 501}
  }

  function SetPc(s: State, t: nat, pc: Pc): State
    requires t < |s.threads|
  {
    s.(threads := s.threads[t := s.threads[t].(pc := pc)])
  }

  function GpuStep(s: State, t: nat): State
    requires t < |s.threads|
  {
    var th := s.threads[t];
    match th.pc
    case Idle => s
    case CopyKey => SetPc(s, t, Spin).(key := th.key)
    case Spin =>
      if s.occupy == 1 then s
      else SetPc(s, t, StoreRequest).(occupy := if s.occupy == 0 then 1 else s.occupy, owner := Some(t))
    case StoreRequest => SetPc(s, t, StoreMap).(request := th.request)
    case StoreMap => SetPc(s, t, RaiseRequest).(mapId := th.mapId)
    case RaiseRequest =>
      SetPc(s, t, AwaitResponse).(flag1 := 1, calls := s.calls + [Call(t, th.request, th.mapId, th.key)])
    case AwaitResponse => if s.flag2 == 0 then s else SetPc(s, t, ClearResponse)
    case ClearResponse => SetPc(s, t, ReadResponse).(flag2 := 0)
    case ReadResponse => SetPc(s, t, Release).(results := s.results + [Result(t, s.response)])
    case Release => SetPc(s, t, Idle).(occupy := 0, owner := None)
  }

  function HostStep(s: State, value: int): State {
    match s.host
    case Polling => if s.flag1 == 1 then s.(host := ClearRequest) else s
    case ClearRequest => s.(flag1 := 0, host := ReadRequest)
    case ReadRequest => s.(host := ReadMap(s.request))
    case ReadMap(r) => s.(host := Respond(r, s.mapId))
    case Respond(r, m) =>
      var answer := if Known(r) then Response(r, m, s.key, value) else s.response;
      s.(response := answer, answers := s.answers + [answer], host := RaiseResponse)
    case RaiseResponse => s.(flag2 := 1, host := Polling)
  }

  /** One step; a step that is not possible changes nothing. */
  function Do(s: State, a: Action): State {
    match a
    case Begin(t, request, mapId, key) =>
      if t < |s.threads| && s.threads[t].pc == Idle then
        s.(threads := s.threads[t := Thread(CopyKey, request, mapId, key)])
      else s
    case Gpu(t) => if t < |s.threads| then GpuStep(s, t) else s
    case Host(value) => HostStep(s, value)
  }

  function Run(s: State, actions: seq<Action>): State {
    if actions == [] then s else Do(Run(s, actions[..|actions| - 1]), actions[|actions| - 1])
  }

  /** Zeroed shared memory and n idle threads. */
  function Start(n: nat): State {
    State(0, 0, 0, 0, 0, 0, Response(0, 0, 0, 0), seq(n, i => Thread(Idle, 0, 0, 0)), Polling, None, [], [], [])
  }

  // ---------------------------------------------------------------- what every step keeps

  /** Between winning the compare-and-swap and releasing the lock. */
  predicate Critical(pc: Pc) {
    pc !in {Idle, CopyKey, Spin}
  }

  /** Exactly the recorded owner is between taking and releasing the lock. */
  ghost predicate Exclusive(s: State) {
    s.occupy == (if s.owner.Some? then 1 else 0) &&
    (s.owner.Some? ==> s.owner.value < |s.threads|) &&
    forall t :: 0 <= t < |s.threads| ==> (Critical(s.threads[t].pc) <==> s.owner == Some(t))
  }

  /** The answer belongs to the call: computed for its request and its map. */
  predicate Answers(c: Call, r: Response) {
    Known(c.request) ==> r.request == c.request && r.mapId == c.mapId
  }

  ghost predicate History(s: State) {
    |s.results| <= |s.answers| <= |s.calls| <= |s.results| + 1 &&
    (forall k :: 0 <= k < |s.answers| ==> Answers(s.calls[k], s.answers[k])) &&
    (forall k :: 0 <= k < |s.results| ==> s.results[k] == Result(s.calls[k].thread, s.answers[k]))
  }

  /** No request outstanding. */
  ghost predicate Quiet(s: State) {
    s.flag1 == 0 && s.flag2 == 0 && s.host == Polling && |s.calls| == |s.answers| == |s.results|
  }

  /** The request block holds thread t's request and map, and t's call is the last one raised. */
  ghost predicate Posted(s: State, t: nat)
    requires t < |s.threads|
  {
    var th := s.threads[t];
    s.request == th.request && s.mapId == th.mapId &&
    |s.calls| == |s.results| + 1 && s.calls[|s.results|] == Call(t, th.request, th.mapId, th.key)
  }

  /** The response block holds the answer to the outstanding call. */
  ghost predicate Answered(s: State) {
    |s.answers| == |s.results| + 1 && s.response == s.answers[|s.results|]
  }

  /** The host's progress while thread t's request is outstanding. */
  ghost predicate Serving(s: State, t: nat)
    requires t < |s.threads|
  {
    var th := s.threads[t];
    match s.host
    case Polling => if s.flag2 == 0 then s.flag1 == 1 && |s.answers| == |s.results|
                    else s.flag2 == 1 && s.flag1 == 0 && Answered(s)
    case ClearRequest => s.flag1 == 1 && s.flag2 == 0 && |s.answers| == |s.results|
    case ReadRequest => s.flag1 == 0 && s.flag2 == 0 && |s.answers| == |s.results|
    case ReadMap(r) => s.flag1 == 0 && s.flag2 == 0 && |s.answers| == |s.results| && r == th.request
    case Respond(r, m) =>
      s.flag1 == 0 && s.flag2 == 0 && |s.answers| == |s.results| && r == th.request && m == th.mapId
    case RaiseResponse => s.flag1 == 0 && s.flag2 == 0 && Answered(s)
  }

  /** What holds at each position of the lock's owner. */
  ghost predicate OwnerPhase(s: State, t: nat)
    requires t < |s.threads|
  {
    var th := s.threads[t];
    match th.pc
    case StoreRequest => Quiet(s)
    case StoreMap => Quiet(s) && s.request == th.request
    case RaiseRequest => Quiet(s) && s.request == th.request && s.mapId == th.mapId
    case AwaitResponse => Posted(s, t) && Serving(s, t)
    case ClearResponse => Posted(s, t) && Answered(s) && s.flag1 == 0 && s.flag2 == 1 && s.host == Polling
    case ReadResponse => Posted(s, t) && Answered(s) && s.flag1 == 0 && s.flag2 == 0 && s.host == Polling
    case Release => Quiet(s)
    case _ => false
  }

  ghost predicate Inv(s: State) {
    Exclusive(s) && History(s) &&
    (s.owner.None? ==> Quiet(s)) &&
    (s.owner.Some? ==> OwnerPhase(s, s.owner.value))
  }

  lemma StartInv(n: nat)
    ensures Inv(Start(n))
  {
  }

  lemma BeginInv(s: State, t: nat, request: int, mapId: int, key: nat)
    requires Inv(s)
    ensures Inv(Do(s, Begin(t, request, mapId, key)))
  {
  }

  lemma HostInv(s: State, value: int)
    requires Inv(s)
    ensures Inv(HostStep(s, value))
  {
    if s.owner.Some? { HostPhase(s, value); }
    HostHistory(s, value);
    hide OwnerPhase, History;
  }

  lemma HostPhase(s: State, value: int)
    requires Inv(s) && s.owner.Some?
    ensures OwnerPhase(HostStep(s, value), s.owner.value)
  {
    hide Exclusive, History;
  }

  lemma HostHistory(s: State, value: int)
    requires Inv(s)
    ensures History(HostStep(s, value))
  {
    if s.host.Respond? { RespondOwned(s); }
    hide OwnerPhase, Exclusive;
  }

  /** A step of one thread leaves the others where they were. */
  lemma ExclusiveStep(s: State, t: nat)
    requires Exclusive(s) && t < |s.threads|
    requires s.threads[t].pc == Spin ==> s.owner.None? || s.occupy == 1
    ensures Exclusive(GpuStep(s, t))
  {
  }

  lemma HistoryStep(s: State, t: nat)
    requires Inv(s) && t < |s.threads|
    ensures History(GpuStep(s, t))
  {
    hide Serving, Quiet;
    if s.threads[t].pc == ReadResponse { assert s.owner == Some(t); }
    if s.threads[t].pc == RaiseRequest { assert s.owner == Some(t); RaiseQuiet(s, t); }
  }

  lemma RaiseQuiet(s: State, t: nat)
    requires Inv(s) && s.owner == Some(t) && s.threads[t].pc == RaiseRequest
    ensures Quiet(s)
  {
  }

  /** Steps outside the critical section touch neither flags nor the request's identity. */
  lemma OutsideStep(s: State, t: nat)
    requires Inv(s) && t < |s.threads| && !Critical(s.threads[t].pc)
    ensures var s' := GpuStep(s, t); s'.owner.None? ==> Quiet(s')
    ensures var s' := GpuStep(s, t); s'.owner.Some? ==> s'.owner.value < |s'.threads| && OwnerPhase(s', s'.owner.value)
  {
  }

  lemma CriticalStep(s: State, t: nat)
    requires Inv(s) && t < |s.threads| && Critical(s.threads[t].pc)
    ensures var s' := GpuStep(s, t); s'.owner.None? ==> Quiet(s')
    ensures var s' := GpuStep(s, t); s'.owner.Some? ==> s'.owner.value < |s'.threads| && OwnerPhase(s', s'.owner.value)
  {
    assert s.owner == Some(t);
    hide Exclusive, History;
  }

  lemma GpuInv(s: State, t: nat)
    requires Inv(s) && t < |s.threads|
    ensures Inv(GpuStep(s, t))
  {
    ExclusiveStep(s, t);
    HistoryStep(s, t);
    if Critical(s.threads[t].pc) { CriticalStep(s, t); } else { OutsideStep(s, t); }
    hide Exclusive, History, Quiet, OwnerPhase, GpuStep;
  }

  /** In every interleaving of any number of threads with the host, every state satisfies the invariant. */
  lemma {:induction false} RunInv(n: nat, actions: seq<Action>)
    ensures Inv(Run(Start(n), actions))
  {
    hide Inv, GpuStep, HostStep;
    if actions == [] {
      StartInv(n);
    } else {
      RunInv(n, actions[..|actions| - 1]);
      var s := Run(Start(n), actions[..|actions| - 1]);
      match actions[|actions| - 1]
      case Begin(t, request, mapId, key) => BeginInv(s, t, request, mapId, key);
      case Gpu(t) => if t < |s.threads| { GpuInv(s, t); }
      case Host(value) => HostInv(s, value);
    }
  }

  /** At most one thread is between taking and releasing the lock. */
  lemma MutualExclusion(n: nat, actions: seq<Action>, t: nat, u: nat)
    ensures var s := Run(Start(n), actions);
            t < |s.threads| && u < |s.threads| && Critical(s.threads[t].pc) && Critical(s.threads[u].pc) ==> t == u
  {
    RunInv(n, actions);
    hide Run, Start;
  }

  /** While a thread waits for its response, the request block holds its request and its map, whatever the others
      do; once the host has raised the response flag, the response is the one computed for them. */
  lemma OutstandingRequestStable(n: nat, actions: seq<Action>, t: nat)
    ensures var s := Run(Start(n), actions);
            t < |s.threads| && s.threads[t].pc in {AwaitResponse, ClearResponse, ReadResponse} ==>
              s.request == s.threads[t].request && s.mapId == s.threads[t].mapId &&
              (s.flag2 == 1 && Known(s.request) ==>
                s.response.request == s.threads[t].request && s.response.mapId == s.threads[t].mapId)
  {
    RunInv(n, actions);
    hide Run, Start;
  }

  /** Completed calls form a sequential history: the k-th result read is what the host answered to the k-th call
      raised, it goes to the thread that made that call, and if the host knows the request it was computed for
      that call's own request and map. */
  lemma ResultsAnswerCalls(n: nat, actions: seq<Action>, k: nat)
    ensures var s := Run(Start(n), actions);
            k < |s.results| ==>
              k < |s.calls| && k < |s.answers| && s.results[k] == Result(s.calls[k].thread, s.answers[k]) &&
              (Known(s.calls[k].request) ==>
                s.results[k].response.request == s.calls[k].request &&
                s.results[k].response.mapId == s.calls[k].mapId)
  {
    RunInv(n, actions);
    hide Run, Start, Exclusive, Quiet, OwnerPhase;
  }

  // ---------------------------------------------------------------- the key is outside the lock

  /** Thread t begins calls only for keys in allowed[t]. */
  predicate Permitted(a: Action, allowed: seq<set<nat>>) {
    a.Begin? && a.t < |allowed| ==> a.key in allowed[a.t]
  }

  /** The k-th call, if the host knows the request, was answered for its own key. */
  predicate KeyRespected(s: State, k: nat) {
    k < |s.results| && k < |s.calls| && Known(s.calls[k].request) ==> s.results[k].response.key == s.calls[k].key
  }

  /** In every interleaving of threads that keep to their keys, every known call is answered for its own key. */
  ghost predicate KeysRespected(allowed: seq<set<nat>>) {
    forall actions, k | forall i :: 0 <= i < |actions| ==> Permitted(actions[i], allowed) ::
      KeyRespected(Run(Start(|allowed|), actions), k)
  }

  /** No two threads may use different keys. */
  predicate Agree(allowed: seq<set<nat>>) {
    forall i, j | 0 <= i < j < |allowed| :: forall a, b | a in allowed[i] && b in allowed[j] :: a == b
  }

  /** Threads in a call use a key of theirs; past the copy, it is the key in the request block; and answers were given
      for their calls' keys. */
  ghost predicate Keyed(s: State, allowed: seq<set<nat>>) {
    |s.threads| == |allowed| &&
    (forall t :: 0 <= t < |s.threads| && s.threads[t].pc != Idle ==> s.threads[t].key in allowed[t]) &&
    (forall t :: 0 <= t < |s.threads| && s.threads[t].pc !in {Idle, CopyKey} ==> s.threads[t].key == s.key) &&
    |s.answers| <= |s.calls| &&
    forall k :: 0 <= k < |s.answers| && Known(s.calls[k].request) ==> s.answers[k].key == s.calls[k].key
  }

  lemma KeyedGpu(s: State, allowed: seq<set<nat>>, t: nat)
    requires Inv(s) && Keyed(s, allowed) && Agree(allowed) && t < |s.threads|
    ensures Keyed(GpuStep(s, t), allowed)
  {
    hide OwnerPhase, Quiet, Exclusive, History;
    if s.threads[t].pc == CopyKey {
      KeyedCopy(s, allowed, t);
    }
  }

  /** Copying a key changes nothing for threads past their copy, since their keys are the same. */
  lemma KeyedCopy(s: State, allowed: seq<set<nat>>, t: nat)
    requires Keyed(s, allowed) && Agree(allowed) && t < |s.threads| && s.threads[t].pc == CopyKey
    ensures Keyed(GpuStep(s, t), allowed)
  {
    forall u | 0 <= u < |s.threads| && u != t && s.threads[u].pc !in {Idle, CopyKey}
      ensures s.threads[u].key == s.threads[t].key
    {
      assert s.threads[u].key in allowed[u] && s.threads[t].key in allowed[t];
    }
  }

  lemma RespondOwned(s: State)
    requires Inv(s) && s.host.Respond?
    ensures s.owner.Some? && s.owner.value < |s.threads| && s.threads[s.owner.value].pc == AwaitResponse
    ensures |s.calls| == |s.answers| + 1 && s.calls[|s.answers|].request == s.host.request &&
            s.calls[|s.answers|].key == s.threads[s.owner.value].key
  {
  }

  lemma KeyedHost(s: State, allowed: seq<set<nat>>, value: int)
    requires Inv(s) && Keyed(s, allowed)
    ensures Keyed(HostStep(s, value), allowed)
  {
    if s.host.Respond? { RespondOwned(s); }
    hide Inv;
  }

  lemma {:induction false} KeyedRun(allowed: seq<set<nat>>, actions: seq<Action>)
    requires Agree(allowed) && forall i :: 0 <= i < |actions| ==> Permitted(actions[i], allowed)
    ensures Keyed(Run(Start(|allowed|), actions), allowed)
  {
    hide Inv, GpuStep, HostStep, Agree;
    if actions != [] {
      var before := actions[..|actions| - 1];
      KeyedRun(allowed, before);
      RunInv(|allowed|, before);
      var s := Run(Start(|allowed|), before);
      match actions[|actions| - 1]
      case Begin(t, request, mapId, key) => assert Permitted(actions[|actions| - 1], allowed);
      case Gpu(t) => if t < |s.threads| { KeyedGpu(s, allowed, t); }
      case Host(value) => KeyedHost(s, allowed, value);
    }
  }

  lemma RunAppend(s: State, actions: seq<Action>, a: Action)
    ensures Run(s, actions + [a]) == Do(Run(s, actions), a)
  {
    hide Do;
    assert (actions + [a])[..|actions|] == actions;
  }

  lemma {:induction false} RunConcat(s: State, a: seq<Action>, b: seq<Action>)
    ensures Run(s, a + b) == Run(Run(s, a), b)
    decreases |b|
  {
    hide Do;
    if b == [] {
      assert a + b == a;
    } else {
      RunConcat(s, a, b[..|b| - 1]);
      assert (a + b)[..|a + b| - 1] == a + b[..|b| - 1];
    }
  }

  lemma RunThree(s: State, a: Action, b: Action, c: Action)
    ensures Run(s, [a, b, c]) == Do(Do(Do(s, a), b), c)
    ensures Run(s, [a, b]) == Do(Do(s, a), b)
  {
    hide Do;
    RunAppend(s, [], a);
    RunAppend(s, [a], b);
    RunAppend(s, [a, b], c);
    assert [] + [a] == [a] && [a] + [b] == [a, b] && [a, b] + [c] == [a, b, c];
  }

  /** Both threads begin a lookup and copy their keys, i first. */
  lemma BothCopy(n: nat, i: nat, j: nat, a: nat, b: nat)
    requires i < n && j < n && i != j
    ensures var s0 := Start(n);
            Run(s0, [Begin(i, 1, 0, a), Begin(j, 1, 0, b)] + [Gpu(i), Gpu(j)]) ==
            s0.(threads := s0.threads[i := Thread(Spin, 1, 0, a)][j := Thread(Spin, 1, 0, b)], key := b)
  {
    var s0, x, y := Start(n), Begin(i, 1, 0, a), Begin(j, 1, 0, b);
    RunConcat(s0, [x, y], [Gpu(i), Gpu(j)]);
    RunThree(s0, x, y, Gpu(i));
    var s2 := Do(Do(s0, x), y);
    RunThree(s2, Gpu(i), Gpu(j), Gpu(i));
    assert s2.threads == s0.threads[i := Thread(CopyKey, 1, 0, a)][j := Thread(CopyKey, 1, 0, b)];
  }

  /** Thread i takes the free lock and raises its request. */
  lemma Raises(s: State, i: nat)
    requires i < |s.threads| && s.threads[i].pc == Spin && s.occupy == 0
    ensures var th := s.threads[i];
            Run(s, [Gpu(i), Gpu(i)] + [Gpu(i), Gpu(i)]) ==
            s.(threads := s.threads[i := th.(pc := AwaitResponse)], occupy := 1, owner := Some(i),
               request := th.request, mapId := th.mapId, flag1 := 1,
               calls := s.calls + [Call(i, th.request, th.mapId, th.key)])
  {
    hide Run;
    RunConcat(s, [Gpu(i), Gpu(i)], [Gpu(i), Gpu(i)]);
    RunThree(s, Gpu(i), Gpu(i), Gpu(i));
    var th, s2 := s.threads[i], Do(Do(s, Gpu(i)), Gpu(i));
    RunThree(s2, Gpu(i), Gpu(i), Gpu(i));
    assert s2 == s.(threads := s.threads[i := th.(pc := StoreMap)], occupy := 1, owner := Some(i),
                    request := th.request);
  }

  /** The host serves a raised request. */
  lemma HostServes(s: State)
    requires s.flag1 == 1 && s.host == Polling && Known(s.request)
    ensures var answer := Response(s.request, s.mapId, s.key, 0);
            Run(s, [Host(0), Host(0), Host(0)] + [Host(0), Host(0), Host(0)]) ==
            s.(flag1 := 0, flag2 := 1, response := answer, answers := s.answers + [answer])
  {
    RunConcat(s, [Host(0), Host(0), Host(0)], [Host(0), Host(0), Host(0)]);
    RunThree(s, Host(0), Host(0), Host(0));
    var s3 := Do(Do(Do(s, Host(0)), Host(0)), Host(0));
    assert s3 == s.(flag1 := 0, host := ReadMap(s.request));
    RunThree(s3, Host(0), Host(0), Host(0));
  }

  /** Thread i finds the response flag raised and reads the response. */
  lemma Reads(s: State, i: nat)
    requires i < |s.threads| && s.threads[i].pc == AwaitResponse && s.flag2 == 1
    ensures var t := Run(s, [Gpu(i), Gpu(i), Gpu(i)]);
            t.results == s.results + [Result(i, s.response)] && t.calls == s.calls
  {
    hide Run;
    RunThree(s, Gpu(i), Gpu(i), Gpu(i));
    var th, s2 := s.threads[i], Do(Do(s, Gpu(i)), Gpu(i));
    assert s2 == s.(threads := s.threads[i := th.(pc := ReadResponse)], flag2 := 0);
  }

  /** Two lookups race: the first thread's call is answered for the second thread's key. */
  lemma KeysMixedUp(n: nat, i: nat, j: nat, a: nat, b: nat) returns (actions: seq<Action>)
    requires i < n && j < n && i != j
    ensures forall k :: 0 <= k < |actions| && actions[k].Begin? ==>
              (actions[k].t == i && actions[k].key == a) || (actions[k].t == j && actions[k].key == b)
    ensures var s := Run(Start(n), actions);
            s.calls == [Call(i, 1, 0, a)] && s.results == [Result(i, Response(1, 0, b, 0))]
  {
    hide Run, Start, Do;
    StartFields(n);
    var copy := [Begin(i, 1, 0, a), Begin(j, 1, 0, b)] + [Gpu(i), Gpu(j)];
    var raise := [Gpu(i), Gpu(i)] + [Gpu(i), Gpu(i)];
    var serve := [Host(0), Host(0), Host(0)] + [Host(0), Host(0), Host(0)];
    var read := [Gpu(i), Gpu(i), Gpu(i)];
    var s0 := Start(n);
    BothCopy(n, i, j, a, b);
    var s1 := Run(s0, copy);
    Raises(s1, i);
    var s2 := Run(s1, raise);
    HostServes(s2);
    var s3 := Run(s2, serve);
    Reads(s3, i);
    RunConcat(s0, copy, raise);
    RunConcat(s0, copy + raise, serve);
    RunConcat(s0, copy + raise + serve, read);
    actions := copy + raise + serve + read;
  }

  lemma StartFields(n: nat)
    ensures var s := Start(n);
            |s.threads| == n && s.occupy == 0 && s.host == Polling && s.calls == [] && s.results == []
  {
  }

  /** The key is copied before the lock is taken, so calls are answered for their own key in every interleaving exactly
      when no two threads may use different keys: any two that may can be mixed up. */
  lemma KeysRespectedIff(allowed: seq<set<nat>>)
    ensures KeysRespected(allowed) <==> Agree(allowed)
  {
    hide Run, Start;
    if Agree(allowed) {
      forall actions, k | forall i :: 0 <= i < |actions| ==> Permitted(actions[i], allowed)
        ensures KeyRespected(Run(Start(|allowed|), actions), k)
      {
        KeyedRun(allowed, actions);
        ResultsAnswerCalls(|allowed|, actions, k);
      }
    } else {
      var i, j :| 0 <= i < j < |allowed| && exists a, b :: a in allowed[i] && b in allowed[j] && a != b;
      var a, b :| a in allowed[i] && b in allowed[j] && a != b;
      var actions := KeysMixedUp(|allowed|, i, j, a, b);
      assert forall k :: 0 <= k < |actions| ==> Permitted(actions[k], allowed);
      assert !KeyRespected(Run(Start(|allowed|), actions), 0);
    }
  }
}
