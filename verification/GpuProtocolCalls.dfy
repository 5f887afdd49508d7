/** What becomes of single helper calls: where calls and answers come from, and a call that nothing interrupts. */
module GpuProtocolCalls {
  import opened Wrappers
  import opened GpuProtocol

  // ---------------------------------------------------------------- where answers come from

  /** The answer a host step gives, if it gives one: for the six requests the watcher knows, for the request and map of
      the outstanding call, the key in the request block and the value computed in that step; for any other request the
      response is left as it was. */
  function AnswerTo(s: State, c: Call, value: int): Response {
    if c.request == 1 || c.request == 2 || c.request == 3 || c.request == 6 || c.request == 14 || c.request == 501
    then Response(c.request, c.mapId, s.key, value)
    else s.response
  }

  lemma AnswerStep(s: State, a: Action)
    requires Inv(s)
    ensures var s' := Do(s, a);
            s'.answers == s.answers ||
            (a.Host? && s.host.Respond? && |s.answers| < |s.calls| &&
             s'.answers == s.answers + [AnswerTo(s, s.calls[|s.answers|], a.value)])
  {
    if a.Host? && s.host.Respond? { RespondOwned(s); }
  }

  /** In every interleaving, the k-th answer was given in one step of the host, to the k-th call, with the value that
      step computed. */
  lemma {:induction false} AnswerGiven(n: nat, actions: seq<Action>, k: nat) returns (i: nat)
    requires k < |Run(Start(n), actions).answers|
    ensures i < |actions| && actions[i].Host?
    ensures var s := Run(Start(n), actions[..i]);
            s.host.Respond? && |s.answers| == k < |s.calls| &&
            Run(Start(n), actions).answers[k] == AnswerTo(s, s.calls[k], actions[i].value)
  {
    hide Inv, Do, AnswerTo;
    i := 0;
    if actions == [] {
      StartEmpty(n);
      assert false;
    } else {
      var m := |actions| - 1;
      var s := Run(Start(n), actions[..m]);
      RunInv(n, actions[..m]);
      AnswerStep(s, actions[m]);
      if k < |s.answers| {
        i := AnswerGiven(n, actions[..m], k);
        assert actions[..m][..i] == actions[..i];
      } else {
        i := m;
      }
    }
  }

  lemma StartEmpty(n: nat)
    ensures Run(Start(n), []).answers == [] && Run(Start(n), []).calls == []
  {
  }

  // ---------------------------------------------------------------- where calls come from

  /** Thread t began, in some step, the call it is in. */
  ghost predicate Begun(actions: seq<Action>, t: nat, th: Thread) {
    th.pc != Idle ==> exists i | 0 <= i < |actions| :: actions[i] == Begin(t, th.request, th.mapId, th.key)
  }

  ghost predicate AllBegun(s: State, actions: seq<Action>) {
    forall t :: 0 <= t < |s.threads| ==> Begun(actions, t, s.threads[t])
  }

  lemma BegunLater(actions: seq<Action>, a: Action, t: nat, th: Thread)
    requires Begun(actions, t, th)
    ensures Begun(actions + [a], t, th)
  {
    if th.pc != Idle {
      var i :| 0 <= i < |actions| && actions[i] == Begin(t, th.request, th.mapId, th.key);
      assert (actions + [a])[i] == actions[i];
    }
  }

  lemma BegunStep(s: State, actions: seq<Action>, a: Action)
    requires AllBegun(s, actions)
    ensures AllBegun(Do(s, a), actions + [a])
  {
    var s' := Do(s, a);
    forall t | 0 <= t < |s'.threads|
      ensures Begun(actions + [a], t, s'.threads[t])
    {
      var th, th' := s.threads[t], s'.threads[t];
      if a.Begin? && a.t == t && th.pc == Idle {
        assert (actions + [a])[|actions|] == Begin(t, th'.request, th'.mapId, th'.key);
      } else {
        SameCall(s, a, t);
        BegunLater(actions, a, t, th);
      }
    }
  }

  lemma SameCall(s: State, a: Action, t: nat)
    requires t < |s.threads| && !(a.Begin? && a.t == t && s.threads[t].pc == Idle)
    ensures var s' := Do(s, a);
            |s'.threads| == |s.threads| &&
            s'.threads[t] == s.threads[t].(pc := s'.threads[t].pc) &&
            (s.threads[t].pc == Idle ==> s'.threads[t].pc == Idle)
  {
  }

  lemma CallStep(s: State, a: Action)
    ensures var s' := Do(s, a);
            s'.calls == s.calls ||
            (a.Gpu? && a.t < |s.threads| && s.threads[a.t].pc == RaiseRequest &&
             var th := s.threads[a.t]; s'.calls == s.calls + [Call(a.t, th.request, th.mapId, th.key)])
  {
  }

  lemma {:induction false} RunBegun(n: nat, actions: seq<Action>)
    ensures AllBegun(Run(Start(n), actions), actions)
  {
    hide Do, AllBegun;
    if actions == [] {
      NoneBegun(n);
    } else {
      var m := |actions| - 1;
      RunBegun(n, actions[..m]);
      BegunStep(Run(Start(n), actions[..m]), actions[..m], actions[m]);
      assert actions == actions[..m] + [actions[m]];
    }
  }

  lemma NoneBegun(n: nat)
    ensures AllBegun(Run(Start(n), []), [])
  {
  }

  /** In every interleaving, every call raised is one that its thread began: for that request, map and key. */
  lemma {:induction false} CallBegun(n: nat, actions: seq<Action>, k: nat)
    requires k < |Run(Start(n), actions).calls|
    ensures var c := Run(Start(n), actions).calls[k];
            exists i | 0 <= i < |actions| :: actions[i] == Begin(c.thread, c.request, c.mapId, c.key)
  {
    hide Do;
    if actions == [] {
      StartEmpty(n);
    } else {
      var m := |actions| - 1;
      var s, a := Run(Start(n), actions[..m]), actions[m];
      CallStep(s, a);
      if k < |s.calls| {
        CallBegun(n, actions[..m], k);
        var c := s.calls[k];
        var i :| 0 <= i < m && actions[..m][i] == Begin(c.thread, c.request, c.mapId, c.key);
        assert actions[i] == actions[..m][i];
      } else {
        RunBegun(n, actions[..m]);
        var th := s.threads[a.t];
        assert Begun(actions[..m], a.t, th);
        var i :| 0 <= i < m && actions[..m][i] == Begin(a.t, th.request, th.mapId, th.key);
        assert actions[i] == actions[..m][i];
      }
    }
  }

  // ---------------------------------------------------------------- a call that nothing interrupts

  lemma {:induction false} FirstAction(s: State, a: Action, rest: seq<Action>)
    ensures Run(s, [a] + rest) == Run(Do(s, a), rest)
  {
    hide Do;
    var all := [a] + rest;
    if rest == [] {
      assert all[..0] == [];
    } else {
      var n := |rest| - 1;
      FirstAction(s, a, rest[..n]);
      assert all[..|all| - 1] == [a] + rest[..n];
    }
  }

  lemma {:induction false} RunJoined(s: State, a: seq<Action>, b: seq<Action>)
    ensures Run(s, a + b) == Run(Run(s, a), b)
  {
    hide Do;
    if b == [] {
      assert a + b == a;
    } else {
      var n := |b| - 1;
      RunJoined(s, a, b[..n]);
      assert (a + b)[..|a + b| - 1] == a + b[..n];
    }
  }

  /** Thread t's steps up to raising its request. */
  function Asking(t: nat, request: int, mapId: int, key: nat): seq<Action> {
    [Begin(t, request, mapId, key), Gpu(t), Gpu(t), Gpu(t), Gpu(t), Gpu(t)]
  }

  function Answering(value: int): seq<Action> {
    [Host(value), Host(value), Host(value), Host(value), Host(value), Host(value)]
  }

  function Collecting(t: nat): seq<Action> {
    [Gpu(t), Gpu(t), Gpu(t), Gpu(t)]
  }

  function Asked(s: State, t: nat, request: int, mapId: int, key: nat): State
    requires t < |s.threads|
  {
    s.(threads := s.threads[t := Thread(AwaitResponse, request, mapId, key)], key := key, request := request,
       mapId := mapId, occupy := 1, owner := Some(t), flag1 := 1, calls := s.calls + [Call(t, request, mapId, key)])
  }

  lemma Asks(s: State, t: nat, request: int, mapId: int, key: nat)
    requires t < |s.threads| && s.threads[t].pc == Idle && s.occupy == 0
    ensures Run(s, Asking(t, request, mapId, key)) == Asked(s, t, request, mapId, key)
  {
    var s1 := Do(s, Begin(t, request, mapId, key));
    var s2 := Do(s1, Gpu(t));
    var s3 := Do(s2, Gpu(t));
    var s4 := Do(s3, Gpu(t));
    var s5 := Do(s4, Gpu(t));
    var s6 := Do(s5, Gpu(t));
    assert s6 == Asked(s, t, request, mapId, key);
    hide Do, Asked;
    SixActions(s, Begin(t, request, mapId, key), Gpu(t), Gpu(t), Gpu(t), Gpu(t), Gpu(t));
  }

  lemma SixActions(s: State, a: Action, b: Action, c: Action, d: Action, e: Action, f: Action)
    ensures Run(s, [a, b, c, d, e, f]) == Do(Do(Do(Do(Do(Do(s, a), b), c), d), e), f)
  {
    hide Do;
    assert [a, b, c, d, e, f] == [a] + [b, c, d, e, f];
    FirstAction(s, a, [b, c, d, e, f]);
    var s1 := Do(s, a);
    assert [b, c, d, e, f] == [b] + [c, d, e, f];
    FirstAction(s1, b, [c, d, e, f]);
    FourActions(Do(s1, b), c, d, e, f);
  }

  lemma FourActions(s: State, a: Action, b: Action, c: Action, d: Action)
    ensures Run(s, [a, b, c, d]) == Do(Do(Do(Do(s, a), b), c), d)
  {
    hide Do;
    assert [a, b, c, d] == [a] + [b, c, d];
    FirstAction(s, a, [b, c, d]);
    var s1 := Do(s, a);
    assert [b, c, d] == [b] + [c, d];
    FirstAction(s1, b, [c, d]);
    var s2 := Do(s1, b);
    assert [c, d] == [c] + [d];
    FirstAction(s2, c, [d]);
    assert [d] == [d] + [];
    FirstAction(Do(s2, c), d, []);
  }

  lemma Serves(s: State, value: int)
    requires s.host == Polling && s.flag1 == 1
    ensures var answer := AnswerTo(s, Call(0, s.request, s.mapId, 0), value);
            Run(s, Answering(value)) == s.(flag1 := 0, flag2 := 1, response := answer, answers := s.answers + [answer])
  {
    var h := Host(value);
    var s1 := Do(s, h);
    var s2 := Do(s1, h);
    var s3 := Do(s2, h);
    var s4 := Do(s3, h);
    var s5 := Do(s4, h);
    var s6 := Do(s5, h);
    var answer := AnswerTo(s, Call(0, s.request, s.mapId, 0), value);
    assert s6 == s.(flag1 := 0, flag2 := 1, response := answer, answers := s.answers + [answer]);
    hide Do, AnswerTo;
    SixActions(s, h, h, h, h, h, h);
  }

  lemma Collects(s: State, t: nat)
    requires t < |s.threads| && s.threads[t].pc == AwaitResponse && s.flag2 != 0
    ensures Run(s, Collecting(t)) ==
            s.(threads := s.threads[t := s.threads[t].(pc := Idle)], flag2 := 0, occupy := 0, owner := None,
               results := s.results + [Result(t, s.response)])
  {
    var g := Gpu(t);
    var s1 := Do(s, g);
    var s2 := Do(s1, g);
    var s3 := Do(s2, g);
    var s4 := Do(s3, g);
    assert s4 == s.(threads := s.threads[t := s.threads[t].(pc := Idle)], flag2 := 0, occupy := 0, owner := None,
                    results := s.results + [Result(t, s.response)]);
    hide Do;
    FourActions(s, g, g, g, g);
  }

  /** From every state reached in which the lock is free, an idle thread can complete a call: the host answers for its
      request, map and key with the value it computes, the thread reads that, and lock and flags are free again. */
  lemma CallCompletes(n: nat, actions: seq<Action>, t: nat, request: int, mapId: int, key: nat, value: int)
    requires var s := Run(Start(n), actions); t < |s.threads| && s.threads[t].pc == Idle && s.owner.None?
    ensures var s := Run(Start(n), actions);
            var s' := Run(s, Asking(t, request, mapId, key) + Answering(value) + Collecting(t));
            var c := Call(t, request, mapId, key);
            s'.calls == s.calls + [c] && s'.threads == s.threads[t := Thread(Idle, request, mapId, key)] &&
            s'.results == s.results + [Result(t, AnswerTo(s.(key := key), c, value))] &&
            s'.owner.None? && s'.occupy == 0 && s'.flag1 == 0 && s'.flag2 == 0 && s'.host == Polling
  {
    var s := Run(Start(n), actions);
    assert s.occupy == 0 && s.host == Polling by { RunInv(n, actions); }
    hide Run, Inv;
    var s1 := Asked(s, t, request, mapId, key);
    Asks(s, t, request, mapId, key);
    Serves(s1, value);
    var answer := AnswerTo(s1, Call(0, request, mapId, 0), value);
    var s2 := s1.(flag1 := 0, flag2 := 1, response := answer, answers := s.answers + [answer]);
    Collects(s2, t);
    RunJoined(s, Asking(t, request, mapId, key), Answering(value));
    RunJoined(s, Asking(t, request, mapId, key) + Answering(value), Collecting(t));
  }
}
