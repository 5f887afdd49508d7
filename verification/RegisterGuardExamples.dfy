/** Functions on which guarding changes what the body computes, or restores nothing. */
module RegisterGuardExamples {
  import opened Words
  import opened Wrappers
  import opened Ptx
  import opened RegisterGuard
  import opened PtxMachine
  import opened RegisterGuardText
  import opened RegisterGuardBlocks
  import opened RegisterGuardCorrect
  import opened RegisterGuardMeaning

  /** Sets %r1 to 7, may return, then publishes %r1. */
  const EARLY_EXIT: seq<Line> :=
    [FuncHeader("f"), OpenBrace, RegDecl(".b32", "%r1", None), Instr("set"), PredRet("%p1"), Instr("publish"), Ret,
     CloseBrace]

  /** "set" writes 7 to %r1; "publish" writes %r1 to memory. */
  function Meaning(text: string, regs: Registers, mem: nat): (Registers, nat) {
    if text == "set" then (regs["%r1" := 7], mem) else (regs, Val(regs, "%r1"))
  }

  lemma NothingScanned()
    ensures Scanned([]) == Scan(Outside, [], [])
  {
  }

  lemma {:induction false} BodyScanned(f: seq<Line>, n: nat)
    requires 2 <= n <= |f| && f[0].FuncHeader? && f[1].OpenBrace? && forall i :: 2 <= i < n ==> !f[i].CloseBrace?
    ensures Scanned(f[..n]) == Scan(Body, f[..n], [])
  {
    hide GuardedFunction, Scanned;
    if n == 2 {
      assert Scanned([]) == Scan(Outside, [], []) by { NothingScanned(); }
      ScannedAppend([], f[0]);
      assert [] + [f[0]] == f[..1] && f[..1] + [f[1]] == f[..2];
      ScannedAppend(f[..1], f[1]);
    } else {
      BodyScanned(f, n - 1);
      ScannedAppend(f[..n - 1], f[n - 1]);
      assert f[..n - 1] + [f[n - 1]] == f[..n];
    }
  }

  lemma EarlyExitGuardable()
    ensures Captured(EARLY_EXIT) && OpeningBrace(EARLY_EXIT) == Some(1) && DeclsEnd(EARLY_EXIT, 2) == 3
    ensures forall l :: l in EARLY_EXIT ==> !IsGuardLine(l)
  {
    hide Scanned;
    var f := EARLY_EXIT;
    BodyScanned(f, 7);
  }

  lemma EarlyExitSlots()
    ensures Slots(SavedRegs(EARLY_EXIT, 1)) == [Slot("%r1", ".u32")]
  {
    hide Captured, Scanned, OpeningBrace, DeclsEnd, Collected, Slots;
    EarlyExitGuardable();
    var l := RegDecl(".b32", "%r1", None);
    assert EARLY_EXIT[2..3] == [l];
    OneCollected();
    OneSlot();
  }

  const SAVED: RegInfo := RegInfo("%r1", 1, ["%r1"], ".u32")

  lemma OneCollected()
    ensures Collected([RegDecl(".b32", "%r1", None)]) == [SAVED]
  {
    hide Conflicts, Decimal;
    var l := RegDecl(".b32", "%r1", None);
    assert [l][..0] == [] && Collected([]) == [];
    assert [] + [SAVED] == [SAVED];
  }

  lemma OneSlot()
    ensures Slots([SAVED]) == [Slot("%r1", ".u32")]
  {
    assert [SAVED][..0] == [] && Slots([]) == [];
    assert SlotsOf(SAVED) == [Slot("%r1", ".u32")];
  }

  function Original(base: nat): Machine<nat> {
    Machine(EARLY_EXIT, Meaning, base)
  }

  function Guarded(base: nat): Machine<nat> {
    Machine(GuardedFunction(EARLY_EXIT), Meaning, base)
  }

  function Entered(area: seq<Byte>): State<nat> {
    State(0, map[], area, 0, [], Running)
  }

  lemma OriginalRuns(base: nat, area: seq<Byte>)
    ensures Original(base).Run(4, Entered(area)) ==
            Entered(area).(pc := 4, regs := map["%r1" := 7], trace := [Event("set", map[], 0)])
    ensures Original(base).Run(6, Entered(area)).mem == 7
  {
    hide Machine.Run, Machine.Step;
    var o, s := Original(base), Entered(area);
    OriginalPath(base, area, 3);
    SetStep(base, s.(pc := 3));
    RunNext(o, 3, s);
    var t := s.(pc := 4, regs := map["%r1" := 7], trace := [Event("set", map[], 0)]);
    PassAndPublish(base, t);
    RunNext(o, 4, s);
    RunNext(o, 5, s);
  }

  lemma RunNext<M>(m: Machine<M>, n: nat, s: State<M>)
    ensures m.Run(n + 1, s) == m.Step(m.Run(n, s))
  {
    hide Machine.Step;
  }

  lemma SetStep(base: nat, s: State<nat>)
    requires s.pc == 3 && s.status == Running && s.regs == map[] && s.mem == 0 && s.trace == []
    ensures Original(base).Step(s) == s.(pc := 4, regs := map["%r1" := 7], trace := [Event("set", map[], 0)])
  {
    var e := Event("set", map[], 0);
    assert Visible(s.regs) == map[];
    assert [] + [e] == [e];
  }

  lemma PassAndPublish(base: nat, t: State<nat>)
    requires t.pc == 4 && t.status == Running && t.regs == map["%r1" := 7]
    ensures Original(base).Step(t) == t.(pc := 5)
    ensures Original(base).Step(t.(pc := 5)).mem == 7
  {
  }

  lemma VisibleSet(regs: Registers)
    ensures Visible(regs["%r1" := 7]) == Visible(regs)["%r1" := 7]
  {
    assert "%r1" !in TEMPS;
  }

  lemma MeaningOblivious(m: Machine<nat>)
    requires m.sem == Meaning
    ensures Oblivious(m, EARLY_EXIT)
  {
    hide Val, Visible;
    forall text, a, b, mem | Instr(text) in EARLY_EXIT && Visible(a) == Visible(b)
      ensures m.sem(text, a, mem).1 == m.sem(text, b, mem).1
      ensures Visible(m.sem(text, a, mem).0) == Visible(m.sem(text, b, mem).0)
    {
      VisibleVal(a, b, "%r1");
      VisibleSet(a);
      VisibleSet(b);
    }
  }

  lemma EarlyExitEntered(base: nat, area: seq<Byte>)
    requires base % 8 == 0 && |area| == 8 && base + 8 <= TWO64
    ensures Function(EARLY_EXIT, 1).Guardable()
    ensures AtEntry(Guarded(base), Function(EARLY_EXIT, 1), Entered(area))
    ensures Guarded(base).code == GuardedFunction(EARLY_EXIT)
  {
    hide GuardedFunction, Scanned, Slots;
    EarlyExitGuardable();
    EarlyExitSlots();
  }

  /** The guarded run comes to the conditional return in step with the original. */
  lemma ReachesEarlyExit(base: nat, area: seq<Byte>) returns (k: nat)
    requires base % 8 == 0 && |area| == 8 && base + 8 <= TWO64
    ensures var fn := Function(EARLY_EXIT, 1);
            InStep(Guarded(base), fn, Original(base).Run(4, Entered(area)), Guarded(base).Run(k, Entered(area)), map[])
  {
    hide InStep, Standing, Machine.Step, Machine.Run, Oblivious, GuardedFunction, FunctionBase.Guardable, AtEntry,
         Following, FunctionBase.LinePos;
    var fn, m, s := Function(EARLY_EXIT, 1), Guarded(base), Entered(area);
    EarlyExitEntered(base, area);
    MeaningOblivious(m);
    assert m.(code := fn.f) == Original(base);
    forall j | 0 <= j < 4
      ensures Harmless(fn, Original(base).Run(j, s), s.regs)
    {
      OriginalPath(base, area, j);
      HarmlessElsewhere(fn, Original(base).Run(j, s), s.regs);
    }
    MeaningKeptIff(m, fn, s, 4);
    k := FollowingRuns(m, fn, s, 4);
    OriginalPath(base, area, 4);
    var v, t := Original(base).Run(4, s), m.Run(k, s);
    assert Corresponds(m, fn, v, t, s.regs);
    Arrives(m, fn, v, t, s.regs);
    var d := fn.LinePos(v.pc) - t.pc;
    m.RunSum(k, d, s);
    k := k + d;
  }

  lemma {:induction false} OriginalPath(base: nat, area: seq<Byte>, n: nat)
    requires n <= 4
    ensures var v := Original(base).Run(n, Entered(area)); v.pc == n && v.status == Running
    ensures n <= 3 ==> Original(base).Run(n, Entered(area)) == Entered(area).(pc := n)
  {
    hide Machine.Run, Machine.Step;
    var o, s := Original(base), Entered(area);
    if n == 0 {
      RunZero(o, s);
    } else {
      OriginalPath(base, area, n - 1);
      RunNext(o, n - 1, s);
      if n == 4 {
        SetStep(base, s.(pc := 3));
      } else {
        NextLine(o, s.(pc := n - 1));
      }
    }
  }

  /** With a conditional return the guard can change what the body computes: here the value published after an
      untaken conditional return is 7 in the original and 0 in the guarded function. */
  lemma EarlyExitChangesMeaning(base: nat, area: seq<Byte>)
    requires base % 8 == 0 && |area| == 8 && base + 8 <= TWO64
    ensures Original(base).Run(6, Entered(area)).mem == 7
    ensures exists k :: var t := Guarded(base).Run(k, Entered(area));
              t.status == Running && t.pc == Function(EARLY_EXIT, 1).Pos(6) && t.mem == 0
  {
    hide Machine.Step, Machine.Run, GuardedFunction, InStep, FunctionBase.Pos, FunctionBase.Guardable, Captured,
         OpeningBrace, FunctionBase.Saved;
    var fn, m, s := Function(EARLY_EXIT, 1), Guarded(base), Entered(area);
    OriginalRuns(base, area);
    var k := ReachesEarlyExit(base, area);
    var t := m.Run(k, s);
    var k' := PublishesZero(m, fn, t, base, Original(base).Run(4, s));
    m.RunSum(k, k', s);
  }

  lemma PublishesZero(m: Machine<nat>, fn: Function, t: State<nat>, base: nat, v: State<nat>) returns (k: nat)
    requires fn == Function(EARLY_EXIT, 1) && m == Guarded(base) && v.pc == 4 && v.regs == map["%r1" := 7]
    requires InStep(m, fn, v, t, map[])
    ensures var u := m.Run(k, t); u.status == Running && u.pc == fn.Pos(6) && u.mem == 0
  {
    hide Held, SavedBack, RestoredFrom, FunctionBase.Guardable, FunctionBase.Pos, FunctionBase.LinePos,
         FunctionBase.Pre, FunctionBase.Saved, GuardedFunction, Machine.Run, AreaFits, FunctionBase.Start, Visible,
         Machine.Step, AtLine;
    var u := PassesExit(m, fn, t, base, v);
    LeavingArrives(m, fn, u, 4, map[]);
    Arrive(m, fn, u, 5, map[]);
    var w := m.Run(|fn.Pre(5)|, u);
    VisibleVal(w.regs, u.regs, "%r1");
    Publishes(m, fn, w, base);
    m.RunSum(1, |fn.Pre(5)|, t);
    RunOne(m, t);
    m.RunSum(1 + |fn.Pre(5)|, 1, t);
    RunOne(m, w);
    k := 1 + |fn.Pre(5)| + 1;
  }

  /** The conditional return is not taken, with %r1 restored. */
  lemma PassesExit(m: Machine<nat>, fn: Function, t: State<nat>, base: nat, v: State<nat>) returns (u: State<nat>)
    requires fn == Function(EARLY_EXIT, 1) && m == Guarded(base) && v.pc == 4 && v.regs == map["%r1" := 7]
    requires InStep(m, fn, v, t, map[])
    ensures u == m.Step(t) && Leaving(m, fn, u, 4, map[]) && fn.Guardable()
    ensures Val(u.regs, "%r1") == 0 && fn.Start() == 3
  {
    hide Held, SavedBack, RestoredFrom, FunctionBase.Pos, FunctionBase.LinePos, FunctionBase.Pre,
         GuardedFunction, Machine.Run, AreaFits, Visible, Captured, OpeningBrace, FunctionBase.Saved;
    EarlyExitGuardable();
    assert fn.Guardable();
    hide FunctionBase.Guardable;
    assert fn.Start() == 3;
    RestoredToZero(fn, t, v);
    LineThere(fn, m.code, 4);
    u := m.Step(t);
    assert u == t.(pc := fn.Pos(5));
    SameArea(m, t, u, fn.Saved());
  }

  lemma SameArea(m: Machine<nat>, t: State<nat>, u: State<nat>, slots: seq<Slot>)
    requires AreaFits(m, t, slots) && u.area == t.area
    ensures AreaFits(m, u, slots)
  {
  }

  lemma Publishes(m: Machine<nat>, fn: Function, w: State<nat>, base: nat)
    requires fn == Function(EARLY_EXIT, 1) && m == Guarded(base) && fn.Guardable()
    requires w.status == Running && w.pc == fn.LinePos(5) && Val(w.regs, "%r1") == 0
    ensures var u := m.Step(w); u.status == Running && u.pc == fn.Pos(6) && u.mem == 0
  {
    hide FunctionBase.Guardable, FunctionBase.Pos, FunctionBase.LinePos, GuardedFunction;
    LineThere(fn, m.code, 5);
  }

  lemma RestoredToZero(fn: Function, t: State<nat>, v: State<nat>)
    requires fn == Function(EARLY_EXIT, 1) && v.regs == map["%r1" := 7]
    requires RestoredFrom(t.regs, map[], v.regs, fn.Saved(), 0)
    ensures Val(t.regs, "%r1") == 0 && Val(t.regs, "%p1") == 0
  {
    hide Pow256, KeptWidth;
    EarlyExitSlots();
    assert fn.Saved()[0].name == "%r1";
    assert "%p1" !in Names(fn.Saved(), 0);
    assert "%p1" !in TEMPS;
  }
}
