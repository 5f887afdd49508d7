/** The body of a guarded function does what it did before, and exactly when a conditional return spoils that. */
module RegisterGuardMeaning {
  import opened Words
  import opened Wrappers
  import opened Ptx
  import opened RegisterGuard
  import opened PtxMachine
  import opened RegisterGuardText
  import opened RegisterGuardBlocks
  import opened RegisterGuardCorrect

  /** Instructions and branches do not depend on the temporaries. */
  ghost predicate Oblivious<M(!new)>(m: Machine<M>, f: seq<Line>) {
    (forall text, a, b, mem :: Instr(text) in f && Visible(a) == Visible(b) ==>
      m.sem(text, a, mem).1 == m.sem(text, b, mem).1 &&
      Visible(m.sem(text, a, mem).0) == Visible(m.sem(text, b, mem).0)) &&
    (forall l :: l in f && (l.CondBranch? || l.PredRet?) ==> l.pred !in TEMPS)
  }

  /** What the unguarded state s and the guarded state t share: all but temporaries and the save area. */
  ghost predicate Alike<M>(s: State<M>, t: State<M>) {
    s.status == t.status && s.mem == t.mem && s.trace == t.trace
  }

  /** Both runs stand at line i; right before a return the guarded one has its saved registers back. */
  ghost predicate InStep<M>(m: Machine<M>, fn: Function, s: State<M>, t: State<M>, entry: Registers) {
    Alike(s, t) && AtLine(m, fn, t, s.pc, entry) &&
    (if s.pc < |fn.f| && IsRet(fn.f[s.pc]) then RestoredFrom(t.regs, entry, s.regs, fn.Saved(), 0)
     else Visible(t.regs) == Visible(s.regs))
  }

  /** Both runs have ended the same way. */
  ghost predicate EndedAlike<M>(fn: Function, s: State<M>, t: State<M>, entry: Registers) {
    Alike(s, t) && s.status != Running &&
    (if s.status == Returned(true) then RestoredFrom(t.regs, entry, s.regs, fn.Saved(), 0)
     else Visible(t.regs) == Visible(s.regs))
  }

  lemma ObliviousLine<M(!new)>(m: Machine<M>, fn: Function, i: nat, a: Registers, b: Registers, mem: M)
    requires Oblivious(m, fn.f) && i < |fn.f| && Visible(a) == Visible(b)
    ensures fn.f[i].CondBranch? ==> Val(a, fn.f[i].pred) == Val(b, fn.f[i].pred)
    ensures fn.f[i].Instr? ==>
            m.sem(fn.f[i].text, a, mem).1 == m.sem(fn.f[i].text, b, mem).1 &&
            Visible(m.sem(fn.f[i].text, a, mem).0) == Visible(m.sem(fn.f[i].text, b, mem).0)
  {
    hide Visible, Val;
    var l := fn.f[i];
    assert l in fn.f;
    if l.CondBranch? { VisibleVal(a, b, l.pred); }
    if l.Instr? { assert Instr(l.text) in fn.f; }
  }

  /** One line executed on both sides: same effect, and control goes to the same line. */
  lemma LineTogether<M(!new)>(m: Machine<M>, fn: Function, s: State<M>, t: State<M>, entry: Registers)
    requires fn.Guardable() && m.code == GuardedFunction(fn.f) && Oblivious(m, fn.f)
    requires InStep(m, fn, s, t, entry) && !fn.f[s.pc].Empty? && !IsRet(fn.f[s.pc])
    ensures var v, u := m.(code := fn.f).Step(s), m.Step(t);
            Alike(v, u) && Visible(u.regs) == Visible(v.regs) && u.area == t.area &&
            (v.status != Returned(true)) &&
            (v.status == Running ==>
              (v.pc == s.pc + 1 < |fn.f| && u.pc == fn.Pos(v.pc)) ||
              (fn.Start() <= v.pc < |fn.f| && fn.f[v.pc].Label? && u.pc == fn.LinePos(v.pc) && fn.Start() <= s.pc))
  {
    hide GuardedFunction, Held, SavedBack, AreaFits, Visible, FindLabel, RestoredFrom, Oblivious, Val,
         FunctionBase.LinePos, FunctionBase.Pos, FunctionBase.Start, FunctionBase.Saved, FunctionBase.Guardable;
    var i := s.pc;
    var l := fn.f[i];
    LineThere(fn, m.code, i);
    PlainLine(fn, i);
    if !l.CloseBrace? { LastLine(fn, i); }
    ObliviousLine(m, fn, i, t.regs, s.regs, s.mem);
    if l.Branch? || l.CondBranch? {
      LabelPlaced(fn, l.target);
      LabelBounds(fn.f, l.target);
      var j := FindLabel(fn.f, l.target);
      if j < |fn.f| { LineThere(fn, m.code, j); }
      if i < fn.Start() { HeadLines(fn, i); }
    }
  }

  // ---------------------------------------------------------------- the two runs, line by line

  /** The guarded run stands at the text made from line i, the saved values in place; a jump leads straight to its
      label. */
  ghost predicate Standing<M>(m: Machine<M>, fn: Function, t: State<M>, i: nat, entry: Registers) {
    i < |fn.f| && t.status == Running && AreaFits(m, t, fn.Saved()) &&
    ((t.pc == fn.Pos(i) && (i <= fn.Start() ==> Visible(t.regs) == Visible(entry)) &&
      (i > fn.Start() ==> Held(t.area, fn.Saved(), |fn.Saved()|, entry))) ||
     (t.pc == fn.LinePos(i) && fn.f[i].Label? && fn.Start() <= i && Held(t.area, fn.Saved(), |fn.Saved()|, entry)))
  }

  /** Both runs are about to execute the same line, having executed the same instructions, with the same memory and
      the same registers. */
  ghost predicate Matched<M>(m: Machine<M>, fn: Function, v: State<M>, t: State<M>, entry: Registers) {
    Alike(v, t) && Standing(m, fn, t, v.pc, entry) && Visible(t.regs) == Visible(v.regs)
  }

  /** Both runs go on together, or have ended the same way: the saved registers back at their entry values, all
      others as the body left them. */
  ghost predicate Corresponds<M>(m: Machine<M>, fn: Function, v: State<M>, t: State<M>, entry: Registers) {
    if v.status == Running then Matched(m, fn, v, t, entry) else EndedAlike(fn, v, t, entry)
  }

  /** Steps from pc to the end of the text made from line i. */
  ghost function Through(fn: Function, i: nat, pc: nat): nat
    requires i < |fn.f|
  {
    if pc <= fn.LinePos(i) then fn.LinePos(i) - pc + |Kept(fn.f[i])| else 0
  }

  /** The guarded run after the text made from the first n lines the original executes. */
  ghost function Following<M>(m: Machine<M>, fn: Function, s: State<M>, n: nat): State<M> {
    if n == 0 then s else
      var v, t := m.(code := fn.f).Run(n - 1, s), Following(m, fn, s, n - 1);
      if v.status == Running && v.pc < |fn.f| then m.Run(Through(fn, v.pc, t.pc), t) else t
  }

  lemma Arrives<M>(m: Machine<M>, fn: Function, v: State<M>, t: State<M>, entry: Registers)
    requires fn.Guardable() && m.code == GuardedFunction(fn.f) && Matched(m, fn, v, t, entry)
    ensures t.pc <= fn.LinePos(v.pc) && InStep(m, fn, v, m.Run(fn.LinePos(v.pc) - t.pc, t), entry)
  {
    hide Machine.Step, Machine.Run, GuardedFunction, Held, Visible, RestoredFrom, SavedBack,
         FunctionBase.Pos, FunctionBase.Start, FunctionBase.Saved, FunctionBase.Guardable, FunctionBase.Pre;
    var i := v.pc;
    if !(t.pc == fn.LinePos(i) && fn.f[i].Label? && fn.Start() <= i && Held(t.area, fn.Saved(), |fn.Saved()|, entry)) {
      ArriveAt(m, fn, t, i, entry);
      Arrive(m, fn, t, i, entry);
      if IsRet(fn.f[i]) {
        BodyVisible(m.Run(|fn.Pre(i)|, t).regs, entry, t.regs, v.regs, fn.Saved());
      }
    } else {
      RunZero(m, t);
    }
  }

  lemma LeavingStands<M>(m: Machine<M>, fn: Function, u: State<M>, i: nat, entry: Registers)
    requires Leaving(m, fn, u, i, entry)
    ensures Standing(m, fn, u, i + 1, entry)
  {
    hide Held, Visible, AreaFits, FunctionBase.LinePos, FunctionBase.Pos, FunctionBase.Start, FunctionBase.Saved;
  }

  /** From line to line, whatever line it is but a conditional return. */
  lemma Executes<M(!new)>(m: Machine<M>, fn: Function, v: State<M>, u: State<M>, entry: Registers)
    requires fn.Guardable() && m.code == GuardedFunction(fn.f) && Oblivious(m, fn.f)
    requires InStep(m, fn, v, u, entry) && !fn.f[v.pc].PredRet?
    ensures Corresponds(m, fn, m.(code := fn.f).Step(v), m.Run(|Kept(fn.f[v.pc])|, u), entry)
  {
    hide Machine.Run, GuardedFunction, Held, Visible, RestoredFrom, Oblivious, SavedBack, Standing,
         FunctionBase.LinePos, FunctionBase.Pos, FunctionBase.Start, FunctionBase.Saved, FunctionBase.Guardable,
         FunctionBase.Pre;
    var i := v.pc;
    if fn.f[i].Empty? {
      RunZero(m, u);
      EmptyLeads(m, fn, u, i, entry);
      LeavingStands(m, fn, u, i, entry);
    } else {
      RunOne(m, u);
      if IsRet(fn.f[i]) {
        LineThere(fn, m.code, i);
      } else {
        LineTogether(m, fn, v, u, entry);
        StandsNext(m, fn, v, u, entry);
      }
    }
  }

  lemma StandsNext<M(!new)>(m: Machine<M>, fn: Function, v: State<M>, u: State<M>, entry: Registers)
    requires fn.Guardable() && m.code == GuardedFunction(fn.f) && Oblivious(m, fn.f)
    requires InStep(m, fn, v, u, entry) && !fn.f[v.pc].Empty? && !IsRet(fn.f[v.pc])
    ensures var v' := m.(code := fn.f).Step(v);
            v'.status == Running ==> Standing(m, fn, m.Step(u), v'.pc, entry)
  {
    hide GuardedFunction, Held, Visible, RestoredFrom, Oblivious, SavedBack, Machine.Step,
         FunctionBase.LinePos, FunctionBase.Pos, FunctionBase.Start, FunctionBase.Saved, FunctionBase.Guardable;
    LineTogether(m, fn, v, u, entry);
    var i, v', u' := v.pc, m.(code := fn.f).Step(v), m.Step(u);
    if v'.status == Running && v'.pc == i + 1 && u'.pc == fn.Pos(v'.pc) {
      if i < fn.Start() { HeadFalls(m, fn, u, i, entry); }
      assert Leaving(m, fn, u', i, entry);
      LeavingStands(m, fn, u', i, entry);
    }
  }

  // ---------------------------------------------------------------- conditional returns

  /** What a restoring block does to a conditional return's predicate. */
  ghost function PredAfter(regs: Registers, entry: Registers, slots: seq<Slot>, p: string): nat {
    if p in Names(slots, 0) then Val(entry, p) % Pow256(KeptWidth(slots, 0, p)) else Val(regs, p)
  }

  /** About a state of the original alone: if it stands at a conditional return, either the return is not taken and
      the saved registers hold their entry values, or it is taken and would be after restoring. */
  ghost predicate Harmless<M>(fn: Function, v: State<M>, entry: Registers) {
    v.status == Running && v.pc < |fn.f| && fn.f[v.pc].PredRet? ==>
      var p := fn.f[v.pc].pred;
      if Val(v.regs, p) == 0 then SavedBack(v.regs, entry, fn.Saved())
      else PredAfter(v.regs, entry, fn.Saved(), p) != 0
  }

  /** Restoring changes no value exactly when the saved registers hold what it puts there. */
  lemma RestoringKeepsIff(restored: Registers, entry: Registers, body: Registers, slots: seq<Slot>)
    requires Usable(slots) && RestoredFrom(restored, entry, body, slots, 0)
    ensures Visible(restored) == Visible(body) <==> SavedBack(body, entry, slots)
  {
    hide Pow256, KeptWidth, Val;
    assert forall i :: 0 <= i < |slots| ==> slots[i] in slots;
    if SavedBack(body, entry, slots) {
      forall r | r !in TEMPS
        ensures Val(restored, r) == Val(body, r)
      {
        if r in Names(slots, 0) {
          var i :| 0 <= i < |slots| && slots[i].name == r;
        }
      }
      SameVisible(restored, body);
    }
    if Visible(restored) == Visible(body) {
      forall i | 0 <= i < |slots|
        ensures Val(body, slots[i].name) == Val(restored, slots[i].name)
      {
        VisibleVal(restored, body, slots[i].name);
      }
    }
  }

  lemma PredRestored(restored: Registers, entry: Registers, body: Registers, slots: seq<Slot>, p: string)
    requires RestoredFrom(restored, entry, body, slots, 0) && p !in TEMPS
    ensures Val(restored, p) == PredAfter(body, entry, slots, p)
    ensures SavedBack(body, entry, slots) ==> PredAfter(body, entry, slots, p) == Val(body, p)
  {
    hide Pow256, KeptWidth, Val;
    if p in Names(slots, 0) {
      var i :| 0 <= i < |slots| && slots[i].name == p;
    }
  }

  /** At a conditional return the two runs stay together exactly when it is harmless. */
  lemma ExitIff<M(!new)>(m: Machine<M>, fn: Function, v: State<M>, u: State<M>, entry: Registers)
    requires fn.Guardable() && m.code == GuardedFunction(fn.f) && Oblivious(m, fn.f)
    requires InStep(m, fn, v, u, entry) && fn.f[v.pc].PredRet?
    ensures Corresponds(m, fn, m.(code := fn.f).Step(v), m.Run(1, u), entry) <==> Harmless(fn, v, entry)
  {
    hide Machine.Run, GuardedFunction, Held, Visible, RestoredFrom, SavedBack, Standing, Val, PredAfter,
         FunctionBase.LinePos, FunctionBase.Pos, FunctionBase.Start, FunctionBase.Saved, FunctionBase.Guardable;
    var i, p, slots := v.pc, fn.f[v.pc].pred, fn.Saved();
    assert fn.f[i] in fn.f;
    RunOne(m, u);
    LineThere(fn, m.code, i);
    PredRestored(u.regs, entry, v.regs, slots, p);
    SavedUsable(fn);
    RestoringKeepsIff(u.regs, entry, v.regs, slots);
    var u' := m.Step(u);
    if Val(u.regs, p) == 0 {
      HeadNotRet(fn, i);
      LastLine(fn, i);
      assert u' == u.(pc := fn.Pos(i + 1));
      assert Leaving(m, fn, u', i, entry);
      LeavingStands(m, fn, u', i, entry);
    }
  }

  /** One line of the original and the text made from it. */
  lemma LineIff<M(!new)>(m: Machine<M>, fn: Function, v: State<M>, t: State<M>, entry: Registers)
    requires fn.Guardable() && m.code == GuardedFunction(fn.f) && Oblivious(m, fn.f)
    requires Matched(m, fn, v, t, entry)
    ensures Corresponds(m, fn, m.(code := fn.f).Step(v), m.Run(Through(fn, v.pc, t.pc), t), entry) <==>
            Harmless(fn, v, entry)
  {
    hide Machine.Run, Machine.Step, GuardedFunction, Corresponds, Oblivious, Standing, InStep, Harmless,
         FunctionBase.LinePos, FunctionBase.Guardable;
    StandingInside(m, fn, t, v.pc, entry);
    Arrives(m, fn, v, t, entry);
    var d := fn.LinePos(v.pc) - t.pc;
    var u := m.Run(d, t);
    m.RunSum(d, |Kept(fn.f[v.pc])|, t);
    if fn.f[v.pc].PredRet? {
      ExitIff(m, fn, v, u, entry);
    } else {
      Executes(m, fn, v, u, entry);
      HarmlessElsewhere(fn, v, entry);
    }
  }

  lemma HarmlessElsewhere<M>(fn: Function, v: State<M>, entry: Registers)
    requires v.pc < |fn.f| && !fn.f[v.pc].PredRet?
    ensures Harmless(fn, v, entry)
  {
  }

  // ---------------------------------------------------------------- whole runs

  ghost predicate TogetherTo<M>(m: Machine<M>, fn: Function, s: State<M>, n: nat) {
    forall j | 0 <= j <= n :: Corresponds(m, fn, m.(code := fn.f).Run(j, s), Following(m, fn, s, j), s.regs)
  }

  ghost predicate HarmlessTo<M>(m: Machine<M>, fn: Function, s: State<M>, n: nat) {
    forall j | 0 <= j < n :: Harmless(fn, m.(code := fn.f).Run(j, s), s.regs)
  }

  /** For every function and every start, conditional returns or not: the guarded run does with the text made from
      the first n lines what the original does with those lines if and only if every conditional return the original
      comes to is harmless. */
  lemma {:induction false} MeaningKeptIff<M(!new)>(m: Machine<M>, fn: Function, s: State<M>, n: nat)
    requires fn.Guardable() && AtEntry(m, fn, s) && Oblivious(m, fn.f)
    ensures TogetherTo(m, fn, s, n) <==> HarmlessTo(m, fn, s, n)
  {
    hide Machine.Run, Machine.Step, Corresponds, Oblivious, FunctionBase.Guardable, GuardedFunction, Harmless,
         Following;
    if n == 0 {
      StartsTogether(m, fn, s);
    } else {
      MeaningKeptIff(m, fn, s, n - 1);
      if TogetherTo(m, fn, s, n - 1) {
        StepTogetherIff(m, fn, s, n - 1);
      }
      assert TogetherTo(m, fn, s, n) ==> TogetherTo(m, fn, s, n - 1);
      assert HarmlessTo(m, fn, s, n) ==> HarmlessTo(m, fn, s, n - 1);
    }
  }

  lemma StartsTogether<M>(m: Machine<M>, fn: Function, s: State<M>)
    requires fn.Guardable() && AtEntry(m, fn, s)
    ensures TogetherTo(m, fn, s, 0)
  {
    hide Held, SavedBack, RestoredFrom, Visible, AreaFits, FunctionBase.Guardable, GuardedFunction;
    StartsAtLine(m, fn, s);
    FirstPos(fn);
    RunZero(m.(code := fn.f), s);
  }

  lemma FirstPos(fn: Function)
    ensures fn.Pos(0) == 0
  {
  }

  lemma StepTogetherIff<M(!new)>(m: Machine<M>, fn: Function, s: State<M>, n: nat)
    requires fn.Guardable() && AtEntry(m, fn, s) && Oblivious(m, fn.f)
    requires Corresponds(m, fn, m.(code := fn.f).Run(n, s), Following(m, fn, s, n), s.regs)
    ensures Corresponds(m, fn, m.(code := fn.f).Run(n + 1, s), Following(m, fn, s, n + 1), s.regs) <==>
            Harmless(fn, m.(code := fn.f).Run(n, s), s.regs)
  {
    hide Machine.Step, Oblivious, FunctionBase.Guardable, GuardedFunction, Standing, FunctionBase.LinePos,
         Through, PredAfter, RestoredFrom;
    var o := m.(code := fn.f);
    var v, t := o.Run(n, s), Following(m, fn, s, n);
    assert o.Run(n + 1, s) == o.Step(v);
    hide Machine.Run;
    if v.status == Running {
      StandingInside(m, fn, t, v.pc, s.regs);
      LineIff(m, fn, v, t, s.regs);
    } else {
      RunOne(o, v);
      o.RunEnded(1, v);
    }
  }

  lemma StandingInside<M>(m: Machine<M>, fn: Function, t: State<M>, i: nat, entry: Registers)
    requires Standing(m, fn, t, i, entry)
    ensures i < |fn.f| && t.pc <= fn.LinePos(i)
  {
    hide Held, Visible, AreaFits, FunctionBase.Start, FunctionBase.Saved, FunctionBase.Pre;
  }

  /** Following is a point of the guarded run, and the run does not stand still for long. */
  lemma {:induction false} FollowingRuns<M(!new)>(m: Machine<M>, fn: Function, s: State<M>, n: nat) returns (k: nat)
    requires fn.Guardable() && AtEntry(m, fn, s) && Oblivious(m, fn.f) && HarmlessTo(m, fn, s, n)
    ensures Following(m, fn, s, n) == m.Run(k, s)
    ensures var v := m.(code := fn.f).Run(n, s); v.status == Running ==> v.pc < |fn.f| && Near(n, k, |fn.f| + 1, v.pc)
  {
    hide Machine.Step, Machine.Run, Oblivious, FunctionBase.Guardable, GuardedFunction, Harmless, Through, Corresponds,
         AtEntry, Following, Near, HarmlessTo, TogetherTo, FunctionBase.LinePos;
    var o := m.(code := fn.f);
    HarmlessBefore(m, fn, s, n);
    if n == 0 {
      NearStart(|fn.f| + 1, s.pc);
      StaysInside(m, fn, s, 0);
      FollowingStep(m, fn, s, 0);
      RunZero(m, s);
      RunZero(o, s);
      k := 0;
    } else {
      var k' := FollowingRuns(m, fn, s, n - 1);
      var v, t := o.Run(n - 1, s), Following(m, fn, s, n - 1);
      StaysInside(m, fn, s, n);
      StaysInside(m, fn, s, n - 1);
      FollowingStep(m, fn, s, n - 1);
      if v.status == Running {
        var d := Through(fn, v.pc, t.pc);
        m.RunSum(k', d, s);
        k := k' + d;
        Moves(o, fn, v, t.pc);
        if o.Run(n, s).status == Running { Progress(n, k', d, v.pc, o.Run(n, s).pc, |fn.f| + 1); }
      } else {
        RunOne(o, v);
        o.RunEnded(1, v);
        k := k';
      }
    }
  }

  lemma FollowingStep<M>(m: Machine<M>, fn: Function, s: State<M>, n: nat)
    ensures Following(m, fn, s, 0) == s
    ensures var v, t := m.(code := fn.f).Run(n, s), Following(m, fn, s, n);
            m.(code := fn.f).Run(n + 1, s) == m.(code := fn.f).Step(v) &&
            Following(m, fn, s, n + 1) ==
            if v.status == Running && v.pc < |fn.f| then m.Run(Through(fn, v.pc, t.pc), t) else t
  {
    hide Machine.Step, Through;
  }

  lemma HarmlessBefore<M>(m: Machine<M>, fn: Function, s: State<M>, n: nat)
    requires HarmlessTo(m, fn, s, n)
    ensures n > 0 ==> HarmlessTo(m, fn, s, n - 1)
  {
    hide Machine.Run, Harmless;
  }

  lemma StaysInside<M(!new)>(m: Machine<M>, fn: Function, s: State<M>, n: nat)
    requires fn.Guardable() && AtEntry(m, fn, s) && Oblivious(m, fn.f) && HarmlessTo(m, fn, s, n)
    ensures var v := m.(code := fn.f).Run(n, s);
            v.status == Running ==> v.pc < |fn.f| && Following(m, fn, s, n).pc <= fn.LinePos(v.pc)
  {
    hide Machine.Run, Following, Standing, FunctionBase.LinePos, EndedAlike, HarmlessTo, Oblivious,
         FunctionBase.Guardable;
    MeaningKeptIff(m, fn, s, n);
    var v, t := m.(code := fn.f).Run(n, s), Following(m, fn, s, n);
    assert Corresponds(m, fn, v, t, s.regs);
    if v.status == Running { StandingInside(m, fn, t, v.pc, s.regs); }
  }

  lemma Moves<M>(o: Machine<M>, fn: Function, v: State<M>, pc: nat)
    requires o.code == fn.f && v.status == Running && v.pc < |fn.f| && pc <= fn.LinePos(v.pc)
    ensures Through(fn, v.pc, pc) > 0 || o.Step(v).pc == v.pc + 1
  {
    hide FunctionBase.LinePos;
  }

  /** n steps of the original take at least this many steps k of the guarded run. */
  predicate Near(n: nat, k: nat, len: nat, pc: nat) {
    n <= k * len + pc
  }

  lemma NearStart(len: nat, pc: nat)
    ensures Near(0, 0, len, pc)
  {
  }

  lemma Progress(n: nat, k: nat, d: nat, pc: nat, pc': nat, len: nat)
    requires n >= 1 && Near(n - 1, k, len, pc) && pc < len - 1 && (d > 0 || pc' == pc + 1)
    ensures Near(n, k + d, len, pc')
  {
    if d > 0 {
      assert (k + d) * len == k * len + d * len;
      MulAtLeast(len, d);
    }
  }

  /** As long as the original comes to no conditional return that does harm, the guarded function's body does exactly
      what it did before: some point of the guarded run is about to execute the same line with the same executed
      instructions, memory and registers, or has ended the same way. */
  lemma GuardPreservesMeaning<M(!new)>(m: Machine<M>, fn: Function, s: State<M>, n: nat)
    requires fn.Guardable() && AtEntry(m, fn, s) && Oblivious(m, fn.f) && HarmlessTo(m, fn, s, n)
    ensures exists k :: Corresponds(m, fn, m.(code := fn.f).Run(n, s), m.Run(k, s), s.regs)
  {
    hide Machine.Run, Corresponds, Oblivious, FunctionBase.Guardable, GuardedFunction, Following;
    MeaningKeptIff(m, fn, s, n);
    var k := FollowingRuns(m, fn, s, n);
    assert Corresponds(m, fn, m.(code := fn.f).Run(n, s), m.Run(k, s), s.regs);
  }

  /** A function without conditional returns, or one that saves no register, is harmless throughout. */
  lemma PlainIsHarmless<M>(m: Machine<M>, fn: Function, s: State<M>, n: nat)
    requires (forall l :: l in fn.f ==> !l.PredRet?) || fn.Saved() == []
    ensures HarmlessTo(m, fn, s, n)
  {
    hide Machine.Run, FunctionBase.Saved;
    forall j | 0 <= j < n
      ensures Harmless(fn, m.(code := fn.f).Run(j, s), s.regs)
    {
      var v := m.(code := fn.f).Run(j, s);
      assert v.pc < |fn.f| ==> fn.f[v.pc] in fn.f;
    }
  }

  lemma Farther(k: nat, k': nat, len: nat, pc: nat)
    requires (k + 1) * len <= k' * len + pc && pc < len
    ensures k < k'
  {
    var d := k - k';
    assert (k + 1) * len == k' * len + d * len + len;
    if d >= 0 { MulNonNegative(d, len); }
  }

  lemma MulNonNegative(a: nat, b: nat)
    ensures a * b >= 0
  {
  }

  /** And nothing else: if the guarded run ends, so does the original. */
  lemma GuardEndsOnlyIf<M(!new)>(m: Machine<M>, fn: Function, s: State<M>, k: nat)
    requires fn.Guardable() && AtEntry(m, fn, s) && Oblivious(m, fn.f) && forall n :: HarmlessTo(m, fn, s, n)
    requires m.Run(k, s).status != Running
    ensures exists n :: EndedAlike(fn, m.(code := fn.f).Run(n, s), m.Run(k, s), s.regs)
  {
    hide Machine.Run, Oblivious, FunctionBase.Guardable, GuardedFunction, RestoredFrom, Visible, Standing, HarmlessTo,
         Following;
    var len := |fn.f| + 1;
    var n := (k + 1) * len;
    assert n >= 0;
    MeaningKeptIff(m, fn, s, n);
    var k' := FollowingRuns(m, fn, s, n);
    var v, u := m.(code := fn.f).Run(n, s), m.Run(k', s);
    assert Corresponds(m, fn, v, u, s.regs);
    if v.status == Running {
      Farther(k, k', len, v.pc);
      RunsBefore(m, s, k, k');
      assert false;
    }
    if k <= k' {
      m.RunSum(k, k' - k, s);
      m.RunEnded(k' - k, m.Run(k, s));
    } else {
      m.RunSum(k', k - k', s);
      m.RunEnded(k - k', u);
    }
  }
}
