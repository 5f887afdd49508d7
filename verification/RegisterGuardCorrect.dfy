/** Running a guarded function: the registers it saves come back, and its body does what it did before. */
module RegisterGuardCorrect {
  import opened Words
  import opened Wrappers
  import opened Ptx
  import opened RegisterGuard
  import opened PtxMachine
  import opened RegisterGuardText
  import opened RegisterGuardBlocks

  /** A captured function whose body is opened by the brace at b. */
  datatype FunctionBase = Function(f: seq<Line>, b: nat)
  {
    /** The guard instruments it, and it has no line of the kinds the guard inserts. */
    ghost predicate Guardable() {
      Captured(f) && OpeningBrace(f) == Some(b) && forall l :: l in f ==> !IsGuardLine(l)
    }

    function Start(): nat
      requires b < |f|
    {
      DeclsEnd(f, b + 1)
    }

    function Saved(): seq<Slot>
      requires b < |f|
    {
      Slots(SavedRegs(f, b))
    }

    function Inserts(): Blocks
      requires b < |f|
    {
      BlocksFor(SavedRegs(f, b))
    }

    /** What is put in front of line i. */
    function Pre(i: nat): seq<Line>
      requires b < |f| && i < |f|
    {
      Before(f, i, Start(), Inserts())
    }

    /** Where the text made from line i begins in the guarded code. */
    function Pos(i: nat): nat
      requires b < |f| && i <= |f|
    {
      |Instrumented(f, i, Start(), Inserts())|
    }

    /** Where line i itself stands in the guarded code. */
    function LinePos(i: nat): nat
      requires b < |f| && i < |f|
    {
      Pos(i) + |Pre(i)|
    }
  }

  type Function = fn: FunctionBase | fn.b < |fn.f| witness Function([CloseBrace], 0)

  // ---------------------------------------------------------------- where lines and labels end up

  lemma {:induction false} InstrumentedPrefix(f: seq<Line>, i: nat, n: nat, d: nat, g: Blocks)
    requires i <= n <= |f|
    ensures Instrumented(f, i, d, g) <= Instrumented(f, n, d, g)
    decreases n
  {
    hide Before, Kept;
    if i < n { InstrumentedPrefix(f, i, n - 1, d, g); }
  }

  lemma AtSplit(code: seq<Line>, p: nat, a: seq<Line>, b: seq<Line>)
    requires At(code, p, a + b)
    ensures At(code, p, a) && At(code, p + |a|, b)
  {
    forall i | 0 <= i < |a|
      ensures code[p + i] == a[i]
    {
      assert (a + b)[i] == a[i];
    }
    forall i | 0 <= i < |b|
      ensures code[p + |a| + i] == b[i]
    {
      assert (a + b)[|a| + i] == b[i];
    }
  }

  lemma InstrumentedPlaces(f: seq<Line>, i: nat, d: nat, g: Blocks)
    requires i < |f|
    ensures var code, p := Instrumented(f, |f|, d, g), |Instrumented(f, i, d, g)|;
            At(code, p, Before(f, i, d, g)) && At(code, p + |Before(f, i, d, g)|, Kept(f[i])) &&
            |Instrumented(f, i + 1, d, g)| == p + |Before(f, i, d, g)| + |Kept(f[i])|
  {
    hide Before, Kept;
    var code := Instrumented(f, |f|, d, g);
    var a, pre, kept := Instrumented(f, i, d, g), Before(f, i, d, g), Kept(f[i]);
    InstrumentedPrefix(f, i + 1, |f|, d, g);
    assert Instrumented(f, i + 1, d, g) == a + pre + kept;
    hide Instrumented;
    assert At(code, 0, a + pre + kept);
    AtSplit(code, 0, a + pre, kept);
    AtSplit(code, 0, a, pre);
  }

  lemma Placed(fn: Function, i: nat)
    requires fn.Guardable() && i < |fn.f|
    ensures At(GuardedFunction(fn.f), fn.Pos(i), fn.Pre(i))
    ensures At(GuardedFunction(fn.f), fn.LinePos(i), Kept(fn.f[i]))
    ensures fn.Pos(i + 1) == fn.LinePos(i) + |Kept(fn.f[i])|
  {
    hide BlocksFor, Before, SavedRegs, DeclsEnd, Instrumented, At, Kept, GuardedFunction, FunctionBase.Guardable;
    InstrumentedPlaces(fn.f, i, fn.Start(), fn.Inserts());
    GuardedCode(fn);
  }

  lemma GuardedCode(fn: Function)
    requires fn.Guardable()
    ensures GuardedFunction(fn.f) == Instrumented(fn.f, |fn.f|, fn.Start(), fn.Inserts())
  {
    hide BlocksFor, SavedRegs, DeclsEnd, Instrumented;
  }

  /** Up to the insertion point there are only the header, the brace and declarations. */
  lemma HeadLines(fn: Function, i: nat)
    requires fn.Guardable() && i < fn.Start()
    ensures i < |fn.f|
    ensures IsPreamble(fn.f[i]) || fn.f[i].FuncHeader? || fn.f[i].OpenBrace?
  {
    CapturedShape(fn.f);
  }

  lemma FindLabelConcat(a: seq<Line>, b: seq<Line>, name: string)
    ensures FindLabel(a + b, name) ==
            if FindLabel(a, name) < |a| then FindLabel(a, name) else |a| + FindLabel(b, name)
  {
    var r, ra, rb := FindLabel(a + b, name), FindLabel(a, name), FindLabel(b, name);
    hide FindLabel;
    assert forall k :: 0 <= k < |a| ==> (a + b)[k] == a[k];
    assert forall k :: 0 <= k < |b| ==> (a + b)[|a| + k] == b[k];
    if ra < |a| {
      assert (a + b)[ra] == Label(name);
    } else if rb < |b| {
      assert (a + b)[|a| + rb] == Label(name);
    }
    assert forall k :: |a| <= k < |a| + |b| ==> (a + b)[k] == b[k - |a|];
  }

  predicate NoLabels(lines: seq<Line>) {
    forall l :: l in lines ==> !l.Label?
  }

  lemma InsertedNoLabels(lines: seq<Line>)
    requires Inserted(lines)
    ensures NoLabels(lines)
  {
    forall l | l in lines
      ensures !l.Label?
    {
      assert Insertable(l);
    }
  }

  lemma PreNoLabels(fn: Function, i: nat)
    requires i < |fn.f|
    ensures NoLabels(fn.Pre(i))
  {
    BlocksForInserted(SavedRegs(fn.f, fn.b));
    hide BlocksFor, SavedRegs, Insertable;
    var g := fn.Inserts();
    InsertedNoLabels(g.decls);
    InsertedNoLabels(g.push);
    InsertedNoLabels(g.pop);
  }

  /** A label is found in the guarded code exactly where its line went. */
  lemma {:induction false} LabelInPrefix(f: seq<Line>, n: nat, d: nat, g: Blocks, name: string)
    requires n <= |f| && forall i :: 0 <= i < n ==> NoLabels(Before(f, i, d, g))
    ensures var j := FindLabel(f[..n], name);
            FindLabel(Instrumented(f, n, d, g), name) ==
            if j < n then |Instrumented(f, j, d, g)| + |Before(f, j, d, g)| else |Instrumented(f, n, d, g)|
    ensures FindLabel(Instrumented(f, n, d, g), name) < |Instrumented(f, n, d, g)| <==> FindLabel(f[..n], name) < n
  {
    hide Before, FindLabel, Kept, Instrumented, NoLabels;
    if n == 0 {
      InstrumentedNone(f, d, g);
      NoLabelFound([], name);
      assert f[..0] == [];
    } else {
      LabelInPrefix(f, n - 1, d, g, name);
      var a, pre, l := Instrumented(f, n - 1, d, g), Before(f, n - 1, d, g), f[n - 1];
      InstrumentedStep(f, n, d, g);
      LabelAppend(f[..n - 1], l, a, pre, name);
      assert f[..n - 1] + [l] == f[..n];
    }
  }

  lemma InstrumentedNone(f: seq<Line>, d: nat, g: Blocks)
    ensures Instrumented(f, 0, d, g) == [] && NoLabels([])
  {
  }

  lemma InstrumentedStep(f: seq<Line>, n: nat, d: nat, g: Blocks)
    requires 0 < n <= |f|
    ensures Instrumented(f, n, d, g) == Instrumented(f, n - 1, d, g) + Before(f, n - 1, d, g) + Kept(f[n - 1])
  {
    hide Before, Kept;
  }

  lemma LabelAppend(f: seq<Line>, l: Line, a: seq<Line>, pre: seq<Line>, name: string)
    requires NoLabels(pre) && (FindLabel(a, name) < |a| <==> FindLabel(f, name) < |f|)
    ensures var j, j' := FindLabel(f, name), FindLabel(f + [l], name);
            var p' := FindLabel(a + pre + Kept(l), name);
            if j < |f| then j' == j && p' == FindLabel(a, name)
            else if j' < |f| + 1 then j' == |f| && p' == |a| + |pre| < |a + pre + Kept(l)|
            else p' == |a + pre + Kept(l)|
  {
    LineLabel(l, name);
    NoLabelFound(pre, name);
    assert l.Label? ==> |Kept(l)| == 1;
    hide FindLabel, Kept, NoLabels;
    FindLabelConcat(f, [l], name);
    FindLabelConcat(a + pre, Kept(l), name);
    FindLabelConcat(a, pre, name);
  }

  lemma NoLabelFound(lines: seq<Line>, name: string)
    requires NoLabels(lines)
    ensures FindLabel(lines, name) == |lines|
  {
    hide FindLabel;
    assert forall k :: 0 <= k < |lines| ==> lines[k] in lines;
  }

  lemma LineLabel(l: Line, name: string)
    ensures FindLabel([l], name) == if l == Label(name) then 0 else 1
    ensures FindLabel(Kept(l), name) == if l == Label(name) then 0 else |Kept(l)|
  {
  }

  lemma LabelPlaced(fn: Function, name: string)
    requires fn.Guardable()
    ensures var j := FindLabel(fn.f, name);
            FindLabel(GuardedFunction(fn.f), name) == if j < |fn.f| then fn.LinePos(j) else |GuardedFunction(fn.f)|
    ensures FindLabel(fn.f, name) < |fn.f| ==> fn.Start() <= FindLabel(fn.f, name)
  {
    GuardedCode(fn);
    forall i | 0 <= i < |fn.f|
      ensures NoLabels(Before(fn.f, i, fn.Start(), fn.Inserts()))
    {
      PreNoLabels(fn, i);
    }
    LabelInPrefix(fn.f, |fn.f|, fn.Start(), fn.Inserts(), name);
    assert fn.f[..|fn.f|] == fn.f;
    var j := FindLabel(fn.f, name);
    if j < |fn.f| && j < fn.Start() { HeadLines(fn, j); }
  }

  // ---------------------------------------------------------------- running the inserted text

  lemma {:induction false} DeclsRun<M>(m: Machine<M>, s: State<M>, block: seq<Line>, n: nat)
    requires s.status == Running && At(m.code, s.pc, block) && n <= |block|
    requires forall l :: l in block ==> IsPreamble(l)
    ensures m.Run(n, s) == s.(pc := s.pc + n)
  {
    hide Machine.Step, IsPreamble;
    if n > 0 {
      DeclsRun(m, s, block, n - 1);
      assert m.code[s.pc + (n - 1)] == block[n - 1];
      assert block[n - 1] in block;
      NextLine(m, m.Run(n - 1, s));
    }
  }

  lemma DeclBlockPreamble(regs: seq<RegInfo>)
    ensures forall l :: l in DeclBlock(regs) ==> IsPreamble(l)
  {
  }

  /** Declarations and saving block, as they stand in front of the first instruction. */
  lemma EntryRuns<M>(m: Machine<M>, s: State<M>, regs: seq<RegInfo>)
    requires AreaFits(m, s, Slots(regs)) && Usable(Slots(regs)) && s.status == Running
    requires At(m.code, s.pc, DeclBlock(regs) + PushBlock(Slots(regs)))
    ensures var t := m.Run(|DeclBlock(regs) + PushBlock(Slots(regs))|, s);
            Quiet(s, t, s.pc + |DeclBlock(regs) + PushBlock(Slots(regs))|) && Visible(t.regs) == Visible(s.regs) &&
            Held(t.area, Slots(regs), |Slots(regs)|, s.regs)
  {
    hide Machine.Step, Machine.Run, DeclBlock, PushBlock, Slots, Held, Usable, At, Visible;
    var decls, push := DeclBlock(regs), PushBlock(Slots(regs));
    AtSplit(m.code, s.pc, decls, push);
    DeclBlockPreamble(regs);
    DeclsRun(m, s, decls, |decls|);
    var u := m.Run(|decls|, s);
    PushEffect(m, u, Slots(regs));
    m.RunSum(|decls|, |push|, s);
    assert |decls + push| == |decls| + |push|;
  }

  /** The saved registers are back at their entry values, each cut to the width it was saved with. */
  ghost predicate SavedBack(regs: Registers, entry: Registers, slots: seq<Slot>) {
    forall i :: 0 <= i < |slots| ==>
      Val(regs, slots[i].name) == Val(entry, slots[i].name) % Pow256(KeptWidth(slots, 0, slots[i].name))
  }

  /** From the start of the text made for line i to line i itself. */
  lemma Arrive<M>(m: Machine<M>, fn: Function, s: State<M>, i: nat, entry: Registers)
    requires fn.Guardable() && m.code == GuardedFunction(fn.f) && i < |fn.f|
    requires AreaFits(m, s, fn.Saved()) && s.status == Running && s.pc == fn.Pos(i)
    requires i <= fn.Start() ==> Visible(s.regs) == Visible(entry)
    requires i > fn.Start() ==> Held(s.area, fn.Saved(), |fn.Saved()|, entry)
    ensures var t := m.Run(|fn.Pre(i)|, s);
            Quiet(s, t, fn.LinePos(i)) &&
            (i >= fn.Start() ==> Held(t.area, fn.Saved(), |fn.Saved()|, entry)) &&
            (if IsRet(fn.f[i]) then RestoredFrom(t.regs, entry, s.regs, fn.Saved(), 0)
             else Visible(t.regs) == Visible(s.regs))
  {
    hide Machine.Step, Machine.Run, Held, RestoredFrom, At, GuardedFunction, BlocksFor, Visible, Usable, SavedRegs,
         Slots, FunctionBase.Guardable, FunctionBase.Pos, FunctionBase.Pre, DeclsEnd, Before, InsertedBefore, AreaFits;
    Placed(fn, i);
    SavedUsable(fn);
    if IsRet(fn.f[i]) { HeadNotRet(fn, i); }
    InsertedText(fn, i);
    InsertsRun(m, s, SavedRegs(fn.f, fn.b), i == fn.Start(), IsRet(fn.f[i]), entry);
  }

  lemma SavedUsable(fn: Function)
    ensures Usable(fn.Saved())
  {
    hide Usable, Slots, DeclsEnd, Collected;
    CollectedUsable(fn.f[fn.b + 1..fn.Start()]);
  }

  function InsertedBefore(regs: seq<RegInfo>, atStart: bool, atRet: bool): seq<Line> {
    (if atStart then DeclBlock(regs) + PushBlock(Slots(regs)) else []) + (if atRet then PopBlock(Slots(regs)) else [])
  }

  lemma InsertedText(fn: Function, i: nat)
    requires i < |fn.f|
    ensures fn.Pre(i) == InsertedBefore(SavedRegs(fn.f, fn.b), i == fn.Start(), IsRet(fn.f[i]))
  {
    hide DeclBlock, PushBlock, PopBlock, SavedRegs, Slots, DeclsEnd;
  }

  lemma FirstInsertsRun<M>(m: Machine<M>, s: State<M>, regs: seq<RegInfo>, atStart: bool, entry: Registers)
    requires AreaFits(m, s, Slots(regs)) && Usable(Slots(regs)) && s.status == Running
    requires At(m.code, s.pc, InsertedBefore(regs, atStart, false))
    requires if atStart then Visible(s.regs) == Visible(entry) else true
    ensures var p := |InsertedBefore(regs, atStart, false)|;
            var t := m.Run(p, s);
            Quiet(s, t, s.pc + p) && Visible(t.regs) == Visible(s.regs) &&
            (if atStart then Held(t.area, Slots(regs), |Slots(regs)|, entry) else t.area == s.area)
  {
    hide Machine.Step, Machine.Run, Held, At, DeclBlock, PushBlock, Visible, Usable, Slots;
    if atStart {
      assert InsertedBefore(regs, true, false) == DeclBlock(regs) + PushBlock(Slots(regs));
      EntryRuns(m, s, regs);
      var t := m.Run(|DeclBlock(regs) + PushBlock(Slots(regs))|, s);
      HeldVisible(t.area, Slots(regs), s.regs, entry);
    } else {
      RunZero(m, s);
    }
  }

  lemma InsertsRun<M>(m: Machine<M>, s: State<M>, regs: seq<RegInfo>, atStart: bool, atRet: bool, entry: Registers)
    requires AreaFits(m, s, Slots(regs)) && Usable(Slots(regs)) && s.status == Running
    requires At(m.code, s.pc, InsertedBefore(regs, atStart, atRet))
    requires if atStart then Visible(s.regs) == Visible(entry)
             else atRet ==> Held(s.area, Slots(regs), |Slots(regs)|, entry)
    ensures var p := |InsertedBefore(regs, atStart, atRet)|;
            var t := m.Run(p, s);
            Quiet(s, t, s.pc + p) &&
            (if atStart then Held(t.area, Slots(regs), |Slots(regs)|, entry) else t.area == s.area) &&
            (if atRet then RestoredFrom(t.regs, entry, s.regs, Slots(regs), 0)
             else Visible(t.regs) == Visible(s.regs))
  {
    hide Machine.Step, Machine.Run, Held, At, DeclBlock, PushBlock, PopBlock, Visible, Usable, Slots, RestoredFrom;
    var first := InsertedBefore(regs, atStart, false);
    var second := if atRet then PopBlock(Slots(regs)) else [];
    assert InsertedBefore(regs, atStart, atRet) == first + second;
    hide InsertedBefore;
    AtSplit(m.code, s.pc, first, second);
    FirstInsertsRun(m, s, regs, atStart, entry);
    var u := m.Run(|first|, s);
    m.RunSum(|first|, |second|, s);
    if atRet {
      PopEffect(m, u, Slots(regs), entry);
      BodyVisible(m.Run(|second|, u).regs, entry, u.regs, s.regs, Slots(regs));
    } else {
      RunZero(m, u);
    }
  }

  lemma HeldVisible(area: seq<Byte>, slots: seq<Slot>, a: Registers, b: Registers)
    requires Usable(slots) && Held(area, slots, |slots|, a) && Visible(a) == Visible(b)
    ensures Held(area, slots, |slots|, b)
  {
    hide AccessWidth, Pow256, FromLittleEndian, Val;
    forall k | 0 <= k < |slots|
      ensures Val(a, slots[k].name) == Val(b, slots[k].name)
    {
      assert slots[k] in slots;
      VisibleVal(a, b, slots[k].name);
    }
  }

  lemma BodyVisible(regs: Registers, entry: Registers, a: Registers, b: Registers, slots: seq<Slot>)
    requires RestoredFrom(regs, entry, a, slots, 0) && Visible(a) == Visible(b)
    ensures RestoredFrom(regs, entry, b, slots, 0)
  {
    hide Pow256, KeptWidth, Val;
    forall r | r !in TEMPS
      ensures Val(a, r) == Val(b, r)
    {
      VisibleVal(a, b, r);
    }
  }

  // ---------------------------------------------------------------- registers come back

  /** The guarded run stands at line i with the saved values where they belong. */
  ghost predicate AtLine<M>(m: Machine<M>, fn: Function, t: State<M>, i: nat, entry: Registers)
  {
    i < |fn.f| && t.status == Running && t.pc == fn.LinePos(i) && AreaFits(m, t, fn.Saved()) &&
    (i < fn.Start() ==> Visible(t.regs) == Visible(entry)) &&
    (i >= fn.Start() ==> Held(t.area, fn.Saved(), |fn.Saved()|, entry)) &&
    (IsRet(fn.f[i]) ==> SavedBack(t.regs, entry, fn.Saved()))
  }

  lemma LineThere(fn: Function, code: seq<Line>, i: nat)
    requires fn.Guardable() && i < |fn.f| && code == GuardedFunction(fn.f) && !fn.f[i].Empty?
    ensures fn.LinePos(i) < |code| && code[fn.LinePos(i)] == fn.f[i]
    ensures fn.Pos(i + 1) == fn.LinePos(i) + 1
  {
    hide GuardedFunction, Before, SavedRegs, DeclsEnd, BlocksFor;
    Placed(fn, i);
    assert Kept(fn.f[i])[0] == fn.f[i];
    assert code[fn.LinePos(i) + 0] == fn.f[i];
  }

  /** Only the closing brace is last. */
  lemma LastLine(fn: Function, i: nat)
    requires fn.Guardable() && i < |fn.f| && !fn.f[i].CloseBrace?
    ensures i + 1 < |fn.f|
  {
  }

  /** What executing line i of the guarded function can lead to. */
  lemma LineEffect<M>(m: Machine<M>, fn: Function, t: State<M>, i: nat, entry: Registers)
    requires fn.Guardable() && m.code == GuardedFunction(fn.f) && AtLine(m, fn, t, i, entry) && !fn.f[i].Empty?
    ensures var u := m.Step(t);
            u.area == t.area &&
            (u.status == Returned(true) ==> SavedBack(u.regs, entry, fn.Saved())) &&
            (u.status == Running ==>
              (i + 1 < |fn.f| && u.pc == fn.Pos(i + 1) && (i < fn.Start() ==> u.regs == t.regs)) ||
              (exists j :: fn.Start() <= j < |fn.f| && fn.f[j].Label? && u.pc == fn.LinePos(j)))
  {
    hide GuardedFunction, Held, SavedBack, AreaFits, Visible, FindLabel,
         FunctionBase.LinePos, FunctionBase.Pos, FunctionBase.Start, FunctionBase.Saved, FunctionBase.Guardable;
    var l := fn.f[i];
    LineThere(fn, m.code, i);
    PlainLine(fn, i);
    if !l.CloseBrace? { LastLine(fn, i); }
    if i < fn.Start() { HeadLines(fn, i); }
    if l.Branch? || l.CondBranch? {
      LabelPlaced(fn, l.target);
      var j := FindLabel(fn.f, l.target);
      LabelBounds(fn.f, l.target);
    }
  }

  lemma PlainLine(fn: Function, i: nat)
    requires fn.Guardable() && i < |fn.f|
    ensures !IsGuardLine(fn.f[i])
  {
    hide Captured, OpeningBrace;
  }

  lemma LabelBounds(code: seq<Line>, name: string)
    ensures var j := FindLabel(code, name); j <= |code| && (j < |code| ==> code[j] == Label(name))
  {
  }

  /** A run with a later running point is running before it. */
  lemma RunsBefore<M>(m: Machine<M>, s: State<M>, n: nat, k: nat)
    requires n <= k && m.Run(k, s).status == Running
    ensures m.Run(n, s).status == Running
  {
    hide Machine.Step;
    m.RunSum(n, k - n, s);
    if m.Run(n, s).status != Running { m.RunEnded(k - n, m.Run(n, s)); }
  }

  lemma SavedBackFrom(regs: Registers, entry: Registers, body: Registers, slots: seq<Slot>)
    requires RestoredFrom(regs, entry, body, slots, 0)
    ensures SavedBack(regs, entry, slots)
  {
    hide Pow256, KeptWidth, Val;
  }

  /** From the start of the text made for line i, the run comes to stand at line i. */
  lemma ArriveAt<M>(m: Machine<M>, fn: Function, s: State<M>, i: nat, entry: Registers)
    requires fn.Guardable() && m.code == GuardedFunction(fn.f) && i < |fn.f|
    requires AreaFits(m, s, fn.Saved()) && s.status == Running && s.pc == fn.Pos(i)
    requires i <= fn.Start() ==> Visible(s.regs) == Visible(entry)
    requires i > fn.Start() ==> Held(s.area, fn.Saved(), |fn.Saved()|, entry)
    ensures AtLine(m, fn, m.Run(|fn.Pre(i)|, s), i, entry)
    ensures m.Run(|fn.Pre(i)|, s).status == Running
  {
    hide Machine.Step, Machine.Run, Held, RestoredFrom, GuardedFunction, Visible, SavedBack,
         FunctionBase.Guardable, FunctionBase.Pos, FunctionBase.Start, FunctionBase.Saved, FunctionBase.Pre;
    Arrive(m, fn, s, i, entry);
    var t := m.Run(|fn.Pre(i)|, s);
    if IsRet(fn.f[i]) {
      HeadNotRet(fn, i);
      SavedBackFrom(t.regs, entry, s.regs, fn.Saved());
    }
  }

  lemma HeadNotRet(fn: Function, i: nat)
    requires fn.Guardable() && i < |fn.f| && IsRet(fn.f[i])
    ensures i >= fn.Start()
  {
    if i < fn.Start() { HeadLines(fn, i); }
  }

  lemma EmptyLine(fn: Function, i: nat)
    requires fn.Guardable() && i < |fn.f| && fn.f[i].Empty?
    ensures i + 1 < |fn.f| && fn.Pos(i + 1) == fn.LinePos(i)
  {
    Placed(fn, i);
    LastLine(fn, i);
  }

  /** Control has passed from line i to the text made for line i + 1, the saved values in place. */
  ghost predicate Leaving<M>(m: Machine<M>, fn: Function, u: State<M>, i: nat, entry: Registers)
  {
    i + 1 < |fn.f| && u.status == Running && u.pc == fn.Pos(i + 1) && AreaFits(m, u, fn.Saved()) &&
    (i < fn.Start() ==> Visible(u.regs) == Visible(entry)) &&
    (i >= fn.Start() ==> Held(u.area, fn.Saved(), |fn.Saved()|, entry))
  }

  lemma LeavingArrives<M>(m: Machine<M>, fn: Function, u: State<M>, i: nat, entry: Registers)
    requires fn.Guardable() && m.code == GuardedFunction(fn.f) && Leaving(m, fn, u, i, entry)
    ensures var t := m.Run(|fn.Pre(i + 1)|, u); t.status == Running && AtLine(m, fn, t, i + 1, entry)
  {
    hide Machine.Step, Machine.Run, Held, GuardedFunction, SavedBack, Visible, AtLine, AreaFits, FunctionBase.Guardable,
         FunctionBase.Pos, FunctionBase.Start, FunctionBase.Saved, FunctionBase.Pre, FunctionBase.LinePos;
    ArriveAt(m, fn, u, i + 1, entry);
  }

  /** Executing line i ends the run, passes control to the next line or jumps to a label; if it returns, the
      saved registers are back. */
  lemma LineLeads<M>(m: Machine<M>, fn: Function, t: State<M>, i: nat, entry: Registers)
    requires fn.Guardable() && m.code == GuardedFunction(fn.f) && AtLine(m, fn, t, i, entry) && !fn.f[i].Empty?
    ensures var u := m.Step(t);
            (u.status == Returned(true) ==> SavedBack(u.regs, entry, fn.Saved())) &&
            (u.status == Running ==> Leaving(m, fn, u, i, entry) || exists j :: AtLine(m, fn, u, j, entry))
  {
    hide Machine.Step, Machine.Run, Held, GuardedFunction, SavedBack, Visible, FunctionBase.Guardable, FunctionBase.Pos,
         FunctionBase.Start, FunctionBase.Saved, FunctionBase.Pre, FunctionBase.LinePos;
    LineEffect(m, fn, t, i, entry);
    var u := m.Step(t);
    if u.status == Running {
      if i < fn.Start() {
        HeadFalls(m, fn, t, i, entry);
        assert Leaving(m, fn, u, i, entry);
      } else if i + 1 < |fn.f| && u.pc == fn.Pos(i + 1) {
        assert Leaving(m, fn, u, i, entry);
      } else {
        var j :| fn.Start() <= j < |fn.f| && fn.f[j].Label? && u.pc == fn.LinePos(j);
        assert AtLine(m, fn, u, j, entry);
      }
    }
  }

  /** Lines before the insertion point do nothing but pass control on. */
  lemma HeadFalls<M>(m: Machine<M>, fn: Function, t: State<M>, i: nat, entry: Registers)
    requires fn.Guardable() && m.code == GuardedFunction(fn.f) && AtLine(m, fn, t, i, entry)
    requires !fn.f[i].Empty? && i < fn.Start()
    ensures var u := m.Step(t); i + 1 < |fn.f| && u == t.(pc := fn.Pos(i + 1))
  {
    hide GuardedFunction, Held, SavedBack;
    HeadLines(fn, i);
    LineThere(fn, m.code, i);
    NextLine(m, t);
    LastLine(fn, i);
  }

  lemma EmptyLeads<M>(m: Machine<M>, fn: Function, t: State<M>, i: nat, entry: Registers)
    requires fn.Guardable() && AtLine(m, fn, t, i, entry) && fn.f[i].Empty?
    ensures Leaving(m, fn, t, i, entry)
  {
    hide Held, SavedBack, Visible, AreaFits, FunctionBase.Guardable, FunctionBase.Pos, FunctionBase.Start,
         FunctionBase.Saved, FunctionBase.Pre, FunctionBase.LinePos;
    EmptyLine(fn, i);
  }

  lemma {:induction false} ReturnsFromLine<M>(
      m: Machine<M>, fn: Function, t: State<M>, i: nat, entry: Registers, n: nat)
    requires fn.Guardable() && m.code == GuardedFunction(fn.f) && i < |fn.f| && AtLine(m, fn, t, i, entry)
    ensures m.Run(n, t).status == Returned(true) ==> SavedBack(m.Run(n, t).regs, entry, fn.Saved())
    decreases n, |fn.f| - i, 0
  {
    hide Machine.Step, Machine.Run, GuardedFunction, SavedBack, AtLine, Leaving, FunctionBase.Guardable,
         FunctionBase.Saved;
    if fn.f[i].Empty? {
      EmptyLeads(m, fn, t, i, entry);
      ReturnsFromNext(m, fn, t, i, entry, n);
    } else if n == 0 {
      RunZero(m, t);
      LineInside(m, fn, t, i, entry);
    } else {
      LineLeads(m, fn, t, i, entry);
      var u := m.Step(t);
      RunOne(m, t);
      m.RunSum(1, n - 1, t);
      if u.status != Running {
        m.RunEnded(n - 1, u);
      } else if Leaving(m, fn, u, i, entry) {
        ReturnsFromNext(m, fn, u, i, entry, n - 1);
      } else {
        var j :| AtLine(m, fn, u, j, entry);
        LineInside(m, fn, u, j, entry);
        ReturnsFromLine(m, fn, u, j, entry, n - 1);
      }
    }
  }

  lemma LineInside<M>(m: Machine<M>, fn: Function, t: State<M>, i: nat, entry: Registers)
    requires AtLine(m, fn, t, i, entry)
    ensures i < |fn.f| && t.status == Running
  {
  }

  lemma NextInside<M>(m: Machine<M>, fn: Function, t: State<M>, i: nat, entry: Registers)
    requires Leaving(m, fn, t, i, entry)
    ensures i + 1 < |fn.f|
  {
  }

  lemma {:induction false} ReturnsFromNext<M>(
      m: Machine<M>, fn: Function, u: State<M>, i: nat, entry: Registers, n: nat)
    requires fn.Guardable() && m.code == GuardedFunction(fn.f) && i < |fn.f| && Leaving(m, fn, u, i, entry)
    ensures m.Run(n, u).status == Returned(true) ==> SavedBack(m.Run(n, u).regs, entry, fn.Saved())
    decreases n, |fn.f| - i - 1, 1
  {
    hide Machine.Step, Machine.Run, GuardedFunction, SavedBack, AtLine, Leaving, FunctionBase.Guardable,
         FunctionBase.Saved, FunctionBase.Pre;
    NextInside(m, fn, u, i, entry);
    LeavingArrives(m, fn, u, i, entry);
    var k := |fn.Pre(i + 1)|;
    if n < k {
      RunsBefore(m, u, n, k);
    } else {
      m.RunSum(k, n - k, u);
      ReturnsFromLine(m, fn, m.Run(k, u), i + 1, entry, n - k);
    }
  }

  /** A guarded function about to run, with its save area allocated as it was declared. */
  ghost predicate AtEntry<M>(m: Machine<M>, fn: Function, s: State<M>)
  {
    m.code == GuardedFunction(fn.f) && s.pc == 0 && s.status == Running &&
    m.areaBase % 8 == 0 && |s.area| == SaveAreaSize(fn.Saved()) && m.areaBase + |s.area| <= TWO64
  }

  lemma StartsAtLine<M>(m: Machine<M>, fn: Function, s: State<M>)
    requires fn.Guardable() && AtEntry(m, fn, s)
    ensures AtLine(m, fn, s, 0, s.regs) && fn.LinePos(0) == 0 && !IsRet(fn.f[0]) && 0 < fn.Start()
  {
    hide SavedRegs, Slots;
    EndInsertionsNeverMade(fn.f, fn.b);
    CapturedShape(fn.f);
  }

  /** On every run of a guarded function that reaches a recognised return, whatever its instructions do and
      whatever path it took, each saved register holds its entry value again, cut to the width it was saved
      with. The values of temporaries never matter. */
  lemma GuardRestores<M>(m: Machine<M>, fn: Function, s: State<M>, n: nat)
    requires fn.Guardable() && AtEntry(m, fn, s)
    ensures m.Run(n, s).status == Returned(true) ==> SavedBack(m.Run(n, s).regs, s.regs, fn.Saved())
  {
    hide Machine.Run, SavedBack;
    StartsAtLine(m, fn, s);
    ReturnsFromLine(m, fn, s, 0, s.regs, n);
  }

  /** With registers no wider than they were declared, and each name declared once, "cut to the width it was
      saved with" cuts nothing: the caller finds its values untouched. */
  lemma GuardRestoresValues<M>(m: Machine<M>, fn: Function, s: State<M>, n: nat, i: nat)
    requires fn.Guardable() && AtEntry(m, fn, s) && i < |fn.Saved()|
    requires forall j :: 0 <= j < i ==> fn.Saved()[j].name != fn.Saved()[i].name
    requires Val(s.regs, fn.Saved()[i].name) < Pow256(SlotWidth(fn.Saved(), i))
    ensures m.Run(n, s).status == Returned(true) ==>
            Val(m.Run(n, s).regs, fn.Saved()[i].name) == Val(s.regs, fn.Saved()[i].name)
  {
    hide Machine.Run, FunctionBase.Guardable, FunctionBase.Saved, AtEntry, Val, Pow256, KeptWidth, AccessWidth;
    GuardRestores(m, fn, s, n);
    KeptFirst(fn.Saved(), 0, i);
  }

  lemma {:induction false} KeptFirst(slots: seq<Slot>, k: nat, i: nat)
    requires k <= i < |slots| && forall j :: k <= j < i ==> slots[j].name != slots[i].name
    ensures KeptWidth(slots, k, slots[i].name) == SlotWidth(slots, i)
    decreases i - k
  {
    hide AccessWidth;
    if k < i { KeptFirst(slots, k + 1, i); }
  }
}
