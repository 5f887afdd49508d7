/** What the saving and the restoring block do when they run. */
module RegisterGuardBlocks {
  import opened Words
  import opened Ptx
  import opened RegisterGuard
  import opened PtxMachine

  /** Slots whose storage type is a real one and whose register is not a temporary. */
  ghost predicate Usable(slots: seq<Slot>) {
    forall s :: s in slots ==> AccessWidth(s.modifier) > 0 && s.name !in TEMPS
  }

  /** The storage modifier of a known size moves exactly that many bytes. */
  lemma ModifierWidth(size: nat, ty: string)
    requires size in {1, 2, 4, 8}
    ensures AccessWidth(StorageModifier(size, ty)) == size
  {
  }

  /** A numbered register is never one of the temporaries: its name ends in a digit. */
  lemma NumberedNotTemp(base: string, k: nat)
    ensures base + Decimal(k) !in TEMPS
  {
    var d := Decimal(k);
    var c := (base + d)[|base + d| - 1];
    assert c == d[|d| - 1];
    assert TEMP_BASE[|TEMP_BASE| - 1] == 'e' && TEMP_ADDR[|TEMP_ADDR| - 1] == 'r';
  }

  lemma InfoUsable(l: Line)
    requires l.RegDecl? && !Excluded(l)
    ensures Usable(SlotsOf(InfoOf(l)))
  {
    var info := InfoOf(l);
    ModifierWidth(RegisterSize(l.ty), l.ty);
    hide RegisterSize, StorageModifier, AccessWidth, Decimal;
    forall s | s in SlotsOf(info)
      ensures AccessWidth(s.modifier) > 0 && s.name !in TEMPS
    {
      var i :| 0 <= i < |info.names| && s == SlotsOf(info)[i];
      NumberedNotTemp(l.base, i);
    }
  }

  /** Every register chosen for saving is stored with exactly the width of its declared type. */
  lemma {:induction false} CollectedUsable(lines: seq<Line>)
    ensures Usable(Slots(Collected(lines)))
  {
    if lines != [] {
      CollectedUsable(lines[..|lines| - 1]);
      var l := lines[|lines| - 1];
      var regs := Collected(lines[..|lines| - 1]);
      if Collected(lines) != regs {
        InfoUsable(l);
        assert (regs + [InfoOf(l)])[..|regs|] == regs;
        assert Slots(Collected(lines)) == Slots(regs) + SlotsOf(InfoOf(l));
      }
    }
  }

  lemma {:induction false} SavesAt(slots: seq<Slot>, n: nat, k: nat)
    requires k < n <= |slots|
    ensures Saves(slots, n)[2 * k] == AddOffset(8 * k)
    ensures Saves(slots, n)[2 * k + 1] == SaveReg(slots[k].modifier, slots[k].name)
    decreases n
  {
    if k < n - 1 { SavesAt(slots, n - 1, k); }
  }

  lemma {:induction false} RestoresAt(slots: seq<Slot>, n: nat, k: nat)
    requires n <= k < |slots|
    ensures var p := 2 * (|slots| - 1 - k);
            Restores(slots, n)[p] == AddOffset(8 * k) &&
            Restores(slots, n)[p + 1] == RestoreReg(slots[k].modifier, slots[k].name)
    decreases |slots| - n
  {
    if k > n { RestoresAt(slots, n + 1, k); }
  }

  /** `block` is the code at p. */
  ghost predicate At(code: seq<Line>, p: nat, block: seq<Line>) {
    p + |block| <= |code| && forall i :: 0 <= i < |block| ==> code[p + i] == block[i]
  }

  function SlotWidth(slots: seq<Slot>, k: nat): nat
    requires k < |slots|
  {
    AccessWidth(slots[k].modifier)
  }

  /** The first n slots of the area hold the low bytes of the registers' values in `regs`. */
  ghost predicate Held(area: seq<Byte>, slots: seq<Slot>, n: nat, regs: Registers)
    requires n <= |slots|
  {
    8 * |slots| <= |area| &&
    forall k :: 0 <= k < n ==>
      FromLittleEndian(area[8 * k..8 * k + SlotWidth(slots, k)]) ==
      Val(regs, slots[k].name) % Pow256(SlotWidth(slots, k))
  }

  /** The area is a properly aligned object with room for all slots. */
  ghost predicate AreaFits<M>(m: Machine<M>, s: State<M>, slots: seq<Slot>) {
    m.areaBase % 8 == 0 && 8 * |slots| <= |s.area| && m.areaBase + |s.area| <= TWO64
  }

  /** Same memory, trace and area size, still running at pc. */
  ghost predicate Quiet<M>(s: State<M>, t: State<M>, pc: nat) {
    t.pc == pc && t.status == Running && t.mem == s.mem && t.trace == s.trace && |t.area| == |s.area|
  }

  lemma AlignedSlot(base: nat, k: nat, w: nat)
    requires base % 8 == 0 && w in {1, 2, 4, 8}
    ensures (base + 8 * k) % w == 0
  {
    var t := base / 8 + k;
    assert base + 8 * k == 8 * t;
    if w == 1 {
      ModUnique(8 * t, 1, 8 * t, 0);
    } else if w == 2 {
      ModUnique(8 * t, 2, 4 * t, 0);
    } else if w == 4 {
      ModUnique(8 * t, 4, 2 * t, 0);
    } else {
      ModUnique(8 * t, 8, t, 0);
    }
  }

  /** One address computation: the temporary points at slot k. */
  lemma AddressStep<M>(m: Machine<M>, s: State<M>, slots: seq<Slot>, k: nat)
    requires AreaFits(m, s, slots) && k < |slots| && AccessWidth(slots[k].modifier) > 0
    requires s.status == Running && s.pc < |m.code| && m.code[s.pc] == AddOffset(8 * k)
    requires Val(s.regs, TEMP_BASE) == m.areaBase
    ensures var t := m.Step(s);
            t == s.(pc := s.pc + 1, regs := s.regs[TEMP_ADDR := m.areaBase + 8 * k]) &&
            m.InArea(t, m.areaBase + 8 * k, SlotWidth(slots, k))
  {
    assert m.areaBase + 8 * k < TWO64;
    AlignedSlot(m.areaBase, k, SlotWidth(slots, k));
  }

  /** Writing slot k into the area. */
  function Written(area: seq<Byte>, slots: seq<Slot>, k: nat, v: nat): (r: seq<Byte>)
    requires k < |slots| && 8 * |slots| <= |area|
    ensures |r| == |area|
  {
    var w := SlotWidth(slots, k);
    area[..8 * k] + LittleEndian(v, w) + area[8 * k + w..]
  }

  /** Writing slot k fills it and leaves the slots below alone. */
  lemma HeldExtends(area: seq<Byte>, slots: seq<Slot>, k: nat, regs: Registers)
    requires k < |slots| && Held(area, slots, k, regs)
    ensures Held(Written(area, slots, k, Val(regs, slots[k].name)), slots, k + 1, regs)
  {
    hide LittleEndian, FromLittleEndian, Pow256, AccessWidth, Val;
    var v, w := Val(regs, slots[k].name), SlotWidth(slots, k);
    var area' := Written(area, slots, k, v);
    LittleEndianRoundTrip(v, w);
    assert area'[8 * k..8 * k + w] == LittleEndian(v, w);
    forall j | 0 <= j < k
      ensures area'[8 * j..8 * j + SlotWidth(slots, j)] == area[8 * j..8 * j + SlotWidth(slots, j)]
    {
    }
  }

  lemma StoreStep<M>(m: Machine<M>, s: State<M>, slots: seq<Slot>, k: nat)
    requires k < |slots| && 8 * |slots| <= |s.area|
    requires s.status == Running && s.pc < |m.code|
    requires m.code[s.pc] == SaveReg(slots[k].modifier, slots[k].name)
    requires Val(s.regs, TEMP_ADDR) == m.areaBase + 8 * k
    requires m.InArea(s, m.areaBase + 8 * k, SlotWidth(slots, k))
    ensures m.Step(s) == s.(pc := s.pc + 1, area := Written(s.area, slots, k, Val(s.regs, slots[k].name)))
  {
    hide LittleEndian, AccessWidth;
  }

  lemma SaveSlot<M>(m: Machine<M>, s: State<M>, slots: seq<Slot>, k: nat, regs: Registers)
    requires AreaFits(m, s, slots) && k < |slots| && Usable(slots)
    requires s.status == Running && s.pc + 1 < |m.code| && m.code[s.pc] == AddOffset(8 * k)
    requires m.code[s.pc + 1] == SaveReg(slots[k].modifier, slots[k].name)
    requires Val(s.regs, TEMP_BASE) == m.areaBase
    requires Visible(s.regs) == Visible(regs) && Held(s.area, slots, k, regs)
    ensures var t := m.Step(m.Step(s));
            Quiet(s, t, s.pc + 2) && Visible(t.regs) == Visible(regs) && Val(t.regs, TEMP_BASE) == m.areaBase &&
            Held(t.area, slots, k + 1, regs)
  {
    hide Machine.Step, Machine.InArea, Held, Written, AccessWidth;
    assert slots[k] in slots;
    AddressStep(m, s, slots, k);
    var u := m.Step(s);
    assert Visible(u.regs) == Visible(s.regs);
    VisibleVal(u.regs, regs, slots[k].name);
    StoreStep(m, u, slots, k);
    HeldExtends(s.area, slots, k, regs);
  }

  lemma VisibleVal(a: Registers, b: Registers, r: string)
    requires Visible(a) == Visible(b) && r !in TEMPS
    ensures Val(a, r) == Val(b, r)
  {
    assert r in Visible(a) <==> Val(a, r) != 0;
    assert r in Visible(b) <==> Val(b, r) != 0;
    if Val(a, r) != 0 { assert Visible(a)[r] == a[r] && Visible(b)[r] == b[r]; }
  }

  lemma SameVisible(a: Registers, b: Registers)
    requires forall r :: r !in TEMPS ==> Val(a, r) == Val(b, r)
    ensures Visible(a) == Visible(b)
  {
    forall r
      ensures r in Visible(a) <==> r in Visible(b)
      ensures r in Visible(a) ==> Visible(a)[r] == Visible(b)[r]
    {
      if r !in TEMPS { assert Val(a, r) == Val(b, r); }
    }
  }

  lemma PushBlockAt(slots: seq<Slot>)
    requires slots != []
    ensures var block := PushBlock(slots);
            |block| == 3 + 2 * |slots| && block[0].Marker? && block[1] == LoadBase && block[2 + 2 * |slots|].Marker? &&
            forall k :: 0 <= k < |slots| ==>
              block[2 + 2 * k] == AddOffset(8 * k) && block[3 + 2 * k] == SaveReg(slots[k].modifier, slots[k].name)
  {
    forall k | 0 <= k < |slots|
      ensures PushBlock(slots)[2 + 2 * k] == AddOffset(8 * k)
      ensures PushBlock(slots)[3 + 2 * k] == SaveReg(slots[k].modifier, slots[k].name)
    {
      SavesAt(slots, |slots|, k);
    }
  }

  lemma TwoSteps<M>(m: Machine<M>, s: State<M>, n: nat)
    ensures m.Run(n + 2, s) == m.Step(m.Step(m.Run(n, s)))
  {
    hide Machine.Step;
    assert m.Run(n + 1, s) == m.Step(m.Run(n, s));
  }

  /** A comment and the load of the area's address, which open both blocks. */
  lemma LoadBaseSteps<M>(m: Machine<M>, s: State<M>)
    requires s.status == Running && s.pc + 1 < |m.code| && m.code[s.pc].Marker? && m.code[s.pc + 1] == LoadBase
    ensures m.Step(m.Step(s)) == s.(pc := s.pc + 2, regs := s.regs[TEMP_BASE := m.areaBase])
  {
  }

  /** The saving block runs up to slot n and leaves every slot below n holding its register. */
  lemma {:induction false} PushRuns<M>(m: Machine<M>, s: State<M>, slots: seq<Slot>, n: nat)
    requires AreaFits(m, s, slots) && n <= |slots| && Usable(slots) && slots != []
    requires s.status == Running && At(m.code, s.pc, PushBlock(slots))
    ensures var t := m.Run(2 + 2 * n, s);
            Quiet(s, t, s.pc + 2 + 2 * n) && Visible(t.regs) == Visible(s.regs) &&
            Val(t.regs, TEMP_BASE) == m.areaBase && Held(t.area, slots, n, s.regs)
  {
    hide Machine.Step, Machine.Run, PushBlock, Usable;
    var block := PushBlock(slots);
    PushBlockAt(slots);
    if n == 0 {
      assert m.code[s.pc + 0] == block[0] && m.code[s.pc + 1] == block[1];
      LoadBaseSteps(m, s);
      TwoSteps(m, s, 0);
      RunZero(m, s);
    } else {
      PushRuns(m, s, slots, n - 1);
      var u := m.Run(2 * n, s);
      assert m.code[s.pc + (2 + 2 * (n - 1))] == block[2 + 2 * (n - 1)];
      assert m.code[s.pc + (3 + 2 * (n - 1))] == block[3 + 2 * (n - 1)];
      SaveSlot(m, u, slots, n - 1, s.regs);
      TwoSteps(m, s, 2 * n);
    }
  }

  lemma RunZero<M>(m: Machine<M>, s: State<M>)
    ensures m.Run(0, s) == s
  {
  }

  // ---------------------------------------------------------------- restoring

  /** Width of the first slot at or after k that names this register: the load done last decides. */
  function KeptWidth(slots: seq<Slot>, k: nat, name: string): nat
    requires k <= |slots|
    decreases |slots| - k
  {
    if k == |slots| then 0
    else if slots[k].name == name then SlotWidth(slots, k)
    else KeptWidth(slots, k + 1, name)
  }

  /** The registers named by the slots from k on. */
  function Names(slots: seq<Slot>, k: nat): set<string>
    requires k <= |slots|
  {
    set i | k <= i < |slots| :: slots[i].name
  }

  /** Registers named from slot k on are back at their entry values, cut to the width they were saved with;
      all the others, temporaries aside, are as the body left them. */
  ghost predicate RestoredFrom(regs: Registers, entry: Registers, body: Registers, slots: seq<Slot>, k: nat)
    requires k <= |slots|
  {
    (forall i :: k <= i < |slots| ==>
      Val(regs, slots[i].name) == Val(entry, slots[i].name) % Pow256(KeptWidth(slots, k, slots[i].name))) &&
    forall r :: r !in TEMPS && r !in Names(slots, k) ==> Val(regs, r) == Val(body, r)
  }

  lemma RestoredExtends(regs: Registers, entry: Registers, body: Registers, slots: seq<Slot>, k: nat, v: nat)
    requires k < |slots| && RestoredFrom(regs, entry, body, slots, k + 1) && slots[k].name !in TEMPS
    requires v == Val(entry, slots[k].name) % Pow256(SlotWidth(slots, k))
    ensures RestoredFrom(regs[slots[k].name := v], entry, body, slots, k)
  {
    hide Pow256, AccessWidth;
    var name := slots[k].name;
    var regs' := regs[name := v];
    assert Names(slots, k) == Names(slots, k + 1) + {name} by {
      forall r | r in Names(slots, k)
        ensures r in Names(slots, k + 1) + {name}
      {
        var i :| k <= i < |slots| && slots[i].name == r;
        if i > k { assert slots[i].name in Names(slots, k + 1); }
      }
    }
    forall i | k <= i < |slots|
      ensures Val(regs', slots[i].name) == Val(entry, slots[i].name) % Pow256(KeptWidth(slots, k, slots[i].name))
    {
      if slots[i].name != name {
        assert i >= k + 1;
      }
    }
  }

  lemma RestoreSteps<M>(m: Machine<M>, s: State<M>, modifier: string, name: string, o: nat)
    requires s.status == Running && s.pc < |m.code| && m.code[s.pc] == RestoreReg(modifier, name)
    requires Val(s.regs, TEMP_ADDR) == m.areaBase + o && m.InArea(s, m.areaBase + o, AccessWidth(modifier))
    ensures m.Step(s) ==
            s.(pc := s.pc + 1, regs := s.regs[name := FromLittleEndian(s.area[o..o + AccessWidth(modifier)])])
  {
    hide FromLittleEndian, LittleEndian, AccessWidth, Val, Visible, Machine.Jump;
  }

  lemma HeldAt(area: seq<Byte>, slots: seq<Slot>, k: nat, regs: Registers)
    requires k < |slots| && Held(area, slots, |slots|, regs)
    ensures 8 * k + SlotWidth(slots, k) <= |area|
    ensures FromLittleEndian(area[8 * k..8 * k + SlotWidth(slots, k)]) ==
            Val(regs, slots[k].name) % Pow256(SlotWidth(slots, k))
  {
    hide FromLittleEndian, AccessWidth, Pow256, Val;
  }

  lemma LoadStep<M>(m: Machine<M>, s: State<M>, slots: seq<Slot>, k: nat, entry: Registers)
    requires k < |slots| && Held(s.area, slots, |slots|, entry)
    requires s.status == Running && s.pc < |m.code|
    requires m.code[s.pc] == RestoreReg(slots[k].modifier, slots[k].name)
    requires Val(s.regs, TEMP_ADDR) == m.areaBase + 8 * k
    requires m.InArea(s, m.areaBase + 8 * k, SlotWidth(slots, k))
    ensures var v := Val(entry, slots[k].name) % Pow256(SlotWidth(slots, k));
            m.Step(s) == s.(pc := s.pc + 1, regs := s.regs[slots[k].name := v])
  {
    hide FromLittleEndian, AccessWidth, Pow256, Val, Held, Machine.Step, Machine.InArea;
    HeldAt(s.area, slots, k, entry);
    RestoreSteps(m, s, slots[k].modifier, slots[k].name, 8 * k);
  }

  lemma TempsRestored(a: Registers, b: Registers, entry: Registers, body: Registers, slots: seq<Slot>, k: nat)
    requires k <= |slots| && Usable(slots) && RestoredFrom(a, entry, body, slots, k)
    requires Visible(a) == Visible(b)
    ensures RestoredFrom(b, entry, body, slots, k)
  {
    hide Pow256, AccessWidth, Val;
    forall r | r !in TEMPS
      ensures Val(a, r) == Val(b, r)
    {
      VisibleVal(a, b, r);
    }
    assert forall i :: k <= i < |slots| ==> slots[i] in slots;
  }

  lemma RestoreSlot<M>(m: Machine<M>, s: State<M>, slots: seq<Slot>, k: nat, entry: Registers, body: Registers)
    requires AreaFits(m, s, slots) && k < |slots| && Usable(slots)
    requires s.status == Running && s.pc + 1 < |m.code| && m.code[s.pc] == AddOffset(8 * k)
    requires m.code[s.pc + 1] == RestoreReg(slots[k].modifier, slots[k].name)
    requires Val(s.regs, TEMP_BASE) == m.areaBase
    requires Held(s.area, slots, |slots|, entry) && RestoredFrom(s.regs, entry, body, slots, k + 1)
    ensures var t := m.Step(m.Step(s));
            Quiet(s, t, s.pc + 2) && t.area == s.area && Val(t.regs, TEMP_BASE) == m.areaBase &&
            RestoredFrom(t.regs, entry, body, slots, k)
  {
    hide Machine.Step, Machine.InArea, Held, AccessWidth, Pow256, RestoredFrom;
    assert slots[k] in slots;
    AddressStep(m, s, slots, k);
    var u := m.Step(s);
    assert Visible(u.regs) == Visible(s.regs);
    TempsRestored(s.regs, u.regs, entry, body, slots, k + 1);
    LoadStep(m, u, slots, k, entry);
    RestoredExtends(u.regs, entry, body, slots, k, Val(entry, slots[k].name) % Pow256(SlotWidth(slots, k)));
  }

  lemma PopBlockAt(slots: seq<Slot>)
    requires slots != []
    ensures var block := PopBlock(slots);
            |block| == 4 + 2 * |slots| && block[0].Empty? && block[1].Marker? && block[2] == LoadBase &&
            block[3 + 2 * |slots|].Marker? &&
            forall n :: 0 <= n < |slots| ==>
              var k := |slots| - 1 - n;
              block[3 + 2 * n] == AddOffset(8 * k) && block[4 + 2 * n] == RestoreReg(slots[k].modifier, slots[k].name)
  {
    forall n | 0 <= n < |slots|
      ensures var k := |slots| - 1 - n;
              PopBlock(slots)[3 + 2 * n] == AddOffset(8 * k) &&
              PopBlock(slots)[4 + 2 * n] == RestoreReg(slots[k].modifier, slots[k].name)
    {
      RestoresAt(slots, 0, |slots| - 1 - n);
    }
  }

  lemma NextLine<M>(m: Machine<M>, s: State<M>)
    requires s.status == Running && s.pc < |m.code|
    requires var l := m.code[s.pc]; IsPreamble(l) || l.FuncHeader? || l.OpenBrace? || l.Label?
    ensures m.Step(s) == s.(pc := s.pc + 1)
  {
  }

  lemma PopStarts<M>(m: Machine<M>, s: State<M>, slots: seq<Slot>, entry: Registers)
    requires slots != [] && Usable(slots)
    requires s.status == Running && At(m.code, s.pc, PopBlock(slots))
    ensures var t := m.Run(3, s);
            Quiet(s, t, s.pc + 3) && t.area == s.area && Val(t.regs, TEMP_BASE) == m.areaBase &&
            RestoredFrom(t.regs, entry, s.regs, slots, |slots|)
  {
    hide Machine.Step, Machine.Run, PopBlock;
    var block := PopBlock(slots);
    PopBlockAt(slots);
    assert m.code[s.pc + 0] == block[0] && m.code[s.pc + 1] == block[1] && m.code[s.pc + 2] == block[2];
    NextLine(m, s);
    LoadBaseSteps(m, m.Step(s));
    m.RunSum(1, 2, s);
    RunOne(m, s);
    TwoSteps(m, m.Step(s), 0);
    RunZero(m, m.Step(s));
  }

  lemma RunOne<M>(m: Machine<M>, s: State<M>)
    ensures m.Run(1, s) == m.Step(s)
  {
    hide Machine.Step;
    RunZero(m, s);
  }

  /** The restoring block runs through its first n loads, with the saved values in place. */
  lemma {:induction false} PopRuns<M>(m: Machine<M>, s: State<M>, slots: seq<Slot>, entry: Registers, n: nat)
    requires AreaFits(m, s, slots) && n <= |slots| && Usable(slots) && slots != []
    requires s.status == Running && At(m.code, s.pc, PopBlock(slots)) && Held(s.area, slots, |slots|, entry)
    ensures var t := m.Run(3 + 2 * n, s);
            Quiet(s, t, s.pc + 3 + 2 * n) && t.area == s.area && Val(t.regs, TEMP_BASE) == m.areaBase &&
            RestoredFrom(t.regs, entry, s.regs, slots, |slots| - n)
  {
    hide Machine.Step, Machine.Run, PopBlock, Usable, Held, RestoredFrom;
    if n == 0 {
      PopStarts(m, s, slots, entry);
    } else {
      var block := PopBlock(slots);
      PopBlockAt(slots);
      PopRuns(m, s, slots, entry, n - 1);
      var u := m.Run(1 + 2 * n, s);
      var k := |slots| - 1 - (n - 1);
      assert m.code[s.pc + (3 + 2 * (n - 1))] == block[3 + 2 * (n - 1)];
      assert m.code[s.pc + (4 + 2 * (n - 1))] == block[4 + 2 * (n - 1)];
      RestoreSlot(m, u, slots, k, entry, s.regs);
      TwoSteps(m, s, 1 + 2 * n);
    }
  }

  lemma NothingSaved(area: seq<Byte>, entry: Registers, body: Registers)
    ensures PushBlock([]) == [] && PopBlock([]) == []
    ensures Held(area, [], 0, entry) && RestoredFrom(body, entry, body, [], 0)
  {
  }

  /** The whole saving block: registers untouched, every slot filled. */
  lemma PushEffect<M>(m: Machine<M>, s: State<M>, slots: seq<Slot>)
    requires AreaFits(m, s, slots) && Usable(slots)
    requires s.status == Running && At(m.code, s.pc, PushBlock(slots))
    ensures var t := m.Run(|PushBlock(slots)|, s);
            Quiet(s, t, s.pc + |PushBlock(slots)|) && Visible(t.regs) == Visible(s.regs) &&
            Held(t.area, slots, |slots|, s.regs)
  {
    hide Machine.Step, Machine.Run, Usable, PushBlock, Held;
    if slots == [] {
      NothingSaved(s.area, s.regs, s.regs);
      RunZero(m, s);
    } else {
      var block := PushBlock(slots);
      PushBlockAt(slots);
      PushRuns(m, s, slots, |slots|);
      var u := m.Run(2 + 2 * |slots|, s);
      assert m.code[s.pc + (2 + 2 * |slots|)] == block[2 + 2 * |slots|];
      NextLine(m, u);
      m.RunSum(2 + 2 * |slots|, 1, s);
      RunOne(m, u);
    }
  }

  /** The whole restoring block. */
  lemma PopEffect<M>(m: Machine<M>, s: State<M>, slots: seq<Slot>, entry: Registers)
    requires AreaFits(m, s, slots) && Usable(slots)
    requires s.status == Running && At(m.code, s.pc, PopBlock(slots)) && Held(s.area, slots, |slots|, entry)
    ensures var t := m.Run(|PopBlock(slots)|, s);
            Quiet(s, t, s.pc + |PopBlock(slots)|) && t.area == s.area && RestoredFrom(t.regs, entry, s.regs, slots, 0)
  {
    hide Machine.Step, Machine.Run, Usable, PopBlock, Held, RestoredFrom;
    if slots == [] {
      NothingSaved(s.area, entry, s.regs);
      RunZero(m, s);
    } else {
      var block := PopBlock(slots);
      PopBlockAt(slots);
      PopRuns(m, s, slots, entry, |slots|);
      var u := m.Run(3 + 2 * |slots|, s);
      assert m.code[s.pc + (3 + 2 * |slots|)] == block[3 + 2 * |slots|];
      NextLine(m, u);
      m.RunSum(3 + 2 * |slots|, 1, s);
      RunOne(m, u);
    }
  }
}
