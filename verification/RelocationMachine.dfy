/** What the machine on which programs and relocated programs run does, instruction by instruction and in plain numbers,
    and that it agrees with the interpreter for generated code. */
module RelocationMachine {
  import opened Words
  import opened Wrappers
  import opened Relocation
  import opened RelocationMeaning
  import Ebpf

  type Insn = Ebpf.Insn

  /** This instruction comes next. */
  predicate Next<W>(p: Program<W>, s: State<W>, i: Insn) {
    s.status == Ebpf.Running && 0 <= s.pc < |p.code| && p.code[s.pc] == i
  }

  lemma StepComputes<W>(p: Program<W>, s: State<W>, i: Insn)
    requires Next(p, s, i) && (Ebpf.IsJump(i) || i.opcode % 8 == 4 || i.opcode % 8 == 7)
    requires !(i.opcode == 0xbf && i.offset == 0)
    ensures p.Step(s) == p.Compute(s, i)
  {
    hide Program.Wide, Program.Call, Program.Enter, Program.Leave, Program.Atomic, Program.Compute, Program.LoadFrom,
         Program.StoreAt, Program.SetNext;
  }

  lemma StepReplaces<W>(p: Program<W>, s: State<W>, i: Insn)
    requires Next(p, s, i) && (i.opcode == 0xc3 || i.opcode == 0xdb)
    ensures p.Step(s) == p.Atomic(s, i)
  {
    hide Program.Wide, Program.Call, Program.Enter, Program.Leave, Program.Atomic, Program.Compute, Program.LoadFrom,
         Program.StoreAt, Program.SetNext;
  }

  lemma StepLoads<W>(p: Program<W>, s: State<W>, i: Insn, w: nat)
    requires Next(p, s, i) && (i.opcode, w) in {(0x61, 4), (0x69, 2), (0x71, 1), (0x79, 8)}
    ensures p.Step(s) == p.LoadFrom(s, Get(s.regs, i.src), i.offset, i.dst, w)
  {
    hide Program.Wide, Program.Call, Program.Enter, Program.Leave, Program.Atomic, Program.Compute, Program.LoadFrom,
         Program.StoreAt, Program.SetNext;
  }

  // ---------------------------------------------------------------- memory

  /** Byte k of a stored value. */
  function StoredByte(v: Val, w: nat, k: nat): Cell
    requires k < w
  {
    match v
    case Num(n) => Plain(LittleEndian(n, w)[k])
    case Ref(fd) => Part(fd, k)
  }

  /** A store writes the low bytes of a constant or a register at the sum of register and offset, modulo 2^64, and
      nothing else; one that would run past the address space faults. */
  lemma StoreIs<W>(p: Program<W>, s: State<W>, i: Insn, w: nat, base: nat)
    requires Next(p, s, i) && Get(s.regs, i.dst) == Num(base)
    requires (i.opcode, w) in {(0x62, 4), (0x6a, 2), (0x72, 1), (0x7a, 8), (0x63, 4), (0x6b, 2), (0x73, 1), (0x7b, 8)}
    ensures var a, s' := (base + i.offset) % TWO64, p.Step(s);
            var v := if i.opcode in {0x62, 0x6a, 0x72, 0x7a} then Num(i.imm % TWO64) else Get(s.regs, i.src);
            if a + w > TWO64 then s' == s.(status := Ebpf.Faulted)
            else s' == s.(pc := s.pc + 1, mem := s'.mem) &&
                 forall k :: CellAt(s'.mem, k) == if a <= k < a + w then StoredByte(v, w, k - a) else CellAt(s.mem, k)
  {
    hide LittleEndian, Put, Program.Wide, Program.Call, Program.Enter, Program.Leave, Program.Atomic, Program.Compute,
         Program.LoadFrom;
  }

  /** A load reads that many bytes, as a number if they are a number's. */
  lemma LoadIs<W>(p: Program<W>, s: State<W>, i: Insn, w: nat, base: nat)
    requires Next(p, s, i) && Get(s.regs, i.src) == Num(base)
    requires (i.opcode, w) in {(0x61, 4), (0x69, 2), (0x71, 1), (0x79, 8)}
    requires forall k :: CellAt(s.mem, k).Plain?
    ensures var a, s' := (base + i.offset) % TWO64, p.Step(s);
            if a + w > TWO64 then s' == s.(status := Ebpf.Faulted)
            else s' == s.(pc := s.pc + 1, regs := s.regs[i.dst := Num(LoadWord(Seen(s.mem), a, w))])
  {
    hide FromLittleEndian, Take, Load, Program.Step, Seen;
    StepLoads(p, s, i, w);
    TakenBytes(s.mem, (base + i.offset) % TWO64, w);
  }

  lemma TakenBytes(mem: Cells, a: int, w: nat)
    requires forall k :: CellAt(mem, k).Plain?
    ensures AllPlain(Take(mem, a, w)) && BytesOf(Take(mem, a, w)) == Load(Seen(mem), a, w)
  {
    hide Take, Load, Seen;
    var cells, bytes := Take(mem, a, w), Load(Seen(mem), a, w);
    assert forall k :: 0 <= k < w ==> BytesOf(cells)[k] == bytes[k];
  }

  /** A map reference stored whole is read back; part of one cannot be read. */
  lemma SpilledReference<W>(p: Program<W>, s: State<W>, i: Insn, w: nat, base: nat, fd: int)
    requires Next(p, s, i) && Get(s.regs, i.src) == Num(base) && (base + i.offset) % TWO64 + 8 <= TWO64
    requires (i.opcode, w) in {(0x61, 4), (0x69, 2), (0x71, 1), (0x79, 8)}
    requires forall k :: 0 <= k < 8 ==> CellAt(s.mem, (base + i.offset) % TWO64 + k) == Part(fd, k)
    ensures p.Step(s) == if w == 8 then s.(pc := s.pc + 1, regs := s.regs[i.dst := Ref(fd)])
                         else s.(status := Ebpf.Faulted)
  {
    hide Take, FromLittleEndian, Program.Step;
    StepLoads(p, s, i, w);
    var cells := Take(s.mem, (base + i.offset) % TWO64, w);
    assert cells[0] == Part(fd, 0);
    if w == 8 { assert cells == Parts(fd, 8); }
  }

  /** An atomic instruction replaces a 32-bit or 64-bit number; compare-and-exchange leaves what was there in r0, other
      fetching ones in their source. */
  lemma AtomicIs<W>(p: Program<W>, s: State<W>, i: Insn, w: nat, base: nat, v: nat, r0: nat)
    requires Next(p, s, i) && (i.opcode, w) in {(0xc3, 4), (0xdb, 8)} && Get(s.regs, i.dst) == Num(base)
    requires Get(s.regs, i.src) == Num(v) && Get(s.regs, 0) == Num(r0) && forall k :: CellAt(s.mem, k).Plain?
    ensures var a, s' := (base + i.offset) % TWO64, p.Step(s);
            if a + w > TWO64 then s' == s.(status := Ebpf.Faulted)
            else
              var (after, got) :=
                p.meaning.atomic(i, LoadWord(Seen(s.mem), a, w), v, if i.imm == 0xf1 then r0 else 0);
              s' == s.(pc := s.pc + 1, mem := s'.mem,
                       regs := if i.imm == 0xf1 then s.regs[0 := Num(got)]
                               else if i.imm % 2 == 1 then s.regs[i.src := Num(got)] else s.regs) &&
              forall k :: CellAt(s'.mem, k) ==
                          if a <= k < a + w then Plain(LittleEndian(after, w)[k - a]) else CellAt(s.mem, k)
  {
    hide FromLittleEndian, LittleEndian, Take, Load, Put, Program.Step, Seen;
    StepReplaces(p, s, i);
    TakenBytes(s.mem, (base + i.offset) % TWO64, w);
  }

  // ---------------------------------------------------------------- arithmetic and control

  /** A whole register is copied, a map reference included. */
  lemma MoveIs<W>(p: Program<W>, s: State<W>, i: Insn)
    requires Next(p, s, i) && i.opcode == 0xbf && i.offset == 0
    ensures p.Step(s) == s.(pc := s.pc + 1, regs := s.regs[i.dst := Get(s.regs, i.src)])
  {
  }

  /** Other arithmetic is on numbers: on the destination unless it moves, and on the source if bit 3 says so and it is
      no negation or byte swap. */
  lemma ArithmeticIs<W>(p: Program<W>, s: State<W>, i: Insn, d: nat, v: nat)
    requires Next(p, s, i) && (i.opcode % 8 == 4 || i.opcode % 8 == 7) && i.opcode < 256
    requires !(i.opcode == 0xbf && i.offset == 0) && Get(s.regs, i.dst) == Num(d) && Get(s.regs, i.src) == Num(v)
    ensures var left := if 0xb0 <= i.opcode < 0xc0 then 0 else d;
            var unary := 0x80 <= i.opcode < 0x90 || 0xd0 <= i.opcode < 0xe0;
            var right := if i.opcode % 16 >= 8 && !unary then v else 0;
            p.Step(s) == s.(pc := s.pc + 1, regs := s.regs[i.dst := Num(p.meaning.alu(i, left, right))])
  {
    hide Program.Step;
    StepComputes(p, s, i);
  }

  /** A jump goes on behind itself, or to there plus its offset; the long unconditional one plus its constant. */
  lemma JumpIs<W>(p: Program<W>, s: State<W>, i: Insn, d: nat, v: nat)
    requires Next(p, s, i) && (i.opcode % 8 == 5 || i.opcode % 8 == 6) && i.opcode !in {0x85, 0x8d, 0x95}
    requires Get(s.regs, i.dst) == Num(d) && Get(s.regs, i.src) == Num(v)
    ensures var left := if i.opcode == 0x05 || i.opcode == 0x06 then 0 else d;
            var right := if i.opcode % 16 >= 8 then v else 0;
            p.Step(s) == s.(pc := s.pc + 1 + if !p.meaning.taken(i, left, right) then 0
                                            else if i.opcode == 0x06 then i.imm else i.offset)
  {
    hide Program.Step;
    StepComputes(p, s, i);
  }

  /** A local call goes to its target one frame lower; when the callee leaves with the frame pointer it was given, the
      caller goes on behind the call with its r6 to r9, frame pointer and frames. */
  lemma CallReturns<W>(p: Program<W>, s: State<W>, u: State<W>, i: Insn, r10: nat)
    requires Next(p, s, i) && (i.opcode == 0x85 || i.opcode == 0x8d) && i.src == 1
    requires Get(s.regs, 10) == Num(r10) && 64 <= r10 < TWO64
    requires u.status == Ebpf.Running && 0 <= u.pc < |p.code| && p.code[u.pc].opcode == 0x95
    requires u.frames == p.Step(s).frames && Get(u.regs, 10) == Num(r10 - 64)
    ensures p.Step(s) == s.(pc := s.pc + 1 + i.imm, frames := u.frames, regs := s.regs[10 := Num(r10 - 64)])
    ensures var t := p.Step(u);
            t.pc == s.pc + 1 && t.frames == s.frames && t.mem == u.mem && t.world == u.world &&
            t.status == Ebpf.Running && (forall r :: 6 <= r <= 10 ==> Get(t.regs, r) == Get(s.regs, r)) &&
            forall r :: 0 <= r <= 5 ==> Get(t.regs, r) == Get(u.regs, r)
  {
    StepEnters(p, s, i);
    StepLeaves(p, u);
    hide Program.Step;
    assert U64(r10 - 64) == r10 - 64 && U64(r10 - 64 + 64) == r10;
    assert u.frames[..|u.frames| - 1] == s.frames;
  }

  lemma StepEnters<W>(p: Program<W>, s: State<W>, i: Insn)
    requires Next(p, s, i) && (i.opcode == 0x85 || i.opcode == 0x8d) && i.src == 1
    ensures p.Step(s) == p.Enter(s, i)
  {
    hide Program.Enter;
  }

  lemma StepLeaves<W>(p: Program<W>, s: State<W>)
    requires s.status == Ebpf.Running && 0 <= s.pc < |p.code| && p.code[s.pc].opcode == 0x95
    ensures p.Step(s) == p.Leave(s)
  {
    hide Program.Leave;
  }

  /** A program ends by leaving its outermost frame. */
  lemma ExitIs<W>(p: Program<W>, s: State<W>)
    requires s.status == Ebpf.Running && 0 <= s.pc < |p.code| && p.code[s.pc].opcode == 0x95 && s.frames == []
    ensures p.Step(s) == s.(status := Ebpf.Exited)
  {
  }

  /** A two-slot load: a constant from both slots; the pointer of the map with this id; or the address of that map's
      first value, plus the second slot's constant. */
  lemma WideIs<W>(p: Program<W>, s: State<W>, i: Insn)
    requires Next(p, s, i) && i.opcode == 0x18 && p.maps.ById? && i.src <= 2
    ensures if s.pc + 1 >= |p.code| then p.Step(s) == s.(status := Ebpf.Faulted)
            else
              var j := p.code[s.pc + 1];
              if j.opcode != 0 || j.dst != 0 || j.src != 0 || j.offset != 0 then p.Step(s) == s.(status := Ebpf.Faulted)
              else
                var table, id := p.maps.table, i.imm % TWO32;
                var v := if i.src == 0 then id + TWO32 * (j.imm % TWO32)
                         else if i.src == 1 then MapPtr(table, id)
                         else match MapBehind(table, MapPtr(table, id))
                           case None => j.imm % TWO64
                           case Some(m) => (p.meaning.firstValue(m, s.world) + j.imm) % TWO64;
                p.Step(s) == s.(pc := s.pc + 2, regs := s.regs[i.dst := Num(v)])
  {
    hide MapPtr, MapBehind;
  }

  /** Registers r to last as arguments, the map's left out. */
  function Arguments(regs: map<nat, Val>, r: nat, last: nat, skip: nat): seq<nat>
    requires forall q :: Get(regs, q).Num?
    decreases last + 1 - r
  {
    if r > last then []
    else (if r == skip then [] else [Get(regs, r).n]) + Arguments(regs, r + 1, last, skip)
  }

  lemma {:induction false} NumbersAre(regs: map<nat, Val>, r: nat, last: nat, skip: nat)
    requires forall q :: Get(regs, q).Num?
    ensures Numbers(regs, r, last, skip) == Some(Arguments(regs, r, last, skip))
    decreases last + 1 - r
  {
    if r <= last {
      NumbersAre(regs, r + 1, last, skip);
      var rest := Arguments(regs, r + 1, last, skip);
      assert [] + rest == rest;
    }
  }

  /** A helper gets the numbers in r1 up to its last argument, r5 at most, the map behind the pointer among them, and
      memory; r0 is its result, the bytes it writes are written, and the world is as it leaves it. */
  lemma HelperIs<W>(p: Program<W>, s: State<W>, i: Insn)
    requires Next(p, s, i) && (i.opcode == 0x85 || i.opcode == 0x8d) && i.src != 1 && p.maps.ById?
    requires (forall r :: Get(s.regs, r).Num?) && forall k :: CellAt(s.mem, k).Plain?
    ensures var h, s' := i.imm, p.Step(s);
            var skip := p.meaning.mapArg(h);
            var map1 := if 1 <= skip <= 5 then MapBehind(p.maps.table, Get(s.regs, skip).n) else None;
            var last := if p.meaning.arity(h) < 5 then p.meaning.arity(h) else 5;
            var (r0, writes, world) :=
              p.meaning.helper(h, map1, Arguments(s.regs, 1, last, skip), Seen(s.mem), s.world);
            s' == s.(pc := s.pc + 1, regs := s.regs[0 := Num(r0)], mem := s'.mem, world := world) &&
            forall k :: CellAt(s'.mem, k) == if k in writes then Plain(writes[k]) else CellAt(s.mem, k)
  {
    hide MapBehind, Numbers, Arguments, Seen;
    var skip := p.meaning.mapArg(i.imm);
    NumbersAre(s.regs, 1, if p.meaning.arity(i.imm) < 5 then p.meaning.arity(i.imm) else 5, skip);
  }

  /** Instructions take one slot, but two-slot loads two. */
  lemma WidthIs(code: seq<Insn>, k: nat)
    requires k < |code|
    ensures Width(code, k) == if code[k].opcode == 0x18 && k + 1 < |code| then 2 else 1
  {
  }

  // ---------------------------------------------------------------- the interpreter for generated code

  ghost predicate SameFrames(a: seq<Saved>, b: seq<Ebpf.Frame>) {
    |a| == |b| &&
    forall k :: 0 <= k < |a| ==> a[k] == Saved(b[k].ret, Num(b[k].r6), Num(b[k].r7), Num(b[k].r8), Num(b[k].r9))
  }

  ghost predicate SameRegs(a: map<nat, Val>, b: Ebpf.Registers) {
    forall r :: Get(a, r) == Num(Ebpf.Reg(b, r))
  }

  ghost predicate SameMem(a: Cells, b: Memory) {
    forall k :: CellAt(a, k) == Plain(Peek(b, k))
  }

  /** Both are at the same place with the same numbers. */
  ghost predicate Same<W>(s: State<W>, u: Ebpf.State) {
    s.pc == u.pc && s.status == u.status && SameFrames(s.frames, u.frames) && SameRegs(s.regs, u.regs) &&
    SameMem(s.mem, u.mem)
  }

  /** An instruction that both spell out, or that their parameters agree on. */
  ghost predicate Shared<W>(p: Program<W>, vm: Ebpf.Vm, u: Ebpf.State, i: Insn) {
    (i.opcode == 0x18 && i.src == 0) || i.opcode == 0x95 || Ebpf.IsLocalCall(i) ||
    i.opcode in {0x62, 0x6a, 0x72, 0x7a, 0x63, 0x6b, 0x73, 0x7b} ||
    (i.opcode == 0xbf && i.offset == 0) ||
    (Ebpf.IsJump(i) && forall d: nat, v: nat ::
      p.meaning.taken(i, d, v) <==> i.opcode == 0x05 || i.opcode == 0x06 || vm.taken(i, u.regs)) ||
    (i.opcode == 0x17 && forall d: nat, v: nat :: p.meaning.alu(i, d, v) == (d - i.imm) % TWO64)
  }

  lemma PutSame(a: Cells, b: Memory, at: int, n: nat, w: nat)
    requires SameMem(a, b)
    ensures SameMem(Put(a, at, CellsOf(Num(n), w)), StoreWord(b, at, n, w))
  {
    hide LittleEndian, Put, Store, CellAt, Peek;
  }

  lemma SetSame(a: map<nat, Val>, b: Ebpf.Registers, r: nat, n: nat)
    requires SameRegs(a, b)
    ensures SameRegs(a[r := Num(n)], b[r := n])
  {
    var a', b' := a[r := Num(n)], b[r := n];
    forall q
      ensures Get(a', q) == Num(Ebpf.Reg(b', q))
    {
      assert Get(a, q) == Num(Ebpf.Reg(b, q));
    }
  }

  lemma EnterSame<W>(p: Program<W>, vm: Ebpf.Vm, s: State<W>, u: Ebpf.State, i: Insn)
    requires Same(s, u)
    ensures Same(p.Enter(s, i), vm.Enter(u, i))
  {
    hide Ebpf.Target, SameMem;
    assert forall r :: Get(s.regs, r) == Num(Ebpf.Reg(u.regs, r));
    SetSame(s.regs, u.regs, 10, U64(Ebpf.Reg(u.regs, 10) - Ebpf.FRAME_SIZE));
    hide SameRegs;
  }

  lemma LeaveSame<W>(p: Program<W>, vm: Ebpf.Vm, s: State<W>, u: Ebpf.State)
    requires Same(s, u)
    ensures Same(p.Leave(s), vm.Leave(u))
  {
    hide SameMem;
    if u.frames != [] {
      var f := u.frames[|u.frames| - 1];
      var r10 := U64(Ebpf.Reg(u.regs, 10) + Ebpf.FRAME_SIZE);
      assert Get(s.regs, 10) == Num(Ebpf.Reg(u.regs, 10));
      SetSame(s.regs, u.regs, 6, f.r6);
      SetSame(s.regs[6 := Num(f.r6)], u.regs[6 := f.r6], 7, f.r7);
      var a, b := s.regs[6 := Num(f.r6)][7 := Num(f.r7)], u.regs[6 := f.r6][7 := f.r7];
      SetSame(a, b, 8, f.r8);
      SetSame(a[8 := Num(f.r8)], b[8 := f.r8], 9, f.r9);
      SetSame(a[8 := Num(f.r8)][9 := Num(f.r9)], b[8 := f.r8][9 := f.r9], 10, r10);
    }
    hide SameRegs;
  }

  lemma WideSame<W>(p: Program<W>, vm: Ebpf.Vm, s: State<W>, u: Ebpf.State, i: Insn)
    requires p.code == vm.code && Same(s, u) && Next(p, s, i) && i.opcode == 0x18 && i.src == 0
    ensures Same(p.Step(s), vm.Step(u))
  {
    hide SameMem, SameFrames, SameRegs;
    if s.pc + 1 < |p.code| { SetSame(s.regs, u.regs, i.dst, Ebpf.WideImm(i.imm, p.code[s.pc + 1].imm)); }
  }

  lemma MoveSame<W>(p: Program<W>, vm: Ebpf.Vm, s: State<W>, u: Ebpf.State, i: Insn)
    requires p.code == vm.code && Same(s, u) && Next(p, s, i) && i.opcode == 0xbf && i.offset == 0
    ensures Same(p.Step(s), vm.Step(u))
  {
    SourceIs(s, u, i.src);
    SetSame(s.regs, u.regs, i.dst, Ebpf.Reg(u.regs, i.src));
    hide SameMem, SameFrames, SameRegs;
  }

  lemma SourceIs<W>(s: State<W>, u: Ebpf.State, r: nat)
    requires Same(s, u)
    ensures Get(s.regs, r) == Num(Ebpf.Reg(u.regs, r))
  {
  }

  lemma SubtractSame<W>(p: Program<W>, vm: Ebpf.Vm, s: State<W>, u: Ebpf.State, i: Insn)
    requires p.code == vm.code && Same(s, u) && Next(p, s, i) && i.opcode == 0x17 && Shared(p, vm, u, i)
    ensures Same(p.Step(s), vm.Step(u))
  {
    hide SameMem, SameFrames, SameRegs, Program.Step;
    StepComputes(p, s, i);
    SourceIs(s, u, i.dst);
    SourceIs(s, u, i.src);
    var d := Ebpf.Reg(u.regs, i.dst);
    assert p.meaning.alu(i, d, 0) == (d - i.imm) % TWO64;
    SetSame(s.regs, u.regs, i.dst, U64(d - i.imm));
  }

  lemma JumpSame<W>(p: Program<W>, vm: Ebpf.Vm, s: State<W>, u: Ebpf.State, i: Insn)
    requires p.code == vm.code && Same(s, u) && Next(p, s, i) && Ebpf.IsJump(i)
    requires forall d: nat, v: nat ::
               p.meaning.taken(i, d, v) <==> i.opcode == 0x05 || i.opcode == 0x06 || vm.taken(i, u.regs)
    ensures Same(p.Step(s), vm.Step(u))
  {
    hide SameMem, SameFrames, SameRegs, Ebpf.Target, Program.Step, Ebpf.Vm.Step;
    SourceIs(s, u, i.dst);
    SourceIs(s, u, i.src);
    StepComputes(p, s, i);
    VmJumps(vm, u, i);
  }

  lemma VmJumps(vm: Ebpf.Vm, u: Ebpf.State, i: Insn)
    requires u.status == Ebpf.Running && 0 <= u.pc < |vm.code| && vm.code[u.pc] == i && Ebpf.IsJump(i)
    ensures vm.Step(u) == u.(pc := if i.opcode == 0x05 || i.opcode == 0x06 || vm.taken(i, u.regs)
                                   then Ebpf.Target(u.pc, i) else u.pc + 1)
  {
    hide Ebpf.Vm.Load64, Ebpf.Vm.Enter, Ebpf.Vm.Leave, Ebpf.Vm.StoreAt, Ebpf.Target;
  }

  lemma StoreSame<W>(p: Program<W>, vm: Ebpf.Vm, s: State<W>, u: Ebpf.State, i: Insn)
    requires p.code == vm.code && Same(s, u) && Next(p, s, i) && Ebpf.IsStore(i)
    ensures Same(p.Step(s), vm.Step(u))
  {
    hide SameMem, SameFrames, SameRegs, Put, StoreWord, CellsOf, Ebpf.AccessWidth;
    SourceIs(s, u, i.dst);
    SourceIs(s, u, i.src);
    var a := U64(Ebpf.Reg(u.regs, i.dst) + i.offset);
    var v := if i.opcode % 8 == 2 then U64(i.imm) else Ebpf.Reg(u.regs, i.src);
    PutSame(s.mem, u.mem, a, v, Ebpf.AccessWidth(i));
  }

  lemma CallSame<W>(p: Program<W>, vm: Ebpf.Vm, s: State<W>, u: Ebpf.State, i: Insn)
    requires p.code == vm.code && Same(s, u) && Next(p, s, i) && (i.opcode == 0x95 || Ebpf.IsLocalCall(i))
    ensures Same(p.Step(s), vm.Step(u))
  {
    hide SameMem, SameFrames, SameRegs, Program.Enter, Program.Leave, Ebpf.Vm.Enter, Ebpf.Vm.Leave;
    EnterSame(p, vm, s, u, i);
    LeaveSame(p, vm, s, u);
  }

  /** Where neither calls a helper, reads memory or does arithmetic that is a parameter, the machine of relocated
      programs and the interpreter for generated code take the same step. */
  lemma InterpretersAgree<W>(p: Program<W>, vm: Ebpf.Vm, s: State<W>, u: Ebpf.State, i: Insn)
    requires p.code == vm.code && Same(s, u) && Next(p, s, i) && Shared(p, vm, u, i)
    ensures Same(p.Step(s), vm.Step(u))
  {
    hide Same, Program.Step, Ebpf.Vm.Step;
    if i.opcode == 0x18 {
      WideSame(p, vm, s, u, i);
    } else if i.opcode == 0x95 || Ebpf.IsLocalCall(i) {
      CallSame(p, vm, s, u, i);
    } else if Ebpf.IsJump(i) {
      JumpSame(p, vm, s, u, i);
    } else if Ebpf.IsStore(i) {
      StoreSame(p, vm, s, u, i);
    } else if i.opcode == 0xbf {
      MoveSame(p, vm, s, u, i);
    } else {
      SubtractSame(p, vm, s, u, i);
    }
  }
}
