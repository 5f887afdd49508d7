/** eBPF slots and a step interpreter. Instructions whose effect is confined to registers and memory are given
    by parameters; control flow and the instructions of the generated code are spelled out. */
module Ebpf {
  import opened Words

  datatype Insn = Insn(opcode: nat, dst: nat, src: nat, offset: int, imm: int)

  const SUB64_IMM := 0x17
  const LDDW := 0x18
  const STDW := 0x7a
  const STXDW := 0x7b
  const MOV64_REG := 0xbf
  const JA := 0x05
  const JA_IMM := 0x06
  const CALL := 0x85
  const EXIT := 0x95
  /** What a local call takes off the stack pointer. */
  const FRAME_SIZE := 64

  type Registers = map<nat, nat>

  function Reg(regs: Registers, r: nat): nat {
    if r in regs then regs[r] else 0
  }

  /** Return slot and saved r6 to r9 of a local call. */
  datatype Frame = Frame(ret: int, r6: nat, r7: nat, r8: nat, r9: nat)

  datatype Status = Running | Exited | Faulted

  datatype State = State(pc: int, regs: Registers, mem: Memory, frames: seq<Frame>, status: Status)

  /** A call; clang also writes one with the register-source bit set. */
  predicate IsCall(i: Insn) {
    i.opcode in {CALL, CALL + 8}
  }

  predicate IsJump(i: Insn) {
    i.opcode % 8 in {5, 6} && !IsCall(i) && i.opcode != EXIT
  }

  predicate IsLocalCall(i: Insn) {
    IsCall(i) && i.src == 1
  }

  /** The slot a jump or local call at pc leads to. */
  function Target(pc: int, i: Insn): int {
    if i.opcode == JA_IMM || IsLocalCall(i) then pc + 1 + i.imm else pc + 1 + i.offset
  }

  /** A plain store, of a constant (class 2) or of a register (class 3). */
  predicate IsStore(i: Insn) {
    i.opcode % 8 in {2, 3} && i.opcode / 32 == 3
  }

  /** Bytes moved by a plain load or store. */
  function AccessWidth(i: Insn): (w: nat)
    ensures w in {1, 2, 4, 8}
  {
    match (i.opcode / 8) % 4
    case 0 => 4
    case 1 => 2
    case 2 => 1
    case _ => 8
  }

  predicate IsSecondSlot(i: Insn) {
    i.opcode == 0 && i.dst == 0 && i.src == 0 && i.offset == 0
  }

  /** The 64-bit constant of a two-slot load. */
  function WideImm(low: int, high: int): (r: nat)
    ensures r < TWO64
  {
    U32(low) + TWO32 * U32(high)
  }

  /** A program; `other` gives the effect of every instruction not spelled out here, helper calls included,
      `wide` that of two-slot loads of addresses, and `taken` tells when a conditional jump is taken. */
  datatype Vm = Vm(code: seq<Insn>,
                   other: (Insn, Registers, Memory) -> (Registers, Memory),
                   wide: (Insn, int, Registers, Memory) -> (Registers, Memory),
                   taken: (Insn, Registers) -> bool)
  {
    function Fault(s: State): State {
      s.(status := Faulted)
    }

    /** A store of w bytes; one that would run past the address space faults. */
    function StoreAt(s: State, address: nat, v: nat, w: nat): State {
      if address + w <= TWO64 then s.(pc := s.pc + 1, mem := StoreWord(s.mem, address, v, w)) else Fault(s)
    }

    function Load64(s: State, i: Insn): State {
      if s.pc + 1 >= |code| || s.pc < 0 || !IsSecondSlot(code[s.pc + 1]) then Fault(s)
      else
        var high := code[s.pc + 1].imm;
        if i.src == 0 then s.(pc := s.pc + 2, regs := s.regs[i.dst := WideImm(i.imm, high)])
        else
          var (regs, mem) := wide(i, high, s.regs, s.mem);
          s.(pc := s.pc + 2, regs := regs, mem := mem)
    }

    function Enter(s: State, i: Insn): State {
      var saved := Frame(s.pc + 1, Reg(s.regs, 6), Reg(s.regs, 7), Reg(s.regs, 8), Reg(s.regs, 9));
      s.(pc := Target(s.pc, i), frames := s.frames + [saved],
         regs := s.regs[10 := U64(Reg(s.regs, 10) - FRAME_SIZE)])
    }

    function Leave(s: State): State {
      if s.frames == [] then s.(status := Exited)
      else
        var f := s.frames[|s.frames| - 1];
        s.(pc := f.ret, frames := s.frames[..|s.frames| - 1],
           regs := s.regs[6 := f.r6][7 := f.r7][8 := f.r8][9 := f.r9][10 := U64(Reg(s.regs, 10) + FRAME_SIZE)])
    }

    function Step(s: State): State {
      if s.status != Running then s
      else if !(0 <= s.pc < |code|) then Fault(s)
      else
        var i := code[s.pc];
        if i.opcode == LDDW then Load64(s, i)
        else if i.opcode == EXIT then Leave(s)
        else if IsLocalCall(i) then Enter(s, i)
        else if IsJump(i) then
          s.(pc := if i.opcode in {JA, JA_IMM} || taken(i, s.regs) then Target(s.pc, i) else s.pc + 1)
        else if IsStore(i) then
          var v := if i.opcode % 8 == 2 then U64(i.imm) else Reg(s.regs, i.src);
          StoreAt(s, U64(Reg(s.regs, i.dst) + i.offset), v, AccessWidth(i))
        else if i.opcode == SUB64_IMM then
          s.(pc := s.pc + 1, regs := s.regs[i.dst := U64(Reg(s.regs, i.dst) - i.imm)])
        else if i.opcode == MOV64_REG then s.(pc := s.pc + 1, regs := s.regs[i.dst := Reg(s.regs, i.src)])
        else
          var (regs, mem) := other(i, s.regs, s.mem);
          s.(pc := s.pc + 1, regs := regs, mem := mem)
    }

    function Run(n: nat, s: State): State {
      if n == 0 then s else Step(Run(n - 1, s))
    }

    lemma {:induction false} RunSum(a: nat, b: nat, s: State)
      ensures Run(a + b, s) == Run(b, Run(a, s))
      decreases b
    {
      hide Step;
      if b > 0 { RunSum(a, b - 1, s); }
    }
  }

  // ---------------------------------------------------------------- local calls

  /** A local call goes to its target one frame lower, and whatever the callee does, when it leaves with the frame
      pointer it was given the caller goes on behind the call with its r6 to r9, its frame pointer and its frames. */
  lemma LocalCallReturns(vm: Vm, s: State, u: State)
    requires s.status == Running && 0 <= s.pc < |vm.code| && IsLocalCall(vm.code[s.pc]) && 64 <= Reg(s.regs, 10) < TWO64
    requires u.status == Running && 0 <= u.pc < |vm.code| && vm.code[u.pc].opcode == 0x95
    requires u.frames == vm.Step(s).frames && Reg(u.regs, 10) == Reg(vm.Step(s).regs, 10)
    ensures vm.Step(s).pc == s.pc + 1 + vm.code[s.pc].imm && Reg(vm.Step(s).regs, 10) == Reg(s.regs, 10) - 64
    ensures var t := vm.Step(u);
            t.pc == s.pc + 1 && t.frames == s.frames && t.mem == u.mem && t.status == Running &&
            (forall r :: 6 <= r <= 10 ==> Reg(t.regs, r) == Reg(s.regs, r)) &&
            forall r :: 0 <= r <= 5 ==> Reg(t.regs, r) == Reg(u.regs, r)
  {
    hide Vm.Step;
    StepEnters(vm, s);
    StepLeaves(vm, u);
    assert u.frames[..|u.frames| - 1] == s.frames;
  }

  /** Loads, arithmetic but subtraction and move, and helper calls do what the parameters say and go on to the next
      slot; two-slot loads of addresses to the one after that. */
  lemma ParameterSteps(vm: Vm, s: State, i: Insn)
    requires s.status == Running && 0 <= s.pc < |vm.code| && vm.code[s.pc] == i
    ensures (i.opcode % 8 in {1, 4, 7} && i.opcode !in {0x17, 0xbf}) || (i.opcode == 0x85 && i.src != 1) ==>
              var (regs, mem) := vm.other(i, s.regs, s.mem); vm.Step(s) == s.(pc := s.pc + 1, regs := regs, mem := mem)
    ensures i.opcode == 0x18 && i.src != 0 && s.pc + 1 < |vm.code| && IsSecondSlot(vm.code[s.pc + 1]) ==>
              var (regs, mem) := vm.wide(i, vm.code[s.pc + 1].imm, s.regs, s.mem);
              vm.Step(s) == s.(pc := s.pc + 2, regs := regs, mem := mem)
  {
    hide Vm.Leave, Vm.Enter, Vm.StoreAt;
  }

  lemma StepEnters(vm: Vm, s: State)
    requires s.status == Running && 0 <= s.pc < |vm.code| && IsLocalCall(vm.code[s.pc])
    ensures vm.Step(s) == vm.Enter(s, vm.code[s.pc])
  {
    hide Vm.Load64, Vm.Leave, Vm.Enter, Vm.StoreAt;
  }

  lemma StepLeaves(vm: Vm, s: State)
    requires s.status == Running && 0 <= s.pc < |vm.code| && vm.code[s.pc].opcode == 0x95
    ensures vm.Step(s) == vm.Leave(s)
  {
    hide Vm.Load64, Vm.Leave, Vm.Enter, Vm.StoreAt;
  }

  // ---------------------------------------------------------------- code placed behind a prefix

  function ShiftedFrames(frames: seq<Frame>, d: nat): (r: seq<Frame>)
    ensures |r| == |frames| && forall k :: 0 <= k < |r| ==> r[k] == frames[k].(ret := frames[k].ret + d)
  {
    seq(|frames|, k requires 0 <= k < |frames| => frames[k].(ret := frames[k].ret + d))
  }

  /** The same state d slots further on. */
  function Shifted(s: State, d: nat): State {
    s.(pc := s.pc + d, frames := ShiftedFrames(s.frames, d))
  }

  /** No jump or local call leads in front of the first slot. */
  predicate StaysInside(code: seq<Insn>) {
    forall i :: 0 <= i < |code| && (IsJump(code[i]) || IsLocalCall(code[i])) ==> Target(i, code[i]) >= 0
  }

  ghost predicate Ahead(s: State) {
    s.pc >= 0 && forall k :: 0 <= k < |s.frames| ==> s.frames[k].ret >= 0
  }

  lemma AheadStep(vm: Vm, s: State)
    requires StaysInside(vm.code) && Ahead(s)
    ensures Ahead(vm.Step(s))
  {
  }

  lemma ShiftLeave(vm: Vm, prefix: seq<Insn>, s: State)
    ensures vm.(code := prefix + vm.code).Leave(Shifted(s, |prefix|)) == Shifted(vm.Leave(s), |prefix|)
  {
    var d := |prefix|;
    if s.frames != [] {
      assert ShiftedFrames(s.frames, d)[..|s.frames| - 1] == ShiftedFrames(s.frames[..|s.frames| - 1], d);
    }
  }

  lemma ShiftEnter(vm: Vm, prefix: seq<Insn>, s: State, i: Insn)
    ensures vm.(code := prefix + vm.code).Enter(Shifted(s, |prefix|), i) == Shifted(vm.Enter(s, i), |prefix|)
  {
    var d := |prefix|;
    var long := vm.(code := prefix + vm.code);
    assert ShiftedFrames(vm.Enter(s, i).frames, d) == long.Enter(Shifted(s, d), i).frames;
  }

  lemma ShiftLoad(vm: Vm, prefix: seq<Insn>, s: State, i: Insn)
    requires s.pc >= 0
    ensures vm.(code := prefix + vm.code).Load64(Shifted(s, |prefix|), i) == Shifted(vm.Load64(s, i), |prefix|)
  {
    assert s.pc + 1 < |vm.code| ==> (prefix + vm.code)[s.pc + |prefix| + 1] == vm.code[s.pc + 1];
  }

  lemma ShiftStep(vm: Vm, prefix: seq<Insn>, s: State)
    requires s.pc >= 0
    ensures vm.(code := prefix + vm.code).Step(Shifted(s, |prefix|)) == Shifted(vm.Step(s), |prefix|)
  {
    hide Vm.Leave, Vm.Enter, Vm.Load64, StoreWord;
    var d := |prefix|;
    var long := vm.(code := prefix + vm.code);
    if s.pc < |vm.code| {
      var i := vm.code[s.pc];
      assert long.code[s.pc + d] == i;
      ShiftLeave(vm, prefix, s);
      ShiftEnter(vm, prefix, s, i);
      ShiftLoad(vm, prefix, s, i);
    }
  }

  /** A program put behind any prefix runs step for step as it did alone, shifted by the prefix's length. */
  lemma {:induction false} ShiftRun(vm: Vm, prefix: seq<Insn>, s: State, n: nat)
    requires StaysInside(vm.code) && Ahead(s)
    ensures Ahead(vm.Run(n, s))
    ensures vm.(code := prefix + vm.code).Run(n, Shifted(s, |prefix|)) == Shifted(vm.Run(n, s), |prefix|)
  {
    hide Vm.Step, Ahead, StaysInside, Shifted;
    if n > 0 {
      ShiftRun(vm, prefix, s, n - 1);
      AheadStep(vm, vm.Run(n - 1, s));
      AheadPc(vm.Run(n - 1, s));
      ShiftStep(vm, prefix, vm.Run(n - 1, s));
    }
  }

  lemma AheadPc(s: State)
    requires Ahead(s)
    ensures s.pc >= 0
  {
  }

  /** The condition is needed: a first instruction that jumps in front of the program faults alone, but behind
      a prefix it lands in the prefix. */
  lemma EscapeRunsPrefix(vm: Vm, prefix: seq<Insn>, s: State)
    requires |vm.code| > 0 && vm.code[0].opcode == JA && -1 - |prefix| <= vm.code[0].offset < -1
    requires s.pc == 0 && s.status == Running
    ensures vm.Run(2, s).status == Faulted
    ensures var t := vm.(code := prefix + vm.code).Run(1, Shifted(s, |prefix|));
            t.status == Running && 0 <= t.pc < |prefix|
  {
    assert vm.Run(1, s) == vm.Step(s);
    var long := vm.(code := prefix + vm.code);
    assert long.code[|prefix|] == vm.code[0];
    assert long.Run(1, Shifted(s, |prefix|)) == long.Step(Shifted(s, |prefix|));
  }
}
