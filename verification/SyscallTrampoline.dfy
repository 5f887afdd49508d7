/** The syscall trampoline on x86-64: patched syscall sites call into a sled of nops at address zero, whose end
    jumps to a routine that hands number and arguments to a hook. */
module X86 {
  import opened Words

  datatype Reg = RAX | RBX | RCX | RDX | RSI | RDI | RBP | RSP | R8 | R9 | R10 | R11 | R12 | R13 | R14 | R15

  type Registers = map<Reg, nat>

  datatype Op =
    | Nop
    | Push(r: Reg)
    | Pop(r: Reg)
    | MovAbs(r: Reg, imm: nat)
    | Jmp(r: Reg)
    | Call(r: Reg)
    | Mov(dst: Reg, src: Reg)
    | Load(dst: Reg, base: Reg, disp: nat)
    | PushMem(base: Reg)
    | Align16(r: Reg)                   // and $-16, r
    | CompareJump(r: Reg, k: nat, target: nat)  // cmp $k, r; je target
    | CallFar(target: nat)
    | Leave
    | Ret
    | Syscall

  datatype Decoded = Decoded(op: Op, size: nat) | Undecodable

  /** The byte sequences the tracer writes, and the instruction it replaces. */
  function Decode(code: Memory, a: int): Decoded {
    var b0, b1 := Peek(code, a), Peek(code, a + 1);
    if b0 == 0x90 then Decoded(Nop, 1)
    else if b0 == 0x50 then Decoded(Push(RAX), 1)
    else if b0 == 0x48 && b1 == 0xb8 then Decoded(MovAbs(RAX, LoadWord(code, a + 2, 8)), 10)
    else if b0 == 0xff && b1 == 0xe0 then Decoded(Jmp(RAX), 2)
    else if b0 == 0xff && b1 == 0xd0 then Decoded(Call(RAX), 2)
    else if b0 == 0x0f && b1 == 0x05 then Decoded(Syscall, 2)
    else Undecodable
  }

  /** Which bytes are which instruction, both ways. */
  lemma DecodedIff(code: Memory, a: int)
    ensures var b0, b1, d := Peek(code, a), Peek(code, a + 1), Decode(code, a);
            (d == Decoded(Nop, 1) <==> b0 == 0x90) && (d == Decoded(Push(RAX), 1) <==> b0 == 0x50) &&
            (d == Decoded(MovAbs(RAX, LoadWord(code, a + 2, 8)), 10) <==> b0 == 0x48 && b1 == 0xb8) &&
            (d == Decoded(Jmp(RAX), 2) <==> b0 == 0xff && b1 == 0xe0) &&
            (d == Decoded(Call(RAX), 2) <==> b0 == 0xff && b1 == 0xd0) &&
            (d == Decoded(Syscall, 2) <==> b0 == 0x0f && b1 == 0x05)
  {
    hide LoadWord, Peek;
  }

  datatype State = State(rip: nat, regs: Registers, mem: Memory)

  function Val(s: State, r: Reg): nat {
    if r in s.regs then s.regs[r] else 0
  }

  function Set(s: State, r: Reg, v: nat): State {
    s.(regs := s.regs[r := v])
  }

  /** Pushes a 64-bit value; the caller sees to it that there is stack room. */
  function PushVal(s: State, v: nat): State {
    var sp := U64(Val(s, RSP) - 8);
    s.(regs := s.regs[RSP := sp], mem := StoreWord(s.mem, sp, v, 8))
  }

  function PopInto(s: State, r: Reg): State {
    var v := LoadWord(s.mem, Val(s, RSP), 8);
    s.(regs := s.regs[RSP := U64(Val(s, RSP) + 8)][r := v])
  }

  function Exec(op: Op, size: nat, s: State): State {
    var next := s.(rip := s.rip + size);
    match op
    case Nop => next
    case Push(r) => PushVal(next, Val(s, r))
    case Pop(r) => PopInto(next, r)
    case MovAbs(r, imm) => Set(next, r, imm)
    case Jmp(r) => s.(rip := Val(s, r))
    case Call(r) => PushVal(s, s.rip + size).(rip := Val(s, r))
    case Mov(dst, src) => Set(next, dst, Val(s, src))
    case Load(dst, base, disp) => Set(next, dst, LoadWord(s.mem, Val(s, base) + disp, 8))
    case PushMem(base) => PushVal(next, LoadWord(s.mem, Val(s, base), 8))
    case Align16(r) => Set(next, r, Val(s, r) - Val(s, r) % 16)
    case CompareJump(r, k, target) => if Val(s, r) == k then s.(rip := target) else next
    case CallFar(target) => PushVal(s, s.rip + size).(rip := target)
    case Leave => PopInto(Set(next, RSP, Val(s, RBP)), RBP)
    case Ret =>
      var v := LoadWord(s.mem, Val(s, RSP), 8);
      s.(rip := v, regs := s.regs[RSP := U64(Val(s, RSP) + 8)])
    case Syscall => next
  }
}

module SyscallTrampoline {
  import opened Words
  import opened X86

  const NR_SYSCALLS := 512
  const RT_SIGRETURN := 15

  // ---------------------------------------------------------------- writing the sled and the sites

  /** push %rax; movabs $target, %rax; jmp *%rax */
  function JumpCode(target: nat): (r: seq<Byte>)
    ensures |r| == 13
  {
    [0x50, 0x48, 0xb8] + LittleEndian(target, 8) + [0xff, 0xe0]
  }

  /** The bytes the page at address zero starts with. */
  function SledBytes(target: nat): (r: seq<Byte>)
    ensures |r| == NR_SYSCALLS + 13
  {
    seq(NR_SYSCALLS, i => 0x90) + JumpCode(target)
  }

  method WriteSled(page: array<Byte>, target: nat)
    requires page.Length == 0x1000 && target < TWO64
    modifies page
    ensures page[..] == SledBytes(target) + old(page[NR_SYSCALLS + 13..])
  {
    for i := 0 to NR_SYSCALLS
      invariant forall k :: 0 <= k < i ==> page[k] == 0x90
      invariant forall k :: i <= k < page.Length ==> page[k] == old(page[k])
    {
      page[i] := 0x90;
    }
    var codes: seq<Byte> := [0x50, 0x48, 0xb8];
    var rest := target;
    for i := 0 to 8
      invariant |codes| == 3 + i
      invariant codes + LittleEndian(rest, 8 - i) == [0x50, 0x48, 0xb8] + LittleEndian(target, 8)
    {
      assert LittleEndian(rest, 8 - i) == [rest % 256] + LittleEndian(rest / 256, 8 - i - 1);
      codes := codes + [rest % 256];
      rest := rest / 256;
    }
    assert LittleEndian(rest, 0) == [];
    codes := codes + [0xff, 0xe0];
    assert codes == JumpCode(target);
    for i := 0 to |codes|
      invariant forall k :: 0 <= k < NR_SYSCALLS ==> page[k] == 0x90
      invariant forall k :: 0 <= k < i ==> page[NR_SYSCALLS + k] == codes[k]
      invariant forall k :: NR_SYSCALLS + i <= k < page.Length ==> page[k] == old(page[k])
    {
      page[NR_SYSCALLS + i] := codes[i];
    }
  }

  /** One instruction as the disassembler reports it. */
  datatype Insn = Insn(size: nat, entersKernel: bool)

  function OffsetOf(insns: seq<Insn>, n: nat): nat
    requires n <= |insns|
  {
    if n == 0 then 0 else OffsetOf(insns, n - 1) + insns[n - 1].size
  }

  lemma {:induction false} OffsetGrows(insns: seq<Insn>, i: nat, j: nat)
    requires i <= j <= |insns|
    ensures OffsetOf(insns, i) <= OffsetOf(insns, j)
    ensures i < j ==> OffsetOf(insns, i) + insns[i].size <= OffsetOf(insns, j)
    decreases j
  {
    if i < j { OffsetGrows(insns, i, j - 1); }
  }

  /** A well-formed report: no empty instruction, kernel entries take two bytes. */
  predicate Reported(insns: seq<Insn>, len: nat) {
    OffsetOf(insns, |insns|) <= len &&
    forall i :: 0 <= i < |insns| ==> insns[i].size > 0 && (insns[i].entersKernel ==> insns[i].size == 2)
  }

  /** The segment after the first n reported instructions. */
  function Rewritten(code: seq<Byte>, insns: seq<Insn>, n: nat, base: nat, own: nat): (r: seq<Byte>)
    requires n <= |insns| && Reported(insns, |code|)
    ensures |r| == |code|
  {
    if n == 0 then code else
      var r := Rewritten(code, insns, n - 1, base, own);
      OffsetGrows(insns, n - 1, |insns|);
      var at := OffsetOf(insns, n - 1);
      if insns[n - 1].entersKernel && base + at != own then r[at := 0xff][at + 1 := 0xd0] else r
  }

  /** Overwrites every instruction that enters the kernel by `call *%rax`. The disassembler may stop early; what
      it does not report stays. */
  method RewriteSegment(code: array<Byte>, insns: seq<Insn>, base: nat, own: nat)
    requires Reported(insns, code.Length)
    modifies code
    ensures code[..] == Rewritten(old(code[..]), insns, |insns|, base, own)
  {
    var at := 0;
    var n := 0;
    while n < |insns| && at < code.Length
      invariant 0 <= n <= |insns| && at == OffsetOf(insns, n)
      invariant code[..] == Rewritten(old(code[..]), insns, n, base, own)
      decreases |insns| - n
    {
      OffsetGrows(insns, n, |insns|);
      if insns[n].entersKernel && base + at != own {
        code[at] := 0xff;
        code[at + 1] := 0xd0;
      }
      at := at + insns[n].size;
      n := n + 1;
    }
    if n < |insns| { OffsetGrows(insns, n, |insns|); }
  }

  /** Every reported kernel entry but the tracer's own becomes `call *%rax`. */
  lemma {:induction false} EntriesPatched(code: seq<Byte>, insns: seq<Insn>, n: nat, base: nat, own: nat, j: nat)
    requires j < n <= |insns| && Reported(insns, |code|)
    requires insns[j].entersKernel && base + OffsetOf(insns, j) != own
    ensures OffsetOf(insns, j) + 1 < |code|
    ensures var r := Rewritten(code, insns, n, base, own);
            r[OffsetOf(insns, j)] == 0xff && r[OffsetOf(insns, j) + 1] == 0xd0
    decreases n
  {
    OffsetGrows(insns, j, |insns|);
    OffsetGrows(insns, n - 1, |insns|);
    if j < n - 1 {
      EntriesPatched(code, insns, n - 1, base, own, j);
      OffsetGrows(insns, j, n - 1);
    }
  }

  /** Nothing else changes. */
  lemma {:induction false} RestUnchanged(code: seq<Byte>, insns: seq<Insn>, n: nat, base: nat, own: nat, k: nat)
    requires n <= |insns| && Reported(insns, |code|) && k < |code|
    requires forall j :: 0 <= j < n && insns[j].entersKernel && base + OffsetOf(insns, j) != own ==>
               k < OffsetOf(insns, j) || OffsetOf(insns, j) + 2 <= k
    ensures Rewritten(code, insns, n, base, own)[k] == code[k]
  {
    if n > 0 {
      OffsetGrows(insns, n - 1, |insns|);
      RestUnchanged(code, insns, n - 1, base, own, k);
    }
  }
}
