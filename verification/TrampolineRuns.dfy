/** Running a patched syscall site: through the sled, the hook routine and back. */
module TrampolineRuns {
  import opened Words
  import opened X86
  import opened SyscallTrampoline

  /** Code memory with the sled in place, the addresses of the two assembly routines and of the C++ hook. An
      instruction of an assembly routine counts as one address unit. */
  datatype Image = Image(code: Memory, hook: nat, orig: nat, cxx: nat)

  function HookCode(img: Image): (r: seq<Op>)
    ensures |r| == 23
  {
    [Pop(RAX), CompareJump(RAX, RT_SIGRETURN, img.orig + 7), Load(RCX, RSP, 0), Push(RBP), Mov(RBP, RSP), Align16(RSP),
     Push(RAX), Push(RDI), Push(RSI), Push(RDX), Push(R10), Push(R8), Push(R9),
     Load(RDI, RSP, 48), Load(RSI, RSP, 40), Load(RDX, RSP, 32), Load(RCX, RSP, 24), Load(R8, RSP, 16),
     Load(R9, RSP, 8),
     PushMem(RSP), CallFar(img.cxx), Leave, Ret]
  }

  function OrigCode(): (r: seq<Op>)
    ensures |r| == 9
  {
    [Mov(RAX, RDI), Mov(RDI, RSI), Mov(RSI, RDX), Mov(RDX, RCX), Mov(R10, R8), Mov(R8, R9), Load(R9, RSP, 8),
     Syscall, Ret]
  }

  function Fetch(img: Image, rip: nat): Decoded {
    if img.hook <= rip < img.hook + 23 then Decoded(HookCode(img)[rip - img.hook], 1)
    else if img.orig <= rip < img.orig + 9 then Decoded(OrigCode()[rip - img.orig], 1)
    else Decode(img.code, rip)
  }

  function Step(img: Image, s: State): State {
    match Fetch(img, s.rip)
    case Decoded(op, size) => Exec(op, size, s)
    case Undecodable => s
  }

  function Run(img: Image, n: nat, s: State): State {
    if n == 0 then s else Step(img, Run(img, n - 1, s))
  }

  lemma {:induction false} RunSum(img: Image, a: nat, b: nat, s: State)
    ensures Run(img, a + b, s) == Run(img, b, Run(img, a, s))
    decreases b
  {
    hide Step;
    if b > 0 { RunSum(img, a, b - 1, s); }
  }

  lemma RunOne(img: Image, s: State)
    ensures Run(img, 0, s) == s && Run(img, 1, s) == Step(img, s)
  {
    hide Step;
    assert Run(img, 0, s) == s;
  }

  /** The sled is in place and nothing overlaps. */
  ghost predicate Installed(img: Image) {
    (forall k :: 0 <= k < NR_SYSCALLS + 13 ==> Peek(img.code, k) == SledBytes(img.hook)[k]) &&
    0x1000 <= img.hook && 0x1000 <= img.orig && img.hook + 23 <= TWO64 &&
    (img.hook + 23 <= img.orig || img.orig + 9 <= img.hook)
  }

  /** A patched site about to make a system call. */
  ghost predicate AtSite(img: Image, s: State) {
    Installed(img) && Peek(img.code, s.rip) == 0xff && Peek(img.code, s.rip + 1) == 0xd0 &&
    (s.rip < img.hook || img.hook + 23 <= s.rip) && (s.rip < img.orig || img.orig + 9 <= s.rip) &&
    s.rip + 2 < TWO64 && 128 <= Val(s, RSP) < TWO64 && forall r :: Val(s, r) < TWO64
  }

  // ---------------------------------------------------------------- stacks

  /** Memory after pushing these values one by one from sp down. */
  function PushAll(m: Memory, sp: int, vs: seq<nat>): Memory {
    if vs == [] then m
    else StoreWord(PushAll(m, sp, vs[..|vs| - 1]), sp - 8 * |vs|, vs[|vs| - 1], 8)
  }

  lemma WordBack(m: Memory, a: int, v: nat)
    requires v < TWO64
    ensures LoadWord(StoreWord(m, a, v, 8), a, 8) == v
  {
    hide LoadWord, StoreWord;
    LoadStoredWord(m, a, v, 8);
    Pow256Of8();
  }

  lemma StoreElsewhere(m: Memory, a: int, v: nat, k: int)
    requires !(a <= k < a + 8)
    ensures Peek(StoreWord(m, a, v, 8), k) == Peek(m, k)
  {
    hide LittleEndian;
  }

  /** What was pushed last but |vs| - 1 - k is found at its place. */
  lemma {:induction false} PushedAt(m: Memory, sp: int, vs: seq<nat>, k: nat)
    requires k < |vs| && forall i :: 0 <= i < |vs| ==> vs[i] < TWO64
    ensures LoadWord(PushAll(m, sp, vs), sp - 8 * (k + 1), 8) == vs[k]
    decreases |vs|
  {
    hide LoadWord, StoreWord;
    var n := |vs| - 1;
    var m' := PushAll(m, sp, vs[..n]);
    if k == n {
      WordBack(m', sp - 8 * |vs|, vs[n]);
    } else {
      PushedAt(m, sp, vs[..n], k);
      forall a | sp - 8 * (k + 1) <= a < sp - 8 * (k + 1) + 8
        ensures Peek(PushAll(m, sp, vs), a) == Peek(m', a)
      {
        StoreElsewhere(m', sp - 8 * |vs|, vs[n], a);
      }
      LoadAgree(PushAll(m, sp, vs), m', sp - 8 * (k + 1), 8);
    }
  }

  lemma {:induction false} PushedBelow(m: Memory, sp: int, vs: seq<nat>, a: int)
    requires a >= sp
    ensures Peek(PushAll(m, sp, vs), a) == Peek(m, a)
  {
    hide StoreWord, Peek;
    if vs != [] {
      PushedBelow(m, sp, vs[..|vs| - 1], a);
      StoreElsewhere(PushAll(m, sp, vs[..|vs| - 1]), sp - 8 * |vs|, vs[|vs| - 1], a);
    }
  }

  lemma PushAllAppend(m: Memory, sp: int, vs: seq<nat>, v: nat)
    ensures PushAll(m, sp, vs + [v]) == StoreWord(PushAll(m, sp, vs), sp - 8 * (|vs| + 1), v, 8)
  {
    hide StoreWord;
    assert (vs + [v])[..|vs|] == vs;
  }

  // ---------------------------------------------------------------- from the site to the hook routine

  lemma {:induction false} Slides(img: Image, s: State, k: nat)
    requires Installed(img) && s.rip + k <= NR_SYSCALLS
    ensures Run(img, k, s) == s.(rip := s.rip + k)
  {
    hide Installed, Step;
    if k > 0 {
      Slides(img, s, k - 1);
      NopStep(img, s.(rip := s.rip + (k - 1)));
    }
  }

  lemma NopStep(img: Image, s: State)
    requires Installed(img) && s.rip < NR_SYSCALLS
    ensures Step(img, s) == s.(rip := s.rip + 1)
  {
    hide JumpCode, HookCode, OrigCode, LoadWord, Peek;
    assert Peek(img.code, s.rip) == SledBytes(img.hook)[s.rip] == 0x90;
  }

  lemma SledByte(img: Image, k: nat)
    requires Installed(img) && k < 13
    ensures Peek(img.code, 512 + k) == JumpCode(img.hook)[k]
  {
    hide Peek, JumpCode;
    assert Peek(img.code, 512 + k) == SledBytes(img.hook)[512 + k];
  }

  lemma JumpCodeAt(target: nat)
    ensures var j := JumpCode(target);
            j[0] == 0x50 && j[1] == 0x48 && j[2] == 0xb8 && j[11] == 0xff && j[12] == 0xe0 &&
            forall i :: 0 <= i < 8 ==> j[3 + i] == LittleEndian(target, 8)[i]
  {
    hide LittleEndian;
  }

  /** The address in the sled is that of the hook routine. */
  lemma SledAddress(img: Image)
    requires Installed(img)
    ensures LoadWord(img.code, 515, 8) == img.hook
  {
    hide LittleEndian, FromLittleEndian, Peek, JumpCode, SledBytes;
    var bytes := LittleEndian(img.hook, 8);
    JumpCodeAt(img.hook);
    forall i | 0 <= i < 8
      ensures Peek(img.code, 515 + i) == bytes[i]
    {
      SledByte(img, 3 + i);
    }
    SameBytes(img.code, 515, bytes);
    LittleEndianRoundTrip(img.hook, 8);
    Pow256Of8();
  }

  lemma SameBytes(m: Memory, a: int, bytes: seq<Byte>)
    requires forall i :: 0 <= i < |bytes| ==> Peek(m, a + i) == bytes[i]
    ensures LoadWord(m, a, |bytes|) == FromLittleEndian(bytes)
  {
    hide FromLittleEndian, Peek;
    assert Words.Load(m, a, |bytes|) == bytes;
  }

  /** The three instructions behind the sled. */
  lemma SledDecodes(img: Image)
    requires Installed(img)
    ensures Fetch(img, 512) == Decoded(Push(RAX), 1)
    ensures Fetch(img, 513) == Decoded(MovAbs(RAX, img.hook), 10)
    ensures Fetch(img, 523) == Decoded(Jmp(RAX), 2)
  {
    hide LoadWord, Peek, SledBytes, JumpCode, HookCode, OrigCode;
    SledAddress(img);
    JumpCodeAt(img.hook);
    SledByte(img, 0);
    SledByte(img, 1);
    SledByte(img, 2);
    SledByte(img, 11);
    SledByte(img, 12);
  }

  lemma StepIs(img: Image, s: State, op: Op, size: nat)
    requires Fetch(img, s.rip) == Decoded(op, size)
    ensures Step(img, s) == Exec(op, size, s)
  {
    hide Fetch, Exec;
  }

  /** The state in which the hook routine is entered: site + 2 and the number on the stack. */
  function Entered(img: Image, s: State): State {
    var sp := Val(s, RSP);
    State(img.hook, s.regs[RSP := U64(sp - 8)][RSP := U64(sp - 16)][RAX := img.hook],
          PushAll(s.mem, sp, [s.rip + 2, Val(s, RAX)]))
  }

  /** From a patched site with any number up to 512 in rax, the sled leads to the hook routine. */
  lemma ReachesHook(img: Image, s: State)
    requires AtSite(img, s) && Val(s, RAX) <= NR_SYSCALLS
    ensures Run(img, 4 + (NR_SYSCALLS - Val(s, RAX)), s) == Entered(img, s)
  {
    hide Run, Step, StoreWord, PushAll, Installed, Peek;
    var n, sp := Val(s, RAX), Val(s, RSP);
    assert U64(sp - 8) == sp - 8;
    CallSite(img, s);
    var s1 := Step(img, s);
    Slides(img, s1, NR_SYSCALLS - n);
    var s2 := s1.(rip := 512);
    RunOne(img, s);
    RunSum(img, 1, NR_SYSCALLS - n, s);
    SledTail(img, s2, s.mem, sp, s.rip + 2, n);
    RunSum(img, 1 + (NR_SYSCALLS - n), 3, s);
  }

  lemma CallSite(img: Image, s: State)
    requires AtSite(img, s)
    ensures Step(img, s) ==
            State(Val(s, RAX), s.regs[RSP := U64(Val(s, RSP) - 8)],
                  StoreWord(s.mem, U64(Val(s, RSP) - 8), s.rip + 2, 8))
  {
    hide StoreWord, U64, Installed, Peek, HookCode, OrigCode;
    StepIs(img, s, Call(RAX), 2);
  }

  lemma SledTail(img: Image, s: State, m: Memory, sp: nat, ret: nat, n: nat)
    requires Installed(img) && s.rip == 512 && Val(s, RAX) == n && 16 <= sp < TWO64 && Val(s, RSP) == sp - 8
    requires s.mem == StoreWord(m, sp - 8, ret, 8)
    ensures Run(img, 3, s) ==
            State(img.hook, s.regs[RSP := U64(sp - 16)][RAX := img.hook], PushAll(m, sp, [ret, n]))
  {
    hide StoreWord, LoadWord, Fetch, Installed, Run, Step, PushAll;
    SledDecodes(img);
    assert U64(sp - 16) == sp - 16;
    StepIs(img, s, Push(RAX), 1);
    var s1 := Step(img, s);
    StepIs(img, s1, MovAbs(RAX, img.hook), 10);
    var s2 := Step(img, s1);
    StepIs(img, s2, Jmp(RAX), 2);
    RunThree(img, s);
    PushTwo(m, sp, ret, n);
  }

  lemma PushTwo(m: Memory, sp: int, a: nat, b: nat)
    ensures PushAll(m, sp, [a, b]) == StoreWord(StoreWord(m, sp - 8, a, 8), sp - 16, b, 8)
  {
    hide StoreWord;
    PushAllAppend(m, sp, [], a);
    PushAllAppend(m, sp, [a], b);
    assert [] + [a] == [a] && [a] + [b] == [a, b];
  }

  lemma RunThree(img: Image, s: State)
    ensures Run(img, 3, s) == Step(img, Step(img, Step(img, s)))
  {
    hide Step;
    assert Run(img, 0, s) == s;
    assert Run(img, 1, s) == Step(img, s);
    assert Run(img, 2, s) == Step(img, Step(img, s));
  }

  // ---------------------------------------------------------------- the hook routine

  lemma HookStep(img: Image, s: State, k: nat, op: Op)
    requires k < 23 && s.rip == img.hook + k && HookCode(img)[k] == op
    ensures Step(img, s) == Exec(op, 1, s)
  {
    hide HookCode, Exec, OrigCode;
    StepIs(img, s, op, 1);
  }

  /** Registers other than these four are as at the site. */
  ghost predicate KeepsOthers(s: State, t: State) {
    forall r :: r !in {RAX, RCX, RBP, RSP} ==> Val(t, r) == Val(s, r)
  }

  /** The number comes back into rax, and signal return is told apart. */
  lemma HookPops(img: Image, s: State)
    requires AtSite(img, s) && Val(s, RAX) != RT_SIGRETURN
    ensures var t := Run(img, 3, Entered(img, s));
            t.rip == img.hook + 3 && Val(t, RAX) == Val(s, RAX) && Val(t, RSP) == Val(s, RSP) - 8 &&
            Val(t, RBP) == Val(s, RBP) && KeepsOthers(s, t) && t.mem == Entered(img, s).mem
  {
    hide StoreWord, LoadWord, Run, Step, PushAll, HookCode, Installed, Peek;
    var e, sp := Entered(img, s), Val(s, RSP);
    PushedAt(s.mem, sp, [s.rip + 2, Val(s, RAX)], 1);
    HookOps(img);
    assert U64(sp - 16) == sp - 16 && U64(sp - 16 + 8) == sp - 8;
    HookStep(img, e, 0, Pop(RAX));
    var e1 := Step(img, e);
    HookStep(img, e1, 1, CompareJump(RAX, RT_SIGRETURN, img.orig + 7));
    var e2 := Step(img, e1);
    HookStep(img, e2, 2, X86.Load(RCX, RSP, 0));
    RunThree(img, e);
  }

  lemma HookOps(img: Image)
    ensures var h := HookCode(img);
            h[0] == Pop(RAX) && h[1] == CompareJump(RAX, RT_SIGRETURN, img.orig + 7) && h[2] == X86.Load(RCX, RSP, 0) &&
            h[3] == Push(RBP) && h[4] == Mov(RBP, RSP) && h[5] == Align16(RSP)
  {
  }

  /** The aligned stack top the arguments are pushed from. */
  function Aligned(sp: int): int {
    sp - 16 - (sp - 16) % 16
  }

  /** Stack memory with the caller's frame pointer saved. */
  function Framed(s: State): Memory {
    StoreWord(PushAll(s.mem, Val(s, RSP), [s.rip + 2, Val(s, RAX)]), Val(s, RSP) - 16, Val(s, RBP), 8)
  }

  lemma HookFrames(img: Image, s: State)
    requires AtSite(img, s) && Val(s, RAX) != RT_SIGRETURN
    ensures var t := Run(img, 6, Entered(img, s));
            t.rip == img.hook + 6 && Val(t, RAX) == Val(s, RAX) && Val(t, RSP) == Aligned(Val(s, RSP)) &&
            Val(t, RBP) == Val(s, RSP) - 16 && KeepsOthers(s, t) && t.mem == Framed(s)
  {
    hide StoreWord, LoadWord, Run, Step, PushAll, HookCode, Installed, Peek;
    var e, sp := Entered(img, s), Val(s, RSP);
    HookPops(img, s);
    HookOps(img);
    var t0 := Run(img, 3, e);
    assert U64(sp - 16) == sp - 16;
    HookStep(img, t0, 3, Push(RBP));
    var t1 := Step(img, t0);
    HookStep(img, t1, 4, Mov(RBP, RSP));
    var t2 := Step(img, t1);
    HookStep(img, t2, 5, Align16(RSP));
    RunThree(img, t0);
    RunSum(img, 3, 3, e);
  }

  /** Straight-line pushes of registers other than rsp. */
  lemma {:induction false} PushesRun(img: Image, s: State, rs: seq<Reg>, k0: nat, k: nat)
    requires k <= |rs| && k0 + |rs| <= 23 && s.rip == img.hook + k0 && 8 * |rs| <= Val(s, RSP) < TWO64
    requires forall i :: 0 <= i < |rs| ==> HookCode(img)[k0 + i] == Push(rs[i]) && rs[i] != RSP
    ensures var t := Run(img, k, s);
            t.rip == s.rip + k && Val(t, RSP) == Val(s, RSP) - 8 * k &&
            (forall r :: r != RSP ==> Val(t, r) == Val(s, r)) &&
            t.mem == PushAll(s.mem, Val(s, RSP), seq(k, i requires 0 <= i < k => Val(s, rs[i])))
  {
    hide StoreWord, Step, HookCode;
    if k > 0 {
      PushesRun(img, s, rs, k0, k - 1);
      var t := Run(img, k - 1, s);
      HookStep(img, t, k0 + k - 1, Push(rs[k - 1]));
      var vs := seq(k - 1, i requires 0 <= i < k - 1 => Val(s, rs[i]));
      assert seq(k, i requires 0 <= i < k => Val(s, rs[i])) == vs + [Val(s, rs[k - 1])];
      hide PushAll;
      PushAllAppend(s.mem, Val(s, RSP), vs, Val(s, rs[k - 1]));
      assert U64(Val(t, RSP) - 8) == Val(t, RSP) - 8;
    }
  }

  /** Number and arguments as the hook routine saves them. */
  function Saved(s: State): (r: seq<nat>)
    ensures |r| == 7
  {
    [Val(s, RAX), Val(s, RDI), Val(s, RSI), Val(s, RDX), Val(s, R10), Val(s, R8), Val(s, R9)]
  }

  const SAVED_REGS: seq<Reg> := [RAX, RDI, RSI, RDX, R10, R8, R9]

  lemma SaveOps(img: Image)
    ensures forall i :: 0 <= i < 7 ==> HookCode(img)[6 + i] == Push(SAVED_REGS[i]) && SAVED_REGS[i] != RSP
  {
  }

  lemma SavedAre(s: State, t: State)
    requires KeepsOthers(s, t) && Val(t, RAX) == Val(s, RAX)
    ensures seq(7, i requires 0 <= i < 7 => Val(t, SAVED_REGS[i])) == Saved(s)
  {
    hide Val;
  }

  lemma AlignedRoom(sp: nat)
    ensures sp - 32 < Aligned(sp) <= sp - 16 && Aligned(sp) % 16 == 0
  {
  }

  lemma HookSaves(img: Image, s: State)
    requires AtSite(img, s) && Val(s, RAX) != RT_SIGRETURN
    ensures var t := Run(img, 13, Entered(img, s));
            t.rip == img.hook + 13 && Val(t, RSP) == Aligned(Val(s, RSP)) - 56 && Val(t, RBP) == Val(s, RSP) - 16 &&
            KeepsOthers(s, t) && t.mem == PushAll(Framed(s), Aligned(Val(s, RSP)), Saved(s))
  {
    hide StoreWord, Run, Step, PushAll, Installed, Peek, Framed, HookCode, Entered, Aligned, Saved, Val;
    HookFrames(img, s);
    AlignedRoom(Val(s, RSP));
    var e := Entered(img, s);
    var t := Run(img, 6, e);
    SaveOps(img);
    PushesRun(img, t, SAVED_REGS, 6, 7);
    SavedAre(s, t);
    RunSum(img, 6, 7, e);
  }

  /** The registers the C++ calling convention passes the first six arguments in. */
  const ARGS: seq<Reg> := [RDI, RSI, RDX, RCX, R8, R9]

  lemma ArgLoads(img: Image, k: nat)
    requires k < 6
    ensures HookCode(img)[13 + k] == X86.Load(ARGS[k], RSP, 8 * (6 - k))
    ensures ARGS[k] !in {RSP, RBP, RAX, RBX, R10, R12, R13, R14, R15}
    ensures forall j :: 0 <= j < k ==> ARGS[j] != ARGS[k]
  {
  }

  /** Registers a called function must give back as it found them. */
  const CALLEE_SAVED: set<Reg> := {RBX, R12, R13, R14, R15}

  lemma LoadEffect(s: State, r: Reg, disp: nat)
    ensures var t := Exec(X86.Load(r, RSP, disp), 1, s);
            t.rip == s.rip + 1 && t.mem == s.mem && Val(t, r) == LoadWord(s.mem, Val(s, RSP) + disp, 8) &&
            forall q :: q != r ==> Val(t, q) == Val(s, q)
  {
    hide LoadWord;
  }

  lemma {:induction false} LoadsRun(img: Image, s: State, top: nat, m: Memory, vs: seq<nat>, k: nat)
    requires k <= 6 && s.rip == img.hook + 13 && |vs| == 7 && 56 <= top && Val(s, RSP) == top - 56
    requires s.mem == PushAll(m, top, vs) && forall i :: 0 <= i < |vs| ==> vs[i] < TWO64
    ensures var t := Run(img, k, s);
            t.rip == s.rip + k && t.mem == s.mem && Val(t, RSP) == Val(s, RSP) && Val(t, RBP) == Val(s, RBP) &&
            (forall j :: 0 <= j < k ==> Val(t, ARGS[j]) == vs[j]) &&
            (forall r :: r in CALLEE_SAVED ==> Val(t, r) == Val(s, r))
  {
    hide PushAll, Step, HookCode, LoadWord, Exec, Val;
    if k > 0 {
      LoadsRun(img, s, top, m, vs, k - 1);
      var t := Run(img, k - 1, s);
      ArgLoads(img, k - 1);
      HookStep(img, t, 13 + (k - 1), X86.Load(ARGS[k - 1], RSP, 8 * (6 - (k - 1))));
      LoadEffect(t, ARGS[k - 1], 8 * (6 - (k - 1)));
      PushedAt(m, top, vs, k - 1);
    }
  }

  /** The seven integer arguments the C++ calling convention finds on entry to a function. */
  function Arguments(s: State): (r: seq<nat>)
    ensures |r| == 7
  {
    [Val(s, RDI), Val(s, RSI), Val(s, RDX), Val(s, RCX), Val(s, R8), Val(s, R9), LoadWord(s.mem, Val(s, RSP) + 8, 8)]
  }

  /** What the kernel is handed by a syscall instruction. */
  function KernelCall(s: State): (r: seq<nat>)
    ensures |r| == 7
  {
    Saved(s)
  }

  lemma LastOps(img: Image)
    ensures var h := HookCode(img);
            h[19] == PushMem(RSP) && h[20] == CallFar(img.cxx) && h[21] == Leave && h[22] == Ret
  {
  }

  /** Stack memory on entry to the C++ hook. */
  function CallMemory(img: Image, s: State): Memory {
    PushAll(Framed(s), Aligned(Val(s, RSP)), Saved(s) + [Val(s, R9)] + [img.hook + 21])
  }

  /** The last two instructions before the hook. */
  lemma CallsOut(img: Image, u: State, top: nat, m: Memory, vs: seq<nat>)
    requires u.rip == img.hook + 19 && 72 <= top < TWO64 && Val(u, RSP) == top - 56
    requires |vs| == 7 && u.mem == PushAll(m, top, vs) && forall i :: 0 <= i < 7 ==> vs[i] < TWO64
    ensures var t := Run(img, 2, u);
            t.rip == img.cxx && Val(t, RSP) == top - 72 && (forall r :: r != RSP ==> Val(t, r) == Val(u, r)) &&
            t.mem == PushAll(m, top, vs + [vs[6]] + [img.hook + 21])
  {
    hide StoreWord, LoadWord, Run, Step, PushAll, HookCode, Exec, Val, U64;
    LastOps(img);
    PushedAt(m, top, vs, 6);
    HookStep(img, u, 19, PushMem(RSP));
    PushEffect(u, PushMem(RSP), top, m, vs);
    var v := Step(img, u);
    HookStep(img, v, 20, CallFar(img.cxx));
    PushEffect(v, CallFar(img.cxx), top, m, vs + [vs[6]]);
    RunOne(img, u);
    RunOne(img, v);
    RunSum(img, 1, 1, u);
  }

  /** A one-unit push of the word on top of the stack, or of the return address of a call. */
  lemma PushEffect(s: State, op: Op, top: nat, m: Memory, vs: seq<nat>)
    requires op == PushMem(RSP) || op.CallFar?
    requires 8 * (|vs| + 1) <= top < TWO64 && Val(s, RSP) == top - 8 * |vs| && s.mem == PushAll(m, top, vs)
    ensures var t := Exec(op, 1, s);
            var v := if op.CallFar? then s.rip + 1 else LoadWord(s.mem, Val(s, RSP), 8);
            t.rip == (if op.CallFar? then op.target else s.rip + 1) && Val(t, RSP) == top - 8 * (|vs| + 1) &&
            (forall r :: r != RSP ==> Val(t, r) == Val(s, r)) && t.mem == PushAll(m, top, vs + [v])
  {
    hide StoreWord, LoadWord, PushAll;
    PushAllAppend(m, top, vs, if op.CallFar? then s.rip + 1 else LoadWord(s.mem, Val(s, RSP), 8));
    assert U64(top - 8 * (|vs| + 1)) == top - 8 * (|vs| + 1);
  }

  lemma HookCalls(img: Image, s: State)
    requires AtSite(img, s) && Val(s, RAX) != RT_SIGRETURN
    ensures var t := Run(img, 21, Entered(img, s));
            t.rip == img.cxx && Val(t, RSP) == Aligned(Val(s, RSP)) - 72 && Val(t, RBP) == Val(s, RSP) - 16 &&
            t.mem == CallMemory(img, s) &&
            (forall j :: 0 <= j < 6 ==> Val(t, ARGS[j]) == Saved(s)[j]) &&
            (forall r :: r in CALLEE_SAVED ==> Val(t, r) == Val(s, r))
  {
    hide StoreWord, LoadWord, Run, Step, PushAll, Installed, Peek, Framed, HookCode, Entered, Aligned, Val;
    var e, top := Entered(img, s), Aligned(Val(s, RSP));
    AlignedRoom(Val(s, RSP));
    HookSaves(img, s);
    var t := Run(img, 13, e);
    LoadsRun(img, t, top, Framed(s), Saved(s), 6);
    RunSum(img, 13, 6, e);
    var u := Run(img, 6, t);
    CallsOut(img, u, top, Framed(s), Saved(s));
    RunSum(img, 19, 2, e);
    assert forall j :: 0 <= j < 6 ==> ARGS[j] != RSP;
  }

  /** For every register state and every number up to 512 other than rt_sigreturn, a patched site ends up calling
      the hook with exactly the number and the six arguments the kernel would have been given, on a stack
      aligned as the calling convention asks. */
  lemma SiteCallsHook(img: Image, s: State)
    requires AtSite(img, s) && Val(s, RAX) <= NR_SYSCALLS && Val(s, RAX) != RT_SIGRETURN
    ensures var t := Run(img, 25 + (NR_SYSCALLS - Val(s, RAX)), s);
            t.rip == img.cxx && Arguments(t) == KernelCall(s) && (Val(t, RSP) + 8) % 16 == 0 &&
            LoadWord(t.mem, Val(t, RSP), 8) == img.hook + 21
  {
    hide StoreWord, LoadWord, Run, Step, PushAll, Installed, Peek, Framed, HookCode, Entered;
    ReachesHook(img, s);
    HookCalls(img, s);
    RunSum(img, 4 + (NR_SYSCALLS - Val(s, RAX)), 21, s);
    var t := Run(img, 21, Entered(img, s));
    var vs := Saved(s) + [Val(s, R9)] + [img.hook + 21];
    HookFits(img, s);
    PushedAt(Framed(s), Aligned(Val(s, RSP)), vs, 7);
    PushedAt(Framed(s), Aligned(Val(s, RSP)), vs, 8);
    assert vs[7] == Val(s, R9) && vs[8] == img.hook + 21;
    assert forall j :: 0 <= j < 6 ==> Val(t, ARGS[j]) == Saved(s)[j];
    assert Val(t, ARGS[0]) == Val(t, RDI) && Val(t, ARGS[1]) == Val(t, RSI) && Val(t, ARGS[2]) == Val(t, RDX);
    assert Val(t, ARGS[3]) == Val(t, RCX) && Val(t, ARGS[4]) == Val(t, R8) && Val(t, ARGS[5]) == Val(t, R9);
  }

  lemma HookFits(img: Image, s: State)
    requires AtSite(img, s)
    ensures img.hook + 21 < TWO64 && forall r :: Val(s, r) < TWO64
  {
  }

  // ---------------------------------------------------------------- and back

  /** The C++ hook, entered at t, has returned: by its calling convention it pops the return address, preserves
      the callee-saved registers and leaves the caller's frame alone above its stack argument. */
  ghost predicate Returned(t: State, u: State) {
    u.rip == LoadWord(t.mem, Val(t, RSP), 8) && Val(u, RSP) == Val(t, RSP) + 8 && Val(u, RBP) == Val(t, RBP) &&
    (forall r :: r in CALLEE_SAVED ==> Val(u, r) == Val(t, r)) &&
    forall a :: a >= Val(t, RSP) + 16 ==> Peek(u.mem, a) == Peek(t.mem, a)
  }

  /** Whatever the hook does within its calling convention, control comes back behind the site with the stack
      and frame pointers the site had, the hook's result in rax, and the caller's stack untouched. */
  lemma SiteReturns(img: Image, s: State, t: State, u: State)
    requires AtSite(img, s) && Val(s, RAX) <= NR_SYSCALLS && Val(s, RAX) != RT_SIGRETURN
    requires t == Run(img, 25 + (NR_SYSCALLS - Val(s, RAX)), s) && Returned(t, u)
    ensures var v := Run(img, 2, u);
            v.rip == s.rip + 2 && Val(v, RSP) == Val(s, RSP) && Val(v, RBP) == Val(s, RBP) &&
            Val(v, RAX) == Val(u, RAX) &&
            (forall r :: r in CALLEE_SAVED ==> Val(v, r) == Val(s, r)) &&
            forall a :: a >= Val(s, RSP) ==> Peek(v.mem, a) == Peek(s.mem, a)
  {
    hide StoreWord, LoadWord, Run, Step, PushAll, Installed, Peek, HookCode, Entered, Framed, CallMemory, Val,
         Arguments, Aligned, Saved;
    SiteCallsHook(img, s);
    ReachesHook(img, s);
    HookCalls(img, s);
    RunSum(img, 4 + (NR_SYSCALLS - Val(s, RAX)), 21, s);
    assert u.rip == img.hook + 21;
    FrameKept(img, s, u.mem);
    ReturnSteps(img, u, Val(s, RSP));
  }

  /** The last two instructions of the hook routine. */
  lemma ReturnSteps(img: Image, u: State, sp: nat)
    requires u.rip == img.hook + 21 && 16 <= sp < TWO64 && Val(u, RBP) == sp - 16
    ensures var v := Run(img, 2, u);
            v.rip == LoadWord(u.mem, sp - 8, 8) && v.mem == u.mem && Val(v, RSP) == sp &&
            Val(v, RBP) == LoadWord(u.mem, sp - 16, 8) && forall r :: r !in {RSP, RBP} ==> Val(v, r) == Val(u, r)
  {
    hide LoadWord, Run, Step, HookCode;
    LastOps(img);
    HookStep(img, u, 21, Leave);
    var w := Step(img, u);
    assert U64(sp - 16 + 8) == sp - 8 && U64(sp - 8 + 8) == sp;
    HookStep(img, w, 22, Ret);
    RunOne(img, u);
    RunOne(img, w);
    RunSum(img, 1, 1, u);
  }

  /** The saved frame pointer and the return address survive the hook. */
  lemma FrameKept(img: Image, s: State, m: Memory)
    requires AtSite(img, s)
    requires forall a :: a >= Aligned(Val(s, RSP)) - 56 ==> Peek(m, a) == Peek(CallMemory(img, s), a)
    ensures LoadWord(m, Val(s, RSP) - 16, 8) == Val(s, RBP) && LoadWord(m, Val(s, RSP) - 8, 8) == s.rip + 2
    ensures forall a :: a >= Val(s, RSP) ==> Peek(m, a) == Peek(s.mem, a)
  {
    hide StoreWord, LoadWord, PushAll, Peek, Installed;
    var sp, f := Val(s, RSP), Framed(s);
    var inner := PushAll(s.mem, sp, [s.rip + 2, Val(s, RAX)]);
    forall a | a >= sp - 16
      ensures Peek(m, a) == Peek(f, a)
    {
      PushedBelow(f, Aligned(sp), Saved(s) + [Val(s, R9)] + [img.hook + 21], a);
    }
    LoadAgree(m, f, sp - 16, 8);
    WordBack(inner, sp - 16, Val(s, RBP));
    LoadAgree(m, f, sp - 8, 8);
    forall a | a >= sp - 8
      ensures Peek(f, a) == Peek(inner, a)
    {
      StoreElsewhere(inner, sp - 16, Val(s, RBP), a);
    }
    LoadAgree(f, inner, sp - 8, 8);
    PushedAt(s.mem, sp, [s.rip + 2, Val(s, RAX)], 0);
    forall a | a >= sp
      ensures Peek(inner, a) == Peek(s.mem, a)
    {
      PushedBelow(s.mem, sp, [s.rip + 2, Val(s, RAX)], a);
    }
  }

  // ---------------------------------------------------------------- the default hook

  lemma OrigStep(img: Image, s: State, k: nat, op: Op)
    requires Installed(img) && k < 9 && s.rip == img.orig + k && OrigCode()[k] == op
    ensures Fetch(img, s.rip) == Decoded(op, 1) && Step(img, s) == Exec(op, 1, s)
  {
    hide HookCode, Exec, OrigCode;
    StepIs(img, s, op, 1);
  }

  lemma OrigOps()
    ensures var o := OrigCode();
            o[0] == Mov(RAX, RDI) && o[1] == Mov(RDI, RSI) && o[2] == Mov(RSI, RDX) && o[3] == Mov(RDX, RCX) &&
            o[4] == Mov(R10, R8) && o[5] == Mov(R8, R9) && o[6] == X86.Load(R9, RSP, 8) && o[7] == Syscall &&
            o[8] == Ret
  {
  }

  lemma OrigMoves(img: Image, s: State)
    requires Installed(img) && s.rip == img.orig
    ensures var t := Run(img, 3, s);
            t.rip == img.orig + 3 && t.mem == s.mem && Val(t, RAX) == Val(s, RDI) && Val(t, RDI) == Val(s, RSI) &&
            Val(t, RSI) == Val(s, RDX) && forall r :: r !in {RAX, RDI, RSI} ==> Val(t, r) == Val(s, r)
  {
    hide Run, Step, OrigCode, Installed, Fetch;
    OrigOps();
    OrigStep(img, s, 0, Mov(RAX, RDI));
    OrigStep(img, Step(img, s), 1, Mov(RDI, RSI));
    OrigStep(img, Step(img, Step(img, s)), 2, Mov(RSI, RDX));
    RunThree(img, s);
  }

  lemma OrigMovesOn(img: Image, s: State)
    requires Installed(img) && s.rip == img.orig + 3
    ensures var t := Run(img, 3, s);
            t.rip == img.orig + 6 && t.mem == s.mem && Val(t, RDX) == Val(s, RCX) && Val(t, R10) == Val(s, R8) &&
            Val(t, R8) == Val(s, R9) && forall r :: r !in {RDX, R10, R8} ==> Val(t, r) == Val(s, r)
  {
    hide Run, Step, OrigCode, Installed, Fetch;
    OrigOps();
    OrigStep(img, s, 3, Mov(RDX, RCX));
    OrigStep(img, Step(img, s), 4, Mov(R10, R8));
    OrigStep(img, Step(img, Step(img, s)), 5, Mov(R8, R9));
    RunThree(img, s);
  }

  /** Called as a C++ function with seven arguments, the default hook executes a syscall instruction that hands
      the kernel exactly those seven values. */
  lemma DefaultHookCallsKernel(img: Image, s: State)
    requires Installed(img) && s.rip == img.orig
    ensures var t := Run(img, 7, s); Fetch(img, t.rip) == Decoded(Syscall, 1) && KernelCall(t) == Arguments(s)
  {
    hide Run, Step, OrigCode, Installed, LoadWord, Fetch;
    OrigMoves(img, s);
    var t1 := Run(img, 3, s);
    OrigMovesOn(img, t1);
    var t2 := Run(img, 3, t1);
    RunSum(img, 3, 3, s);
    OrigOps();
    OrigStep(img, t2, 6, X86.Load(R9, RSP, 8));
    RunOne(img, t2);
    RunSum(img, 6, 1, s);
    OrigStep(img, Run(img, 7, s), 7, Syscall);
  }

  /** End to end with the default hook: once the C++ wrapper passes its arguments on, the kernel sees the very
      system call the site would have made. */
  lemma TracedCallIsOriginalCall(img: Image, s: State, v: State)
    requires AtSite(img, s) && Val(s, RAX) <= NR_SYSCALLS && Val(s, RAX) != RT_SIGRETURN
    requires v.rip == img.orig && Arguments(v) == Arguments(Run(img, 25 + (NR_SYSCALLS - Val(s, RAX)), s))
    ensures var t := Run(img, 7, v); Fetch(img, t.rip) == Decoded(Syscall, 1) && KernelCall(t) == KernelCall(s)
  {
    hide Run, Step, OrigCode, Fetch, LoadWord, Saved;
    SiteCallsHook(img, s);
    DefaultHookCallsKernel(img, v);
  }

  // ---------------------------------------------------------------- the limits

  /** Signal return goes straight to the syscall instruction with number and arguments in place, but with the
      stack pointer eight bytes below the site's: the return address is still on the stack. */
  lemma SigreturnShiftsStack(img: Image, s: State)
    requires AtSite(img, s) && Val(s, RAX) == RT_SIGRETURN
    ensures var t := Run(img, 6 + (NR_SYSCALLS - RT_SIGRETURN), s);
            Fetch(img, t.rip) == Decoded(Syscall, 1) && KernelCall(t) == KernelCall(s) && Val(t, RSP) == Val(s, RSP) - 8
  {
    hide StoreWord, LoadWord, Run, Step, PushAll, HookCode, Peek, Installed, Fetch, OrigCode, Entered;
    ReachesHook(img, s);
    var e := Entered(img, s);
    SigreturnSkips(img, s);
    RunSum(img, 4 + (NR_SYSCALLS - RT_SIGRETURN), 2, s);
    OrigOps();
    OrigStep(img, Run(img, 2, e), 7, Syscall);
  }

  lemma SigreturnSkips(img: Image, s: State)
    requires AtSite(img, s) && Val(s, RAX) == RT_SIGRETURN
    ensures var t := Run(img, 2, Entered(img, s));
            t.rip == img.orig + 7 && Val(t, RSP) == Val(s, RSP) - 8 && forall r :: r != RSP ==> Val(t, r) == Val(s, r)
  {
    hide StoreWord, LoadWord, Run, Step, PushAll, HookCode, Peek, Installed;
    var e, sp := Entered(img, s), Val(s, RSP);
    PushedAt(s.mem, sp, [s.rip + 2, Val(s, RAX)], 1);
    HookOps(img);
    assert U64(sp - 16) == sp - 16 && U64(sp - 16 + 8) == sp - 8;
    HookStep(img, e, 0, Pop(RAX));
    var e1 := Step(img, e);
    HookStep(img, e1, 1, CompareJump(RAX, RT_SIGRETURN, img.orig + 7));
    RunOne(img, e);
    RunOne(img, e1);
    RunSum(img, 1, 1, e);
  }

  /** The bound is sharp: 513 lands behind the push, and the hook routine takes the return address for the
      system call number. */
  lemma Beyond512(img: Image, s: State)
    requires AtSite(img, s) && Val(s, RAX) == NR_SYSCALLS + 1
    ensures var t := Run(img, 4, s); t.rip == img.hook + 1 && Val(t, RAX) == s.rip + 2
  {
    hide StoreWord, LoadWord, Run, Step, HookCode, Peek, Installed, Fetch, OrigCode;
    CallSite(img, s);
    var sp := Val(s, RSP);
    var s1 := Step(img, s);
    assert U64(sp - 8) == sp - 8;
    SledDecodes(img);
    StepIs(img, s1, MovAbs(RAX, img.hook), 10);
    var s2 := Step(img, s1);
    StepIs(img, s2, Jmp(RAX), 2);
    var s3 := Step(img, s2);
    HookOps(img);
    WordBack(s.mem, sp - 8, s.rip + 2);
    HookStep(img, s3, 0, Pop(RAX));
    RunThree(img, s1);
    RunOne(img, s);
    RunSum(img, 1, 3, s);
  }
}
