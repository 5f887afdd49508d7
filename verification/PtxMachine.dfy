/** What a PTX function does when it runs, with every opaque instruction given by a parameter. */
module PtxMachine {
  import opened Words
  import opened Ptx

  type Registers = map<string, nat>

  /** An executed instruction with the registers (temporaries aside) and memory it ran on. */
  datatype Event<M> = Event(text: string, regs: Registers, mem: M)

  /** Returned(matched) tells whether the return line is one the guard's pattern recognises. */
  datatype Status = Running | Returned(matched: bool) | Stuck

  datatype State<M> = State(pc: nat, regs: Registers, area: seq<Byte>, mem: M, trace: seq<Event<M>>, status: Status)

  /** A register never written reads as zero. */
  function Val(regs: Registers, r: string): nat {
    if r in regs then regs[r] else 0
  }

  /** The values of all registers but the guard's two temporaries; a register never written is not told apart from
      one that holds zero. */
  function Visible(regs: Registers): Registers {
    map r | r in regs && r !in TEMPS && regs[r] != 0 :: regs[r]
  }

  /** Bytes moved by a load or store with this type modifier; 0 if it is not a valid one. */
  function AccessWidth(modifier: string): (w: nat)
    ensures w in {0, 1, 2, 4, 8}
  {
    match modifier
    case ".u8" => 1
    case ".u16" => 2
    case ".u32" => 4
    case ".u64" => 8
    case _ => 0
  }

  /** Index of the first label with this name, or |code|. */
  function FindLabel(code: seq<Line>, name: string): (r: nat)
    ensures r <= |code|
    ensures r < |code| ==> code[r] == Label(name)
    ensures forall k :: 0 <= k < r ==> code[k] != Label(name)
  {
    if code == [] then 0
    else
      var r := FindLabel(code[..|code| - 1], name);
      if r < |code| - 1 then r
      else if code[|code| - 1] == Label(name) then |code| - 1
      else |code|
  }

  /** Code, the meaning of its opaque instructions, and the address of the save area. */
  datatype Machine<!M> = Machine(code: seq<Line>, sem: (string, Registers, M) -> (Registers, M), areaBase: nat)
  {
    function Next(s: State<M>): State<M> {
      s.(pc := s.pc + 1)
    }

    function Jump(s: State<M>, target: string): State<M> {
      var p := FindLabel(code, target);
      if p < |code| then s.(pc := p) else s.(status := Stuck)
    }

    /** An aligned access of w bytes at this address, inside the save area. */
    predicate InArea(s: State<M>, address: nat, w: nat) {
      w > 0 && address % w == 0 && areaBase <= address && address + w <= areaBase + |s.area|
    }

    function Step(s: State<M>): State<M> {
      if s.status != Running then s
      else if s.pc >= |code| then s.(status := Stuck)
      else match code[s.pc]
        case Instr(t) =>
          var (regs, mem) := sem(t, s.regs, s.mem);
          Next(s).(regs := regs, mem := mem, trace := s.trace + [Event(t, Visible(s.regs), s.mem)])
        case Branch(target) => Jump(s, target)
        case CondBranch(p, target) => if Val(s.regs, p) != 0 then Jump(s, target) else Next(s)
        case Ret => s.(status := Returned(true))
        case PredRet(p) => if Val(s.regs, p) != 0 then s.(status := Returned(true)) else Next(s)
        case OtherRet(_) => s.(status := Returned(false))
        case CloseBrace => s.(status := Stuck)
        case LoadBase => Next(s).(regs := s.regs[TEMP_BASE := areaBase])
        case AddOffset(k) => Next(s).(regs := s.regs[TEMP_ADDR := U64(Val(s.regs, TEMP_BASE) + k)])
        case SaveReg(modifier, r) =>
          var a, w := Val(s.regs, TEMP_ADDR), AccessWidth(modifier);
          if InArea(s, a, w) then
            var o := a - areaBase;
            Next(s).(area := s.area[..o] + LittleEndian(Val(s.regs, r), w) + s.area[o + w..])
          else s.(status := Stuck)
        case RestoreReg(modifier, r) =>
          var a, w := Val(s.regs, TEMP_ADDR), AccessWidth(modifier);
          if InArea(s, a, w) then
            var o := a - areaBase;
            Next(s).(regs := s.regs[r := FromLittleEndian(s.area[o..o + w])])
          else s.(status := Stuck)
        case _ => Next(s)
    }

    function Run(n: nat, s: State<M>): State<M> {
      if n == 0 then s else Step(Run(n - 1, s))
    }

    lemma {:induction false} RunSum(a: nat, b: nat, s: State<M>)
      ensures Run(a + b, s) == Run(b, Run(a, s))
      decreases b
    {
      hide Step;
      if b > 0 { RunSum(a, b - 1, s); }
    }

    /** A run that has ended stays where it is. */
    lemma {:induction false} RunEnded(n: nat, s: State<M>)
      requires s.status != Running
      ensures Run(n, s) == s
    {
      if n > 0 { RunEnded(n - 1, s); }
    }
  }
}
