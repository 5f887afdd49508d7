/** A relocated program over maps known by id does what the original does over maps known by descriptor. */
module RelocationMeaning {
  import opened Words
  import opened Wrappers
  import opened Ebpf
  import opened Relocation

  // ---------------------------------------------------------------- values and memory

  /** What a register holds: a number or, in the original program, a map named by its descriptor. */
  datatype Val = Num(n: nat) | Ref(fd: int)

  /** What a byte of memory holds: a byte, or byte k of a spilled map reference. */
  datatype Cell = Plain(b: Byte) | Part(fd: int, k: nat)

  type Cells = map<int, Cell>

  function Get(regs: map<nat, Val>, r: nat): Val {
    if r in regs then regs[r] else Num(0)
  }

  function CellAt(mem: Cells, a: int): Cell {
    if a in mem then mem[a] else Plain(0)
  }

  function Put(mem: Cells, a: int, cells: seq<Cell>): (r: Cells)
    ensures forall k :: CellAt(r, k) == if a <= k < a + |cells| then cells[k - a] else CellAt(mem, k)
    decreases |cells|
  {
    if cells == [] then mem else Put(mem[a := cells[0]], a + 1, cells[1..])
  }

  function Take(mem: Cells, a: int, n: nat): (r: seq<Cell>)
    ensures |r| == n && forall i :: 0 <= i < n ==> r[i] == CellAt(mem, a + i)
    decreases n
  {
    if n == 0 then [] else [CellAt(mem, a)] + Take(mem, a + 1, n - 1)
  }

  function PlainBytes(bytes: seq<Byte>): (r: seq<Cell>)
    ensures |r| == |bytes| && forall k :: 0 <= k < |r| ==> r[k] == Plain(bytes[k])
  {
    seq(|bytes|, k requires 0 <= k < |bytes| => Plain(bytes[k]))
  }

  function Parts(fd: int, w: nat): (r: seq<Cell>)
    ensures |r| == w && forall k :: 0 <= k < w ==> r[k] == Part(fd, k)
  {
    seq(w, k requires 0 <= k < w => Part(fd, k))
  }

  /** The w low bytes of a value. */
  function CellsOf(v: Val, w: nat): (r: seq<Cell>)
    ensures |r| == w
  {
    match v
    case Num(n) => PlainBytes(LittleEndian(n, w))
    case Ref(fd) => Parts(fd, w)
  }

  predicate AllPlain(cells: seq<Cell>) {
    forall k :: 0 <= k < |cells| ==> cells[k].Plain?
  }

  function BytesOf(cells: seq<Cell>): (r: seq<Byte>)
    requires AllPlain(cells)
    ensures |r| == |cells| && forall k :: 0 <= k < |r| ==> r[k] == cells[k].b
  {
    seq(|cells|, k requires 0 <= k < |cells| => cells[k].b)
  }

  /** The value these bytes make up: a number, or a whole map reference. Anything else mixes the two. */
  function ValueOf(cells: seq<Cell>): Option<Val> {
    if AllPlain(cells) then Some(Num(FromLittleEndian(BytesOf(cells))))
    else if |cells| == 8 && cells[0].Part? && cells == Parts(cells[0].fd, 8) then Some(Ref(cells[0].fd))
    else None
  }

  /** Memory as a helper sees it, with zeros where map references are. */
  function Seen(mem: Cells): (r: Memory)
    ensures forall a :: Peek(r, a) == if CellAt(mem, a).Plain? then CellAt(mem, a).b else 0
  {
    map a | a in mem :: if mem[a].Plain? then mem[a].b else 0
  }

  /** Memory after a helper has written these bytes. */
  function Over(mem: Cells, writes: Memory): (r: Cells)
    ensures forall a :: CellAt(r, a) == if a in writes then Plain(writes[a]) else CellAt(mem, a)
  {
    mem + map a | a in writes :: Plain(writes[a])
  }

  // ---------------------------------------------------------------- programs

  /** How map references are resolved: by descriptor to the map itself, or by id to an encoded pointer. */
  datatype Maps = ByFd(fds: map<int, nat>) | ById(table: Table)

  /** Arithmetic, jumps and atomic updates on numbers; and helpers, which read and write the program's memory. W is the
      state of all maps and of the outside world. A helper has some number of arguments, one of which may be a map; it
      returns r0, the bytes it writes and the new world, and says which bytes of memory it looks at. */
  datatype Meaning<!W> = Meaning(alu: (Insn, nat, nat) -> nat,
                                 taken: (Insn, nat, nat) -> bool,
                                 atomic: (Insn, nat, nat, nat) -> (nat, nat),
                                 address: (Insn, int, W) -> nat,
                                 arity: int -> nat,
                                 mapArg: int -> nat,
                                 helper: (int, Option<nat>, seq<nat>, Memory, W) -> (nat, Memory, W),
                                 looksAt: (int, Option<nat>, seq<nat>, Memory, W) -> set<int>,
                                 firstValue: (nat, W) -> nat)

  /** A helper's outcome depends on no byte of memory but those it looks at. */
  ghost predicate Honest<W(!new)>(meaning: Meaning<W>) {
    forall h, m, args, a, b, w ::
      (forall k :: k in meaning.looksAt(h, m, args, a, w) ==> Peek(a, k) == Peek(b, k)) ==>
        meaning.helper(h, m, args, a, w) == meaning.helper(h, m, args, b, w)
  }

  /** Return slot and saved r6 to r9 of a local call. */
  datatype Saved = Saved(ret: int, r6: Val, r7: Val, r8: Val, r9: Val)

  datatype State<W> = State(pc: int, regs: map<nat, Val>, mem: Cells, frames: seq<Saved>, world: W, status: Status)

  /** The value a wide load with source 1 puts into its register. */
  function MapValue(maps: Maps, imm: int): Option<Val> {
    match maps
    case ByFd(fds) => if imm in fds then Some(Ref(imm)) else None
    case ById(table) => Some(Num(MapPtr(table, U32(imm))))
  }

  /** The map an operand stands for: only references for the original, only encoded pointers when relocated. */
  function MapIn(maps: Maps, v: Val): Option<nat> {
    match maps
    case ByFd(fds) => if v.Ref? && v.fd in fds then Some(fds[v.fd]) else None
    case ById(table) => if v.Num? then MapBehind(table, v.n) else None
  }

  /** The arguments in registers r to last, leaving out the map, provided all others are numbers. */
  function Numbers(regs: map<nat, Val>, r: nat, last: nat, skip: nat): Option<seq<nat>>
    decreases last + 1 - r
  {
    if r > last then Some([])
    else
      var rest := Numbers(regs, r + 1, last, skip);
      if r == skip || rest.None? then rest
      else match Get(regs, r)
        case Ref(_) => None
        case Num(n) => Some([n] + rest.value)
  }

  /** A plain load (class 1), store of a constant (class 2) or store of a register (class 3). */
  predicate IsMemory(i: Insn, kind: nat) {
    i.opcode % 8 == kind && i.opcode / 32 == 3
  }

  const ATOMIC32 := 0xc3
  const ATOMIC64 := 0xdb
  const CMPXCHG := 0xf1

  /** Whether arithmetic or a jump looks at its destination register: all but moves and unconditional jumps do. */
  predicate UsesDst(i: Insn) {
    if IsJump(i) then i.opcode !in {JA, JA_IMM} else i.opcode / 16 != 0xb
  }

  /** Whether it looks at its source register: the source bit is set, and it is no negation or byte swap. */
  predicate UsesSrc(i: Insn) {
    (i.opcode / 8) % 2 == 1 && (IsJump(i) || i.opcode / 16 !in {0x8, 0xd})
  }

  /** An operand as a number; one that is not looked at does not matter. */
  function Operand(v: Val, used: bool): Option<nat> {
    if !used then Some(0) else if v.Num? then Some(v.n) else None
  }

  datatype Program<!W> = Program(code: seq<Insn>, maps: Maps, meaning: Meaning<W>)
  {
    function Fault(s: State<W>): State<W> {
      s.(status := Faulted)
    }

    function SetNext(s: State<W>, r: nat, v: Val): State<W> {
      s.(pc := s.pc + 1, regs := s.regs[r := v])
    }

    /** A two-slot load: a constant, a map, the address of a map's first value plus an offset, or another address. */
    function Wide(s: State<W>, i: Insn): State<W>
      requires 0 <= s.pc < |code|
    {
      if s.pc + 1 >= |code| || !IsSecondSlot(code[s.pc + 1]) then Fault(s)
      else
        var high := code[s.pc + 1].imm;
        var next := s.(pc := s.pc + 2);
        match i.src
        case 0 => next.(regs := s.regs[i.dst := Num(WideImm(i.imm, high))])
        case 1 =>
          (match MapValue(maps, i.imm)
           case None => Fault(s)
           case Some(v) => next.(regs := s.regs[i.dst := v]))
        case 2 =>
          (match MapValue(maps, i.imm)
           case None => Fault(s)
           case Some(v) =>
             var start := match MapIn(maps, v) case None => 0 case Some(m) => meaning.firstValue(m, s.world);
             next.(regs := s.regs[i.dst := Num(U64(start + high))]))
        case _ => next.(regs := s.regs[i.dst := Num(meaning.address(i, high, s.world))])
    }

    /** A helper call. In the original, a map argument has to be a map, the other arguments numbers, and the helper must
        not look at a spilled map reference. */
    function Call(s: State<W>, h: int): State<W> {
      var skip := meaning.mapArg(h);
      var takesMap := 1 <= skip <= 5;
      var m := if takesMap then MapIn(maps, Get(s.regs, skip)) else None;
      match Numbers(s.regs, 1, if meaning.arity(h) < 5 then meaning.arity(h) else 5, skip)
      case None => Fault(s)
      case Some(args) =>
        if maps.ByFd? && takesMap && m.None? then Fault(s)
        else if exists a | a in meaning.looksAt(h, m, args, Seen(s.mem), s.world) :: CellAt(s.mem, a).Part? then
          Fault(s)
        else
          var (r0, writes, world) := meaning.helper(h, m, args, Seen(s.mem), s.world);
          s.(pc := s.pc + 1, regs := s.regs[0 := Num(r0)], mem := Over(s.mem, writes), world := world)
    }

    function Enter(s: State<W>, i: Insn): State<W> {
      match Get(s.regs, 10)
      case Ref(_) => Fault(s)
      case Num(r10) =>
        var saved := Saved(s.pc + 1, Get(s.regs, 6), Get(s.regs, 7), Get(s.regs, 8), Get(s.regs, 9));
        s.(pc := Target(s.pc, i), frames := s.frames + [saved], regs := s.regs[10 := Num(U64(r10 - FRAME_SIZE))])
    }

    function Leave(s: State<W>): State<W> {
      if s.frames == [] then s.(status := Exited)
      else match Get(s.regs, 10)
        case Ref(_) => Fault(s)
        case Num(r10) =>
          var f := s.frames[|s.frames| - 1];
          s.(pc := f.ret, frames := s.frames[..|s.frames| - 1],
             regs := s.regs[6 := f.r6][7 := f.r7][8 := f.r8][9 := f.r9][10 := Num(U64(r10 + FRAME_SIZE))])
    }

    /** Writes the low bytes of a value; a map reference can be spilled. */
    function StoreAt(s: State<W>, base: Val, offset: int, v: Val, w: nat): State<W> {
      if base.Ref? || U64(base.n + offset) + w > TWO64 then Fault(s)
      else s.(pc := s.pc + 1, mem := Put(s.mem, U64(base.n + offset), CellsOf(v, w)))
    }

    /** Reads a number or a whole spilled map reference. */
    function LoadFrom(s: State<W>, base: Val, offset: int, r: nat, w: nat): State<W> {
      if base.Ref? || U64(base.n + offset) + w > TWO64 then Fault(s)
      else match ValueOf(Take(s.mem, U64(base.n + offset), w))
        case None => Fault(s)
        case Some(v) => SetNext(s, r, v)
    }

    /** Reads a number, writes another in its place, and may fetch the one read. */
    function Atomic(s: State<W>, i: Insn): State<W> {
      var base, w := Get(s.regs, i.dst), if i.opcode == ATOMIC32 then 4 else 8;
      if base.Ref? || U64(base.n + i.offset) + w > TWO64 then Fault(s)
      else
        var a := U64(base.n + i.offset);
        match (ValueOf(Take(s.mem, a, w)), Operand(Get(s.regs, i.src), true), Operand(Get(s.regs, 0), i.imm == CMPXCHG))
        case (Some(Num(was)), Some(v), Some(r0)) =>
          var (after, got) := meaning.atomic(i, was, v, r0);
          var regs := if i.imm == CMPXCHG then s.regs[0 := Num(got)]
                      else if i.imm % 2 == 1 then s.regs[i.src := Num(got)]
                      else s.regs;
          s.(pc := s.pc + 1, regs := regs, mem := Put(s.mem, a, CellsOf(Num(after), w)))
        case _ => Fault(s)
    }

    /** Arithmetic and jumps, on numbers only. */
    function Compute(s: State<W>, i: Insn): State<W> {
      match (Operand(Get(s.regs, i.dst), UsesDst(i)), Operand(Get(s.regs, i.src), UsesSrc(i)))
      case (Some(d), Some(v)) =>
        if IsJump(i) then s.(pc := if meaning.taken(i, d, v) then Target(s.pc, i) else s.pc + 1)
        else SetNext(s, i.dst, Num(meaning.alu(i, d, v)))
      case _ => Fault(s)
    }

    /** One instruction. Maps can be moved, spilled, read back and passed to helpers; opcodes the compiler does not know
        fault. */
    function Step(s: State<W>): State<W> {
      if s.status != Running then s
      else if !(0 <= s.pc < |code|) then Fault(s)
      else
        var i := code[s.pc];
        if i.opcode == LDDW then Wide(s, i)
        else if i.opcode == EXIT then Leave(s)
        else if IsLocalCall(i) then Enter(s, i)
        else if IsCall(i) then Call(s, i.imm)
        else if i.opcode == MOV64_REG && i.offset == 0 then SetNext(s, i.dst, Get(s.regs, i.src))
        else if IsMemory(i, 1) then LoadFrom(s, Get(s.regs, i.src), i.offset, i.dst, AccessWidth(i))
        else if IsMemory(i, 2) then StoreAt(s, Get(s.regs, i.dst), i.offset, Num(U64(i.imm)), AccessWidth(i))
        else if IsMemory(i, 3) then StoreAt(s, Get(s.regs, i.dst), i.offset, Get(s.regs, i.src), AccessWidth(i))
        else if i.opcode in {ATOMIC32, ATOMIC64} then Atomic(s, i)
        else if IsJump(i) || i.opcode % 8 in {4, 7} then Compute(s, i)
        else Fault(s)
    }

    function Run(n: nat, s: State<W>): State<W> {
      if n == 0 then s else Step(Run(n - 1, s))
    }
  }

  // ---------------------------------------------------------------- the two programs side by side

  /** Descriptors to ids, and ids to maps. */
  datatype Link = Link(ids: map<int, int>, table: Table)
  {
    /** The pointer that stands for a descriptor in the relocated program. */
    function Pointer(fd: int): (p: nat)
      ensures p < TWO64
    {
      if fd in ids then MapPtr(table, U32(ids[fd])) else 0
    }

    function Value(v: Val): Val {
      match v
      case Num(_) => v
      case Ref(fd) => Num(Pointer(fd))
    }

    function Byte8(c: Cell): Cell {
      match c
      case Plain(_) => c
      case Part(fd, k) => if k < 8 then Plain(LittleEndian(Pointer(fd), 8)[k]) else Plain(0)
    }

    function Frame(f: Saved): Saved {
      Saved(f.ret, Value(f.r6), Value(f.r7), Value(f.r8), Value(f.r9))
    }
  }

  ghost predicate RegsAlike(l: Link, a: map<nat, Val>, b: map<nat, Val>) {
    forall r :: Get(b, r) == l.Value(Get(a, r))
  }

  ghost predicate MemAlike(l: Link, a: Cells, b: Cells) {
    forall k :: CellAt(b, k) == l.Byte8(CellAt(a, k))
  }

  ghost predicate FramesAlike(l: Link, a: seq<Saved>, b: seq<Saved>) {
    |a| == |b| && forall k :: 0 <= k < |a| ==> b[k] == l.Frame(a[k])
  }

  /** The same state, with each map reference, in registers, saved or spilled, replaced by its pointer. */
  ghost predicate Alike<W>(l: Link, s: State<W>, t: State<W>) {
    s.pc == t.pc && s.status == t.status && s.world == t.world &&
    RegsAlike(l, s.regs, t.regs) && MemAlike(l, s.mem, t.mem) && FramesAlike(l, s.frames, t.frames)
  }

  /** The id of every descriptor the original can resolve names the same map. */
  ghost predicate Consistent(fds: map<int, nat>, ids: map<int, int>, table: Table) {
    (forall k :: k in table ==> 0 <= k) &&
    forall fd :: fd in fds ==> fd in ids && 0 <= ids[fd] < TWO31 && ids[fd] in table && table[ids[fd]] == fds[fd]
  }

  /** The original over descriptors, and its relocation over ids, with the same meaning. */
  ghost predicate Relocates<W(!new)>(p: Program<W>, q: Program<W>, l: Link) {
    p.maps.ByFd? && q.maps == ById(l.table) && p.meaning == q.meaning && Honest(p.meaning) &&
    q.code == Relocated(p.code, l.ids) && Consistent(p.maps.fds, l.ids, l.table)
  }

  // ---------------------------------------------------------------- values

  lemma MapFound(fds: map<int, nat>, l: Link, fd: int)
    requires Consistent(fds, l.ids, l.table) && fd in fds
    ensures l.Pointer(fd) == MapPtr(l.table, U32(l.ids[fd]))
    ensures MapBehind(l.table, l.Pointer(fd)) == Some(fds[fd])
  {
    hide MapPtr, MapBehind;
    assert U32(l.ids[fd]) == l.ids[fd];
    PointerRoundTrip(l.table, l.ids[fd]);
  }

  lemma RegSet(l: Link, a: map<nat, Val>, b: map<nat, Val>, r: nat, v: Val)
    requires RegsAlike(l, a, b)
    ensures RegsAlike(l, a[r := v], b[r := l.Value(v)])
  {
    hide Link.Value;
    var a', b' := a[r := v], b[r := l.Value(v)];
    forall k
      ensures Get(b', k) == l.Value(Get(a', k))
    {
      assert Get(b, k) == l.Value(Get(a, k));
    }
  }

  lemma {:induction false} LowBytes(n: nat, w: nat, v: nat, k: nat)
    requires k < w && k < v
    ensures LittleEndian(n, w)[k] == LittleEndian(n, v)[k]
    decreases k
  {
    if k > 0 { LowBytes(n / 256, w - 1, v - 1, k - 1); }
  }

  /** Spilling a value's pointer is spilling the value. */
  lemma CellsAlike(l: Link, v: Val, w: nat, k: nat)
    requires k < w <= 8
    ensures CellsOf(l.Value(v), w)[k] == l.Byte8(CellsOf(v, w)[k])
  {
    hide Link.Pointer, LittleEndian;
    if v.Ref? { LowBytes(l.Pointer(v.fd), w, 8, k); }
  }

  lemma StoreAlike(l: Link, a: Cells, b: Cells, at: int, v: Val, w: nat)
    requires MemAlike(l, a, b) && w <= 8
    ensures MemAlike(l, Put(a, at, CellsOf(v, w)), Put(b, at, CellsOf(l.Value(v), w)))
  {
    hide Put, CellsOf, Link.Byte8, Link.Value;
    var a', b' := Put(a, at, CellsOf(v, w)), Put(b, at, CellsOf(l.Value(v), w));
    forall k
      ensures CellAt(b', k) == l.Byte8(CellAt(a', k))
    {
      if at <= k < at + w { CellsAlike(l, v, w, k - at); }
    }
  }

  ghost predicate SeqAlike(l: Link, c: seq<Cell>, d: seq<Cell>) {
    |c| == |d| && forall k :: 0 <= k < |c| ==> d[k] == l.Byte8(c[k])
  }

  lemma TakeAlike(l: Link, a: Cells, b: Cells, at: int, w: nat)
    requires MemAlike(l, a, b)
    ensures SeqAlike(l, Take(a, at, w), Take(b, at, w))
  {
    hide Take, Link.Byte8;
    var c, d := Take(a, at, w), Take(b, at, w);
    forall k | 0 <= k < w
      ensures d[k] == l.Byte8(c[k])
    {
      assert c[k] == CellAt(a, at + k) && d[k] == CellAt(b, at + k);
    }
  }

  /** Reading a value back gives its pointer. */
  lemma ValueAlike(l: Link, c: seq<Cell>, d: seq<Cell>)
    requires SeqAlike(l, c, d) && ValueOf(c).Some?
    ensures ValueOf(d) == Some(l.Value(ValueOf(c).value))
  {
    hide FromLittleEndian, LittleEndian, Link.Pointer;
    if AllPlain(c) {
      assert forall k :: 0 <= k < |c| ==> d[k] == c[k];
      assert d == c;
    } else {
      var fd := c[0].fd;
      var bytes := LittleEndian(l.Pointer(fd), 8);
      assert forall k :: 0 <= k < 8 ==> c[k] == Part(fd, k) && d[k] == Plain(bytes[k]);
      assert AllPlain(d) && BytesOf(d) == bytes;
      LittleEndianRoundTrip(l.Pointer(fd), 8);
      Pow256Of8();
      ModUnique(l.Pointer(fd), TWO64, 0, l.Pointer(fd));
    }
  }

  lemma {:induction false} NumbersAlike(l: Link, a: map<nat, Val>, b: map<nat, Val>, r: nat, last: nat, skip: nat)
    requires RegsAlike(l, a, b) && Numbers(a, r, last, skip).Some?
    ensures Numbers(b, r, last, skip) == Numbers(a, r, last, skip)
    decreases last + 1 - r
  {
    hide Link.Pointer;
    if r <= last {
      assert Get(b, r) == l.Value(Get(a, r));
      NumbersAlike(l, a, b, r + 1, last, skip);
    }
  }

  // ---------------------------------------------------------------- instructions

  /** A wide load of a map, or of the address of its first value. */
  lemma RefAlike<W(!new)>(p: Program<W>, q: Program<W>, l: Link, s: State<W>, t: State<W>)
    requires Relocates(p, q, l) && Alike(l, s, t) && 0 <= s.pc < |p.code| && IsMapRef(p.code[s.pc])
    requires p.Wide(s, p.code[s.pc]).status != Faulted && s.status == Running
    ensures Alike(l, p.Wide(s, p.code[s.pc]), q.Wide(t, q.code[t.pc]))
  {
    hide MapPtr, MapBehind, U64, RegsAlike, MemAlike, FramesAlike, Honest, U32;
    var i := p.code[s.pc];
    assert q.code[s.pc + 1] == p.code[s.pc + 1];
    var high, fd := p.code[s.pc + 1].imm, i.imm;
    MapFound(p.maps.fds, l, fd);
    assert q.code[s.pc] == i.(imm := l.ids[fd]);
    hide Consistent, Relocated;
    if i.src == 1 {
      RegSet(l, s.regs, t.regs, i.dst, Ref(fd));
    } else {
      RegSet(l, s.regs, t.regs, i.dst, Num(U64(p.meaning.firstValue(p.maps.fds[fd], s.world) + high)));
    }
  }

  lemma WideAlike<W(!new)>(p: Program<W>, q: Program<W>, l: Link, s: State<W>, t: State<W>)
    requires Relocates(p, q, l) && Alike(l, s, t) && 0 <= s.pc < |p.code| && p.code[s.pc].opcode == LDDW
    requires p.Wide(s, p.code[s.pc]).status != Faulted && s.status == Running
    ensures Alike(l, p.Wide(s, p.code[s.pc]), q.Wide(t, q.code[t.pc]))
  {
    hide MapPtr, MapBehind, WideImm, U64, RegsAlike, MemAlike, FramesAlike, Honest, U32, Consistent;
    var i := p.code[s.pc];
    assert q.code[s.pc + 1] == p.code[s.pc + 1];
    var high := p.code[s.pc + 1].imm;
    if i.src == 0 {
      RegSet(l, s.regs, t.regs, i.dst, Num(WideImm(i.imm, high)));
    } else if i.src in {1, 2} {
      RefAlike(p, q, l, s, t);
    } else {
      RegSet(l, s.regs, t.regs, i.dst, Num(p.meaning.address(i, high, s.world)));
    }
  }

  /** A helper that looks at no spilled reference does the same on both sides. */
  lemma HelperAlike<W(!new)>(
      meaning: Meaning<W>, l: Link, a: Cells, b: Cells, h: int, m: Option<nat>, args: seq<nat>, w: W)
    requires Honest(meaning) && MemAlike(l, a, b)
    requires forall k | k in meaning.looksAt(h, m, args, Seen(a), w) :: CellAt(a, k).Plain?
    ensures meaning.helper(h, m, args, Seen(a), w) == meaning.helper(h, m, args, Seen(b), w)
  {
    hide Seen, Link.Pointer;
    forall k | k in meaning.looksAt(h, m, args, Seen(a), w)
      ensures Peek(Seen(a), k) == Peek(Seen(b), k)
    {
      assert CellAt(b, k) == l.Byte8(CellAt(a, k));
    }
  }

  lemma OverAlike(l: Link, a: Cells, b: Cells, writes: Memory)
    requires MemAlike(l, a, b)
    ensures MemAlike(l, Over(a, writes), Over(b, writes))
  {
    hide Over, Link.Pointer;
    forall k
      ensures CellAt(Over(b, writes), k) == l.Byte8(CellAt(Over(a, writes), k))
    {
      assert CellAt(b, k) == l.Byte8(CellAt(a, k));
    }
  }

  /** The relocated memory holds no map references. */
  lemma AllBytes(l: Link, a: Cells, b: Cells, k: int)
    requires MemAlike(l, a, b)
    ensures CellAt(b, k).Plain?
  {
    hide Link.Pointer, LittleEndian;
    assert CellAt(b, k) == l.Byte8(CellAt(a, k));
  }

  /** Both sides pass the helper the same map. */
  lemma SameMap<W(!new)>(p: Program<W>, q: Program<W>, l: Link, a: map<nat, Val>, b: map<nat, Val>, r: nat)
    requires Relocates(p, q, l) && RegsAlike(l, a, b) && MapIn(p.maps, Get(a, r)).Some?
    ensures MapIn(q.maps, Get(b, r)) == MapIn(p.maps, Get(a, r))
  {
    hide MapPtr, MapBehind, Honest, Relocated;
    assert Get(b, r) == l.Value(Get(a, r));
    MapFound(p.maps.fds, l, Get(a, r).fd);
  }

  lemma CallAlike<W(!new)>(p: Program<W>, q: Program<W>, l: Link, s: State<W>, t: State<W>, h: int)
    requires Relocates(p, q, l) && Alike(l, s, t) && s.status == Running && p.Call(s, h).status != Faulted
    ensures Alike(l, p.Call(s, h), q.Call(t, h))
  {
    hide Numbers, RegsAlike, MemAlike, FramesAlike, Honest, Relocated, Consistent, Over, Seen, MapIn;
    var skip, last := p.meaning.mapArg(h), if p.meaning.arity(h) < 5 then p.meaning.arity(h) else 5;
    NumbersAlike(l, s.regs, t.regs, 1, last, skip);
    var args := Numbers(s.regs, 1, last, skip).value;
    if 1 <= skip <= 5 { SameMap(p, q, l, s.regs, t.regs, skip); }
    var m := if 1 <= skip <= 5 then MapIn(p.maps, Get(s.regs, skip)) else None;
    HelperAlike(p.meaning, l, s.mem, t.mem, h, m, args, s.world);
    var (r0, writes, world) := p.meaning.helper(h, m, args, Seen(s.mem), s.world);
    forall k
      ensures CellAt(t.mem, k).Plain?
    {
      AllBytes(l, s.mem, t.mem, k);
    }
    RegSet(l, s.regs, t.regs, 0, Num(r0));
    OverAlike(l, s.mem, t.mem, writes);
  }

  lemma EnterAlike<W>(p: Program<W>, q: Program<W>, l: Link, s: State<W>, t: State<W>, i: Insn)
    requires Alike(l, s, t) && s.status == Running && p.Enter(s, i).status != Faulted
    ensures Alike(l, p.Enter(s, i), q.Enter(t, i))
  {
    hide Link.Pointer, MemAlike, U64;
    assert forall r | r in {6, 7, 8, 9, 10} :: Get(t.regs, r) == l.Value(Get(s.regs, r));
    hide RegsAlike;
    RegSet(l, s.regs, t.regs, 10, Num(U64(Get(s.regs, 10).n - FRAME_SIZE)));
  }

  lemma LeaveAlike<W>(p: Program<W>, q: Program<W>, l: Link, s: State<W>, t: State<W>)
    requires Alike(l, s, t) && s.status == Running && p.Leave(s).status != Faulted
    ensures Alike(l, p.Leave(s), q.Leave(t))
  {
    hide Link.Pointer, MemAlike, U64;
    if s.frames != [] {
      assert Get(t.regs, 10) == l.Value(Get(s.regs, 10));
      hide RegsAlike;
      var f := s.frames[|s.frames| - 1];
      var a, b := s.regs[6 := f.r6], t.regs[6 := l.Value(f.r6)];
      RegSet(l, s.regs, t.regs, 6, f.r6);
      RegSet(l, a, b, 7, f.r7);
      RegSet(l, a[7 := f.r7], b[7 := l.Value(f.r7)], 8, f.r8);
      RegSet(l, a[7 := f.r7][8 := f.r8], b[7 := l.Value(f.r7)][8 := l.Value(f.r8)], 9, f.r9);
      RegSet(l, a[7 := f.r7][8 := f.r8][9 := f.r9], b[7 := l.Value(f.r7)][8 := l.Value(f.r8)][9 := l.Value(f.r9)],
             10, Num(U64(Get(s.regs, 10).n + FRAME_SIZE)));
    }
  }

  lemma StoreAtAlike<W>(
      p: Program<W>, q: Program<W>, l: Link, s: State<W>, t: State<W>, base: Val, offset: int, v: Val, w: nat)
    requires Alike(l, s, t) && s.status == Running && w <= 8 && p.StoreAt(s, base, offset, v, w).status != Faulted
    ensures Alike(l, p.StoreAt(s, base, offset, v, w), q.StoreAt(t, l.Value(base), offset, l.Value(v), w))
  {
    hide Link.Pointer, RegsAlike, MemAlike, FramesAlike, U64, Put, CellsOf;
    StoreAlike(l, s.mem, t.mem, U64(base.n + offset), v, w);
  }

  lemma LoadFromAlike<W>(
      p: Program<W>, q: Program<W>, l: Link, s: State<W>, t: State<W>, base: Val, offset: int, r: nat, w: nat)
    requires Alike(l, s, t) && s.status == Running && p.LoadFrom(s, base, offset, r, w).status != Faulted
    ensures Alike(l, p.LoadFrom(s, base, offset, r, w), q.LoadFrom(t, l.Value(base), offset, r, w))
  {
    hide Link.Pointer, RegsAlike, MemAlike, FramesAlike, U64, Take, ValueOf;
    var a := U64(base.n + offset);
    var c := Take(s.mem, a, w);
    TakeAlike(l, s.mem, t.mem, a, w);
    ValueAlike(l, c, Take(t.mem, a, w));
    RegSet(l, s.regs, t.regs, r, ValueOf(c).value);
  }

  lemma AtomicAlike<W>(p: Program<W>, q: Program<W>, l: Link, s: State<W>, t: State<W>, i: Insn)
    requires Alike(l, s, t) && s.status == Running && p.meaning == q.meaning && p.Atomic(s, i).status != Faulted
    ensures Alike(l, p.Atomic(s, i), q.Atomic(t, i))
  {
    hide Link.Pointer, MemAlike, FramesAlike, U64, Put, Take, CellsOf, ValueOf;
    assert forall r | r in {i.dst, i.src, 0} :: Get(t.regs, r) == l.Value(Get(s.regs, r));
    hide RegsAlike;
    var w := if i.opcode == ATOMIC32 then 4 else 8;
    var a := U64(Get(s.regs, i.dst).n + i.offset);
    TakeAlike(l, s.mem, t.mem, a, w);
    ValueAlike(l, Take(s.mem, a, w), Take(t.mem, a, w));
    var was := ValueOf(Take(s.mem, a, w)).value.n;
    var r0 := Operand(Get(s.regs, 0), i.imm == CMPXCHG).value;
    var (after, got) := p.meaning.atomic(i, was, Get(s.regs, i.src).n, r0);
    StoreAlike(l, s.mem, t.mem, a, Num(after), w);
    RegSet(l, s.regs, t.regs, 0, Num(got));
    RegSet(l, s.regs, t.regs, i.src, Num(got));
  }

  lemma ComputeAlike<W>(p: Program<W>, q: Program<W>, l: Link, s: State<W>, t: State<W>, i: Insn)
    requires Alike(l, s, t) && s.status == Running && p.meaning == q.meaning && p.Compute(s, i).status != Faulted
    ensures Alike(l, p.Compute(s, i), q.Compute(t, i))
  {
    hide Link.Pointer, MemAlike, FramesAlike, UsesDst, UsesSrc;
    assert forall r | r in {i.dst, i.src} :: Get(t.regs, r) == l.Value(Get(s.regs, r));
    hide RegsAlike;
    var d, v := Operand(Get(s.regs, i.dst), UsesDst(i)).value, Operand(Get(s.regs, i.src), UsesSrc(i)).value;
    RegSet(l, s.regs, t.regs, i.dst, Num(p.meaning.alu(i, d, v)));
  }

  lemma PlainSlot(code: seq<Insn>, ids: map<int, int>, k: nat)
    requires k < |code| && code[k].opcode != LDDW
    ensures Relocated(code, ids)[k] == code[k]
  {
  }

  lemma SameOpcode(code: seq<Insn>, ids: map<int, int>, k: nat)
    requires k < |code|
    ensures Relocated(code, ids)[k].opcode == code[k].opcode && |Relocated(code, ids)| == |code|
  {
  }

  lemma StepAlike<W(!new)>(p: Program<W>, q: Program<W>, l: Link, s: State<W>, t: State<W>)
    requires Relocates(p, q, l) && Alike(l, s, t) && p.Step(s).status != Faulted
    ensures Alike(l, p.Step(s), q.Step(t))
  {
    if s.status == Running && 0 <= s.pc < |p.code| {
      SameOpcode(p.code, l.ids, s.pc);
      if p.code[s.pc].opcode == LDDW {
        WideAlike(p, q, l, s, t);
      } else {
        PlainSlot(p.code, l.ids, s.pc);
        SlotAlike(p, q, l, s, t, p.code[s.pc]);
      }
    }
    hide Program.Wide, Program.Call, Program.Enter, Program.Leave, Program.StoreAt, Program.LoadFrom, Program.Atomic,
         Program.Compute, Honest, Consistent, Relocated, RegsAlike, MemAlike, FramesAlike;
  }

  /** Every instruction but a wide load. */
  lemma SlotAlike<W(!new)>(p: Program<W>, q: Program<W>, l: Link, s: State<W>, t: State<W>, i: Insn)
    requires Relocates(p, q, l) && Alike(l, s, t) && p.Step(s).status != Faulted && s.status == Running
    requires 0 <= s.pc < |p.code| && |q.code| == |p.code| && i == p.code[s.pc] == q.code[s.pc] && i.opcode != LDDW
    ensures Alike(l, p.Step(s), q.Step(t))
  {
    hide Program.Wide, Program.Call, Program.Enter, Program.Leave, Program.StoreAt, Program.LoadFrom, Program.Atomic,
         Program.Compute, Honest, Consistent, Relocated, MemAlike, FramesAlike, Link.Pointer, U64;
    var d, v := Get(s.regs, i.dst), Get(s.regs, i.src);
    assert Get(t.regs, i.dst) == l.Value(d) && Get(t.regs, i.src) == l.Value(v);
    hide RegsAlike;
    if i.opcode == EXIT {
      LeaveAlike(p, q, l, s, t);
    } else if IsLocalCall(i) {
      EnterAlike(p, q, l, s, t, i);
    } else if IsCall(i) {
      CallAlike(p, q, l, s, t, i.imm);
    } else if i.opcode == MOV64_REG && i.offset == 0 {
      RegSet(l, s.regs, t.regs, i.dst, v);
    } else if IsMemory(i, 1) {
      LoadFromAlike(p, q, l, s, t, v, i.offset, i.dst, AccessWidth(i));
    } else if IsMemory(i, 2) {
      StoreAtAlike(p, q, l, s, t, d, i.offset, Num(U64(i.imm)), AccessWidth(i));
    } else if IsMemory(i, 3) {
      StoreAtAlike(p, q, l, s, t, d, i.offset, v, AccessWidth(i));
    } else if i.opcode in {ATOMIC32, ATOMIC64} {
      AtomicAlike(p, q, l, s, t, i);
    } else {
      ComputeAlike(p, q, l, s, t, i);
    }
  }

  /** For every program, every meaning of its instructions and helpers and every start: as long as the original, run
      over maps known by descriptor, does nothing with a map but move, spill, read back and pass it, and no helper looks
      at a spilled one, the relocated program, run over maps known by id, goes through the same steps with the same
      values in registers and memory, the same effects on the same maps and the same result. */
  lemma {:induction false} RelocationPreservesMeaning<W(!new)>(
      p: Program<W>, q: Program<W>, l: Link, s: State<W>, t: State<W>, n: nat)
    requires Relocates(p, q, l) && Alike(l, s, t)
    ensures p.Run(n, s).status != Faulted ==> Alike(l, p.Run(n, s), q.Run(n, t))
  {
    hide Program.Step, Alike, Relocates;
    if n > 0 {
      RelocationPreservesMeaning(p, q, l, s, t, n - 1);
      if p.Run(n, s).status != Faulted {
        FaultStays(p, p.Run(n - 1, s));
        StepAlike(p, q, l, p.Run(n - 1, s), q.Run(n - 1, t));
      }
    }
  }

  lemma FaultStays<W>(p: Program<W>, s: State<W>)
    ensures s.status == Faulted ==> p.Step(s).status == Faulted
  {
  }
}
