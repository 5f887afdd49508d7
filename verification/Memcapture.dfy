/** The instructions put in front of a probe program so that it starts with r1 pointing at a C string: the text
    of the PTX line being captured. */
module Memcapture {
  import opened Words
  import opened Ebpf

  /** Bitwise or. */
  function Or(a: nat, b: nat): nat
    decreases a
  {
    if a == 0 then b
    else (if a % 2 == 1 || b % 2 == 1 then 1 else 0) + 2 * Or(a / 2, b / 2)
  }

  /** A byte of the line as the signed char it is read as. */
  function SignedChar(c: Byte): int {
    if c < 128 then c else c - 256
  }

  /** The first j characters from index i on, packed into a word. */
  function Packed(line: seq<Byte>, i: nat, j: nat): nat
    requires i + j <= |line|
  {
    if j == 0 then 0
    else Or(Packed(line, i, j - 1), U64(U64(SignedChar(line[i + j - 1])) * Pow256(j - 1)))
  }

  function Count(line: seq<Byte>, i: nat): nat
    requires i <= |line|
  {
    if |line| - i < 8 then |line| - i else 8
  }

  function WordInsns(w: nat, i: nat): seq<Insn> {
    [Insn(LDDW, 2, 0, 0, S32(w)), Insn(0, 0, 0, 0, S32(w / TWO32)), Insn(STXDW, 1, 2, S16(i), 0)]
  }

  /** The line's length with its terminator, rounded up to whole words. */
  function TotalLength(line: seq<Byte>): nat {
    var n := |line| + 1;
    n / 8 * 8 + if n % 8 != 0 then 8 else 0
  }

  /** How many words hold characters. */
  function WordCount(line: seq<Byte>): (n: nat)
    ensures 8 * (n - 1) < |line| <= 8 * n || (n == 0 && |line| == 0)
  {
    (|line| + 7) / 8
  }

  function Header(line: seq<Byte>): seq<Insn> {
    [Insn(STDW, 10, 0, -8, 0), Insn(SUB64_IMM, 10, 0, 0, S32(TotalLength(line))), Insn(MOV64_REG, 1, 10, 0, 0)]
  }

  /** Code for the first n words. */
  function Prologue(line: seq<Byte>, n: nat): (r: seq<Insn>)
    requires n <= WordCount(line)
    ensures |r| == 3 + 3 * n
  {
    if n == 0 then Header(line)
    else Prologue(line, n - 1) + WordInsns(Packed(line, 8 * (n - 1), Count(line, 8 * (n - 1))), 8 * (n - 1))
  }

  method PackWord(line: seq<Byte>, i: nat) returns (word: nat)
    requires i <= |line|
    ensures word == Packed(line, i, Count(line, i))
  {
    hide Or, U64, SignedChar, Pow256;
    word := 0;
    var j: nat := 0;
    while j < 8 && i + j < |line|
      invariant j <= Count(line, i)
      invariant word == Packed(line, i, j)
    {
      word := Or(word, U64(U64(SignedChar(line[i + j])) * Pow256(j)));
      j := j + 1;
    }
  }

  /** Builds the prologue for a line and puts it in front of a program. */
  method PrependCapture(line: seq<Byte>, body: seq<Insn>) returns (insts: seq<Insn>)
    ensures insts == Prologue(line, WordCount(line)) + body
  {
    hide Packed, S16, S32;
    var n := |line| + 1;
    var total := n / 8 * 8 + if n % 8 != 0 then 8 else 0;
    var entry := [Insn(STDW, 10, 0, -8, 0), Insn(SUB64_IMM, 10, 0, 0, S32(total)), Insn(MOV64_REG, 1, 10, 0, 0)];
    var i: nat := 0;
    ghost var words: nat := 0;
    while i < |line|
      invariant i == 8 * words && words <= WordCount(line)
      invariant entry == Prologue(line, words)
    {
      var word := PackWord(line, i);
      entry := entry + [Insn(LDDW, 2, 0, 0, S32(word)), Insn(0, 0, 0, 0, S32(word / TWO32)),
                        Insn(STXDW, 1, 2, S16(i), 0)];
      words := words + 1;
      i := i + 8;
    }
    insts := entry + body;
  }

  // ---------------------------------------------------------------- what a packed word holds

  lemma OrOnes(n: nat, y: nat)
    requires y < Pow256(n)
    ensures Or(Pow256(n) - 1, y) == Pow256(n) - 1
  {
    hide Or, Pow256, Pow2;
    Pow256Bits(n);
    OrBitOnes(8 * n, y);
  }

  function Pow2(n: nat): (r: nat)
    ensures r >= 1
  {
    if n == 0 then 1 else 2 * Pow2(n - 1)
  }

  lemma {:induction false} Pow256Bits(n: nat)
    ensures Pow256(n) == Pow2(8 * n)
  {
    if n > 0 {
      Pow256Bits(n - 1);
      Pow2Eight(8 * (n - 1));
    }
  }

  lemma Pow2Eight(k: nat)
    ensures Pow2(k + 8) == 256 * Pow2(k)
  {
    assert Pow2(k + 2) == 4 * Pow2(k);
    assert Pow2(k + 4) == 16 * Pow2(k);
    assert Pow2(k + 6) == 64 * Pow2(k);
  }

  lemma {:induction false} OrBitOnes(n: nat, y: nat)
    requires y < Pow2(n)
    ensures Or(Pow2(n) - 1, y) == Pow2(n) - 1
  {
    if n > 0 {
      OrBitOnes(n - 1, y / 2);
      assert (Pow2(n) - 1) / 2 == Pow2(n - 1) - 1;
    }
  }

  /** Or-ing something shifted past the low part leaves the low part alone. */
  lemma {:induction false} OrShift(n: nat, low: nat, high: nat, x: nat)
    requires low < Pow2(n)
    ensures Or(low + Pow2(n) * high, Pow2(n) * x) == low + Pow2(n) * Or(high, x)
  {
    hide Or, Pow2;
    Pow2Step(n);
    if n == 0 {
      assert Pow2(0) * high == high && Pow2(0) * x == x;
    } else {
      var p := Pow2(n - 1);
      OrShift(n - 1, low / 2, high, x);
      Double(p, high);
      Double(p, x);
      Double(p, Or(high, x));
      OrShiftOne(low, p * high, p * x, p * Or(high, x));
    }
  }

  lemma Pow2Step(n: nat)
    ensures Pow2(n) == if n == 0 then 1 else 2 * Pow2(n - 1)
  {
  }

  lemma OrShiftOne(low: nat, h: nat, y: nat, o: nat)
    requires Or(low / 2 + h, y) == low / 2 + o
    ensures Or(low + 2 * h, 2 * y) == low + 2 * o
  {
    hide Or;
    OrHalves(low + 2 * h, 2 * y);
  }

  lemma Double(p: int, z: int)
    ensures (2 * p) * z == 2 * (p * z)
  {
  }

  lemma OrHalves(a: nat, b: nat)
    requires b % 2 == 0
    ensures Or(a, b) == a % 2 + 2 * Or(a / 2, b / 2)
  {
  }

  /** Whether one of the first n characters of the word at i is negative as a char. */
  predicate Negative(line: seq<Byte>, i: nat, n: nat) {
    n > 0 && (Negative(line, i, n - 1) || (i + n - 1 < |line| && line[i + n - 1] >= 128))
  }

  /** Byte p of the packed word at i: sign extension smears ones over everything after a negative char. */
  function WordByte(line: seq<Byte>, i: nat, p: nat): Byte {
    if Negative(line, i, p) then 255 else if i + p < |line| then line[i + p] else 0
  }

  /** Byte k of all the packed words in a row. */
  function LineByte(line: seq<Byte>, k: nat): Byte {
    WordByte(line, 8 * (k / 8), k % 8)
  }

  function WordBytes(line: seq<Byte>, i: nat, n: nat): (r: seq<Byte>)
    ensures |r| == n && forall p :: 0 <= p < n ==> r[p] == WordByte(line, i, p)
  {
    if n == 0 then [] else WordBytes(line, i, n - 1) + [WordByte(line, i, n - 1)]
  }

  function Fill(line: seq<Byte>, i: nat, n: nat): nat
    requires n <= 8
  {
    if Negative(line, i, n) then Pow256(8 - n) - 1 else 0
  }

  /** The place-value digit of a sign-extended character when q is the room above it. */
  function Extended(c: Byte, q: int): int {
    if c < 128 then c else c + 256 * (q - 1)
  }

  lemma ShiftedCharAt(c: Byte, p: int, q: int)
    requires p >= 1 && q >= 1 && p * (256 * q) == TWO64
    ensures U64(U64(SignedChar(c)) * p) == p * Extended(c, q)
    ensures 0 <= Extended(c, q) < 256 * q
  {
    MulAtLeast(256 * p, q);
    assert (256 * p) * q == p * (256 * q);
    if c < 128 {
      assert c * p <= 127 * p;
      ModUnique(c * p, TWO64, 0, c * p);
    } else {
      var d := 256 - c;
      var dp := d * p;
      assert 1 <= dp <= 128 * p by { MulAtLeast(p, d); assert d * p <= 128 * p; }
      assert U64(c - 256) == TWO64 - d;
      SubMul(TWO64, d, p);
      ModUnique((TWO64 - d) * p, TWO64, p - 1, TWO64 - dp);
      SplitDigit(p, c, q);
    }
  }

  lemma SubMul(t: int, d: int, p: int)
    ensures (t - d) * p == t * (p - 1) + (t - d * p)
  {
  }

  lemma SplitDigit(p: int, c: int, q: int)
    ensures p * (c + 256 * (q - 1)) == p * (256 * q) - (256 - c) * p
  {
  }

  lemma ShiftedChar(c: Byte, n: nat)
    requires n < 8
    ensures U64(U64(SignedChar(c)) * Pow256(n)) == Pow256(n) * Extended(c, Pow256(7 - n))
    ensures 0 <= Extended(c, Pow256(7 - n)) < Pow256(8 - n)
  {
    Pow256Sum(n, 8 - n);
    Pow256Of8();
    assert Pow256(8 - n) == 256 * Pow256(7 - n);
    hide Pow256, Extended, U64, SignedChar;
    ShiftedCharAt(c, Pow256(n), Pow256(7 - n));
  }

  /** What or-ing in the next character does above the settled bytes. */
  lemma FillStep(line: seq<Byte>, i: nat, n: nat)
    requires n < 8 && i + n < |line|
    ensures Or(Fill(line, i, n), Extended(line[i + n], Pow256(7 - n))) ==
            WordByte(line, i, n) + 256 * Fill(line, i, n + 1)
  {
    assert Pow256(8 - n) == 256 * Pow256(7 - n);
    hide Pow256;
    if Negative(line, i, n) {
      ShiftedChar(line[i + n], n);
      OrOnes(8 - n, Extended(line[i + n], Pow256(7 - n)));
    }
  }

  /** One more character: byte n of the word is settled and the fill above it shrinks. */
  lemma PackStep(line: seq<Byte>, i: nat, n: nat, low: nat)
    requires n < 8 && i + n < |line| && low < Pow256(n)
    ensures Or(low + Pow256(n) * Fill(line, i, n), U64(U64(SignedChar(line[i + n])) * Pow256(n))) ==
            low + Pow256(n) * WordByte(line, i, n) + Pow256(n + 1) * Fill(line, i, n + 1)
  {
    hide Pow256, Or, Fill, WordByte, U64, SignedChar, Extended;
    Pow256Next(n);
    var c := line[i + n];
    ShiftedChar(c, n);
    OrShiftBytes(n, low, Fill(line, i, n), Extended(c, Pow256(7 - n)));
    FillStep(line, i, n);
    Spread(Pow256(n), WordByte(line, i, n), Fill(line, i, n + 1));
  }

  lemma Pow256Next(n: nat)
    ensures Pow256(n + 1) == 256 * Pow256(n)
  {
  }

  lemma OrShiftBytes(n: nat, low: nat, high: nat, x: nat)
    requires low < Pow256(n)
    ensures Or(low + Pow256(n) * high, Pow256(n) * x) == low + Pow256(n) * Or(high, x)
  {
    hide Pow256, Pow2, Or;
    Pow256Bits(n);
    OrShift(8 * n, low, high, x);
  }

  lemma Spread(p: int, b: int, f: int)
    ensures p * (b + 256 * f) == p * b + (256 * p) * f
  {
  }

  /** Past the last character the word repeats its fill. */
  lemma PadStep(line: seq<Byte>, i: nat, n: nat)
    requires n < 8 && i + n >= |line|
    ensures Pow256(n) * Fill(line, i, n) == Pow256(n) * WordByte(line, i, n) + Pow256(n + 1) * Fill(line, i, n + 1)
  {
    assert Pow256(8 - n) == 256 * Pow256(7 - n) && Pow256(n + 1) == 256 * Pow256(n);
    hide Pow256;
    Spread(Pow256(n), WordByte(line, i, n), Fill(line, i, n + 1));
  }

  lemma {:induction false} PackedSoFar(line: seq<Byte>, i: nat, n: nat)
    requires i <= |line| && n <= 8
    ensures Packed(line, i, if n < Count(line, i) then n else Count(line, i)) ==
            FromLittleEndian(WordBytes(line, i, n)) + Pow256(n) * Fill(line, i, n)
  {
    if n > 0 {
      hide Pow256, Fill, WordByte, FromLittleEndian, Or, U64, SignedChar;
      PackedSoFar(line, i, n - 1);
      var low := FromLittleEndian(WordBytes(line, i, n - 1));
      FromLittleEndianAppend(WordBytes(line, i, n - 1), WordByte(line, i, n - 1));
      if n <= Count(line, i) {
        PackStep(line, i, n - 1, low);
      } else {
        PadStep(line, i, n - 1);
      }
    }
  }

  lemma FillTop(line: seq<Byte>, i: nat)
    ensures Fill(line, i, 8) == 0
  {
    assert Pow256(0) == 1;
  }

  /** The packed word is exactly its eight bytes, smearing included. */
  lemma PackedBytes(line: seq<Byte>, i: nat)
    requires i <= |line|
    ensures LittleEndian(Packed(line, i, Count(line, i)), 8) == WordBytes(line, i, 8)
    ensures Packed(line, i, Count(line, i)) < TWO64
  {
    FillTop(line, i);
    Pow256Of8();
    hide Fill, Pow256, FromLittleEndian, LittleEndian, Packed;
    PackedSoFar(line, i, 8);
    LittleEndianInverse(WordBytes(line, i, 8));
  }

  // ---------------------------------------------------------------- running the prologue

  lemma WideImmSplit(w: nat)
    requires w < TWO64
    ensures WideImm(S32(w), S32(w / TWO32)) == w
  {
    LowHalf(w);
    LowHalf(w / TWO32);
  }

  lemma LowHalf(x: nat)
    ensures U32(S32(x)) == x % TWO32
  {
    var q, r := (x + TWO31) / TWO32, (x + TWO31) % TWO32;
    var y := S32(x);
    assert x == TWO32 * q + y;
    ModUnique(x, TWO32, x / TWO32, x % TWO32);
    var d := q - x / TWO32;
    assert y == TWO32 * -d + x % TWO32;
    ModUnique(y, TWO32, -d, x % TWO32);
  }

  lemma {:induction false} ProloguePrefix(line: seq<Byte>, k: nat, n: nat)
    requires k <= n <= WordCount(line)
    ensures Prologue(line, k) <= Prologue(line, n)
    decreases n
  {
    hide Header, WordInsns;
    if k < n { ProloguePrefix(line, k, n - 1); }
  }

  function WordAt(line: seq<Byte>, k: nat): nat
    requires k < WordCount(line)
  {
    Packed(line, 8 * k, Count(line, 8 * k))
  }

  lemma PrologueWord(line: seq<Byte>, k: nat, body: seq<Insn>)
    requires k < WordCount(line)
    ensures var code := Prologue(line, WordCount(line)) + body;
            code[3 + 3 * k] == Insn(LDDW, 2, 0, 0, S32(WordAt(line, k))) &&
            code[4 + 3 * k] == Insn(0, 0, 0, 0, S32(WordAt(line, k) / TWO32)) &&
            code[5 + 3 * k] == Insn(STXDW, 1, 2, S16(8 * k), 0)
  {
    var code := Prologue(line, WordCount(line));
    ProloguePrefix(line, k + 1, WordCount(line));
    var part := Prologue(line, k + 1);
    hide Packed, S32, S16;
    assert part == Prologue(line, k) + WordInsns(WordAt(line, k), 8 * k);
    assert code[3 + 3 * k] == part[3 + 3 * k] && code[4 + 3 * k] == part[4 + 3 * k];
    assert code[5 + 3 * k] == part[5 + 3 * k];
  }

  lemma PrologueHead(line: seq<Byte>, body: seq<Insn>)
    ensures var code := Prologue(line, WordCount(line)) + body;
            code[0] == Header(line)[0] && code[1] == Header(line)[1] && code[2] == Header(line)[2]
  {
    ProloguePrefix(line, 0, WordCount(line));
    hide Header;
    assert Prologue(line, 0) == Header(line);
  }

  /** Memory after n words have been stored from r1 on, each through a 16-bit offset. */
  function StoredWords(m: Memory, r1: nat, line: seq<Byte>, n: nat): Memory
    requires n <= WordCount(line)
  {
    if n == 0 then m
    else StoreWord(StoredWords(m, r1, line, n - 1), U64(r1 + S16(8 * (n - 1))), WordAt(line, n - 1), 8)
  }

  /** The state with n words stored. */
  function Captured(s: State, line: seq<Byte>, n: nat): State
    requires n <= WordCount(line) && TotalLength(line) <= Reg(s.regs, 10)
  {
    var r10 := Reg(s.regs, 10);
    var r1 := r10 - TotalLength(line);
    var regs := s.regs[10 := r1][1 := r1];
    s.(pc := 3 + 3 * n, regs := if n == 0 then regs else regs[2 := WordAt(line, n - 1)],
       mem := StoredWords(StoreWord(s.mem, r10 - 8, 0, 8), r1, line, n))
  }

  /** A program with the prologue in front, about to start, with stack room for the line. */
  ghost predicate Starts(vm: Vm, line: seq<Byte>, s: State) {
    Prologue(line, WordCount(line)) <= vm.code && s.pc == 0 && s.status == Running &&
    TotalLength(line) < TWO31 && TotalLength(line) <= Reg(s.regs, 10) < TWO64 &&
    (|line| > 0x8000 ==> Reg(s.regs, 10) - TotalLength(line) >= 0x8000)
  }

  lemma TotalBounds(line: seq<Byte>)
    ensures TotalLength(line) >= 8 && TotalLength(line) % 8 == 0
    ensures |line| < TotalLength(line) <= |line| + 8 && 8 * WordCount(line) <= TotalLength(line)
  {
  }

  ghost predicate Fetches(vm: Vm, s: State, i: Insn) {
    s.status == Running && 0 <= s.pc < |vm.code| && vm.code[s.pc] == i
  }

  lemma StoreConstStep(vm: Vm, s: State, a: nat)
    requires Fetches(vm, s, Insn(STDW, 10, 0, -8, 0)) && Reg(s.regs, 10) == a + 8 <= TWO64
    ensures vm.Step(s) == s.(pc := s.pc + 1, mem := StoreWord(s.mem, a, 0, 8))
  {
    hide StoreWord;
    assert U64(a) == a && U64(0) == 0;
  }

  lemma SubStep(vm: Vm, s: State, n: nat)
    requires Fetches(vm, s, Insn(SUB64_IMM, 10, 0, 0, n)) && n <= Reg(s.regs, 10) < TWO64
    ensures vm.Step(s) == s.(pc := s.pc + 1, regs := s.regs[10 := Reg(s.regs, 10) - n])
  {
  }

  lemma MoveStep(vm: Vm, s: State)
    requires Fetches(vm, s, Insn(MOV64_REG, 1, 10, 0, 0))
    ensures vm.Step(s) == s.(pc := s.pc + 1, regs := s.regs[1 := Reg(s.regs, 10)])
  {
  }

  lemma WideStep(vm: Vm, s: State, low: int, high: int)
    requires Fetches(vm, s, Insn(LDDW, 2, 0, 0, low)) && s.pc + 1 < |vm.code|
    requires vm.code[s.pc + 1] == Insn(0, 0, 0, 0, high)
    ensures vm.Step(s) == s.(pc := s.pc + 2, regs := s.regs[2 := WideImm(low, high)])
  {
    hide WideImm;
  }

  lemma StoreRegStep(vm: Vm, s: State, o: int)
    requires Fetches(vm, s, Insn(STXDW, 1, 2, o, 0)) && U64(Reg(s.regs, 1) + o) + 8 <= TWO64
    ensures vm.Step(s) == s.(pc := s.pc + 1, mem := StoreWord(s.mem, U64(Reg(s.regs, 1) + o), Reg(s.regs, 2), 8))
  {
    hide StoreWord, U64;
  }

  lemma HeaderRuns(vm: Vm, line: seq<Byte>, s: State)
    requires Starts(vm, line, s)
    ensures vm.Run(3, s) == Captured(s, line, 0)
  {
    hide Prologue, TotalLength, WordCount, StoreWord, Vm.Step, Vm.Run, S32;
    TotalBounds(line);
    PrologueHead(line, vm.code[|Prologue(line, WordCount(line))|..]);
    HeaderSteps(vm, s, TotalLength(line));
  }

  lemma HeaderSteps(vm: Vm, s: State, total: nat)
    requires s.pc == 0 && s.status == Running && |vm.code| >= 3
    requires vm.code[0] == Insn(STDW, 10, 0, -8, 0) && vm.code[1] == Insn(SUB64_IMM, 10, 0, 0, total)
    requires vm.code[2] == Insn(MOV64_REG, 1, 10, 0, 0) && 8 <= total <= Reg(s.regs, 10) < TWO64
    ensures var r10 := Reg(s.regs, 10);
            vm.Run(3, s) ==
            s.(pc := 3, regs := s.regs[10 := r10 - total][1 := r10 - total], mem := StoreWord(s.mem, r10 - 8, 0, 8))
  {
    hide StoreWord, Vm.Step;
    StoreConstStep(vm, s, Reg(s.regs, 10) - 8);
    var s1 := vm.Step(s);
    SubStep(vm, s1, total);
    var s2 := vm.Step(s1);
    MoveStep(vm, s2);
    assert vm.Run(1, s) == s1;
    assert vm.Run(2, s) == s2;
    assert vm.Run(3, s) == vm.Step(s2);
  }

  lemma WordAddress(line: seq<Byte>, r10: nat, n: nat)
    requires n < WordCount(line) && TotalLength(line) <= r10 < TWO64
    requires |line| > 0x8000 ==> r10 - TotalLength(line) >= 0x8000
    ensures var a := r10 - TotalLength(line) + S16(8 * n); U64(a) == a && a + 8 <= r10
  {
    TotalBounds(line);
    OffsetBounds(8 * n);
  }

  lemma WordFetched(vm: Vm, line: seq<Byte>, s: State, n: nat)
    requires Starts(vm, line, s) && n < WordCount(line)
    ensures 5 + 3 * n < |vm.code| && vm.code[3 + 3 * n] == Insn(LDDW, 2, 0, 0, S32(WordAt(line, n)))
    ensures vm.code[4 + 3 * n] == Insn(0, 0, 0, 0, S32(WordAt(line, n) / TWO32))
    ensures vm.code[5 + 3 * n] == Insn(STXDW, 1, 2, S16(8 * n), 0)
  {
    PrologueWord(line, n, vm.code[|Prologue(line, WordCount(line))|..]);
    hide Prologue, S16, S32, WordAt;
  }

  lemma WordRuns(vm: Vm, line: seq<Byte>, s: State, n: nat)
    requires Starts(vm, line, s) && n < WordCount(line)
    ensures vm.Step(vm.Step(Captured(s, line, n))) == Captured(s, line, n + 1)
  {
    hide Prologue, TotalLength, WordCount, StoreWord, WideImm, S16, S32, U64, Vm.Step, Starts, WordAt, Captured;
    WordFetched(vm, line, s, n);
    StartsRoom(vm, line, s);
    WordAddress(line, Reg(s.regs, 10), n);
    var w, t := WordAt(line, n), Captured(s, line, n);
    CapturedNext(s, line, n);
    WideImmSplit(w);
    WideStep(vm, t, S32(w), S32(w / TWO32));
    StoreRegStep(vm, vm.Step(t), S16(8 * n));
  }

  /** One more word stored. */
  lemma CapturedNext(s: State, line: seq<Byte>, n: nat)
    requires n < WordCount(line) && TotalLength(line) <= Reg(s.regs, 10)
    ensures var t, w, r1 := Captured(s, line, n), WordAt(line, n), Reg(s.regs, 10) - TotalLength(line);
            t.pc == 3 + 3 * n && t.status == s.status && Reg(t.regs, 1) == r1 && w < TWO64 &&
            Captured(s, line, n + 1) ==
            t.(pc := t.pc + 3, regs := t.regs[2 := w], mem := StoreWord(t.mem, U64(r1 + S16(8 * n)), w, 8))
  {
    hide TotalLength, WordCount, StoreWord, StoredWords, WordAt, S16, U64;
    var r10 := Reg(s.regs, 10);
    StoredNext(StoreWord(s.mem, r10 - 8, 0, 8), r10 - TotalLength(line), line, n);
    WordFits(line, n);
    var t := Captured(s, line, n);
    assert t.regs[2 := WordAt(line, n)] == Captured(s, line, n + 1).regs;
  }

  lemma StoredNext(m: Memory, r1: nat, line: seq<Byte>, n: nat)
    requires n < WordCount(line)
    ensures StoredWords(m, r1, line, n + 1) ==
            StoreWord(StoredWords(m, r1, line, n), U64(r1 + S16(8 * n)), WordAt(line, n), 8)
  {
    hide StoreWord, WordAt, S16, U64;
  }

  lemma WordFits(line: seq<Byte>, n: nat)
    requires n < WordCount(line)
    ensures WordAt(line, n) < TWO64
  {
    hide Packed;
    PackedBytes(line, 8 * n);
  }

  lemma StartsRoom(vm: Vm, line: seq<Byte>, s: State)
    requires Starts(vm, line, s)
    ensures TotalLength(line) <= Reg(s.regs, 10) < TWO64 && s.status == Running
    ensures |line| > 0x8000 ==> Reg(s.regs, 10) - TotalLength(line) >= 0x8000
  {
    hide Prologue, TotalLength;
  }

  lemma OffsetBounds(i: nat)
    ensures -0x8000 <= S16(i) <= i
    ensures i < 0x8000 ==> S16(i) == i
    ensures i % 8 == 0 ==> S16(i) <= 0x7ff8
  {
    if i % 8 == 0 {
      assert (i + 0x8000) % TWO16 % 8 == 0 by {
        var q := (i + 0x8000) / TWO16;
        assert (i + 0x8000) % TWO16 == i + 0x8000 - TWO16 * q;
      }
    }
  }

  lemma {:induction false} PrologueRuns(vm: Vm, line: seq<Byte>, s: State, n: nat)
    requires Starts(vm, line, s) && n <= WordCount(line)
    ensures vm.Run(3 + 2 * n, s) == Captured(s, line, n)
  {
    hide Vm.Step, Captured, Starts;
    if n == 0 {
      HeaderRuns(vm, line, s);
    } else {
      PrologueRuns(vm, line, s, n - 1);
      WordRuns(vm, line, s, n - 1);
      assert vm.Run(3 + 2 * n, s) == vm.Step(vm.Run(2 + 2 * n, s));
      assert vm.Run(2 + 2 * n, s) == vm.Step(vm.Run(1 + 2 * n, s));
    }
  }

  // ---------------------------------------------------------------- the captured string

  /** Memory holds the line at r1, followed by a NUL. */
  ghost predicate HoldsLine(m: Memory, r1: int, line: seq<Byte>) {
    (forall k :: 0 <= k < |line| ==> Peek(m, r1 + k) == line[k]) && Peek(m, r1 + |line|) == 0
  }

  /** Every character that is negative as a char is the last of its eight-byte group or followed by 0xff. */
  predicate SignSafe(line: seq<Byte>) {
    forall p :: 0 <= p < |line| && line[p] >= 128 && p % 8 != 7 ==> p + 1 < |line| && line[p + 1] == 255
  }

  /** Plain text: what is left after unprintable characters are filtered out. */
  predicate PlainText(line: seq<Byte>) {
    forall k :: 0 <= k < |line| ==> 0 < line[k] < 128
  }

  lemma StoreWordBytes(m: Memory, a: int, v: nat, k: int)
    ensures Peek(StoreWord(m, a, v, 8), k) == if a <= k < a + 8 then LittleEndian(v, 8)[k - a] else Peek(m, k)
  {
    hide LittleEndian;
  }

  /** Words at plain offsets fill exactly their own bytes. */
  lemma {:induction false} StoredBytes(m: Memory, r1: nat, line: seq<Byte>, n: nat, k: int)
    requires n <= WordCount(line) && |line| <= 0x8000 && r1 + 8 * WordCount(line) <= TWO64
    ensures Peek(StoredWords(m, r1, line, n), r1 + k) ==
            if 0 <= k < 8 * n then LineByte(line, k) else Peek(m, r1 + k)
  {
    hide LittleEndian, Packed, WordByte, StoreWord, Peek;
    if n > 0 {
      var i := 8 * (n - 1);
      StoredBytes(m, r1, line, n - 1, k);
      OffsetBounds(i);
      PackedBytes(line, i);
      assert U64(r1 + i) == r1 + i;
      StoreWordBytes(StoredWords(m, r1, line, n - 1), r1 + i, WordAt(line, n - 1), r1 + k);
      if i <= k < i + 8 {
        assert k / 8 == n - 1 && k % 8 == k - i;
        assert WordBytes(line, i, 8)[k - i] == WordByte(line, i, k - i);
      }
    }
  }

  lemma {:induction false} SafeNegative(line: seq<Byte>, i: nat, p: nat)
    requires SignSafe(line) && i % 8 == 0 && p <= 7 && Negative(line, i, p)
    ensures i + p < |line| && line[i + p] == 255
  {
    if Negative(line, i, p - 1) { SafeNegative(line, i, p - 1); }
    assert (i + p - 1) % 8 == p - 1;
  }

  lemma CapturedMem(line: seq<Byte>, s: State, n: nat)
    requires n <= WordCount(line) && TotalLength(line) <= Reg(s.regs, 10)
    ensures var r10 := Reg(s.regs, 10);
            Captured(s, line, n).mem ==
            StoredWords(StoreWord(s.mem, r10 - 8, 0, 8), r10 - TotalLength(line), line, n)
  {
    hide StoredWords, StoreWord, WordCount, WordAt;
  }

  /** Byte k of what the prologue leaves at r1. */
  lemma CapturedByte(line: seq<Byte>, s: State, k: nat)
    requires k <= |line| <= 0x8000 && TotalLength(line) <= Reg(s.regs, 10) < TWO64
    ensures var r1 := Reg(s.regs, 10) - TotalLength(line);
            Peek(Captured(s, line, WordCount(line)).mem, r1 + k) ==
            if k < 8 * WordCount(line) then LineByte(line, k) else 0
  {
    hide LineByte, StoredWords, StoreWord, Peek, Captured, WordCount, TotalLength, Reg;
    WordCover(line);
    CapturedMem(line, s, WordCount(line));
    var r10 := Reg(s.regs, 10);
    var r1 := r10 - TotalLength(line);
    var m := StoreWord(s.mem, r10 - 8, 0, 8);
    StoredBytes(m, r1, line, WordCount(line), k);
    StoreZero(s.mem, r10 - 8, r1 + k);
  }

  lemma WordCover(line: seq<Byte>)
    ensures |line| <= 8 * WordCount(line) <= TotalLength(line)
    ensures 8 * WordCount(line) <= |line| ==> TotalLength(line) == |line| + 8
  {
  }

  lemma {:induction false} ZeroBytes(n: nat, i: nat)
    requires i < n
    ensures LittleEndian(0, n)[i] == 0
  {
    if i > 0 { ZeroBytes(n - 1, i - 1); }
  }

  lemma StoreZero(m: Memory, a: int, k: int)
    ensures Peek(StoreWord(m, a, 0, 8), k) == if a <= k < a + 8 then 0 else Peek(m, k)
  {
    hide LittleEndian, StoreWord, Peek;
    StoreWordBytes(m, a, 0, k);
    if a <= k < a + 8 { ZeroBytes(8, k - a); }
  }

  /** Within reach of the offsets, the string is exactly the line followed by a NUL if and only if no negative
      char smears its sign over the bytes after it. */
  lemma CapturesIff(line: seq<Byte>, s: State)
    requires |line| <= 0x8000 && TotalLength(line) <= Reg(s.regs, 10) < TWO64
    ensures HoldsLine(Captured(s, line, WordCount(line)).mem, Reg(s.regs, 10) - TotalLength(line), line)
            <==> SignSafe(line)
  {
    hide Captured, TotalLength, Negative, Peek;
    var m, r1 := Captured(s, line, WordCount(line)).mem, Reg(s.regs, 10) - TotalLength(line);
    if SignSafe(line) {
      forall k | 0 <= k < |line|
        ensures Peek(m, r1 + k) == line[k]
      {
        SafeByte(line, s, k);
      }
      SafeByte(line, s, |line|);
    }
    if HoldsLine(m, r1, line) {
      forall p | 0 <= p < |line| && line[p] >= 128 && p % 8 != 7
        ensures p + 1 < |line| && line[p + 1] == 255
      {
        CapturedByte(line, s, p + 1);
        assert (p + 1) / 8 == p / 8 && (p + 1) % 8 == p % 8 + 1;
        NegativeHere(line, p);
        if p + 1 < |line| { assert Peek(m, r1 + (p + 1)) == line[p + 1]; }
      }
    }
  }

  lemma SafeByte(line: seq<Byte>, s: State, k: nat)
    requires |line| <= 0x8000 && TotalLength(line) <= Reg(s.regs, 10) < TWO64 && SignSafe(line) && k <= |line|
    ensures Peek(Captured(s, line, WordCount(line)).mem, Reg(s.regs, 10) - TotalLength(line) + k) ==
            if k < |line| then line[k] else 0
  {
    hide Captured, TotalLength, Negative, Peek, SignSafe, WordCount;
    CapturedByte(line, s, k);
    WordCover(line);
    if Negative(line, 8 * (k / 8), k % 8) { SafeNegative(line, 8 * (k / 8), k % 8); }
  }

  lemma NegativeHere(line: seq<Byte>, p: nat)
    requires p < |line| && line[p] >= 128
    ensures Negative(line, 8 * (p / 8), p % 8 + 1)
  {
    assert 8 * (p / 8) + (p % 8 + 1) - 1 == p;
  }

  lemma NoWrap(x: nat)
    requires x < TWO64
    ensures U64(x) == x
  {
  }

  lemma {:induction false} FarByteUntouched(m: Memory, r1: nat, line: seq<Byte>, n: nat)
    requires n <= WordCount(line) && 0x8000 <= r1 && r1 + 0x8000 <= TWO64
    ensures Peek(StoredWords(m, r1, line, n), r1 + 0x8000) == Peek(m, r1 + 0x8000)
  {
    hide WordAt, StoreWord, Peek, U64, S16, WordCount, LittleEndian;
    if n > 0 {
      var i := 8 * (n - 1);
      FarByteUntouched(m, r1, line, n - 1);
      OffsetBounds(i);
      NoWrap(r1 + S16(i));
      StoreWordBytes(StoredWords(m, r1, line, n - 1), r1 + S16(i), WordAt(line, n - 1), r1 + 0x8000);
    }
  }

  /** Past 0x8000 characters the 16-bit offset wraps: character 0x8000 is never stored, so a line with
      something there is captured only if memory happened to hold it already. */
  lemma LongLineLost(vm: Vm, line: seq<Byte>, s: State)
    requires Starts(vm, line, s) && |line| > 0x8000 && line[0x8000] != 0
    requires Peek(s.mem, Reg(s.regs, 10) - TotalLength(line) + 0x8000) != line[0x8000]
    ensures !HoldsLine(Captured(s, line, WordCount(line)).mem, Reg(s.regs, 10) - TotalLength(line), line)
  {
    hide Starts, StoredWords, StoreWord, Peek, TotalLength, WordCount, Captured;
    StartsRoom(vm, line, s);
    TotalBounds(line);
    CapturedMem(line, s, WordCount(line));
    var r10 := Reg(s.regs, 10);
    var r1 := r10 - TotalLength(line);
    FarByteUntouched(StoreWord(s.mem, r10 - 8, 0, 8), r1, line, WordCount(line));
    StoreZero(s.mem, r10 - 8, r1 + 0x8000);
    var m := Captured(s, line, WordCount(line)).mem;
    assert Peek(m, r1 + 0x8000) != line[0x8000];
  }

  /** Every start of a program behind this line's prologue finds the string. */
  ghost predicate AlwaysCaptured(line: seq<Byte>) {
    forall vm, s :: Starts(vm, line, s) ==>
      HoldsLine(vm.Run(3 + 2 * WordCount(line), s).mem, Reg(s.regs, 10) - TotalLength(line), line)
  }

  /** Plain text of any length the generator's 32-bit counters allow is captured on every start exactly when it
      has at most 0x8000 characters. */
  lemma PlainTextCapturedIff(line: seq<Byte>)
    requires PlainText(line) && TotalLength(line) < TWO31
    ensures AlwaysCaptured(line) <==> |line| <= 0x8000
  {
    hide Vm.Run, Captured, Starts, TotalLength, HoldsLine;
    if |line| <= 0x8000 {
      forall vm, s | Starts(vm, line, s)
        ensures HoldsLine(vm.Run(3 + 2 * WordCount(line), s).mem, Reg(s.regs, 10) - TotalLength(line), line)
      {
        StartsRoom(vm, line, s);
        PrologueRuns(vm, line, s, WordCount(line));
        CapturesIff(line, s);
      }
    } else {
      var vm, s := BareStart(line);
      PrologueRuns(vm, line, s, WordCount(line));
      LongLineLost(vm, line, s);
      assert !AlwaysCaptured(line);
    }
  }

  /** A start with untouched memory. */
  lemma BareStart(line: seq<Byte>) returns (vm: Vm, s: State)
    requires TotalLength(line) < TWO31
    ensures Starts(vm, line, s) && s.mem == map[]
  {
    vm := Vm(Prologue(line, WordCount(line)), (i, r, m) => (r, m), (i, h, r, m) => (r, m), (i, r) => false);
    s := State(0, map[10 := TWO32], map[], [], Running);
  }

  // ---------------------------------------------------------------- the program behind the prologue

  /** The state in which the probe program itself starts. */
  function ProbeEntry(s: State, line: seq<Byte>): State
    requires TotalLength(line) <= Reg(s.regs, 10)
  {
    Captured(s, line, WordCount(line)).(pc := 0)
  }

  /** Whatever the probe program is, prologue and program together run the prologue and then do, slot for slot,
      what the program alone does from ProbeEntry. */
  lemma ProbeRuns(probe: Vm, line: seq<Byte>, s: State, n: nat)
    requires StaysInside(probe.code) && s.frames == []
    requires Starts(probe.(code := Prologue(line, WordCount(line)) + probe.code), line, s)
    requires TotalLength(line) <= Reg(s.regs, 10)
    ensures var prefix := Prologue(line, WordCount(line));
            probe.(code := prefix + probe.code).Run(3 + 2 * WordCount(line) + n, s) ==
            Shifted(probe.Run(n, ProbeEntry(s, line)), |prefix|)
  {
    hide Vm.Run, Vm.Step, Starts, TotalLength, WordCount, StoredWords, StoreWord, WordAt;
    var prefix := Prologue(line, WordCount(line));
    var whole := probe.(code := prefix + probe.code);
    PrologueRuns(whole, line, s, WordCount(line));
    whole.RunSum(3 + 2 * WordCount(line), n, s);
    var e := ProbeEntry(s, line);
    assert e.frames == [];
    assert Shifted(e, |prefix|) == Captured(s, line, WordCount(line)) by { assert ShiftedFrames([], |prefix|) == []; }
    ShiftRun(probe, prefix, e, n);
  }

  // ---------------------------------------------------------------- the string stays

  /** The bytes from lo to hi are the same. */
  ghost predicate SameFrom(m: Memory, m': Memory, lo: int, hi: int) {
    forall a :: lo <= a < hi ==> Peek(m', a) == Peek(m, a)
  }

  /** Nothing but local calls and returns, helpers and other instructions may write r10. */
  predicate KeepsFramePointer(code: seq<Insn>) {
    forall k :: 0 <= k < |code| && code[k].opcode in {SUB64_IMM, MOV64_REG, LDDW} ==> code[k].dst != 10
  }

  /** A store goes through r10, to below it, or wherever it goes does not meet the bytes from lo to hi. */
  predicate StoresClear(s: State, i: Insn, lo: nat, hi: nat) {
    var a, w := U64(Reg(s.regs, i.dst) + i.offset), AccessWidth(i);
    (i.dst == 10 && -0x8000 <= i.offset && i.offset + w <= 0) || a + w <= lo || hi <= a
  }

  /** A helper call, or an instruction the interpreter does not spell out. */
  predicate IsOther(i: Insn) {
    i.opcode !in {LDDW, EXIT, SUB64_IMM, MOV64_REG} && !IsLocalCall(i) && !IsJump(i) && !IsStore(i)
  }

  /** What a helper or another instruction does leaves r10 and the bytes from lo to hi as they were. */
  ghost predicate Gentle(result: (Registers, Memory), s: State, lo: nat, hi: nat) {
    Reg(result.0, 10) == Reg(s.regs, 10) && SameFrom(s.mem, result.1, lo, hi)
  }

  /** The step about to be taken: its store is clear of the bytes from lo to hi, the helper it calls spares them, and
      local calls leave room for the largest offset. */
  ghost predicate Tame(vm: Vm, s: State, lo: nat, hi: nat) {
    0x8000 + FRAME_SIZE * |s.frames| <= lo &&
    (s.status == Running && 0 <= s.pc < |vm.code| ==>
      var i := vm.code[s.pc];
      (IsStore(i) ==> StoresClear(s, i, lo, hi)) &&
      (i.opcode == LDDW && i.src != 0 && s.pc + 1 < |vm.code| ==>
        Gentle(vm.wide(i, vm.code[s.pc + 1].imm, s.regs, s.mem), s, lo, hi)) &&
      (IsOther(i) ==> Gentle(vm.other(i, s.regs, s.mem), s, lo, hi)))
  }

  /** r10 is one frame lower for each local call under way. */
  predicate Framed(s: State, top: nat) {
    Reg(s.regs, 10) == top - FRAME_SIZE * |s.frames|
  }

  lemma ClearStoreStep(vm: Vm, s: State, lo: nat, hi: nat, i: Insn, v: nat)
    requires Framed(s, lo) && 0x8000 + FRAME_SIZE * |s.frames| <= lo < TWO64 && StoresClear(s, i, lo, hi)
    ensures var t := vm.StoreAt(s, U64(Reg(s.regs, i.dst) + i.offset), v, AccessWidth(i));
            Framed(t, lo) && SameFrom(s.mem, t.mem, lo, hi)
  {
    hide LittleEndian, AccessWidth;
    if i.dst == 10 && -0x8000 <= i.offset && i.offset + AccessWidth(i) <= 0 { NoWrap(Reg(s.regs, 10) + i.offset); }
  }

  lemma CallStep(vm: Vm, s: State, top: nat, i: Insn)
    requires Framed(s, top) && 0x8000 + FRAME_SIZE * |s.frames| <= top < TWO64
    ensures Framed(vm.Enter(s, i), top) && vm.Enter(s, i).mem == s.mem
    ensures Framed(vm.Leave(s), top) && vm.Leave(s).mem == s.mem
  {
    hide U64;
    var r10 := Reg(s.regs, 10);
    NoWrap(r10 - FRAME_SIZE);
    if s.frames != [] { NoWrap(r10 + FRAME_SIZE); }
  }

  /** One step. */
  lemma TameStep(vm: Vm, s: State, lo: nat, hi: nat)
    requires KeepsFramePointer(vm.code) && Framed(s, lo) && Tame(vm, s, lo, hi) && lo < TWO64
    ensures Framed(vm.Step(s), lo) && SameFrom(s.mem, vm.Step(s).mem, lo, hi)
  {
    hide Vm.StoreAt, Vm.Enter, Vm.Leave, U64, StoresClear, AccessWidth, WideImm;
    if s.status == Running && 0 <= s.pc < |vm.code| {
      var i := vm.code[s.pc];
      CallStep(vm, s, lo, i);
      if IsStore(i) {
        ClearStoreStep(vm, s, lo, hi, i, if i.opcode % 8 == 2 then U64(i.imm) else Reg(s.regs, i.src));
      }
    }
  }

  /** Over every run of tame steps, r10 is its entry value less one frame per local call under way, and the bytes from
      that value on up to hi stay as they were. */
  lemma {:induction false} TameRun(vm: Vm, s: State, lo: nat, hi: nat, n: nat)
    requires KeepsFramePointer(vm.code) && s.frames == [] && Reg(s.regs, 10) == lo < TWO64
    requires forall k | 0 <= k < n :: Tame(vm, vm.Run(k, s), lo, hi)
    ensures Framed(vm.Run(n, s), lo) && SameFrom(s.mem, vm.Run(n, s).mem, lo, hi)
  {
    hide Vm.Step, KeepsFramePointer, Tame;
    if n > 0 {
      TameRun(vm, s, lo, hi, n - 1);
      TameStep(vm, vm.Run(n - 1, s), lo, hi);
    }
  }

  /** Whatever a program does behind the prologue, with local calls and stores of any width through any register, the
      captured line is where the prologue put it after every number of steps, as long as stores that do not go below r10
      miss the string and helpers spare it. */
  lemma StringStays(probe: Vm, line: seq<Byte>, s: State, n: nat)
    requires StaysInside(probe.code) && KeepsFramePointer(probe.code) && s.frames == []
    requires |line| <= 0x8000 && SignSafe(line) && TotalLength(line) <= Reg(s.regs, 10) < TWO64
    requires Starts(probe.(code := Prologue(line, WordCount(line)) + probe.code), line, s)
    requires var top := Reg(s.regs, 10) - TotalLength(line);
             forall k | 0 <= k < n :: Tame(probe, probe.Run(k, ProbeEntry(s, line)), top, top + |line| + 1)
    ensures var whole := probe.(code := Prologue(line, WordCount(line)) + probe.code);
            HoldsLine(whole.Run(3 + 2 * WordCount(line) + n, s).mem, Reg(s.regs, 10) - TotalLength(line), line)
  {
    hide Vm.Run, Starts, TotalLength, WordCount, StoredWords, SignSafe, WordAt, Prologue, StoreWord, Tame,
         KeepsFramePointer;
    var top, e := Reg(s.regs, 10) - TotalLength(line), ProbeEntry(s, line);
    CapturesIff(line, s);
    assert Reg(e.regs, 10) == top && e.frames == [];
    TameRun(probe, e, top, top + |line| + 1, n);
    ProbeRuns(probe, line, s, n);
    LineKept(e.mem, probe.Run(n, e).mem, top, line);
  }

  lemma LineKept(m: Memory, m': Memory, top: nat, line: seq<Byte>)
    requires HoldsLine(m, top, line) && SameFrom(m, m', top, top + |line| + 1)
    ensures HoldsLine(m', top, line)
  {
    hide Peek;
  }

  // ---------------------------------------------------------------- where plain text comes from

  /** Characters dropped from PTX text: control characters other than tab and line feed, DEL, and non-ASCII. */
  predicate Unprintable(c: Byte) {
    c < 9 || 11 <= c < 32 || c >= 127
  }

  function Printables(input: seq<Byte>): (r: seq<Byte>)
    ensures forall k :: 0 <= k < |r| ==> !Unprintable(r[k])
  {
    if input == [] then [] else
      var c := input[|input| - 1];
      Printables(input[..|input| - 1]) + (if Unprintable(c) then [] else [c])
  }

  /** How many of the first n bytes are a tab, a line feed, or from a blank up to a tilde. */
  function Shown(input: seq<Byte>, n: nat): nat
    requires n <= |input|
  {
    if n == 0 then 0 else Shown(input, n - 1) + (if IsShown(input[n - 1]) then 1 else 0)
  }

  predicate IsShown(c: Byte) {
    c == 9 || c == 10 || 32 <= c <= 126
  }

  /** Exactly these bytes come through, each at the place that the number of those before it gives. */
  lemma {:induction false} PrintablesAre(input: seq<Byte>, n: nat)
    requires n <= |input|
    ensures |Printables(input[..n])| == Shown(input, n)
    ensures forall i :: 0 <= i < n && IsShown(input[i]) ==>
              Shown(input, i) < Shown(input, n) && Printables(input[..n])[Shown(input, i)] == input[i]
  {
    if n > 0 {
      PrintablesAre(input, n - 1);
      assert input[..n][..n - 1] == input[..n - 1];
    }
  }

  const CLOSING_BRACE: Byte := 125

  lemma {:induction false} BraceKept(input: seq<Byte>)
    requires CLOSING_BRACE in input
    ensures CLOSING_BRACE in Printables(input)
  {
    var n := |input| - 1;
    if input[n] != CLOSING_BRACE {
      assert input == input[..n] + [input[n]];
      BraceKept(input[..n]);
    }
  }

  /** Drops unprintable characters, then everything after the last closing brace. Text without one is outside
      what the original handles: it would pop from an empty string. */
  method FilterUnprintable(input: seq<Byte>) returns (result: seq<Byte>)
    requires CLOSING_BRACE in input
    ensures result <= Printables(input) && result != [] && result[|result| - 1] == CLOSING_BRACE
    ensures CLOSING_BRACE !in Printables(input)[|result|..]
    ensures forall i :: 0 <= i < |input| && IsShown(input[i]) && Shown(input, i) < |result| ==>
              result[Shown(input, i)] == input[i]
    ensures PlainText(result)
  {
    result := [];
    for i := 0 to |input|
      invariant result == Printables(input[..i])
    {
      assert input[..i + 1][..i] == input[..i];
      if !Unprintable(input[i]) {
        result := result + [input[i]];
      }
    }
    assert input[..|input|] == input;
    PrintablesAre(input, |input|);
    BraceKept(input);
    ghost var all := Printables(input);
    while result[|result| - 1] != CLOSING_BRACE
      invariant result <= all && CLOSING_BRACE in result && CLOSING_BRACE !in all[|result|..]
      decreases |result|
    {
      assert all[|result| - 1..] == [result[|result| - 1]] + all[|result|..];
      result := result[..|result| - 1];
    }
    assert forall k :: 0 <= k < |result| ==> result[k] == all[k];
  }

  /** Every line cut out of filtered text is captured as it is, if it is short enough. */
  lemma FilteredLinesSafe(text: seq<Byte>, lo: nat, hi: nat)
    requires PlainText(text) && lo <= hi <= |text|
    ensures PlainText(text[lo..hi]) && SignSafe(text[lo..hi])
  {
  }
}
