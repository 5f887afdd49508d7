/** PTX text as the register guard sees it: one constructor per line pattern it tells apart,
    plus the lines the guard itself emits. */
module Ptx {
  import opened Wrappers

  datatype Line =
    | FuncHeader(text: string)
    | OpenBrace
    | CloseBrace
    | RegDecl(ty: string, base: string, count: Option<nat>)
    | LocalDecl(text: string)
    | Comment(text: string)        // a comment, or blank but not empty
    | Empty
    | Label(name: string)
    | Branch(target: string)
    | CondBranch(pred: string, target: string)
    | Ret
    | PredRet(pred: string)
    | OtherRet(text: string)       // a return the pattern misses, such as `ret.uni;`
    | Instr(text: string)
    // Emitted by the guard.
    | SaveAreaDecl(size: nat)      // .local .align 8 .b8 save_area[size];
    | LoadBase                     // mov.u64 base, save_area;
    | AddOffset(offset: nat)       // add.u64 addr, base, offset;
    | SaveReg(modifier: string, reg: string)     // st.local<modifier> [addr], reg;
    | RestoreReg(modifier: string, reg: string)  // ld.local<modifier> reg, [addr];
    | Marker(text: string)         // comment lines around a guard block

  const TEMP_BASE := "%rd_ptx_instr_base"
  const TEMP_ADDR := "%rd_ptx_instr_addr"
  const TEMPS := {TEMP_BASE, TEMP_ADDR}

  /** Lines that may precede the first instruction: comments, blank lines and declarations. */
  predicate IsPreamble(l: Line) {
    l.RegDecl? || l.LocalDecl? || l.Comment? || l.Empty? || l.SaveAreaDecl? || l.Marker?
  }

  /** The return pattern `(@%pN)? ret;`. */
  predicate IsRet(l: Line) {
    l.Ret? || l.PredRet?
  }

  predicate IsTempDecl(l: Line) {
    l.RegDecl? && l.base in TEMPS
  }

  /** A line of the kinds the guard inserts, other than an empty one. */
  predicate IsGuardLine(l: Line) {
    l.SaveAreaDecl? || l.LoadBase? || l.AddOffset? || l.SaveReg? || l.RestoreReg? || l.Marker? || IsTempDecl(l)
  }
}

/** The line-by-line rewriting that saves a function's registers on entry and restores them before
    each return. */
module RegisterGuard {
  import opened Wrappers
  import opened Ptx

  const INT_MAX: nat := 0x7fff_ffff

  /** A register declaration chosen for saving. */
  datatype RegInfo = RegInfo(base: string, count: int, names: seq<string>, modifier: string)

  /** One register and the storage type it is saved with. */
  datatype Slot = Slot(name: string, modifier: string)

  /** Register types and the byte widths they have; 0 for a type the guard does not know. */
  function RegisterSize(ty: string): (r: nat)
    ensures r in {0, 1, 2, 4, 8}
  {
    if ty in {".b8", ".s8", ".u8"} then 1
    else if ty in {".b16", ".s16", ".u16", ".f16"} then 2
    else if ty in {".b32", ".s32", ".u32", ".f32"} then 4
    else if ty in {".b64", ".s64", ".u64", ".f64", ".f64x2"} then 8
    else if ty == ".pred" then 1
    else 0
  }

  function StorageModifier(size: nat, ty: string): string {
    match size
    case 1 => ".u8"
    case 2 => ".u16"
    case 4 => ".u32"
    case 8 => ".u64"
    case _ => ty
  }

  function Decimal(n: nat): (r: string)
    ensures r != [] && r[|r| - 1] in "0123456789"
  {
    var d := ["0123456789"[n % 10]];
    if n < 10 then d else Decimal(n / 10) + d
  }

  function NumberedNames(base: string, n: nat): (r: seq<string>)
    ensures |r| == n && forall k :: 0 <= k < n ==> r[k] == base + Decimal(k)
  {
    if n == 0 then [] else NumberedNames(base, n - 1) + [base + Decimal(n - 1)]
  }

  predicate Excluded(l: Line)
    requires l.RegDecl?
  {
    l.ty == ".pred" || l.base in {"%SP", "%SPL"} || RegisterSize(l.ty) == 0 || l.base in TEMPS
  }

  /** An earlier declaration of the same base counts as a duplicate only when "has <N>" agrees with
      "holds more than one register". */
  predicate Conflicts(r: RegInfo, l: Line)
    requires l.RegDecl?
  {
    r.base == l.base && (l.count.Some? <==> r.count > 1)
  }

  function InfoOf(l: Line): RegInfo
    requires l.RegDecl?
  {
    var modifier := StorageModifier(RegisterSize(l.ty), l.ty);
    if l.count.Some? && l.count.value <= INT_MAX then
      RegInfo(l.base, l.count.value, NumberedNames(l.base, l.count.value), modifier)
    else
      RegInfo(l.base, 1, [l.base], modifier)
  }

  /** The declarations of `lines` that are saved, in order. */
  function Collected(lines: seq<Line>): seq<RegInfo> {
    if lines == [] then [] else
      var regs := Collected(lines[..|lines| - 1]);
      var l := lines[|lines| - 1];
      if !l.RegDecl? || Excluded(l) || (exists r :: r in regs && Conflicts(r, l)) then regs
      else regs + [InfoOf(l)]
  }

  function SlotsOf(r: RegInfo): (s: seq<Slot>)
    ensures |s| == |r.names|
    ensures forall i :: 0 <= i < |s| ==> s[i] == Slot(r.names[i], r.modifier)
  {
    seq(|r.names|, i requires 0 <= i < |r.names| => Slot(r.names[i], r.modifier))
  }

  function Slots(regs: seq<RegInfo>): seq<Slot> {
    if regs == [] then [] else Slots(regs[..|regs| - 1]) + SlotsOf(regs[|regs| - 1])
  }

  function SaveAreaSize(slots: seq<Slot>): (r: nat)
    ensures r % 8 == 0 && r >= 8 && r >= 8 * |slots|
  {
    if |slots| == 0 then 8 else 8 * |slots|
  }

  function DeclBlock(regs: seq<RegInfo>): seq<Line> {
    if regs == [] then [] else
      [SaveAreaDecl(SaveAreaSize(Slots(regs))), RegDecl(".b64", TEMP_BASE, None), RegDecl(".b64", TEMP_ADDR, None)]
  }

  /** Stores for the first n slots, at ascending offsets. */
  function Saves(slots: seq<Slot>, n: nat): (r: seq<Line>)
    requires n <= |slots|
    ensures |r| == 2 * n
  {
    if n == 0 then []
    else Saves(slots, n - 1) + [AddOffset(8 * (n - 1)), SaveReg(slots[n - 1].modifier, slots[n - 1].name)]
  }

  /** Loads for the slots from the last down to number n, at descending offsets. */
  function Restores(slots: seq<Slot>, n: nat): (r: seq<Line>)
    requires n <= |slots|
    ensures |r| == 2 * (|slots| - n)
    decreases |slots| - n
  {
    if n == |slots| then []
    else Restores(slots, n + 1) + [AddOffset(8 * n), RestoreReg(slots[n].modifier, slots[n].name)]
  }

  function PushBlock(slots: seq<Slot>): seq<Line> {
    if slots == [] then [] else
      [Marker("BEGIN REGISTER SAVING"), LoadBase] + Saves(slots, |slots|) + [Marker("END REGISTER SAVING")]
  }

  function PopBlock(slots: seq<Slot>): seq<Line> {
    if slots == [] then [] else
      [Empty, Marker("BEGIN REGISTER RESTORING"), LoadBase] + Restores(slots, 0) + [Marker("END REGISTER RESTORING")]
  }

  /** The three inserted texts: declarations, saving block, restoring block. */
  datatype Blocks = Blocks(decls: seq<Line>, push: seq<Line>, pop: seq<Line>)

  function BlocksFor(regs: seq<RegInfo>): Blocks {
    Blocks(DeclBlock(regs), PushBlock(Slots(regs)), PopBlock(Slots(regs)))
  }

  /** What is inserted in front of line i. */
  function Before(f: seq<Line>, i: nat, d: nat, g: Blocks): seq<Line>
    requires i < |f|
  {
    (if i == d then g.decls + g.push else []) + (if IsRet(f[i]) then g.pop else [])
  }

  /** What becomes of line i itself: an empty line vanishes. */
  function Kept(l: Line): seq<Line> {
    if l.Empty? then [] else [l]
  }

  /** The instrumented text of the first n lines of f, with d the end of the declarations. */
  function Instrumented(f: seq<Line>, n: nat, d: nat, g: Blocks): seq<Line>
    requires n <= |f|
  {
    if n == 0 then [] else Instrumented(f, n - 1, d, g) + Before(f, n - 1, d, g) + Kept(f[n - 1])
  }

  /** Index of the brace that opens the body, unless another line gets in the way. */
  function BraceFrom(f: seq<Line>, i: nat): (r: Option<nat>)
    requires i <= |f|
    ensures r.Some? <==> exists b :: i <= b < |f| && f[b].OpenBrace? && forall k :: i <= k < b ==> IsPreamble(f[k])
    ensures r.Some? ==> i <= r.value < |f| && f[r.value].OpenBrace? && forall k :: i <= k < r.value ==> IsPreamble(f[k])
    decreases |f| - i
  {
    if i == |f| then None
    else if f[i].OpenBrace? then Some(i)
    else if IsPreamble(f[i]) then BraceFrom(f, i + 1)
    else None
  }

  function OpeningBrace(f: seq<Line>): (r: Option<nat>)
    ensures r.Some? ==> r.value < |f|
  {
    BraceFrom(f, if f != [] && f[0].FuncHeader? then 1 else 0)
  }

  /** The first index from i on that holds neither a comment nor a declaration. */
  function DeclsEnd(f: seq<Line>, i: nat): (r: nat)
    requires i <= |f|
    ensures i <= r <= |f| && (r < |f| ==> !IsPreamble(f[r]))
    ensures forall k :: i <= k < r ==> IsPreamble(f[k])
    decreases |f| - i
  {
    if i < |f| && IsPreamble(f[i]) then DeclsEnd(f, i + 1) else i
  }

  function SavedRegs(f: seq<Line>, b: nat): seq<RegInfo>
    requires b < |f|
  {
    Collected(f[b + 1..DeclsEnd(f, b + 1)])
  }

  /** The guarded text of one function. */
  function GuardedFunction(f: seq<Line>): seq<Line> {
    match OpeningBrace(f)
    case None => f
    case Some(b) => Instrumented(f, |f|, DeclsEnd(f, b + 1), BlocksFor(SavedRegs(f, b)))
  }

  /** Where the scan stands: outside functions, between a header and its brace, or in a body. */
  datatype Mode = Outside | Definition | Body

  datatype Scan = Scan(mode: Mode, current: seq<Line>, result: seq<Line>)

  function ScanLine(s: Scan, l: Line): Scan {
    match s.mode
    case Outside =>
      if l.FuncHeader? then Scan(Definition, s.current + [l], s.result) else s.(result := s.result + [l])
    case Definition =>
      Scan(if l.OpenBrace? then Body else Definition, s.current + [l], s.result)
    case Body =>
      if l.CloseBrace? then Scan(Outside, [], s.result + GuardedFunction(s.current + [l]))
      else s.(current := s.current + [l])
  }

  function Scanned(text: seq<Line>): Scan {
    if text == [] then Scan(Outside, [], [])
    else ScanLine(Scanned(text[..|text| - 1]), text[|text| - 1])
  }

  /** The guarded text; a function the text leaves open is copied as it is. */
  function GuardedText(text: seq<Line>): seq<Line> {
    Scanned(text).result + Scanned(text).current
  }

  // ---------------------------------------------------------------- the rewriting, step by step

  method FindOpeningBrace(f: seq<Line>) returns (r: Option<nat>)
    ensures r == OpeningBrace(f)
  {
    var start := 0;
    if |f| > 0 && f[0].FuncHeader? {
      start := 1;
    }
    r := None;
    var i: nat := start;
    while i < |f|
      invariant start <= i <= |f|
      invariant BraceFrom(f, start) == BraceFrom(f, i)
    {
      if f[i].OpenBrace? {
        return Some(i);
      }
      if !IsPreamble(f[i]) {
        return None;
      }
      i := i + 1;
    }
  }

  method CollectRegisters(f: seq<Line>, lo: nat, hi: nat) returns (regs: seq<RegInfo>)
    requires lo <= hi <= |f|
    ensures regs == Collected(f[lo..hi])
  {
    hide Excluded, InfoOf, Conflicts;
    regs := [];
    var i := lo;
    while i < hi
      invariant lo <= i <= hi
      invariant regs == Collected(f[lo..i])
    {
      var l := f[i];
      assert f[lo..i + 1][..i - lo] == f[lo..i];
      if l.RegDecl? && !Excluded(l) {
        var conflict := false;
        for k := 0 to |regs|
          invariant conflict <==> exists r :: r in regs[..k] && Conflicts(r, l)
        {
          if Conflicts(regs[k], l) {
            assert regs[k] in regs[..k + 1];
            conflict := true;
          }
        }
        assert regs[..|regs|] == regs;
        if !conflict {
          regs := regs + [InfoOf(l)];
        }
      }
      i := i + 1;
    }
  }

  method EmitBlocks(regs: seq<RegInfo>) returns (g: Blocks)
    ensures g == BlocksFor(regs)
  {
    var decls: seq<Line>, push: seq<Line>, pop: seq<Line> := [], [], [];
    if regs == [] {
      return Blocks([], [], []);
    }
    var order: seq<Slot> := [];
    for i := 0 to |regs|
      invariant order == Slots(regs[..i])
    {
      assert regs[..i + 1][..i] == regs[..i];
      order := order + SlotsOf(regs[i]);
    }
    assert regs[..|regs|] == regs;
    var total := 8 * |order|;
    var areaSize := if total > 8 then total else 8;
    decls := [SaveAreaDecl(areaSize), RegDecl(".b64", TEMP_BASE, None), RegDecl(".b64", TEMP_ADDR, None)];
    if total > 0 {
      var offset := 0;
      var body: seq<Line> := [];
      for i := 0 to |order|
        invariant offset == 8 * i
        invariant body == Saves(order, i)
      {
        body := body + [AddOffset(offset), SaveReg(order[i].modifier, order[i].name)];
        offset := offset + 8;
      }
      push := [Marker("BEGIN REGISTER SAVING"), LoadBase] + body + [Marker("END REGISTER SAVING")];
      var i := |order|;
      var down := total - 8;
      body := [];
      while i > 0
        invariant 0 <= i <= |order|
        invariant down == 8 * i - 8
        invariant body == Restores(order, i)
      {
        i := i - 1;
        body := body + [AddOffset(down), RestoreReg(order[i].modifier, order[i].name)];
        down := down - 8;
      }
      pop := [Empty, Marker("BEGIN REGISTER RESTORING"), LoadBase] + body + [Marker("END REGISTER RESTORING")];
    }
    return Blocks(decls, push, pop);
  }

  method GuardFunction(f: seq<Line>) returns (out: seq<Line>)
    ensures out == GuardedFunction(f)
  {
    hide IsPreamble, Instrumented, BlocksFor, Collected, OpeningBrace;
    var brace := FindOpeningBrace(f);
    if brace.None? {
      return f;
    }
    var b := brace.value;
    var d: nat := b + 1;
    var i: nat := b + 1;
    while i < |f| && IsPreamble(f[i])
      invariant b + 1 <= i <= |f| && d == i
      invariant DeclsEnd(f, b + 1) == DeclsEnd(f, i)
    {
      i := i + 1;
      d := i;
    }
    var regs := CollectRegisters(f, b + 1, d);
    var g := EmitBlocks(regs);
    out := Instrument(f, d, g);
  }

  lemma InstrumentedNext(f: seq<Line>, k: nat, d: nat, g: Blocks)
    requires k < |f|
    ensures Instrumented(f, 0, d, g) == []
    ensures Instrumented(f, k + 1, d, g) == Instrumented(f, k, d, g) + Before(f, k, d, g) + Kept(f[k])
  {
    hide Before, Kept;
  }

  method Instrument(f: seq<Line>, d: nat, g: Blocks) returns (out: seq<Line>)
    ensures out == Instrumented(f, |f|, d, g)
  {
    hide Kept, IsRet;
    out := [];
    for k := 0 to |f|
      invariant out == Instrumented(f, k, d, g)
    {
      InstrumentedNext(f, k, d, g);
      hide Instrumented;
      if k == d {
        out := out + (g.decls + g.push);
      }
      if IsRet(f[k]) {
        out := out + g.pop;
      }
      assert out == Instrumented(f, k, d, g) + Before(f, k, d, g);
      out := out + Kept(f[k]);
    }
  }

  method AddRegisterGuard(text: seq<Line>) returns (result: seq<Line>)
    ensures result == GuardedText(text)
  {
    result := [];
    var current: seq<Line> := [];
    var inDefinition, inBody := false, false;
    for i := 0 to |text|
      invariant !(inDefinition && inBody)
      invariant !inDefinition && !inBody ==> current == []
      invariant Scanned(text[..i]) ==
                Scan(if inBody then Body else if inDefinition then Definition else Outside, current, result)
    {
      var l := text[i];
      assert text[..i + 1][..i] == text[..i];
      if !inBody && !inDefinition {
        if l.FuncHeader? {
          inDefinition := true;
          current := current + [l];
        } else {
          result := result + [l];
        }
      } else if inDefinition {
        current := current + [l];
        if l.OpenBrace? {
          inBody := true;
          inDefinition := false;
        }
      } else {
        current := current + [l];
        if l.CloseBrace? {
          var guarded := GuardFunction(current);
          result := result + guarded;
          current := [];
          inBody := false;
        }
      }
    }
    assert text[..|text|] == text;
    if inDefinition || inBody {
      result := result + current;
    }
  }
}
