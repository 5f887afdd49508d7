/** Which registers a guarded function saves, said from its declarations alone. */
module RegisterGuardSaved {
  import opened Words
  import opened Wrappers
  import opened Ptx
  import opened RegisterGuard
  import opened RegisterGuardText
  import opened RegisterGuardBlocks
  import opened RegisterGuardCorrect
  import opened PtxMachine

  // ---------------------------------------------------------------- numerals

  predicate AllDigits(s: string) {
    forall i :: 0 <= i < |s| ==> '0' <= s[i] <= '9'
  }

  /** The number a string of digits stands for. */
  function Number(digits: string): nat
    requires AllDigits(digits)
  {
    if digits == [] then 0
    else 10 * Number(digits[..|digits| - 1]) + (digits[|digits| - 1] as nat - '0' as nat)
  }

  /** A register's number is written with decimal digits, which read back give the number, and without leading zeros. */
  lemma {:induction false} DecimalReads(n: nat)
    ensures AllDigits(Decimal(n))
    ensures Number(Decimal(n)) == n && (n > 0 ==> Decimal(n)[0] != '0') && (n == 0 ==> Decimal(n) == "0")
  {
    var d := "0123456789"[n % 10];
    assert d as nat == '0' as nat + n % 10;
    if n < 10 {
      assert Decimal(n) == [d] && Number([d][..0]) == 0;
    } else {
      DecimalReads(n / 10);
      assert Decimal(n)[..|Decimal(n)| - 1] == Decimal(n / 10);
    }
  }

  // ---------------------------------------------------------------- declarations

  /** Registers of these types are saved, with this many bytes. */
  predicate Typed(ty: string, w: nat) {
    (w == 1 && ty in {".b8", ".s8", ".u8"}) ||
    (w == 2 && ty in {".b16", ".s16", ".u16", ".f16"}) ||
    (w == 4 && ty in {".b32", ".s32", ".u32", ".f32"}) ||
    (w == 8 && ty in {".b64", ".s64", ".u64", ".f64", ".f64x2"})
  }

  predicate Known(ty: string) {
    Typed(ty, 1) || Typed(ty, 2) || Typed(ty, 4) || Typed(ty, 8)
  }

  /** A declaration of registers to be saved: of a known type, and neither a stack pointer nor a temporary. */
  predicate IsDeclaration(l: Line) {
    l.RegDecl? && Known(l.ty) && l.base !in {"%SP", "%SPL", "%rd_ptx_instr_base", "%rd_ptx_instr_addr"}
  }

  /** It declares registers numbered from zero: `%r<12>` stands for %r0 to %r11. */
  predicate Numbered(l: Line)
    requires l.RegDecl?
  {
    l.count.Some? && l.count.value <= 0x7fff_ffff
  }

  predicate Several(l: Line)
    requires l.RegDecl?
  {
    Numbered(l) && l.count.value > 1
  }

  /** It declares the register x. */
  predicate Introduces(l: Line, x: string)
    requires l.RegDecl?
  {
    if Numbered(l) then exists k | 0 <= k < l.count.value :: x == l.base + Decimal(k) else x == l.base
  }

  predicate SameBase(a: Line, b: Line) {
    IsDeclaration(a) && IsDeclaration(b) && a.base == b.base
  }

  /** A declaration of several registers of the same base comes before line i. */
  predicate SeveralBefore(lines: seq<Line>, i: nat)
    requires i < |lines|
  {
    exists j | 0 <= j < i :: SameBase(lines[j], lines[i]) && Several(lines[j])
  }

  /** A declaration of the same base that was saved as a single register comes before line i. */
  predicate SingleBefore(lines: seq<Line>, i: nat)
    requires i < |lines|
  {
    exists j | 0 <= j < i :: SameBase(lines[j], lines[i]) && !Several(lines[j]) &&
                             (lines[j].count.None? || !SeveralBefore(lines, j))
  }

  /** Line i is a declaration that the test for duplicates lets through. */
  predicate Chosen(lines: seq<Line>, i: nat)
    requires i < |lines|
  {
    IsDeclaration(lines[i]) && if lines[i].count.Some? then !SeveralBefore(lines, i) else !SingleBefore(lines, i)
  }

  // ---------------------------------------------------------------- what is collected

  lemma ExcludedIs(l: Line)
    requires l.RegDecl?
    ensures IsDeclaration(l) <==> !Excluded(l)
    ensures forall w :: Typed(l.ty, w) <==> w == RegisterSize(l.ty) && l.ty != ".pred" && w > 0
  {
  }

  lemma InfoIs(l: Line)
    requires IsDeclaration(l)
    ensures var r := InfoOf(l);
            r.base == l.base && (r.count > 1 <==> Several(l)) && (forall x :: x in r.names <==> Introduces(l, x)) &&
            forall w :: Typed(l.ty, w) <==> w == AccessWidth(r.modifier)
  {
    ExcludedIs(l);
    ModifierWidth(RegisterSize(l.ty), l.ty);
    NamesAre(l);
    hide StorageModifier, AccessWidth, NumberedNames, Introduces, Decimal;
  }

  lemma NamesAre(l: Line)
    requires l.RegDecl?
    ensures forall x :: x in InfoOf(l).names <==> Introduces(l, x)
  {
    hide Decimal, StorageModifier, RegisterSize;
    var names := InfoOf(l).names;
    forall x
      ensures x in names <==> Introduces(l, x)
    {
      if Numbered(l) && Introduces(l, x) {
        var k :| 0 <= k < l.count.value && x == l.base + Decimal(k);
        assert names[k] == x;
      }
    }
  }

  /** Some declaration of several registers is the first of its base. */
  lemma {:induction false} FirstSeveral(lines: seq<Line>, i: nat) returns (j: nat)
    requires i < |lines| && SeveralBefore(lines, i)
    ensures j < i && SameBase(lines[j], lines[i]) && Several(lines[j]) && Chosen(lines, j)
  {
    hide Known, Several;
    j :| 0 <= j < i && SameBase(lines[j], lines[i]) && Several(lines[j]);
    if SeveralBefore(lines, j) {
      j := FirstSeveral(lines, j);
    } else {
      SeveralCounts(lines[j]);
    }
  }

  lemma SeveralCounts(l: Line)
    requires l.RegDecl? && Several(l)
    ensures l.count.Some?
  {
  }

  lemma {:induction false} FirstSingle(lines: seq<Line>, i: nat) returns (j: nat)
    requires i < |lines| && SingleBefore(lines, i)
    ensures j < i && SameBase(lines[j], lines[i]) && !Several(lines[j]) && Chosen(lines, j)
  {
    hide Known, Several, SeveralBefore;
    j :| 0 <= j < i && SameBase(lines[j], lines[i]) && !Several(lines[j]) &&
         (lines[j].count.None? || !SeveralBefore(lines, j));
    if lines[j].count.None? && SingleBefore(lines, j) { j := FirstSingle(lines, j); }
  }

  /** A line before line i is chosen and stands in its way. */
  predicate Barred(lines: seq<Line>, i: nat)
    requires i < |lines|
  {
    exists j | 0 <= j < i :: Chosen(lines, j) && SameBase(lines[j], lines[i]) &&
                             (lines[i].count.Some? <==> Several(lines[j]))
  }

  lemma ChosenIff(lines: seq<Line>, i: nat)
    requires i < |lines| && IsDeclaration(lines[i])
    ensures Chosen(lines, i) <==> !Barred(lines, i)
  {
    hide Known, Several;
    if lines[i].count.Some? {
      if SeveralBefore(lines, i) {
        var j := FirstSeveral(lines, i);
        assert Chosen(lines, j) && SameBase(lines[j], lines[i]) && Several(lines[j]);
      }
    } else if SingleBefore(lines, i) {
      var j := FirstSingle(lines, i);
      assert Chosen(lines, j) && SameBase(lines[j], lines[i]) && !Several(lines[j]);
    }
  }

  lemma BeforePrefix(lines: seq<Line>, n: nat, i: nat)
    requires i < n <= |lines|
    ensures SeveralBefore(lines[..n], i) <==> SeveralBefore(lines, i)
    ensures SingleBefore(lines[..n], i) <==> SingleBefore(lines, i)
    ensures Chosen(lines[..n], i) <==> Chosen(lines, i)
  {
    hide SameBase, Several, Known;
    SeveralPrefix(lines, n, i);
    forall j | 0 <= j < i
      ensures SeveralBefore(lines[..n], j) <==> SeveralBefore(lines, j)
    {
      SeveralPrefix(lines, n, j);
    }
    hide SeveralBefore;
    SinglePrefix(lines, n, i);
  }

  lemma SeveralPrefix(lines: seq<Line>, n: nat, i: nat)
    requires i < n <= |lines|
    ensures SeveralBefore(lines[..n], i) <==> SeveralBefore(lines, i)
  {
    hide Known, Several;
    var p := lines[..n];
    assert forall j :: 0 <= j < n ==> p[j] == lines[j];
  }

  lemma SinglePrefix(lines: seq<Line>, n: nat, i: nat)
    requires i < n <= |lines|
    requires forall j | 0 <= j < i :: SeveralBefore(lines[..n], j) <==> SeveralBefore(lines, j)
    ensures SingleBefore(lines[..n], i) <==> SingleBefore(lines, i)
  {
    hide Known, Several, SeveralBefore;
    var p := lines[..n];
    assert forall j :: 0 <= j < n ==> p[j] == lines[j];
  }

  ghost predicate From(lines: seq<Line>, r: RegInfo) {
    exists i | 0 <= i < |lines| :: Chosen(lines, i) && r == InfoOf(lines[i])
  }

  ghost predicate AllFrom(lines: seq<Line>) {
    forall r :: r in Collected(lines) <==> From(lines, r)
  }

  /** Exactly the chosen declarations are collected. */
  lemma {:induction false} CollectedIff(lines: seq<Line>)
    ensures AllFrom(lines)
  {
    hide Known, SeveralBefore, SingleBefore, InfoOf, Excluded, Conflicts;
    if lines != [] {
      var n := |lines| - 1;
      var before, l := lines[..n], lines[n];
      CollectedIff(before);
      if l.RegDecl? { ExcludedIs(l); }
      if IsDeclaration(l) { BarredIff(lines); }
      forall r
        ensures r in Collected(lines) <==> From(lines, r)
      {
        FromNext(lines, r);
      }
    }
  }

  lemma FromNext(lines: seq<Line>, r: RegInfo)
    requires lines != []
    ensures var n := |lines| - 1;
            From(lines, r) <==> From(lines[..n], r) || (Chosen(lines, n) && r == InfoOf(lines[n]))
  {
    hide Known, SeveralBefore, SingleBefore, InfoOf;
    var n := |lines| - 1;
    forall i | 0 <= i < n
      ensures lines[..n][i] == lines[i] && (Chosen(lines[..n], i) <==> Chosen(lines, i))
    {
      BeforePrefix(lines, n, i);
    }
    if From(lines, r) {
      var i :| 0 <= i < |lines| && Chosen(lines, i) && r == InfoOf(lines[i]);
      if i < n { assert Chosen(lines[..n], i) && r == InfoOf(lines[..n][i]); }
    }
    if From(lines[..n], r) {
      var i :| 0 <= i < n && Chosen(lines[..n], i) && r == InfoOf(lines[..n][i]);
      assert Chosen(lines, i) && r == InfoOf(lines[i]);
    }
  }

  lemma BarredIff(lines: seq<Line>)
    requires lines != [] && IsDeclaration(lines[|lines| - 1])
    requires AllFrom(lines[..|lines| - 1])
    ensures var n := |lines| - 1;
            Chosen(lines, n) <==> !exists q :: q in Collected(lines[..n]) && Conflicts(q, lines[n])
  {
    var n := |lines| - 1;
    var before, l := lines[..n], lines[n];
    ChosenIff(lines, n);
    if Barred(lines, n) { BarredConflicts(lines); }
    if exists q :: q in Collected(before) && Conflicts(q, l) {
      var q :| q in Collected(before) && Conflicts(q, l);
      ConflictBars(lines, q);
    }
    hide Chosen, Barred, From, Conflicts, Collected;
  }

  lemma BarredConflicts(lines: seq<Line>)
    requires lines != [] && IsDeclaration(lines[|lines| - 1]) && Barred(lines, |lines| - 1)
    requires AllFrom(lines[..|lines| - 1])
    ensures var n := |lines| - 1; exists q :: q in Collected(lines[..n]) && Conflicts(q, lines[n])
  {
    hide Chosen, InfoOf, Collected, Known, Several;
    var n := |lines| - 1;
    var j :| 0 <= j < n && Chosen(lines, j) && SameBase(lines[j], lines[n]) &&
             (lines[n].count.Some? <==> Several(lines[j]));
    BeforePrefix(lines, n, j);
    InfoIs(lines[j]);
    var q := InfoOf(lines[j]);
    assert Chosen(lines[..n], j) && q == InfoOf(lines[..n][j]);
    assert From(lines[..n], q);
    assert q in Collected(lines[..n]) && Conflicts(q, lines[n]);
  }

  lemma ConflictBars(lines: seq<Line>, q: RegInfo)
    requires lines != [] && IsDeclaration(lines[|lines| - 1]) && From(lines[..|lines| - 1], q)
    requires Conflicts(q, lines[|lines| - 1])
    ensures Barred(lines, |lines| - 1)
  {
    hide Known, InfoOf, Several, SeveralBefore, SingleBefore;
    var n := |lines| - 1;
    var j :| 0 <= j < n && Chosen(lines[..n], j) && q == InfoOf(lines[..n][j]);
    BeforePrefix(lines, n, j);
    InfoIs(lines[j]);
  }

  // ---------------------------------------------------------------- what is saved

  lemma {:induction false} SlotsFrom(regs: seq<RegInfo>, s: Slot)
    ensures s in Slots(regs) <==> exists r | r in regs :: s.name in r.names && s.modifier == r.modifier
  {
    if regs != [] {
      var n := |regs| - 1;
      SlotsFrom(regs[..n], s);
      OneSlot(regs[n], s);
      assert regs == regs[..n] + [regs[n]];
    }
  }

  lemma OneSlot(r: RegInfo, s: Slot)
    ensures s in SlotsOf(r) <==> s.name in r.names && s.modifier == r.modifier
  {
    if s.name in r.names && s.modifier == r.modifier {
      var i :| 0 <= i < |r.names| && r.names[i] == s.name;
      assert SlotsOf(r)[i] == s;
    }
  }

  /** Line i saves the register x with w bytes. */
  ghost predicate Saves(lines: seq<Line>, i: nat, x: string, w: nat)
    requires i < |lines|
  {
    Chosen(lines, i) && Introduces(lines[i], x) && Typed(lines[i].ty, w)
  }

  /** For all declarations: a register is saved with a width if and only if a chosen declaration of that width
      introduces it. Stored are exactly the numbered registers of `%r<N>`, N of them, or the one that is named. */
  lemma SavedIff(lines: seq<Line>, x: string, w: nat)
    ensures (exists s | s in Slots(Collected(lines)) :: s.name == x && AccessWidth(s.modifier) == w) <==>
            exists i | 0 <= i < |lines| :: Saves(lines, i, x, w)
  {
    CollectedIff(lines);
    if s :| s in Slots(Collected(lines)) && s.name == x && AccessWidth(s.modifier) == w {
      SavedComesFrom(lines, s);
    }
    if i :| 0 <= i < |lines| && Saves(lines, i, x, w) {
      SavedThere(lines, i, x, w);
    }
    hide Collected, Slots, Saves, AccessWidth;
  }

  lemma SavedComesFrom(lines: seq<Line>, s: Slot)
    requires AllFrom(lines) && s in Slots(Collected(lines))
    ensures exists i | 0 <= i < |lines| :: Saves(lines, i, s.name, AccessWidth(s.modifier))
  {
    hide Collected, Slots, Known, Typed, InfoOf, AccessWidth, SeveralBefore, SingleBefore, Introduces;
    SlotsFrom(Collected(lines), s);
    var r :| r in Collected(lines) && s.name in r.names && s.modifier == r.modifier;
    assert From(lines, r);
    var i :| 0 <= i < |lines| && Chosen(lines, i) && r == InfoOf(lines[i]);
    InfoIs(lines[i]);
    assert Saves(lines, i, s.name, AccessWidth(s.modifier));
  }

  lemma SavedThere(lines: seq<Line>, i: nat, x: string, w: nat)
    requires AllFrom(lines) && i < |lines| && Saves(lines, i, x, w)
    ensures exists s | s in Slots(Collected(lines)) :: s.name == x && AccessWidth(s.modifier) == w
  {
    hide Collected, Slots, Known, Typed, InfoOf, AccessWidth, SeveralBefore, SingleBefore, Introduces;
    InfoIs(lines[i]);
    var r := InfoOf(lines[i]);
    assert From(lines, r);
    var s := Slot(x, r.modifier);
    SlotsFrom(Collected(lines), s);
    assert s in Slots(Collected(lines)) && s.name == x && AccessWidth(s.modifier) == w;
  }

  /** In particular every register of a base that no earlier line declares. */
  lemma FirstOfBaseSaved(lines: seq<Line>, i: nat, x: string, w: nat)
    requires i < |lines| && IsDeclaration(lines[i]) && Typed(lines[i].ty, w) && Introduces(lines[i], x)
    requires forall j | 0 <= j < i :: lines[j].RegDecl? ==> lines[j].base != lines[i].base
    ensures exists s | s in Slots(Collected(lines)) :: s.name == x && AccessWidth(s.modifier) == w
  {
    hide Known, Typed, Introduces, Several, Collected, Slots, AccessWidth;
    assert Saves(lines, i, x, w);
    SavedIff(lines, x, w);
  }

  /** A declaration of one register behind `%r<1>` is taken for a duplicate, although that one declares %r0. */
  lemma SingleTakenForDuplicate()
    ensures var lines := [RegDecl(".b32", "%r", Some(1)), RegDecl(".b32", "%r", None)];
            Introduces(lines[1], "%r") && !Introduces(lines[0], "%r") &&
            forall s :: s in Slots(Collected(lines)) ==> s.name != "%r"
  {
    var lines := [RegDecl(".b32", "%r", Some(1)), RegDecl(".b32", "%r", None)];
    assert Decimal(0) == "0";
    assert !Introduces(lines[0], "%r");
    forall s | s in Slots(Collected(lines))
      ensures s.name != "%r"
    {
      CollectedIff(lines);
      SavedComesFrom(lines, s);
      assert SingleBefore(lines, 1) by { assert SameBase(lines[0], lines[1]); }
    }
  }

  // ---------------------------------------------------------------- and comes back

  /** The declarations of a body are its lines up to the first that is not a declaration, a comment or blank. */
  lemma DeclarationsEnd(fn: Function)
    requires fn.Guardable()
    ensures fn.b < fn.Start() < |fn.f|
    ensures forall j | fn.b < j < fn.Start() ::
              fn.f[j].RegDecl? || fn.f[j].LocalDecl? || fn.f[j].Comment? || fn.f[j].Empty?
    ensures var l := fn.f[fn.Start()]; !(l.RegDecl? || l.LocalDecl? || l.Comment? || l.Empty?)
  {
    EndInsertionsNeverMade(fn.f, fn.b);
    assert forall j | 0 <= j < |fn.f| :: fn.f[j] in fn.f;
  }

  /** A body's declarations. */
  function Block(fn: Function): seq<Line>
    requires fn.b < fn.Start() <= |fn.f|
  {
    fn.f[fn.b + 1..fn.Start()]
  }

  /** On every run of a guarded function to a recognised return, every register that its declarations introduce once and
      that is chosen for saving holds the value it had on entry, if that was no wider than its type. */
  lemma DeclaredRestored<M>(m: Machine<M>, fn: Function, s: State<M>, n: nat, i: nat, x: string, w: nat)
    requires fn.Guardable() && AtEntry(m, fn, s) && fn.b < fn.Start() <= |fn.f|
    requires i < |Block(fn)| && Saves(Block(fn), i, x, w) && Val(s.regs, x) < Pow256(w)
    requires forall j | 0 <= j < |Block(fn)| && j != i :: IsDeclaration(Block(fn)[j]) ==> !Introduces(Block(fn)[j], x)
    ensures m.Run(n, s).status == Returned(true) ==> Val(m.Run(n, s).regs, x) == Val(s.regs, x)
  {
    hide Machine.Run, FunctionBase.Guardable, AtEntry, Val, Pow256, AccessWidth, Slots, Collected, Saves, Introduces,
         IsDeclaration, DeclsEnd;
    var slots := fn.Saved();
    assert slots == Slots(Collected(Block(fn)));
    SavedIff(Block(fn), x, w);
    var p := FirstNamed(slots, x);
    OnlyWidth(Block(fn), slots[p], i, x, w);
    GuardRestoresValues(m, fn, s, n, p);
  }

  lemma FirstNamed(slots: seq<Slot>, x: string) returns (p: nat)
    requires exists s | s in slots :: s.name == x
    ensures p < |slots| && slots[p].name == x && forall j :: 0 <= j < p ==> slots[j].name != x
  {
    p := 0;
    while slots[p].name != x
      invariant p < |slots| && forall j :: 0 <= j < p ==> slots[j].name != x
      decreases |slots| - p
    {
      p := p + 1;
    }
  }

  lemma OnlyWidth(lines: seq<Line>, s: Slot, i: nat, x: string, w: nat)
    requires s in Slots(Collected(lines)) && s.name == x && i < |lines| && Saves(lines, i, x, w)
    requires forall j | 0 <= j < |lines| && j != i :: IsDeclaration(lines[j]) ==> !Introduces(lines[j], x)
    ensures AccessWidth(s.modifier) == w
  {
    hide AccessWidth, Slots, Collected, Known, Typed, SeveralBefore, SingleBefore, Introduces;
    CollectedIff(lines);
    SavedComesFrom(lines, s);
    var v := AccessWidth(s.modifier);
    var j :| 0 <= j < |lines| && Saves(lines, j, x, v);
    OneWidth(lines[i].ty, v, w);
  }

  lemma OneWidth(ty: string, v: nat, w: nat)
    requires Typed(ty, v) && Typed(ty, w)
    ensures v == w
  {
  }
}
