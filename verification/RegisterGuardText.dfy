/** What the register guard does to the text, whatever the text is. */
module RegisterGuardText {
  import opened Wrappers
  import opened Ptx
  import opened RegisterGuard

  /** The kinds of line the guard inserts. */
  predicate Insertable(l: Line) {
    l.Empty? || IsGuardLine(l)
  }

  predicate Inserted(lines: seq<Line>) {
    forall l :: l in lines ==> Insertable(l)
  }

  lemma {:induction false} SavesInserted(slots: seq<Slot>, n: nat)
    requires n <= |slots|
    ensures Inserted(Saves(slots, n))
  {
    if n > 0 { SavesInserted(slots, n - 1); }
  }

  lemma {:induction false} RestoresInserted(slots: seq<Slot>, n: nat)
    requires n <= |slots|
    ensures Inserted(Restores(slots, n))
    decreases |slots| - n
  {
    if n < |slots| { RestoresInserted(slots, n + 1); }
  }

  predicate BlocksInserted(g: Blocks) {
    Inserted(g.decls) && Inserted(g.push) && Inserted(g.pop)
  }

  lemma BlocksForInserted(regs: seq<RegInfo>)
    ensures BlocksInserted(BlocksFor(regs))
  {
    SavesInserted(Slots(regs), |Slots(regs)|);
    RestoresInserted(Slots(regs), 0);
  }

  // ---------------------------------------------------------------- where output lines come from

  /** origin[k] is the input line that output line k is, or -1 for an inserted line. Every input line but an empty one
      comes through once, in order and unchanged; everything else in the output is of the kinds the guard inserts. */
  ghost predicate Origins(out: seq<Line>, text: seq<Line>, origin: seq<int>) {
    |origin| == |out| &&
    (forall k | 0 <= k < |out| ::
      if origin[k] < 0 then Insertable(out[k]) else origin[k] < |text| && out[k] == text[origin[k]]) &&
    (forall k, l | 0 <= k < l < |out| && 0 <= origin[k] && 0 <= origin[l] :: origin[k] < origin[l]) &&
    (forall j | 0 <= j < |text| :: j in origin || text[j].Empty?)
  }

  /** Origins in a text that starts d lines further on. */
  function Moved(origin: seq<int>, d: nat): (r: seq<int>)
    ensures |r| == |origin|
    ensures forall k :: 0 <= k < |r| ==> r[k] == if origin[k] < 0 then origin[k] else origin[k] + d
  {
    seq(|origin|, k requires 0 <= k < |origin| => if origin[k] < 0 then origin[k] else origin[k] + d)
  }

  lemma OriginsConcat(a: seq<Line>, s: seq<Line>, o: seq<int>, b: seq<Line>, t: seq<Line>, p: seq<int>)
    requires Origins(a, s, o) && Origins(b, t, p)
    ensures Origins(a + b, s + t, o + Moved(p, |s|))
  {
    hide Insertable, Moved;
    var out, text, q := a + b, s + t, o + Moved(p, |s|);
    forall k | 0 <= k < |out|
      ensures if q[k] < 0 then Insertable(out[k]) else q[k] < |text| && out[k] == text[q[k]]
    {
      if k >= |a| { assert q[k] == if p[k - |a|] < 0 then p[k - |a|] else p[k - |a|] + |s|; }
    }
    OriginsOrdered(s, o, t, p);
    OriginsCover(s, o, t, p);
  }

  lemma OriginsOrdered(s: seq<Line>, o: seq<int>, t: seq<Line>, p: seq<int>)
    requires forall k | 0 <= k < |o| :: o[k] < |s|
    requires forall k, l | 0 <= k < l < |o| && 0 <= o[k] && 0 <= o[l] :: o[k] < o[l]
    requires forall k, l | 0 <= k < l < |p| && 0 <= p[k] && 0 <= p[l] :: p[k] < p[l]
    ensures var q := o + Moved(p, |s|); forall k, l | 0 <= k < l < |q| && 0 <= q[k] && 0 <= q[l] :: q[k] < q[l]
  {
    hide Moved;
  }

  lemma OriginsCover(s: seq<Line>, o: seq<int>, t: seq<Line>, p: seq<int>)
    requires forall j | 0 <= j < |s| :: j in o || s[j].Empty?
    requires forall j | 0 <= j < |t| :: j in p || t[j].Empty?
    ensures forall j | 0 <= j < |s + t| :: j in o + Moved(p, |s|) || (s + t)[j].Empty?
  {
    hide Moved;
    var q := o + Moved(p, |s|);
    forall j | 0 <= j < |s + t|
      ensures j in q || (s + t)[j].Empty?
    {
      if j < |s| {
        assert j in o || s[j].Empty?;
      } else if !t[j - |s|].Empty? {
        assert (j - |s|) in p;
        var k :| 0 <= k < |p| && p[k] == j - |s|;
        assert q[|o| + k] == j;
      }
    }
  }

  lemma InsertedOrigins(lines: seq<Line>) returns (origin: seq<int>)
    requires Inserted(lines)
    ensures Origins(lines, [], origin)
  {
    hide Insertable;
    origin := seq(|lines|, k => -1);
    assert forall k | 0 <= k < |lines| :: lines[k] in lines;
  }

  lemma KeptOrigins(l: Line) returns (origin: seq<int>)
    ensures Origins(Kept(l), [l], origin)
  {
    hide Insertable;
    origin := if l.Empty? then [] else [0];
    assert !l.Empty? ==> origin[0] == 0;
  }

  /** A text copied as it is. */
  lemma CopiedOrigins(lines: seq<Line>) returns (origin: seq<int>)
    ensures Origins(lines, lines, origin)
  {
    hide Insertable;
    origin := seq(|lines|, k => k);
    assert forall j | 0 <= j < |lines| :: origin[j] == j;
  }

  lemma BeforeInserted(f: seq<Line>, i: nat, d: nat, g: Blocks)
    requires i < |f| && BlocksInserted(g)
    ensures Inserted(Before(f, i, d, g))
  {
    hide Insertable, IsRet;
  }

  lemma {:induction false} InstrumentedOrigins(f: seq<Line>, n: nat, d: nat, g: Blocks) returns (origin: seq<int>)
    requires n <= |f| && BlocksInserted(g)
    ensures Origins(Instrumented(f, n, d, g), f[..n], origin)
  {
    hide Origins, Before, Kept, BlocksInserted, Inserted;
    if n == 0 {
      origin := CopiedOrigins([]);
    } else {
      var before, l := Before(f, n - 1, d, g), f[n - 1];
      var o := InstrumentedOrigins(f, n - 1, d, g);
      BeforeInserted(f, n - 1, d, g);
      var p := InsertedOrigins(before);
      OriginsConcat(Instrumented(f, n - 1, d, g), f[..n - 1], o, before, [], p);
      assert f[..n - 1] + [] == f[..n - 1];
      var q := KeptOrigins(l);
      OriginsConcat(Instrumented(f, n - 1, d, g) + before, f[..n - 1], o + Moved(p, n - 1), Kept(l), [l], q);
      assert f[..n - 1] + [l] == f[..n];
      origin := o + Moved(p, n - 1) + Moved(q, n - 1);
    }
  }

  lemma FunctionOrigins(f: seq<Line>) returns (origin: seq<int>)
    ensures Origins(GuardedFunction(f), f, origin)
  {
    hide Origins, OpeningBrace, SavedRegs, DeclsEnd, BlocksFor, BlocksInserted, Instrumented;
    if OpeningBrace(f).Some? {
      var b := OpeningBrace(f).value;
      BlocksForInserted(SavedRegs(f, b));
      origin := InstrumentedOrigins(f, |f|, DeclsEnd(f, b + 1), BlocksFor(SavedRegs(f, b)));
      assert f[..|f|] == f;
    } else {
      origin := CopiedOrigins(f);
    }
  }

  lemma ScannedAppend(text: seq<Line>, l: Line)
    ensures Scanned(text + [l]) == ScanLine(Scanned(text), l)
  {
    hide ScanLine;
    assert (text + [l])[..|text|] == text;
  }

  /** What the scan has put out comes from the lines before those it is collecting. */
  lemma {:induction false} ScanOrigins(text: seq<Line>) returns (done: seq<Line>, origin: seq<int>)
    ensures text == done + Scanned(text).current && Origins(Scanned(text).result, done, origin)
    ensures Scanned(text).mode == Outside ==> Scanned(text).current == []
  {
    hide Origins, GuardedFunction;
    if text == [] {
      done := [];
      origin := CopiedOrigins([]);
    } else {
      var before, l := text[..|text| - 1], text[|text| - 1];
      assert text == before + [l];
      done, origin := ScanOrigins(before);
      ScannedAppend(before, l);
      var s := Scanned(before);
      hide Scanned;
      if s.mode == Body && l.CloseBrace? {
        var f := s.current + [l];
        var p := FunctionOrigins(f);
        OriginsConcat(s.result, done, origin, GuardedFunction(f), f, p);
        origin := origin + Moved(p, |done|);
        done := done + f;
      } else if s.mode == Outside && !l.FuncHeader? {
        var p := CopiedOrigins([l]);
        OriginsConcat(s.result, done, origin, [l], [l], p);
        origin := origin + Moved(p, |done|);
        done := done + [l];
      }
    }
  }

  /** For every text, terminated or not, each output line is either one of the input's or inserted, and the input's
      lines, empty ones aside, all come through, unchanged and in order. */
  lemma GuardKeepsLines(text: seq<Line>) returns (origin: seq<int>)
    ensures Origins(GuardedText(text), text, origin)
  {
    hide Origins, Scanned;
    var done, o := ScanOrigins(text);
    var p := CopiedOrigins(Scanned(text).current);
    OriginsConcat(Scanned(text).result, done, o, Scanned(text).current, Scanned(text).current, p);
    origin := o + Moved(p, |done|);
  }

  /** f is exactly the lines the scan collects for one function. */
  ghost predicate Captured(f: seq<Line>) {
    f != [] && f[|f| - 1].CloseBrace? && Scanned(f[..|f| - 1]) == Scan(Body, f[..|f| - 1], [])
  }

  /** A captured function is its header, lines up to a brace, and a body with no closing brace but the last. */
  lemma {:induction false} ScannedShape(f: seq<Line>)
    requires f != [] && Scanned(f).mode != Outside && Scanned(f).current == f
    ensures f[0].FuncHeader?
    ensures Scanned(f).mode == Body <==> exists b :: 1 <= b < |f| && f[b].OpenBrace?
    ensures forall b, k :: 1 <= b < k < |f| && f[b].OpenBrace? ==> !f[k].CloseBrace?
  {
    hide Scanned, GuardedFunction;
    var f', l := f[..|f| - 1], f[|f| - 1];
    assert f == f' + [l];
    if |f| == 1 {
      FirstLine(l);
    } else {
      ScannedBefore(f', l);
      ScannedShape(f');
      ScannedAppend(f', l);
      var s := Scanned(f');
      if s.mode == Body {
        var b :| 1 <= b < |f'| && f'[b].OpenBrace?;
        assert f[b].OpenBrace?;
      } else if l.OpenBrace? {
        assert f[|f'|].OpenBrace?;
      }
    }
  }

  lemma FirstLine(l: Line)
    ensures Scanned([l]) == if l.FuncHeader? then Scan(Definition, [l], []) else Scan(Outside, [], [l])
  {
    hide GuardedFunction;
    assert [] + [l] == [l] && [l][..0] == [];
  }

  /** A scan that still holds all lines held all of them a line before. */
  lemma ScannedBefore(f: seq<Line>, l: Line)
    requires f != [] && Scanned(f + [l]).mode != Outside && Scanned(f + [l]).current == f + [l]
    ensures Scanned(f).mode != Outside && Scanned(f).current == f
  {
    ScannedAppend(f, l);
    ScannedCurrent(f);
    hide Scanned, GuardedFunction;
    var s := Scanned(f);
    assert (s.current + [l])[..|s.current|] == s.current;
    assert (f + [l])[..|f|] == f;
  }

  lemma {:induction false} ScannedCurrent(f: seq<Line>)
    ensures Scanned(f).mode == Outside ==> Scanned(f).current == []
  {
    if f != [] { ScannedCurrent(f[..|f| - 1]); }
  }

  /** The insertion points never lie past the last line, so the insertions at the very end of a function
      are never made. */
  lemma EndInsertionsNeverMade(f: seq<Line>, b: nat)
    requires Captured(f) && OpeningBrace(f) == Some(b)
    ensures b + 1 <= DeclsEnd(f, b + 1) < |f|
  {
    assert f[b].OpenBrace? && f[|f| - 1].CloseBrace?;
    assert !IsPreamble(f[|f| - 1]);
  }

  /** A function is instrumented exactly when only comments, blank lines and declarations stand between its
      header and a lone opening brace; a parameter list spread over lines leaves it as it was. */
  lemma GuardedIff(f: seq<Line>)
    requires Captured(f)
    ensures OpeningBrace(f).Some? <==>
            exists b :: 1 <= b < |f| && f[b].OpenBrace? && forall k :: 1 <= k < b ==>
              f[k].RegDecl? || f[k].LocalDecl? || f[k].Comment? || f[k].Empty? || f[k].SaveAreaDecl? || f[k].Marker?
    ensures OpeningBrace(f).None? ==> GuardedFunction(f) == f
  {
    CapturedShape(f);
  }

  lemma CapturedShape(f: seq<Line>)
    requires Captured(f)
    ensures |f| >= 3 && f[0].FuncHeader?
    ensures forall b, k :: 1 <= b < k < |f| - 1 && f[b].OpenBrace? ==> !f[k].CloseBrace?
  {
    var f' := f[..|f| - 1];
    assert Scanned([]) == Scan(Outside, [], []);
    assert f' != [];
    ScannedShape(f');
    assert f[0] == f'[0];
    var b :| 1 <= b < |f'| && f'[b].OpenBrace?;
    forall b, k | 1 <= b < k < |f| - 1 && f[b].OpenBrace?
      ensures !f[k].CloseBrace?
    {
      assert f'[b] == f[b] && f'[k] == f[k];
    }
  }

  lemma CapturedScanned(f: seq<Line>)
    requires Captured(f)
    ensures Scanned(f) == Scan(Outside, [], GuardedFunction(f))
  {
    hide Scanned, GuardedFunction;
    var f', l := f[..|f| - 1], f[|f| - 1];
    assert f == f' + [l];
    ScannedAppend(f', l);
    assert [] + GuardedFunction(f) == GuardedFunction(f);
  }

  /** Whatever follows the first lone closing brace of a body is copied as it is up to the next header: a
      return standing there gets no restoring block. */
  lemma {:induction false} UnguardedAfterFirstClose(f: seq<Line>, rest: seq<Line>)
    requires Captured(f)
    requires forall l :: l in rest ==> !l.FuncHeader?
    ensures Scanned(f + rest) == Scan(Outside, [], GuardedFunction(f) + rest)
    ensures GuardedText(f + rest) == GuardedFunction(f) + rest
    decreases |rest|
  {
    hide Scanned, GuardedFunction, Captured;
    if rest == [] {
      CapturedScanned(f);
      assert f + rest == f && GuardedFunction(f) + rest == GuardedFunction(f);
    } else {
      var r, l := rest[..|rest| - 1], rest[|rest| - 1];
      UnguardedAfterFirstClose(f, r);
      ScannedAppend(f + r, l);
      assert f + rest == f + r + [l];
      assert GuardedFunction(f) + rest == GuardedFunction(f) + r + [l];
    }
    assert GuardedFunction(f) + rest + [] == GuardedFunction(f) + rest;
  }

  /** What the scan of a function's first lines holds, if no lone closing brace follows its first opening one. */
  lemma {:induction false} ScansHead(f: seq<Line>, b: nat, n: nat)
    requires 0 < n <= |f| && 1 <= b < |f| && f[0].FuncHeader? && f[b].OpenBrace?
    requires forall k :: 1 <= k < b ==> !f[k].OpenBrace?
    requires forall k :: b < k < n ==> !f[k].CloseBrace?
    ensures Scanned(f[..n]) == Scan(if n <= b then Definition else Body, f[..n], [])
    decreases n
  {
    hide Scanned, GuardedFunction;
    if n == 1 {
      FirstLine(f[0]);
      assert f[..1] == [f[0]];
    } else {
      ScansHead(f, b, n - 1);
      ScannedAppend(f[..n - 1], f[n - 1]);
      assert f[..n] == f[..n - 1] + [f[n - 1]];
    }
  }

  /** Lines are taken for one function exactly when they begin with a header, have a lone opening brace, and end with
      the first lone closing one behind it. */
  lemma CapturedIff(f: seq<Line>)
    ensures Captured(f) <==>
            |f| >= 3 && f[0].FuncHeader? && f[|f| - 1].CloseBrace? &&
            exists b :: 1 <= b < |f| - 1 && f[b].OpenBrace? && (forall k :: 1 <= k < b ==> !f[k].OpenBrace?) &&
              forall k :: b < k < |f| - 1 ==> !f[k].CloseBrace?
  {
    hide Scanned;
    if Captured(f) {
      CapturedShape(f);
      var b := FirstBrace(f);
    }
    if b :| |f| >= 3 && f[0].FuncHeader? && f[|f| - 1].CloseBrace? && 1 <= b < |f| - 1 && f[b].OpenBrace? &&
            (forall k :: 1 <= k < b ==> !f[k].OpenBrace?) && forall k :: b < k < |f| - 1 ==> !f[k].CloseBrace? {
      ScansHead(f, b, |f| - 1);
    }
  }

  lemma FirstBrace(f: seq<Line>) returns (b: nat)
    requires Captured(f)
    ensures 1 <= b < |f| - 1 && f[b].OpenBrace? && forall k :: 1 <= k < b ==> !f[k].OpenBrace?
  {
    hide Scanned;
    var f' := f[..|f| - 1];
    NothingScanned();
    assert f' != [];
    ScannedShape(f');
    assert exists b :: 1 <= b < |f'| && f'[b].OpenBrace?;
    b := 1;
    while !f'[b].OpenBrace?
      invariant 1 <= b < |f'| && forall k :: 1 <= k < b ==> !f'[k].OpenBrace?
      decreases |f'| - b
    {
      b := b + 1;
    }
  }

  /** Text behind complete functions is scanned as if it stood alone. */
  lemma {:induction false} ScansOn(text: seq<Line>, rest: seq<Line>)
    requires Scanned(text).mode == Outside
    ensures var s, t := Scanned(text), Scanned(rest);
            Scanned(text + rest) == Scan(t.mode, t.current, s.result + t.result)
    decreases |rest|
  {
    hide Scanned, GuardedFunction;
    ScannedCurrent(text);
    if rest == [] {
      assert text + rest == text;
      NothingScanned();
    } else {
      var r, l := rest[..|rest| - 1], rest[|rest| - 1];
      ScansOn(text, r);
      ScannedAppend(text + r, l);
      ScannedAppend(r, l);
      assert text + rest == text + r + [l] && rest == r + [l];
    }
  }

  lemma NothingScanned()
    ensures Scanned([]) == Scan(Outside, [], [])
  {
  }

  /** Text without a header is copied. */
  lemma {:induction false} OutsideCopied(text: seq<Line>)
    requires forall l :: l in text ==> !l.FuncHeader?
    ensures Scanned(text) == Scan(Outside, [], text) && GuardedText(text) == text
  {
    if text != [] {
      OutsideCopied(text[..|text| - 1]);
      assert text == text[..|text| - 1] + [text[|text| - 1]];
    }
  }

  /** A whole text: each function in it is replaced by its guarded text, and what is in front and behind is treated as
      if it stood alone. */
  lemma GuardedPieces(text: seq<Line>, f: seq<Line>, rest: seq<Line>)
    requires Scanned(text).mode == Outside && Captured(f)
    ensures GuardedText(text + f + rest) == GuardedText(text) + GuardedFunction(f) + GuardedText(rest)
  {
    hide Scanned, GuardedFunction, Captured;
    ScannedCurrent(text);
    CapturedScanned(f);
    ScansOn(text, f);
    ScansOn(text + f, rest);
  }
}
