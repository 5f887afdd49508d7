/** What one perf_event_open call leaves of its caller's buffers, in every interleaving with other calls. */
module PerfEventRestore {
  import opened Words
  import opened Wrappers
  import opened PerfEvent

  /** A call about to be entered by a thread in a state. */
  datatype Call = Call(c: Config, s: State, thread: nat, attr: nat)
  {
    /** Where the request is. */
    function Where(): nat {
      At(thread, attr)
    }

    function Bytes(): Attr {
      Load(s.mem, Where(), ATTR_SIZE)
    }

    /** Where the request's path is. */
    function Path(): nat {
      At(thread, PathIn(Bytes()))
    }

    /** The 255 bytes there. */
    function Before(): Window {
      Load(s.mem, Path(), PATH_LENGTH)
    }

    function Noted(): Entry {
      Note(c, s.mem, thread, attr)
    }

    function Entered(): State {
      After(c, s, Enter(thread, attr))
    }

    /** The thread is traced, not already in a call, and its request and path do not overlap. */
    predicate Begins() {
      !Filtered(c, thread) && thread !in s.entries &&
      (Where() + ATTR_SIZE <= Path() || Path() + PATH_LENGTH <= Where())
    }

    /** n bytes from a on are outside the call's buffers. */
    predicate Away(a: int, n: nat) {
      (a + n <= Where() || Where() + ATTR_SIZE <= a) && (a + n <= Path() || Path() + PATH_LENGTH <= a)
    }
  }

  function Reached(k: Call, steps: seq<Step>): State {
    AfterAll(k.c, k.Entered(), steps)
  }

  // ---------------------------------------------------------------- what matters to a call

  /** The step reads a request into the shared buffer. */
  predicate Reads(s: State, step: Step) {
    step.Go? && step.thread in s.entries && s.entries[step.thread].phase.Noted? && s.entries[step.thread].attr != 0
  }

  /** The step writes the shared buffer back over the thread's own request. */
  predicate WritesBack(s: State, step: Step, t: nat) {
    step.Go? && step.thread == t && t in s.entries && s.entries[t].phase.Redirected?
  }

  predicate WritesPath(s: State, step: Step) {
    step.Go? && step.thread in s.entries && s.entries[step.thread].phase.Zeroed?
  }

  /** The step writes the new path over the call's path, whoever takes it. */
  predicate Hits(k: Call, s: State, step: Step) {
    WritesPath(s, step) && Target(s, step.thread) == k.Path() && Mapped(k.c, k.Path())
  }

  /** The call's exit, with its report. */
  predicate Reports(k: Call, s: State, step: Step) {
    step.Exit? && step.thread == k.thread && step.reserved &&
    k.thread !in s.entries && k.thread in s.records && s.records[k.thread].send
  }

  /** What has happened to the call: what it wrote back over its request, whether another request was read since its
      own, and before it wrote back; how much of the new path is over its path; and whether exit reported it. */
  datatype Log = Log(copied: Option<Attr>, foreign: bool, intruded: bool, dirt: Size, reported: bool)

  function NextLog(k: Call, s: State, step: Step, l: Log): Log {
    if Reads(s, step) then l.(foreign := step.thread != k.thread)
    else if WritesBack(s, step, k.thread) then l.(copied := Some(s.buffer), intruded := l.foreign)
    else if Hits(k, s, step) then
      var size := s.entries[step.thread].phase.size;
      if size > l.dirt then l.(dirt := size) else l
    else if Reports(k, s, step) then l.(reported := true, dirt := 0)
    else l
  }

  function Logged(k: Call, steps: seq<Step>): Log {
    if steps == [] then Log(None, false, false, 0, false) else
      var before := steps[..|steps| - 1];
      NextLog(k, Reached(k, before), steps[|steps| - 1], Logged(k, before))
  }

  /** The thread makes no other call, and other calls and writes use buffers of their own. A path write, which goes
      where the shared buffer says, hits the call's path or misses its buffers. */
  predicate Apart(k: Call, s: State, step: Step) {
    match step
    case Enter(u, _) => u != k.thread
    case Go(u, _) =>
      u in s.entries ==>
        var e := s.entries[u];
        (e.phase.Redirected? && u != k.thread ==> k.Away(At(u, e.attr), ATTR_SIZE)) &&
        (e.phase.Zeroed? ==> Target(s, u) == k.Path() || k.Away(Target(s, u), PATH_LENGTH))
    case Exit(u, _) =>
      u in s.records && u != k.thread ==>
        k.Away(At(u, s.records[u].attr), ATTR_SIZE) && k.Away(At(u, s.records[u].path), PATH_LENGTH)
    case Poke(a, _) => k.Away(a, 1)
  }

  ghost predicate AllApart(k: Call, steps: seq<Step>) {
    forall i | 0 <= i < |steps| :: Apart(k, Reached(k, steps[..i]), steps[i])
  }

  // ---------------------------------------------------------------- the buffers at every point

  /** The request as it stands. */
  function AttrNow(k: Call, l: Log): Attr {
    match l.copied
    case None => k.Bytes()
    case Some(b) => if l.reported then WithOffset(b, OffsetIn(k.Bytes())) else b
  }

  /** Byte i of the path's buffer as it stands. */
  function PathNow(k: Call, l: Log, i: nat): Byte
    requires i < PATH_LENGTH
  {
    if i < l.dirt then k.c.newPath[i] else if l.reported && Mapped(k.c, k.Path()) then k.Noted().text[i]
    else k.Before()[i]
  }

  ghost predicate AttrIs(k: Call, m: Memory, l: Log) {
    forall a :: k.Where() <= a < k.Where() + ATTR_SIZE ==> Peek(m, a) == AttrNow(k, l)[a - k.Where()]
  }

  ghost predicate PathIs(k: Call, m: Memory, l: Log) {
    forall a :: k.Path() <= a < k.Path() + PATH_LENGTH ==> Peek(m, a) == PathNow(k, l, a - k.Path())
  }

  /** Until the report, the thread is in the handler with the arguments it noted, or has stored them, or neither. */
  ghost predicate Staged(k: Call, s: State, l: Log) {
    (k.thread in s.entries ==>
      var e := s.entries[k.thread];
      !l.reported && e == k.Noted().(phase := e.phase) && (l.copied.Some? ==> e.phase == Decided(true))) &&
    (k.thread !in s.entries && k.thread in s.records ==>
      var r := s.records[k.thread];
      !l.reported && r == RecordOf(k.Noted(), r.send))
  }

  lemma StartStaged(k: Call)
    requires k.Begins()
    ensures Staged(k, k.Entered(), Logged(k, []))
    ensures AttrIs(k, k.Entered().mem, Logged(k, [])) && PathIs(k, k.Entered().mem, Logged(k, []))
  {
    hide Call.Path, Call.Where, Note;
    var bytes, window := k.Bytes(), k.Before();
    assert forall i :: 0 <= i < ATTR_SIZE ==> bytes[i] == Peek(k.s.mem, k.Where() + i);
    assert forall i :: 0 <= i < PATH_LENGTH ==> window[i] == Peek(k.s.mem, k.Path() + i);
  }

  lemma StagedStep(k: Call, s: State, step: Step, l: Log)
    requires k.Begins() && Staged(k, s, l) && Apart(k, s, step)
    ensures Staged(k, After(k.c, s, step), NextLog(k, s, step, l))
  {
    hide Load, Store, Note, Call.Path, Call.Where, Call.Away, PathIn, OffsetIn, TypeIn, CanHook, PathLen, WithOffset,
         Reverted, At;
    if step.Go? && step.thread in s.entries {
      StagedGo(k, s, step.thread, step.stored, l);
    }
  }

  /** Another thread's entry handler leaves the call's own entry and record alone. */
  lemma EntryNext(k: Call, s: State, t: nat, stored: bool)
    requires t in s.entries && t != k.thread
    ensures var s' := After(k.c, s, Go(t, stored));
            (k.thread in s'.entries <==> k.thread in s.entries) &&
            (k.thread in s'.records <==> k.thread in s.records) &&
            (k.thread in s.entries ==> s'.entries[k.thread] == s.entries[k.thread]) &&
            (k.thread in s.records ==> s'.records[k.thread] == s.records[k.thread])
  {
    hide Load, Store, PathIn, OffsetIn, TypeIn, CanHook, PathLen, WithOffset, Target;
  }

  lemma StagedOwn(k: Call, s: State, stored: bool, l: Log)
    requires Staged(k, s, l) && k.thread in s.entries
    ensures Staged(k, After(k.c, s, Go(k.thread, stored)), NextLog(k, s, Go(k.thread, stored), l))
  {
    hide Load, Store, Note, Call.Path, Call.Where, PathIn, OffsetIn, TypeIn, CanHook, PathLen, WithOffset, At, Hits,
         Target;
  }

  lemma StagedGo(k: Call, s: State, t: nat, stored: bool, l: Log)
    requires Staged(k, s, l) && t in s.entries
    ensures Staged(k, After(k.c, s, Go(t, stored)), NextLog(k, s, Go(t, stored), l))
  {
    hide After, Note, Hits, Call.Noted;
    if t == k.thread {
      StagedOwn(k, s, stored, l);
    } else {
      EntryNext(k, s, t, stored);
    }
  }

  // ---------------------------------------------------------------- memory

  ghost predicate SameIn(k: Call, m: Memory, m': Memory) {
    forall a :: !k.Away(a, 1) ==> Peek(m', a) == Peek(m, a)
  }

  lemma StoreAway(k: Call, m: Memory, a: int, bytes: seq<Byte>)
    requires k.Away(a, |bytes|)
    ensures SameIn(k, m, Store(m, a, bytes))
  {
    hide Store, Call.Path, Call.Where;
  }

  lemma SameKeeps(k: Call, m: Memory, m': Memory, l: Log)
    requires SameIn(k, m, m') && AttrIs(k, m, l) && PathIs(k, m, l)
    ensures AttrIs(k, m', l) && PathIs(k, m', l)
  {
    hide Call.Path, Call.Where, AttrNow, PathNow;
  }

  lemma LogSame(k: Call, m: Memory, l: Log, l': Log)
    requires AttrIs(k, m, l) && PathIs(k, m, l) && l' == l.(foreign := l'.foreign)
    ensures AttrIs(k, m, l') && PathIs(k, m, l')
  {
    hide Call.Path, Call.Where, Call.Bytes, Call.Before, Call.Noted;
  }

  /** A path write that hits. */
  lemma HitStep(k: Call, m: Memory, l: Log, size: Size)
    requires k.Begins() && AttrIs(k, m, l) && PathIs(k, m, l)
    ensures var m' := Store(m, k.Path(), k.c.newPath[..size]);
            var l' := if size > l.dirt then l.(dirt := size) else l;
            AttrIs(k, m', l') && PathIs(k, m', l')
  {
    hide Store, Call.Path, Call.Where, Call.Bytes, Call.Before, Call.Noted;
  }

  /** The call writes back the shared buffer. */
  lemma BackStep(k: Call, m: Memory, l: Log, b: Attr)
    requires k.Begins() && AttrIs(k, m, l) && PathIs(k, m, l) && !l.reported
    ensures var m' := Store(m, k.Where(), b);
            var l' := l.(copied := Some(b), intruded := l.foreign);
            AttrIs(k, m', l') && PathIs(k, m', l')
  {
    hide Store, Call.Path, Call.Where, Call.Bytes, Call.Before, Call.Noted;
  }

  /** The call's exit puts back path and offset. */
  lemma ExitStep(k: Call, m: Memory, l: Log, r: Record)
    requires k.Begins() && AttrIs(k, m, l) && PathIs(k, m, l) && !l.reported && r == RecordOf(k.Noted(), true)
    requires !Mapped(k.c, k.Path()) ==> l.dirt == 0
    ensures var m', l' := Reverted(k.c, m, k.thread, r), l.(reported := true, dirt := 0);
            AttrIs(k, m', l') && PathIs(k, m', l')
  {
    NotedFields(k);
    OffsetAgain(k.Bytes());
    hide Store, Call.Path, Call.Where, Call.Bytes, Call.Before, Call.Noted, WithOffset, OffsetIn;
  }

  lemma NotedFields(k: Call)
    ensures var e := k.Noted();
            At(k.thread, e.attr) == k.Where() && At(k.thread, e.path) == k.Path() && e.offset == OffsetIn(k.Bytes())
  {
    hide Load, Text;
  }

  lemma OffsetAgain(b: Attr)
    ensures WithOffset(b, OffsetIn(b)) == b
  {
  }

  // ---------------------------------------------------------------- one step

  /** Everything known about the call's buffers. */
  ghost predicate Described(k: Call, s: State, l: Log) {
    Staged(k, s, l) && AttrIs(k, s.mem, l) && PathIs(k, s.mem, l) && (!Mapped(k.c, k.Path()) ==> l.dirt == 0)
  }

  lemma GoMemory(k: Call, s: State, t: nat, stored: bool, l: Log)
    requires k.Begins() && Described(k, s, l) && t in s.entries && Apart(k, s, Go(t, stored))
    ensures var m', l' := After(k.c, s, Go(t, stored)).mem, NextLog(k, s, Go(t, stored), l);
            AttrIs(k, m', l') && PathIs(k, m', l') && (!Mapped(k.c, k.Path()) ==> l'.dirt == 0)
  {
    hide Load, Store, AttrIs, PathIs, Call.Path, Call.Where, Call.Away, PathIn, OffsetIn, TypeIn, CanHook, PathLen,
         WithOffset, Note, Call.Bytes;
    var e, l' := s.entries[t], NextLog(k, s, Go(t, stored), l);
    match e.phase
    case Noted => LogSame(k, s.mem, l, l');
    case Loaded =>
    case Zeroed(size) =>
      if Mapped(k.c, Target(s, t)) {
        if Target(s, t) == k.Path() {
          HitStep(k, s.mem, l, size);
        } else {
          AwayPart(k, Target(s, t), size);
          StoreAway(k, s.mem, Target(s, t), k.c.newPath[..size]);
          SameKeeps(k, s.mem, Store(s.mem, Target(s, t), k.c.newPath[..size]), l);
        }
      }
    case Redirected =>
      if t == k.thread {
        NotedFields(k);
        BackStep(k, s.mem, l, s.buffer);
      } else {
        StoreAway(k, s.mem, At(t, e.attr), s.buffer);
        SameKeeps(k, s.mem, Store(s.mem, At(t, e.attr), s.buffer), l);
      }
    case Decided(_) =>
  }

  lemma AwayPart(k: Call, a: int, n: nat)
    requires k.Away(a, PATH_LENGTH) && n <= PATH_LENGTH
    ensures k.Away(a, n)
  {
    hide Call.Path, Call.Where;
  }

  lemma ExitMemory(k: Call, s: State, t: nat, reserved: bool, l: Log)
    requires k.Begins() && Described(k, s, l) && Apart(k, s, Exit(t, reserved))
    ensures var m', l' := After(k.c, s, Exit(t, reserved)).mem, NextLog(k, s, Exit(t, reserved), l);
            AttrIs(k, m', l') && PathIs(k, m', l') && (!Mapped(k.c, k.Path()) ==> l'.dirt == 0)
  {
    hide Load, Store, AttrIs, PathIs, Call.Path, Call.Where, PathIn, OffsetIn, Note, Call.Bytes;
    if !Filtered(k.c, t) && t !in s.entries && t in s.records {
      var r := s.records[t];
      if t != k.thread {
        if r.send { OtherExit(k, s.mem, t, r, l); }
      } else if r.send && reserved {
        ExitStep(k, s.mem, l, r);
      }
    }
  }

  lemma OtherExit(k: Call, m: Memory, t: nat, r: Record, l: Log)
    requires k.Away(At(t, r.attr), ATTR_SIZE) && k.Away(At(t, r.path), PATH_LENGTH)
    requires AttrIs(k, m, l) && PathIs(k, m, l)
    ensures AttrIs(k, Reverted(k.c, m, t, r), l) && PathIs(k, Reverted(k.c, m, t, r), l)
  {
    hide Store, AttrIs, PathIs, Call.Path, Call.Where;
    var path := At(t, r.path);
    StoreAway(k, m, path, r.text);
    SameKeeps(k, m, Store(m, path, r.text), l);
    var m1 := if Mapped(k.c, path) then Store(m, path, r.text) else m;
    StoreAway(k, m1, At(t, r.attr) + OFFSET_AT, r.offset);
    SameKeeps(k, m1, Store(m1, At(t, r.attr) + OFFSET_AT, r.offset), l);
  }

  lemma PokeMemory(k: Call, m: Memory, a: int, v: Byte, l: Log)
    requires k.Away(a, 1) && AttrIs(k, m, l) && PathIs(k, m, l)
    ensures AttrIs(k, m[a := v], l) && PathIs(k, m[a := v], l)
  {
    hide Call.Path, Call.Where, AttrNow, PathNow;
    SameKeeps(k, m, m[a := v], l);
  }

  lemma DescribedStep(k: Call, s: State, step: Step, l: Log)
    requires k.Begins() && Described(k, s, l) && Apart(k, s, step)
    ensures Described(k, After(k.c, s, step), NextLog(k, s, step, l))
  {
    hide Staged, AttrIs, PathIs, Advance, Reverted, Note, Call.Away, Call.Path, Call.Begins;
    StagedStep(k, s, step, l);
    match step
    case Enter(_, _) =>
    case Go(t, stored) => if t in s.entries { GoMemory(k, s, t, stored, l); }
    case Exit(t, reserved) => ExitMemory(k, s, t, reserved, l);
    case Poke(a, v) => PokeMemory(k, s.mem, a, v, l);
  }

  /** In every interleaving, at every point: what the call's buffers hold. */
  lemma {:induction false} RunDescribed(k: Call, steps: seq<Step>)
    requires k.Begins() && AllApart(k, steps)
    ensures Described(k, Reached(k, steps), Logged(k, steps))
  {
    hide After, NextLog, Described, Apart, Call.Begins, Call.Entered;
    if steps == [] {
      StartDescribed(k);
    } else {
      var n := |steps| - 1;
      ApartBefore(k, steps, n);
      RunDescribed(k, steps[..n]);
      DescribedStep(k, Reached(k, steps[..n]), steps[n], Logged(k, steps[..n]));
    }
  }

  lemma StartDescribed(k: Call)
    requires k.Begins()
    ensures Described(k, Reached(k, []), Logged(k, []))
  {
    hide AttrIs, PathIs, Staged, Call.Entered, Call.Begins;
    StartStaged(k);
  }

  lemma ApartBefore(k: Call, steps: seq<Step>, n: nat)
    requires AllApart(k, steps) && n <= |steps|
    ensures AllApart(k, steps[..n])
  {
    hide Apart, Reached;
    forall i | 0 <= i < n
      ensures Apart(k, Reached(k, steps[..n][..i]), steps[..n][i])
    {
      assert steps[..n][..i] == steps[..i];
    }
  }

  // ---------------------------------------------------------------- what is as it was

  /** The same bytes outside the offset. */
  predicate SameButOffset(a: Attr, b: Attr) {
    forall i :: 0 <= i < ATTR_SIZE && !(OFFSET_AT <= i < OFFSET_AT + 8) ==> a[i] == b[i]
  }

  ghost predicate AttrBack(k: Call, m: Memory) {
    Load(m, k.Where(), ATTR_SIZE) == k.Bytes()
  }

  /** Byte i of the path's buffer belongs to the path or is its terminator. */
  predicate InPath(k: Call, i: nat)
    requires i < PATH_LENGTH
  {
    i < PathLen(k.s.mem, k.Path()) || (i == PathLen(k.s.mem, k.Path()) && k.Before()[i] == 0)
  }

  ghost predicate PathBack(k: Call, m: Memory) {
    forall i | 0 <= i < PATH_LENGTH && InPath(k, i) :: Peek(m, k.Path() + i) == k.Before()[i]
  }

  /** As far as the new path lies over the path, the two are the same. */
  ghost predicate DirtHarmless(k: Call, dirt: Size) {
    forall i | 0 <= i < dirt && InPath(k, i) :: k.c.newPath[i] == k.Before()[i]
  }

  /** What was written back over the request, if anything, is the request, but for the offset that exit puts back. */
  ghost predicate CopyHarmless(k: Call, l: Log) {
    l.copied.Some? ==>
      if l.reported then SameButOffset(l.copied.value, k.Bytes()) else l.copied.value == k.Bytes()
  }

  /** For every schedule and all contents, at every point, in particular once the call is over: its request is as it was
      exactly when what was written back over it agrees with it, and its path, with its terminator, exactly when what
      of the new path lies over it does. */
  lemma CallRestoredIff(k: Call, steps: seq<Step>)
    requires k.Begins() && AllApart(k, steps)
    ensures AttrBack(k, Reached(k, steps).mem) <==> CopyHarmless(k, Logged(k, steps))
    ensures PathBack(k, Reached(k, steps).mem) <==> DirtHarmless(k, Logged(k, steps).dirt)
  {
    hide Reached, Logged, Call.Begins, CopyHarmless, DirtHarmless;
    RunDescribed(k, steps);
    var m', l := Reached(k, steps).mem, Logged(k, steps);
    AttrBackIff(k, m', l);
    PathBackIff(k, m', l);
  }

  lemma AttrBackIff(k: Call, m: Memory, l: Log)
    requires AttrIs(k, m, l)
    ensures AttrBack(k, m) <==> CopyHarmless(k, l)
  {
    hide Call.Where, Call.Bytes, Load;
    var now, loaded := AttrNow(k, l), Load(m, k.Where(), ATTR_SIZE);
    assert forall i :: 0 <= i < ATTR_SIZE ==> loaded[i] == now[i] by {
      forall i | 0 <= i < ATTR_SIZE
        ensures loaded[i] == now[i]
      {
        assert loaded[i] == Peek(m, k.Where() + i);
      }
    }
    assert loaded == now;
    if l.copied.Some? { SameAgain(l.copied.value, k.Bytes()); }
  }

  lemma SameAgain(a: Attr, b: Attr)
    ensures WithOffset(a, OffsetIn(b)) == b <==> SameButOffset(a, b)
  {
    var r := WithOffset(a, OffsetIn(b));
    if SameButOffset(a, b) {
      assert forall i :: 0 <= i < ATTR_SIZE ==> r[i] == b[i];
    } else {
      var i :| 0 <= i < ATTR_SIZE && !(OFFSET_AT <= i < OFFSET_AT + 8) && a[i] != b[i];
      assert r[i] != b[i];
    }
  }

  lemma TextIs(k: Call, i: nat)
    requires Mapped(k.c, k.Path()) && i < PATH_LENGTH && InPath(k, i)
    ensures k.Noted().text[i] == k.Before()[i]
  {
    hide Load, PathLen, PathIn, OffsetIn;
    assert k.Before()[i] == Peek(k.s.mem, k.Path() + i);
  }

  lemma PathByte(k: Call, m: Memory, l: Log, i: nat)
    requires PathIs(k, m, l) && i < PATH_LENGTH && InPath(k, i)
    ensures Peek(m, k.Path() + i) == if i < l.dirt then k.c.newPath[i] else k.Before()[i]
  {
    hide InPath, Call.Path, Call.Before, Call.Noted;
    assert Peek(m, k.Path() + i) == PathNow(k, l, k.Path() + i - k.Path());
    if l.reported && Mapped(k.c, k.Path()) && i >= l.dirt { TextIs(k, i); }
  }

  lemma PathBackIff(k: Call, m: Memory, l: Log)
    requires PathIs(k, m, l)
    ensures PathBack(k, m) <==> DirtHarmless(k, l.dirt)
  {
    hide Call.Path, InPath, Call.Before, PathIs;
    forall i | 0 <= i < PATH_LENGTH && InPath(k, i)
      ensures Peek(m, k.Path() + i) == if i < l.dirt then k.c.newPath[i] else k.Before()[i]
    {
      PathByte(k, m, l, i);
    }
  }

  /** What of the new path lies over the path's 255 bytes agrees with them, and so do the zeros that exit put behind a
      reported path. */
  ghost predicate WindowHarmless(k: Call, l: Log) {
    (forall i | 0 <= i < l.dirt :: k.c.newPath[i] == k.Before()[i]) &&
    (l.reported && Mapped(k.c, k.Path()) ==>
      forall i | l.dirt <= i < PATH_LENGTH :: PathLen(k.s.mem, k.Path()) <= i ==> k.Before()[i] == 0)
  }

  /** For every schedule and all contents, at every point: when all of the path's 255 bytes are as they were. */
  lemma WindowRestoredIff(k: Call, steps: seq<Step>)
    requires k.Begins() && AllApart(k, steps)
    ensures Load(Reached(k, steps).mem, k.Path(), PATH_LENGTH) == k.Before() <==>
            WindowHarmless(k, Logged(k, steps))
  {
    hide Reached, Logged, Call.Begins, AttrIs, WindowHarmless;
    RunDescribed(k, steps);
    WindowIs(k, Reached(k, steps).mem, Logged(k, steps));
  }

  lemma WindowIs(k: Call, m: Memory, l: Log)
    requires PathIs(k, m, l)
    ensures Load(m, k.Path(), PATH_LENGTH) == k.Before() <==> WindowHarmless(k, l)
  {
    hide Load, PathLen, PathIn, OffsetIn;
    var now, before := Load(m, k.Path(), PATH_LENGTH), k.Before();
    forall i | 0 <= i < PATH_LENGTH
      ensures now[i] == PathNow(k, l, i) && before[i] == Peek(k.s.mem, k.Path() + i)
    {
      assert now[i] == Peek(m, k.Path() + i);
      assert Peek(m, k.Path() + i) == PathNow(k, l, k.Path() + i - k.Path());
    }
    if now == before {
      assert forall i :: 0 <= i < PATH_LENGTH ==> now[i] == before[i];
    }
    if WindowHarmless(k, l) {
      assert forall i :: 0 <= i < PATH_LENGTH ==> now[i] == before[i];
    }
  }

  // ---------------------------------------------------------------- whose bytes are in the buffer

  /** Not the call's request, whatever the offset. */
  predicate Foreign(k: Call, b: Attr) {
    !SameButOffset(b, k.Bytes())
  }

  /** Another entry that reads its request finds a different one. */
  predicate Differ(k: Call, s: State, step: Step) {
    Reads(s, step) && step.thread != k.thread ==>
      Foreign(k, Load(s.mem, At(step.thread, s.entries[step.thread].attr), ATTR_SIZE))
  }

  ghost predicate AllDiffer(k: Call, steps: seq<Step>) {
    forall i | 0 <= i < |steps| :: Differ(k, Reached(k, steps[..i]), steps[i])
  }

  /** In the entry handler, between reading the request into the shared buffer and writing it back. */
  predicate Using(s: State, t: nat) {
    t in s.entries && (s.entries[t].phase.Loaded? || s.entries[t].phase.Zeroed? || s.entries[t].phase.Redirected?)
  }

  /** The buffer holds a different request if one was read since; or else the call's own, with a zero offset once
      that is written. */
  ghost predicate Buffered(k: Call, s: State, l: Log) {
    (Using(s, k.thread) ==>
      if l.foreign then Foreign(k, s.buffer)
      else s.buffer == Redirection(k) || (s.buffer == k.Bytes() && s.entries[k.thread].phase.Loaded?)) &&
    (l.copied.Some? ==> if l.intruded then Foreign(k, l.copied.value) else l.copied.value == Redirection(k))
  }

  /** The request with its offset cleared. */
  function Redirection(k: Call): Attr {
    WithOffset(k.Bytes(), ZERO)
  }

  lemma ForeignKept(k: Call, b: Attr)
    requires Foreign(k, b)
    ensures Foreign(k, WithOffset(b, ZERO))
  {
    hide Call.Bytes;
    var i :| 0 <= i < ATTR_SIZE && !(OFFSET_AT <= i < OFFSET_AT + 8) && b[i] != k.Bytes()[i];
    assert WithOffset(b, ZERO)[i] != k.Bytes()[i];
  }

  lemma Itself(a: Attr)
    ensures SameButOffset(a, a)
  {
  }

  lemma RedirectionIs(k: Call)
    ensures SameButOffset(Redirection(k), k.Bytes()) && WithOffset(Redirection(k), ZERO) == Redirection(k)
    ensures Redirection(k) == k.Bytes() <==> OffsetIn(k.Bytes()) == ZERO
  {
    hide Call.Bytes;
    OffsetAgain(k.Bytes());
    if Redirection(k) == k.Bytes() {
      assert forall i :: 0 <= i < 8 ==> OffsetIn(k.Bytes())[i] == ZERO[i];
    }
  }

  lemma StillThere(k: Call, s: State, l: Log)
    requires Described(k, s, l) && k.thread in s.entries && s.entries[k.thread].phase.Noted?
    ensures s.entries[k.thread].attr == k.attr && Load(s.mem, k.Where(), ATTR_SIZE) == k.Bytes()
  {
    hide Note, Call.Bytes, PathIs, Load;
    NotedAttr(k);
    var now, bytes := Load(s.mem, k.Where(), ATTR_SIZE), k.Bytes();
    forall i | 0 <= i < ATTR_SIZE
      ensures now[i] == bytes[i]
    {
      assert now[i] == Peek(s.mem, k.Where() + i);
    }
  }

  lemma NotedAttr(k: Call)
    ensures k.Noted().attr == k.attr
  {
    hide Load, Text, PathIn;
  }

  /** The call reads its own request. */
  lemma BufferedRead(k: Call, s: State, stored: bool, l: Log)
    requires Described(k, s, l) && Buffered(k, s, l) && k.thread in s.entries && s.entries[k.thread].phase.Noted?
    ensures Buffered(k, After(k.c, s, Go(k.thread, stored)), NextLog(k, s, Go(k.thread, stored), l))
  {
    hide Load, Foreign, Redirection, Call.Bytes, Described, Call.Path;
    StillThere(k, s, l);
  }

  /** What an entry handler's step can do to the shared buffer, and which of it is logged. */
  lemma BufferNext(k: Call, s: State, t: nat, stored: bool, l: Log)
    requires t in s.entries
    ensures var s', l' := After(k.c, s, Go(t, stored)), NextLog(k, s, Go(t, stored), l);
            if Reads(s, Go(t, stored)) then
              s'.buffer == Load(s.mem, At(t, s.entries[t].attr), ATTR_SIZE) && l' == l.(foreign := t != k.thread)
            else
              (s'.buffer == s.buffer || s'.buffer == WithOffset(s.buffer, ZERO)) &&
              l'.foreign == l.foreign && (t != k.thread ==> l'.copied == l.copied && l'.intruded == l.intruded)
  {
    hide Load, Store, PathIn, OffsetIn, TypeIn, CanHook, PathLen, Call.Path, WithOffset, Target;
  }

  lemma ZeroedStill(k: Call, b: Attr)
    ensures Foreign(k, b) ==> Foreign(k, WithOffset(b, ZERO))
    ensures b == Redirection(k) || b == k.Bytes() ==> WithOffset(b, ZERO) == Redirection(k)
  {
    hide WithOffset, SameButOffset, Call.Bytes;
    RedirectionIs(k);
    if Foreign(k, b) { ForeignKept(k, b); }
  }

  lemma BufferedOther(k: Call, s: State, t: nat, stored: bool, l: Log)
    requires Buffered(k, s, l) && Differ(k, s, Go(t, stored)) && t in s.entries && t != k.thread
    ensures Buffered(k, After(k.c, s, Go(t, stored)), NextLog(k, s, Go(t, stored), l))
  {
    hide After, NextLog, Load, WithOffset, Foreign, Redirection, Call.Bytes;
    BufferNext(k, s, t, stored, l);
    EntryNext(k, s, t, stored);
    ZeroedStill(k, s.buffer);
  }

  /** The phases of the call's own step, and what it writes back. */
  lemma OwnNext(k: Call, s: State, stored: bool, l: Log)
    requires k.thread in s.entries && !s.entries[k.thread].phase.Noted?
    ensures var s', l' := After(k.c, s, Go(k.thread, stored)), NextLog(k, s, Go(k.thread, stored), l);
            (Using(s', k.thread) ==> Using(s, k.thread) && !s'.entries[k.thread].phase.Loaded?) &&
            (Using(s', k.thread) && s.entries[k.thread].phase.Loaded? ==> s'.buffer == WithOffset(s.buffer, ZERO)) &&
            (if s.entries[k.thread].phase.Redirected? then l'.copied == Some(s.buffer) && l'.intruded == l.foreign
             else l'.copied == l.copied && l'.intruded == l.intruded)
  {
    hide Load, Store, PathIn, OffsetIn, TypeIn, CanHook, PathLen, Call.Path, WithOffset, Target;
  }

  lemma BufferedOwn(k: Call, s: State, stored: bool, l: Log)
    requires Buffered(k, s, l) && k.thread in s.entries && !s.entries[k.thread].phase.Noted?
    ensures Buffered(k, After(k.c, s, Go(k.thread, stored)), NextLog(k, s, Go(k.thread, stored), l))
  {
    hide After, NextLog, Load, WithOffset, Foreign, Redirection, Call.Bytes;
    BufferNext(k, s, k.thread, stored, l);
    OwnNext(k, s, stored, l);
    ZeroedStill(k, s.buffer);
  }

  lemma BufferedGo(k: Call, s: State, t: nat, stored: bool, l: Log)
    requires Described(k, s, l) && Buffered(k, s, l) && Differ(k, s, Go(t, stored)) && t in s.entries
    ensures Buffered(k, After(k.c, s, Go(t, stored)), NextLog(k, s, Go(t, stored), l))
  {
    hide After, NextLog, Buffered, Described, Differ;
    if t != k.thread {
      BufferedOther(k, s, t, stored, l);
    } else if s.entries[t].phase.Noted? {
      BufferedRead(k, s, stored, l);
    } else {
      BufferedOwn(k, s, stored, l);
    }
  }

  lemma BufferedStep(k: Call, s: State, step: Step, l: Log)
    requires Described(k, s, l) && Buffered(k, s, l) && Differ(k, s, step) && Apart(k, s, step)
    ensures Buffered(k, After(k.c, s, step), NextLog(k, s, step, l))
  {
    hide After, NextLog, Foreign, Redirection, Described, Differ, Apart, Call.Bytes;
    if step.Go? && step.thread in s.entries {
      BufferedGo(k, s, step.thread, step.stored, l);
    } else {
      Untouched(k, s, step, l);
    }
  }

  /** Steps other than an entry handler's leave the buffer and the call's own progress alone. */
  lemma Untouched(k: Call, s: State, step: Step, l: Log)
    requires Apart(k, s, step) && !(step.Go? && step.thread in s.entries)
    ensures var s', l' := After(k.c, s, step), NextLog(k, s, step, l);
            s'.buffer == s.buffer && (k.thread in s'.entries <==> k.thread in s.entries) &&
            (k.thread in s.entries ==> s'.entries[k.thread] == s.entries[k.thread]) &&
            l'.copied == l.copied && l'.foreign == l.foreign && l'.intruded == l.intruded && l'.dirt <= l.dirt &&
            (l'.reported ==> l.reported || l'.dirt == 0) &&
            forall u :: Using(s', u) ==> Using(s, u)
  {
    hide Load, PathIn, OffsetIn, Text, Reverted, Call.Path, Call.Away;
  }

  lemma {:induction false} RunBuffered(k: Call, steps: seq<Step>)
    requires k.Begins() && AllApart(k, steps) && AllDiffer(k, steps)
    ensures Buffered(k, Reached(k, steps), Logged(k, steps))
  {
    hide After, NextLog, Described, Buffered, Apart, Differ, Call.Begins, Call.Entered;
    if steps == [] {
      StartBuffered(k);
    } else {
      var n := |steps| - 1;
      ApartBefore(k, steps, n);
      DifferBefore(k, steps, n);
      RunBuffered(k, steps[..n]);
      RunDescribed(k, steps[..n]);
      BufferedStep(k, Reached(k, steps[..n]), steps[n], Logged(k, steps[..n]));
    }
  }

  lemma StartBuffered(k: Call)
    requires k.Begins()
    ensures Buffered(k, Reached(k, []), Logged(k, []))
  {
    hide Load, PathIn, Text;
  }

  lemma DifferBefore(k: Call, steps: seq<Step>, n: nat)
    requires AllDiffer(k, steps) && n <= |steps|
    ensures AllDiffer(k, steps[..n])
  {
    hide Differ, Reached;
    forall i | 0 <= i < n
      ensures Differ(k, Reached(k, steps[..n][..i]), steps[..n][i])
    {
      assert steps[..n][..i] == steps[..i];
    }
  }

  /** For every schedule and all contents, the requests being different, at every point: the request is as it was if
      and only if it was not written back, or no other entry read its own request into the shared buffer after this one
      had and before it wrote back, and exit put the offset back or it was zero to begin with. */
  lemma RequestRestoredIff(k: Call, steps: seq<Step>)
    requires k.Begins() && AllApart(k, steps) && AllDiffer(k, steps)
    ensures var l := Logged(k, steps);
            AttrBack(k, Reached(k, steps).mem) <==>
              l.copied.None? || (!l.intruded && (l.reported || OffsetIn(k.Bytes()) == ZERO))
  {
    hide Reached, Logged, AttrBack, PathBack, DirtHarmless, Call.Begins, Call.Bytes, Redirection, SameButOffset;
    CallRestoredIff(k, steps);
    RunBuffered(k, steps);
    RedirectionIs(k);
    var l := Logged(k, steps);
    if l.copied.Some? { Itself(l.copied.value); }
  }

  // ---------------------------------------------------------------- a call that has the buffer to itself

  /** Another entry that reads its request finds one with its path elsewhere. */
  predicate Distinct(k: Call, s: State, step: Step) {
    Reads(s, step) && step.thread != k.thread ==>
      PathIn(Load(s.mem, At(step.thread, s.entries[step.thread].attr), ATTR_SIZE)) != PathIn(k.Bytes())
  }

  ghost predicate AllDistinct(k: Call, steps: seq<Step>) {
    forall i | 0 <= i < |steps| :: Distinct(k, Reached(k, steps[..i]), steps[i])
  }

  lemma SamePath(a: Attr, b: Attr)
    ensures SameButOffset(a, b) ==> PathIn(a) == PathIn(b)
  {
    hide FromLittleEndian;
    if SameButOffset(a, b) {
      assert a[PATH_AT..PATH_AT + 8] == b[PATH_AT..PATH_AT + 8];
    }
  }

  lemma DistinctDiffer(k: Call, steps: seq<Step>)
    requires AllDistinct(k, steps)
    ensures AllDiffer(k, steps)
  {
    hide Reached, Load, PathIn, Call.Bytes, SameButOffset;
    forall i | 0 <= i < |steps|
      ensures Differ(k, Reached(k, steps[..i]), steps[i])
    {
      var s, step := Reached(k, steps[..i]), steps[i];
      if Reads(s, step) {
        SamePath(Load(s.mem, At(step.thread, s.entries[step.thread].attr), ATTR_SIZE), k.Bytes());
      }
      assert Distinct(k, s, step);
    }
  }

  lemma DistinctBefore(k: Call, steps: seq<Step>, n: nat)
    requires AllDistinct(k, steps) && n <= |steps|
    ensures AllDistinct(k, steps[..n])
  {
    hide Distinct, Reached;
    forall i | 0 <= i < n
      ensures Distinct(k, Reached(k, steps[..n][..i]), steps[..n][i])
    {
      assert steps[..n][..i] == steps[..i];
    }
  }

  lemma PathKept(b: Attr, w: Word)
    ensures PathIn(WithOffset(b, w)) == PathIn(b)
  {
    hide FromLittleEndian;
    assert WithOffset(b, w)[PATH_AT..PATH_AT + 8] == b[PATH_AT..PATH_AT + 8];
  }

  /** No entry reads its request into the shared buffer while the call uses it, nor the call while another does. */
  ghost predicate Alone(k: Call, s: State, step: Step) {
    Reads(s, step) ==>
      if step.thread == k.thread then forall u | u != k.thread :: !Using(s, u) else !Using(s, k.thread)
  }

  ghost predicate AllAlone(k: Call, steps: seq<Step>) {
    (forall u | u != k.thread :: !Using(k.s, u)) &&
    forall i | 0 <= i < |steps| :: Alone(k, Reached(k, steps[..i]), steps[i])
  }

  /** Other entries have another path in the buffer, the call its own; and only its own write lies over its path. */
  ghost predicate Unmixed(k: Call, s: State, l: Log) {
    (forall u | u != k.thread && Using(s, u) :: PathIn(s.buffer) != PathIn(k.Bytes())) &&
    (Using(s, k.thread) ==> !l.foreign) && !l.intruded &&
    (l.reported ==> l.dirt == 0)
  }

  lemma AtUnique(t: nat, a: nat, u: nat, b: nat)
    requires a < TWO64 && b < TWO64 && At(t, a) == At(u, b)
    ensures a == b
  {
    ModUnique(At(t, a), TWO64, t / TWO32, a);
    ModUnique(At(u, b), TWO64, u / TWO32, b);
  }

  lemma PathBound(b: Attr)
    ensures PathIn(b) < TWO64
  {
    hide FromLittleEndian;
    Pow256Of8();
  }

  /** A path write of another entry misses. */
  lemma OtherMisses(k: Call, s: State, step: Step, l: Log)
    requires Unmixed(k, s, l) && WritesPath(s, step) && step.thread != k.thread
    ensures !Hits(k, s, step)
  {
    hide PathIn, Call.Bytes;
    PathBound(s.buffer);
    PathBound(k.Bytes());
    assert Using(s, step.thread);
    if Target(s, step.thread) == k.Path() {
      AtUnique(step.thread, PathIn(s.buffer), k.thread, PathIn(k.Bytes()));
    }
  }

  lemma OthersGo(k: Call, s: State, t: nat, stored: bool, l: Log, u: nat)
    requires Unmixed(k, s, l) && t in s.entries && Distinct(k, s, Go(t, stored)) && Alone(k, s, Go(t, stored))
    requires u != k.thread && Using(After(k.c, s, Go(t, stored)), u)
    ensures PathIn(After(k.c, s, Go(t, stored)).buffer) != PathIn(k.Bytes())
  {
    hide Load, Store, PathIn, OffsetIn, TypeIn, CanHook, PathLen, Call.Bytes, WithOffset;
    PathKept(s.buffer, ZERO);
    assert Using(s, u) || (Reads(s, Go(t, stored)) && u == t);
  }

  lemma OwnGo(k: Call, s: State, t: nat, stored: bool, l: Log)
    requires Described(k, s, l) && Unmixed(k, s, l) && t in s.entries
    requires Apart(k, s, Go(t, stored)) && Alone(k, s, Go(t, stored))
    ensures var s', l' := After(k.c, s, Go(t, stored)), NextLog(k, s, Go(t, stored), l);
            (Using(s', k.thread) ==> !l'.foreign) && !l'.intruded && (l'.reported ==> l'.dirt == 0)
  {
    hide Load, Store, PathIn, OffsetIn, TypeIn, CanHook, PathLen, Call.Path, Call.Bytes, AttrIs, PathIs, WithOffset,
         Note, Call.Away;
    if s.entries[t].phase.Zeroed? && t != k.thread { OtherMisses(k, s, Go(t, stored), l); }
  }

  lemma UnmixedGo(k: Call, s: State, t: nat, stored: bool, l: Log)
    requires Described(k, s, l) && Unmixed(k, s, l) && t in s.entries
    requires Apart(k, s, Go(t, stored)) && Distinct(k, s, Go(t, stored)) && Alone(k, s, Go(t, stored))
    ensures Unmixed(k, After(k.c, s, Go(t, stored)), NextLog(k, s, Go(t, stored), l))
  {
    hide After, NextLog, Described, Apart, Distinct, Alone, Using, PathIn, Call.Bytes;
    OwnGo(k, s, t, stored, l);
    forall u | u != k.thread && Using(After(k.c, s, Go(t, stored)), u)
      ensures PathIn(After(k.c, s, Go(t, stored)).buffer) != PathIn(k.Bytes())
    {
      OthersGo(k, s, t, stored, l, u);
    }
  }

  lemma UnmixedStep(k: Call, s: State, step: Step, l: Log)
    requires Described(k, s, l) && Unmixed(k, s, l) && Apart(k, s, step) && Distinct(k, s, step) && Alone(k, s, step)
    ensures Unmixed(k, After(k.c, s, step), NextLog(k, s, step, l))
  {
    hide After, NextLog, PathIn, Described, Distinct, Apart, Call.Bytes, Alone;
    if step.Go? && step.thread in s.entries {
      UnmixedGo(k, s, step.thread, step.stored, l);
    } else {
      Untouched(k, s, step, l);
    }
  }

  lemma {:induction false} RunUnmixed(k: Call, steps: seq<Step>)
    requires k.Begins() && AllApart(k, steps) && AllDistinct(k, steps) && AllAlone(k, steps)
    ensures Unmixed(k, Reached(k, steps), Logged(k, steps))
  {
    hide After, NextLog, Described, Unmixed, Apart, Distinct, Alone, Call.Begins, Call.Entered;
    if steps == [] {
      StartUnmixed(k);
    } else {
      var n := |steps| - 1;
      ApartBefore(k, steps, n);
      DistinctBefore(k, steps, n);
      AloneBefore(k, steps, n);
      RunUnmixed(k, steps[..n]);
      RunDescribed(k, steps[..n]);
      UnmixedStep(k, Reached(k, steps[..n]), steps[n], Logged(k, steps[..n]));
    }
  }

  lemma StartUnmixed(k: Call)
    requires k.Begins() && forall u | u != k.thread :: !Using(k.s, u)
    ensures Unmixed(k, Reached(k, []), Logged(k, []))
  {
    hide Load, PathIn, Text, Call.Path;
    var s' := k.Entered();
    forall u | u != k.thread
      ensures !Using(s', u)
    {
      assert !Using(k.s, u);
    }
  }

  lemma AloneBefore(k: Call, steps: seq<Step>, n: nat)
    requires AllAlone(k, steps) && n <= |steps|
    ensures AllAlone(k, steps[..n])
  {
    hide Alone, Reached;
    forall i | 0 <= i < n
      ensures Alone(k, Reached(k, steps[..n][..i]), steps[..n][i])
    {
      assert steps[..n][..i] == steps[..i];
    }
  }

  /** For every schedule in which the call has the shared buffer to itself between its read and its write, and all
      contents, at every point: the request, offset included, and the path with its terminator are as they were if and
      only if exit reported the call, or entry wrote nothing that differs. Other threads may do what they like to
      buffers of their own. */
  lemma AloneRestoredIff(k: Call, steps: seq<Step>)
    requires k.Begins() && AllApart(k, steps) && AllDistinct(k, steps) && AllAlone(k, steps)
    ensures var m', l := Reached(k, steps).mem, Logged(k, steps);
            (AttrBack(k, m') <==> l.reported || l.copied.None? || OffsetIn(k.Bytes()) == ZERO) &&
            (PathBack(k, m') <==> l.reported || DirtHarmless(k, l.dirt))
  {
    hide Reached, Logged, AttrBack, PathBack, Call.Begins, AllApart, AllDiffer, AllDistinct, AllAlone,
         SameButOffset;
    DistinctDiffer(k, steps);
    RequestRestoredIff(k, steps);
    CallRestoredIff(k, steps);
    RunUnmixed(k, steps);
  }
}
