/** Runs of the perf_event_open handlers: an entry that nothing interrupts, and schedules that mix up two calls. */
module PerfEventRuns {
  import opened Words
  import opened PerfEvent
  import opened PerfEventRestore

  lemma {:induction false} FirstStep(c: Config, s: State, step: Step, rest: seq<Step>)
    ensures AfterAll(c, s, [step] + rest) == AfterAll(c, After(c, s, step), rest)
  {
    hide After;
    var all := [step] + rest;
    if rest == [] {
      assert all[..0] == [];
    } else {
      var n := |rest| - 1;
      FirstStep(c, s, step, rest[..n]);
      assert all[..|all| - 1] == [step] + rest[..n];
    }
  }

  // ---------------------------------------------------------------- an entry that nothing interrupts

  /** The request asks for a uprobe, and it may be redirected. */
  predicate Sent(k: Call) {
    k.attr != 0 && TypeIn(k.Bytes()) == k.c.uprobeType && (k.c.replace ==> Redirectable(k))
  }

  predicate Redirectable(k: Call) {
    CanHook(k.c, OffsetIn(k.Bytes())) && Mapped(k.c, k.Path())
  }

  predicate Edited(k: Call) {
    Sent(k) && k.c.replace
  }

  /** How much of the new path takes the place of the path: as much as that is long, with its terminator. */
  function Length(k: Call): Size {
    PathLen(k.s.mem, k.Path()) + 1
  }

  /** The caller's memory after entry. */
  function Edits(k: Call): Memory {
    if Edited(k) then Store(Store(k.s.mem, k.Path(), k.c.newPath[..Length(k)]), k.Where(), Redirection(k)) else k.s.mem
  }

  function Records(k: Call, stored: bool): map<nat, Record> {
    if stored || k.thread in k.s.records then k.s.records[k.thread := RecordOf(k.Noted(), Sent(k))] else k.s.records
  }

  /** The accesses of one entry, one right after the other. */
  function Straight(k: Call, stored: bool): seq<Step> {
    var next := Go(k.thread, stored);
    [next, next, next, next, next]
  }

  function Onward(k: Call, s: State, stored: bool): State {
    After(k.c, s, Go(k.thread, stored))
  }

  lemma EntryUnrolled(k: Call, stored: bool)
    ensures Reached(k, Straight(k, stored)) ==
            Onward(k, Onward(k, Onward(k, Onward(k, Onward(k, k.Entered(), stored), stored), stored), stored), stored)
  {
    hide After;
    var next, s := Go(k.thread, stored), k.Entered();
    assert Straight(k, stored) == [next] + [next, next, next, next];
    FirstStep(k.c, s, next, [next, next, next, next]);
    assert [next, next, next, next] == [next] + [next, next, next];
    FirstStep(k.c, Onward(k, s, stored), next, [next, next, next]);
    var s2 := Onward(k, Onward(k, s, stored), stored);
    assert [next, next, next] == [next] + [next, next];
    FirstStep(k.c, s2, next, [next, next]);
    assert [next, next] == [next] + [next];
    FirstStep(k.c, Onward(k, s2, stored), next, [next]);
  }

  /** The call in a phase of its entry. */
  function During(k: Call, m: Memory, b: Attr, phase: Phase): State {
    k.s.(mem := m, buffer := b, entries := k.s.entries[k.thread := k.Noted().(phase := phase)])
  }

  lemma ReadsFirst(k: Call, stored: bool)
    ensures Onward(k, During(k, k.s.mem, k.s.buffer, Noted), stored) ==
            if k.attr == 0 then During(k, k.s.mem, k.s.buffer, Decided(false))
            else During(k, k.s.mem, k.Bytes(), Loaded)
  {
    NotedAttr(k);
    hide Load, Note;
  }

  lemma ChecksNext(k: Call, stored: bool)
    requires k.attr != 0
    ensures var s' := Onward(k, During(k, k.s.mem, k.Bytes(), Loaded), stored);
            s' == if Edited(k) then During(k, k.s.mem, Redirection(k), Zeroed(Length(k)))
                  else During(k, k.s.mem, s'.buffer, Decided(Sent(k)))
  {
    hide Load, PathIn, OffsetIn, TypeIn, CanHook, PathLen, WithOffset, Note;
  }

  lemma WritesThen(k: Call, stored: bool)
    requires Edited(k)
    ensures Onward(k, Onward(k, During(k, k.s.mem, Redirection(k), Zeroed(Length(k))), stored), stored) ==
            During(k, Edits(k), Redirection(k), Decided(true))
  {
    NotedAttr(k);
    PathKept(k.Bytes(), ZERO);
    hide Load, Store, PathIn, OffsetIn, TypeIn, CanHook, PathLen, WithOffset, Note;
    var path := Store(k.s.mem, k.Path(), k.c.newPath[..Length(k)]);
    assert Onward(k, During(k, k.s.mem, Redirection(k), Zeroed(Length(k))), stored) ==
           During(k, path, Redirection(k), Redirected);
  }

  lemma LastDuring(k: Call, m: Memory, b: Attr, send: bool, stored: bool)
    requires k.thread !in k.s.entries
    ensures var s' := Onward(k, During(k, m, b, Decided(send)), stored);
            s'.mem == m && s'.buffer == b && s'.entries == k.s.entries && Onward(k, s', stored) == s' &&
            s'.records == if stored || k.thread in k.s.records then k.s.records[k.thread := RecordOf(k.Noted(), send)]
                          else k.s.records
  {
    hide Note;
    var s' := Onward(k, During(k, m, b, Decided(send)), stored);
    assert s'.entries == k.s.entries;
  }

  lemma EntersFirst(k: Call)
    requires k.Begins()
    ensures k.Entered() == During(k, k.s.mem, k.s.buffer, Noted) && k.thread !in k.s.entries
    ensures k.attr == 0 ==> !Sent(k)
    ensures !Edited(k) ==> Edits(k) == k.s.mem
    ensures Edited(k) ==> Sent(k)
  {
    hide Load, Store, PathIn, OffsetIn, TypeIn, Text, Redirectable, Redirection, Call.Path, Call.Bytes, Length;
  }

  /** Without interruption entry redirects exactly the uprobe requests that it may and can: the new path, cut to the
      length of the old, takes its place and the offset is zero; and the record says whether exit is to report. */
  lemma EntryAlone(k: Call, stored: bool)
    requires k.Begins()
    ensures var s' := Reached(k, Straight(k, stored));
            s'.mem == Edits(k) && s'.records == Records(k, stored) && s'.entries == k.s.entries &&
            (Edited(k) ==> s'.buffer == Redirection(k))
  {
    hide Onward, Reached, Edited, Sent, Call.Bytes, Call.Entered, Call.Begins, During, Redirection, Length, Edits,
         Call.Noted, RecordOf;
    EntersFirst(k);
    EntryUnrolled(k, stored);
    ReadsFirst(k, stored);
    var m := k.s.mem;
    if k.attr == 0 {
      LastDuring(k, m, k.s.buffer, false, stored);
    } else {
      ChecksNext(k, stored);
      if Edited(k) {
        WritesThen(k, stored);
        LastDuring(k, Edits(k), Redirection(k), true, stored);
      } else {
        LastDuring(k, m, Onward(k, During(k, m, k.Bytes(), Loaded), stored).buffer, Sent(k), stored);
      }
    }
  }

  /** An edited request has a zero offset and the new path in place of its own, and nothing else is touched. */
  lemma EntryOverwrites(k: Call, stored: bool)
    requires k.Begins() && Edited(k)
    ensures var m' := Reached(k, Straight(k, stored)).mem;
            Load(m', k.Where(), ATTR_SIZE) == Redirection(k) &&
            (forall i | 0 <= i < Length(k) :: Peek(m', k.Path() + i) == k.c.newPath[i]) &&
            forall a | k.Away(a, 1) :: Peek(m', a) == Peek(k.s.mem, a)
  {
    hide Load, Store, Reached, Straight, Redirection, Call.Bytes, Call.Path, Call.Where, Length;
    EntryAlone(k, stored);
    var m' := Edits(k);
    var now := Load(m', k.Where(), ATTR_SIZE);
    assert now == Redirection(k) by {
      forall i | 0 <= i < ATTR_SIZE
        ensures now[i] == Redirection(k)[i]
      {
        assert now[i] == Peek(m', k.Where() + i);
      }
    }
  }

  /** If no event can be reserved, exit leaves the edits in place and the record stored. */
  lemma UnreportedStaysEdited(k: Call)
    requires k.Begins() && Edited(k)
    ensures var s' := Reached(k, Straight(k, true) + [Exit(k.thread, false)]);
            s'.mem == Edits(k) && k.thread in s'.records && s'.records[k.thread].send
  {
    hide Edits, Straight, Call.Noted, Call.Entered;
    EntryAlone(k, true);
    var steps := Straight(k, true);
    assert (steps + [Exit(k.thread, false)])[..|steps|] == steps;
  }

  // ---------------------------------------------------------------- who is traced, and what is redirected

  /** Thread t is traced: its number's low half is the target, if there is one, and not the daemon's own. */
  predicate Traced(c: Config, t: nat) {
    (c.targetPid == 0 || t % 0x1_0000_0000 == c.targetPid) && (c.currentPid == 0 || t % 0x1_0000_0000 != c.currentPid)
  }

  /** Entering begins a handler for exactly the traced threads, and does nothing else. */
  lemma EnterTracesIff(c: Config, s: State, t: nat, attr: nat)
    ensures var s' := After(c, s, Enter(t, attr));
            (t in s'.entries <==> t in s.entries || Traced(c, t)) &&
            s'.mem == s.mem && s'.buffer == s.buffer && s'.records == s.records &&
            (forall u :: u != t ==> (u in s'.entries <==> u in s.entries)) &&
            forall u :: u in s.entries ==> s'.entries[u] == s.entries[u]
  {
    hide Note;
  }

  /** Leaving does something for exactly the traced threads with a record, unless there is an event to report and no
      room for it; the record is then gone. */
  lemma ExitActsIff(c: Config, s: State, t: nat, reserved: bool)
    ensures var s' := After(c, s, Exit(t, reserved));
            (s' != s <==> Traced(c, t) && t !in s.entries && t in s.records && (s.records[t].send ==> reserved)) &&
            (s' != s ==> s'.records == s.records - {t} && (!s.records[t].send ==> s'.mem == s.mem)) &&
            s'.buffer == s.buffer && s'.entries == s.entries
  {
    hide Reverted;
    if t in s.records { assert t !in s.records - {t}; }
  }

  lemma {:induction false} LoadPart(m: Memory, a: int, n: nat, i: nat, k: nat)
    requires i + k <= n
    ensures Load(m, a, n)[i..i + k] == Load(m, a + i, k)
  {
    hide Load;
    var whole, part := Load(m, a, n), Load(m, a + i, k);
    forall j | 0 <= j < k
      ensures whole[i..i + k][j] == part[j]
    {
      assert whole[i + j] == Peek(m, a + (i + j));
      assert part[j] == Peek(m, a + i + j);
    }
  }

  /** The request's fields, by their places in memory: the type at 0, the path's address at 56 and the offset at 64. */
  lemma FieldsAt(k: Call)
    ensures TypeIn(k.Bytes()) == LoadWord(k.s.mem, k.Where(), 4)
    ensures k.Path() == At(k.thread, LoadWord(k.s.mem, k.Where() + 56, 8))
    ensures OffsetIn(k.Bytes()) == Load(k.s.mem, k.Where() + 64, 8)
  {
    hide Load, FromLittleEndian;
    LoadPart(k.s.mem, k.Where(), ATTR_SIZE, 0, 4);
    LoadPart(k.s.mem, k.Where(), ATTR_SIZE, 56, 8);
    LoadPart(k.s.mem, k.Where(), ATTR_SIZE, 64, 8);
  }

  /** An uninterrupted entry redirects a request if and only if redirection is on, the request is there and of the
      uprobe type, the whitelist is off or has its offset, and its path can be read; and it has it reported if and only
      if it is redirected or, with redirection off, is there and of that type. */
  lemma EditedIff(k: Call)
    ensures var m, at := k.s.mem, k.Where();
            var uprobe := k.attr != 0 && LoadWord(m, at, 4) == k.c.uprobeType;
            (Edited(k) <==>
              k.c.replace && uprobe && (!k.c.enableWhitelist || LoadWord(m, at + 64, 8) in k.c.whitelist) &&
              At(k.thread, LoadWord(m, at + 56, 8)) !in k.c.unmapped) &&
            (Sent(k) <==> Edited(k) || (!k.c.replace && uprobe))
  {
    hide Load, FromLittleEndian, TypeIn, OffsetIn, Call.Bytes, Call.Path;
    FieldsAt(k);
  }

  /** A redirected request, byte by byte. */
  lemma RedirectionBytes(k: Call, i: nat)
    requires i < 128
    ensures |Redirection(k)| == 128 && Redirection(k)[i] == if 64 <= i < 72 then 0 else Peek(k.s.mem, k.Where() + i)
  {
    hide Load;
    assert k.Bytes()[i] == Peek(k.s.mem, k.Where() + i);
  }

  /** A path's length: up to its terminator, and 254 at most. */
  lemma PathLenIs(m: Memory, path: nat)
    ensures var n := PathLen(m, path);
            n <= 254 && (forall a :: path <= a < path + n ==> Peek(m, a) != 0) && (n < 254 ==> Peek(m, path + n) == 0)
  {
    hide StrLen;
  }

  // ---------------------------------------------------------------- calls that get mixed up

  function Slashes(n: nat): (r: seq<Byte>)
    ensures |r| == n && forall i :: 0 <= i < n ==> r[i] == 47
  {
    if n == 0 then [] else [47] + Slashes(n - 1)
  }

  /** Uprobes are of type 0, and all of them are to be redirected. */
  const CONFIG := Config(0, 0, 0, true, false, {}, Slashes(PATH_LENGTH), {})

  /** Thread 1 will make a request of zeros at 1000, thread 2 one at 2000 that has its path at 256. */
  const START := State(map[2057 := 1], Zeros(ATTR_SIZE), map[], map[])

  lemma {:induction false} ZeroBytes(b: seq<Byte>)
    requires forall i :: 0 <= i < |b| ==> b[i] == 0
    ensures FromLittleEndian(b) == 0
  {
    if b != [] { ZeroBytes(b[1..]); }
  }

  lemma ZeroType(b: Attr)
    requires forall i :: TYPE_AT <= i < TYPE_AT + 4 ==> b[i] == 0
    ensures TypeIn(b) == 0
  {
    ZeroBytes(b[TYPE_AT..TYPE_AT + 4]);
  }

  lemma ZeroPath(b: Attr)
    requires forall i :: PATH_AT <= i < PATH_AT + 8 ==> b[i] == 0
    ensures PathIn(b) == 0
  {
    ZeroBytes(b[PATH_AT..PATH_AT + 8]);
  }

  /** Thread 1 writes and goes, with what is in the buffer now. */
  lemma WritesAndGoes(s: State)
    requires 1 in s.entries && s.entries[1].phase.Loaded? && s.entries[1].attr == 1000 && s.entries[1].path == 0
    requires TypeIn(s.buffer) == 0 && s.buffer[57] == 1
    ensures var one := Go(1, true);
            var s' := AfterAll(CONFIG, s, [one, one, one, one, Exit(1, true)]);
            1 !in s'.entries && 1 !in s'.records && Peek(s'.mem, 1057) == 1
  {
    hide Load, Store, PathIn, TypeIn, OffsetIn, PathLen, WithOffset, AfterAll;
    var one, leave := Go(1, true), Exit(1, true);
    assert [one, one, one, one, leave] == [one] + [one, one, one, leave];
    FirstStep(CONFIG, s, one, [one, one, one, leave]);
    assert [one, one, one, leave] == [one] + [one, one, leave];
    var s1 := After(CONFIG, s, one);
    assert s1.entries[1].phase.Zeroed? && s1.buffer[57] == 1;
    FirstStep(CONFIG, s1, one, [one, one, leave]);
    assert [one, one, leave] == [one] + [one, leave];
    var s2 := After(CONFIG, s1, one);
    FirstStep(CONFIG, s2, one, [one, leave]);
    assert [one, leave] == [one] + [leave];
    var s3 := After(CONFIG, s2, one);
    assert Peek(s3.mem, 1057) == 1;
    FirstStep(CONFIG, s3, one, [leave]);
    var s4 := After(CONFIG, s3, one);
    assert s4.records[1] == RecordOf(s.entries[1], true);
    assert [leave] == [leave] + [];
    FirstStep(CONFIG, s4, leave, []);
    Nothing(CONFIG, After(CONFIG, s4, leave));
  }

  lemma Nothing(c: Config, s: State)
    ensures AfterAll(c, s, []) == s
  {
  }

  /** Thread 2 reads its request between thread 1's read and write: thread 1 is left with the other's path. */
  lemma RequestMixedUp()
    ensures var k := Call(CONFIG, START, 1, 1000);
            var one := Go(1, true);
            var s' := Reached(k, [Enter(2, 2000), one, Go(2, true), one, one, one, one, Exit(1, true)]);
            k.Begins() && 1 !in s'.entries && 1 !in s'.records &&
            Peek(k.s.mem, 1057) == 0 && Peek(s'.mem, 1057) == 1
  {
    hide Load, Store, PathIn, TypeIn, OffsetIn, PathLen, Text, WithOffset, AfterAll;
    var k, one, two, last := Call(CONFIG, START, 1, 1000), Go(1, true), Go(2, true), Exit(1, true);
    ZeroPath(k.Bytes());
    var s0 := k.Entered();
    var rest := [one, two, one, one, one, one, last];
    assert [Enter(2, 2000), one, two, one, one, one, one, last] == [Enter(2, 2000)] + rest;
    FirstStep(k.c, s0, Enter(2, 2000), rest);
    var s1 := After(k.c, s0, Enter(2, 2000));
    assert s1.entries[1].attr == 1000 && s1.entries[2].attr == 2000 && s1.entries[1].path == 0;
    assert rest == [one] + [two, one, one, one, one, last];
    FirstStep(k.c, s1, one, [two, one, one, one, one, last]);
    var s2 := After(k.c, s1, one);
    assert [two, one, one, one, one, last] == [two] + [one, one, one, one, last];
    FirstStep(k.c, s2, two, [one, one, one, one, last]);
    var s3 := After(k.c, s2, two);
    assert s3.buffer == Load(START.mem, 2000, ATTR_SIZE);
    ZeroType(s3.buffer);
    WritesAndGoes(s3);
  }

  lemma PathAt256(b: Attr)
    requires b[57] == 1 && forall i :: PATH_AT <= i < PATH_AT + 8 && i != 57 ==> b[i] == 0
    ensures PathIn(b) == 256
  {
    var w := b[PATH_AT..PATH_AT + 8];
    assert w[1..][1..] == b[PATH_AT + 2..PATH_AT + 8];
    ZeroBytes(b[PATH_AT + 2..PATH_AT + 8]);
    assert FromLittleEndian(w[1..]) == 1;
  }

  /** Thread 1 goes on, with the path in the buffer now. */
  lemma WritesPathOf(s: State)
    requires 1 in s.entries && s.entries[1].phase.Loaded? && TypeIn(s.buffer) == 0 && PathIn(s.buffer) == 256
    ensures var s' := AfterAll(CONFIG, s, [Go(1, true), Go(1, true)]);
            (2 in s'.entries <==> 2 in s.entries) && s'.records == s.records && Peek(s'.mem, 256) == 47
  {
    hide Load, Store, PathIn, TypeIn, OffsetIn, PathLen, WithOffset, AfterAll;
    var one := Go(1, true);
    PathKept(s.buffer, ZERO);
    assert [one, one] == [one] + [one];
    FirstStep(CONFIG, s, one, [one]);
    var s1 := After(CONFIG, s, one);
    assert [one] == [one] + [];
    FirstStep(CONFIG, s1, one, []);
    Nothing(CONFIG, After(CONFIG, s1, one));
  }

  /** Thread 1 has read its request, and waits. */
  function Waiting(): State {
    After(CONFIG, After(CONFIG, START, Enter(1, 1000)), Go(1, true))
  }

  lemma WaitingIs()
    ensures var s := Waiting();
            s.mem == START.mem && 1 in s.entries && s.entries[1].phase.Loaded? && 2 !in s.entries && s.records == map[]
  {
    hide Load, PathIn, OffsetIn, Text;
  }

  /** Thread 1 reads its request, and goes on after thread 2's whole call: thread 2 is left with the new path, although
      its exit has put its own back. */
  lemma PathMixedUp()
    ensures var k := Call(CONFIG, Waiting(), 2, 2000);
            var s' := Reached(k, Straight(k, true) + [Exit(2, true), Go(1, true), Go(1, true)]);
            k.Begins() && k.Path() == 256 && 2 !in s'.entries && 2 !in s'.records &&
            Peek(k.s.mem, 256) == 0 && Peek(s'.mem, 256) == 47
  {
    hide Load, Store, PathIn, TypeIn, OffsetIn, PathLen, Text, WithOffset, AfterAll, Waiting, Straight, Edits;
    WaitingIs();
    var k := Call(CONFIG, Waiting(), 2, 2000);
    PathAt256(k.Bytes());
    ZeroType(k.Bytes());
    EntryAlone(k, true);
    var s1 := Reached(k, Straight(k, true));
    PathKept(k.Bytes(), ZERO);
    ZeroType(Redirection(k));
    Split(CONFIG, k.Entered(), Straight(k, true), [Exit(2, true), Go(1, true), Go(1, true)]);
    assert [Exit(2, true), Go(1, true), Go(1, true)] == [Exit(2, true)] + [Go(1, true), Go(1, true)];
    FirstStep(CONFIG, s1, Exit(2, true), [Go(1, true), Go(1, true)]);
    WritesPathOf(After(CONFIG, s1, Exit(2, true)));
  }

  lemma {:induction false} Split(c: Config, s: State, first: seq<Step>, rest: seq<Step>)
    ensures AfterAll(c, s, first + rest) == AfterAll(c, AfterAll(c, s, first), rest)
  {
    hide After;
    if rest == [] {
      assert first + rest == first;
    } else {
      var n := |rest| - 1;
      Split(c, s, first, rest[..n]);
      assert (first + rest)[..|first + rest| - 1] == first + rest[..n];
    }
  }

  // ---------------------------------------------------------------- what lies behind the path

  /** Exit writes 255 bytes over the path, so a byte in use behind an empty path is zeroed. */
  lemma ByteBehindPathLost()
    ensures var k := Call(CONFIG, START.(mem := map[5 := 7]), 1, 1000);
            var s' := Reached(k, Straight(k, true) + [Exit(1, true)]);
            k.Begins() && k.Path() == 0 && Peek(k.s.mem, 0) == 0 && Peek(k.s.mem, 5) == 7 && Peek(s'.mem, 5) == 0
  {
    hide Load, Store, PathIn, TypeIn, OffsetIn, WithOffset, Straight, Edits, AfterAll, Text, PathLen;
    var k := Call(CONFIG, START.(mem := map[5 := 7]), 1, 1000);
    ZeroPath(k.Bytes());
    ZeroType(k.Bytes());
    EntryAlone(k, true);
    EmptyPath(k.s.mem, 0);
    Split(CONFIG, k.Entered(), Straight(k, true), [Exit(1, true)]);
    ExitZeroes(Reached(k, Straight(k, true)));
  }

  lemma ExitZeroes(s: State)
    requires 1 !in s.entries && 1 in s.records && s.records[1].send
    requires s.records[1].path == 0 && s.records[1].attr == 1000 && s.records[1].text[5] == 0
    ensures Peek(AfterAll(CONFIG, s, [Exit(1, true)]).mem, 5) == 0
  {
    hide Store, AfterAll;
    assert [Exit(1, true)] == [Exit(1, true)] + [];
    FirstStep(CONFIG, s, Exit(1, true), []);
    Nothing(CONFIG, After(CONFIG, s, Exit(1, true)));
  }

  lemma EmptyPath(m: Memory, path: nat)
    requires Peek(m, path) == 0
    ensures PathLen(m, path) == 0
  {
  }
}
