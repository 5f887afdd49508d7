/** The daemon's handlers around perf_event_open: on entry they redirect a uprobe request by editing the caller's
    memory, on exit they report the request and undo the edits. The entry handler works in a buffer that all processors
    share, so its accesses to that buffer and to memory are separate steps. */
module PerfEvent {
  import opened Words

  const PATH_LENGTH: nat := 255

  // The layout of a perf_event_attr.
  const ATTR_SIZE: nat := 128
  const TYPE_AT: nat := 0
  const PATH_AT: nat := 56
  const OFFSET_AT: nat := 64

  type Window = s: seq<Byte> | |s| == PATH_LENGTH witness seq(PATH_LENGTH, i => 0)
  type Attr = s: seq<Byte> | |s| == ATTR_SIZE witness seq(ATTR_SIZE, i => 0)
  type Word = s: seq<Byte> | |s| == 8 witness [0, 0, 0, 0, 0, 0, 0, 0]
  type Size = n: nat | n <= PATH_LENGTH

  const ZERO: Word := [0, 0, 0, 0, 0, 0, 0, 0]

  /** Settings of the daemon, and the addresses at which no path can be read or written. */
  datatype Config = Config(
    targetPid: nat,
    currentPid: nat,
    uprobeType: nat,
    replace: bool,
    enableWhitelist: bool,
    whitelist: set<nat>,
    newPath: Window,
    unmapped: set<int>)

  predicate Filtered(c: Config, thread: nat) {
    (c.targetPid != 0 && U32(thread) != c.targetPid) || (c.currentPid != 0 && U32(thread) == c.currentPid)
  }

  predicate CanHook(c: Config, offset: Word) {
    c.enableWhitelist ==> FromLittleEndian(offset) in c.whitelist
  }

  /** An address of a thread's process: the upper half of a thread's number names the process, and memory holds the
      address spaces of all of them one after the other. */
  function At(thread: nat, a: nat): nat {
    (thread / TWO32) * TWO64 + a
  }

  // ---------------------------------------------------------------- requests

  function Zeros(n: nat): (r: seq<Byte>)
    ensures |r| == n && forall i :: 0 <= i < n ==> r[i] == 0
  {
    if n == 0 then [] else [0] + Zeros(n - 1)
  }

  /** The position of the first zero byte among n, or n. */
  function StrLen(m: Memory, a: int, n: nat): (r: nat)
    ensures r <= n && (forall k :: a <= k < a + r ==> Peek(m, k) != 0) && (r < n ==> Peek(m, a + r) == 0)
  {
    if n == 0 then 0 else
      var r := StrLen(m, a, n - 1);
      if r < n - 1 || Peek(m, a + (n - 1)) == 0 then r else n
  }

  /** The bytes of the path that are copied, without the terminator. */
  function PathLen(m: Memory, path: nat): (r: nat)
    ensures r < PATH_LENGTH
  {
    StrLen(m, path, PATH_LENGTH - 1)
  }

  /** The path in a zeroed buffer. */
  function Text(m: Memory, path: nat): (r: Window)
    ensures forall i :: 0 <= i < PATH_LENGTH ==> r[i] == if i < PathLen(m, path) then Peek(m, path + i) else 0
  {
    Load(m, path, PathLen(m, path)) + Zeros(PATH_LENGTH - PathLen(m, path))
  }

  function TypeIn(b: Attr): nat {
    FromLittleEndian(b[TYPE_AT..TYPE_AT + 4])
  }

  function PathIn(b: Attr): nat {
    FromLittleEndian(b[PATH_AT..PATH_AT + 8])
  }

  function OffsetIn(b: Attr): Word {
    b[OFFSET_AT..OFFSET_AT + 8]
  }

  function WithOffset(b: Attr, w: Word): (r: Attr)
    ensures forall i :: 0 <= i < ATTR_SIZE ==>
              r[i] == if OFFSET_AT <= i < OFFSET_AT + 8 then w[i - OFFSET_AT] else b[i]
  {
    b[..OFFSET_AT] + w + b[OFFSET_AT + 8..]
  }

  // ---------------------------------------------------------------- steps

  /** Where a thread stands in the entry handler. */
  datatype Phase =
    | Noted               // the arguments are read
    | Loaded              // the attr is in the shared buffer
    | Zeroed(size: Size)  // the buffer's offset is zero and the path measured
    | Redirected          // the new path is written
    | Decided(send: bool)

  /** What the entry handler has read of the request for itself, and where it stands. */
  datatype Entry = Entry(attr: nat, path: nat, text: Window, offset: Word, phase: Phase)

  /** What entry keeps for exit. */
  datatype Record = Record(attr: nat, path: nat, text: Window, offset: Word, send: bool)

  /** Memory, the shared buffer, the records of calls under way and the entry handlers at work. */
  datatype State = State(mem: Memory, buffer: Attr, records: map<nat, Record>, entries: map<nat, Entry>)

  /** A thread enters, goes on to its next access in the entry handler, or leaves; or anyone writes memory. stored is
      false when the table of records is full, which keeps out new records only; reserved is false when there is no
      room to report an event. */
  datatype Step =
    | Enter(thread: nat, attr: nat)
    | Go(thread: nat, stored: bool)
    | Exit(thread: nat, reserved: bool)
    | Poke(at: int, value: Byte)

  predicate Mapped(c: Config, path: int) {
    path !in c.unmapped
  }

  /** The arguments as entry notes them. */
  function Note(c: Config, m: Memory, thread: nat, attr: nat): Entry {
    var bytes: Attr := Load(m, At(thread, attr), ATTR_SIZE);
    var path := At(thread, PathIn(bytes));
    Entry(attr, PathIn(bytes), if Mapped(c, path) then Text(m, path) else Zeros(PATH_LENGTH), OffsetIn(bytes), Noted)
  }

  /** Where the path in the shared buffer points for a thread. */
  function Target(s: State, thread: nat): nat {
    At(thread, PathIn(s.buffer))
  }

  function SetPhase(s: State, thread: nat, e: Entry, phase: Phase): State {
    s.(entries := s.entries[thread := e.(phase := phase)])
  }

  function RecordOf(e: Entry, send: bool): Record {
    Record(e.attr, e.path, e.text, e.offset, send)
  }

  /** The next access of an entry handler. */
  function Advance(c: Config, s: State, t: nat, e: Entry, stored: bool): State {
    match e.phase
    case Noted =>
      if e.attr == 0 then SetPhase(s, t, e, Decided(false))
      else SetPhase(s, t, e, Loaded).(buffer := Load(s.mem, At(t, e.attr), ATTR_SIZE))
    case Loaded =>
      if TypeIn(s.buffer) != c.uprobeType then SetPhase(s, t, e, Decided(false))
      else if !c.replace then SetPhase(s, t, e, Decided(true))
      else if !CanHook(c, OffsetIn(s.buffer)) then SetPhase(s, t, e, Decided(false))
      else
        var zeroed := s.(buffer := WithOffset(s.buffer, ZERO));
        if !Mapped(c, Target(s, t)) then SetPhase(zeroed, t, e, Decided(false))
        else SetPhase(zeroed, t, e, Zeroed(PathLen(s.mem, Target(s, t)) + 1))
    case Zeroed(size) =>
      var path := Target(s, t);
      SetPhase(s, t, e, Redirected).(mem := if Mapped(c, path) then Store(s.mem, path, c.newPath[..size]) else s.mem)
    case Redirected => SetPhase(s, t, e, Decided(true)).(mem := Store(s.mem, At(t, e.attr), s.buffer))
    case Decided(send) =>
      var records := if stored || t in s.records then s.records[t := RecordOf(e, send)] else s.records;
      s.(records := records, entries := s.entries - {t})
  }

  /** Memory after exit has put back path and offset. */
  function Reverted(c: Config, m: Memory, t: nat, r: Record): Memory {
    var path := At(t, r.path);
    Store(if Mapped(c, path) then Store(m, path, r.text) else m, At(t, r.attr) + OFFSET_AT, r.offset)
  }

  function After(c: Config, s: State, step: Step): State {
    match step
    case Enter(t, attr) =>
      if Filtered(c, t) || t in s.entries then s else s.(entries := s.entries[t := Note(c, s.mem, t, attr)])
    case Go(t, stored) => if t in s.entries then Advance(c, s, t, s.entries[t], stored) else s
    case Exit(t, reserved) =>
      if Filtered(c, t) || t in s.entries || t !in s.records then s
      else if !s.records[t].send then s.(records := s.records - {t})
      else if !reserved then s
      else s.(mem := Reverted(c, s.mem, t, s.records[t]), records := s.records - {t})
    case Poke(a, v) => s.(mem := s.mem[a := v])
  }

  function AfterAll(c: Config, s: State, steps: seq<Step>): State {
    if steps == [] then s else After(c, AfterAll(c, s, steps[..|steps| - 1]), steps[|steps| - 1])
  }

  /** The handlers, over the callers' memory, the shared buffer and the table of records. */
  class Tracer {
    const config: Config
    var mem: Memory
    var buffer: Attr
    var records: map<nat, Record>
    var entries: map<nat, Entry>

    constructor (config: Config, mem: Memory)
      ensures this.config == config && View() == State(mem, Zeros(ATTR_SIZE), map[], map[])
    {
      this.config, this.mem, buffer, records, entries := config, mem, Zeros(ATTR_SIZE), map[], map[];
    }

    function View(): State
      reads this
    {
      State(mem, buffer, records, entries)
    }

    /** Entry begins: the arguments are read into the handler's own variables. */
    method OnEnter(thread: nat, attr: nat)
      modifies this`entries
      ensures View() == After(config, old(View()), Enter(thread, attr))
    {
      hide Load, PathIn, OffsetIn, Text;
      if Filtered(config, thread) || thread in entries {
        return;
      }
      var bytes: Attr := Load(mem, At(thread, attr), ATTR_SIZE);
      var path := PathIn(bytes);
      var text: Window := Zeros(PATH_LENGTH);
      if Mapped(config, At(thread, path)) {
        text := Text(mem, At(thread, path));
      }
      entries := entries[thread := Entry(attr, path, text, OffsetIn(bytes), Noted)];
    }

    /** Entry goes on to its next access. */
    method OnGo(thread: nat, stored: bool)
      requires thread in entries
      modifies this
      ensures View() == After(config, old(View()), Go(thread, stored))
    {
      hide Load, Store, PathIn, OffsetIn, TypeIn, WithOffset, CanHook, PathLen;
      var e := entries[thread];
      var next: Phase;
      match e.phase {
        case Noted =>
          if e.attr == 0 {
            next := Decided(false);
          } else {
            buffer := Load(mem, At(thread, e.attr), ATTR_SIZE);
            next := Loaded;
          }
        case Loaded =>
          if TypeIn(buffer) != config.uprobeType {
            next := Decided(false);
          } else if !config.replace {
            next := Decided(true);
          } else if !CanHook(config, OffsetIn(buffer)) {
            next := Decided(false);
          } else {
            var path := At(thread, PathIn(buffer));
            buffer := WithOffset(buffer, ZERO);
            if Mapped(config, path) {
              next := Zeroed(PathLen(mem, path) + 1);
            } else {
              next := Decided(false);
            }
          }
        case Zeroed(size) =>
          var path := At(thread, PathIn(buffer));
          if Mapped(config, path) {
            mem := Store(mem, path, config.newPath[..size]);
          }
          next := Redirected;
        case Redirected =>
          mem := Store(mem, At(thread, e.attr), buffer);
          next := Decided(true);
        case Decided(send) =>
          if stored || thread in records {
            records := records[thread := Record(e.attr, e.path, e.text, e.offset, send)];
          }
          entries := entries - {thread};
          return;
      }
      entries := entries[thread := e.(phase := next)];
    }

    method OnExit(thread: nat, reserved: bool)
      modifies this
      ensures View() == After(config, old(View()), Exit(thread, reserved))
    {
      hide Store;
      if Filtered(config, thread) || thread in entries || thread !in records {
        return;
      }
      var args := records[thread];
      if args.send {
        if !reserved {
          return;
        }
        if Mapped(config, At(thread, args.path)) {
          mem := Store(mem, At(thread, args.path), args.text);
        }
        mem := Store(mem, At(thread, args.attr) + OFFSET_AT, args.offset);
      }
      records := records - {thread};
    }
  }
}
