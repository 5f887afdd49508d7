/** The daemon's view of running processes: each scan of the kernel's table of started processes is compared with the
    previous one, and starts and exits are reported. */
module ExecTracker {
  import opened Wrappers

  /** A process record and whether it is reported as an exit. */
  datatype Event = Event(info: int, exit: bool)

  /** One key of the table: what the lookup found, and whether the process is still too young to be reported. */
  datatype Entry = Entry(pid: int, found: Option<Event>, young: bool)

  datatype Notice = Notice(pid: int, event: Event)

  /** A found and old enough process. */
  datatype Seen = Seen(pid: int, event: Event)

  /** What the first n keys yield. */
  function SeenTo(entries: seq<Entry>, n: nat): seq<Seen>
    requires n <= |entries|
  {
    if n == 0 then [] else
      var e := entries[n - 1];
      SeenTo(entries, n - 1) + (if e.found.Some? then [Seen(e.pid, e.found.value)] else [])
  }

  predicate StopsAt(e: Entry) {
    e.found.Some? && e.young
  }

  /** How many keys are read: a process that is too young ends the scan. */
  function ReadTo(entries: seq<Entry>, n: nat): (r: nat)
    requires n <= |entries|
    ensures r <= n && (forall k :: 0 <= k < r ==> !StopsAt(entries[k])) && (r < n ==> StopsAt(entries[r]))
  {
    if n == 0 then 0 else
      var r := ReadTo(entries, n - 1);
      if r < n - 1 || StopsAt(entries[n - 1]) then r else n
  }

  function Pids(seen: seq<Seen>): set<int> {
    set i | 0 <= i < |seen| :: seen[i].pid
  }

  /** A start is reported for every process not remaining from the previous scan. */
  function Starts(seen: seq<Seen>, known: set<int>): seq<Notice> {
    if seen == [] then [] else
      var before, s := seen[..|seen| - 1], seen[|seen| - 1];
      Starts(before, known) + (if s.pid in known - Pids(before) then [] else [Notice(s.pid, s.event)])
  }

  function Latest(seen: seq<Seen>): map<int, Event> {
    if seen == [] then map[] else Latest(seen[..|seen| - 1])[seen[|seen| - 1].pid := seen[|seen| - 1].event]
  }

  lemma {:induction false} LatestKeys(seen: seq<Seen>)
    ensures Latest(seen).Keys == Pids(seen)
  {
    if seen != [] {
      var before := seen[..|seen| - 1];
      LatestKeys(before);
      PidsGrow(before, seen[|seen| - 1]);
      assert before + [seen[|seen| - 1]] == seen;
    }
  }

  lemma PidsGrow(seen: seq<Seen>, s: Seen)
    ensures Pids(seen + [s]) == Pids(seen) + {s.pid}
  {
    var all := seen + [s];
    assert all[|seen|] == s;
    assert forall i :: 0 <= i < |seen| ==> all[i] == seen[i];
    forall p | p in Pids(seen)
      ensures p in Pids(all)
    {
      var i :| 0 <= i < |seen| && seen[i].pid == p;
      assert all[i].pid == p;
    }
  }

  /** An exit is reported for every process in m, in order of pid. */
  ghost function Exits(m: map<int, Event>): seq<Notice>
    decreases |m|
  {
    if m == map[] then [] else
      LeastExists(m.Keys);
      var p :| p in m && forall q :: q in m ==> p <= q;
      assert (m - {p}).Keys == m.Keys - {p};
      [Notice(p, m[p].(exit := true))] + Exits(m - {p})
  }

  lemma Member<T>(s: set<T>) returns (x: T)
    requires s != {}
    ensures x in s
  {
    x :| x in s;
  }

  lemma {:induction false} LeastExists(s: set<int>)
    requires s != {}
    ensures exists p :: p in s && forall q :: q in s ==> p <= q
    decreases |s|
  {
    var x := Member(s);
    if s == {x} {
    } else {
      LeastExists(s - {x});
      var p :| p in s - {x} && forall q :: q in s - {x} ==> p <= q;
      var least := if x < p then x else p;
      forall q | q in s
        ensures least <= q
      {
        assert q == x || q in s - {x};
      }
    }
  }

  /** The processes believed to run, and everything reported so far. */
  datatype View = View(pidMap: map<int, Event>, log: seq<Notice>)

  /** The processes a scan sees. */
  function SeenIn(entries: seq<Entry>): seq<Seen> {
    SeenTo(entries, ReadTo(entries, |entries|))
  }

  /** A process that is too young makes the scan return at once. */
  predicate Abandoned(entries: seq<Entry>) {
    ReadTo(entries, |entries|) < |entries|
  }

  /** The view after a scan. An abandoned scan has reported starts but does not remember them. */
  ghost function After(v: View, entries: seq<Entry>): View {
    var seen := SeenIn(entries);
    var starts := Starts(seen, v.pidMap.Keys);
    if entries == [] then v
    else if Abandoned(entries) then v.(log := v.log + starts)
    else View(Latest(seen), v.log + starts + Exits(v.pidMap - Pids(seen)))
  }

  class Tracker {
    var pidMap: map<int, Event>
    var log: seq<Notice>

    constructor ()
      ensures pidMap == map[] && log == []
    {
      pidMap, log := map[], [];
    }

    /** One scan over the table's keys. */
    method Scan(entries: seq<Entry>)
      modifies this
      ensures View(pidMap, log) == After(old(View(pidMap, log)), entries)
    {
      hide SeenTo, Latest, Pids, Starts, Exits;
      if entries == [] {
        return;
      }
      NothingSeen(entries, pidMap);
      var newMap: map<int, Event> := map[];
      var remain := pidMap;
      ghost var known := pidMap.Keys;
      ghost var log0 := log;
      var i: nat := 0;
      while i < |entries|
        invariant i <= |entries| && ReadTo(entries, i) == i
        invariant pidMap == old(pidMap)
        invariant newMap == Latest(SeenTo(entries, i))
        invariant remain == pidMap - Pids(SeenTo(entries, i))
        invariant log == log0 + Starts(SeenTo(entries, i), known)
      {
        var entry := entries[i];
        ghost var seen := SeenTo(entries, i);
        SeenStep(entries, i);
        if entry.found.Some? {
          var e := entry.found.value;
          if entry.young {
            ReadStops(entries, i, |entries|);
            return;
          }
          OneSeen(seen, Seen(entry.pid, e), pidMap);
          newMap := newMap[entry.pid := e];
          if entry.pid !in remain {
            log := log + [Notice(entry.pid, e)];
          } else {
            remain := remain - {entry.pid};
          }
        }
        i := i + 1;
      }
      var exits := ReportExits(remain);
      log := log + exits;
      pidMap := newMap;
    }
  }

  lemma NothingSeen(entries: seq<Entry>, pidMap: map<int, Event>)
    ensures SeenTo(entries, 0) == [] && Latest([]) == map[]
    ensures pidMap - Pids([]) == pidMap && Starts([], pidMap.Keys) == []
  {
    assert Pids([]) == {};
  }

  lemma SeenStep(entries: seq<Entry>, i: nat)
    requires i < |entries|
    ensures var e, seen := entries[i], SeenTo(entries, i);
            SeenTo(entries, i + 1) == if e.found.Some? then seen + [Seen(e.pid, e.found.value)] else seen
  {
  }

  /** What one more process does to each of the scan's variables. */
  lemma OneSeen(seen: seq<Seen>, s: Seen, pidMap: map<int, Event>)
    ensures var all := seen + [s];
            Latest(all) == Latest(seen)[s.pid := s.event] &&
            (s.pid in pidMap - Pids(seen) <==> s.pid in pidMap.Keys - Pids(seen)) &&
            pidMap - Pids(all) == pidMap - Pids(seen) - {s.pid} &&
            Starts(all, pidMap.Keys) ==
            Starts(seen, pidMap.Keys) + (if s.pid in pidMap - Pids(seen) then [] else [Notice(s.pid, s.event)])
    ensures s.pid !in pidMap - Pids(seen) ==> pidMap - Pids(seen + [s]) == pidMap - Pids(seen)
  {
    assert (seen + [s])[..|seen|] == seen;
    PidsGrow(seen, s);
  }

  lemma NoExit()
    ensures Exits(map[]) == []
  {
  }

  lemma FirstExit(m: map<int, Event>, p: int)
    requires p in m && forall q :: q in m ==> p <= q
    ensures Exits(m) == [Notice(p, m[p].(exit := true))] + Exits(m - {p})
  {
    var first :| first in m && (forall q :: q in m ==> first <= q) &&
                 Exits(m) == [Notice(first, m[first].(exit := true))] + Exits(m - {first});
    hide Exits;
    assert first == p;
  }

  lemma Shrinks(m: map<int, Event>, p: int)
    requires p in m
    ensures |(m - {p}).Keys| < |m.Keys|
  {
    hide Exits;
    assert (m - {p}).Keys == m.Keys - {p};
  }

  method ReportExits(m: map<int, Event>) returns (notices: seq<Notice>)
    ensures notices == Exits(m)
  {
    hide Exits;
    var remain := m;
    notices := [];
    NoExit();
    while remain != map[]
      invariant notices + Exits(remain) == Exits(m)
      decreases |remain.Keys|
    {
      LeastExists(remain.Keys);
      var p :| p in remain && forall q :: q in remain ==> p <= q;
      FirstExit(remain, p);
      Shrinks(remain, p);
      notices := notices + [Notice(p, remain[p].(exit := true))];
      remain := remain - {p};
    }
  }

  lemma {:induction false} ReadStops(entries: seq<Entry>, i: nat, n: nat)
    requires i < n <= |entries| && ReadTo(entries, i) == i && StopsAt(entries[i])
    ensures ReadTo(entries, n) == i
    decreases n
  {
    if n > i + 1 { ReadStops(entries, i, n - 1); }
  }

  // ---------------------------------------------------------------- starts and exits alternate

  /** The notices about one process: false for a start, true for an exit. */
  function Kinds(log: seq<Notice>, pid: int): seq<bool> {
    if log == [] then [] else
      var n := log[|log| - 1];
      Kinds(log[..|log| - 1], pid) + (if n.pid == pid then [n.event.exit] else [])
  }

  lemma {:induction false} KindsConcat(a: seq<Notice>, b: seq<Notice>, pid: int)
    ensures Kinds(a + b, pid) == Kinds(a, pid) + Kinds(b, pid)
    decreases |b|
  {
    if b == [] {
      assert a + b == a;
    } else {
      KindsConcat(a, b[..|b| - 1], pid);
      assert (a + b)[..|a + b| - 1] == a + b[..|b| - 1];
    }
  }

  /** Start, exit, start, exit, and so on. */
  predicate Alternates(kinds: seq<bool>) {
    forall i :: 0 <= i < |kinds| ==> (kinds[i] <==> i % 2 == 1)
  }

  /** A process's starts and exits alternate beginning with a start, and it is believed to run exactly when the last
      notice is a start. */
  predicate FaithfulTo(v: View, p: int) {
    Alternates(Kinds(v.log, p)) && (p in v.pidMap.Keys <==> |Kinds(v.log, p)| % 2 == 1)
  }

  ghost predicate Faithful(v: View) {
    forall p :: FaithfulTo(v, p)
  }

  /** Records in the table are those of running processes. */
  predicate NoExits(seen: seq<Seen>) {
    forall i :: 0 <= i < |seen| ==> !seen[i].event.exit
  }

  predicate Distinct(seen: seq<Seen>) {
    forall i, j :: 0 <= i < j < |seen| ==> seen[i].pid != seen[j].pid
  }

  function Occurrences(seen: seq<Seen>, pid: int): nat {
    if seen == [] then 0
    else Occurrences(seen[..|seen| - 1], pid) + (if seen[|seen| - 1].pid == pid then 1 else 0)
  }

  function Falses(n: nat): (r: seq<bool>)
    ensures |r| == n && forall i :: 0 <= i < n ==> !r[i]
  {
    seq(n, i => false)
  }

  lemma {:induction false} OccurrencesPids(seen: seq<Seen>, pid: int)
    ensures Occurrences(seen, pid) > 0 <==> pid in Pids(seen)
  {
    if seen != [] {
      var before, s := seen[..|seen| - 1], seen[|seen| - 1];
      OccurrencesPids(before, pid);
      PidsGrow(before, s);
      assert before + [s] == seen;
    } else {
      assert Pids([]) == {};
    }
  }

  /** A process is reported as started once per occurrence, except that one occurrence of a known one is taken for
      the process already running. */
  lemma {:induction false} StartKinds(seen: seq<Seen>, known: set<int>, pid: int)
    requires NoExits(seen)
    ensures Kinds(Starts(seen, known), pid) == Falses(Reported(seen, known, pid))
  {
    hide Pids, Kinds;
    if seen == [] {
      assert Starts(seen, known) == [];
      NoKinds(pid);
    } else {
      var before, s := seen[..|seen| - 1], seen[|seen| - 1];
      StartKinds(before, known, pid);
      OccurrencesPids(before, s.pid);
      KindsConcat(Starts(before, known), [Notice(s.pid, s.event)], pid);
      OneKind(Notice(s.pid, s.event), pid);
      assert Starts(before, known) + [] == Starts(before, known);
      var k := Reported(before, known, pid);
      assert Falses(k) + [false] == Falses(k + 1) && Falses(k) + [] == Falses(k);
    }
  }

  /** How often a process is reported as started. */
  function Reported(seen: seq<Seen>, known: set<int>, pid: int): nat {
    var n := Occurrences(seen, pid);
    if pid in known && n > 0 then n - 1 else n
  }

  lemma NoKinds(pid: int)
    ensures Kinds([], pid) == []
  {
  }

  lemma OneKind(n: Notice, pid: int)
    ensures Kinds([n], pid) == if n.pid == pid then [n.event.exit] else []
  {
    assert [n][..0] == [];
  }

  lemma {:induction false} ExitKinds(m: map<int, Event>, pid: int)
    ensures Kinds(Exits(m), pid) == if pid in m then [true] else []
    decreases |m|
  {
    if m != map[] {
      LeastExists(m.Keys);
      var p :| p in m && (forall q :: q in m ==> p <= q) &&
               Exits(m) == [Notice(p, m[p].(exit := true))] + Exits(m - {p});
      var n := Notice(p, m[p].(exit := true));
      assert (m - {p}).Keys == m.Keys - {p};
      ExitKinds(m - {p}, pid);
      KindsConcat([n], Exits(m - {p}), pid);
      assert [n][..0] == [];
      assert Kinds([n], pid) == if p == pid then [true] else [];
    }
  }

  lemma {:induction false} DistinctOnce(seen: seq<Seen>, p: int)
    requires Distinct(seen)
    ensures Occurrences(seen, p) <= 1
  {
    if seen != [] {
      var before, s := seen[..|seen| - 1], seen[|seen| - 1];
      DistinctOnce(before, p);
      OccurrencesPids(before, s.pid);
      assert s.pid !in Pids(before);
    }
  }

  lemma {:induction false} TwiceNotOnce(seen: seq<Seen>, i: nat, j: nat)
    requires i < j < |seen| && seen[i].pid == seen[j].pid
    ensures Occurrences(seen, seen[i].pid) > 1
  {
    var before := seen[..|seen| - 1];
    if j < |seen| - 1 {
      TwiceNotOnce(before, i, j);
    } else {
      OccurrencesPids(before, seen[i].pid);
      assert before[i].pid in Pids(before);
    }
  }

  lemma DistinctIff(seen: seq<Seen>)
    ensures Distinct(seen) <==> forall p :: Occurrences(seen, p) <= 1
  {
    hide Occurrences;
    if Distinct(seen) {
      forall p
        ensures Occurrences(seen, p) <= 1
      {
        DistinctOnce(seen, p);
      }
    } else {
      var i, j :| 0 <= i < j < |seen| && seen[i].pid == seen[j].pid;
      TwiceNotOnce(seen, i, j);
    }
  }

  /** One more start keeps the alternation exactly after an exit or at the beginning; two never do. */
  lemma AddStarts(kinds: seq<bool>, n: nat)
    requires Alternates(kinds)
    ensures Alternates(kinds + Falses(n)) <==> n == 0 || (n == 1 && |kinds| % 2 == 0)
  {
    var all := kinds + Falses(n);
    if n >= 1 { assert all[|kinds|] == false; }
    if n >= 2 { assert all[|kinds| + 1] == false; }
    if n == 0 { assert all == kinds; }
  }

  lemma AddExit(kinds: seq<bool>)
    requires Alternates(kinds) && |kinds| % 2 == 1
    ensures Alternates(kinds + [true])
  {
  }

  lemma KindsAfter(v: View, entries: seq<Entry>, p: int)
    requires NoExits(SeenIn(entries)) && entries != []
    ensures var seen := SeenIn(entries); var starts := Falses(Reported(seen, v.pidMap.Keys, p));
            Kinds(After(v, entries).log, p) ==
            if !Abandoned(entries) && p in v.pidMap.Keys && Occurrences(seen, p) == 0
            then Kinds(v.log, p) + starts + [true] else Kinds(v.log, p) + starts
  {
    hide Kinds, Pids, Starts, Exits, SeenTo, Latest;
    var seen := SeenIn(entries);
    var starts := Starts(seen, v.pidMap.Keys);
    var exits := Exits(v.pidMap - Pids(seen));
    StartKinds(seen, v.pidMap.Keys, p);
    KindsConcat(v.log, starts, p);
    KindsConcat(v.log + starts, exits, p);
    ExitKinds(v.pidMap - Pids(seen), p);
    OccurrencesPids(seen, p);
  }

  /** No process twice, and if the scan is abandoned no start was reported. */
  predicate Clean(v: View, entries: seq<Entry>) {
    Distinct(SeenIn(entries)) && (Abandoned(entries) ==> Pids(SeenIn(entries)) <= v.pidMap.Keys)
  }

  /** The same, process by process. */
  predicate CleanFor(v: View, entries: seq<Entry>, p: int) {
    var n := Occurrences(SeenIn(entries), p);
    n <= 1 && (Abandoned(entries) && n > 0 ==> p in v.pidMap.Keys)
  }

  lemma CleanMeans(v: View, entries: seq<Entry>)
    ensures Clean(v, entries) <==> forall p :: CleanFor(v, entries, p)
  {
    hide SeenIn, Occurrences, Pids, Distinct, Abandoned;
    var seen := SeenIn(entries);
    DistinctIff(seen);
    forall p
      ensures Occurrences(seen, p) > 0 <==> p in Pids(seen)
    {
      OccurrencesPids(seen, p);
    }
    if Clean(v, entries) {
      forall p
        ensures CleanFor(v, entries, p)
      {
        assert Occurrences(seen, p) <= 1;
      }
    }
    if forall p :: CleanFor(v, entries, p) {
      forall p
        ensures Occurrences(seen, p) <= 1
      {
        assert CleanFor(v, entries, p);
      }
      forall p | Abandoned(entries) && p in Pids(seen)
        ensures p in v.pidMap.Keys
      {
        assert CleanFor(v, entries, p);
      }
    }
  }

  lemma KeysAfter(v: View, entries: seq<Entry>, p: int)
    requires entries != []
    ensures p in After(v, entries).pidMap.Keys <==>
            if Abandoned(entries) then p in v.pidMap.Keys else Occurrences(SeenIn(entries), p) > 0
  {
    hide Exits, Starts, SeenTo, Latest, Pids;
    LatestKeys(SeenIn(entries));
    OccurrencesPids(SeenIn(entries), p);
  }

  /** Whether one process's part of the view stays faithful. */
  lemma FaithfulAt(v: View, entries: seq<Entry>, p: int)
    requires NoExits(SeenIn(entries)) && entries != [] && FaithfulTo(v, p)
    ensures FaithfulTo(After(v, entries), p) <==> CleanFor(v, entries, p)
  {
    hide After, Kinds, SeenIn, Occurrences, Abandoned, Alternates;
    KindsAfter(v, entries, p);
    KeysAfter(v, entries, p);
    var kinds := Kinds(v.log, p);
    AddStarts(kinds, Reported(SeenIn(entries), v.pidMap.Keys, p));
    if p in v.pidMap.Keys && Occurrences(SeenIn(entries), p) == 0 {
      assert kinds + Falses(0) == kinds;
      AddExit(kinds);
    }
  }

  /** A scan keeps the view faithful exactly when it sees no process twice and, if it is abandoned at a young
      process, had reported no start before that. */
  lemma ScanFaithfulIff(v: View, entries: seq<Entry>)
    requires Faithful(v) && NoExits(SeenIn(entries))
    ensures Faithful(After(v, entries)) <==> Clean(v, entries)
  {
    hide FaithfulTo, CleanFor;
    if entries == [] {
      assert Clean(v, entries);
    } else {
      CleanMeans(v, entries);
      hide After, Clean;
      forall p
        ensures FaithfulTo(After(v, entries), p) <==> CleanFor(v, entries, p)
      {
        assert FaithfulTo(v, p);
        FaithfulAt(v, entries, p);
      }
    }
  }

  /** The view after a series of scans. */
  ghost function AfterAll(scans: seq<seq<Entry>>): View {
    if scans == [] then View(map[], []) else After(AfterAll(scans[..|scans| - 1]), scans[|scans| - 1])
  }

  /** The view is faithful at the start and after each of the first n scans. */
  ghost predicate FaithfulThrough(scans: seq<seq<Entry>>, n: nat)
    requires n <= |scans|
  {
    forall k | 0 <= k <= n :: Faithful(AfterAll(scans[..k]))
  }

  ghost predicate CleanThrough(scans: seq<seq<Entry>>, n: nat)
    requires n <= |scans|
  {
    forall k | 0 <= k < n :: Clean(AfterAll(scans[..k]), scans[k])
  }

  /** Over every run of scans: after each of them starts and exits of each process alternate, beginning with a start,
      and the processes believed to run are exactly those whose last notice is a start, if and only if every scan is
      clean. */
  lemma {:induction false} RunFaithfulIff(scans: seq<seq<Entry>>, n: nat)
    requires n <= |scans| && forall k :: 0 <= k < n ==> NoExits(SeenIn(scans[k]))
    ensures FaithfulThrough(scans, n) <==> CleanThrough(scans, n)
  {
    hide AfterAll, Clean, SeenIn, Faithful;
    AfterNext(scans, n);
    if n == 0 {
      FaithfulStart();
    } else {
      RunFaithfulIff(scans, n - 1);
      AfterNext(scans, n - 1);
      if FaithfulThrough(scans, n - 1) {
        assert Faithful(AfterAll(scans[..n - 1]));
        ScanFaithfulIff(AfterAll(scans[..n - 1]), scans[n - 1]);
      }
      hide After;
      assert FaithfulThrough(scans, n) <==> FaithfulThrough(scans, n - 1) && Faithful(AfterAll(scans[..n]));
      assert CleanThrough(scans, n) <==>
             CleanThrough(scans, n - 1) && Clean(AfterAll(scans[..n - 1]), scans[n - 1]);
    }
  }

  lemma AfterNext(scans: seq<seq<Entry>>, n: nat)
    requires n <= |scans|
    ensures AfterAll(scans[..0]) == View(map[], [])
    ensures n < |scans| ==> AfterAll(scans[..n + 1]) == After(AfterAll(scans[..n]), scans[n])
  {
    hide After;
    if n < |scans| { assert scans[..n + 1][..n] == scans[..n]; }
  }

  lemma FaithfulStart()
    ensures Faithful(View(map[], []))
  {
  }

  /** An old process followed by a young one. */
  const INTERRUPTED: seq<Entry> := [Entry(7, Some(Event(0, false)), false), Entry(8, Some(Event(1, false)), true)]

  /** An abandoned scan can break this: the start of process 7 is reported by each of two such scans. */
  lemma AbandonedScanRepeats()
    ensures Kinds(AfterAll([INTERRUPTED, INTERRUPTED]).log, 7) == [false, false]
    ensures !Faithful(AfterAll([INTERRUPTED, INTERRUPTED]))
  {
    hide After;
    var es, first, v0 := INTERRUPTED, Notice(7, Event(0, false)), View(map[], []);
    assert AfterAll([]) == v0;
    assert [es][..0] == [] && [es, es][..1] == [es];
    AfterInterrupted(v0);
    var v1 := View(map[], [first]);
    assert AfterAll([es]) == v1;
    AfterInterrupted(v1);
    var v2 := View(map[], [first, first]);
    assert AfterAll([es, es]) == v2;
    assert [first, first][..1] == [first] && [first][..0] == [];
    assert Kinds([first], 7) == [false];
    assert Kinds(v2.log, 7) == [false, false];
    assert !Kinds(v2.log, 7)[1] && !Alternates(Kinds(v2.log, 7));
    assert !FaithfulTo(v2, 7);
  }

  lemma AfterInterrupted(v: View)
    requires v.pidMap == map[]
    ensures After(v, INTERRUPTED) == View(map[], v.log + [Notice(7, Event(0, false))])
  {
    hide Starts, ReadTo, SeenTo;
    InterruptedStarts();
    assert v.pidMap.Keys == {};
  }

  lemma InterruptedStarts()
    ensures Abandoned(INTERRUPTED) && Starts(SeenIn(INTERRUPTED), {}) == [Notice(7, Event(0, false))]
  {
    var es, s := INTERRUPTED, Seen(7, Event(0, false));
    assert ReadTo(es, 0) == 0;
    assert ReadTo(es, 1) == 1;
    assert ReadTo(es, 2) == 1;
    assert SeenTo(es, 0) == [];
    assert SeenTo(es, 1) == [s];
    assert [s][..0] == [];
    assert Starts([s][..0], {}) == [];
  }
}
