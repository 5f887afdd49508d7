/** What one scan of the process table reports and remembers, said from the table's entries alone. */
module ExecTrackerReports {
  import opened Wrappers
  import opened ExecTracker

  /** Among the first n entries, number i has this process's record. */
  predicate ListedAt(entries: seq<Entry>, n: nat, i: nat, pid: int, event: Event) {
    i < n && i < |entries| && entries[i].pid == pid && entries[i].found == Some(event)
  }

  ghost predicate Listed(entries: seq<Entry>, n: nat, pid: int, event: Event) {
    exists i: nat :: ListedAt(entries, n, i, pid, event)
  }

  /** A process is listed once at most. */
  predicate Once(entries: seq<Entry>) {
    forall i, j :: 0 <= i < j < |entries| ==> entries[i].pid != entries[j].pid
  }

  lemma {:induction false} SeenListed(entries: seq<Entry>, n: nat, pid: int, event: Event)
    requires n <= |entries|
    ensures Seen(pid, event) in SeenTo(entries, n) <==> Listed(entries, n, pid, event)
  {
    if n > 0 {
      SeenListed(entries, n - 1, pid, event);
      ListedNext(entries, n - 1, pid, event);
    }
  }

  lemma ListedNext(entries: seq<Entry>, n: nat, pid: int, event: Event)
    requires n < |entries|
    ensures Listed(entries, n + 1, pid, event) <==>
            Listed(entries, n, pid, event) || (entries[n].pid == pid && entries[n].found == Some(event))
  {
    if Listed(entries, n + 1, pid, event) {
      var i: nat :| ListedAt(entries, n + 1, i, pid, event);
      if i < n { assert ListedAt(entries, n, i, pid, event); }
    }
    if Listed(entries, n, pid, event) {
      var i: nat :| ListedAt(entries, n, i, pid, event);
      assert ListedAt(entries, n + 1, i, pid, event);
    }
    if entries[n].pid == pid && entries[n].found == Some(event) { assert ListedAt(entries, n + 1, n, pid, event); }
  }

  lemma {:induction false} SeenOnce(entries: seq<Entry>, n: nat)
    requires n <= |entries| && Once(entries)
    ensures Distinct(SeenTo(entries, n))
    ensures forall k :: 0 <= k < |SeenTo(entries, n)| ==>
              exists i :: 0 <= i < n && entries[i].pid == SeenTo(entries, n)[k].pid
  {
    if n > 0 { SeenOnce(entries, n - 1); }
  }

  lemma {:induction false} LatestSeen(seen: seq<Seen>, pid: int, event: Event)
    requires Distinct(seen)
    ensures pid in Latest(seen) && Latest(seen)[pid] == event <==> Seen(pid, event) in seen
  {
    if seen != [] {
      var n := |seen| - 1;
      LatestSeen(seen[..n], pid, event);
      assert seen == seen[..n] + [seen[n]];
    }
  }

  lemma {:induction false} StartsSeen(seen: seq<Seen>, known: set<int>, x: Notice)
    requires Distinct(seen)
    ensures x in Starts(seen, known) <==> Seen(x.pid, x.event) in seen && x.pid !in known
  {
    if seen != [] {
      var n := |seen| - 1;
      StartsSeen(seen[..n], known, x);
      assert seen == seen[..n] + [seen[n]];
      assert seen[n].pid !in Pids(seen[..n]);
    }
  }

  lemma {:induction false} ExitsOf(m: map<int, Event>, x: Notice)
    ensures x in Exits(m) <==> x.pid in m && x.event == m[x.pid].(exit := true)
    decreases |m|
  {
    if m != map[] {
      LeastExists(m.Keys);
      var p :| p in m && (forall q :: q in m ==> p <= q);
      FirstExit(m, p);
      Shrinks(m, p);
      assert |(m - {p}).Keys| == |m - {p}| && |m.Keys| == |m|;
      ExitsOf(m - {p}, x);
      hide Exits;
    }
  }

  lemma PidsListed(entries: seq<Entry>, n: nat, pid: int)
    requires n <= |entries|
    ensures pid in Pids(SeenTo(entries, n)) <==> exists event :: Listed(entries, n, pid, event)
  {
    hide SeenTo, Listed;
    var seen := SeenTo(entries, n);
    if pid in Pids(seen) {
      var i :| 0 <= i < |seen| && seen[i].pid == pid;
      SeenListed(entries, n, pid, seen[i].event);
      assert Seen(pid, seen[i].event) == seen[i];
    }
    if event :| Listed(entries, n, pid, event) {
      SeenListed(entries, n, pid, event);
    }
  }

  /** A scan of a table in which no process is too young: the processes remembered are exactly those listed, with their
      records; a start is reported for exactly those listed that were not remembered, with its record; an exit for
      exactly those remembered that are not listed, with the record remembered. */
  lemma ScanReports(v: View, entries: seq<Entry>, pid: int, event: Event)
    requires entries != [] && Once(entries)
    requires forall i :: 0 <= i < |entries| && entries[i].found.Some? ==> !entries[i].young
    ensures var v', all := After(v, entries), |entries|;
            v.log <= v'.log &&
            (pid in v'.pidMap && v'.pidMap[pid] == event <==> Listed(entries, all, pid, event)) &&
            (Notice(pid, event) in v'.log[|v.log|..] <==>
              (Listed(entries, all, pid, event) && pid !in v.pidMap) ||
              (pid in v.pidMap && event == v.pidMap[pid].(exit := true) && !exists e :: Listed(entries, all, pid, e)))
  {
    hide SeenTo, Latest, Starts, Exits, Pids, Listed;
    assert ReadTo(entries, |entries|) == |entries|;
    var seen, x := SeenTo(entries, |entries|), Notice(pid, event);
    SeenOnce(entries, |entries|);
    SeenListed(entries, |entries|, pid, event);
    LatestSeen(seen, pid, event);
    StartsSeen(seen, v.pidMap.Keys, x);
    ExitsOf(v.pidMap - Pids(seen), x);
    PidsListed(entries, |entries|, pid);
    var v', starts, exits := After(v, entries), Starts(seen, v.pidMap.Keys), Exits(v.pidMap - Pids(seen));
    assert v'.log == v.log + (starts + exits);
    assert v'.log[|v.log|..] == starts + exits;
  }

  /** A scan that comes to a process that is too young remembers what was remembered before, and has reported starts for
      exactly the processes listed before it that were not remembered. */
  lemma AbandonedReports(v: View, entries: seq<Entry>, n: nat, pid: int, event: Event)
    requires n < |entries| && Once(entries) && entries[n].found.Some? && entries[n].young
    requires forall i :: 0 <= i < n && entries[i].found.Some? ==> !entries[i].young
    ensures var v' := After(v, entries);
            v'.pidMap == v.pidMap && v.log <= v'.log &&
            (Notice(pid, event) in v'.log[|v.log|..] <==> Listed(entries, n, pid, event) && pid !in v.pidMap)
  {
    hide SeenTo, Latest, Starts, Exits, Pids, Listed;
    assert ReadTo(entries, |entries|) == n;
    var seen := SeenTo(entries, n);
    SeenOnce(entries, n);
    SeenListed(entries, n, pid, event);
    StartsSeen(seen, v.pidMap.Keys, Notice(pid, event));
    assert After(v, entries).log[|v.log|..] == Starts(seen, v.pidMap.Keys);
  }
}
