/** Exactly which interleavings of pushes and drains deliver every record complete, whatever the records are. */
module GpuRingSchedules {
  import Words
  import opened GpuRing

  /** The same steps in the same order, with any records in the pushes. */
  predicate SameShape(a: seq<Action>, b: seq<Action>) {
    |a| == |b| && forall i :: 0 <= i < |a| ==> a[i] == b[i] || (a[i].Push? && b[i].Push?)
  }

  ghost predicate AlwaysFifo(n: nat, size: nat, actions: seq<Action>)
    requires n > 0
  {
    forall b | SameShape(actions, b) && (forall i :: 0 <= i < |b| ==> Fits(b[i], size)) :: Fifo(Run(Start(n, size), b))
  }

  predicate TearsAt(n: nat, size: nat, actions: seq<Action>, i: nat)
    requires n > 0 && i < |actions|
  {
    Tears(Run(Start(n, size), actions[..i]), actions[i])
  }

  // ---------------------------------------------------------------- control does not depend on records

  predicate SamePhase(p: Producer, q: Producer) {
    (p.Ready? <==> q.Ready?) && (p.Checked? <==> q.Checked?) && (p.Dirty? <==> q.Dirty?) &&
    (p.Claimed? <==> q.Claimed?) && (p.Sized? <==> q.Sized?) && (Writing(p) ==> Writing(q) && p.k == q.k)
  }

  predicate SameControl(r: Ring, q: Ring) {
    r.head == q.head && r.tail == q.tail && r.dirty == q.dirty && |r.slots| == |q.slots| && r.consumer == q.consumer &&
    SamePhase(r.producer, q.producer)
  }

  lemma ControlStep(r: Ring, q: Ring, a: Action, b: Action)
    requires |r.slots| > 0 && SameControl(r, q) && (a == b || (a.Push? && b.Push?))
    ensures SameControl(Do(r, a), Do(q, b))
  {
  }

  lemma {:induction false} ControlRun(n: nat, size: nat, a: seq<Action>, b: seq<Action>)
    requires n > 0 && SameShape(a, b)
    ensures SameControl(Run(Start(n, size), a), Run(Start(n, size), b))
  {
    hide Do;
    if a != [] {
      var m := |a| - 1;
      ControlRun(n, size, a[..m], b[..m]);
      ControlStep(Run(Start(n, size), a[..m]), Run(Start(n, size), b[..m]), a[m], b[m]);
    }
  }

  lemma SameTears(n: nat, size: nat, a: seq<Action>, b: seq<Action>, i: nat)
    requires n > 0 && SameShape(a, b) && i < |a|
    ensures TearsAt(n, size, a, i) <==> TearsAt(n, size, b, i)
  {
    hide Run;
    ControlRun(n, size, a[..i], b[..i]);
  }

  // ---------------------------------------------------------------- one record marked

  /** Record number mark is one byte long, all others are empty. */
  function RecordFor(k: nat, mark: nat): seq<int> {
    if k == mark then [1] else []
  }

  /** The schedule with these records in its pushes. */
  function Refilled(n: nat, size: nat, actions: seq<Action>, mark: nat): (r: seq<Action>)
    requires n > 0
    ensures SameShape(actions, r) && forall i :: 0 <= i < |r| ==> r[i].Push? ==> |r[i].record| <= 1
  {
    if actions == [] then [] else
      var before, a := Refilled(n, size, actions[..|actions| - 1], mark), actions[|actions| - 1];
      before + [if a.Push? then Push(RecordFor(Run(Start(n, size), before).tail, mark)) else a]
  }

  lemma {:induction false} RefilledPrefix(n: nat, size: nat, actions: seq<Action>, mark: nat, i: nat)
    requires n > 0 && i <= |actions|
    ensures Refilled(n, size, actions, mark)[..i] == Refilled(n, size, actions[..i], mark)
    decreases |actions|
  {
    hide Run, RecordFor;
    if i == |actions| {
      assert actions[..i] == actions;
    } else {
      var m := |actions| - 1;
      RefilledPrefix(n, size, actions[..m], mark, i);
      assert actions[..m][..i] == actions[..i];
    }
  }

  /** The marked record's size has been written to its slot, and then another's. */
  predicate SizeWritten(r: Ring, k: nat) {
    r.tail > k + 1 || (r.tail == k + 1 && !r.producer.Claimed?)
  }

  predicate DataWritten(r: Ring, k: nat) {
    r.tail > k + 1 || (r.tail == k + 1 && !r.producer.Claimed? && !r.producer.Sized?)
  }

  predicate Blank(s: Slot) {
    s.size == 0 && |s.data| > 0 && s.data[0] == 0
  }

  /** The claimed records, and the one in hand, are the marked schedule's. */
  predicate Marked(r: Ring, mark: nat) {
    |r.pushed| == r.tail && (forall k :: 0 <= k < |r.pushed| ==> r.pushed[k] == RecordFor(k, mark)) &&
    (r.producer.Checked? || r.producer.Dirty? ==> r.producer.record == RecordFor(r.tail, mark)) &&
    (Writing(r.producer) ==> 0 < r.tail == r.producer.k + 1 && r.producer.record == RecordFor(r.producer.k, mark))
  }

  /** All slots but number m are blank, and that one's size and first byte are zero if these say so. */
  predicate BlankBut(slots: seq<Slot>, m: nat, size: bool, data: bool)
    requires m < |slots|
  {
    (forall j :: 0 <= j < |slots| && j != m ==> Blank(slots[j])) && |slots[m].data| > 0 &&
    (size ==> slots[m].size == 0) && (data ==> slots[m].data[0] == 0)
  }

  /** The marked record's slot is of size zero before it is written and again once the ring has come round. */
  predicate SizeZero(r: Ring, n: nat, mark: nat) {
    !SizeWritten(r, mark) || SizeWritten(r, mark + n)
  }

  predicate BlankSlots(r: Ring, n: nat, mark: nat)
    requires n > 0
  {
    Words.ModRange(mark, n);
    |r.slots| == n && BlankBut(r.slots, mark % n, SizeZero(r, n, mark), !DataWritten(r, mark))
  }

  lemma MarkedStep(r: Ring, mark: nat, a: Action)
    requires |r.slots| > 0 && Marked(r, mark) && (a.Push? ==> a.record == RecordFor(r.tail, mark))
    ensures Marked(Do(r, a), mark)
  {
    hide RecordFor;
  }

  /** A record whose slot is the marked one's is the marked one, or comes a full turn before or after it. */
  lemma SameSlot(k: nat, mark: nat, n: nat)
    requires n > 0 && k % n == mark % n
    ensures k == mark || k + n <= mark || mark + n <= k
  {
    if k < mark < k + n { SlotsApart(k, mark, n); }
    if mark < k < mark + n { SlotsApart(mark, k, n); }
  }

  lemma BlankProduce(r: Ring, n: nat, mark: nat)
    requires n > 0 && Marked(r, mark) && BlankSlots(r, n, mark)
    ensures BlankSlots(ProduceStep(r), n, mark)
  {
    if r.producer.Claimed? {
      BlankSize(r, n, mark);
    } else if r.producer.Sized? {
      BlankData(r, n, mark);
    } else {
      hide Blank, RecordFor;
    }
  }

  lemma WriteSize(slots: seq<Slot>, i: nat, m: nat, z: bool, z': bool, d: bool, len: nat)
    requires i < |slots| && m < |slots| && BlankBut(slots, m, z, d)
    requires (i != m ==> len == 0 && (z' ==> z)) && (i == m && z' ==> len == 0)
    ensures BlankBut(slots[i := slots[i].(size := len)], m, z', d)
  {
  }

  lemma WriteData(slots: seq<Slot>, i: nat, m: nat, z: bool, d: bool, data: seq<int>)
    requires i == m < |slots| && BlankBut(slots, m, z, d) && |data| > 0
    ensures BlankBut(slots[i := slots[i].(data := data)], m, z, false)
  {
  }

  lemma BlankSize(r: Ring, n: nat, mark: nat)
    requires n > 0 && Marked(r, mark) && BlankSlots(r, n, mark) && r.producer.Claimed?
    ensures BlankSlots(ProduceStep(r), n, mark)
  {
    var k, r' := r.tail - 1, ProduceStep(r);
    Words.ModRange(k, n);
    Words.ModRange(mark, n);
    NextTurn(mark, n);
    if k % n == mark % n { SameSlot(k, mark, n); }
    assert r'.slots == r.slots[k % n := r.slots[k % n].(size := |RecordFor(k, mark)|)];
    hide BlankBut, ProduceStep;
    ZeroAfter(r, n, mark, k % n == mark % n);
    WriteSize(r.slots, k % n, mark % n, SizeZero(r, n, mark), SizeZero(r', n, mark), !DataWritten(r, mark),
              |RecordFor(k, mark)|);
  }

  lemma NextTurn(k: nat, n: nat)
    requires n > 0
    ensures (k + n) % n == k % n
  {
    var q := k / n;
    assert k + n == n * (q + 1) + k % n;
    Words.ModUnique(k + n, n, q + 1, k % n);
  }

  /** What writing a size does to what is known of the marked slot. */
  lemma ZeroAfter(r: Ring, n: nat, mark: nat, same: bool)
    requires n > 0 && |r.slots| > 0 && Marked(r, mark) && r.producer.Claimed?
    requires var k := r.tail - 1;
             if same then k == mark || k + n <= mark || mark + n <= k else k != mark && k != mark + n
    ensures var r', len := ProduceStep(r), |RecordFor(r.tail - 1, mark)|;
            DataWritten(r', mark) == DataWritten(r, mark) && |r'.slots| == |r.slots| &&
            if same then SizeZero(r', n, mark) ==> len == 0
            else len == 0 && (SizeZero(r', n, mark) ==> SizeZero(r, n, mark))
  {
  }

  lemma BlankData(r: Ring, n: nat, mark: nat)
    requires n > 0 && Marked(r, mark) && BlankSlots(r, n, mark) && r.producer.Sized?
    ensures BlankSlots(ProduceStep(r), n, mark)
  {
    var k, r' := r.tail - 1, ProduceStep(r);
    Words.ModRange(k, n);
    Words.ModRange(mark, n);
    var i := k % n;
    if k == mark {
      WriteData(r.slots, i, i, SizeZero(r, n, mark), !DataWritten(r, mark), r'.slots[i].data);
      hide BlankBut;
    } else {
      EmptyWritten(r);
      hide BlankBut, ProduceStep;
    }
  }

  /** Writing an empty record's data changes nothing. */
  lemma EmptyWritten(r: Ring)
    requires |r.slots| > 0 && r.producer.Sized? && r.producer.record == []
    ensures ProduceStep(r) == r.(producer := Copied([], r.producer.k))
  {
    var i := r.producer.k % |r.slots|;
    var prior := r.slots[i].data;
    assert [] + prior[0..] == prior;
    assert r.slots[i := r.slots[i].(data := prior)] == r.slots;
  }

  lemma BlankStep(r: Ring, n: nat, mark: nat, a: Action)
    requires n > 0 && |r.slots| > 0 && Marked(r, mark) && BlankSlots(r, n, mark)
    ensures BlankSlots(Do(r, a), n, mark)
  {
    match a
    case Push(_) =>
    case Produce => BlankProduce(r, n, mark);
    case Drain => hide Blank;
  }

  lemma StartMarked(n: nat, size: nat, mark: nat)
    requires n > 0 && size > 0
    ensures Marked(Start(n, size), mark) && BlankSlots(Start(n, size), n, mark)
  {
  }

  lemma {:induction false} MarkedRun(n: nat, size: nat, actions: seq<Action>, mark: nat)
    requires n > 0 && size > 0
    ensures var r := Run(Start(n, size), Refilled(n, size, actions, mark)); Marked(r, mark) && BlankSlots(r, n, mark)
  {
    hide Do, Marked, BlankSlots, RecordFor;
    if actions == [] {
      StartMarked(n, size, mark);
    } else {
      var m := |actions| - 1;
      MarkedRun(n, size, actions[..m], mark);
      var b := Refilled(n, size, actions, mark);
      RefilledPrefix(n, size, actions, mark, m);
      var r := Run(Start(n, size), b[..m]);
      MarkedStep(r, mark, b[m]);
      BlankStep(r, n, mark, b[m]);
    }
  }

  // ---------------------------------------------------------------- a torn delivery stays

  lemma DeliversBad(r: Ring, n: nat, size: nat)
    requires Inv(r, n, size) && Tears(r, Drain) && 0 < r.head && Marked(r, r.head - 1) && BlankSlots(r, n, r.head - 1)
    ensures var r' := DrainStep(r);
            |r.delivered| == r.head - 1 < |r'.delivered| && r.head - 1 < |r'.pushed| &&
            !Holds(r'.delivered[r.head - 1], r'.pushed[r.head - 1])
  {
    Words.ModRange(r.head - 1, n);
    SamePushed(r);
  }

  lemma DrainIs(r: Ring)
    requires |r.slots| > 0
    ensures Do(r, Drain) == DrainStep(r)
  {
  }

  lemma StepKeeps(r: Ring, a: Action)
    requires |r.slots| > 0
    ensures r.delivered <= Do(r, a).delivered && r.pushed <= Do(r, a).pushed
  {
  }

  lemma {:induction false} RunKeeps(n: nat, size: nat, actions: seq<Action>, i: nat)
    requires n > 0 && i <= |actions|
    ensures var r, r' := Run(Start(n, size), actions[..i]), Run(Start(n, size), actions);
            r.delivered <= r'.delivered && r.pushed <= r'.pushed
    decreases |actions|
  {
    hide Do;
    if i == |actions| {
      assert actions[..i] == actions;
    } else {
      var m := |actions| - 1;
      RunKeeps(n, size, actions[..m], i);
      assert actions[..m][..i] == actions[..i];
      StepKeeps(Run(Start(n, size), actions[..m]), actions[m]);
    }
  }

  /** Filled with the right records, a schedule that tears delivers something else than was pushed. */
  lemma TearShows(n: nat, size: nat, actions: seq<Action>, i: nat) returns (b: seq<Action>)
    requires n > 0 && size > 0 && i < |actions| && TearsAt(n, size, actions, i)
    ensures SameShape(actions, b) && (forall j :: 0 <= j < |b| ==> Fits(b[j], size)) && !Fifo(Run(Start(n, size), b))
  {
    hide Do, Run, Inv, Marked, BlankSlots, Refilled, Disturbed, Holds;
    var mark := TakenRecord(n, size, actions[..i]);
    b := Refilled(n, size, actions, mark);
    SameTears(n, size, actions, b, i);
    ControlRun(n, size, actions[..i], b[..i]);
    RefilledPrefix(n, size, actions, mark, i);
    MarkedRun(n, size, actions[..i], mark);
    RunInv(n, size, b[..i]);
    var r := Run(Start(n, size), b[..i]);
    DeliversBad(r, n, size);
    DrainIs(r);
    RunNext(n, size, b, i);
    RunKeeps(n, size, b, i + 1);
    var r', last := Run(Start(n, size), b[..i + 1]), Run(Start(n, size), b);
    assert last.delivered[mark] == r'.delivered[mark] && last.pushed[mark] == r'.pushed[mark];
  }

  /** The number of the record taken for delivery, which no run has before the first was drained. */
  lemma TakenRecord(n: nat, size: nat, actions: seq<Action>) returns (mark: nat)
    requires n > 0 && Run(Start(n, size), actions).consumer.Taken?
    ensures Run(Start(n, size), actions).head == mark + 1
  {
    var b := Refilled(n, size, actions, 0);
    hide Run, Refilled;
    ControlRun(n, size, actions, b);
    SomeHead(n, size, b);
    mark := Run(Start(n, size), actions).head - 1;
  }

  lemma {:induction false} SomeHead(n: nat, size: nat, actions: seq<Action>)
    requires n > 0
    ensures Run(Start(n, size), actions).consumer.Taken? ==> Run(Start(n, size), actions).head > 0
  {
    if actions != [] { SomeHead(n, size, actions[..|actions| - 1]); }
  }

  lemma RunNext(n: nat, size: nat, actions: seq<Action>, i: nat)
    requires n > 0 && i < |actions|
    ensures Run(Start(n, size), actions[..i + 1]) == Do(Run(Start(n, size), actions[..i]), actions[i])
  {
    hide Do;
    assert actions[..i + 1][..i] == actions[..i];
  }

  /** For every schedule of single steps of pushes and drains: whatever records its pushes carry, what it delivers is
      the first records pushed, in order and complete, if and only if no delivering step tears. */
  lemma AlwaysFifoIff(n: nat, size: nat, actions: seq<Action>)
    requires n > 0 && size > 0
    ensures AlwaysFifo(n, size, actions) <==> forall i | 0 <= i < |actions| :: !TearsAt(n, size, actions, i)
  {
    hide Run, Fifo, Tears;
    if forall i | 0 <= i < |actions| :: !TearsAt(n, size, actions, i) {
      forall b | SameShape(actions, b) && (forall i :: 0 <= i < |b| ==> Fits(b[i], size))
        ensures Fifo(Run(Start(n, size), b))
      {
        forall i | 0 <= i < |b|
          ensures !Tears(Run(Start(n, size), b[..i]), b[i])
        {
          SameTears(n, size, actions, b, i);
          assert !TearsAt(n, size, b, i);
        }
        FifoSteps(n, size, b);
      }
    } else {
      var i :| 0 <= i < |actions| && TearsAt(n, size, actions, i);
      var b := TearShows(n, size, actions, i);
    }
  }
}
