/** One GPU thread's ring buffer: the thread pushes records, the host drains them, step by step in any order. */
module GpuRing {
  import Words

  /** A slot's size field and its data bytes. */
  datatype Slot = Slot(size: nat, data: seq<int>)

  /** Where the pushing thread stands; it carries the record and, once claimed, the index it writes. */
  datatype Producer =
    | Ready
    | Checked(record: seq<int>)           // the ring was not full
    | Dirty(record: seq<int>)             // dirty = 1
    | Claimed(record: seq<int>, k: nat)   // tail has moved past k
    | Sized(record: seq<int>, k: nat)     // size written
    | Copied(record: seq<int>, k: nat)    // data written

  /** Where the draining host stands; it carries the slot it is about to read. */
  datatype Consumer = Waiting | Clean | Found(slot: nat) | Taken(slot: nat)

  /** Counters, dirty flag and slots, both sides' positions, and the history: records claimed, what was delivered,
      and how many pushes were refused. */
  datatype Ring = Ring(head: nat, tail: nat, dirty: bool, slots: seq<Slot>, producer: Producer, consumer: Consumer,
                       pushed: seq<seq<int>>, delivered: seq<Slot>, refused: nat)

  datatype Action = Push(record: seq<int>) | Produce | Drain

  /** The slot content a complete push of a record leaves: its size, and its bytes over what was there. */
  predicate Holds(s: Slot, record: seq<int>) {
    s.size == |record| && |record| <= |s.data| && s.data[..|record|] == record
  }

  function ProduceStep(r: Ring): (r': Ring)
    requires |r.slots| > 0
    ensures |r'.slots| == |r.slots|
  {
    match r.producer
    case Ready => r
    case Checked(rec) => r.(dirty := true, producer := Dirty(rec))
    case Dirty(rec) => r.(tail := r.tail + 1, pushed := r.pushed + [rec], producer := Claimed(rec, r.tail))
    case Claimed(rec, k) =>
      var i := k % |r.slots|;
      r.(slots := r.slots[i := r.slots[i].(size := |rec|)], producer := Sized(rec, k))
    case Sized(rec, k) =>
      var i := k % |r.slots|;
      var prior := r.slots[i].data;
      var data := if |rec| <= |prior| then rec + prior[|rec|..] else rec;
      r.(slots := r.slots[i := r.slots[i].(data := data)], producer := Copied(rec, k))
    case Copied(rec, k) => r.(dirty := false, producer := Ready)
  }

  function DrainStep(r: Ring): (r': Ring)
    requires |r.slots| > 0
    ensures |r'.slots| == |r.slots|
  {
    match r.consumer
    case Waiting => if r.dirty then r else r.(consumer := Clean)
    case Clean => if r.head == r.tail then r.(consumer := Waiting) else r.(consumer := Found(r.head % |r.slots|))
    case Found(i) => r.(head := r.head + 1, consumer := Taken(i))
    case Taken(i) =>
      if i < |r.slots| then r.(delivered := r.delivered + [r.slots[i]], consumer := Waiting) else r
  }

  function Do(r: Ring, a: Action): Ring
    requires |r.slots| > 0
    ensures |Do(r, a).slots| == |r.slots|
  {
    match a
    case Push(rec) =>
      if r.producer != Ready then r
      else if r.tail - r.head == |r.slots| then r.(refused := r.refused + 1)
      else r.(producer := Checked(rec))
    case Produce => ProduceStep(r)
    case Drain => DrainStep(r)
  }

  function Run(r: Ring, actions: seq<Action>): (r': Ring)
    requires |r.slots| > 0
    ensures |r'.slots| == |r.slots|
  {
    if actions == [] then r else Do(Run(r, actions[..|actions| - 1]), actions[|actions| - 1])
  }

  /** A zeroed ring of n slots for records of at most size bytes. */
  function Start(n: nat, size: nat): Ring {
    Ring(0, 0, false, seq(n, i => Slot(0, seq(size, j => 0))), Ready, Waiting, [], [], 0)
  }

  // ---------------------------------------------------------------- what every step keeps

  /** The record being pushed, if any. */
  function InHand(p: Producer): seq<int> {
    if p.Ready? then [] else p.record
  }

  predicate Writing(p: Producer) {
    p.Claimed? || p.Sized? || p.Copied?
  }

  /** The record taken for delivery is not all written yet, or a later push has begun to write its slot. */
  predicate Disturbed(r: Ring) {
    (r.tail == r.head && (r.producer.Claimed? || r.producer.Sized?)) ||
    (r.tail == r.head + |r.slots| && !r.producer.Claimed?)
  }

  /** Counters stay within the ring; a push under way still has room; the slot of the record being written is
      reserved for it; and every unread record not being written is intact in its slot. */
  ghost predicate Inv(r: Ring, n: nat, size: nat) {
    n > 0 && |r.slots| == n && (forall i :: 0 <= i < n ==> |r.slots[i].data| == size) &&
    r.head <= r.tail <= r.head + n && |r.pushed| == r.tail && |InHand(r.producer)| <= size &&
    (r.producer.Checked? || r.producer.Dirty? ==> r.tail < r.head + n) &&
    (Writing(r.producer) ==> r.producer.k == r.tail - 1 && r.pushed[r.tail - 1] == r.producer.record) &&
    (r.producer.Sized? ==> r.slots[(r.tail - 1) % n].size == |r.producer.record|) &&
    (r.producer.Copied? ==> Holds(r.slots[(r.tail - 1) % n], r.producer.record)) &&
    (r.dirty <==> !r.producer.Ready? && !r.producer.Checked?) &&
    (r.consumer.Found? ==> r.head < r.tail && r.consumer.slot == r.head % n) &&
    (r.consumer.Taken? ==> 0 < r.head && r.consumer.slot == (r.head - 1) % n) &&
    |r.delivered| == (if r.consumer.Taken? then r.head - 1 else r.head) &&
    (r.consumer.Taken? && !Disturbed(r) ==> Holds(r.slots[r.consumer.slot], r.pushed[r.head - 1])) &&
    forall k :: r.head <= k < r.tail && !(Writing(r.producer) && k == r.tail - 1) ==>
      Holds(r.slots[k % n], r.pushed[k])
  }

  lemma StartInv(n: nat, size: nat)
    requires n > 0
    ensures Inv(Start(n, size), n, size)
  {
  }

  /** Indices less than a full ring apart have different slots. */
  lemma SlotsApart(i: nat, j: nat, n: nat)
    requires n > 0 && i < j < i + n
    ensures i % n != j % n
  {
    var q, p := i / n, i % n;
    assert i == n * q + p;
    if p + (j - i) < n {
      Words.ModUnique(j, n, q, p + (j - i));
    } else {
      assert n * (q + 1) == n * q + n;
      Words.ModUnique(j, n, q + 1, p + (j - i) - n);
    }
  }

  /** Records the thread pushes fit the slots. */
  predicate Fits(a: Action, size: nat) {
    a.Push? ==> |a.record| <= size
  }

  lemma DrainInv(r: Ring, n: nat, size: nat)
    requires Inv(r, n, size)
    ensures Inv(DrainStep(r), n, size)
  {
  }

  lemma ProduceInv(r: Ring, n: nat, size: nat)
    requires Inv(r, n, size)
    ensures Inv(ProduceStep(r), n, size)
  {
    if r.producer.Claimed? || r.producer.Sized? {
      WriteInv(r, n, size);
    }
  }

  /** The slot being written is not that of another record. */
  lemma WriteApart(r: Ring, n: nat, k: nat)
    requires n > 0 && k < r.tail - 1 < k + n
    ensures k % n != (r.tail - 1) % n
  {
    SlotsApart(k, r.tail - 1, n);
  }

  lemma SizeInv(r: Ring, n: nat, size: nat)
    requires Inv(r, n, size) && r.producer.Claimed?
    ensures Inv(ProduceStep(r), n, size)
  {
    hide Holds;
    Words.ModRange(r.tail - 1, n);
    forall k | r.head - 1 <= k < r.tail - 1 && 0 <= k && r.tail - 1 < k + n
      ensures k % n != (r.tail - 1) % n
    {
      WriteApart(r, n, k);
    }
  }

  lemma DataHeld(r: Ring, n: nat, size: nat)
    requires Inv(r, n, size) && r.producer.Sized?
    ensures 0 <= (r.tail - 1) % n < n && Holds(ProduceStep(r).slots[(r.tail - 1) % n], r.producer.record)
    ensures |ProduceStep(r).slots[(r.tail - 1) % n].data| == size
  {
    Words.ModRange(r.tail - 1, n);
  }

  lemma DataInv(r: Ring, n: nat, size: nat)
    requires Inv(r, n, size) && r.producer.Sized?
    ensures Inv(ProduceStep(r), n, size)
  {
    hide Holds, Disturbed;
    var r', i := ProduceStep(r), (r.tail - 1) % n;
    DataHeld(r, n, size);
    assert forall j :: 0 <= j < n && j != i ==> r'.slots[j] == r.slots[j];
    forall k | r.head <= k < r.tail - 1
      ensures Holds(r'.slots[k % n], r'.pushed[k])
    {
      WriteApart(r, n, k);
      Words.ModRange(k, n);
    }
    DataTaken(r, n, size);
  }

  lemma DataTaken(r: Ring, n: nat, size: nat)
    requires Inv(r, n, size) && r.producer.Sized?
    ensures var r' := ProduceStep(r);
            r.consumer.Taken? && !Disturbed(r') ==> Holds(r'.slots[r.consumer.slot], r.pushed[r.head - 1])
  {
    hide Holds;
    DataHeld(r, n, size);
    if r.consumer.Taken? && r.head < r.tail < r.head + n { WriteApart(r, n, r.head - 1); }
  }

  /** Writing a slot leaves the other unread ones alone. */
  lemma WriteInv(r: Ring, n: nat, size: nat)
    requires Inv(r, n, size) && (r.producer.Claimed? || r.producer.Sized?)
    ensures Inv(ProduceStep(r), n, size)
  {
    hide Inv, ProduceStep;
    if r.producer.Claimed? {
      SizeInv(r, n, size);
    } else {
      DataInv(r, n, size);
    }
  }

  /** In every interleaving of pushes and drains, step by step: the counters stay within the ring, and no unread
      record is overwritten. */
  lemma {:induction false} RunInv(n: nat, size: nat, actions: seq<Action>)
    requires n > 0 && forall i :: 0 <= i < |actions| ==> Fits(actions[i], size)
    ensures Inv(Run(Start(n, size), actions), n, size)
  {
    hide Inv, ProduceStep, DrainStep;
    if actions == [] {
      StartInv(n, size);
    } else {
      var before, a := actions[..|actions| - 1], actions[|actions| - 1];
      RunInv(n, size, before);
      var r := Run(Start(n, size), before);
      DoInv(r, n, size, a);
    }
  }

  lemma DoInv(r: Ring, n: nat, size: nat, a: Action)
    requires Inv(r, n, size) && |r.slots| > 0 && Fits(a, size)
    ensures Inv(Do(r, a), n, size)
  {
    match a
    case Push(rec) =>
    case Produce => ProduceInv(r, n, size);
    case Drain => DrainInv(r, n, size);
  }

  /** A push onto a full ring is refused and changes nothing. */
  lemma FullPushRefused(r: Ring, n: nat, size: nat, record: seq<int>)
    requires Inv(r, n, size) && r.producer.Ready? && r.tail - r.head == n
    ensures Do(r, Push(record)) == r.(refused := r.refused + 1)
  {
  }

  /** Of all interleavings, these are the only two in which a delivery may not be the complete record: it is not all
      written, or the ring has come round to its slot and writes there. */
  lemma DeliveryComplete(r: Ring, n: nat, size: nat)
    requires Inv(r, n, size) && r.consumer.Taken? && !Disturbed(r)
    ensures var r' := DrainStep(r);
            r'.delivered == r.delivered + [r.slots[r.consumer.slot]] && |r.delivered| < |r.pushed| &&
            Holds(r'.delivered[|r.delivered|], r.pushed[|r.delivered|])
  {
    Words.ModRange(r.head - 1, n);
  }

  /** The four steps of one drain with nothing in between. */
  function DrainOnce(r: Ring): (r': Ring)
    requires |r.slots| > 0
    ensures |r'.slots| == |r.slots|
  {
    var r1 := DrainStep(r);
    if r1.consumer.Waiting? then r1 else
      var r2 := DrainStep(r1);
      if r2.consumer.Waiting? then r2 else DrainStep(DrainStep(r2))
  }

  /** Whatever the pushing thread is in the middle of, an undisturbed drain either finds the ring dirty or empty and
      changes nothing, or delivers the oldest undelivered record, complete. */
  lemma DrainDelivers(r: Ring, n: nat, size: nat)
    requires Inv(r, n, size) && r.consumer.Waiting?
    ensures Inv(DrainOnce(r), n, size)
    ensures r.dirty || r.head == r.tail ==> DrainOnce(r) == r
    ensures !r.dirty && r.head < r.tail ==>
            var r' := DrainOnce(r);
            |r'.delivered| == r.head + 1 && r'.delivered == r.delivered + [r'.delivered[r.head]] &&
            Holds(r'.delivered[r.head], r.pushed[r.head]) &&
            r' == r.(head := r.head + 1, delivered := r'.delivered)
  {
    DrainInv(r, n, size);
    var r1 := DrainStep(r);
    DrainInv(r1, n, size);
    var r2 := DrainStep(r1);
    DrainInv(r2, n, size);
    DrainInv(DrainStep(r2), n, size);
    if !r.dirty && r.head < r.tail {
      assert !Writing(r.producer);
      assert Holds(r.slots[r.head % n], r.pushed[r.head]);
    }
  }

  /** Pushing steps and undisturbed drains, in any order. */
  datatype Turn = Producer(a: Action) | WholeDrain

  function Take(r: Ring, turn: Turn): (r': Ring)
    requires |r.slots| > 0
    ensures |r'.slots| == |r.slots|
  {
    match turn
    case Producer(a) => if a.Drain? then r else Do(r, a)
    case WholeDrain => DrainOnce(r)
  }

  function RunTurns(r: Ring, turns: seq<Turn>): (r': Ring)
    requires |r.slots| > 0
    ensures |r'.slots| == |r.slots|
  {
    if turns == [] then r else Take(RunTurns(r, turns[..|turns| - 1]), turns[|turns| - 1])
  }

  /** Delivered so far are the first records pushed, in order and complete. */
  ghost predicate Fifo(r: Ring) {
    |r.delivered| <= |r.pushed| && forall k :: 0 <= k < |r.delivered| ==> Holds(r.delivered[k], r.pushed[k])
  }

  lemma {:induction false} FifoRun(n: nat, size: nat, turns: seq<Turn>)
    requires n > 0 && forall i :: 0 <= i < |turns| && turns[i].Producer? ==> Fits(turns[i].a, size)
    ensures var r := RunTurns(Start(n, size), turns); Inv(r, n, size) && r.consumer.Waiting? && Fifo(r)
  {
    hide Inv, ProduceStep, DrainStep, Holds;
    if turns == [] {
      StartInv(n, size);
    } else {
      FifoRun(n, size, turns[..|turns| - 1]);
      var r := RunTurns(Start(n, size), turns[..|turns| - 1]);
      match turns[|turns| - 1]
      case Producer(a) => if !a.Drain? { DoInv(r, n, size, a); PushesKeep(r, a); }
      case WholeDrain => DrainDelivers(r, n, size); Settled(r, n, size); hide DrainOnce;
    }
  }

  lemma PushesKeep(r: Ring, a: Action)
    requires |r.slots| > 0 && !a.Drain?
    ensures var r' := Do(r, a); r'.delivered == r.delivered && r.pushed <= r'.pushed && r'.consumer == r.consumer
  {
  }

  lemma Settled(r: Ring, n: nat, size: nat)
    requires Inv(r, n, size) && r.consumer.Waiting?
    ensures |r.delivered| == r.head <= r.tail == |r.pushed|
  {
  }

  // ---------------------------------------------------------------- drains interleaved step by step

  /** The step hands a record on before it is all written, or while its slot is written again. */
  predicate Tears(r: Ring, a: Action)
    requires |r.slots| > 0
  {
    a.Drain? && r.consumer.Taken? && Disturbed(r)
  }

  /** In every interleaving of single steps of pushes and drains in which no delivering step tears, what was delivered
      is the first records pushed, in order and complete. */
  lemma {:induction false} FifoSteps(n: nat, size: nat, actions: seq<Action>)
    requires n > 0 && forall i :: 0 <= i < |actions| ==> Fits(actions[i], size)
    requires forall i | 0 <= i < |actions| :: !Tears(Run(Start(n, size), actions[..i]), actions[i])
    ensures Fifo(Run(Start(n, size), actions))
  {
    hide Inv, ProduceStep, DrainStep, Holds, Do, Disturbed;
    if actions != [] {
      var m := |actions| - 1;
      var before, a := actions[..m], actions[m];
      forall i | 0 <= i < m
        ensures !Tears(Run(Start(n, size), before[..i]), before[i])
      {
        assert before[..i] == actions[..i];
      }
      FifoSteps(n, size, before);
      RunInv(n, size, before);
      FifoStep(Run(Start(n, size), before), n, size, a);
    }
  }

  lemma FifoStep(r: Ring, n: nat, size: nat, a: Action)
    requires Inv(r, n, size) && |r.slots| > 0 && Fifo(r) && !Tears(r, a)
    ensures Fifo(Do(r, a))
  {
    if a.Drain? {
      DrainFifo(r, n, size);
    } else {
      PushesKeep(r, a);
      hide Do, Inv;
    }
  }

  lemma DrainFifo(r: Ring, n: nat, size: nat)
    requires Inv(r, n, size) && Fifo(r) && !Tears(r, Drain)
    ensures Fifo(DrainStep(r))
  {
    if r.consumer.Taken? {
      DeliveryComplete(r, n, size);
      hide DrainStep, Inv, Holds;
      var r' := DrainStep(r);
      assert r'.delivered[..|r.delivered|] == r.delivered;
      SamePushed(r);
    } else {
      hide Inv, Holds;
    }
  }

  lemma SamePushed(r: Ring)
    requires |r.slots| > 0
    ensures DrainStep(r).pushed == r.pushed
  {
  }

  // ---------------------------------------------------------------- a drain that is disturbed

  /** The drain looks at the dirty flag before a push starts and at the tail in the middle of it. */
  const TORN: seq<int> := [1]

  lemma RunAppend(r: Ring, actions: seq<Action>, a: Action)
    requires |r.slots| > 0
    ensures Run(r, actions + [a]) == Do(Run(r, actions), a)
  {
    hide Do;
    assert (actions + [a])[..|actions|] == actions;
  }

  /** With drain and push interleaved step by step the delivered record can be torn: here a drain of a fresh ring
      delivers an empty record while the one-byte record it stands for is still being written. */
  lemma TornDelivery(n: nat, size: nat) returns (actions: seq<Action>)
    requires n > 0 && size > 0
    ensures forall i :: 0 <= i < |actions| ==> Fits(actions[i], size)
    ensures var r := Run(Start(n, size), actions);
            r.pushed == [TORN] && r.delivered == [Slot(0, seq(size, j => 0))] && !Fifo(r)
  {
    hide Do, Run, Start, Fifo;
    var r0 := Start(n, size);
    StartSlots(n, size);
    TornSteps(n, size);
    RunThree(r0, Drain, Push(TORN), Produce);
    var r3 := Run(r0, [Drain, Push(TORN), Produce]);
    RunAppend(r0, [Drain, Push(TORN), Produce], Produce);
    RunAppend(r0, [Drain, Push(TORN), Produce] + [Produce], Drain);
    RunAppend(r0, [Drain, Push(TORN), Produce] + [Produce] + [Drain], Drain);
    RunAppend(r0, [Drain, Push(TORN), Produce] + [Produce] + [Drain] + [Drain], Drain);
    actions := [Drain, Push(TORN), Produce] + [Produce] + [Drain] + [Drain] + [Drain];
  }

  lemma StartSlots(n: nat, size: nat)
    ensures |Start(n, size).slots| == n
  {
  }

  lemma RunThree(r: Ring, a: Action, b: Action, c: Action)
    requires |r.slots| > 0
    ensures Run(r, [a, b, c]) == Do(Do(Do(r, a), b), c)
  {
    hide Do;
    RunAppend(r, [], a);
    RunAppend(r, [a], b);
    RunAppend(r, [a, b], c);
    assert [] + [a] == [a] && [a] + [b] == [a, b] && [a, b] + [c] == [a, b, c];
  }

  lemma TornSteps(n: nat, size: nat)
    requires n > 0 && size > 0
    ensures var r4 := Do(Do(Do(Do(Start(n, size), Drain), Push(TORN)), Produce), Produce);
            var r := Do(Do(Do(r4, Drain), Drain), Drain);
            r.pushed == [TORN] && r.delivered == [Slot(0, seq(size, j => 0))] && !Fifo(r)
  {
    var r0 := Start(n, size);
    var r4 := Do(Do(Do(Do(r0, Drain), Push(TORN)), Produce), Produce);
    assert r4 == r0.(consumer := Clean, dirty := true, tail := 1, pushed := [TORN], producer := Claimed(TORN, 0));
    var r6 := Do(Do(r4, Drain), Drain);
    assert r6 == r4.(consumer := Taken(0), head := 1);
    var r7 := Do(r6, Drain);
    assert r7.delivered == [r0.slots[0]];
    assert !Holds(r7.delivered[0], r7.pushed[0]);
  }
}
