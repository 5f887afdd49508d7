/** The host's drain over the rings of all threads as they lie in device memory, and how the bytes stand for the ring
    that pushing and draining step through. */
module GpuRingDrain {
  import opened Words
  import opened GpuRingBytes
  import GpuRing

  /** What is handed on for one record: the size in its slot, and the data as far as it fits. */
  datatype Delivery = Delivery(size: nat, data: seq<Byte>)

  /** The rings of all threads, one after the other. */
  datatype Rings = Rings(valueSize: nat, max: nat, threads: nat)
  {
    function Size(): nat {
      Region(0, valueSize, max).Size()
    }

    function Of(i: nat): Region {
      Region(i * Size(), valueSize, max)
    }

    predicate Inside(b: seq<Byte>) {
      max > 0 && threads * Size() <= |b|
    }

    lemma RegionInside(b: seq<Byte>, i: nat)
      requires Inside(b) && i < threads
      ensures Of(i).Inside(b) && Of(i).Size() == Size()
    {
      assert (i + 1) * Size() == i * Size() + Size();
      MulMonotone(i + 1, threads, Size());
    }

    lemma Apart(i: nat, j: nat)
      requires i != j
      ensures Of(i).base + Size() <= Of(j).base || Of(j).base + Size() <= Of(i).base
    {
      RegionsApart(0, valueSize, max, i, j);
    }
  }

  /** Memory and deliveries after a number of rings, and whether a dirty one has ended the drain. */
  datatype Drain = Drain(bytes: seq<Byte>, delivered: seq<Delivery>, stopped: bool)

  /** One ring: nothing but an end if it is dirty, else its oldest record if it has any. */
  function DrainRing(g: Region, d: Drain): (r: Drain)
    requires g.Inside(d.bytes)
    ensures |r.bytes| == |d.bytes|
  {
    var b, head := d.bytes, g.Head(d.bytes);
    if g.Dirty(b) != 0 then d.(stopped := true)
    else if head == g.Tail(b) then d
    else d.(bytes := Spliced(b, g.base, LittleEndian(head + 1, 8)),
            delivered := d.delivered + [Delivery(g.SizeAt(b, head), g.Record(b, head))])
  }

  function DrainTo(rings: Rings, b: seq<Byte>, n: nat): (r: Drain)
    requires rings.Inside(b) && n <= rings.threads
    ensures |r.bytes| == |b|
  {
    if n == 0 then Drain(b, [], false) else
      var d := DrainTo(rings, b, n - 1);
      rings.RegionInside(d.bytes, n - 1);
      if d.stopped then d else DrainRing(rings.Of(n - 1), d)
  }

  method DrainData(buffer: array<Byte>, rings: Rings) returns (delivered: seq<Delivery>)
    requires rings.Inside(buffer[..])
    modifies buffer
    ensures rings.Inside(old(buffer[..]))
    ensures var d := DrainTo(rings, old(buffer[..]), rings.threads);
            buffer[..] == d.bytes && delivered == d.delivered
  {
    hide Region.Record, Region.SizeAt, Region.Size, Spliced, LittleEndian, FromLittleEndian;
    delivered := [];
    for i := 0 to rings.threads
      invariant DrainTo(rings, old(buffer[..]), i) == Drain(buffer[..], delivered, false)
    {
      var g := rings.Of(i);
      rings.RegionInside(buffer[..], i);
      if g.Dirty(buffer[..]) != 0 {
        StoppedStays(rings, old(buffer[..]), i + 1, rings.threads);
        return;
      }
      if g.Head(buffer[..]) != g.Tail(buffer[..]) {
        var head := g.Head(buffer[..]);
        var next := Delivery(g.SizeAt(buffer[..], head), g.Record(buffer[..], head));
        WriteWord(buffer, g.base, head + 1, 8);
        delivered := delivered + [next];
      }
    }
  }

  lemma {:induction false} StoppedStays(rings: Rings, b: seq<Byte>, i: nat, n: nat)
    requires rings.Inside(b) && i <= n <= rings.threads && DrainTo(rings, b, i).stopped
    ensures DrainTo(rings, b, n) == DrainTo(rings, b, i)
    decreases n - i
  {
    hide DrainRing;
    if i < n { StoppedStays(rings, b, i, n - 1); }
  }

  // ---------------------------------------------------------------- one ring

  lemma {:induction false} UnreadLength(g: Region, b: seq<Byte>, k: nat)
    requires g.Inside(b)
    ensures |g.UnreadTo(b, k)| == (if k <= g.Head(b) then 0 else k - g.Head(b))
    ensures k > g.Head(b) ==> g.UnreadTo(b, k)[0] == g.Record(b, g.Head(b))
    decreases k
  {
    hide Region.Record, Word;
    if k > g.Head(b) { UnreadLength(g, b, k - 1); }
  }

  /** The same slots and counters, whatever the bytes elsewhere. */
  ghost predicate SameRing(g: Region, b: seq<Byte>, c: seq<Byte>) {
    g.Inside(b) && |b| == |c| && forall i :: g.base <= i < g.base + g.Size() ==> b[i] == c[i]
  }

  lemma SameRecord(g: Region, b: seq<Byte>, c: seq<Byte>, k: nat)
    requires g.Inside(b) && |b| == |c| && forall i :: g.base + 8 <= i < g.base + g.Size() ==> b[i] == c[i]
    ensures g.Inside(c) && g.Record(b, k) == g.Record(c, k) && g.SizeAt(b, k) == g.SizeAt(c, k)
  {
    hide Word;
    g.SlotInside(k);
    WordSame(b, c, g.SlotAt(k));
    var n := if g.SizeAt(b, k) <= g.valueSize then g.SizeAt(b, k) else g.valueSize;
    assert b[g.SlotAt(k) + 8..g.SlotAt(k) + 8 + n] == c[g.SlotAt(k) + 8..g.SlotAt(k) + 8 + n];
  }

  lemma {:induction false} SameUnread(g: Region, b: seq<Byte>, c: seq<Byte>, k: nat)
    requires SameRing(g, b, c)
    ensures g.Inside(c) && g.Head(b) == g.Head(c) && g.Tail(b) == g.Tail(c) && g.Dirty(b) == g.Dirty(c)
    ensures g.UnreadTo(b, k) == g.UnreadTo(c, k)
    decreases k
  {
    hide Region.Record, Region.Dirty, Word;
    WordSame(b, c, g.base);
    WordSame(b, c, g.base + 8);
    FlagSame(g, b, c);
    if k > g.Head(b) {
      SameUnread(g, b, c, k - 1);
      SameRecord(g, b, c, k - 1);
    }
  }

  /** Taking a record moves the head. */
  lemma HeadMoved(g: Region, b: seq<Byte>)
    requires g.Valid(b) && g.Head(b) != g.Tail(b)
    ensures var c := Spliced(b, g.base, LittleEndian(g.Head(b) + 1, 8));
            g.Valid(c) && g.Head(c) == g.Head(b) + 1 && g.Tail(c) == g.Tail(b) && g.Dirty(c) == g.Dirty(b)
  {
    hide Word, Region.Dirty, LittleEndian;
    var c := Spliced(b, g.base, LittleEndian(g.Head(b) + 1, 8));
    WordBound(b, g.base + 8);
    WordSpliced(b, g.base, g.Head(b) + 1);
    WordSame(b, c, g.base + 8);
    FlagSame(g, b, c);
  }

  lemma WordBound(b: seq<Byte>, at: nat)
    requires at + 8 <= |b|
    ensures Word(b, at) < TWO64
  {
    hide FromLittleEndian;
    Pow256Of8();
  }

  lemma {:induction false} UnreadMoved(g: Region, b: seq<Byte>, k: nat)
    requires g.Valid(b) && g.Head(b) < k <= g.Tail(b)
    ensures var c := Spliced(b, g.base, LittleEndian(g.Head(b) + 1, 8));
            g.Inside(c) && |g.UnreadTo(b, k)| > 0 && g.UnreadTo(c, k) == g.UnreadTo(b, k)[1..]
    decreases k
  {
    hide Region.Record, Region.SizeAt, Region.Dirty, Word, LittleEndian;
    var c := Spliced(b, g.base, LittleEndian(g.Head(b) + 1, 8));
    HeadMoved(g, b);
    UnreadLength(g, b, k);
    if k > g.Head(b) + 1 {
      UnreadMoved(g, b, k - 1);
      SameRecord(g, b, c, k - 1);
      UnreadLength(g, b, k - 1);
      assert g.UnreadTo(c, k) == g.UnreadTo(b, k - 1)[1..] + [g.Record(b, k - 1)];
    }
  }

  function Rest(u: seq<seq<Byte>>): seq<seq<Byte>> {
    if u == [] then [] else u[1..]
  }

  /** The oldest record of a ring, if it has an unread one. */
  ghost function Oldest(g: Region, b: seq<Byte>): seq<Delivery>
    requires g.Inside(b)
  {
    if g.Unread(b) == [] then [] else [Delivery(g.SizeAt(b, g.Head(b)), g.Unread(b)[0])]
  }

  /** A clean ring's oldest record is handed on and gone, a dirty one stays as it is; nothing but the head changes. */
  lemma RingDrained(g: Region, d: Drain)
    requires g.Valid(d.bytes)
    ensures var r := DrainRing(g, d);
            g.Valid(r.bytes) && g.Dirty(r.bytes) == g.Dirty(d.bytes) &&
            (r.stopped <==> d.stopped || g.Dirty(d.bytes) != 0) &&
            (g.Dirty(d.bytes) != 0 ==> r.bytes == d.bytes && r.delivered == d.delivered) &&
            (g.Dirty(d.bytes) == 0 ==> g.Unread(r.bytes) == Rest(g.Unread(d.bytes)) &&
                                       r.delivered == d.delivered + Oldest(g, d.bytes)) &&
            forall i :: 0 <= i < |d.bytes| && !(g.base <= i < g.base + 8) ==> r.bytes[i] == d.bytes[i]
  {
    hide Region.Record, Region.SizeAt, Region.Dirty, Word, LittleEndian;
    var b := d.bytes;
    UnreadLength(g, b, g.Tail(b));
    if g.Dirty(b) == 0 && g.Head(b) != g.Tail(b) {
      HeadMoved(g, b);
      UnreadMoved(g, b, g.Tail(b));
    }
  }

  // ---------------------------------------------------------------- all rings

  ghost predicate AllValid(rings: Rings, b: seq<Byte>) {
    rings.Inside(b) && forall i :: 0 <= i < rings.threads ==> rings.Of(i).Valid(b)
  }

  /** How many of the first n rings come before a dirty one. */
  ghost function CleanRings(rings: Rings, b: seq<Byte>, n: nat): (r: nat)
    requires AllValid(rings, b) && n <= rings.threads
    ensures r <= n && (forall i :: 0 <= i < r ==> rings.Of(i).Dirty(b) == 0) &&
            (r < n ==> rings.Of(r).Dirty(b) != 0)
  {
    if n == 0 then 0 else
      var r := CleanRings(rings, b, n - 1);
      if r == n - 1 && rings.Of(n - 1).Dirty(b) == 0 then n else r
  }

  /** The oldest records of the first n rings, one of each that has any. */
  ghost function AllOldest(rings: Rings, b: seq<Byte>, n: nat): seq<Delivery>
    requires AllValid(rings, b) && n <= rings.threads
  {
    if n == 0 then [] else AllOldest(rings, b, n - 1) + Oldest(rings.Of(n - 1), b)
  }

  /** Ring i after a drain that went through the first n rings. */
  ghost predicate Drained(rings: Rings, b: seq<Byte>, c: seq<Byte>, n: nat, i: nat)
    requires AllValid(rings, b) && AllValid(rings, c) && n <= rings.threads && i < rings.threads
  {
    var g := rings.Of(i);
    if i < n then g.Unread(c) == Rest(g.Unread(b)) && g.Dirty(c) == g.Dirty(b) else SameRing(g, b, c)
  }

  ghost predicate AllDrained(rings: Rings, b: seq<Byte>, c: seq<Byte>, n: nat)
    requires AllValid(rings, b) && AllValid(rings, c) && n <= rings.threads
  {
    forall i :: 0 <= i < rings.threads ==> Drained(rings, b, c, n, i)
  }

  lemma NoneDrained(rings: Rings, b: seq<Byte>)
    requires AllValid(rings, b)
    ensures AllDrained(rings, b, b, 0)
  {
    hide Rings.Of, Rings.Inside;
  }

  /** For any number of rings and all contents: a drain goes up to the first dirty ring, hands on the oldest unread
      record of each ring before that, in order of the threads, and takes just those out; the other rings stay as they
      are. */
  lemma {:induction false} DrainDelivers(rings: Rings, b: seq<Byte>, n: nat)
    requires AllValid(rings, b) && n <= rings.threads
    ensures var d, reached := DrainTo(rings, b, n), CleanRings(rings, b, n);
            AllValid(rings, d.bytes) && (d.stopped <==> reached < n) && d.delivered == AllOldest(rings, b, reached) &&
            AllDrained(rings, b, d.bytes, reached)
  {
    hide Region.Valid, Region.Unread, Region.Dirty, Rings.Of, DrainRing, Oldest, Rings.Inside, AllDrained;
    if n == 0 {
      NoneDrained(rings, b);
    } else {
      DrainDelivers(rings, b, n - 1);
      var d := DrainTo(rings, b, n - 1);
      if !d.stopped { NextRing(rings, b, n - 1, d); }
    }
  }

  lemma NextRing(rings: Rings, b: seq<Byte>, n: nat, d: Drain)
    requires AllValid(rings, b) && AllValid(rings, d.bytes) && n < rings.threads && !d.stopped
    requires AllDrained(rings, b, d.bytes, n)
    ensures rings.Of(n).Inside(d.bytes)
    ensures var r := DrainRing(rings.Of(n), d);
            AllValid(rings, r.bytes) && (r.stopped <==> rings.Of(n).Dirty(b) != 0) &&
            (r.stopped ==> r == d.(stopped := true)) &&
            (!r.stopped ==>
              r.delivered == d.delivered + Oldest(rings.Of(n), b) && AllDrained(rings, b, r.bytes, n + 1))
  {
    hide Region.Record, Region.SizeAt, Region.Dirty, Word, LittleEndian, DrainRing, Rings.Of, Rings.Inside, Drained;
    var g := rings.Of(n);
    RingDrained(g, d);
    var r := DrainRing(g, d);
    SameOldest(rings, b, d.bytes, n);
    if !r.stopped {
      forall i | 0 <= i < rings.threads
        ensures rings.Of(i).Valid(r.bytes) && (i != n ==> SameRing(rings.Of(i), d.bytes, r.bytes))
      {
        OtherRing(rings, d.bytes, r.bytes, n, i);
      }
      InsideStill(rings, d.bytes, r.bytes);
      assert AllValid(rings, r.bytes);
      AllNext(rings, b, d.bytes, r.bytes, n);
    }
  }

  lemma AllNext(rings: Rings, b: seq<Byte>, c: seq<Byte>, e: seq<Byte>, n: nat)
    requires AllValid(rings, b) && AllValid(rings, c) && AllValid(rings, e) && n < rings.threads
    requires AllDrained(rings, b, c, n)
    requires forall i :: 0 <= i < rings.threads && i != n ==> SameRing(rings.Of(i), c, e)
    requires var g := rings.Of(n); g.Unread(e) == Rest(g.Unread(b)) && g.Dirty(e) == g.Dirty(b)
    ensures AllDrained(rings, b, e, n + 1)
  {
    hide Rings.Of, Rings.Inside, Region.Unread, Region.Dirty, Region.Valid, SameRing, Drained;
    var next := n + 1;
    forall i | 0 <= i < rings.threads
      ensures Drained(rings, b, e, next, i)
    {
      assert Drained(rings, b, c, n, i);
      DrainedNext(rings, b, c, e, n, i);
    }
  }

  lemma InsideStill(rings: Rings, b: seq<Byte>, c: seq<Byte>)
    requires rings.Inside(b) && |b| == |c|
    ensures rings.Inside(c)
  {
  }

  lemma SameOldest(rings: Rings, b: seq<Byte>, c: seq<Byte>, n: nat)
    requires AllValid(rings, b) && AllValid(rings, c) && n < rings.threads && Drained(rings, b, c, n, n)
    ensures var g := rings.Of(n);
            g.Dirty(c) == g.Dirty(b) && g.Unread(c) == g.Unread(b) && Oldest(g, c) == Oldest(g, b)
  {
    hide Region.Record, Region.SizeAt, Region.Dirty, Word, Rings.Of, Rings.Inside;
    var g := rings.Of(n);
    SameUnread(g, b, c, g.Tail(b));
    SameRecord(g, b, c, g.Head(b));
  }

  lemma OtherRing(rings: Rings, b: seq<Byte>, c: seq<Byte>, n: nat, i: nat)
    requires AllValid(rings, b) && |b| == |c| && n < rings.threads && i < rings.threads && rings.Of(n).Valid(c)
    requires forall k :: 0 <= k < |b| && !(rings.Of(n).base <= k < rings.Of(n).base + 8) ==> c[k] == b[k]
    ensures rings.Of(i).Valid(c) && (i != n ==> SameRing(rings.Of(i), b, c))
  {
    hide Region.Dirty, Word;
    if i != n {
      var g := rings.Of(i);
      rings.Apart(i, n);
      rings.RegionInside(b, i);
      rings.RegionInside(b, n);
      assert SameRing(g, b, c);
      SameUnread(g, b, c, 0);
    }
  }

  lemma DrainedNext(rings: Rings, b: seq<Byte>, c: seq<Byte>, e: seq<Byte>, n: nat, i: nat)
    requires AllValid(rings, b) && AllValid(rings, c) && AllValid(rings, e) && n < rings.threads && i < rings.threads
    requires Drained(rings, b, c, n, i) && (i != n ==> SameRing(rings.Of(i), c, e))
    requires i == n ==> var g := rings.Of(n); g.Unread(e) == Rest(g.Unread(b)) && g.Dirty(e) == g.Dirty(b)
    ensures Drained(rings, b, e, n + 1, i)
  {
    hide Region.Record, Region.SizeAt, Region.Dirty, Word, Rings.Of, Rings.Inside;
    var g := rings.Of(i);
    if i < n { SameUnread(g, c, e, g.Tail(c)); }
  }

  /** After an accepted push into one ring, with no ring dirty, the next drain hands on that ring's oldest record. */
  lemma PushThenDrain(rings: Rings, b: seq<Byte>, t: nat, data: seq<Byte>)
    requires AllValid(rings, b) && t < rings.threads && forall i :: 0 <= i < rings.threads ==> rings.Of(i).Dirty(b) == 0
    requires var g := rings.Of(t);
             |data| <= g.valueSize < TWO64 && g.Tail(b) + 1 < TWO64 && g.Tail(b) - g.Head(b) != g.max
    ensures var g := rings.Of(t); var b' := g.Pushed(b, data);
            AllValid(rings, b') &&
            var d := DrainTo(rings, b', rings.threads);
            !d.stopped && d.delivered == AllOldest(rings, b', rings.threads) && AllValid(rings, d.bytes) &&
            g.Unread(b') == g.Unread(b) + [data] && g.Unread(d.bytes) == g.Unread(b')[1..]
  {
    hide Region.Pushed, Region.Record, Region.SizeAt, Region.Dirty, Word, DrainTo, AllOldest, CleanRings, Rings.Inside,
         Rings.Of;
    var g := rings.Of(t);
    var b' := g.Pushed(b, data);
    PushAppends(g, b, data);
    forall i | 0 <= i < rings.threads
      ensures rings.Of(i).Valid(b') && rings.Of(i).Dirty(b') == 0
    {
      OutsideRing(rings, b, b', t, i);
    }
    InsideStill(rings, b, b');
    DrainDelivers(rings, b', rings.threads);
    var reached := CleanRings(rings, b', rings.threads);
    assert reached == rings.threads;
    assert Drained(rings, b', DrainTo(rings, b', rings.threads).bytes, reached, t);
  }

  lemma OutsideRing(rings: Rings, b: seq<Byte>, c: seq<Byte>, t: nat, i: nat)
    requires AllValid(rings, b) && |b| == |c| && t < rings.threads && i < rings.threads
    requires rings.Of(t).Valid(c) && rings.Of(t).Dirty(c) == 0 && rings.Of(i).Dirty(b) == 0
    requires var g := rings.Of(t);
             forall k :: 0 <= k < |b| && !(g.base <= k < g.base + g.Size()) ==> c[k] == b[k]
    ensures rings.Of(i).Valid(c) && rings.Of(i).Dirty(c) == 0
  {
    hide Region.Dirty, Word;
    if i != t {
      rings.Apart(i, t);
      rings.RegionInside(b, i);
      rings.RegionInside(b, t);
      SameUnread(rings.Of(i), b, c, 0);
    }
  }

  // ---------------------------------------------------------------- the bytes stand for the ring

  /** Slot k as it lies in memory. */
  function SlotIn(g: Region, b: seq<Byte>, k: nat): (r: GpuRing.Slot)
    requires g.Inside(b)
    ensures |r.data| == g.valueSize
  {
    g.SlotInside(k);
    GpuRing.Slot(g.SizeAt(b, k), b[g.SlotAt(k) + 8..g.SlotAt(k) + 8 + g.valueSize])
  }

  /** The bytes of a region hold this ring's counters, flag and slots. */
  ghost predicate Holds(g: Region, b: seq<Byte>, r: GpuRing.Ring) {
    g.Inside(b) && |r.slots| == g.max && r.head == g.Head(b) && r.tail == g.Tail(b) &&
    (r.dirty <==> g.Dirty(b) != 0) && forall k :: 0 <= k < g.max ==> r.slots[k] == SlotIn(g, b, k)
  }

  ghost predicate SameBytes(b: seq<Byte>, c: seq<Byte>, lo: nat, hi: nat) {
    |b| == |c| && forall i :: lo <= i < hi && i < |b| ==> b[i] == c[i]
  }

  lemma SameSlot(g: Region, b: seq<Byte>, c: seq<Byte>, k: nat)
    requires g.Inside(b) && |b| == |c| && k < g.max
    requires SameBytes(b, c, g.SlotAt(k), g.SlotAt(k) + g.SlotBytes())
    ensures g.Inside(c) && SlotIn(g, b, k) == SlotIn(g, c, k)
  {
    hide Word, Region.SlotAt;
    g.SlotInside(k);
    var at := g.SlotAt(k);
    WordSame(b, c, at);
    SameSlice(b, c, at + 8, at + 8 + g.valueSize);
  }

  lemma SameSlice(b: seq<Byte>, c: seq<Byte>, lo: nat, hi: nat)
    requires lo <= hi <= |b| == |c| && forall i :: lo <= i < hi ==> b[i] == c[i]
    ensures b[lo..hi] == c[lo..hi]
  {
  }

  /** A store to the header leaves the slots alone. */
  lemma HeaderStored(g: Region, b: seq<Byte>, at: nat, bytes: seq<Byte>, k: nat)
    requires g.Inside(b) && at + |bytes| <= g.base + 24 && k < g.max
    ensures var c := Spliced(b, at, bytes); g.Inside(c) && SlotIn(g, c, k) == SlotIn(g, b, k)
  {
    hide Word, Region.SlotAt;
    g.SlotInside(k);
    SameSlot(g, b, Spliced(b, at, bytes), k);
  }

  /** A store to one slot leaves the others alone. */
  lemma SlotStored(g: Region, b: seq<Byte>, t: nat, o: nat, bytes: seq<Byte>, k: nat)
    requires g.Inside(b) && o + |bytes| <= g.SlotBytes() && k < g.max && k != t % g.max
    ensures g.SlotAt(t) + o + |bytes| <= |b|
    ensures var c := Spliced(b, g.SlotAt(t) + o, bytes); g.Inside(c) && SlotIn(g, c, k) == SlotIn(g, b, k)
  {
    hide Word;
    g.SlotInside(t);
    g.SlotInside(k);
    SmallMod(k, g.max);
    g.SlotsDisjoint(k, t);
    hide Region.SlotAt;
    SameSlot(g, b, Spliced(b, g.SlotAt(t) + o, bytes), k);
  }

  lemma SmallMod(k: nat, n: nat)
    requires k < n
    ensures k % n == k
  {
  }

  lemma HeaderSame(g: Region, b: seq<Byte>, c: seq<Byte>)
    requires g.Inside(b) && |b| == |c| && forall i :: g.base <= i < g.base + 24 ==> b[i] == c[i]
    ensures g.Inside(c) && g.Head(c) == g.Head(b) && g.Tail(c) == g.Tail(b) && g.Dirty(c) == g.Dirty(b)
  {
    hide Word, Region.Dirty;
    WordSame(b, c, g.base);
    WordSame(b, c, g.base + 8);
    FlagSame(g, b, c);
  }

  /** Setting or clearing the flag. */
  lemma FlagHeld(g: Region, b: seq<Byte>, r: GpuRing.Ring, v: nat, r': GpuRing.Ring)
    requires Holds(g, b, r) && v < 256 && r' == r.(dirty := v != 0, producer := r'.producer)
    ensures Holds(g, Spliced(b, g.base + 16, LittleEndian(v, 4)), r')
  {
    hide Word, Region.Dirty, SlotIn, LittleEndian;
    var c := Spliced(b, g.base + 16, LittleEndian(v, 4));
    FlagSpliced(g, b, v);
    WordSame(b, c, g.base);
    WordSame(b, c, g.base + 8);
    forall k | 0 <= k < g.max
      ensures SlotIn(g, c, k) == SlotIn(g, b, k)
    {
      HeaderStored(g, b, g.base + 16, LittleEndian(v, 4), k);
    }
  }

  /** Moving the tail. */
  lemma TailHeld(g: Region, b: seq<Byte>, r: GpuRing.Ring, r': GpuRing.Ring)
    requires Holds(g, b, r) && r.tail + 1 < TWO64
    requires r' == r.(tail := r.tail + 1, pushed := r'.pushed, producer := r'.producer)
    ensures Holds(g, Spliced(b, g.base + 8, LittleEndian(r.tail + 1, 8)), r')
  {
    hide Word, Region.Dirty, SlotIn, LittleEndian;
    var c := Spliced(b, g.base + 8, LittleEndian(r.tail + 1, 8));
    WordSpliced(b, g.base + 8, r.tail + 1);
    WordSame(b, c, g.base);
    FlagSame(g, b, c);
    forall k | 0 <= k < g.max
      ensures SlotIn(g, c, k) == SlotIn(g, b, k)
    {
      HeaderStored(g, b, g.base + 8, LittleEndian(r.tail + 1, 8), k);
    }
  }

  /** Writing slot t's size. */
  lemma SizeHeld(g: Region, b: seq<Byte>, r: GpuRing.Ring, t: nat, n: nat, r': GpuRing.Ring)
    requires Holds(g, b, r) && n < TWO64
    requires t % g.max < g.max
    requires var i := t % g.max; r' == r.(slots := r.slots[i := r.slots[i].(size := n)], producer := r'.producer)
    ensures g.SlotAt(t) + 8 <= |b| && Holds(g, Spliced(b, g.SlotAt(t), LittleEndian(n, 8)), r')
  {
    hide Word, Region.Dirty, SlotIn, LittleEndian, Region.SlotAt;
    g.SlotInside(t);
    var c, i := Spliced(b, g.SlotAt(t), LittleEndian(n, 8)), t % g.max;
    HeaderSame(g, b, c);
    SizeThere(g, b, t, n);
    forall k | 0 <= k < g.max && k != i
      ensures SlotIn(g, c, k) == SlotIn(g, b, k)
    {
      SlotStored(g, b, t, 0, LittleEndian(n, 8), k);
    }
  }

  lemma SizeThere(g: Region, b: seq<Byte>, t: nat, n: nat)
    requires g.Inside(b) && n < TWO64
    ensures g.SlotAt(t) + 8 <= |b| && t % g.max < g.max
    ensures var c, i := Spliced(b, g.SlotAt(t), LittleEndian(n, 8)), t % g.max;
            g.Inside(c) && SlotIn(g, c, i) == SlotIn(g, b, i).(size := n)
  {
    hide Word, LittleEndian;
    g.SlotInside(t);
    var c, at, i := Spliced(b, g.SlotAt(t), LittleEndian(n, 8)), g.SlotAt(t), t % g.max;
    SmallMod(i, g.max);
    assert g.SlotAt(i) == at;
    WordSpliced(b, at, n);
    assert c[at + 8..at + 8 + g.valueSize] == b[at + 8..at + 8 + g.valueSize];
  }

  /** Copying a record's data into slot t. */
  lemma DataHeld(g: Region, b: seq<Byte>, r: GpuRing.Ring, t: nat, data: seq<Byte>, r': GpuRing.Ring)
    requires Holds(g, b, r) && |data| <= g.valueSize
    requires t % g.max < g.max && |r.slots[t % g.max].data| == g.valueSize
    requires var i := t % g.max;
             var slot := r.slots[i].(data := data + r.slots[i].data[|data|..]);
             r' == r.(slots := r.slots[i := slot], producer := r'.producer)
    ensures g.SlotAt(t) + 8 + |data| <= |b| && Holds(g, Spliced(b, g.SlotAt(t) + 8, data), r')
  {
    hide Word, Region.Dirty, SlotIn, Region.SlotAt;
    g.SlotInside(t);
    var c, i := Spliced(b, g.SlotAt(t) + 8, data), t % g.max;
    HeaderSame(g, b, c);
    DataThere(g, b, t, data);
    forall k | 0 <= k < g.max && k != i
      ensures SlotIn(g, c, k) == SlotIn(g, b, k)
    {
      SlotStored(g, b, t, 8, data, k);
    }
  }

  lemma DataThere(g: Region, b: seq<Byte>, t: nat, data: seq<Byte>)
    requires g.Inside(b) && |data| <= g.valueSize
    ensures g.SlotAt(t) + 8 + |data| <= |b| && t % g.max < g.max
    ensures var c, i := Spliced(b, g.SlotAt(t) + 8, data), t % g.max;
            g.Inside(c) && |SlotIn(g, b, i).data| == g.valueSize &&
            SlotIn(g, c, i) == SlotIn(g, b, i).(data := data + SlotIn(g, b, i).data[|data|..])
  {
    hide Word;
    g.SlotInside(t);
    var c, at, i := Spliced(b, g.SlotAt(t) + 8, data), g.SlotAt(t), t % g.max;
    SmallMod(i, g.max);
    assert g.SlotAt(i) == at;
    WordSame(b, c, at);
    assert c[at + 8..at + 8 + g.valueSize] == data + b[at + 8..at + 8 + g.valueSize][|data|..];
  }

  /** Each store of a push does to the bytes what the pushing thread's step does to the ring. */
  lemma PushRefines(g: Region, b: seq<Byte>, data: seq<Byte>, r: GpuRing.Ring)
    requires Holds(g, b, r) && |data| <= g.valueSize < TWO64 && r.tail + 1 < TWO64
    requires r.producer == GpuRing.Checked(data)
    ensures var r1 := GpuRing.ProduceStep(r);
            var r2 := GpuRing.ProduceStep(r1);
            var r3 := GpuRing.ProduceStep(r2);
            var r4 := GpuRing.ProduceStep(r3);
            var seen := g.Stages(b, data);
            Holds(g, seen[0], r1) && Holds(g, seen[1], r2) && Holds(g, seen[2], r3) && Holds(g, seen[3], r4) &&
            Holds(g, seen[4], GpuRing.ProduceStep(r4))
  {
    hide Holds, SlotIn, Spliced, LittleEndian, Word, Region.SlotAt, Region.Tail;
    var t := r.tail;
    Counters(g, b, r);
    var r1 := GpuRing.ProduceStep(r);
    var r2 := GpuRing.ProduceStep(r1);
    var r3 := GpuRing.ProduceStep(r2);
    var r4 := GpuRing.ProduceStep(r3);
    var seen := g.Stages(b, data);
    ModRange(t, g.max);
    FlagHeld(g, b, r, 1, r1);
    TailHeld(g, seen[0], r1, r2);
    SizeHeld(g, seen[1], r2, t, |data|, r3);
    SlotWide(g, seen[2], r3, t % g.max);
    DataHeld(g, seen[2], r3, t, data, r4);
    FlagHeld(g, seen[3], r4, 0, GpuRing.ProduceStep(r4));
  }

  lemma Counters(g: Region, b: seq<Byte>, r: GpuRing.Ring)
    requires Holds(g, b, r)
    ensures g.Inside(b) && r.tail == g.Tail(b) && |r.slots| == g.max > 0
  {
  }

  lemma SlotWide(g: Region, b: seq<Byte>, r: GpuRing.Ring, k: nat)
    requires Holds(g, b, r) && k < g.max
    ensures |r.slots[k].data| == g.valueSize
  {
    hide Word, Region.Dirty, SlotIn;
    assert r.slots[k] == SlotIn(g, b, k);
  }

  /** Draining a ring in memory does to the bytes what the drain in one piece does to the ring, and hands on the same
      slot. */
  lemma DrainRefines(g: Region, d: Drain, r: GpuRing.Ring)
    requires g.Valid(d.bytes) && Holds(g, d.bytes, r) && r.consumer.Waiting?
    ensures var d', r' := DrainRing(g, d), GpuRing.DrainOnce(r);
            Holds(g, d'.bytes, r') && |d'.delivered| - |d.delivered| == |r'.delivered| - |r.delivered| &&
            (r'.delivered != r.delivered ==>
              var x, slot := d'.delivered[|d.delivered|], r'.delivered[|r.delivered|];
              x.size == slot.size && x.data <= slot.data)
  {
    hide Word, Region.Dirty, LittleEndian, Spliced;
    var b, head := d.bytes, g.Head(d.bytes);
    if g.Dirty(b) == 0 && head != g.Tail(b) {
      ModRange(head, g.max);
      HeadMoved(g, b);
      var c := Spliced(b, g.base, LittleEndian(head + 1, 8));
      forall k | 0 <= k < g.max
        ensures SlotIn(g, c, k) == SlotIn(g, b, k)
      {
        HeaderStored(g, b, g.base, LittleEndian(head + 1, 8), k);
      }
      SlotOfRecord(g, b, head);
    }
    hide SlotIn, Region.Record, Region.SizeAt;
  }

  lemma SlotOfRecord(g: Region, b: seq<Byte>, k: nat)
    requires g.Inside(b)
    ensures k % g.max < g.max && SlotIn(g, b, k % g.max).size == g.SizeAt(b, k)
    ensures g.Record(b, k) <= SlotIn(g, b, k % g.max).data
  {
    hide Word;
    ModRange(k, g.max);
    SmallMod(k % g.max, g.max);
    assert g.SlotAt(k % g.max) == g.SlotAt(k);
    g.SlotInside(k);
  }
}
