/** The ring buffer as it lies in device memory, and the unrolled copy loops that fill it. */
module GpuRingBytes {
  import opened Words
  import GpuRing

  /** b with these bytes laid over it from index at on. */
  function Spliced(b: seq<Byte>, at: nat, bytes: seq<Byte>): (r: seq<Byte>)
    requires at + |bytes| <= |b|
    ensures |r| == |b|
    ensures forall i :: 0 <= i < |b| ==> r[i] == if at <= i < at + |bytes| then bytes[i - at] else b[i]
  {
    b[..at] + bytes + b[at + |bytes|..]
  }

  /** Copies n bytes four at a time and the rest one by one; a length below one copies nothing. */
  method CopyBytes(dst: array<Byte>, at: nat, src: seq<Byte>, n: int)
    requires n <= |src| && (n > 0 ==> at + n <= dst.Length)
    modifies dst
    ensures n <= 0 ==> dst[..] == old(dst[..])
    ensures n > 0 ==> dst[..] == Spliced(old(dst[..]), at, src[..n])
  {
    if n < 1 {
      return;
    }
    var rest := n % 4;
    var i := 0;
    if n >= 4 {
      var whole := n - rest;
      while i != whole
        invariant 0 <= i <= whole && i % 4 == 0
        invariant forall k :: 0 <= k < i ==> dst[at + k] == src[k]
        invariant forall k :: 0 <= k < dst.Length && !(at <= k < at + i) ==> dst[k] == old(dst[k])
        decreases whole - i
      {
        dst[at + i] := src[i];
        dst[at + i + 1] := src[i + 1];
        dst[at + i + 2] := src[i + 2];
        dst[at + i + 3] := src[i + 3];
        i := i + 4;
      }
    }
    while rest != 0
      invariant 0 <= rest && i + rest == n && 0 <= i
      invariant forall k :: 0 <= k < i ==> dst[at + k] == src[k]
      invariant forall k :: 0 <= k < dst.Length && !(at <= k < at + i) ==> dst[k] == old(dst[k])
    {
      dst[at + i] := src[i];
      i := i + 1;
      rest := rest - 1;
    }
  }

  method WriteWord(dst: array<Byte>, at: nat, v: nat, n: nat)
    requires at + n <= dst.Length
    modifies dst
    ensures dst[..] == Spliced(old(dst[..]), at, LittleEndian(v, n))
  {
    var bytes := LittleEndian(v, n);
    for i := 0 to n
      invariant forall k :: 0 <= k < i ==> dst[at + k] == bytes[k]
      invariant forall k :: 0 <= k < dst.Length && !(at <= k < at + i) ==> dst[k] == old(dst[k])
    {
      dst[at + i] := bytes[i];
    }
  }

  function Word(b: seq<Byte>, at: nat): nat
    requires at + 8 <= |b|
  {
    FromLittleEndian(b[at..at + 8])
  }

  lemma WordSpliced(b: seq<Byte>, at: nat, v: nat)
    requires at + 8 <= |b| && v < TWO64
    ensures Word(Spliced(b, at, LittleEndian(v, 8)), at) == v
  {
    hide LittleEndian, FromLittleEndian;
    var bytes := LittleEndian(v, 8);
    assert Spliced(b, at, bytes)[at..at + 8] == bytes;
    LittleEndianRoundTrip(v, 8);
    Pow256Of8();
  }

  lemma WordSame(b: seq<Byte>, c: seq<Byte>, at: nat)
    requires at + 8 <= |b| == |c| && forall i :: at <= i < at + 8 ==> b[i] == c[i]
    ensures Word(b, at) == Word(c, at)
  {
    hide FromLittleEndian;
    assert b[at..at + 8] == c[at..at + 8];
  }

  /** A thread's region: head, tail, dirty flag and padding, then max slots of a size word and valueSize bytes. */
  datatype Region = Region(base: nat, valueSize: nat, max: nat)
  {
    function SlotBytes(): nat {
      valueSize + 8
    }

    function Size(): (r: nat)
      ensures r >= 24
    {
      SlotBytes() * max + 24
    }

    /** Where slot number k modulo max begins. */
    function SlotAt(k: nat): nat
      requires max > 0
    {
      base + 24 + (k % max) * SlotBytes()
    }

    ghost predicate Inside(b: seq<Byte>) {
      max > 0 && base + Size() <= |b|
    }

    function Head(b: seq<Byte>): nat
      requires Inside(b)
    {
      Word(b, base)
    }

    function Tail(b: seq<Byte>): nat
      requires Inside(b)
    {
      Word(b, base + 8)
    }

    lemma SlotInside(k: nat)
      requires max > 0
      ensures base + 24 <= SlotAt(k) && SlotAt(k) + SlotBytes() <= base + Size()
    {
      var i, w := k % max, SlotBytes();
      assert i * w + w == (i + 1) * w;
      MulMonotone(i + 1, max, w);
    }

    lemma SlotsDisjoint(i: nat, j: nat)
      requires max > 0 && i % max != j % max
      ensures SlotAt(i) + SlotBytes() <= SlotAt(j) || SlotAt(j) + SlotBytes() <= SlotAt(i)
    {
      var a, b, w := i % max, j % max, SlotBytes();
      if a < b {
        assert (a + 1) * w == a * w + w;
        MulMonotone(a + 1, b, w);
      } else {
        assert (b + 1) * w == b * w + w;
        MulMonotone(b + 1, a, w);
      }
    }

    function SizeAt(b: seq<Byte>, k: nat): nat
      requires Inside(b)
    {
      SlotInside(k);
      Word(b, SlotAt(k))
    }

    /** The data of record number k, as far as it fits a slot. */
    function Record(b: seq<Byte>, k: nat): seq<Byte>
      requires Inside(b)
    {
      SlotInside(k);
      var n := if SizeAt(b, k) <= valueSize then SizeAt(b, k) else valueSize;
      b[SlotAt(k) + 8..SlotAt(k) + 8 + n]
    }

    /** Head does not pass tail and at most max records are unread. */
    ghost predicate Valid(b: seq<Byte>) {
      Inside(b) && Head(b) <= Tail(b) <= Head(b) + max
    }

    /** The records from the head up to k, oldest first. */
    ghost function UnreadTo(b: seq<Byte>, k: nat): seq<seq<Byte>>
      requires Inside(b)
      decreases k
    {
      if k <= Head(b) then [] else UnreadTo(b, k - 1) + [Record(b, k - 1)]
    }

    ghost function Unread(b: seq<Byte>): seq<seq<Byte>>
      requires Inside(b)
    {
      UnreadTo(b, Tail(b))
    }

    /** The dirty flag's word. */
    function Dirty(b: seq<Byte>): nat
      requires Inside(b)
    {
      FromLittleEndian(b[base + 16..base + 20])
    }

    /** Device memory after each store of one accepted push, the record's data counted as one. */
    function Stages(b: seq<Byte>, data: seq<Byte>): (r: seq<seq<Byte>>)
      requires Inside(b) && |data| <= valueSize
      ensures |r| == 5 && forall i :: 0 <= i < 5 ==> |r[i]| == |b|
    {
      var t := Tail(b);
      SlotInside(t);
      var b1 := Spliced(b, base + 16, LittleEndian(1, 4));
      var b2 := Spliced(b1, base + 8, LittleEndian(t + 1, 8));
      var b3 := Spliced(b2, SlotAt(t), LittleEndian(|data|, 8));
      var b4 := Spliced(b3, SlotAt(t) + 8, data);
      [b1, b2, b3, b4, Spliced(b4, base + 16, LittleEndian(0, 4))]
    }

    function Pushed(b: seq<Byte>, data: seq<Byte>): (r: seq<Byte>)
      requires Inside(b) && |data| <= valueSize
      ensures |r| == |b|
    {
      Stages(b, data)[4]
    }
  }

  /** Appends a record to a thread's ring in device memory: 2 if it is full, 0 otherwise. The host may look at any time;
      seen is what device memory is after each store. */
  method Push(buffer: array<Byte>, g: Region, data: seq<Byte>) returns (result: nat, ghost seen: seq<seq<Byte>>)
    requires g.Valid(buffer[..]) && |data| <= g.valueSize
    modifies buffer
    ensures g.Inside(old(buffer[..]))
    ensures old(g.Tail(buffer[..]) - g.Head(buffer[..])) == g.max ==>
              result == 2 && seen == [] && buffer[..] == old(buffer[..])
    ensures old(g.Tail(buffer[..]) - g.Head(buffer[..])) != g.max ==>
              result == 0 && seen == g.Stages(old(buffer[..]), data) && buffer[..] == g.Pushed(old(buffer[..]), data)
  {
    hide LittleEndian, FromLittleEndian, Spliced;
    var tail := Word(buffer[..], g.base + 8);
    var head := Word(buffer[..], g.base);
    if tail - head == g.max {
      return 2, [];
    }
    g.SlotInside(tail);
    WriteWord(buffer, g.base + 16, 1, 4);
    seen := [buffer[..]];
    WriteWord(buffer, g.base + 8, tail + 1, 8);
    seen := seen + [buffer[..]];
    var slot := g.base + 24 + (tail % g.max) * (g.valueSize + 8);
    WriteWord(buffer, slot, |data|, 8);
    seen := seen + [buffer[..]];
    CopyRecord(buffer, slot + 8, data);
    seen := seen + [buffer[..]];
    WriteWord(buffer, g.base + 16, 0, 4);
    seen := seen + [buffer[..]];
    result := 0;
  }

  /** The copy of a whole record. */
  method CopyRecord(dst: array<Byte>, at: nat, data: seq<Byte>)
    requires at + |data| <= dst.Length
    modifies dst
    ensures dst[..] == Spliced(old(dst[..]), at, data)
  {
    assert data[..|data|] == data;
    CopyBytes(dst, at, data, |data|);
    if data == [] { assert Spliced(dst[..], at, []) == dst[..]; }
  }

  // ---------------------------------------------------------------- a push appends, and touches nothing else

  lemma FlagSpliced(g: Region, b: seq<Byte>, v: nat)
    requires g.Inside(b) && v < 256
    ensures var b' := Spliced(b, g.base + 16, LittleEndian(v, 4)); g.Inside(b') && g.Dirty(b') == v
  {
    hide LittleEndian, FromLittleEndian;
    var bytes := LittleEndian(v, 4);
    assert Spliced(b, g.base + 16, bytes)[g.base + 16..g.base + 20] == bytes;
    LittleEndianRoundTrip(v, 4);
    assert Pow256(4) == TWO32;
  }

  lemma FlagSame(g: Region, b: seq<Byte>, c: seq<Byte>)
    requires g.Inside(b) && |b| == |c| && forall i :: g.base + 16 <= i < g.base + 20 ==> b[i] == c[i]
    ensures g.Inside(c) && g.Dirty(b) == g.Dirty(c)
  {
    hide FromLittleEndian;
    assert b[g.base + 16..g.base + 20] == c[g.base + 16..g.base + 20];
  }

  /** The flag is set before the tail moves and stays set, whatever part of the data is copied, until all is written;
      then it is cleared. */
  lemma DirtyThroughout(g: Region, b: seq<Byte>, data: seq<Byte>, n: nat)
    requires g.Inside(b) && |data| <= g.valueSize && n <= |data|
    ensures var r := g.Stages(b, data); forall i :: 0 <= i < 5 ==> g.Inside(r[i])
    ensures var r := g.Stages(b, data); g.Tail(r[0]) == g.Tail(b) && g.Dirty(r[0]) == 1
    ensures var r := g.Stages(b, data); g.Dirty(r[1]) == 1 && g.Dirty(r[2]) == 1 && g.Dirty(r[3]) == 1
    ensures g.SlotAt(g.Tail(b)) + 8 + n <= |b|
    ensures var c := Spliced(g.Stages(b, data)[2], g.SlotAt(g.Tail(b)) + 8, data[..n]); g.Inside(c) && g.Dirty(c) == 1
    ensures g.Dirty(g.Pushed(b, data)) == 0
  {
    hide LittleEndian, Word, Region.Dirty, Spliced, FromLittleEndian;
    var t, r := g.Tail(b), g.Stages(b, data);
    g.SlotInside(t);
    FlagSpliced(g, b, 1);
    WordSame(b, r[0], g.base + 8);
    FlagSame(g, r[0], r[1]);
    FlagSame(g, r[1], r[2]);
    FlagSame(g, r[2], r[3]);
    FlagSame(g, r[2], Spliced(r[2], g.SlotAt(t) + 8, data[..n]));
    FlagSpliced(g, r[3], 0);
  }

  /** Only the tail, the dirty flag and the claimed slot are written. */
  lemma PushedElsewhere(g: Region, b: seq<Byte>, data: seq<Byte>, i: nat)
    requires g.Inside(b) && |data| <= g.valueSize && i < |b|
    requires !(g.base + 8 <= i < g.base + 20)
    requires !(g.SlotAt(g.Tail(b)) <= i < g.SlotAt(g.Tail(b)) + 8 + |data|)
    ensures g.Pushed(b, data)[i] == b[i]
  {
    hide LittleEndian, Word;
    g.SlotInside(g.Tail(b));
  }

  /** The tail has moved and the claimed slot holds size and data. */
  lemma PushedThere(g: Region, b: seq<Byte>, data: seq<Byte>)
    requires g.Inside(b) && |data| <= g.valueSize < TWO64 && g.Tail(b) + 1 < TWO64
    ensures var b' := g.Pushed(b, data); var t := g.Tail(b);
            g.Inside(b') && g.Tail(b') == t + 1 && g.SizeAt(b', t) == |data| && g.Record(b', t) == data
  {
    hide LittleEndian, Word, Region.SlotAt, Region.Size;
    var t := g.Tail(b);
    g.SlotInside(t);
    var b1 := Spliced(b, g.base + 16, LittleEndian(1, 4));
    var b2 := Spliced(b1, g.base + 8, LittleEndian(t + 1, 8));
    var b3 := Spliced(b2, g.SlotAt(t), LittleEndian(|data|, 8));
    var b4 := Spliced(b3, g.SlotAt(t) + 8, data);
    var b' := Spliced(b4, g.base + 16, LittleEndian(0, 4));
    assert b' == g.Pushed(b, data);
    WordSpliced(b1, g.base + 8, t + 1);
    WordSame(b2, b', g.base + 8);
    WordSpliced(b2, g.SlotAt(t), |data|);
    WordSame(b3, b', g.SlotAt(t));
    assert b'[g.SlotAt(t) + 8..g.SlotAt(t) + 8 + |data|] == data;
  }

  /** Where everything is, in plain numbers: head, tail and dirty flag at 0, 8 and 16, slots from 24 on. */
  lemma PushedLayout(g: Region, b: seq<Byte>, data: seq<Byte>, slot: nat)
    requires g.Inside(b) && |data| <= g.valueSize < TWO64 && g.Tail(b) + 1 < TWO64
    requires slot == g.base + 24 + (g.Tail(b) % g.max) * (g.valueSize + 8)
    ensures g.Size() == 24 + g.max * (g.valueSize + 8) && g.base + 24 <= |b|
    ensures g.Tail(b) == FromLittleEndian(b[g.base + 8..g.base + 16])
    ensures var b', t := g.Pushed(b, data), g.Tail(b);
            slot + 8 + |data| <= |b| && FromLittleEndian(b'[g.base + 8..g.base + 16]) == t + 1 &&
            FromLittleEndian(b'[g.base + 16..g.base + 20]) == 0 && FromLittleEndian(b'[slot..slot + 8]) == |data| &&
            b'[slot + 8..slot + 8 + |data|] == data
  {
    hide Region.Pushed, Region.Stages, FromLittleEndian;
    g.SlotInside(g.Tail(b));
    PushedThere(g, b, data);
    DirtyThroughout(g, b, data, 0);
  }

  /** An older unread record keeps its slot. */
  lemma PushedKeeps(g: Region, b: seq<Byte>, data: seq<Byte>, k: nat)
    requires g.Inside(b) && |data| <= g.valueSize && k < g.Tail(b) < k + g.max
    ensures g.Inside(g.Pushed(b, data)) && g.Record(g.Pushed(b, data), k) == g.Record(b, k)
  {
    hide LittleEndian, Word, Region.Pushed;
    var t, b' := g.Tail(b), g.Pushed(b, data);
    GpuRing.SlotsApart(k, t, g.max);
    g.SlotsDisjoint(k, t);
    g.SlotInside(k);
    forall i | g.SlotAt(k) <= i < g.SlotAt(k) + g.SlotBytes()
      ensures b'[i] == b[i]
    {
      PushedElsewhere(g, b, data, i);
    }
    WordSame(b, b', g.SlotAt(k));
    var n := if g.SizeAt(b, k) <= g.valueSize then g.SizeAt(b, k) else g.valueSize;
    assert b'[g.SlotAt(k) + 8..g.SlotAt(k) + 8 + n] == b[g.SlotAt(k) + 8..g.SlotAt(k) + 8 + n];
  }

  lemma {:induction false} UnreadKept(g: Region, b: seq<Byte>, data: seq<Byte>, k: nat)
    requires g.Valid(b) && |data| <= g.valueSize && g.Tail(b) < g.Head(b) + g.max && k <= g.Tail(b)
    requires g.Inside(g.Pushed(b, data)) && g.Head(g.Pushed(b, data)) == g.Head(b)
    ensures g.UnreadTo(g.Pushed(b, data), k) == g.UnreadTo(b, k)
    decreases k
  {
    hide Region.Pushed, Region.Record, Word;
    if k > g.Head(b) {
      UnreadKept(g, b, data, k - 1);
      PushedKeeps(g, b, data, k - 1);
    }
  }

  /** An accepted push of a record that fits appends it to the unread records, keeps the counters in range, leaves the
      dirty flag clear, and every byte outside this thread's region alone. */
  lemma PushAppends(g: Region, b: seq<Byte>, data: seq<Byte>)
    requires g.Valid(b) && |data| <= g.valueSize < TWO64 && g.Tail(b) + 1 < TWO64
    requires g.Tail(b) - g.Head(b) != g.max
    ensures var b' := g.Pushed(b, data);
            g.Valid(b') && g.Head(b') == g.Head(b) && g.Unread(b') == g.Unread(b) + [data] && g.Dirty(b') == 0 &&
            forall i :: 0 <= i < |b| && !(g.base <= i < g.base + g.Size()) ==> b'[i] == b[i]
  {
    hide Region.Pushed, Region.Record, Region.Dirty, Region.Stages, Word, Region.SlotAt;
    var b' := g.Pushed(b, data);
    DirtyThroughout(g, b, data, 0);
    PushedThere(g, b, data);
    g.SlotInside(g.Tail(b));
    forall i | g.base <= i < g.base + 8
      ensures b'[i] == b[i]
    {
      PushedElsewhere(g, b, data, i);
    }
    WordSame(b, b', g.base);
    UnreadKept(g, b, data, g.Tail(b));
    forall i | 0 <= i < |b| && !(g.base <= i < g.base + g.Size())
      ensures b'[i] == b[i]
    {
      PushedElsewhere(g, b, data, i);
    }
  }

  /** Regions of different threads, laid out one after the other, do not overlap. */
  lemma RegionsApart(start: nat, valueSize: nat, max: nat, t: nat, u: nat)
    requires t != u
    ensures var size := Region(0, valueSize, max).Size();
            start + t * size + size <= start + u * size || start + u * size + size <= start + t * size
  {
    var size := Region(0, valueSize, max).Size();
    if t < u {
      assert (t + 1) * size == t * size + size;
      MulMonotone(t + 1, u, size);
    } else {
      assert (u + 1) * size == u * size + size;
      MulMonotone(u + 1, t, size);
    }
  }
}
