/** Packets handed to XDP programs in user space: moving the ends of the packet inside its buffer and reading bytes. */
module Xdp {
  import opened Words

  const EINVAL := 22
  const ETH_HLEN := 14

  /** The packet's and the buffer's bounds, and memory. */
  datatype Packet = Packet(data: nat, dataEnd: nat, bufferStart: nat, bufferEnd: nat, mem: Memory)
  {
    /** The packet lies in its buffer, and the buffer in ordinary address space. */
    predicate Valid() {
      ETH_HLEN <= bufferStart <= data <= dataEnd <= bufferEnd < TWO63
    }

    function Bytes(): (b: seq<Byte>)
      requires data <= dataEnd
      ensures |b| == dataEnd - data
    {
      Load(mem, data, dataEnd - data)
    }
  }

  lemma Wrapped(x: int)
    requires -TWO64 <= x < TWO64
    ensures U64(x) == if x < 0 then x + TWO64 else x
  {
  }

  function AdjustHead(p: Packet, offset: int): (r: (Packet, int)) {
    var data := U64(p.data + offset);
    if data > U64(p.dataEnd - ETH_HLEN) || data > p.bufferEnd then (p, -EINVAL)
    else if data < p.bufferStart then
      var moved := Load(p.mem, p.data, if p.data <= p.dataEnd then p.dataEnd - p.data else 0);
      (p.(data := p.bufferStart, mem := Store(p.mem, p.bufferStart + (p.bufferStart - data), moved)), 0)
    else (p.(data := data), 0)
  }

  function AdjustTail(p: Packet, delta: int): (r: (Packet, int)) {
    var end := U64(p.dataEnd + delta);
    if end < p.data || end < p.bufferStart || end > p.bufferEnd then (p, -EINVAL) else (p.(dataEnd := end), 0)
  }

  /** What a head move does to a packet inside its buffer, in plain numbers. */
  lemma HeadMeaning(p: Packet, offset: int)
    requires -TWO31 <= offset < TWO31
    ensures var (p', r) := AdjustHead(p, offset); var start := p.data + offset;
            p.Valid() ==>
              (r == 0 <==> 0 <= start <= p.dataEnd - ETH_HLEN) &&
              (r == 0 && p.bufferStart <= start ==> p' == p.(data := start)) &&
              (r == 0 && start < p.bufferStart ==>
                p' == p.(data := p.bufferStart, mem := Store(p.mem, 2 * p.bufferStart - start, p.Bytes()))) &&
              p'.Valid()
  {
    hide Load, Store, U64;
    if p.Valid() {
      Wrapped(p.data + offset);
      Wrapped(p.dataEnd - ETH_HLEN);
    }
  }

  /** A packet descriptor that the helpers update in place. */
  class XdpMd {
    var data: nat
    var dataEnd: nat
    var bufferStart: nat
    var bufferEnd: nat
    var mem: Memory

    function View(): Packet
      reads this
    {
      Packet(data, dataEnd, bufferStart, bufferEnd, mem)
    }

    /** Moves the packet's start. In a packet inside its buffer this succeeds exactly when an Ethernet header is left;
        the new start is at least the buffer's, and memory changes only past the headroom, where the packet's bytes
        are copied as far behind the buffer's start as the move would have gone in front of it. */
    method MoveHead(offset: int) returns (result: int)
      requires data <= dataEnd && -TWO31 <= offset < TWO31
      modifies this
      ensures (View(), result) == AdjustHead(old(View()), offset)
      ensures result == 0 || (result == -EINVAL && View() == old(View()))
      ensures dataEnd == old(dataEnd) && bufferStart == old(bufferStart) && bufferEnd == old(bufferEnd)
      ensures old(View().Valid()) ==> View().Valid() && (result == 0 <==> 0 <= old(data) + offset <= dataEnd - ETH_HLEN)
      ensures old(View().Valid()) && result == 0 && bufferStart <= old(data) + offset ==>
                data == old(data) + offset && mem == old(mem)
      ensures old(View().Valid()) && result == 0 && old(data) + offset < bufferStart ==>
                data == bufferStart &&
                mem == Store(old(mem), 2 * bufferStart - (old(data) + offset), old(View().Bytes()))
    {
      hide Load, Store, U64, Packet.Valid;
      HeadMeaning(View(), offset);
      var start := U64(data + offset);
      if start > U64(dataEnd - ETH_HLEN) || start > bufferEnd {
        return -EINVAL;
      }
      if start < bufferStart {
        mem := Store(mem, bufferStart + (bufferStart - start), Load(mem, data, dataEnd - data));
        start := bufferStart;
      }
      data := start;
      return 0;
    }

    /** Moves the packet's end. In a packet inside its buffer this succeeds exactly when the new end lies between the
        packet's start and the buffer's end; nothing else changes. */
    method MoveTail(delta: int) returns (result: int)
      requires -TWO31 <= delta < TWO31
      modifies this
      ensures (View(), result) == AdjustTail(old(View()), delta)
      ensures result == 0 || (result == -EINVAL && View() == old(View()))
      ensures data == old(data) && bufferStart == old(bufferStart) && bufferEnd == old(bufferEnd) && mem == old(mem)
      ensures old(View().Valid()) ==> View().Valid() && (result == 0 <==> data <= old(dataEnd) + delta <= bufferEnd)
      ensures old(View().Valid()) && result == 0 ==> dataEnd == old(dataEnd) + delta
    {
      hide U64;
      if View().Valid() { Wrapped(dataEnd + delta); }
      var end := U64(dataEnd + delta);
      if end < data || end < bufferStart || end > bufferEnd {
        return -EINVAL;
      }
      dataEnd := end;
      return 0;
    }

    /** Copies len bytes from the packet; nothing is copied when they are not all inside it. */
    method LoadBytes(offset: nat, len: nat) returns (result: int, buf: seq<Byte>)
      requires View().Valid() && offset < TWO32 && len < TWO32
      ensures result == 0 <==> offset + len <= dataEnd - data
      ensures result == 0 ==> buf == View().Bytes()[offset..offset + len]
      ensures result != 0 ==> result == -EINVAL && buf == []
    {
      hide U64;
      Wrapped(data + offset);
      Wrapped(data + offset + len);
      var at := U64(data + offset);
      if U64(at + len) > dataEnd {
        return -EINVAL, [];
      }
      buf := Load(mem, at, len);
      result := 0;
    }
  }

  // ---------------------------------------------------------------- bounds

  datatype Move = Head(offset: int) | Tail(delta: int)

  /** Offsets are 32-bit. */
  predicate Representable(m: Move) {
    match m
    case Head(offset) => -TWO31 <= offset < TWO31
    case Tail(delta) => -TWO31 <= delta < TWO31
  }

  function Apply(p: Packet, m: Move): (Packet, int) {
    match m
    case Head(offset) => AdjustHead(p, offset)
    case Tail(delta) => AdjustTail(p, delta)
  }

  /** Every move keeps the packet inside its buffer, the buffer where it is, and a refused move changes nothing. */
  lemma MoveKeepsValid(p: Packet, m: Move)
    requires p.Valid() && Representable(m)
    ensures var (p', r) := Apply(p, m);
            p'.Valid() && p'.bufferStart == p.bufferStart && p'.bufferEnd == p.bufferEnd &&
            (r == 0 || (r == -EINVAL && p' == p))
  {
    hide Load, Store, U64;
    Wrapped(p.data + if m.Head? then m.offset else 0);
    Wrapped(p.dataEnd + if m.Tail? then m.delta else 0);
    Wrapped(p.dataEnd - ETH_HLEN);
  }

  function Run(p: Packet, moves: seq<Move>): Packet {
    if moves == [] then p else Apply(Run(p, moves[..|moves| - 1]), moves[|moves| - 1]).0
  }

  lemma {:induction false} RunKeepsValid(p: Packet, moves: seq<Move>)
    requires p.Valid() && forall i :: 0 <= i < |moves| ==> Representable(moves[i])
    ensures var p' := Run(p, moves);
            p'.Valid() && p'.bufferStart == p.bufferStart && p'.bufferEnd == p.bufferEnd
  {
    hide Apply;
    if moves != [] {
      RunKeepsValid(p, moves[..|moves| - 1]);
      MoveKeepsValid(Run(p, moves[..|moves| - 1]), moves[|moves| - 1]);
    }
  }

  /** A head move succeeds exactly when at least an Ethernet header is left behind the new start. */
  lemma HeadSucceedsIff(p: Packet, offset: int)
    requires p.Valid() && -TWO31 <= offset < TWO31
    ensures AdjustHead(p, offset).1 == if 0 <= p.data + offset <= p.dataEnd - 14 then 0 else -22
  {
    hide Load, Store, U64;
    Wrapped(p.data + offset);
    Wrapped(p.dataEnd - ETH_HLEN);
  }

  lemma TailSucceedsIff(p: Packet, delta: int)
    requires p.Valid() && -TWO31 <= delta < TWO31
    ensures AdjustTail(p, delta).1 == if p.data <= p.dataEnd + delta <= p.bufferEnd then 0 else -22
    ensures AdjustTail(p, delta).1 == 0 ==> AdjustTail(p, delta).0 == p.(dataEnd := p.dataEnd + delta)
  {
    hide U64;
    Wrapped(p.dataEnd + delta);
  }

  /** What a successful head move inside the headroom does. */
  lemma HeadMoves(p: Packet, offset: int)
    requires p.Valid() && -TWO31 <= offset < TWO31 && p.bufferStart <= p.data + offset <= p.dataEnd - ETH_HLEN
    ensures AdjustHead(p, offset) == (p.(data := p.data + offset), 0)
  {
    hide Load, Store, U64;
    Wrapped(p.data + offset);
    Wrapped(p.dataEnd - ETH_HLEN);
  }

  /** Head moves that succeed within the headroom add up. */
  lemma HeadMovesCompose(p: Packet, a: int, b: int)
    requires p.Valid() && -TWO31 <= a < TWO31 && -TWO31 <= b < TWO31 && -TWO31 <= a + b < TWO31
    requires p.bufferStart <= p.data + a <= p.dataEnd - ETH_HLEN
    requires p.bufferStart <= p.data + a + b <= p.dataEnd - ETH_HLEN
    ensures AdjustHead(p, a).1 == 0 && AdjustHead(AdjustHead(p, a).0, b).1 == 0
    ensures AdjustHead(p, a + b) == AdjustHead(AdjustHead(p, a).0, b)
  {
    hide AdjustHead;
    HeadMoves(p, a);
    HeadMoves(p.(data := p.data + a), b);
    HeadMoves(p, a + b);
  }

  // ---------------------------------------------------------------- contents

  /** The packet's bytes come through a head move: cut at the front, or with room in front of all of them. */
  predicate KeepsPayload(p: Packet, p': Packet, offset: int)
    requires p.data <= p.dataEnd && p'.data <= p'.dataEnd
  {
    if offset >= 0 then offset <= |p.Bytes()| && p'.Bytes() == p.Bytes()[offset..]
    else -offset <= |p'.Bytes()| && p'.Bytes()[-offset..] == p.Bytes()
  }

  lemma PayloadInPlace(p: Packet, offset: int)
    requires p.Valid() && p.bufferStart <= p.data + offset <= p.dataEnd
    ensures KeepsPayload(p, p.(data := p.data + offset), offset)
  {
    var q := p.(data := p.data + offset);
    var before, after := p.Bytes(), q.Bytes();
    if offset >= 0 {
      forall i | 0 <= i < |after| ensures after[i] == before[offset..][i] {
        assert before[offset + i] == Peek(p.mem, p.data + (offset + i));
      }
      assert after == before[offset..];
    } else {
      forall i | 0 <= i < |before| ensures after[-offset..][i] == before[i] {
        assert after[i - offset] == Peek(p.mem, q.data + (i - offset));
      }
      assert after[-offset..] == before;
    }
  }

  /** A successful head move keeps the packet's bytes exactly when it stays within the headroom: past it, the bytes
      are moved but the packet's end is not, so some are lost. */
  lemma PayloadKeptIff(p: Packet, offset: int)
    requires p.Valid() && -TWO31 <= offset < TWO31 && AdjustHead(p, offset).1 == 0
    ensures AdjustHead(p, offset).0.Valid()
    ensures KeepsPayload(p, AdjustHead(p, offset).0, offset) <==> p.data + offset >= p.bufferStart
  {
    HeadSucceedsIff(p, offset);
    MoveKeepsValid(p, Head(offset));
    if p.data + offset >= p.bufferStart {
      HeadMoves(p, offset);
      PayloadInPlace(p, offset);
    } else {
      PastHeadroom(p, offset);
      MoveLosesBytes(p, AdjustHead(p, offset).0, offset);
    }
  }

  /** How far behind the new start the old first byte lands when the head moves past the headroom. */
  function Gap(p: Packet, offset: int): int {
    p.bufferStart - (p.data + offset)
  }

  lemma PastHeadroom(p: Packet, offset: int)
    requires p.Valid() && -TWO31 <= offset < TWO31 && 0 <= p.data + offset <= p.dataEnd - ETH_HLEN
    requires p.data + offset < p.bufferStart
    ensures AdjustHead(p, offset).1 == 0
    ensures AdjustHead(p, offset).0 ==
            p.(data := p.bufferStart, mem := Store(p.mem, p.bufferStart + Gap(p, offset), p.Bytes()))
  {
    hide Load, Store, U64;
    Wrapped(p.data + offset);
    Wrapped(p.dataEnd - ETH_HLEN);
  }

  lemma MoveLosesBytes(p: Packet, p': Packet, offset: int)
    requires p.Valid() && p'.Valid() && p'.data == p.bufferStart && p'.dataEnd == p.dataEnd
    requires p.data + offset < p.bufferStart
    ensures !KeepsPayload(p, p', offset)
  {
    hide Load;
    assert |p'.Bytes()| + offset < |p.Bytes()|;
    assert -offset <= |p'.Bytes()| ==> |p'.Bytes()[-offset..]| < |p.Bytes()|;
  }

  /** Past the headroom the packet holds, behind a gap, the old bytes that still fit before its unmoved end. */
  lemma MovedBytes(p: Packet, offset: int, i: nat)
    requires p.Valid() && -TWO31 <= offset < TWO31 && 0 <= p.data + offset <= p.dataEnd - ETH_HLEN
    requires p.data + offset < p.bufferStart
    requires i < |p.Bytes()| && Gap(p, offset) + i < p.dataEnd - p.bufferStart
    ensures var p' := AdjustHead(p, offset).0;
            p'.Valid() && p'.Bytes()[Gap(p, offset) + i] == p.Bytes()[i]
  {
    hide AdjustHead, Load, Store;
    PastHeadroom(p, offset);
    MovedByte(p.mem, p.Bytes(), p.bufferStart, p.dataEnd - p.bufferStart, Gap(p, offset), i);
  }

  lemma MovedByte(m: Memory, bytes: seq<Byte>, start: nat, n: nat, gap: nat, i: nat)
    requires i < |bytes| && gap + i < n
    ensures Load(Store(m, start + gap, bytes), start, n)[gap + i] == bytes[i]
  {
    hide Load, Store;
    var m' := Store(m, start + gap, bytes);
    assert Load(m', start, n)[gap + i] == Peek(m', start + (gap + i));
  }

  // ---------------------------------------------------------------- where a head move writes

  /** Only bytes of the buffer change. */
  ghost predicate StaysInBuffer(p: Packet, p': Packet) {
    forall k :: k < p.bufferStart || p.bufferEnd <= k ==> Peek(p'.mem, k) == Peek(p.mem, k)
  }

  /** The move is within the headroom, there is nothing to copy, or the copy ends inside the buffer. */
  predicate Contained(p: Packet, offset: int) {
    p.bufferStart <= p.data + offset || p.data == p.dataEnd ||
    p.bufferStart + Gap(p, offset) + (p.dataEnd - p.data) <= p.bufferEnd
  }

  /** A successful head move leaves memory outside the buffer alone, whatever memory holds, exactly when it is
      contained. */
  lemma WritesInsideIff(p: Packet, offset: int)
    requires p.Valid() && -TWO31 <= offset < TWO31 && 0 <= p.data + offset <= p.dataEnd - ETH_HLEN
    ensures (forall m: Memory :: StaysInBuffer(p.(mem := m), AdjustHead(p.(mem := m), offset).0)) <==>
            Contained(p, offset)
  {
    hide AdjustHead;
    if Contained(p, offset) {
      forall m: Memory
        ensures StaysInBuffer(p.(mem := m), AdjustHead(p.(mem := m), offset).0)
      {
        ContainedStays(p.(mem := m), offset);
      }
    } else {
      var m: Memory := map[p.dataEnd - 1 := 1];
      EscapeShows(p.(mem := m), offset);
      assert !StaysInBuffer(p.(mem := m), AdjustHead(p.(mem := m), offset).0);
    }
  }

  lemma ContainedStays(p: Packet, offset: int)
    requires p.Valid() && -TWO31 <= offset < TWO31 && Contained(p, offset)
    ensures StaysInBuffer(p, AdjustHead(p, offset).0)
  {
    HeadSucceedsIff(p, offset);
    MoveKeepsValid(p, Head(offset));
    hide AdjustHead, Load, Store;
    if AdjustHead(p, offset).1 == 0 {
      if p.bufferStart <= p.data + offset {
        HeadMoves(p, offset);
      } else {
        PastHeadroom(p, offset);
      }
    }
  }

  /** The last byte copied lands past the buffer. */
  lemma EscapeShows(p: Packet, offset: int)
    requires p.Valid() && -TWO31 <= offset < TWO31 && 0 <= p.data + offset <= p.dataEnd - ETH_HLEN
    requires !Contained(p, offset) && p.mem == map[p.dataEnd - 1 := 1]
    ensures var k := p.bufferStart + Gap(p, offset) + (p.dataEnd - p.data) - 1;
            p.bufferEnd <= k && Peek(AdjustHead(p, offset).0.mem, k) == 1 && Peek(p.mem, k) == 0
  {
    hide AdjustHead, Load, Store;
    PastHeadroom(p, offset);
    var n := p.dataEnd - p.data;
    assert p.Bytes()[n - 1] == Peek(p.mem, p.data + (n - 1));
  }

  /** Over every run of moves whose head moves are contained, memory outside the buffer stays as it was. */
  lemma {:induction false} RunStaysInBuffer(p: Packet, moves: seq<Move>)
    requires p.Valid() && forall i :: 0 <= i < |moves| ==> Representable(moves[i])
    requires forall i | 0 <= i < |moves| && moves[i].Head? :: Contained(Run(p, moves[..i]), moves[i].offset)
    ensures StaysInBuffer(p, Run(p, moves))
  {
    hide AdjustHead, AdjustTail, Contained;
    if moves != [] {
      var n := |moves| - 1;
      var before, m := moves[..n], moves[n];
      forall i | 0 <= i < n && before[i].Head?
        ensures Contained(Run(p, before[..i]), before[i].offset)
      {
        assert before[..i] == moves[..i];
      }
      RunStaysInBuffer(p, before);
      RunKeepsValid(p, before);
      var q := Run(p, before);
      if m.Head? {
        ContainedStays(q, m.offset);
      } else {
        TailKeepsMemory(q, m.delta);
      }
    }
  }

  lemma TailKeepsMemory(p: Packet, delta: int)
    ensures AdjustTail(p, delta).0.mem == p.mem
  {
  }

  /** A head move that is not contained: 90 bytes copied from address 1090 on, in a buffer that ends at 1100. */
  lemma CopyPastBuffer()
    ensures var p := Packet(1010, 1100, 1000, 1100, map[1099 := 1]);
            p.Valid() && AdjustHead(p, -100).1 == 0 && !Contained(p, -100) && !StaysInBuffer(p, AdjustHead(p, -100).0)
  {
    hide AdjustHead;
    var p := Packet(1010, 1100, 1000, 1100, map[1099 := 1]);
    HeadSucceedsIff(p, -100);
    EscapeShows(p, -100);
  }
}
