/** Turning the map file descriptors in a program into map ids, and the pointer encoding that makes the relocated
    program find the same maps. */
module Relocation {
  import opened Words
  import opened Wrappers
  import opened Ebpf

  /** A slot that loads a map, or the address of a map's value, by file descriptor. */
  predicate IsMapRef(i: Insn) {
    i.opcode == LDDW && (i.src == 1 || i.src == 2)
  }

  /** The id of a descriptor; a descriptor without one, or with a negative one, cannot be relocated. */
  predicate HasId(ids: map<int, int>, fd: int) {
    fd in ids && ids[fd] >= 0
  }

  function RelocatedSlot(i: Insn, ids: map<int, int>): Insn {
    if IsMapRef(i) && i.imm in ids then i.(imm := ids[i.imm]) else i
  }

  /** Every slot treated by itself. */
  function Relocated(code: seq<Insn>, ids: map<int, int>): (r: seq<Insn>)
    ensures |r| == |code| && forall k :: 0 <= k < |code| ==> r[k] == RelocatedSlot(code[k], ids)
  {
    seq(|code|, k requires 0 <= k < |code| => RelocatedSlot(code[k], ids))
  }

  /** How many slots come before the first reference to an unknown map, counting from i. */
  function KnownFrom(code: seq<Insn>, i: nat, ids: map<int, int>): (n: nat)
    requires i <= |code|
    ensures i <= n <= |code| && (n < |code| ==> IsMapRef(code[n]) && !HasId(ids, code[n].imm))
    ensures forall k :: i <= k < n && IsMapRef(code[k]) ==> HasId(ids, code[k].imm)
    decreases |code| - i
  {
    if i < |code| && (IsMapRef(code[i]) ==> HasId(ids, code[i].imm)) then KnownFrom(code, i + 1, ids) else i
  }

  /** The loop over the slots, in place. It gives up at the first map it does not know, having relocated the slots
      before it. */
  method Relocate(insns: array<Insn>, ids: map<int, int>) returns (ok: bool)
    modifies insns
    ensures var code := old(insns[..]); var n := KnownFrom(code, 0, ids);
            (ok <==> n == |code|) && insns[..] == Relocated(code[..n], ids) + code[n..]
  {
    ghost var code := insns[..];
    for i := 0 to insns.Length
      invariant KnownFrom(code, 0, ids) == KnownFrom(code, i, ids)
      invariant forall k :: 0 <= k < i ==> insns[k] == RelocatedSlot(old(insns[k]), ids)
      invariant forall k :: i <= k < insns.Length ==> insns[k] == old(insns[k])
      invariant forall k :: 0 <= k < i && IsMapRef(old(insns[k])) ==> HasId(ids, old(insns[k].imm))
    {
      var inst := insns[i];
      if inst.opcode == LDDW && (inst.src == 1 || inst.src == 2) {
        if !(inst.imm in ids) || ids[inst.imm] < 0 {
          return false;
        }
        insns[i] := inst.(imm := ids[inst.imm]);
      }
    }
    return true;
  }

  /** Only the constants of map references change. */
  lemma OnlyMapRefsChange(code: seq<Insn>, ids: map<int, int>, k: nat)
    requires k < |code|
    ensures Relocated(code, ids)[k].(imm := 0) == code[k].(imm := 0)
    ensures Relocated(code, ids)[k] != code[k] ==> IsMapRef(code[k])
  {
  }

  /** In plain numbers: a slot with opcode 0x18 and source 1 or 2 whose constant is a descriptor with an id gets the id
      for a constant. */
  lemma RelocatedIs(code: seq<Insn>, ids: map<int, int>, k: nat)
    requires k < |code|
    ensures var i, r := code[k], Relocated(code, ids)[k];
            r.opcode == i.opcode && r.dst == i.dst && r.src == i.src && r.offset == i.offset &&
            r.imm == if i.opcode == 0x18 && i.src in {1, 2} && i.imm in ids then ids[i.imm] else i.imm
  {
  }

  /** A program is relocated whole if and only if every such slot's descriptor has an id that is not negative. */
  lemma AllKnownIff(code: seq<Insn>, ids: map<int, int>)
    ensures KnownFrom(code, 0, ids) == |code| <==>
            forall k :: 0 <= k < |code| && code[k].opcode == 0x18 && code[k].src in {1, 2} ==>
              code[k].imm in ids && ids[code[k].imm] >= 0
  {
    var n := KnownFrom(code, 0, ids);
    if n < |code| { assert code[n].opcode == 0x18 && code[n].src in {1, 2}; }
  }

  // ---------------------------------------------------------------- slots and instructions

  /** How many slots the instruction at i takes. */
  function Width(code: seq<Insn>, i: nat): nat
    requires i < |code|
  {
    if code[i].opcode == LDDW && i + 1 < |code| then 2 else 1
  }

  /** The program relocated instruction by instruction, so that second slots are skipped. */
  function RelocatedFrom(code: seq<Insn>, i: nat, ids: map<int, int>): (r: seq<Insn>)
    requires i <= |code|
    ensures |r| == |code| - i
    decreases |code| - i
  {
    if i == |code| then []
    else [RelocatedSlot(code[i], ids)] + code[i + 1..i + Width(code, i)] + RelocatedFrom(code, i + Width(code, i), ids)
  }

  /** No second slot, as instructions are decoded from i on, looks like a map reference itself. */
  predicate NoHiddenRefs(code: seq<Insn>, i: nat)
    requires i <= |code|
    decreases |code| - i
  {
    i == |code| || ((Width(code, i) == 2 ==> !IsMapRef(code[i + 1])) && NoHiddenRefs(code, i + Width(code, i)))
  }

  lemma UnreferencedStays(i: Insn, ids: map<int, int>)
    requires !IsMapRef(i)
    ensures RelocatedSlot(i, ids) == i
  {
  }

  lemma {:induction false} SlotsAreInstructions(code: seq<Insn>, i: nat, ids: map<int, int>)
    requires i <= |code| && NoHiddenRefs(code, i)
    ensures RelocatedFrom(code, i, ids) == Relocated(code, ids)[i..]
    decreases |code| - i
  {
    if i < |code| {
      var w, all, from := Width(code, i), Relocated(code, ids), RelocatedFrom(code, i, ids);
      SlotsAreInstructions(code, i + w, ids);
      hide Relocated, RelocatedSlot;
      forall k | 0 <= k < |code| - i
        ensures from[k] == all[i..][k]
      {
        if k >= w {
          assert from[k] == RelocatedFrom(code, i + w, ids)[k - w] == all[i + w..][k - w];
        } else if k == 1 {
          UnreferencedStays(code[i + 1], ids);
        }
      }
    }
  }

  lemma {:induction false} HiddenRefDiffers(code: seq<Insn>, i: nat) returns (ids: map<int, int>)
    requires i <= |code| && !NoHiddenRefs(code, i)
    ensures RelocatedFrom(code, i, ids) != Relocated(code, ids)[i..]
    decreases |code| - i
  {
    var w := Width(code, i);
    if w == 2 && IsMapRef(code[i + 1]) {
      ids := map[code[i + 1].imm := code[i + 1].imm + 1];
      var all, from := Relocated(code, ids), RelocatedFrom(code, i, ids);
      assert from[1] == code[i + 1];
      assert all[i..][1] == all[i + 1] == RelocatedSlot(code[i + 1], ids);
    } else {
      ids := HiddenRefDiffers(code, i + w);
      assert RelocatedFrom(code, i, ids)[w..] == RelocatedFrom(code, i + w, ids);
      assert Relocated(code, ids)[i..][w..] == Relocated(code, ids)[i + w..];
    }
  }

  /** Working slot by slot is the same as working instruction by instruction, whatever the ids are, exactly when no
      second slot of a wide load looks like a map reference. */
  lemma SlotwiseIff(code: seq<Insn>)
    ensures (forall ids :: Relocated(code, ids) == RelocatedFrom(code, 0, ids)) <==> NoHiddenRefs(code, 0)
  {
    if NoHiddenRefs(code, 0) {
      forall ids
        ensures Relocated(code, ids) == RelocatedFrom(code, 0, ids)
      {
        SlotsAreInstructions(code, 0, ids);
      }
    } else {
      var ids := HiddenRefDiffers(code, 0);
      assert Relocated(code, ids)[0..] == Relocated(code, ids);
    }
  }

  /** Programs the compiler accepts have blank second slots, so nothing is hidden in them. */
  predicate BlankSecondSlots(code: seq<Insn>, i: nat)
    requires i <= |code|
    decreases |code| - i
  {
    i == |code| || ((Width(code, i) == 2 ==> IsSecondSlot(code[i + 1])) && BlankSecondSlots(code, i + Width(code, i)))
  }

  lemma {:induction false} AcceptedHidesNothing(code: seq<Insn>, i: nat)
    requires i <= |code| && BlankSecondSlots(code, i)
    ensures NoHiddenRefs(code, i)
    decreases |code| - i
  {
    if i < |code| { AcceptedHidesNothing(code, i + Width(code, i)); }
  }

  // ---------------------------------------------------------------- map pointers

  const INVALID_MAP_PTR: nat := 0xffff_ffff_ffff_ffff

  /** The maps of the shared memory, by id. */
  type Table = map<int, nat>

  /** The pointer a program gets for a map id. */
  function MapPtr(table: Table, id: nat): (p: nat)
    requires id < TWO32
    ensures p < TWO64
  {
    if S32(id) in table then id * TWO32 + 0xffff_ffff else INVALID_MAP_PTR
  }

  /** The map a helper finds behind a pointer. */
  function MapBehind(table: Table, p: nat): Option<nat> {
    var fd := S32(p / TWO32);
    if fd >= 0 && fd in table then Some(table[fd]) else None
  }

  /** A map's pointer has the id in its upper half and ones in its lower. */
  lemma PointerIs(table: Table, id: nat)
    requires id < TWO32 && S32(id) in table
    ensures MapPtr(table, id) / 0x1_0000_0000 == id && MapPtr(table, id) % 0x1_0000_0000 == 0xffff_ffff
  {
    ModUnique(MapPtr(table, id), TWO32, id, 0xffff_ffff);
  }

  /** Helpers find behind a map's pointer exactly that map, and no map behind the pointer of an id that has none. */
  lemma PointerRoundTrip(table: Table, id: nat)
    requires id < TWO32 && forall k :: k in table ==> k >= 0
    ensures MapBehind(table, MapPtr(table, id)) ==
            if id in table && id < TWO31 then Some(table[id]) else None
  {
    var p := MapPtr(table, id);
    if S32(id) in table {
      ModUnique(p, TWO32, id, 0xffff_ffff);
    } else {
      ModUnique(p, TWO32, 0xffff_ffff, 0xffff_ffff);
      assert S32(0xffff_ffff) == -1;
    }
  }
}
