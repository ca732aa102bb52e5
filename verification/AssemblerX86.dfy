/** Jumps and label binding of the x86 integrated assemblers. */
module AssemblersX86 {
  import opened Bytes
  import opened BranchEncoding
  import opened BranchLinking
  import opened AssemblerBuffers
  import opened Assemblers

  /** The condition codes an x86 branch opcode has room for. */
  type BrCond = c: nat | c < 16

  /** First loop of `bind`: follows the chain through the code, overwriting each link. */
  method PatchChain(l: Label, buffer: AssemblerBuffer, ghost words: seq<nat>)
    requires buffer.Valid()
    requires forall i :: 0 <= i < |words| ==> words[i] + 4 <= buffer.cursor
    requires forall i, j :: 0 <= i < j < |words| ==> words[i] + 4 <= words[j]
    requires Chain(X86, buffer.View(), l.position, words)
    modifies l`position, buffer.contents
    ensures buffer.Valid() && l.position == 0
    ensures buffer.View() == PatchWords(X86, old(buffer.View()), words, buffer.cursor)
  {
    hide Load32, Store32, PatchWord, Chain, PatchWords;
    var bound := buffer.cursor;
    ghost var rest := words;
    while l.IsLinked()
      invariant buffer.Valid() && |rest| <= |words| && rest == words[..|rest|]
      invariant Chain(X86, buffer.View(), l.position, rest)
      invariant PatchWords(X86, buffer.View(), rest, bound) == PatchWords(X86, old(buffer.View()), words, bound)
      decreases |rest|
    {
      PatchHead(X86, buffer.View(), l.position, rest, bound);
      var p := l.GetLinkPosition();
      var w := buffer.Read32(p);
      var next := Signed32(w);
      var offset := bound - (p + 4);
      X86Displacement(p, bound, w);
      buffer.Write32(p, offset % 0x1_0000_0000);
      l.SetPosition(next);
      rest := rest[..|rest| - 1];
    }
    ChainEnds(X86, buffer.View(), l.position, rest, bound);
  }

  /** Second loop of `bind`: the one-byte slots, the latest first. */
  method PatchNearSlots(l: Label, buffer: AssemblerBuffer)
    requires buffer.Valid()
    requires forall i :: 0 <= i < |l.near| ==> l.near[i] < buffer.cursor
    modifies l`near, buffer.contents
    ensures buffer.Valid() && l.near == []
    ensures buffer.View() == PatchNear(old(buffer.View()), old(l.near), buffer.cursor)
  {
    var bound := buffer.cursor;
    while l.near != []
      invariant buffer.Valid() && |l.near| <= |old(l.near)| && l.near == old(l.near)[..|l.near|]
      invariant PatchNear(buffer.View(), l.near, bound) == PatchNear(old(buffer.View()), old(l.near), bound)
      decreases |l.near|
    {
      var p := l.PopNearPosition();
      var offset := bound - (p + 1);
      buffer.Write8(p, offset % 0x100);
    }
  }

  /** Writes the current position into every slot waiting for the label and places it there. */
  method BindLabel(asm: Assembler, n: nat)
    requires asm.Valid() && asm.arch == X86 && asm.HasLabel(n) && !asm.preliminary
    requires Allowed(X86, asm.world, Bind(n))
    modifies asm`world, asm.labels[n], asm.buffer.contents
    ensures asm.Valid() && asm.world == Step(X86, old(asm.world), Bind(n))
    ensures asm.labels[n].Value() == BoundLabel(old(asm.buffer.cursor))
  {
    hide PatchWords, PatchNear, Chain, TextKept, Lands, WordAligned, Slots;
    var l: Label := asm.labels[n];
    var bound := asm.buffer.cursor;
    ghost var sites := asm.world.sites;
    assert LabelSound(X86, asm.world, n) && l.Value() == asm.LabelAt(n);
    SlotsFit(X86, sites, n, bound);
    SlotsAscend(X86, sites, n, false, bound);
    PatchChain(l, asm.buffer, Slots(sites, n, false));
    PatchNearSlots(l, asm.buffer);
    l.BindTo(bound);
    forall m: nat ensures asm.LabelAt(m) == Step(X86, asm.world, Bind(n)).LabelOf(m) {
      assert asm.world.LabelOf(m) == old(asm.LabelAt(m));
      if m != n {
        assert asm.LabelAt(m) == old(asm.LabelAt(m));
      }
    }
    asm.Commit(Bind(n));
  }

  lemma X86Displacement(p: int, bound: int, w: uint32)
    ensures PatchWord(X86, p, bound, w) == (bound - (p + 4)) % 0x1_0000_0000
  {
  }

  /** The step a jump with these opcodes is: short or long by distance to a bound label, near or far
      as the caller asks to an unplaced one. */
  function JumpOp(w: World, short: seq<byte>, long: seq<byte>, n: nat, near: bool): Op {
    var lab := w.LabelOf(n);
    var narrow := IsShort(lab, short, near, |w.code|);
    Branch(if narrow then short else long, narrow, 0, [], n)
  }

  predicate IsShort(lab: LabelValue, short: seq<byte>, near: bool, at: nat) {
    if lab.IsBound() then IsInt8(lab.BoundAt() - at - (|short| + 1)) else near
  }

  /** The size of a jump at a position, the same in a preliminary pass. */
  function JumpSize(lab: LabelValue, short: seq<byte>, long: seq<byte>, near: bool, at: nat): nat {
    if IsShort(lab, short, near, at) then |short| + 1 else |long| + 4
  }

  /** A jump is allowed wherever the buffer has not reached 2 GB. */
  lemma JumpAllowed(w: World, short: seq<byte>, long: seq<byte>, n: nat, near: bool)
    requires Sound(X86, w) && |w.code| + MINIMUM_GAP < 0x8000_0000
    requires JumpOpcode(short, true) && JumpOpcode(long, false)
    ensures Allowed(X86, w, JumpOp(w, short, long, n, near))
  {
    hide Chain, Lands, Slots;
    assert LabelSound(X86, w, n);
    if !w.LabelOf(n).IsBound() {
      HeadPosition(X86, w, n);
    }
  }

  method EmitLabelLink(l: Label, buffer: AssemblerBuffer, preliminary: bool)
    requires buffer.Valid() && buffer.Room() >= 4 && !l.IsBound()
    modifies l`position, buffer`cursor, buffer.contents
    ensures buffer.Valid() && buffer.contents == old(buffer.contents)
    ensures buffer.View() == old(buffer.View()) + Bytes32(LinkWord(X86, old(buffer.cursor), old(l.position), 0))
    ensures l.Value() == if preliminary then old(l.Value()) else Linked(old(buffer.cursor), old(l.Value()), false)
  {
    var position := buffer.cursor;
    buffer.Emit32(l.position % 0x1_0000_0000);
    l.LinkTo(preliminary, false, position);
  }

  method EmitNearLabelLink(l: Label, buffer: AssemblerBuffer, preliminary: bool)
    requires buffer.Valid() && buffer.Room() >= 1 && !l.IsBound()
    modifies l`near, buffer`cursor, buffer.contents
    ensures buffer.Valid() && buffer.contents == old(buffer.contents)
    ensures buffer.View() == old(buffer.View()) + [0]
    ensures l.Value() == if preliminary then old(l.Value()) else Linked(old(buffer.cursor), old(l.Value()), true)
  {
    var position := buffer.cursor;
    buffer.Emit8(0);
    l.NearLinkTo(preliminary, position);
  }

  /** A jump back to a bound label, as short as the distance allows. */
  method EmitBackward(l: Label, buffer: AssemblerBuffer, short: seq<byte>, long: seq<byte>)
    requires buffer.Valid() && buffer.Room() >= MINIMUM_GAP && |short| == 1 && 1 <= |long| <= 2 && l.IsBound()
    modifies buffer`cursor, buffer.contents
    ensures buffer.Valid() && buffer.contents == old(buffer.contents)
    ensures var bound, size := l.Value().BoundAt(), old(buffer.cursor);
            buffer.View() == old(buffer.View()) +
              if IsInt8(bound - size - (|short| + 1)) then short + [NearField(size + |short|, bound)]
              else long + Bytes32(PatchWord(X86, size + |long|, bound, 0))
  {
    hide Bytes32;
    var shortSize, longSize := |short| + 1, |long| + 4;
    var bound := l.GetPosition();
    var offset := bound - buffer.cursor;
    if IsInt8(offset - shortSize) {
      buffer.EmitBytes(short);
      buffer.Emit8((offset - shortSize) % 0x100);
    } else {
      buffer.EmitBytes(long);
      buffer.Emit32((offset - longSize) % 0x1_0000_0000);
    }
  }

  /** Emits a jump's bytes and links its label. */
  method EmitJump(l: Label, buffer: AssemblerBuffer, preliminary: bool, short: seq<byte>, long: seq<byte>, near: bool, ghost w: World, ghost n: nat)
    requires buffer.Valid() && buffer.Room() >= MINIMUM_GAP && |short| == 1 && 1 <= |long| <= 2
    requires preliminary || (w.code == buffer.View() && w.LabelOf(n) == l.Value())
    modifies l, buffer`cursor, buffer.contents
    ensures buffer.Valid() && buffer.contents == old(buffer.contents)
    ensures old(buffer.View()) <= buffer.View()
    ensures buffer.cursor == old(buffer.cursor) + JumpSize(old(l.Value()), short, long, near, old(buffer.cursor))
    ensures preliminary ==> l.Value() == old(l.Value())
    ensures !preliminary ==>
              var op := JumpOp(w, short, long, n, near);
              var slot := |w.code| + |op.pre|;
              && buffer.View() == w.code + (op.pre + Field(X86, slot, w.LabelOf(n), op.narrow, 0) + [])
              && l.Value() == Linked(slot, w.LabelOf(n), op.narrow)
  {
    hide Bytes32, LinkWord, PatchWord, NearField;
    if l.IsBound() {
      EmitBackward(l, buffer, short, long);
    } else if near {
      buffer.EmitBytes(short);
      EmitNearLabelLink(l, buffer, preliminary);
    } else {
      buffer.EmitBytes(long);
      EmitLabelLink(l, buffer, preliminary);
    }
  }

  method Jump(asm: Assembler, short: seq<byte>, long: seq<byte>, n: nat, near: bool)
    requires asm.Valid() && asm.arch == X86 && asm.HasLabel(n)
    requires asm.buffer.cursor + MINIMUM_GAP < 0x8000_0000
    requires JumpOpcode(short, true) && JumpOpcode(long, false)
    modifies asm`world, asm.labels[n], asm.buffer, asm.buffer.contents
    ensures asm.Valid() && fresh(asm.Repr() - old(asm.Repr())) && asm.preliminary == old(asm.preliminary)
    ensures asm.world == if asm.preliminary then old(asm.world) else Step(X86, old(asm.world), JumpOp(old(asm.world), short, long, n, near))
    ensures asm.buffer.cursor == old(asm.buffer.cursor) + JumpSize(old(asm.world.LabelOf(n)), short, long, near, old(asm.buffer.cursor))
  {
    hide Chain, TextKept, Lands, WordAligned, Slots, Allowed, LabelSound, Field, PatchNear, PatchWords;
    var l: Label := asm.labels[n];
    ghost var w := asm.world;
    assert w.LabelOf(n) == asm.LabelAt(n);
    asm.buffer.EnsureCapacity();
    EmitJump(l, asm.buffer, asm.preliminary, short, long, near, w, n);
    ghost var op := JumpOp(w, short, long, n, near);
    forall m: nat ensures asm.LabelAt(m) == (if asm.preliminary then w else Step(X86, w, op)).LabelOf(m) {
      assert w.LabelOf(m) == old(asm.LabelAt(m));
      if m != n {
        assert asm.LabelAt(m) == old(asm.LabelAt(m));
      }
    }
    if !asm.preliminary {
      JumpAllowed(w, short, long, n, near);
      asm.Commit(op);
    }
  }

  /** The conditional jump. */
  method J(asm: Assembler, condition: BrCond, n: nat, near: bool)
    requires asm.Valid() && asm.arch == X86 && asm.HasLabel(n)
    requires asm.buffer.cursor + MINIMUM_GAP < 0x8000_0000
    modifies asm`world, asm.labels[n], asm.buffer, asm.buffer.contents
    ensures asm.Valid() && fresh(asm.Repr() - old(asm.Repr())) && asm.preliminary == old(asm.preliminary)
    ensures asm.world == if asm.preliminary then old(asm.world)
                         else Step(X86, old(asm.world), JumpOp(old(asm.world), [0x70 + condition], [0x0F, 0x80 + condition], n, near))
    ensures asm.buffer.cursor == old(asm.buffer.cursor)
            + JumpSize(old(asm.world.LabelOf(n)), [0x70 + condition], [0x0F, 0x80 + condition], near, old(asm.buffer.cursor))
  {
    Jump(asm, [0x70 + condition], [0x0F, 0x80 + condition], n, near);
  }

  /** The unconditional jump. */
  method Jmp(asm: Assembler, n: nat, near: bool)
    requires asm.Valid() && asm.arch == X86 && asm.HasLabel(n)
    requires asm.buffer.cursor + MINIMUM_GAP < 0x8000_0000
    modifies asm`world, asm.labels[n], asm.buffer, asm.buffer.contents
    ensures asm.Valid() && fresh(asm.Repr() - old(asm.Repr())) && asm.preliminary == old(asm.preliminary)
    ensures asm.world == if asm.preliminary then old(asm.world)
                         else Step(X86, old(asm.world), JumpOp(old(asm.world), [0xEB], [0xE9], n, near))
    ensures asm.buffer.cursor == old(asm.buffer.cursor)
            + JumpSize(old(asm.world.LabelOf(n)), [0xEB], [0xE9], near, old(asm.buffer.cursor))
  {
    Jump(asm, [0xEB], [0xE9], n, near);
  }
}
