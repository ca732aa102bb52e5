/** The branches and label binding of the MIPS32 integrated assembler. */
module AssemblersMIPS32 {
  import opened Bytes
  import opened BranchEncoding
  import opened BranchLinking
  import opened AssemblerBuffers
  import opened Assemblers

  /** The conditions `emitBr` has an opcode for. */
  datatype Cond = AL | EQ | EQZ | NE | NEZ | LEZ | LTZ | GEZ | GTZ

  type Register = r: nat | r < 32

  function OpcodeOf(cond: Cond): uint32 {
    match cond
    case AL | EQ | EQZ => 0x1000_0000
    case NE | NEZ => 0x1400_0000
    case LEZ => 0x1800_0000
    case LTZ => 0x0400_0000
    case GEZ => 0x0401_0000
    case GTZ => 0x1C00_0000
  }

  /** The opcode with its registers or-ed in; the opcode of GEZ already has the low bit of Rt. */
  function BranchWord(cond: Cond, rs: Register, rt: Register): uint32 {
    OpcodeOf(cond) + rs * 0x20_0000 + (if cond.GEZ? && rt % 2 == 1 then rt - 1 else rt) * 0x1_0000
  }

  const NOP: uint32 := 0

  function BranchOp(cond: Cond, rs: Register, rt: Register, n: nat): Op {
    Branch([], false, BranchWord(cond, rs, rt), [0, 0, 0, 0], n)
  }

  method EmitInst(buffer: AssemblerBuffer, w: uint32)
    requires buffer.Valid()
    modifies buffer, buffer.contents
    ensures buffer.Valid() && (buffer.contents == old(buffer.contents) || fresh(buffer.contents))
    ensures buffer.View() == old(buffer.View()) + Bytes32(w)
  {
    buffer.EnsureCapacity();
    buffer.Emit32(w);
  }

  /** The branch and the nop in its delay slot. */
  method EmitBr(buffer: AssemblerBuffer, cond: Cond, rs: Register, rt: Register, offset: int)
    requires buffer.Valid()
    modifies buffer, buffer.contents
    ensures buffer.Valid() && (buffer.contents == old(buffer.contents) || fresh(buffer.contents))
    ensures buffer.View() == old(buffer.View()) + (Bytes32(MipsEncode(offset, BranchWord(cond, rs, rt))) + [0, 0, 0, 0])
  {
    var opcode := BranchWord(cond, rs, rt);
    EmitInst(buffer, MipsEncode(offset, opcode));
    EmitInst(buffer, NOP);
    assert Bytes32(NOP) == [0, 0, 0, 0];
  }

  /** The branch with the distance to a bound label, or a link that the label is left with. */
  method EmitTo(buffer: AssemblerBuffer, l: Label, preliminary: bool, cond: Cond, rs: Register, rt: Register)
    requires buffer.Valid()
    modifies buffer, buffer.contents, l
    ensures buffer.Valid() && (buffer.contents == old(buffer.contents) || fresh(buffer.contents))
    ensures buffer.View() == old(buffer.View()) + (Field(MIPS32, old(buffer.cursor), old(l.Value()), false, BranchWord(cond, rs, rt)) + [0, 0, 0, 0])
    ensures l.Value() == if preliminary then old(l.Value()) else Linked(old(buffer.cursor), old(l.Value()), false)
  {
    hide Bytes32, MipsEncode, BranchWord;
    var position := buffer.cursor;
    if l.IsBound() {
      var bound := l.GetPosition();
      var dest := bound - position;
      EmitBr(buffer, cond, rs, rt, dest);
    } else {
      var prevPosition := l.position;
      if prevPosition != 0 {
        prevPosition := position - prevPosition;
      }
      EmitBr(buffer, cond, rs, rt, prevPosition);
      l.LinkTo(preliminary, false, position);
    }
  }

  /** `b`, `bcc` and `bzc`, which differ only in the registers they name; 0 is none. */
  method BranchTo(asm: Assembler, cond: Cond, rs: Register, rt: Register, n: nat)
    requires asm.Valid() && asm.arch == MIPS32 && asm.HasLabel(n)
    requires !asm.preliminary ==> Allowed(MIPS32, asm.world, BranchOp(cond, rs, rt, n))
    modifies asm`world, asm.labels[n], asm.buffer, asm.buffer.contents
    ensures asm.Valid() && fresh(asm.Repr() - old(asm.Repr())) && asm.preliminary == old(asm.preliminary)
    ensures asm.world == if asm.preliminary then old(asm.world) else Step(MIPS32, old(asm.world), BranchOp(cond, rs, rt, n))
    ensures asm.buffer.cursor == old(asm.buffer.cursor) + 8
  {
    hide Chain, TextKept, Lands, WordAligned, Slots, Allowed, LabelSound, PatchNear, PatchWords, Field, Linked, BranchWord;
    ghost var w, op := asm.world, BranchOp(cond, rs, rt, n);
    assert w.LabelOf(n) == asm.LabelAt(n);
    EmitTo(asm.buffer, asm.labels[n], asm.preliminary, cond, rs, rt);
    forall m: nat ensures asm.LabelAt(m) == (if asm.preliminary then w else Step(MIPS32, w, op)).LabelOf(m) {
      assert w.LabelOf(m) == old(asm.LabelAt(m));
      if m != n {
        assert asm.LabelAt(m) == old(asm.LabelAt(m));
      }
    }
    if !asm.preliminary {
      assert asm.buffer.View() == Step(MIPS32, w, op).code;
      asm.Commit(op);
    }
  }

  /** The loop of `bind`: a decoded distance of 0 ends the chain, any other leads to the previous branch. */
  method PatchChain(l: Label, buffer: AssemblerBuffer, ghost words: seq<nat>)
    requires buffer.Valid()
    requires forall i :: 0 <= i < |words| ==> words[i] + 4 <= buffer.cursor
    requires forall i, j :: 0 <= i < j < |words| ==> words[i] + 4 <= words[j]
    requires Chain(MIPS32, buffer.View(), l.position, words)
    modifies l`position, buffer.contents
    ensures buffer.Valid() && l.position == 0
    ensures buffer.View() == PatchWords(MIPS32, old(buffer.View()), words, buffer.cursor)
  {
    hide Load32, Store32, MipsEncode, MipsDecode, Chain, PatchWords;
    var boundPc := buffer.cursor;
    ghost var rest := words;
    while l.IsLinked()
      invariant buffer.Valid() && |rest| <= |words| && rest == words[..|rest|]
      invariant Chain(MIPS32, buffer.View(), l.position, rest)
      invariant PatchWords(MIPS32, buffer.View(), rest, boundPc) == PatchWords(MIPS32, old(buffer.View()), words, boundPc)
      decreases |rest|
    {
      PatchHead(MIPS32, buffer.View(), l.position, rest, boundPc);
      var position := l.GetLinkPosition();
      var dest := boundPc - position;
      var inst := buffer.Read32(position);
      buffer.Write32(position, MipsEncode(dest, inst));
      var nextBrPc := MipsDecode(inst);
      if nextBrPc != 0 {
        nextBrPc := position - nextBrPc;
      }
      l.SetPosition(nextBrPc);
      rest := rest[..|rest| - 1];
    }
    ChainEnds(MIPS32, buffer.View(), l.position, rest, boundPc);
  }

  method BindLabel(asm: Assembler, n: nat)
    requires asm.Valid() && asm.arch == MIPS32 && asm.HasLabel(n) && !asm.preliminary
    requires Allowed(MIPS32, asm.world, Bind(n))
    modifies asm`world, asm.labels[n], asm.buffer.contents
    ensures asm.Valid() && asm.world == Step(MIPS32, old(asm.world), Bind(n))
    ensures asm.labels[n].Value() == BoundLabel(old(asm.buffer.cursor))
  {
    hide PatchWords, Chain, TextKept, Lands, Slots;
    var l: Label := asm.labels[n];
    var boundPc := asm.buffer.cursor;
    ghost var sites := asm.world.sites;
    assert LabelSound(MIPS32, asm.world, n) && l.Value() == asm.LabelAt(n);
    SlotsFit(MIPS32, sites, n, boundPc);
    SlotsAscend(MIPS32, sites, n, false, boundPc);
    NoNearSlots(sites, n);
    PatchChain(l, asm.buffer, Slots(sites, n, false));
    l.BindTo(boundPc);
    forall m: nat ensures asm.LabelAt(m) == Step(MIPS32, asm.world, Bind(n)).LabelOf(m) {
      assert asm.world.LabelOf(m) == old(asm.LabelAt(m));
      if m != n {
        assert asm.LabelAt(m) == old(asm.LabelAt(m));
      }
    }
    asm.Commit(Bind(n));
  }
}
