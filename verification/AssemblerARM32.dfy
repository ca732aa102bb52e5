/** The branch and label binding of the ARM32 integrated assembler. */
module AssemblersARM32 {
  import opened Bytes
  import opened BranchEncoding
  import opened BranchLinking
  import opened AssemblerBuffers
  import opened Assemblers

  /** Condition codes up to AL; the source asserts the condition is defined. */
  type Cond = c: nat | c < 15

  /** cccc101l followed by an empty 24-bit field. */
  function BranchWord(cond: Cond, link: bool): uint32 {
    cond * 0x1000_0000 + 5 * 0x200_0000 + (if link then 0x100_0000 else 0)
  }

  function BranchOp(cond: Cond, link: bool, n: nat): Op {
    Branch([], false, BranchWord(cond, link), [], n)
  }

  /** The branch instruction with an offset already known or standing for a link. */
  method EmitType05(buffer: AssemblerBuffer, cond: Cond, offset: int, link: bool)
    requires buffer.Valid()
    modifies buffer, buffer.contents
    ensures buffer.Valid() && (buffer.contents == old(buffer.contents) || fresh(buffer.contents))
    ensures buffer.View() == old(buffer.View()) + Bytes32(ArmEncode(offset, BranchWord(cond, link)))
  {
    var encoding := ArmEncode(offset, BranchWord(cond, link));
    buffer.EnsureCapacity();
    buffer.Emit32(encoding);
  }

  method EmitBranch(asm: Assembler, n: nat, cond: Cond, link: bool)
    requires asm.Valid() && asm.arch == ARM32 && asm.HasLabel(n)
    requires !asm.preliminary ==> Allowed(ARM32, asm.world, BranchOp(cond, link, n))
    modifies asm`world, asm.labels[n], asm.buffer, asm.buffer.contents
    ensures asm.Valid() && fresh(asm.Repr() - old(asm.Repr())) && asm.preliminary == old(asm.preliminary)
    ensures asm.world == if asm.preliminary then old(asm.world) else Step(ARM32, old(asm.world), BranchOp(cond, link, n))
    ensures asm.buffer.cursor == old(asm.buffer.cursor) + 4
  {
    hide Chain, TextKept, Lands, WordAligned, Slots, Allowed, LabelSound, PatchNear, PatchWords, Bytes32, ArmEncode, BranchWord;
    var l: Label := asm.labels[n];
    ghost var w, op := asm.world, BranchOp(cond, link, n);
    assert w.LabelOf(n) == asm.LabelAt(n);
    var position := asm.buffer.cursor;
    if l.IsBound() {
      var bound := l.GetPosition();
      var dest := bound - position;
      EmitType05(asm.buffer, cond, dest, link);
    } else {
      EmitType05(asm.buffer, cond, l.position, link);
      l.LinkTo(asm.preliminary, false, position);
    }
    forall m: nat ensures asm.LabelAt(m) == (if asm.preliminary then w else Step(ARM32, w, op)).LabelOf(m) {
      assert w.LabelOf(m) == old(asm.LabelAt(m));
      if m != n {
        assert asm.LabelAt(m) == old(asm.LabelAt(m));
      }
    }
    if !asm.preliminary {
      assert asm.buffer.View() == Step(ARM32, w, op).code;
      asm.Commit(op);
    }
  }

  /** The loop of `bind`: each word's field is read for the next link before it is overwritten. */
  method PatchChain(l: Label, buffer: AssemblerBuffer, ghost words: seq<nat>)
    requires buffer.Valid()
    requires forall i :: 0 <= i < |words| ==> words[i] + 4 <= buffer.cursor
    requires forall i, j :: 0 <= i < j < |words| ==> words[i] + 4 <= words[j]
    requires Chain(ARM32, buffer.View(), l.position, words)
    modifies l`position, buffer.contents
    ensures buffer.Valid() && l.position == 0
    ensures buffer.View() == PatchWords(ARM32, old(buffer.View()), words, buffer.cursor)
  {
    hide Load32, Store32, ArmEncode, ArmDecode, Chain, PatchWords;
    var boundPc := buffer.cursor;
    ghost var rest := words;
    while l.IsLinked()
      invariant buffer.Valid() && |rest| <= |words| && rest == words[..|rest|]
      invariant Chain(ARM32, buffer.View(), l.position, rest)
      invariant PatchWords(ARM32, buffer.View(), rest, boundPc) == PatchWords(ARM32, old(buffer.View()), words, boundPc)
      decreases |rest|
    {
      PatchHead(ARM32, buffer.View(), l.position, rest, boundPc);
      var position := l.GetLinkPosition();
      var dest := boundPc - position;
      var inst := buffer.Read32(position);
      buffer.Write32(position, ArmEncode(dest, inst));
      l.SetPosition(ArmDecode(inst));
      rest := rest[..|rest| - 1];
    }
    ChainEnds(ARM32, buffer.View(), l.position, rest, boundPc);
  }

  method BindLabel(asm: Assembler, n: nat)
    requires asm.Valid() && asm.arch == ARM32 && asm.HasLabel(n) && !asm.preliminary
    requires Allowed(ARM32, asm.world, Bind(n))
    modifies asm`world, asm.labels[n], asm.buffer.contents
    ensures asm.Valid() && asm.world == Step(ARM32, old(asm.world), Bind(n))
    ensures asm.labels[n].Value() == BoundLabel(old(asm.buffer.cursor))
  {
    hide PatchWords, Chain, TextKept, Lands, Slots;
    var l: Label := asm.labels[n];
    var boundPc := asm.buffer.cursor;
    ghost var sites := asm.world.sites;
    assert LabelSound(ARM32, asm.world, n) && l.Value() == asm.LabelAt(n);
    SlotsFit(ARM32, sites, n, boundPc);
    SlotsAscend(ARM32, sites, n, false, boundPc);
    NoNearSlots(sites, n);
    PatchChain(l, asm.buffer, Slots(sites, n, false));
    l.BindTo(boundPc);
    forall m: nat ensures asm.LabelAt(m) == Step(ARM32, asm.world, Bind(n)).LabelOf(m) {
      assert asm.world.LabelOf(m) == old(asm.LabelAt(m));
      if m != n {
        assert asm.LabelAt(m) == old(asm.LabelAt(m));
      }
    }
    asm.Commit(Bind(n));
  }
}
