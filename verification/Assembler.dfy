/** The part of an assembler that the three instruction sets share: the buffer, the labels, the
    preliminary pass, and the world the whole run has built so far. */
module Assemblers {
  import opened Bytes
  import opened BranchEncoding
  import opened BranchLinking
  import opened AssemblerBuffers

  class Label {
    var position: int
    /** One-byte slots waiting for the label; only x86 has them. */
    var near: seq<nat>

    ghost function Value(): LabelValue
      reads this
    {
      LabelValue(position, near)
    }

    constructor ()
      ensures Value() == UNUSED
    {
      position := 0;
      near := [];
    }

    function IsBound(): bool
      reads this
    {
      position < 0
    }

    function IsLinked(): bool
      reads this
    {
      position > 0
    }

    /** The position of a bound label. */
    method GetPosition() returns (p: int)
      requires IsBound()
      ensures p == Value().BoundAt()
    {
      p := -position - WORD_SIZE;
    }

    /** The slot of the latest branch linked to the label. */
    method GetLinkPosition() returns (p: int)
      requires IsLinked()
      ensures p + WORD_SIZE == position
    {
      p := position - WORD_SIZE;
    }

    method SetPosition(newValue: int)
      modifies this`position
      ensures position == newValue
    {
      position := newValue;
    }

    /** Links in the final pass only, and not for an instruction that is to be emitted as text. */
    method LinkTo(preliminary: bool, needsTextFixup: bool, p: nat)
      requires !(preliminary || needsTextFixup) ==> !IsBound()
      modifies this`position
      ensures Value() == if preliminary || needsTextFixup then old(Value()) else Linked(p, old(Value()), false)
    {
      if preliminary || needsTextFixup {
        return;
      }
      position := p + WORD_SIZE;
    }

    method NearLinkTo(preliminary: bool, p: nat)
      requires !preliminary ==> !IsBound()
      modifies this`near
      ensures Value() == if preliminary then old(Value()) else Linked(p, old(Value()), true)
    {
      if preliminary {
        return;
      }
      near := near + [p];
    }

    method PopNearPosition() returns (p: nat)
      requires near != []
      modifies this`near
      ensures old(near) == near + [p]
    {
      p := near[|near| - 1];
      near := near[..|near| - 1];
    }

    method BindTo(p: nat)
      requires !IsBound() && near == []
      modifies this`position
      ensures Value() == BoundLabel(p)
    {
      position := -(p as int) - WORD_SIZE;
    }
  }

  class Assembler {
    const arch: Arch
    const buffer: AssemblerBuffer
    var labels: seq<Label?>
    var fixups: seq<nat>
    /** Set while a bundle is emitted only to be measured; nothing but the buffer may change then. */
    var preliminary: bool
    /** Everything committed by the run so far. */
    ghost var world: World

    ghost function Repr(): set<object?>
      reads this, buffer
    {
      {this, buffer, buffer.contents} + set i | 0 <= i < |labels| && labels[i] != null :: labels[i]
    }

    predicate HasLabel(n: nat)
      reads this
    {
      n < |labels| && labels[n] != null
    }

    /** What the label objects hold. */
    ghost function LabelAt(n: nat): LabelValue
      reads this, set i | 0 <= i < |labels| :: labels[i]
    {
      if HasLabel(n) then labels[n].Value() else UNUSED
    }

    ghost predicate LabelsMirror(w: World)
      reads this, set i | 0 <= i < |labels| :: labels[i]
    {
      && (forall i, j :: 0 <= i < j < |labels| && labels[i] != null ==> labels[i] != labels[j])
      && (forall n: nat :: w.LabelOf(n) == LabelAt(n))
      && w.fixups == fixups
    }

    ghost predicate Valid()
      reads this, buffer, buffer.contents, set i | 0 <= i < |labels| :: labels[i]
    {
      && buffer.Valid()
      && Sound(arch, world)
      && LabelsMirror(world)
      && (if preliminary then world.code <= buffer.View() else world.code == buffer.View())
    }

    constructor (arch: Arch)
      ensures Valid() && fresh(Repr()) && this.arch == arch && !preliminary && world == EMPTY_WORLD && labels == []
    {
      this.arch := arch;
      buffer := new AssemblerBuffer();
      labels, fixups, preliminary, world := [], [], false, EMPTY_WORLD;
    }

    /** The label of a number, made on first use. */
    method GetOrCreateLabel(n: nat) returns (l: Label)
      requires Valid()
      modifies this`labels
      ensures Valid() && fresh(Repr() - old(Repr())) && HasLabel(n) && labels[n] == l
      ensures forall m: nat :: old(HasLabel(m)) ==> HasLabel(m) && labels[m] == old(labels[m])
    {
      if n >= |labels| {
        labels := labels + seq(n + 1 - |labels|, _ => null);
      }
      if labels[n] == null {
        var created := new Label();
        labels := labels[n := created];
      }
      l := labels[n];
      assert forall m: nat :: LabelAt(m) == old(LabelAt(m));
      assert LabelsMirror(world);
    }

    /** Records one finished step of the run. */
    ghost method Commit(op: Op)
      requires buffer.Valid() && Sound(arch, world) && Allowed(arch, world, op)
      requires !preliminary && buffer.View() == Step(arch, world, op).code && LabelsMirror(Step(arch, world, op))
      modifies this`world
      ensures Valid() && world == Step(arch, old(world), op)
    {
      StepSound(arch, world, op);
      world := Step(arch, world, op);
    }

    /** Any instruction without a label: at most 32 bytes. */
    method EmitInst(bytes: seq<byte>)
      requires Valid() && |bytes| <= MINIMUM_GAP
      requires !preliminary ==> Allowed(arch, world, Raw(bytes))
      modifies this`world, buffer, buffer.contents
      ensures Valid() && fresh(Repr() - old(Repr())) && preliminary == old(preliminary) && labels == old(labels)
      ensures buffer.View() == old(buffer.View()) + bytes
      ensures world == if preliminary then old(world) else Step(arch, old(world), Raw(bytes))
    {
      buffer.EnsureCapacity();
      buffer.EmitBytes(bytes);
      if !preliminary {
        assert forall n: nat :: LabelAt(n) == old(LabelAt(n)) && Step(arch, world, Raw(bytes)).LabelOf(n) == world.LabelOf(n);
        Commit(Raw(bytes));
      }
    }

    /** An instruction with a relocated word in it, which an immediate may follow. */
    method EmitReloc(opcode: seq<byte>, post: seq<byte>)
      requires Valid() && |opcode| + 4 + |post| <= MINIMUM_GAP
      requires !preliminary ==> Allowed(arch, world, Reloc(opcode + Bytes32(0) + post, |opcode|))
      modifies this`world, this`fixups, buffer, buffer.contents
      ensures Valid() && fresh(Repr() - old(Repr())) && preliminary == old(preliminary) && labels == old(labels)
      ensures buffer.View() == old(buffer.View()) + (opcode + Bytes32(0) + post)
      ensures world == if preliminary then old(world) else Step(arch, old(world), Reloc(opcode + Bytes32(0) + post, |opcode|))
    {
      hide TextKept, LabelSound, WordAligned, Load32, Bytes32, Allowed;
      ghost var op := Reloc(opcode + Bytes32(0) + post, |opcode|);
      var position := buffer.EmitAround(opcode, post);
      // install the fixup at the word
      if !preliminary {
        fixups := fixups + [position];
      }
      if !preliminary {
        assert forall n: nat :: LabelAt(n) == old(LabelAt(n)) && Step(arch, world, op).LabelOf(n) == world.LabelOf(n);
        Commit(op);
      }
    }

    /** Starts a preliminary pass at the current position. */
    method EnterBundle() returns (snapshot: nat)
      requires Valid() && !preliminary
      modifies this`preliminary
      ensures Valid() && preliminary && snapshot == |world.code|
    {
      snapshot := buffer.cursor;
      preliminary := true;
    }

    /** Ends it.  Whatever was emitted in between, the run is where it was. */
    method Rollback(snapshot: nat)
      requires Valid() && preliminary && snapshot == |world.code|
      modifies this`preliminary, buffer
      ensures Valid() && !preliminary && buffer.View() == world.code && fresh(Repr() - old(Repr()))
    {
      buffer.SetSize(snapshot);
      preliminary := false;
    }
  }
}
