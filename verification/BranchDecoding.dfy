/** What a processor makes of the finished code at a branch: the instruction asked for, in the form asked
    for, going to where its label was placed (Intel SDM Vol. 2 "Jcc" and "JMP"; ARM ARM DDI 0406C section
    A8.8.18; the branches of the MIPS32 architecture). */
module BranchDecoding {
  import opened Bytes
  import opened BranchEncoding
  import opened BranchLinking
  import opened BranchRuns
  import opened AssemblersX86
  import opened Bundles
  import ARM = AssemblersARM32
  import MIPS = AssemblersMIPS32

  // --- x86 ---

  /** Condition codes are the low four bits of the opcode. */
  datatype X86Jump = NotAJump | Always(size: nat, target: int) | OnCondition(condition: int, size: nat, target: int)

  function DecodeX86(code: seq<byte>, at: nat): X86Jump {
    if at + 2 <= |code| && code[at] == 0xEB then X86Jump.Always(2, at + 2 + Signed8(code[at + 1]))
    else if at + 2 <= |code| && 0x70 <= code[at] < 0x80 then OnCondition(code[at] - 0x70, 2, at + 2 + Signed8(code[at + 1]))
    else if at + 5 <= |code| && code[at] == 0xE9 then X86Jump.Always(5, at + 5 + Signed32(Load32(code, at + 1)))
    else if at + 6 <= |code| && code[at] == 0x0F && 0x80 <= code[at + 1] < 0x90 then
      OnCondition(code[at + 1] - 0x80, 6, at + 6 + Signed32(Load32(code, at + 2)))
    else NotAJump
  }

  predicate IsJump(i: Inst) { i.Cond? || i.Always? }

  /** The run emits this jump as its step `i`. */
  ghost predicate JumpsAt(ops: seq<Op>, i: nat, jump: Inst) {
    && Program(X86, ops) && i < |ops| && Program(X86, ops[..i]) && IsJump(jump)
    && ops[i] == OpOf(Assembled(X86, ops[..i]), jump)
  }

  /** The jump as it should be decoded: short where a label behind it is near enough or where it was asked
      to be, long otherwise. */
  function Expected(jump: Inst, short: bool, to: int): X86Jump
    requires IsJump(jump)
  {
    if jump.Cond? then OnCondition(jump.condition, if short then 2 else 6, to) else X86Jump.Always(if short then 2 else 5, to)
  }

  /** In every x86 run the finished code at a jump decodes to that jump, with its condition, to where its
      label was placed.  To a label placed before, it is short exactly when 8 bits reach it; to one placed
      later, exactly when it was asked to be near. */
  lemma X86JumpDecodes(ops: seq<Op>, i: nat, j: nat, jump: Inst)
    requires JumpsAt(ops, i, jump) && j < |ops| && ops[j] == Bind(jump.target)
    ensures Program(X86, ops[..j])
    ensures var at, to := |Assembled(X86, ops[..i]).code|, |Assembled(X86, ops[..j]).code|;
            var short := if j < i then -0x80 <= to - (at + 2) < 0x80 else jump.near;
            DecodeX86(Assembled(X86, ops).code, at) == Expected(jump, short, to)
  {
    hide Sound, Step, Load32, Signed32, Signed8, IsShort, Lands, Allowed;
    BranchLands(X86, ops, i, j);
    AtStep(X86, ops, i);
    WhenPlaced(X86, ops, i, j, jump.target);
    var w := Assembled(X86, ops[..i]);
    ShortWhen(w, jump);
    PlainBytesStay(X86, ops, i, 0);
    if |ops[i].pre| == 2 { PlainBytesStay(X86, ops, i, 1); }
    JumpDecoded(Assembled(X86, ops).code, |w.code|, ops[i], jump, |Assembled(X86, ops[..j]).code|);
  }

  /** At a step the label is placed exactly when the binding came before. */
  lemma WhenPlaced(arch: Arch, ops: seq<Op>, i: nat, j: nat, l: nat)
    requires Program(arch, ops) && i < |ops| && j < |ops| && i != j && ops[j] == Bind(l)
    ensures Program(arch, ops[..i]) && Program(arch, ops[..j])
    ensures var lab := Assembled(arch, ops[..i]).LabelOf(l);
            (lab.IsBound() <==> j < i) && (j < i ==> lab.BoundAt() == |Assembled(arch, ops[..j]).code|)
  {
    hide Sound, Step, Allowed;
    AtStep(arch, ops, i);
    AtStep(arch, ops, j);
    if j < i {
      AtStep(arch, ops[..i], j);
      assert ops[..i][..j] == ops[..j];
      BindRecorded(arch, Assembled(arch, ops[..j]), l, Assembled(arch, ops[..i]));
    } else {
      RunsOn(arch, ops[..j], i);
      assert ops[..j][..i] == ops[..i];
      BoundOnce(arch, Assembled(arch, ops[..j]), l);
    }
  }

  lemma RunsOn(arch: Arch, ops: seq<Op>, i: nat)
    requires Program(arch, ops) && i <= |ops|
    ensures Program(arch, ops[..i]) && Extends(Assembled(arch, ops[..i]), Assembled(arch, ops))
  {
    hide LabelSound, TextKept, WordAligned, InOrder, Allowed, Step;
    EmptyWorldSound(arch);
    RunSplit(arch, EMPTY_WORLD, ops, i);
    RunExtends(arch, Assembled(arch, ops[..i]), ops[i..]);
  }

  lemma BoundOnce(arch: Arch, w: World, l: nat)
    requires Sound(arch, w) && Allowed(arch, w, Bind(l))
    ensures !w.LabelOf(l).IsBound()
  {
    hide Sound;
  }

  lemma ShortWhen(w: World, jump: Inst)
    requires IsJump(jump)
    ensures var op, lab := OpOf(w, jump), w.LabelOf(jump.target);
            && op.Branch? && op.target == jump.target
            && (op.narrow <==> if lab.IsBound() then -0x80 <= lab.BoundAt() - (|w.code| + 2) < 0x80 else jump.near)
            && op.pre == (if jump.Cond? then (if op.narrow then [0x70 + jump.condition] else [0x0F, 0x80 + jump.condition])
                          else if op.narrow then [0xEB] else [0xE9])
  {
  }

  lemma JumpDecoded(code: seq<byte>, at: nat, op: Op, jump: Inst, to: int)
    requires IsJump(jump) && op.Branch?
    requires op.pre == (if jump.Cond? then (if op.narrow then [0x70 + jump.condition] else [0x0F, 0x80 + jump.condition])
                        else if op.narrow then [0xEB] else [0xE9])
    requires var s := Site(at, at + |op.pre|, op.narrow, op.target); s.FieldEnd() <= |code| && Lands(X86, code, s, to)
    requires code[at] == op.pre[0] && (|op.pre| == 2 ==> code[at + 1] == op.pre[1])
    ensures DecodeX86(code, at) == Expected(jump, op.narrow, to)
  {
    hide Signed8, Signed32, Load32;
  }

  // --- Padding ---

  /** The length of the nop that the code starts with, 0 if it starts with anything else: 90, or 0F 1F with
      an operand that is not used, after any number of operand size prefixes. */
  function NopLength(code: seq<byte>): nat {
    if |code| >= 1 && code[0] == 0x90 then 1
    else if |code| >= 1 && code[0] == 0x66 then
      var n := NopLength(code[1..]);
      if n == 0 then 0 else n + 1
    else if |code| >= 3 && code[0] == 0x0F && code[1] == 0x1F && code[2] / 8 % 8 == 0 then 3 + OperandLength(code[2] / 0x40, code[2] % 8)
    else 0
  }

  /** The bytes a 32-bit operand takes behind its ModR/M byte, for scale bytes without a base of 5. */
  function OperandLength(mod: int, rm: int): nat {
    (if mod != 3 && rm == 4 then 1 else 0) + (if mod == 1 then 1 else if mod == 2 || (mod == 0 && rm == 5) then 4 else 0)
  }

  /** The code is nops from end to end. */
  predicate OnlyNops(code: seq<byte>)
    decreases |code|
  {
    code == [] || (var n := NopLength(code); 0 < n <= |code| && OnlyNops(code[n..]))
  }

  lemma NopDecodes(size: nat, rest: seq<byte>)
    requires 1 <= size <= MAX_NOP_SIZE
    ensures NopLength(NopBytes(size) + rest) == size
  {
    var code := NopBytes(size) + rest;
    if size == 2 || size == 6 {
      assert code[1..] == NopBytes(size)[1..] + rest;
      assert NopBytes(6)[1..] == NopBytes(5);
      if size == 6 { NopDecodes(5, rest); }
    }
  }

  /** Padding of any length decodes to nops that add up to it. */
  lemma {:induction false} PaddingIsNops(w: World, n: nat)
    requires Sound(X86, w) && Roomy(|w.code|, Nops(n))
    ensures var code := After(w, Nops(n)).code;
            |code| == |w.code| + n && code[..|w.code|] == w.code && OnlyNops(code[|w.code|..])
    decreases n
  {
    hide Sound, After, NopBytes, NopLength, Nops, Roomy, RegionSize;
    NopsSize(w, n, |w.code|);
    if n == 0 {
      NoNops(w);
    } else {
      var size := if n > MAX_NOP_SIZE then MAX_NOP_SIZE else n;
      var w' := FirstNop(w, n, size);
      PaddingIsNops(w', n - size);
      var code := After(w, Nops(n)).code;
      assert code[|w.code|..] == NopBytes(size) + code[|w.code| + size..];
      NopDecodes(size, code[|w.code| + size..]);
    }
  }

  lemma NoNops(w: World)
    requires Sound(X86, w) && Roomy(|w.code|, Nops(0))
    ensures After(w, Nops(0)) == w
  {
    AfterNothing(w);
  }

  lemma FirstNop(w: World, n: nat, size: nat) returns (w': World)
    requires Sound(X86, w) && Roomy(|w.code|, Nops(n)) && n > 0 && size == if n > MAX_NOP_SIZE then MAX_NOP_SIZE else n
    ensures Sound(X86, w') && w'.code == w.code + NopBytes(size) && Roomy(|w'.code|, Nops(n - size))
    ensures After(w, Nops(n)) == After(w', Nops(n - size))
  {
    hide Allowed, Run, RegionOps, NopBytes, TextKept, LabelSound, InOrder;
    assert Nops(n)[0] == Plain(NopBytes(size)) && Nops(n)[1..] == Nops(n - size);
    RegionHead(w, Nops(n));
    w' := Step(X86, w, OpOf(w, Plain(NopBytes(size))));
  }

  /** A bundle is nops, the region exactly where it was padded to, and nops. */
  lemma BundleLayout(w: World, insts: seq<Inst>, alignToEnd: bool, padToEnd: bool) returns (before: World)
    requires Sound(X86, w) && BundleRoomy(|w.code|, insts)
    ensures Sound(X86, before) && |before.code| == Start(w, insts, |w.code|, alignToEnd) && Roomy(|before.code|, insts)
    ensures w.code <= before.code && NopsFrom(before.code, |w.code|)
    ensures var region, whole := After(before, insts), BundleWorld(w, insts, alignToEnd, padToEnd);
            && region.code <= whole.code && |whole.code| == |region.code| + PadAfter(|region.code|, padToEnd)
            && NopsFrom(whole.code, |region.code|)
  {
    hide Sound, After, RegionSize, Nops, FirstPad, SecondPad, PadAfter, Roomy, BundleRoomy, OnlyNops;
    var pre := |w.code|;
    BundleFits(w, insts, pre, alignToEnd, padToEnd);
    var m := RegionSize(w, insts, pre);
    var first := FirstPad(pre, m);
    var second := SecondPad(pre + first + m, alignToEnd);
    var start := pre + first + second;
    var post := start + RegionSize(w, insts, start);
    var last := PadAfter(post, padToEnd);
    AfterFour(w, Nops(first), Nops(second), insts, Nops(last));
    PaddedSize(w, first, second, insts);
    PaddingIsNops(w, first);
    var one := After(w, Nops(first));
    PaddingIsNops(one, second);
    before := After(one, Nops(second));
    TwoPaddings(one.code, before.code, pre);
    PaddingIsNops(After(before, insts), last);
  }

  /** From here on the code is nops. */
  predicate NopsFrom(code: seq<byte>, at: nat) {
    at <= |code| && OnlyNops(code[at..])
  }

  lemma TwoPaddings(one: seq<byte>, two: seq<byte>, at: nat)
    requires at <= |one| <= |two| && two[..|one|] == one && OnlyNops(one[at..]) && OnlyNops(two[|one|..])
    ensures OnlyNops(two[at..])
  {
    hide OnlyNops;
    assert two[at..] == one[at..] + two[|one|..];
    NopsJoin(one[at..], two[|one|..]);
  }

  lemma {:induction false} NopsJoin(a: seq<byte>, b: seq<byte>)
    requires OnlyNops(a) && OnlyNops(b)
    ensures OnlyNops(a + b)
    decreases |a|
  {
    hide NopLength;
    if a == [] {
      assert a + b == b;
    } else {
      var n := NopLength(a);
      NopAhead(a, b);
      NopsJoin(a[n..], b);
      assert (a + b)[n..] == a[n..] + b;
    }
  }

  lemma {:induction false} NopAhead(a: seq<byte>, b: seq<byte>)
    requires NopLength(a) > 0
    ensures NopLength(a + b) == NopLength(a)
    decreases |a|
  {
    if |a| >= 1 && a[0] == 0x66 {
      assert (a + b)[1..] == a[1..] + b;
      NopAhead(a[1..], b);
    }
  }

  // --- Which bindings a jump stops ---

  /** `jumps` has the jump that each step to `l` is. */
  ghost predicate JumpsTo(ops: seq<Op>, l: nat, jumps: seq<Inst>) {
    |jumps| == |ops| && forall i :: 0 <= i < |ops| && ops[i].Branch? && ops[i].target == l ==> JumpsAt(ops, i, jumps[i])
  }

  /** Below 2 GB an unplaced label may be placed exactly when every jump to it that was asked to be near
      is; jumps that were not never stop it. */
  lemma PlacedExactly(ops: seq<Op>, l: nat, jumps: seq<Inst>)
    requires Program(X86, ops) && JumpsTo(ops, l, jumps)
    ensures forall i :: 0 <= i < |ops| && ops[i].Branch? && ops[i].target == l ==> Program(X86, ops[..i]) && IsJump(jumps[i])
    ensures var w := Assembled(X86, ops);
            !w.LabelOf(l).IsBound() && |w.code| < 0x8000_0000 ==>
              (Allowed(X86, w, Bind(l)) <==>
               forall i :: 0 <= i < |ops| && ops[i].Branch? && ops[i].target == l && jumps[i].near ==>
                 |w.code| - (|Assembled(X86, ops[..i]).code| + 2) < 0x80)
  {
    hide Sound, Step, Allowed, JumpsAt, OpOf;
    var w := Assembled(X86, ops);
    forall i | 0 <= i < |ops| && ops[i].Branch? && ops[i].target == l ensures Program(X86, ops[..i]) && IsJump(jumps[i]) {
      JumpFacts(ops, i, jumps[i]);
    }
    if !w.LabelOf(l).IsBound() && |w.code| < 0x8000_0000 {
      if Allowed(X86, w, Bind(l)) {
        forall i | 0 <= i < |ops| && ops[i].Branch? && ops[i].target == l && jumps[i].near
          ensures |w.code| - (|Assembled(X86, ops[..i]).code| + 2) < 0x80
        {
          NearReaches(ops, i, l, jumps[i]);
        }
      } else {
        var k := StoppedBy(w, l);
        var i := SiteFrom(X86, ops, k);
        StopperIsNear(ops, i, l, jumps[i], k);
      }
    }
  }

  lemma JumpFacts(ops: seq<Op>, i: nat, jump: Inst)
    requires JumpsAt(ops, i, jump)
    ensures Program(X86, ops[..i]) && IsJump(jump)
  {
  }

  /** A jump to a label that is still unplaced is short exactly when it was asked to be near. */
  lemma NearIsNarrow(ops: seq<Op>, i: nat, l: nat, jump: Inst)
    requires JumpsAt(ops, i, jump) && ops[i].Branch? && ops[i].target == l && !Assembled(X86, ops).LabelOf(l).IsBound()
    ensures (ops[i].narrow <==> jump.near) && (ops[i].narrow ==> |ops[i].pre| == 1)
  {
    hide Sound, Step, Allowed, IsInt8;
    RunsOn(X86, ops, i);
    ShortWhen(Assembled(X86, ops[..i]), jump);
  }

  lemma NearReaches(ops: seq<Op>, i: nat, l: nat, jump: Inst)
    requires JumpsAt(ops, i, jump) && ops[i].Branch? && ops[i].target == l && jump.near && !Assembled(X86, ops).LabelOf(l).IsBound()
    requires Allowed(X86, Assembled(X86, ops), Bind(l))
    ensures |Assembled(X86, ops).code| - (|Assembled(X86, ops[..i]).code| + 2) < 0x80
  {
    hide Sound, Step;
    NearIsNarrow(ops, i, l, jump);
    AtStep(X86, ops, i);
    var w := Assembled(X86, ops[..i]);
    BranchRecorded(X86, w, ops[i], Assembled(X86, ops));
    assert Assembled(X86, ops).sites[|w.sites|].target == l;
  }

  /** The branch that a binding would not reach. */
  lemma StoppedBy(w: World, l: nat) returns (k: nat)
    requires Sound(X86, w) && !w.LabelOf(l).IsBound() && |w.code| < 0x8000_0000 && !Allowed(X86, w, Bind(l))
    ensures k < |w.sites| && w.sites[k].target == l && w.sites[k].narrow && |w.code| - (w.sites[k].slot + 1) >= 0x80
  {
    hide TextKept, LabelSound;
    k :| 0 <= k < |w.sites| && w.sites[k].target == l
         && !(if w.sites[k].narrow then IsInt8(|w.code| - (w.sites[k].slot + 1)) else PatchFits(X86, w.sites[k].slot, |w.code|));
    assert w.sites[k].End(X86) <= |w.code|;
  }

  lemma StopperIsNear(ops: seq<Op>, i: nat, l: nat, jump: Inst, k: nat)
    requires JumpsAt(ops, i, jump) && ops[i].Branch? && !Assembled(X86, ops).LabelOf(l).IsBound()
    requires var w := Assembled(X86, ops);
             k < |w.sites| && w.sites[k] == SiteOf(Assembled(X86, ops[..i]), ops[i]) && w.sites[k].target == l && w.sites[k].narrow
    ensures jump.near && ops[i].target == l && Assembled(X86, ops).sites[k].slot + 1 == |Assembled(X86, ops[..i]).code| + 2
  {
    NearIsNarrow(ops, i, l, jump);
  }

  // --- ARM32 ---

  /** Condition 15 is another instruction. */
  datatype ArmBranch = NotABranch | Branch(cond: int, link: bool, target: int)

  function DecodeArm(code: seq<byte>, at: nat): ArmBranch {
    if at + 4 > |code| then ArmBranch.NotABranch
    else
      var w := Load32(code, at);
      if w / 0x1000_0000 < 15 && w / 0x200_0000 % 8 == 5 then
        ArmBranch.Branch(w / 0x1000_0000, w / 0x100_0000 % 2 == 1, TargetOf(ARM32, at, w))
      else ArmBranch.NotABranch
  }

  /** In every ARM32 run the finished word at a branch decodes to a branch with its condition, linking
      exactly when asked to, to where its label was placed. */
  lemma ArmBranchDecodes(ops: seq<Op>, i: nat, j: nat, cond: ARM.Cond, link: bool)
    requires Program(ARM32, ops) && i < |ops| && j < |ops|
    requires ops[i].Branch? && ops[i] == ARM.BranchOp(cond, link, ops[i].target) && ops[j] == Bind(ops[i].target)
    ensures Program(ARM32, ops[..i]) && Program(ARM32, ops[..j])
    ensures DecodeArm(Assembled(ARM32, ops).code, |Assembled(ARM32, ops[..i]).code|)
            == ArmBranch.Branch(cond, link, |Assembled(ARM32, ops[..j]).code|)
  {
    hide Sound, Step, Load32, TargetOf, Allowed, ARM.BranchWord, Opcode;
    BranchLands(ARM32, ops, i, j);
    var at, code := |Assembled(ARM32, ops[..i]).code|, Assembled(ARM32, ops).code;
    ArmFields(cond, link, Load32(code, at));
  }

  lemma ArmFields(cond: ARM.Cond, link: bool, w: uint32)
    requires Opcode(ARM32, w) == Opcode(ARM32, ARM.BranchWord(cond, link))
    ensures w / 0x1000_0000 == cond && w / 0x200_0000 % 8 == 5 && (w / 0x100_0000 % 2 == 1 <==> link)
  {
    var high := w / 0x100_0000;
    assert high == 0x10 * cond + 10 + if link then 1 else 0;
    assert w / 0x1000_0000 == high / 0x10 && w / 0x200_0000 == high / 2;
  }

  // --- MIPS32 ---

  datatype MipsBranch =
    | NotABranch
    | Beq(rs: int, rt: int, target: int)
    | Bne(rs: int, rt: int, target: int)
    | Blez(rs: int, target: int)
    | Bgtz(rs: int, target: int)
    | Bltz(rs: int, target: int)
    | Bgez(rs: int, target: int)

  function DecodeMips(code: seq<byte>, at: nat): MipsBranch {
    if at + 4 > |code| then MipsBranch.NotABranch
    else
      var w := Load32(code, at);
      MipsFrom(w / 0x400_0000, w / 0x20_0000 % 0x20, w / 0x1_0000 % 0x20, TargetOf(MIPS32, at, w))
  }

  /** By primary opcode, and for REGIMM by the field of Rt. */
  function MipsFrom(primary: int, rs: int, rt: int, to: int): MipsBranch {
    match primary
    case 1 => if rt == 0 then Bltz(rs, to) else if rt == 1 then Bgez(rs, to) else MipsBranch.NotABranch
    case 4 => Beq(rs, rt, to)
    case 5 => Bne(rs, rt, to)
    case 6 => if rt == 0 then Blez(rs, to) else MipsBranch.NotABranch
    case 7 => if rt == 0 then Bgtz(rs, to) else MipsBranch.NotABranch
    case _ => MipsBranch.NotABranch
  }

  /** Whether the branch is taken, with these values in the registers. */
  predicate Taken(b: MipsBranch, regs: int -> int) {
    match b
    case NotABranch => false
    case Beq(rs, rt, _) => regs(rs) == regs(rt)
    case Bne(rs, rt, _) => regs(rs) != regs(rt)
    case Blez(rs, _) => regs(rs) <= 0
    case Bgtz(rs, _) => regs(rs) > 0
    case Bltz(rs, _) => regs(rs) < 0
    case Bgez(rs, _) => regs(rs) >= 0
  }

  /** The condition, of two values or of one against zero. */
  predicate Holds(cond: MIPS.Cond, a: int, b: int) {
    match cond
    case AL => true
    case EQ => a == b
    case NE => a != b
    case EQZ => a == 0
    case NEZ => a != 0
    case LEZ => a <= 0
    case LTZ => a < 0
    case GEZ => a >= 0
    case GTZ => a > 0
  }

  /** The registers a branch on this condition can be given: `b` names none, and `bzc` no second one. */
  predicate Names(cond: MIPS.Cond, rs: MIPS.Register, rt: MIPS.Register) {
    match cond
    case AL => rs == rt
    case EQ | NE => true
    case GEZ => rt <= 1
    case _ => rt == 0
  }

  /** The branch is taken exactly when the condition holds, whatever the registers hold. */
  ghost predicate Tests(b: MipsBranch, cond: MIPS.Cond, rs: int, rt: int) {
    !b.NotABranch? && forall regs: int -> int :: regs(0) == 0 ==> (Taken(b, regs) <==> Holds(cond, regs(rs), regs(rt)))
  }

  /** In every MIPS32 run the finished word at a branch decodes to a branch to where its label was placed,
      with a nop in its delay slot.  It tests its condition on its registers exactly when they are ones that
      a branch on the condition can be given. */
  lemma MipsBranchDecodes(ops: seq<Op>, i: nat, j: nat, cond: MIPS.Cond, rs: MIPS.Register, rt: MIPS.Register)
    requires Program(MIPS32, ops) && i < |ops| && j < |ops|
    requires ops[i].Branch? && ops[i] == MIPS.BranchOp(cond, rs, rt, ops[i].target) && ops[j] == Bind(ops[i].target)
    ensures Program(MIPS32, ops[..i]) && Program(MIPS32, ops[..j])
    ensures var code, at, to := Assembled(MIPS32, ops).code, |Assembled(MIPS32, ops[..i]).code|, |Assembled(MIPS32, ops[..j]).code|;
            var b := DecodeMips(code, at);
            && (Tests(b, cond, rs, rt) <==> Names(cond, rs, rt)) && (!b.NotABranch? ==> b.target == to)
            && at + 8 <= |code| && code[at + 4..at + 8] == [0, 0, 0, 0]
  {
    hide Sound, Step, Load32, TargetOf, Allowed, MIPS.BranchWord, Opcode, Tests, Names;
    BranchLands(MIPS32, ops, i, j);
    var at, code := |Assembled(MIPS32, ops[..i]).code|, Assembled(MIPS32, ops).code;
    MipsFields(cond, rs, rt, Load32(code, at));
    MipsTests(cond, rs, rt, TargetOf(MIPS32, at, Load32(code, at)));
    forall p | at + 4 <= p < at + 8 ensures p < |code| && code[p] == 0 { PlainBytesStay(MIPS32, ops, i, p - at); }
    PlainBytesStay(MIPS32, ops, i, 7);
  }

  function PrimaryOf(cond: MIPS.Cond): int {
    match cond
    case AL | EQ | EQZ => 4
    case NE | NEZ => 5
    case LEZ => 6
    case GTZ => 7
    case LTZ | GEZ => 1
  }

  function RtOf(cond: MIPS.Cond, rt: int): int { if cond.GEZ? && rt % 2 == 0 then rt + 1 else rt }

  lemma MipsTests(cond: MIPS.Cond, rs: MIPS.Register, rt: MIPS.Register, to: int)
    ensures Tests(MipsFrom(PrimaryOf(cond), rs, RtOf(cond, rt), to), cond, rs, rt) <==> Names(cond, rs, rt)
  {
    var b := MipsFrom(PrimaryOf(cond), rs, RtOf(cond, rt), to);
    if !Names(cond, rs, rt) && !b.NotABranch? {
      var other := if rt != 0 then rt else rs;
      var regs: int -> int := x => if x == other then 1 else 0;
      assert regs(0) == 0 && !(Taken(b, regs) <==> Holds(cond, regs(rs), regs(rt)));
    }
  }

  /** The primary opcode of a condition, and what the field of Rt holds besides the register. */
  lemma MipsFields(cond: MIPS.Cond, rs: MIPS.Register, rt: MIPS.Register, w: uint32)
    requires Opcode(MIPS32, w) == Opcode(MIPS32, MIPS.BranchWord(cond, rs, rt))
    ensures w / 0x20_0000 % 0x20 == rs
    ensures w / 0x1_0000 % 0x20 == RtOf(cond, rt)
    ensures w / 0x400_0000 == PrimaryOf(cond)
  {
    hide MIPS.BranchWord;
    MipsHigh(cond, rs, rt);
    var high := w / 0x1_0000;
    var r := RtOf(cond, rt);
    assert w / 0x20_0000 == high / 0x20 && w / 0x400_0000 == high / 0x400;
    assert high / 0x20 == 0x20 * (high / 0x400) + rs;
    assert high % 0x20 == r;
  }

  /** The half of the word above the offset. */
  lemma MipsHigh(cond: MIPS.Cond, rs: MIPS.Register, rt: MIPS.Register)
    ensures MIPS.BranchWord(cond, rs, rt) / 0x1_0000 == 0x400 * PrimaryOf(cond) + 0x20 * rs + RtOf(cond, rt)
  {
  }
}
