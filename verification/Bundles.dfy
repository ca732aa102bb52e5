/** Sandboxed x86 code: instructions in bundles of 32 bytes, measured in a preliminary pass, padded with
    nops and emitted again. */
module Bundles {
  import opened Bytes
  import opened BranchEncoding
  import opened BranchLinking
  import opened BranchRuns
  import opened AssemblerBuffers
  import opened Assemblers
  import opened AssemblersX86

  const BUNDLE_SIZE := 32
  const MAX_NOP_SIZE := 8

  datatype Inst =
    | Plain(bytes: seq<byte>)
    | Relocated(opcode: seq<byte>, post: seq<byte>)
    | Cond(condition: BrCond, target: nat, near: bool)
    | Always(target: nat, near: bool)

  predicate Emittable(i: Inst) {
    match i
    case Plain(bytes) => |bytes| <= MINIMUM_GAP
    case Relocated(opcode, post) => |opcode| + 4 + |post| <= MINIMUM_GAP
    case _ => true
  }

  /** The step an instruction is, where labels are as in `w`. */
  function OpOf(w: World, i: Inst): Op {
    match i
    case Plain(bytes) => Raw(bytes)
    case Relocated(opcode, post) => Reloc(opcode + Bytes32(0) + post, |opcode|)
    case Cond(c, n, near) => JumpOp(w, [0x70 + c], [0x0F, 0x80 + c], n, near)
    case Always(n, near) => JumpOp(w, [0xEB], [0xE9], n, near)
  }

  /** Its size at a position. */
  function SizeOf(w: World, i: Inst, at: nat): nat {
    match i
    case Plain(bytes) => |bytes|
    case Relocated(opcode, post) => |opcode| + 4 + |post|
    case Cond(c, n, near) => JumpSize(w.LabelOf(n), [0x70 + c], [0x0F, 0x80 + c], near, at)
    case Always(n, near) => JumpSize(w.LabelOf(n), [0xEB], [0xE9], near, at)
  }

  function RegionSize(w: World, insts: seq<Inst>, at: nat): nat {
    if insts == [] then 0
    else
      var s := SizeOf(w, insts[0], at);
      s + RegionSize(w, insts[1..], at + s)
  }

  predicate Roomy(at: nat, insts: seq<Inst>) {
    && at + MINIMUM_GAP * (|insts| + 1) < 0x8000_0000
    && forall k :: 0 <= k < |insts| ==> Emittable(insts[k])
  }

  lemma OpFits(w: World, i: Inst)
    requires Sound(X86, w) && Emittable(i) && |w.code| + 2 * MINIMUM_GAP < 0x8000_0000
    ensures Allowed(X86, w, OpOf(w, i))
    ensures |Step(X86, w, OpOf(w, i)).code| == |w.code| + SizeOf(w, i, |w.code|)
    ensures SizeOf(w, i, |w.code|) <= MINIMUM_GAP
  {
    hide TextKept, LabelSound, PatchFits, LinkFits;
    match i
    case Plain(_) =>
    case Relocated(_, _) =>
    case Cond(c, n, near) => JumpAllowed(w, [0x70 + c], [0x0F, 0x80 + c], n, near);
    case Always(n, near) => JumpAllowed(w, [0xEB], [0xE9], n, near);
  }

  lemma SizeFits(w: World, i: Inst, at: nat)
    requires Emittable(i)
    ensures SizeOf(w, i, at) <= MINIMUM_GAP
  {
  }

  /** The steps of a region. */
  ghost function RegionOps(w: World, insts: seq<Inst>): (ops: seq<Op>)
    requires Sound(X86, w) && Roomy(|w.code|, insts)
    ensures AllowedRun(X86, w, ops)
    decreases |insts|
  {
    hide TextKept, LabelSound, InOrder, Allowed, Step;
    if insts == [] then []
    else
      var op := OpOf(w, insts[0]);
      OpFits(w, insts[0]);
      StepSound(X86, w, op);
      var rest := RegionOps(Step(X86, w, op), insts[1..]);
      assert ([op] + rest)[1..] == rest;
      [op] + rest
  }

  lemma RegionHead(w: World, insts: seq<Inst>)
    requires Sound(X86, w) && Roomy(|w.code|, insts) && insts != []
    ensures var w' := Step(X86, w, OpOf(w, insts[0]));
            && Sound(X86, w') && Roomy(|w'.code|, insts[1..])
            && Run(X86, w, RegionOps(w, insts)) == Run(X86, w', RegionOps(w', insts[1..]))
  {
    hide TextKept, LabelSound, InOrder, Allowed, Step;
    OpFits(w, insts[0]);
    var op := OpOf(w, insts[0]);
    StepSound(X86, w, op);
    var rest := RegionOps(Step(X86, w, op), insts[1..]);
    assert RegionOps(w, insts) == [op] + rest && ([op] + rest)[1..] == rest;
  }

  // --- Sizes ---

  /** Labels placed at the same positions, whatever links the others hold. */
  ghost predicate SameBinds(w: World, w': World) {
    forall l: nat :: (w.LabelOf(l).IsBound() <==> w'.LabelOf(l).IsBound())
                     && (w.LabelOf(l).IsBound() ==> w'.LabelOf(l) == w.LabelOf(l))
  }

  lemma {:induction false} SizeStable(w: World, w': World, insts: seq<Inst>, at: nat)
    requires SameBinds(w, w')
    ensures RegionSize(w, insts, at) == RegionSize(w', insts, at)
    decreases |insts|
  {
    hide IsInt8;
    if insts != [] {
      assert SizeOf(w, insts[0], at) == SizeOf(w', insts[0], at);
      SizeStable(w, w', insts[1..], at + SizeOf(w, insts[0], at));
    }
  }

  lemma StepBinds(w: World, op: Op)
    requires Sound(X86, w) && !op.Bind?
    ensures SameBinds(w, Step(X86, w, op))
  {
    hide TextKept, LabelSound, Field;
  }

  /** The committed code is as long as the region measures. */
  lemma {:induction false} RegionLength(w: World, insts: seq<Inst>)
    requires Sound(X86, w) && Roomy(|w.code|, insts)
    ensures |Run(X86, w, RegionOps(w, insts)).code| == |w.code| + RegionSize(w, insts, |w.code|)
    decreases |insts|
  {
    hide TextKept, LabelSound, InOrder, Allowed, Step, Run, SizeOf;
    if insts == [] {
      RunNothing(w);
    } else {
      var op := OpOf(w, insts[0]);
      OpFits(w, insts[0]);
      RegionHead(w, insts);
      var w' := Step(X86, w, op);
      RegionLength(w', insts[1..]);
      StepBinds(w, op);
      SizeStable(w, w', insts[1..], |w'.code|);
    }
  }

  lemma RunNothing(w: World)
    requires Sound(X86, w)
    ensures Run(X86, w, []) == w
  {
  }

  lemma AfterNothing(w: World)
    requires Sound(X86, w) && Roomy(|w.code|, [])
    ensures After(w, []) == w
  {
    RunNothing(w);
  }

  /** Further from the labels behind it, a region never gets smaller. */
  lemma {:induction false} SizesGrow(w: World, insts: seq<Inst>, at: nat, later: nat)
    requires at <= later
    requires forall l: nat :: w.LabelOf(l).IsBound() ==> w.LabelOf(l).BoundAt() <= at
    ensures RegionSize(w, insts, at) <= RegionSize(w, insts, later)
    decreases |insts|
  {
    if insts != [] {
      var s, s' := SizeOf(w, insts[0], at), SizeOf(w, insts[0], later);
      SizesGrow(w, insts[1..], at + s, later + s');
    }
  }

  // --- Padding ---

  predicate SameBundle(start: nat, end: nat) {
    start == end || (end > 0 && start / BUNDLE_SIZE == (end - 1) / BUNDLE_SIZE)
  }

  /** The nops that start a new bundle when a region of measured size `m` crosses into one. */
  function FirstPad(pre: nat, m: nat): nat {
    if SameBundle(pre, pre + m) then 0 else BUNDLE_SIZE - pre % BUNDLE_SIZE
  }

  /** The nops that move the end of a region to the end of a bundle. */
  function SecondPad(post: nat, alignToEnd: bool): nat {
    if alignToEnd && post % BUNDLE_SIZE != 0 then BUNDLE_SIZE - post % BUNDLE_SIZE else 0
  }

  /** All nops before a region of measured size `m`. */
  function PadBefore(pre: nat, m: nat, alignToEnd: bool): nat {
    FirstPad(pre, m) + SecondPad(pre + FirstPad(pre, m) + m, alignToEnd)
  }

  function PadAfter(post: nat, padToEnd: bool): nat {
    if padToEnd && post % BUNDLE_SIZE != 0 then BUNDLE_SIZE - post % BUNDLE_SIZE else 0
  }

  /** The room a region of measured size `m` is left with after padding. */
  function RoomFor(pre: nat, m: nat, alignToEnd: bool): nat {
    if alignToEnd then m
    else if SameBundle(pre, pre + m) then BUNDLE_SIZE - pre % BUNDLE_SIZE else BUNDLE_SIZE
  }

  /** A region that measured at most a bundle stays within one exactly when, emitted again behind the
      padding, it is no larger than the room it was measured for; and then, if asked to, it ends with
      the bundle exactly when it kept its size. */
  lemma PaddedInBundle(pre: nat, m: nat, m': nat, alignToEnd: bool)
    requires 0 < m <= BUNDLE_SIZE && m' >= m
    ensures var start := pre + PadBefore(pre, m, alignToEnd);
            && (SameBundle(start, start + m') <==> m' <= RoomFor(pre, m, alignToEnd))
            && (alignToEnd ==> ((start + m') % BUNDLE_SIZE == 0 <==> (m' - m) % BUNDLE_SIZE == 0))
  {
    var start := pre + PadBefore(pre, m, alignToEnd);
    InBundle(pre, m);
    InBundle(start, m');
    AfterFirstPad(pre, m);
    if alignToEnd { EndsBundle(pre + FirstPad(pre, m), m, start, m'); }
  }

  lemma AfterFirstPad(pre: nat, m: nat)
    requires 0 < m <= BUNDLE_SIZE
    ensures var p := FirstPad(pre, m);
            && (pre + p) % BUNDLE_SIZE == (if p == 0 then pre % BUNDLE_SIZE else 0)
            && (pre + p) % BUNDLE_SIZE + m <= BUNDLE_SIZE
  {
    InBundle(pre, m);
    assert pre == BUNDLE_SIZE * (pre / BUNDLE_SIZE) + pre % BUNDLE_SIZE;
  }

  lemma EndsBundle(from: nat, m: nat, start: nat, m': nat)
    requires 0 < m <= BUNDLE_SIZE && m <= m'
    requires var offset := (from + m) % BUNDLE_SIZE; start == if offset == 0 then from else from + BUNDLE_SIZE - offset
    ensures start % BUNDLE_SIZE + m == BUNDLE_SIZE
    ensures (start + m') % BUNDLE_SIZE == 0 <==> (m' - m) % BUNDLE_SIZE == 0
  {
    var k := (start + m) / BUNDLE_SIZE;
    assert start + m == BUNDLE_SIZE * k;
    assert start == BUNDLE_SIZE * (k - 1) + (BUNDLE_SIZE - m);
    assert start + m' == BUNDLE_SIZE * k + (m' - m);
  }

  lemma InBundle(start: nat, m: nat)
    requires m > 0
    ensures SameBundle(start, start + m) <==> start % BUNDLE_SIZE + m <= BUNDLE_SIZE
  {
    var q, r := start / BUNDLE_SIZE, start % BUNDLE_SIZE;
    assert start + m - 1 == BUNDLE_SIZE * q + (r + m - 1);
  }

  /** Padding is never longer than it has to be: any that keeps a measured region in one bundle, ending
      with it if asked to, is at least as long, and so is any that ends a bundle behind a region. */
  lemma PaddingLeast(pre: nat, m: nat, alignToEnd: bool, p: nat)
    requires 0 < m <= BUNDLE_SIZE
    ensures SameBundle(pre + p, pre + p + m) && (alignToEnd ==> (pre + p + m) % BUNDLE_SIZE == 0) ==> PadBefore(pre, m, alignToEnd) <= p
    ensures (pre + p) % BUNDLE_SIZE == 0 ==> PadAfter(pre, true) <= p
  {
    hide SameBundle;
    InBundle(pre, m);
    InBundle(pre + p, m);
    UpToBundle(pre, p);
    UpToBundle(pre + m, p);
    if p < BUNDLE_SIZE && pre % BUNDLE_SIZE + p < BUNDLE_SIZE { WithinBundle(pre, p); }
    LeastInBundle(pre, m, alignToEnd);
  }

  /** Getting to the next boundary takes what is left of the bundle. */
  lemma UpToBundle(at: nat, p: nat)
    ensures (at + p) % BUNDLE_SIZE == 0 && at % BUNDLE_SIZE != 0 ==> p >= BUNDLE_SIZE - at % BUNDLE_SIZE
  {
    var q, r := at / BUNDLE_SIZE, at % BUNDLE_SIZE;
    assert at == BUNDLE_SIZE * q + r;
    if p < BUNDLE_SIZE - r && r != 0 {
      assert (BUNDLE_SIZE * q + (r + p)) % BUNDLE_SIZE == r + p;
    }
  }

  lemma WithinBundle(at: nat, p: nat)
    requires at % BUNDLE_SIZE + p < BUNDLE_SIZE
    ensures (at + p) % BUNDLE_SIZE == at % BUNDLE_SIZE + p
  {
    assert at + p == BUNDLE_SIZE * (at / BUNDLE_SIZE) + (at % BUNDLE_SIZE + p);
  }

  /** The padding before a region in terms of where it starts in its bundle. */
  lemma LeastInBundle(pre: nat, m: nat, alignToEnd: bool)
    requires 0 < m <= BUNDLE_SIZE
    ensures PadBefore(pre, m, alignToEnd)
            == if alignToEnd then PadAfter(pre + m, true)
               else if pre % BUNDLE_SIZE + m <= BUNDLE_SIZE then 0 else BUNDLE_SIZE - pre % BUNDLE_SIZE
  {
    hide SameBundle;
    InBundle(pre, m);
    var q, r := pre / BUNDLE_SIZE, pre % BUNDLE_SIZE;
    assert pre == BUNDLE_SIZE * q + r;
    if r + m > BUNDLE_SIZE {
      assert pre + (BUNDLE_SIZE - r) + m == BUNDLE_SIZE * (q + 1) + m;
      assert pre + m == BUNDLE_SIZE * (q + 1) + (r + m - BUNDLE_SIZE);
      assert m < BUNDLE_SIZE ==> (BUNDLE_SIZE * (q + 1) + m) % BUNDLE_SIZE == m;
      assert (BUNDLE_SIZE * (q + 1) + (r + m - BUNDLE_SIZE)) % BUNDLE_SIZE == r + m - BUNDLE_SIZE;
    }
  }

  // --- The code of a bundle ---

  /** What a region, emitted without a preliminary pass, makes of the world. */
  ghost function After(w: World, insts: seq<Inst>): (w': World)
    requires Sound(X86, w) && Roomy(|w.code|, insts)
    ensures Sound(X86, w') && |w'.code| == |w.code| + RegionSize(w, insts, |w.code|)
  {
    RegionLength(w, insts);
    Run(X86, w, RegionOps(w, insts))
  }

  lemma {:induction false} SizeBound(w: World, insts: seq<Inst>, at: nat)
    requires forall k :: 0 <= k < |insts| ==> Emittable(insts[k])
    ensures RegionSize(w, insts, at) <= MINIMUM_GAP * |insts|
    decreases |insts|
  {
    if insts != [] { SizeBound(w, insts[1..], at + SizeOf(w, insts[0], at)); }
  }

  lemma {:induction false} AfterBinds(w: World, insts: seq<Inst>)
    requires Sound(X86, w) && Roomy(|w.code|, insts)
    ensures SameBinds(w, After(w, insts))
    decreases |insts|
  {
    hide TextKept, LabelSound, InOrder, Allowed, Step, Run;
    if insts == [] {
      RunNothing(w);
    } else {
      RegionHead(w, insts);
      OpFits(w, insts[0]);
      StepBinds(w, OpOf(w, insts[0]));
      AfterBinds(Step(X86, w, OpOf(w, insts[0])), insts[1..]);
    }
  }

  lemma {:induction false} AfterBoth(w: World, a: seq<Inst>, b: seq<Inst>)
    requires Sound(X86, w) && Roomy(|w.code|, a + b)
    ensures Roomy(|w.code|, a) && Roomy(|After(w, a).code|, b)
    ensures After(w, a + b) == After(After(w, a), b)
    decreases |a|
  {
    hide TextKept, LabelSound, InOrder, Allowed, Step, Run;
    assert forall k :: 0 <= k < |a| ==> (a + b)[k] == a[k];
    assert forall k :: 0 <= k < |b| ==> (a + b)[|a| + k] == b[k];
    SizeBound(w, a, |w.code|);
    if a == [] {
      RunNothing(w);
      assert a + b == b;
    } else {
      RegionHead(w, a + b);
      RegionHead(w, a);
      assert (a + b)[1..] == a[1..] + b && (a + b)[0] == a[0];
      AfterBoth(Step(X86, w, OpOf(w, a[0])), a[1..], b);
    }
  }

  function NopBytes(size: nat): (bytes: seq<byte>)
    requires 1 <= size <= MAX_NOP_SIZE
    ensures |bytes| == size
  {
    match size
    case 1 => [0x90]
    case 2 => [0x66, 0x90]
    case 3 => [0x0F, 0x1F, 0x00]
    case 4 => [0x0F, 0x1F, 0x40, 0x00]
    case 5 => [0x0F, 0x1F, 0x44, 0x00, 0x00]
    case 6 => [0x66, 0x0F, 0x1F, 0x44, 0x00, 0x00]
    case 7 => [0x0F, 0x1F, 0x80, 0x00, 0x00, 0x00, 0x00]
    case _ => [0x0F, 0x1F, 0x84, 0x00, 0x00, 0x00, 0x00, 0x00]
  }

  /** Padding as instructions. */
  function Nops(n: nat): (insts: seq<Inst>)
    ensures forall k :: 0 <= k < |insts| ==> Emittable(insts[k])
    ensures |insts| * MAX_NOP_SIZE <= n + MAX_NOP_SIZE - 1
  {
    if n == 0 then []
    else if n > MAX_NOP_SIZE then [Plain(NopBytes(MAX_NOP_SIZE))] + Nops(n - MAX_NOP_SIZE)
    else [Plain(NopBytes(n))]
  }

  lemma {:induction false} NopsSize(w: World, n: nat, at: nat)
    ensures RegionSize(w, Nops(n), at) == n
    decreases n
  {
    if n > MAX_NOP_SIZE {
      NopsSize(w, n - MAX_NOP_SIZE, at + MAX_NOP_SIZE);
      assert Nops(n)[1..] == Nops(n - MAX_NOP_SIZE);
    }
  }

  /** A bundle: the region between the nops before it and the nops after it. */
  function BundleInsts(w: World, insts: seq<Inst>, pre: nat, alignToEnd: bool, padToEnd: bool): seq<Inst> {
    var m := RegionSize(w, insts, pre);
    var start := pre + PadBefore(pre, m, alignToEnd);
    var post := start + RegionSize(w, insts, start);
    Nops(FirstPad(pre, m)) + Nops(SecondPad(pre + FirstPad(pre, m) + m, alignToEnd)) + insts + Nops(PadAfter(post, padToEnd))
  }

  /** Room for a region and the nops around it. */
  predicate BundleRoomy(at: nat, insts: seq<Inst>) {
    && at + MINIMUM_GAP * (|insts| + 16) < 0x8000_0000
    && forall k :: 0 <= k < |insts| ==> Emittable(insts[k])
  }

  lemma BundleFits(w: World, insts: seq<Inst>, pre: nat, alignToEnd: bool, padToEnd: bool)
    requires BundleRoomy(pre, insts)
    ensures Roomy(pre, BundleInsts(w, insts, pre, alignToEnd, padToEnd))
  {
    hide SameBundle, Nops, RegionSize, Emittable;
    FewNops(pre, RegionSize(w, insts, pre), alignToEnd, padToEnd);
  }

  lemma FewNops(pre: nat, m: nat, alignToEnd: bool, padToEnd: bool)
    ensures |Nops(FirstPad(pre, m))| <= 4
    ensures forall post: nat :: |Nops(SecondPad(post, alignToEnd))| <= 4 && |Nops(PadAfter(post, padToEnd))| <= 4
  {
    hide SameBundle, Nops;
  }

  ghost function BundleWorld(w: World, insts: seq<Inst>, alignToEnd: bool, padToEnd: bool): World
    requires Sound(X86, w) && BundleRoomy(|w.code|, insts)
  {
    BundleFits(w, insts, |w.code|, alignToEnd, padToEnd);
    After(w, BundleInsts(w, insts, |w.code|, alignToEnd, padToEnd))
  }

  lemma AfterFour(w: World, a: seq<Inst>, b: seq<Inst>, c: seq<Inst>, d: seq<Inst>)
    requires Sound(X86, w) && Roomy(|w.code|, a + b + c + d)
    ensures Roomy(|w.code|, a) && Roomy(|After(w, a).code|, b) && Roomy(|After(After(w, a), b).code|, c)
    ensures Roomy(|After(After(After(w, a), b), c).code|, d)
    ensures After(w, a + b + c + d) == After(After(After(After(w, a), b), c), d)
  {
    hide Sound, After, Emittable;
    AfterBoth(w, a + b + c, d);
    AfterBoth(w, a + b, c);
    AfterBoth(w, a, b);
  }

  /** A label is placed before the end of the code. */
  lemma BindsBehind(w: World, l: nat)
    requires Sound(X86, w) && w.LabelOf(l).IsBound()
    ensures w.LabelOf(l).BoundAt() <= |w.code|
  {
    hide TextKept, Lands, Chain, InOrder;
    assert LabelSound(X86, w, l);
  }

  // --- Emission ---

  predicate TargetsKnown(asm: Assembler, insts: seq<Inst>)
    reads asm
  {
    forall k :: 0 <= k < |insts| ==> TargetKnown(asm, insts[k])
  }

  predicate TargetKnown(asm: Assembler, i: Inst)
    reads asm
  {
    match i
    case Cond(_, n, _) => asm.HasLabel(n)
    case Always(n, _) => asm.HasLabel(n)
    case _ => true
  }

  method EmitOne(asm: Assembler, i: Inst)
    requires asm.Valid() && asm.arch == X86 && Emittable(i) && TargetKnown(asm, i)
    requires asm.buffer.cursor + 2 * MINIMUM_GAP < 0x8000_0000
    modifies asm.Repr()
    ensures asm.Valid() && fresh(asm.Repr() - old(asm.Repr())) && asm.preliminary == old(asm.preliminary)
    ensures asm.labels == old(asm.labels)
    ensures asm.buffer.cursor == old(asm.buffer.cursor) + SizeOf(old(asm.world), i, old(asm.buffer.cursor))
    ensures asm.world == if asm.preliminary then old(asm.world) else Step(X86, old(asm.world), OpOf(old(asm.world), i))
  {
    hide Sound, Step, Allowed, Load32, JumpSize, JumpOp, Bytes32;
    ghost var w := asm.world;
    if !asm.preliminary { OpFits(w, i); }
    match i
    case Plain(bytes) => asm.EmitInst(bytes);
    case Relocated(opcode, post) => asm.EmitReloc(opcode, post);
    case Cond(c, n, near) => J(asm, c, n, near);
    case Always(n, near) => Jmp(asm, n, near);
  }

  /** Emits a list of instructions; in a preliminary pass they only move the cursor. */
  method EmitRegion(asm: Assembler, insts: seq<Inst>)
    requires asm.Valid() && asm.arch == X86 && TargetsKnown(asm, insts)
    requires Roomy(asm.buffer.cursor, insts)
    modifies asm.Repr()
    ensures asm.Valid() && fresh(asm.Repr() - old(asm.Repr())) && asm.preliminary == old(asm.preliminary)
    ensures asm.labels == old(asm.labels)
    ensures asm.preliminary ==> asm.world == old(asm.world)
    ensures asm.preliminary ==> asm.buffer.cursor == old(asm.buffer.cursor) + RegionSize(asm.world, insts, old(asm.buffer.cursor))
    ensures !asm.preliminary ==> asm.world == After(old(asm.world), insts)
  {
    hide Sound, Step, Allowed, SizeOf, Run, RegionOps;
    ghost var w, at := asm.world, asm.buffer.cursor;
    for k := 0 to |insts|
      invariant asm.Valid() && fresh(asm.Repr() - old(asm.Repr())) && asm.preliminary == old(asm.preliminary)
      invariant asm.labels == old(asm.labels) && Roomy(asm.buffer.cursor, insts[k..])
      invariant asm.preliminary ==> asm.world == w
      invariant asm.preliminary ==> asm.buffer.cursor + RegionSize(w, insts[k..], asm.buffer.cursor) == at + RegionSize(w, insts, at)
      invariant !asm.preliminary ==> After(asm.world, insts[k..]) == After(w, insts)
    {
      assert insts[k..][0] == insts[k] && insts[k..][1..] == insts[k + 1..];
      assert TargetKnown(asm, insts[k]) && Emittable(insts[k]);
      SizeFits(w, insts[k], asm.buffer.cursor);
      SizeFits(asm.world, insts[k], asm.buffer.cursor);
      if !asm.preliminary { RegionHead(asm.world, insts[k..]); }
      EmitOne(asm, insts[k]);
    }
    AfterNothing(asm.world);
  }

  method PadWithNop(asm: Assembler, padding: nat)
    requires asm.Valid() && asm.arch == X86 && !asm.preliminary && Roomy(asm.buffer.cursor, Nops(padding))
    modifies asm.Repr()
    ensures asm.Valid() && fresh(asm.Repr() - old(asm.Repr())) && !asm.preliminary && asm.labels == old(asm.labels)
    ensures asm.world == After(old(asm.world), Nops(padding))
  {
    hide Sound, Step, Allowed, Run, RegionOps, NopBytes, After, Roomy;
    ghost var w := asm.world;
    var left: nat := padding;
    while left > MAX_NOP_SIZE
      invariant asm.Valid() && fresh(asm.Repr() - old(asm.Repr())) && !asm.preliminary && asm.labels == old(asm.labels)
      invariant Roomy(asm.buffer.cursor, Nops(left)) && After(asm.world, Nops(left)) == After(w, Nops(padding))
    {
      EmitNop(asm, MAX_NOP_SIZE, left);
      left := left - MAX_NOP_SIZE;
    }
    if left > 0 {
      EmitNop(asm, left, left);
    }
    AfterNothing(asm.world);
  }

  /** The first nop of `left` bytes of padding. */
  method EmitNop(asm: Assembler, size: nat, ghost left: nat)
    requires asm.Valid() && asm.arch == X86 && !asm.preliminary && Roomy(asm.buffer.cursor, Nops(left))
    requires 1 <= size <= MAX_NOP_SIZE && size <= left && (size < left ==> size == MAX_NOP_SIZE)
    modifies asm.Repr()
    ensures asm.Valid() && fresh(asm.Repr() - old(asm.Repr())) && !asm.preliminary && asm.labels == old(asm.labels)
    ensures Roomy(asm.buffer.cursor, Nops(left - size))
    ensures After(asm.world, Nops(left - size)) == After(old(asm.world), Nops(left))
  {
    hide Sound, Step, Allowed, Run, RegionOps, NopBytes;
    assert Nops(left)[0] == Plain(NopBytes(size)) && Nops(left)[1..] == Nops(left - size);
    RegionHead(asm.world, Nops(left));
    EmitOne(asm, Plain(NopBytes(size)));
  }

  /** The nops up to the next position that, counted from `offset`, is a multiple of the alignment.
      For a power of two masking gives the remainder, of a negative position too. */
  function AlignPadding(at: int, alignment: nat): nat
    requires alignment > 0
  {
    if at % alignment == 0 then 0 else alignment - at % alignment
  }

  /** It is the shortest padding that aligns. */
  lemma AlignPaddingLeast(at: int, alignment: nat, n: nat)
    requires alignment > 0
    ensures (at + AlignPadding(at, alignment)) % alignment == 0
    ensures (at + n) % alignment == 0 ==> AlignPadding(at, alignment) <= n
  {
    var q, r, p := at / alignment, at % alignment, AlignPadding(at, alignment);
    var up := if r == 0 then q else q + 1;
    Multiple(alignment, q, up, at, r, p);
    Remainder(alignment, up, at + p);
    if p > n { Between(alignment, q, r, at + n, n); }
  }

  lemma Multiple(a: nat, q: int, up: int, at: int, r: int, p: int)
    requires at == a * q + r && (if r == 0 then p == 0 && up == q else p == a - r && up == q + 1)
    ensures at + p == a * up
  {
  }

  lemma Remainder(a: nat, k: int, x: int)
    requires a > 0 && x == a * k
    ensures x % a == 0
  {
    var d := k - x / a;
    assert a * d == x % a;
    Times(a, d);
  }

  lemma Times(a: nat, d: int)
    ensures d >= 1 ==> a * d >= a
    ensures d <= -1 ==> a * d + a <= 0
  {
    if d >= 1 {
      assert a * (d - 1) >= 0;
    } else if d <= -1 {
      assert a * (-d - 1) >= 0;
    }
  }

  /** Short of the padding no position is aligned. */
  lemma Between(a: nat, q: int, r: int, x: int, n: nat)
    requires a > 0 && x == a * q + r + n && 0 < r && r + n < a
    ensures x % a != 0
  {
    var d := x / a - q;
    assert a * d + x % a == r + n;
    Times(a, d);
  }

  method Align(asm: Assembler, alignment: nat, offset: int)
    requires asm.Valid() && asm.arch == X86 && !asm.preliminary
    requires alignment > 0 && asm.buffer.cursor + 4 * alignment + 64 < 0x8000_0000
    modifies asm.Repr()
    ensures asm.Valid() && fresh(asm.Repr() - old(asm.Repr())) && !asm.preliminary && asm.labels == old(asm.labels)
    ensures var padding := AlignPadding(offset + old(asm.buffer.cursor), alignment);
            && Roomy(|old(asm.world).code|, Nops(padding))
            && asm.world == After(old(asm.world), Nops(padding))
            && asm.buffer.cursor == old(asm.buffer.cursor) + padding
  {
    hide Sound, RegionSize, Step, Allowed, Run, RegionOps;
    var pos := offset + asm.buffer.cursor;
    var mod := pos % alignment;
    if mod == 0 {
      AfterNothing(asm.world);
      return;
    }
    NopsSize(asm.world, alignment - mod, asm.buffer.cursor);
    PadWithNop(asm, alignment - mod);
  }

  /** The preliminary pass: gives the position a region would end at, and takes everything back: the
      code, what the labels hold, and the fixups. */
  method Measure(asm: Assembler, insts: seq<Inst>) returns (post: nat)
    requires asm.Valid() && asm.arch == X86 && !asm.preliminary && TargetsKnown(asm, insts)
    requires Roomy(asm.buffer.cursor, insts)
    modifies asm.Repr()
    ensures asm.Valid() && fresh(asm.Repr() - old(asm.Repr())) && !asm.preliminary && asm.labels == old(asm.labels)
    ensures asm.world == old(asm.world) && asm.buffer.View() == old(asm.buffer.View())
    ensures asm.fixups == old(asm.fixups) && forall n: nat :: asm.LabelAt(n) == old(asm.LabelAt(n))
    ensures post == asm.buffer.cursor + RegionSize(asm.world, insts, asm.buffer.cursor)
  {
    hide Sound, Emittable, RegionSize;
    var pre := asm.EnterBundle();
    EmitRegion(asm, insts);
    post := asm.buffer.cursor;
    asm.Rollback(pre);
    forall n: nat ensures asm.LabelAt(n) == old(asm.LabelAt(n)) {
      assert asm.world.LabelOf(n) == asm.LabelAt(n);
    }
  }

  /** The nops, the region and the nops behind it. */
  method EmitPadded(asm: Assembler, insts: seq<Inst>, first: nat, second: nat, padToEnd: bool)
    requires asm.Valid() && asm.arch == X86 && !asm.preliminary && TargetsKnown(asm, insts)
    requires var start := asm.buffer.cursor + first + second;
             var last := PadAfter(start + RegionSize(asm.world, insts, start), padToEnd);
             Roomy(asm.buffer.cursor, Nops(first) + Nops(second) + insts + Nops(last))
    modifies asm.Repr()
    ensures asm.Valid() && fresh(asm.Repr() - old(asm.Repr())) && !asm.preliminary && asm.labels == old(asm.labels)
    ensures var start := old(asm.buffer.cursor) + first + second;
            var last := PadAfter(start + RegionSize(old(asm.world), insts, start), padToEnd);
            asm.world == After(old(asm.world), Nops(first) + Nops(second) + insts + Nops(last))
  {
    hide Sound, After, RegionSize, Nops, PadAfter, Emittable, Roomy, Assembler.LabelsMirror, AssemblerBuffer.Room;
    ghost var w := asm.world;
    ghost var start := asm.buffer.cursor + first + second;
    ghost var last := PadAfter(start + RegionSize(w, insts, start), padToEnd);
    AfterFour(w, Nops(first), Nops(second), insts, Nops(last));
    PaddedSize(w, first, second, insts);
    PadWithNop(asm, first);
    PadWithNop(asm, second);
    EmitRegion(asm, insts);
    PadWithNop(asm, PadAfter(asm.buffer.cursor, padToEnd));
  }

  /** One bundle-locked region, or with neither option any single instruction: measured, rolled back,
      padded and emitted again.  The run goes on as if the region and the nops around it had been
      emitted outright: nothing of the preliminary pass is left. */
  method EmitBundle(asm: Assembler, insts: seq<Inst>, alignToEnd: bool, padToEnd: bool)
    requires asm.Valid() && asm.arch == X86 && !asm.preliminary && TargetsKnown(asm, insts)
    requires BundleRoomy(asm.buffer.cursor, insts)
    modifies asm.Repr()
    ensures asm.Valid() && fresh(asm.Repr() - old(asm.Repr())) && !asm.preliminary && asm.labels == old(asm.labels)
    ensures asm.world == BundleWorld(old(asm.world), insts, alignToEnd, padToEnd)
  {
    hide Sound, After, RegionSize, Nops, FirstPad, SecondPad, PadAfter, Emittable;
    var pre := asm.buffer.cursor;
    BundleFits(asm.world, insts, pre, alignToEnd, padToEnd);
    var post := Measure(asm, insts);
    var first := PaddingToNext(pre, post);
    EmitPadded(asm, insts, first, SecondPad(post + first, alignToEnd), padToEnd);
  }

  /** What separates a region that crosses a bundle boundary from the next bundle. */
  method PaddingToNext(pre: nat, post: nat) returns (p: nat)
    requires pre <= post
    ensures p == FirstPad(pre, post - pre)
  {
    if !SameBundle(pre, post) {
      return BUNDLE_SIZE - pre % BUNDLE_SIZE;
    }
    return 0;
  }

  /** Behind the nops the region measures as the labels of the start say. */
  lemma PaddedSize(w: World, first: nat, second: nat, insts: seq<Inst>)
    requires Sound(X86, w) && Roomy(|w.code|, Nops(first)) && Roomy(|After(w, Nops(first)).code|, Nops(second))
    requires Roomy(|After(After(w, Nops(first)), Nops(second)).code|, insts)
    ensures var w2 := After(After(w, Nops(first)), Nops(second));
            && |w2.code| == |w.code| + first + second
            && |After(w2, insts).code| == |w2.code| + RegionSize(w, insts, |w2.code|)
  {
    hide Sound, After, RegionSize, Nops, Emittable;
    var w1 := After(w, Nops(first));
    var w2 := After(w1, Nops(second));
    NopsSize(w, first, |w.code|);
    NopsSize(w1, second, |w1.code|);
    AfterBinds(w, Nops(first));
    AfterBinds(w1, Nops(second));
    SizeStable(w, w1, insts, |w2.code|);
    SizeStable(w1, w2, insts, |w2.code|);
  }

  // --- Regions stay within a bundle ---

  function Start(w: World, insts: seq<Inst>, pre: nat, alignToEnd: bool): nat {
    pre + PadBefore(pre, RegionSize(w, insts, pre), alignToEnd)
  }

  /** How far the emitted bundle reaches: to the end of the region, or of the bundle it ends in. */
  lemma BundleEnds(w: World, insts: seq<Inst>, alignToEnd: bool, padToEnd: bool)
    requires Sound(X86, w) && BundleRoomy(|w.code|, insts)
    ensures var start := Start(w, insts, |w.code|, alignToEnd);
            var post := start + RegionSize(w, insts, start);
            && |BundleWorld(w, insts, alignToEnd, padToEnd).code| == post + PadAfter(post, padToEnd)
            && (padToEnd ==> (post + PadAfter(post, padToEnd)) % BUNDLE_SIZE == 0)
  {
    hide Sound, After, RegionSize, Nops, FirstPad, SecondPad, PadAfter, Emittable, BundleRoomy;
    var pre := |w.code|;
    BundleFits(w, insts, pre, alignToEnd, padToEnd);
    var m := RegionSize(w, insts, pre);
    var first := FirstPad(pre, m);
    var second := SecondPad(pre + first + m, alignToEnd);
    var start := pre + first + second;
    var post := start + RegionSize(w, insts, start);
    var last := PadAfter(post, padToEnd);
    AfterFour(w, Nops(first), Nops(second), insts, Nops(last));
    PaddedSize(w, first, second, insts);
    NopsSize(After(After(After(w, Nops(first)), Nops(second)), insts), last, post);
    PadEnds(post, padToEnd);
  }

  lemma PadEnds(post: nat, padToEnd: bool)
    ensures padToEnd ==> (post + PadAfter(post, padToEnd)) % BUNDLE_SIZE == 0
  {
  }

  /** A jump back is in 8-bit reach of its label at a position, and no longer `d` bytes further on: the
      guard of the short form holds in the first pass and fails in the second. */
  predicate LosesReach(w: World, i: Inst, at: nat, d: nat) {
    match i
    case Cond(_, n, _) => OutOfReach(w, n, at, d)
    case Always(n, _) => OutOfReach(w, n, at, d)
    case _ => false
  }

  predicate OutOfReach(w: World, n: nat, at: nat, d: nat) {
    w.LabelOf(n).IsBound() && IsInt8(w.LabelOf(n).BoundAt() - at - 2) && !IsInt8(w.LabelOf(n).BoundAt() - (at + d) - 2)
  }

  /** Some jump of the region, at its position in the first pass, loses its reach to `d` bytes. */
  predicate SomeLosesReach(w: World, insts: seq<Inst>, at: nat, d: nat) {
    insts != [] && (LosesReach(w, insts[0], at, d) || SomeLosesReach(w, insts[1..], at + SizeOf(w, insts[0], at), d))
  }

  /** What the long form of a jump takes more than the short one. */
  function Longer(i: Inst): nat {
    match i
    case Cond(_, _, _) => 4
    case Always(_, _) => 3
    case _ => 0
  }

  /** The bytes a region grows by, `d` bytes further on: each jump that loses its reach moves the jumps
      behind it further still. */
  function LostBytes(w: World, insts: seq<Inst>, at: nat, d: nat): nat {
    if insts == [] then 0
    else
      var lost := if LosesReach(w, insts[0], at, d) then Longer(insts[0]) else 0;
      lost + LostBytes(w, insts[1..], at + SizeOf(w, insts[0], at), d + lost)
  }

  ghost predicate BindsBefore(w: World, at: nat) {
    forall l: nat :: w.LabelOf(l).IsBound() ==> w.LabelOf(l).BoundAt() <= at
  }

  lemma MovedSize(w: World, i: Inst, at: nat, d: nat)
    requires BindsBefore(w, at)
    ensures SizeOf(w, i, at + d) == SizeOf(w, i, at) + if LosesReach(w, i, at, d) then Longer(i) else 0
  {
  }

  /** Moved on, a region takes exactly the bytes its jumps lose more. */
  lemma {:induction false} MovedRegion(w: World, insts: seq<Inst>, at: nat, d: nat)
    requires BindsBefore(w, at)
    ensures RegionSize(w, insts, at + d) == RegionSize(w, insts, at) + LostBytes(w, insts, at, d)
    decreases |insts|
  {
    hide SizeOf, LosesReach, Longer;
    if insts != [] {
      MovedSize(w, insts[0], at, d);
      var s, lost := SizeOf(w, insts[0], at), if LosesReach(w, insts[0], at, d) then Longer(insts[0]) else 0;
      assert at + d + (s + lost) == at + s + (d + lost);
      MovedRegion(w, insts[1..], at + s, d + lost);
    }
  }

  /** It keeps its size exactly when no jump loses its reach. */
  lemma {:induction false} SizeKept(w: World, insts: seq<Inst>, at: nat, d: nat)
    requires BindsBefore(w, at)
    ensures RegionSize(w, insts, at + d) == RegionSize(w, insts, at) <==> !SomeLosesReach(w, insts, at, d)
    decreases |insts|
  {
    hide SizeOf;
    if insts != [] {
      MovedSize(w, insts[0], at, d);
      var s, s' := SizeOf(w, insts[0], at), SizeOf(w, insts[0], at + d);
      if LosesReach(w, insts[0], at, d) {
        SizesGrow(w, insts[1..], at + s, at + d + s');
      } else {
        SizeKept(w, insts[1..], at + s, d);
      }
    }
  }

  /** The most a region can grow, whatever the padding: 4 bytes for each conditional jump back and 3
      for each other one. */
  function GrowthBound(w: World, insts: seq<Inst>): nat {
    if insts == [] then 0
    else (if JumpsBack(w, insts[0]) then Longer(insts[0]) else 0) + GrowthBound(w, insts[1..])
  }

  predicate JumpsBack(w: World, i: Inst) {
    match i
    case Cond(_, n, _) => w.LabelOf(n).IsBound()
    case Always(n, _) => w.LabelOf(n).IsBound()
    case _ => false
  }

  lemma {:induction false} LostWithin(w: World, insts: seq<Inst>, at: nat, d: nat)
    ensures LostBytes(w, insts, at, d) <= GrowthBound(w, insts)
    decreases |insts|
  {
    hide SizeOf, IsInt8;
    if insts != [] {
      var lost := if LosesReach(w, insts[0], at, d) then Longer(insts[0]) else 0;
      LostWithin(w, insts[1..], at + SizeOf(w, insts[0], at), d + lost);
    }
  }

  /** A region measured at no more than a bundle lies within one bundle when it is emitted behind `d`
      bytes of padding: if it is to end with the bundle, exactly when no jump loses its reach to them;
      otherwise exactly when there is no padding, or what its jumps lose still leaves it a bundle's size. */
  lemma RegionInBundle(w: World, insts: seq<Inst>, alignToEnd: bool)
    requires Sound(X86, w) && 0 < RegionSize(w, insts, |w.code|) <= BUNDLE_SIZE
    ensures var pre, m := |w.code|, RegionSize(w, insts, |w.code|);
            var d := PadBefore(pre, m, alignToEnd);
            var m' := RegionSize(w, insts, pre + d);
            && (SameBundle(pre + d, pre + d + m') <==>
                  if alignToEnd then !SomeLosesReach(w, insts, pre, d)
                  else d == 0 || m + LostBytes(w, insts, pre, d) <= BUNDLE_SIZE)
            && (alignToEnd && !SomeLosesReach(w, insts, pre, d) ==> (pre + d + m') % BUNDLE_SIZE == 0)
  {
    hide Sound, RegionSize, PadBefore, SameBundle, RoomFor, LostBytes, SomeLosesReach;
    var pre, m := |w.code|, RegionSize(w, insts, |w.code|);
    var d := PadBefore(pre, m, alignToEnd);
    forall l: nat | w.LabelOf(l).IsBound() ensures w.LabelOf(l).BoundAt() <= pre { BindsBehind(w, l); }
    MovedRegion(w, insts, pre, d);
    SizeKept(w, insts, pre, d);
    PaddedInBundle(pre, m, RegionSize(w, insts, pre + d), alignToEnd);
    RoomLeft(pre, m, alignToEnd);
  }

  lemma RoomLeft(pre: nat, m: nat, alignToEnd: bool)
    requires 0 < m <= BUNDLE_SIZE
    ensures alignToEnd ==> RoomFor(pre, m, alignToEnd) == m
    ensures !alignToEnd ==> PadBefore(pre, m, alignToEnd) == 0 ==> m <= RoomFor(pre, m, alignToEnd)
    ensures !alignToEnd ==> PadBefore(pre, m, alignToEnd) > 0 ==> RoomFor(pre, m, alignToEnd) == BUNDLE_SIZE
  {
    InBundle(pre, m);
  }

  /** Hence a region whose longest form fits a bundle lies within one; if it cannot grow it also ends with
      it, asked to. */
  lemma ForwardRegionInBundle(w: World, insts: seq<Inst>, alignToEnd: bool)
    requires Sound(X86, w) && 0 < RegionSize(w, insts, |w.code|)
    requires RegionSize(w, insts, |w.code|) + GrowthBound(w, insts) <= BUNDLE_SIZE && (alignToEnd ==> GrowthBound(w, insts) == 0)
    ensures var start := Start(w, insts, |w.code|, alignToEnd);
            var end := start + RegionSize(w, insts, start);
            SameBundle(start, end) && (alignToEnd ==> end % BUNDLE_SIZE == 0)
  {
    hide Sound, RegionSize, PadBefore, SameBundle, LostBytes, SomeLosesReach, GrowthBound;
    var d := PadBefore(|w.code|, RegionSize(w, insts, |w.code|), alignToEnd);
    forall l: nat | w.LabelOf(l).IsBound() ensures w.LabelOf(l).BoundAt() <= |w.code| { BindsBehind(w, l); }
    RegionInBundle(w, insts, alignToEnd);
    LostWithin(w, insts, |w.code|, d);
    MovedRegion(w, insts, |w.code|, d);
    SizeKept(w, insts, |w.code|, d);
  }

  lemma {:induction false} NoJumpsBack(w: World, insts: seq<Inst>)
    requires forall k :: 0 <= k < |insts| ==> !JumpsBack(w, insts[k])
    ensures GrowthBound(w, insts) == 0
  {
    if insts != [] { NoJumpsBack(w, insts[1..]); }
  }

  /** In particular a region without jumps to bound labels, however it is to be aligned. */
  lemma NoJumpsInBundle(w: World, insts: seq<Inst>, alignToEnd: bool)
    requires Sound(X86, w) && 0 < RegionSize(w, insts, |w.code|) <= BUNDLE_SIZE
    requires forall k :: 0 <= k < |insts| ==> !JumpsBack(w, insts[k])
    ensures var start := Start(w, insts, |w.code|, alignToEnd);
            var end := start + RegionSize(w, insts, start);
            SameBundle(start, end) && (alignToEnd ==> end % BUNDLE_SIZE == 0)
  {
    hide Sound, RegionSize, Start, SameBundle, GrowthBound;
    NoJumpsBack(w, insts);
    ForwardRegionInBundle(w, insts, alignToEnd);
  }

  /** Any single instruction lies within one bundle, even a jump that the padding has made longer. */
  lemma SingleInBundle(w: World, i: Inst)
    requires Sound(X86, w) && Emittable(i)
    ensures var start := Start(w, [i], |w.code|, false);
            SameBundle(start, start + RegionSize(w, [i], start))
  {
    hide Sound, RegionSize, SizeOf, SameBundle, FirstPad;
    var pre := |w.code|;
    var start := Start(w, [i], pre, false);
    NewBundle(pre, RegionSize(w, [i], pre));
    SizeFits(w, i, start);
    SizeFits(w, i, pre);
    SizeOfOne(w, i, pre);
    SizeOfOne(w, i, start);
    var m, m' := RegionSize(w, [i], pre), RegionSize(w, [i], start);
    InBundleOrEmpty(pre, m);
    InBundleOrEmpty(start, m');
  }

  lemma NewBundle(pre: nat, m: nat)
    ensures FirstPad(pre, m) == 0 ==> SameBundle(pre, pre + m)
    ensures FirstPad(pre, m) != 0 ==> (pre + FirstPad(pre, m)) % BUNDLE_SIZE == 0
  {
    hide SameBundle;
  }

  lemma SizeOfOne(w: World, i: Inst, at: nat)
    ensures RegionSize(w, [i], at) == SizeOf(w, i, at)
  {
    assert [i][1..] == [];
  }

  lemma InBundleOrEmpty(start: nat, m: nat)
    ensures SameBundle(start, start + m) <==> m == 0 || start % BUNDLE_SIZE + m <= BUNDLE_SIZE
  {
    if m > 0 { InBundle(start, m); }
  }

  /** A locked region of several instructions may leave its bundle: here padding by 16 turns the jump
      at its end from 2 bytes into 6, and 30 measured bytes become 34. */
  lemma PaddingMayOverflow(w: World, a: seq<byte>, b: seq<byte>)
    requires w.LabelOf(0) == BoundLabel(20) && |a| == |b| == 14
    ensures var insts := [Plain(a), Plain(b), Cond(4, 0, false)];
            && RegionSize(w, insts, 112) == 30
            && Start(w, insts, 112, false) == 128
            && RegionSize(w, insts, 128) == 34 && !SameBundle(128, 128 + 34)
  {
    var insts := [Plain(a), Plain(b), Cond(4, 0, false)];
    forall at: nat ensures RegionSize(w, insts, at) == 28 + SizeOf(w, Cond(4, 0, false), at + 28) {
      assert insts[1..] == [Plain(b), Cond(4, 0, false)] && insts[1..][1..] == [Cond(4, 0, false)];
      SizeOfOne(w, Cond(4, 0, false), at + 28);
    }
  }

  /** The world of that case is one that a run builds. */
  lemma OverflowReachable(a: seq<byte>, b: seq<byte>)
    requires |a| == 20 && |b| == 92
    ensures var ops := [Raw(a), Bind(0), Raw(b)];
            && Program(X86, ops)
            && |Assembled(X86, ops).code| == 112 && Assembled(X86, ops).LabelOf(0) == BoundLabel(20)
  {
    hide TextKept, LabelSound, InOrder, Step, Allowed;
    EmptyWorldSound(X86);
    ThreeSteps(a, b);
    var w1 := Step(X86, EMPTY_WORLD, Raw(a));
    var w2 := Step(X86, w1, Bind(0));
    var w3 := Step(X86, w2, Raw(b));
    RunNothing(w3);
    RunCons(w2, Raw(b), []);
    RunCons(w1, Bind(0), [Raw(b)]);
    RunCons(EMPTY_WORLD, Raw(a), [Bind(0), Raw(b)]);
    assert [Raw(b)] + [] == [Raw(b)] && [Bind(0)] + [Raw(b)] == [Bind(0), Raw(b)];
    assert [Raw(a)] + [Bind(0), Raw(b)] == [Raw(a), Bind(0), Raw(b)];
  }

  lemma RunCons(w: World, op: Op, rest: seq<Op>)
    requires Sound(X86, w) && Allowed(X86, w, op) && Sound(X86, Step(X86, w, op))
    requires AllowedRun(X86, Step(X86, w, op), rest)
    ensures AllowedRun(X86, w, [op] + rest)
    ensures Run(X86, w, [op] + rest) == Run(X86, Step(X86, w, op), rest)
  {
    hide TextKept, LabelSound, InOrder, Allowed, Step;
    assert ([op] + rest)[1..] == rest;
  }

  lemma ThreeSteps(a: seq<byte>, b: seq<byte>)
    requires |a| == 20 && |b| == 92
    ensures Sound(X86, EMPTY_WORLD) && Allowed(X86, EMPTY_WORLD, Raw(a))
    ensures var w1 := Step(X86, EMPTY_WORLD, Raw(a));
            && Sound(X86, w1) && Allowed(X86, w1, Bind(0))
            && var w2 := Step(X86, w1, Bind(0));
               && Sound(X86, w2) && Allowed(X86, w2, Raw(b))
               && var w3 := Step(X86, w2, Raw(b));
                  Sound(X86, w3) && |w3.code| == 112 && w3.LabelOf(0) == BoundLabel(20)
  {
    hide TextKept, LabelSound, InOrder;
    EmptyWorldSound(X86);
    StepSound(X86, EMPTY_WORLD, Raw(a));
    var w1 := Step(X86, EMPTY_WORLD, Raw(a));
    StepSound(X86, w1, Bind(0));
    StepSound(X86, Step(X86, w1, Bind(0)), Raw(b));
  }
}
