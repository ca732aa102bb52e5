/** Whole runs of an assembler: every branch lands, every other byte stays as emitted. */
module BranchRuns {
  import opened Bytes
  import opened BranchEncoding
  import opened BranchLinking

  ghost predicate AllowedRun(arch: Arch, w: World, ops: seq<Op>)
    requires Sound(arch, w)
    decreases |ops|
  {
    ops == [] || (Allowed(arch, w, ops[0]) && (StepSound(arch, w, ops[0]); AllowedRun(arch, Step(arch, w, ops[0]), ops[1..])))
  }

  ghost function Run(arch: Arch, w: World, ops: seq<Op>): (w': World)
    requires Sound(arch, w) && AllowedRun(arch, w, ops)
    ensures Sound(arch, w')
    decreases |ops|
  {
    if ops == [] then w else
    StepSound(arch, w, ops[0]);
    Run(arch, Step(arch, w, ops[0]), ops[1..])
  }

  lemma EmptyWorldSound(arch: Arch)
    ensures Sound(arch, EMPTY_WORLD)
  {
    forall l: nat ensures LabelSound(arch, EMPTY_WORLD, l) {}
  }

  /** A run from nothing whose every step the source allows, and the world it builds. */
  ghost predicate Program(arch: Arch, ops: seq<Op>) {
    EmptyWorldSound(arch);
    AllowedRun(arch, EMPTY_WORLD, ops)
  }

  ghost function Assembled(arch: Arch, ops: seq<Op>): (w: World)
    requires Program(arch, ops)
    ensures Sound(arch, w)
  {
    EmptyWorldSound(arch);
    Run(arch, EMPTY_WORLD, ops)
  }

  lemma {:induction false} RunSplit(arch: Arch, w: World, ops: seq<Op>, i: nat)
    requires Sound(arch, w) && AllowedRun(arch, w, ops) && i <= |ops|
    ensures AllowedRun(arch, w, ops[..i])
    ensures AllowedRun(arch, Run(arch, w, ops[..i]), ops[i..])
    ensures Run(arch, w, ops) == Run(arch, Run(arch, w, ops[..i]), ops[i..])
    decreases i
  {
    hide LabelSound, TextKept, WordAligned, InOrder, Allowed, Step;
    if i == 0 {
      assert ops[i..] == ops;
    } else {
      StepSound(arch, w, ops[0]);
      RunSplit(arch, Step(arch, w, ops[0]), ops[1..], i - 1);
      assert ops[..i][1..] == ops[1..][..i - 1] && ops[1..][i - 1..] == ops[i..] && ops[..i][0] == ops[0];
    }
  }

  /** What a step never takes back: the text, the branches, and where a label was placed. */
  ghost predicate Extends(w: World, w': World) {
    && |w.code| <= |w'.code|
    && w.text <= w'.text
    && w.sites <= w'.sites
    && (forall k :: |w.sites| <= k < |w'.sites| ==> |w.code| <= w'.sites[k].start)
    && (forall l: nat :: w.LabelOf(l).IsBound() ==> w'.LabelOf(l) == w.LabelOf(l))
  }

  lemma StepExtends(arch: Arch, w: World, op: Op)
    requires Sound(arch, w) && Allowed(arch, w, op)
    ensures Extends(w, Step(arch, w, op))
  {
    hide TextKept, LabelSound, Field, Bound, InOrder;
  }

  lemma {:induction false} RunExtends(arch: Arch, w: World, ops: seq<Op>)
    requires Sound(arch, w) && AllowedRun(arch, w, ops)
    ensures Extends(w, Run(arch, w, ops))
    decreases |ops|
  {
    hide LabelSound, TextKept, WordAligned, InOrder, Allowed, Step;
    if ops != [] {
      var w1 := Step(arch, w, ops[0]);
      StepSound(arch, w, ops[0]);
      StepExtends(arch, w, ops[0]);
      RunExtends(arch, w1, ops[1..]);
      var w2 := Run(arch, w1, ops[1..]);
      forall k | |w.sites| <= k < |w2.sites| ensures |w.code| <= w2.sites[k].start {
        if k < |w1.sites| { assert w2.sites[k] == w1.sites[k]; }
      }
    }
  }

  /** The site a branch step records. */
  function SiteOf(w: World, op: Op): Site
    requires op.Branch?
  {
    Site(|w.code|, |w.code| + |op.pre|, op.narrow, op.target)
  }

  lemma AtStep(arch: Arch, ops: seq<Op>, i: nat)
    requires Program(arch, ops) && i < |ops|
    ensures Program(arch, ops[..i])
    ensures var w := Assembled(arch, ops[..i]);
            Sound(arch, w) && Allowed(arch, w, ops[i]) && Extends(Step(arch, w, ops[i]), Assembled(arch, ops))
  {
    hide LabelSound, TextKept, WordAligned, InOrder, Allowed, Step;
    EmptyWorldSound(arch);
    RunSplit(arch, EMPTY_WORLD, ops, i);
    var w := Assembled(arch, ops[..i]);
    var rest := ops[i..];
    assert rest[0] == ops[i];
    StepSound(arch, w, ops[i]);
    RunExtends(arch, Step(arch, w, ops[i]), rest[1..]);
  }

  /** In every run of every back end, a branch to a label bound anywhere in the run, before or after
      the branch, goes to the place where the label was bound; and its opcode is the one emitted. */
  lemma BranchLands(arch: Arch, ops: seq<Op>, i: nat, j: nat)
    requires Program(arch, ops)
    requires i < |ops| && j < |ops| && ops[i].Branch? && ops[j] == Bind(ops[i].target)
    ensures Program(arch, ops[..i]) && Program(arch, ops[..j])
    ensures var s := SiteOf(Assembled(arch, ops[..i]), ops[i]);
            var code := Assembled(arch, ops).code;
            && s.FieldEnd() <= |code|
            && Lands(arch, code, s, |Assembled(arch, ops[..j]).code|)
            && (!s.narrow ==> Opcode(arch, Load32(code, s.slot)) == Opcode(arch, ops[i].word))
  {
    hide Sound, Step, Lands, Opcode, Load32, TextKept, Allowed, LabelSound;
    var final := Assembled(arch, ops);
    AtStep(arch, ops, i);
    AtStep(arch, ops, j);
    var wi, wj := Assembled(arch, ops[..i]), Assembled(arch, ops[..j]);
    var s := SiteOf(wi, ops[i]);
    BranchRecorded(arch, wi, ops[i], final);
    BindRecorded(arch, wj, ops[i].target, final);
    var k := |wi.sites|;
    SiteLands(arch, final, k);
    if !s.narrow {
      OpcodeEmitted(arch, wi, ops[i], final);
    }
  }

  lemma BranchRecorded(arch: Arch, w: World, op: Op, final: World)
    requires Sound(arch, w) && Allowed(arch, w, op) && op.Branch? && Extends(Step(arch, w, op), final)
    ensures |w.sites| < |final.sites| && final.sites[|w.sites|] == SiteOf(w, op)
  {
    hide TextKept, LabelSound, InOrder, Field;
    assert Step(arch, w, op).sites[|w.sites|] == SiteOf(w, op);
  }

  lemma BindRecorded(arch: Arch, w: World, l: nat, final: World)
    requires Sound(arch, w) && Extends(Step(arch, w, Bind(l)), final)
    ensures final.LabelOf(l).IsBound() && final.LabelOf(l).BoundAt() == |w.code|
  {
    hide TextKept, LabelSound, InOrder, Bound;
    assert Step(arch, w, Bind(l)).LabelOf(l) == BoundLabel(|w.code|);
  }

  lemma SiteLands(arch: Arch, w: World, k: nat)
    requires Sound(arch, w) && k < |w.sites| && w.LabelOf(w.sites[k].target).IsBound()
    ensures w.sites[k].FieldEnd() <= |w.code| && Lands(arch, w.code, w.sites[k], w.LabelOf(w.sites[k].target).BoundAt())
  {
    hide TextKept, Lands;
    assert LabelSound(arch, w, w.sites[k].target);
    assert w.sites[k].End(arch) <= |w.code|;
  }

  lemma PrefixSlice(t: seq<byte>, u: seq<byte>, i: nat, j: nat)
    requires t <= u && i <= j <= |t|
    ensures u[i..j] == t[i..j]
  {
    forall k | 0 <= k < j - i ensures u[i..j][k] == t[i..j][k] { assert u[i + k] == t[i + k]; }
  }

  lemma OpcodeEmitted(arch: Arch, w: World, op: Op, final: World)
    requires Sound(arch, w) && Allowed(arch, w, op) && op.Branch? && !op.narrow
    requires Sound(arch, final) && Extends(Step(arch, w, op), final)
    ensures SiteOf(w, op).FieldEnd() <= |final.code|
    ensures Opcode(arch, Load32(final.code, SiteOf(w, op).slot)) == Opcode(arch, op.word)
  {
    hide Opcode, Load32, LabelSound, PatchWord, LinkWord, Bytes32;
    BranchRecorded(arch, w, op, final);
    var s := SiteOf(w, op);
    assert final.sites[|w.sites|].End(arch) <= |final.code|;
    var lab := w.LabelOf(op.target);
    var field := Field(arch, s.slot, lab, false, op.word);
    var text := Step(arch, w, op).text;
    assert text[s.slot..s.slot + 4] == field;
    PrefixSlice(text, final.text, s.slot, s.slot + 4);
    if lab.IsBound() {
      PatchLands(arch, s.slot, lab.BoundAt(), op.word);
      LoadBytes32(final.text, s.slot, PatchWord(arch, s.slot, lab.BoundAt(), op.word));
    } else {
      LinkReadsBack(arch, s.slot, lab.position, op.word);
      LoadBytes32(final.text, s.slot, LinkWord(arch, s.slot, lab.position, op.word));
    }
  }

  /** The bytes of a step that are not a branch field, by their offset in what the step emits. */
  predicate Plain(op: Op, offset: nat) {
    match op
    case Raw(bytes) => offset < |bytes|
    case Reloc(bytes, _) => offset < |bytes|
    case Branch(pre, narrow, _, post, _) =>
      offset < |pre| || |pre| + (if narrow then 1 else 4) <= offset < |pre| + (if narrow then 1 else 4) + |post|
    case Bind(_) => false
  }

  function PlainByte(op: Op, offset: nat): byte
    requires Plain(op, offset)
  {
    match op
    case Raw(bytes) => bytes[offset]
    case Reloc(bytes, _) => bytes[offset]
    case Branch(pre, narrow, _, post, _) =>
      if offset < |pre| then pre[offset] else post[offset - |pre| - (if narrow then 1 else 4)]
  }

  /** Whatever is bound later, a byte outside the branch fields ends the run as it was emitted. */
  lemma PlainBytesStay(arch: Arch, ops: seq<Op>, i: nat, offset: nat)
    requires Program(arch, ops) && i < |ops| && Plain(ops[i], offset)
    ensures Program(arch, ops[..i])
    ensures var at := |Assembled(arch, ops[..i]).code| + offset;
            var code := Assembled(arch, ops).code;
            at < |code| && code[at] == PlainByte(ops[i], offset)
  {
    hide Sound, Step, Allowed;
    AtStep(arch, ops, i);
    PlainByteStays(arch, Assembled(arch, ops[..i]), ops[i], offset, Assembled(arch, ops));
  }

  lemma PlainByteStays(arch: Arch, w: World, op: Op, offset: nat, final: World)
    requires Sound(arch, w) && Allowed(arch, w, op) && Plain(op, offset)
    requires Sound(arch, final) && Extends(Step(arch, w, op), final)
    ensures |w.code| + offset < |final.code| && final.code[|w.code| + offset] == PlainByte(op, offset)
  {
    hide LabelSound, Opcode, Load32, Allowed, WordAligned, Field;
    var at := |w.code| + offset;
    var w1 := Step(arch, w, op);
    assert w1.text[at] == PlainByte(op, offset) && final.text[at] == w1.text[at];
    forall k | 0 <= k < |final.sites| ensures !final.sites[k].Covers(at) {
      if k < |w.sites| {
        assert w.sites[k].End(arch) <= |w.code|;
        assert final.sites[k] == w1.sites[k] == w.sites[k];
      } else if k < |w1.sites| {
        assert final.sites[k] == w1.sites[k];
      }
    }
  }

  // --- Sites and the steps they come from ---

  /** Every branch recorded in a run was emitted by one of its steps. */
  lemma {:induction false} SiteFrom(arch: Arch, ops: seq<Op>, k: nat) returns (i: nat)
    requires Program(arch, ops) && k < |Assembled(arch, ops).sites|
    ensures i < |ops| && ops[i].Branch? && Program(arch, ops[..i])
    ensures Assembled(arch, ops).sites[k] == SiteOf(Assembled(arch, ops[..i]), ops[i])
    decreases |ops|
  {
    hide TextKept, LabelSound, InOrder, Allowed, Field, Bound;
    assert ops != [] by { NothingRecorded(arch); }
    var n := |ops| - 1;
    LastStep(arch, ops);
    var w := Assembled(arch, ops[..n]);
    if k < |w.sites| {
      i := SiteFrom(arch, ops[..n], k);
      assert ops[..n][..i] == ops[..i];
    } else {
      i := n;
    }
  }

  lemma NothingRecorded(arch: Arch)
    requires Program(arch, [])
    ensures Assembled(arch, []) == EMPTY_WORLD
  {
  }

  /** A run is its last step after the rest. */
  lemma LastStep(arch: Arch, ops: seq<Op>)
    requires Program(arch, ops) && ops != []
    ensures var n := |ops| - 1;
            && Program(arch, ops[..n]) && Allowed(arch, Assembled(arch, ops[..n]), ops[n])
            && Assembled(arch, ops) == Step(arch, Assembled(arch, ops[..n]), ops[n])
  {
    hide LabelSound, TextKept, WordAligned, InOrder, Allowed, Step;
    var n := |ops| - 1;
    AtStep(arch, ops, n);
    EmptyWorldSound(arch);
    RunSplit(arch, EMPTY_WORLD, ops, n);
    var w := Assembled(arch, ops[..n]);
    assert ops[n..] == [ops[n]] && [ops[n]][1..] == [];
    StepSound(arch, w, ops[n]);
  }

  // --- Relocations ---

  /** Where the relocated words of a run are, in order: `at` bytes into what each step emitted. */
  ghost function Relocations(arch: Arch, ops: seq<Op>): seq<nat>
    requires Program(arch, ops)
  {
    if ops == [] then []
    else
      var n := |ops| - 1;
      LastStep(arch, ops);
      Relocations(arch, ops[..n]) + if ops[n].Reloc? then [|Assembled(arch, ops[..n]).code| + ops[n].at] else []
  }

  /** The fixups of a run are the positions of its relocated words, whatever is bound in between. */
  lemma {:induction false} FixupsExact(arch: Arch, ops: seq<Op>)
    requires Program(arch, ops)
    ensures Assembled(arch, ops).fixups == Relocations(arch, ops)
  {
    hide LabelSound, TextKept, WordAligned, InOrder, Allowed, Bound, Field;
    if ops == [] {
      NothingRecorded(arch);
    } else {
      LastStep(arch, ops);
      FixupsExact(arch, ops[..|ops| - 1]);
    }
  }

  /** At each of them the finished code still has the word the relocation was emitted with. */
  lemma FixupKept(arch: Arch, ops: seq<Op>, i: nat)
    requires Program(arch, ops) && i < |ops| && ops[i].Reloc? && ops[i].at + 4 <= |ops[i].bytes|
    ensures Program(arch, ops[..i])
    ensures var p, code := |Assembled(arch, ops[..i]).code| + ops[i].at, Assembled(arch, ops).code;
            p in Assembled(arch, ops).fixups && p + 4 <= |code| && code[p..p + 4] == ops[i].bytes[ops[i].at..ops[i].at + 4]
  {
    hide Step, Sound, Allowed;
    AtStep(arch, ops, i);
    FixupRecorded(arch, ops, i);
    var at, code := |Assembled(arch, ops[..i]).code|, Assembled(arch, ops).code;
    var p := at + ops[i].at;
    forall q | p <= q < p + 4 ensures q < |code| && code[q] == ops[i].bytes[q - at] { PlainBytesStay(arch, ops, i, q - at); }
    PlainBytesStay(arch, ops, i, ops[i].at + 3);
  }

  lemma {:induction false} FixupRecorded(arch: Arch, ops: seq<Op>, i: nat)
    requires Program(arch, ops) && i < |ops| && ops[i].Reloc?
    ensures Program(arch, ops[..i]) && |Assembled(arch, ops[..i]).code| + ops[i].at in Assembled(arch, ops).fixups
    decreases |ops|
  {
    hide LabelSound, TextKept, WordAligned, InOrder, Allowed, Bound, Field;
    var n := |ops| - 1;
    LastStep(arch, ops);
    if i < n {
      FixupRecorded(arch, ops[..n], i);
      assert ops[..n][..i] == ops[..i];
    }
  }
}
