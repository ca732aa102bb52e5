/** Branches, labels and backpatching as a machine on values, for any run.

    A `World` is the emitted code with the labels that refer to it, together with its history:
    every branch emitted so far (`sites`) and every byte as it was first emitted (`text`).
    `Step` is one emission or one binding; `Sound` is what every step keeps.
 */
module BranchLinking {
  import opened Bytes
  import opened BranchEncoding

  /** The offset the label encoding adds so that position 0 is not the unused label. */
  const WORD_SIZE := 4

  /** 0 is unused, a positive position is the latest linked slot plus 4, a negative one is bound.
      `near` holds the one-byte slots, which are too small to hold a link. */
  datatype LabelValue = LabelValue(position: int, near: seq<nat>) {
    predicate IsBound() { position < 0 }
    predicate IsLinked() { position > 0 }
    function BoundAt(): int { -position - WORD_SIZE }
  }

  const UNUSED := LabelValue(0, [])

  function BoundLabel(position: int): LabelValue { LabelValue(-position - WORD_SIZE, []) }

  /** A branch to label `target` whose instruction begins at `start` and whose field, one byte wide
      if `narrow` and a word otherwise, begins at `slot`. */
  datatype Site = Site(start: nat, slot: nat, narrow: bool, target: nat) {
    function FieldEnd(): nat { slot + if narrow then 1 else 4 }
    /** The first byte after the instruction and, on MIPS32, after its delay slot. */
    function End(arch: Arch): nat { if arch == MIPS32 then slot + 8 else FieldEnd() }
    predicate Covers(i: int) { slot <= i < FieldEnd() }
  }

  datatype World = World(code: seq<byte>, labels: map<nat, LabelValue>, fixups: seq<nat>,
                         sites: seq<Site>, text: seq<byte>)
  {
    function LabelOf(l: nat): LabelValue { if l in labels then labels[l] else UNUSED }
  }

  const EMPTY_WORLD := World([], map[], [], [], [])

  /** The slots of one width that refer to one label, oldest first. */
  function Slots(sites: seq<Site>, l: nat, narrow: bool): seq<nat> {
    if sites == [] then [] else
    var last := sites[|sites| - 1];
    Slots(sites[..|sites| - 1], l, narrow) + if last.target == l && last.narrow == narrow then [last.slot] else []
  }

  // --- Steps ---

  /** One emission: other code, code with a relocation at offset `at`, a branch whose field is
      preceded by `pre`, followed by `post` and carries the opcode bits of `word`, or a binding. */
  datatype Op =
    | Raw(bytes: seq<byte>)
    | Reloc(bytes: seq<byte>, at: nat)
    | Branch(pre: seq<byte>, narrow: bool, word: uint32, post: seq<byte>, target: nat)
    | Bind(target: nat)

  /** The field a branch is emitted with: the displacement if its label is bound, else a link. */
  function Field(arch: Arch, slot: nat, lab: LabelValue, narrow: bool, word: uint32): (f: seq<byte>)
    ensures |f| == if narrow then 1 else 4
  {
    if narrow then [if lab.IsBound() then NearField(slot, lab.BoundAt()) else 0]
    else if lab.IsBound() then Bytes32(PatchWord(arch, slot, lab.BoundAt(), word))
    else Bytes32(LinkWord(arch, slot, lab.position, word))
  }

  function Linked(slot: nat, lab: LabelValue, narrow: bool): LabelValue {
    if lab.IsBound() then lab
    else if narrow then lab.(near := lab.near + [slot])
    else lab.(position := slot + WORD_SIZE)
  }

  /** Overwrites word slots, the latest first, with the displacement to `bound`. */
  function PatchWords(arch: Arch, code: seq<byte>, slots: seq<nat>, bound: nat): (r: seq<byte>)
    requires forall i :: 0 <= i < |slots| ==> slots[i] + 4 <= |code|
    ensures |r| == |code|
    decreases |slots|
  {
    if slots == [] then code else
    var p := slots[|slots| - 1];
    PatchWords(arch, Store32(code, p, PatchWord(arch, p, bound, Load32(code, p))), slots[..|slots| - 1], bound)
  }

  function NearField(p: int, bound: int): byte { (bound - (p + 1)) % 0x100 }

  /** Overwrites one-byte slots, the latest first. */
  function PatchNear(code: seq<byte>, slots: seq<nat>, bound: nat): (r: seq<byte>)
    requires forall i :: 0 <= i < |slots| ==> slots[i] < |code|
    ensures |r| == |code|
    decreases |slots|
  {
    if slots == [] then code else
    var p := slots[|slots| - 1];
    PatchNear(code[p := NearField(p, bound)], slots[..|slots| - 1], bound)
  }

  /** The whole chain of slots threaded through the code: `enc` names the last of `slots`, the field
      there names the one before it, and the field of the first says there are no more. */
  predicate Chain(arch: Arch, code: seq<byte>, enc: int, slots: seq<nat>)
    requires forall i :: 0 <= i < |slots| ==> slots[i] + 4 <= |code|
    decreases |slots|
  {
    if slots == [] then enc == 0 else
    var p := slots[|slots| - 1];
    enc == p + WORD_SIZE && Chain(arch, code, NextLink(arch, p, Load32(code, p)), slots[..|slots| - 1])
  }

  /** The branch goes to `bound` when taken. */
  predicate Lands(arch: Arch, code: seq<byte>, s: Site, bound: int)
    requires s.FieldEnd() <= |code|
  {
    if s.narrow then s.slot + 1 + Signed8(code[s.slot]) == bound
    else TargetOf(arch, s.slot, Load32(code, s.slot)) == bound
  }

  // --- What every step keeps ---

  ghost predicate InOrder(arch: Arch, sites: seq<Site>, size: nat) {
    && (forall i :: 0 <= i < |sites| ==> sites[i].start <= sites[i].slot && sites[i].End(arch) <= size)
    && (forall i, j :: 0 <= i < j < |sites| ==> sites[i].End(arch) <= sites[j].start)
  }

  ghost predicate WordAligned(arch: Arch, w: World) {
    arch != X86 ==>
      && |w.code| % 4 == 0
      && (forall i :: 0 <= i < |w.sites| ==> w.sites[i].slot % 4 == 0 && !w.sites[i].narrow)
  }

  /** Outside the fields nothing changes after emission, and inside a field the opcode stays. */
  ghost predicate TextKept(arch: Arch, w: World) {
    && |w.text| == |w.code|
    && (forall i :: 0 <= i < |w.code| && (forall k :: 0 <= k < |w.sites| ==> !w.sites[k].Covers(i)) ==> w.code[i] == w.text[i])
    && (forall k :: 0 <= k < |w.sites| && w.sites[k].FieldEnd() <= |w.code| && !w.sites[k].narrow ==>
          Opcode(arch, Load32(w.code, w.sites[k].slot)) == Opcode(arch, Load32(w.text, w.sites[k].slot)))
  }

  ghost predicate LabelSound(arch: Arch, w: World, l: nat)
    requires InOrder(arch, w.sites, |w.code|)
  {
    SlotsFit(arch, w.sites, l, |w.code|);
    var lab := w.LabelOf(l);
    if lab.IsBound() then
      && lab.near == []
      && 0 <= lab.BoundAt() <= |w.code|
      && (arch != X86 ==> lab.BoundAt() % 4 == 0)
      && (forall k :: 0 <= k < |w.sites| && w.sites[k].target == l ==> Lands(arch, w.code, w.sites[k], lab.BoundAt()))
    else
      && lab.near == Slots(w.sites, l, true)
      && Chain(arch, w.code, lab.position, Slots(w.sites, l, false))
  }

  ghost predicate Sound(arch: Arch, w: World) {
    && InOrder(arch, w.sites, |w.code|)
    && WordAligned(arch, w)
    && TextKept(arch, w)
    && (forall l: nat :: LabelSound(arch, w, l))
  }

  lemma {:induction false} SlotsFit(arch: Arch, sites: seq<Site>, l: nat, size: nat)
    requires InOrder(arch, sites, size)
    ensures forall i :: 0 <= i < |Slots(sites, l, false)| ==> Slots(sites, l, false)[i] + 4 <= size
    ensures forall i :: 0 <= i < |Slots(sites, l, true)| ==> Slots(sites, l, true)[i] < size
  {
    if sites != [] {
      SlotsFit(arch, sites[..|sites| - 1], l, size);
    }
  }

  // --- When the source allows a step, and what it does ---

  /** The instruction around a branch field: one or two opcode bytes on x86, nothing on ARM32,
      a delay-slot nop after it on MIPS32. */
  predicate BranchShape(arch: Arch, pre: seq<byte>, narrow: bool, post: seq<byte>) {
    match arch
    case X86 => post == [] && JumpOpcode(pre, narrow)
    case ARM32 => pre == [] && post == [] && !narrow
    case MIPS32 => pre == [] && post == [0, 0, 0, 0] && !narrow
  }

  predicate JumpOpcode(pre: seq<byte>, narrow: bool) {
    if narrow then |pre| == 1 && (0x70 <= pre[0] < 0x80 || pre[0] == 0xEB)
    else pre == [0xE9] || (|pre| == 2 && pre[0] == 0x0F && 0x80 <= pre[1] < 0x90)
  }

  function Emitted(op: Op): nat {
    match op
    case Raw(bytes) => |bytes|
    case Reloc(bytes, _) => |bytes|
    case Branch(pre, narrow, _, post, _) => |pre| + (if narrow then 1 else 4) + |post|
    case Bind(_) => 0
  }

  /** The source's assertions about a step: buffers under 2^31 bytes, displacements and links that
      fit their fields, and labels bound only once. */
  ghost predicate Allowed(arch: Arch, w: World, op: Op) {
    && |w.code| + Emitted(op) < 0x8000_0000
    && match op
       case Raw(bytes) => arch != X86 ==> |bytes| % 4 == 0
       case Reloc(bytes, at) => at <= |bytes| && (arch != X86 ==> |bytes| % 4 == 0)
       case Branch(pre, narrow, word, post, l) =>
         var slot := |w.code| + |pre|;
         var lab := w.LabelOf(l);
         && BranchShape(arch, pre, narrow, post)
         && (lab.IsBound() && narrow ==> IsInt8(lab.BoundAt() - (slot + 1)))
         && (lab.IsBound() && !narrow ==> PatchFits(arch, slot, lab.BoundAt()))
         && (!lab.IsBound() && !narrow ==> LinkFits(arch, slot, lab.position))
       case Bind(l) =>
         && !w.LabelOf(l).IsBound()
         && (forall k :: 0 <= k < |w.sites| && w.sites[k].target == l ==>
               if w.sites[k].narrow then IsInt8(|w.code| - (w.sites[k].slot + 1))
               else PatchFits(arch, w.sites[k].slot, |w.code|))
  }

  ghost function Step(arch: Arch, w: World, op: Op): World
    requires InOrder(arch, w.sites, |w.code|)
  {
    match op
    case Raw(bytes) => w.(code := w.code + bytes, text := w.text + bytes)
    case Reloc(bytes, at) => w.(code := w.code + bytes, text := w.text + bytes, fixups := w.fixups + [|w.code| + at])
    case Branch(pre, narrow, word, post, l) =>
      var slot := |w.code| + |pre|;
      var bytes := pre + Field(arch, slot, w.LabelOf(l), narrow, word) + post;
      World(w.code + bytes, w.labels[l := Linked(slot, w.LabelOf(l), narrow)], w.fixups,
            w.sites + [Site(|w.code|, slot, narrow, l)], w.text + bytes)
    case Bind(l) =>
      w.(code := Bound(arch, w.code, w.sites, l), labels := w.labels[l := BoundLabel(|w.code|)])
  }

  /** The code after every branch to `l` has been patched to go to its end. */
  ghost function Bound(arch: Arch, code: seq<byte>, sites: seq<Site>, l: nat): (r: seq<byte>)
    requires InOrder(arch, sites, |code|)
    ensures |r| == |code|
  {
    SlotsFit(arch, sites, l, |code|);
    PatchNear(PatchWords(arch, code, Slots(sites, l, false), |code|), Slots(sites, l, true), |code|)
  }

  // --- Slots and the sites they come from ---

  lemma {:induction false} SlotSite(sites: seq<Site>, l: nat, narrow: bool, i: nat) returns (k: nat)
    requires i < |Slots(sites, l, narrow)|
    ensures k < |sites| && sites[k].slot == Slots(sites, l, narrow)[i] && sites[k].target == l && sites[k].narrow == narrow
  {
    var n := |sites| - 1;
    if i < |Slots(sites[..n], l, narrow)| {
      k := SlotSite(sites[..n], l, narrow, i);
    } else {
      k := n;
    }
  }

  lemma {:induction false} SiteSlot(sites: seq<Site>, k: nat) returns (i: nat)
    requires k < |sites|
    ensures i < |Slots(sites, sites[k].target, sites[k].narrow)| && Slots(sites, sites[k].target, sites[k].narrow)[i] == sites[k].slot
  {
    var n := |sites| - 1;
    if k < n {
      i := SiteSlot(sites[..n], k);
    } else {
      i := |Slots(sites[..n], sites[k].target, sites[k].narrow)|;
    }
  }

  /** Slots of one label never overlap and are listed in the order of their positions. */
  lemma {:induction false} SlotsAscend(arch: Arch, sites: seq<Site>, l: nat, narrow: bool, size: nat)
    requires InOrder(arch, sites, size)
    ensures forall i, j :: 0 <= i < j < |Slots(sites, l, narrow)| ==>
              Slots(sites, l, narrow)[i] + (if narrow then 1 else 4) <= Slots(sites, l, narrow)[j]
    ensures arch == MIPS32 && !narrow ==>
              forall i, j :: 0 <= i < j < |Slots(sites, l, narrow)| ==> Slots(sites, l, narrow)[i] + 8 <= Slots(sites, l, narrow)[j]
  {
    if sites != [] {
      var n := |sites| - 1;
      var older := Slots(sites[..n], l, narrow);
      SlotsAscend(arch, sites[..n], l, narrow, size);
      forall i | 0 <= i < |older| ensures older[i] + (if narrow then 1 else 4) <= sites[n].slot
                                  ensures arch == MIPS32 ==> older[i] + 8 <= sites[n].slot
      {
        var k := SlotSite(sites[..n], l, narrow, i);
        assert sites[k].End(arch) <= sites[n].start;
      }
    }
  }

  // --- Chains and patches ---

  /** A chain depends only on the words at its slots. */
  lemma {:induction false} ChainFrame(arch: Arch, code: seq<byte>, code': seq<byte>, enc: int, slots: seq<nat>)
    requires forall i :: 0 <= i < |slots| ==> slots[i] + 4 <= |code| && slots[i] + 4 <= |code'|
    requires forall i :: 0 <= i < |slots| ==> Load32(code, slots[i]) == Load32(code', slots[i])
    requires Chain(arch, code, enc, slots)
    ensures Chain(arch, code', enc, slots)
    decreases |slots|
  {
    if slots != [] {
      var p := slots[|slots| - 1];
      ChainFrame(arch, code, code', NextLink(arch, p, Load32(code, p)), slots[..|slots| - 1]);
    }
  }

  /** Patching gives every listed slot its displacement and touches no other byte. */
  lemma {:induction false} PatchWordsEffect(arch: Arch, code: seq<byte>, slots: seq<nat>, bound: nat)
    requires forall i :: 0 <= i < |slots| ==> slots[i] + 4 <= |code|
    requires forall i, j :: 0 <= i < j < |slots| ==> slots[i] + 4 <= slots[j]
    ensures forall i :: 0 <= i < |slots| ==>
              Load32(PatchWords(arch, code, slots, bound), slots[i]) == PatchWord(arch, slots[i], bound, Load32(code, slots[i]))
    ensures forall b :: 0 <= b < |code| && (forall i :: 0 <= i < |slots| ==> b < slots[i] || slots[i] + 4 <= b) ==>
              PatchWords(arch, code, slots, bound)[b] == code[b]
    decreases |slots|
  {
    hide Load32, Store32, PatchWord, PatchWords;
    PatchWordsHead(arch, code, slots, bound);
    if slots != [] {
      var n := |slots| - 1;
      var p, older := slots[n], slots[..n];
      var w := PatchWord(arch, p, bound, Load32(code, p));
      var code1, r := Store32(code, p, w), PatchWords(arch, code, slots, bound);
      LoadStore32(code, p, w);
      PatchWordsEffect(arch, code1, older, bound);
      forall b | 0 <= b < |code| && (forall i :: 0 <= i < |slots| ==> b < slots[i] || slots[i] + 4 <= b) ensures r[b] == code[b] {
        forall i | 0 <= i < n ensures b < older[i] || older[i] + 4 <= b { assert older[i] == slots[i]; }
        assert b < slots[n] || slots[n] + 4 <= b;
      }
      forall i | 0 <= i < |slots| ensures Load32(r, slots[i]) == PatchWord(arch, slots[i], bound, Load32(code, slots[i])) {
        if i == n {
          forall b | p <= b < p + 4 ensures r[b] == code1[b] {
            forall j | 0 <= j < n ensures b < older[j] || older[j] + 4 <= b { assert slots[j] + 4 <= slots[n]; }
          }
          LoadFrame(code1, r, p);
        } else {
          assert slots[i] + 4 <= slots[n] && older[i] == slots[i];
          LoadFrame(code, code1, slots[i]);
        }
      }
    }
  }

  lemma PatchWordsHead(arch: Arch, code: seq<byte>, slots: seq<nat>, bound: nat)
    requires forall i :: 0 <= i < |slots| ==> slots[i] + 4 <= |code|
    ensures slots == [] ==> PatchWords(arch, code, slots, bound) == code
    ensures slots != [] ==>
              var p := slots[|slots| - 1];
              PatchWords(arch, code, slots, bound)
              == PatchWords(arch, Store32(code, p, PatchWord(arch, p, bound, Load32(code, p))), slots[..|slots| - 1], bound)
  {
    hide Load32, Store32, PatchWord;
  }

  lemma {:induction false} PatchNearEffect(code: seq<byte>, slots: seq<nat>, bound: nat)
    requires forall i :: 0 <= i < |slots| ==> slots[i] < |code|
    requires forall i, j :: 0 <= i < j < |slots| ==> slots[i] < slots[j]
    ensures forall i :: 0 <= i < |slots| ==> PatchNear(code, slots, bound)[slots[i]] == NearField(slots[i], bound)
    ensures forall b :: 0 <= b < |code| && (forall i :: 0 <= i < |slots| ==> slots[i] != b) ==> PatchNear(code, slots, bound)[b] == code[b]
    decreases |slots|
  {
    hide NearField;
    if slots != [] {
      var n := |slots| - 1;
      var p, older := slots[n], slots[..n];
      var code1 := code[p := NearField(p, bound)];
      PatchNearEffect(code1, older, bound);
      var r := PatchNear(code1, older, bound);
      assert r == PatchNear(code, slots, bound);
      assert forall i :: 0 <= i < n ==> older[i] == slots[i];
      assert r[p] == code1[p];
      forall b | 0 <= b < |code| && (forall i :: 0 <= i < |slots| ==> slots[i] != b) ensures r[b] == code[b] {
        assert slots[n] != b;
      }
    }
  }

  /** Binding `l` gives every branch to `l` its displacement and changes no byte outside them: it
      visits exactly the branches that were linked, and no other label's chain can see it. */
  lemma BindEffect(arch: Arch, code: seq<byte>, sites: seq<Site>, l: nat)
    requires InOrder(arch, sites, |code|)
    ensures forall k :: 0 <= k < |sites| && sites[k].target == l ==>
              if sites[k].narrow then Bound(arch, code, sites, l)[sites[k].slot] == NearField(sites[k].slot, |code|)
              else Load32(Bound(arch, code, sites, l), sites[k].slot) == PatchWord(arch, sites[k].slot, |code|, Load32(code, sites[k].slot))
    ensures forall b :: 0 <= b < |code| && (forall k :: 0 <= k < |sites| && sites[k].target == l ==> !sites[k].Covers(b)) ==>
              Bound(arch, code, sites, l)[b] == code[b]
  {
    hide Load32, PatchWord, Slots, PatchWords, PatchNear, NearField;
    SlotsFit(arch, sites, l, |code|);
    SlotsAscend(arch, sites, l, false, |code|);
    SlotsAscend(arch, sites, l, true, |code|);
    var words, nears := Slots(sites, l, false), Slots(sites, l, true);
    var code1 := PatchWords(arch, code, words, |code|);
    var r := PatchNear(code1, nears, |code|);
    PatchWordsEffect(arch, code, words, |code|);
    PatchNearEffect(code1, nears, |code|);
    forall b | 0 <= b < |code| && (forall k :: 0 <= k < |sites| && sites[k].target == l ==> !sites[k].Covers(b))
      ensures r[b] == code[b]
    {
      Uncovered(sites, l, b);
    }
    forall k | 0 <= k < |sites| && sites[k].target == l
      ensures if sites[k].narrow then r[sites[k].slot] == NearField(sites[k].slot, |code|)
              else Load32(r, sites[k].slot) == PatchWord(arch, sites[k].slot, |code|, Load32(code, sites[k].slot))
    {
      var i := SiteSlot(sites, k);
      if !sites[k].narrow {
        NearApart(arch, sites, |code|, l, k);
        forall b | sites[k].slot <= b < sites[k].slot + 4 ensures r[b] == code1[b] {
          assert sites[k].Covers(b);
        }
        LoadFrame(code1, r, sites[k].slot);
      }
    }
  }

  /** A byte in no field of `l` is in none of its slots. */
  lemma Uncovered(sites: seq<Site>, l: nat, b: nat)
    requires forall k :: 0 <= k < |sites| && sites[k].target == l ==> !sites[k].Covers(b)
    ensures forall i :: 0 <= i < |Slots(sites, l, false)| ==> b < Slots(sites, l, false)[i] || Slots(sites, l, false)[i] + 4 <= b
    ensures forall i :: 0 <= i < |Slots(sites, l, true)| ==> Slots(sites, l, true)[i] != b
  {
    forall i | 0 <= i < |Slots(sites, l, false)| ensures b < Slots(sites, l, false)[i] || Slots(sites, l, false)[i] + 4 <= b {
      var k := SlotSite(sites, l, false, i);
    }
    forall i | 0 <= i < |Slots(sites, l, true)| ensures Slots(sites, l, true)[i] != b {
      var k := SlotSite(sites, l, true, i);
    }
  }

  /** No one-byte slot lies inside a word slot. */
  lemma NearApart(arch: Arch, sites: seq<Site>, size: nat, l: nat, k: nat)
    requires InOrder(arch, sites, size) && k < |sites| && !sites[k].narrow
    ensures forall i, b :: 0 <= i < |Slots(sites, l, true)| && sites[k].Covers(b) ==> Slots(sites, l, true)[i] != b
  {
    forall i, b | 0 <= i < |Slots(sites, l, true)| && sites[k].Covers(b) ensures Slots(sites, l, true)[i] != b {
      var j := SlotSite(sites, l, true, i);
    }
  }

  /** One round of a binding loop: the head of the chain is patched and the rest is still a chain. */
  lemma PatchHead(arch: Arch, code: seq<byte>, enc: int, slots: seq<nat>, bound: nat)
    requires forall i :: 0 <= i < |slots| ==> slots[i] + 4 <= |code|
    requires forall i, j :: 0 <= i < j < |slots| ==> slots[i] + 4 <= slots[j]
    requires Chain(arch, code, enc, slots) && enc > 0
    ensures slots != [] && enc == slots[|slots| - 1] + WORD_SIZE
    ensures var p := slots[|slots| - 1];
            var w := Load32(code, p);
            && Chain(arch, Store32(code, p, PatchWord(arch, p, bound, w)), NextLink(arch, p, w), slots[..|slots| - 1])
            && PatchWords(arch, code, slots, bound) == PatchWords(arch, Store32(code, p, PatchWord(arch, p, bound, w)), slots[..|slots| - 1], bound)
  {
    hide Load32, Store32, PatchWord, NextLink;
    var n := |slots| - 1;
    var p, w, older := slots[n], Load32(code, slots[n]), slots[..n];
    var code' := Store32(code, p, PatchWord(arch, p, bound, w));
    LoadStore32(code, p, PatchWord(arch, p, bound, w));
    forall i | 0 <= i < n ensures older[i] + 4 <= |code| && Load32(code, older[i]) == Load32(code', older[i]) {
      assert older[i] == slots[i];
      LoadFrame(code, code', slots[i]);
    }
    ChainFrame(arch, code, code', NextLink(arch, p, w), older);
  }

  /** The loop ends at the end of the chain. */
  lemma ChainEnds(arch: Arch, code: seq<byte>, enc: int, slots: seq<nat>, bound: nat)
    requires forall i :: 0 <= i < |slots| ==> slots[i] + 4 <= |code|
    requires Chain(arch, code, enc, slots)
    ensures enc <= 0 ==> enc == 0 && slots == [] && PatchWords(arch, code, slots, bound) == code
  {
  }

  /** A one-byte branch goes to the bound position exactly when the distance fits; `bind` asserts it. */
  lemma NearLands(p: int, bound: int)
    ensures p + 1 + Signed8(NearField(p, bound)) == bound <==> IsInt8(bound - (p + 1))
  {
  }

  /** Instruction sets without one-byte branches never link one. */
  lemma {:induction false} NoNearSlots(sites: seq<Site>, l: nat)
    requires forall k :: 0 <= k < |sites| ==> !sites[k].narrow
    ensures Slots(sites, l, true) == []
  {
    if sites != [] {
      NoNearSlots(sites[..|sites| - 1], l);
    }
  }

  // --- Every step keeps the machine sound ---

  /** What a label means survives any change away from its own fields. */
  lemma LabelFrame(arch: Arch, w: World, w': World, l: nat)
    requires InOrder(arch, w.sites, |w.code|) && InOrder(arch, w'.sites, |w'.code|)
    requires LabelSound(arch, w, l)
    requires w'.LabelOf(l) == w.LabelOf(l) && |w.code| <= |w'.code|
    requires Slots(w'.sites, l, false) == Slots(w.sites, l, false) && Slots(w'.sites, l, true) == Slots(w.sites, l, true)
    requires |w.sites| <= |w'.sites| && w'.sites[..|w.sites|] == w.sites
    requires forall k :: |w.sites| <= k < |w'.sites| ==> w'.sites[k].target != l
    requires forall k, b :: 0 <= k < |w.sites| && w.sites[k].target == l && w.sites[k].Covers(b) ==> w'.code[b] == w.code[b]
    ensures LabelSound(arch, w', l)
  {
    var lab := w.LabelOf(l);
    if lab.IsBound() {
      forall k | 0 <= k < |w'.sites| && w'.sites[k].target == l ensures Lands(arch, w'.code, w'.sites[k], lab.BoundAt()) {
        var s := w.sites[k];
        assert w'.sites[k] == s && Lands(arch, w.code, s, lab.BoundAt());
        if s.narrow { assert s.Covers(s.slot); } else { SiteWordFrame(arch, w, w', l, k); }
      }
    } else {
      SlotsFit(arch, w.sites, l, |w.code|);
      var words := Slots(w.sites, l, false);
      forall i | 0 <= i < |words| ensures Load32(w.code, words[i]) == Load32(w'.code, words[i]) {
        var k := SlotSite(w.sites, l, false, i);
        SiteWordFrame(arch, w, w', l, k);
      }
      ChainFrame(arch, w.code, w'.code, lab.position, words);
    }
  }

  lemma SiteWordFrame(arch: Arch, w: World, w': World, l: nat, k: nat)
    requires InOrder(arch, w.sites, |w.code|) && |w.code| <= |w'.code|
    requires k < |w.sites| && w.sites[k].target == l && !w.sites[k].narrow
    requires forall k, b :: 0 <= k < |w.sites| && w.sites[k].target == l && w.sites[k].Covers(b) ==> w'.code[b] == w.code[b]
    ensures w.sites[k].slot + 4 <= |w.code| && Load32(w'.code, w.sites[k].slot) == Load32(w.code, w.sites[k].slot)
  {
    var s := w.sites[k];
    assert s.End(arch) <= |w.code|;
    forall b | s.slot <= b < s.slot + 4 ensures w'.code[b] == w.code[b] { assert s.Covers(b); }
    LoadFrame(w.code, w'.code, s.slot);
  }

  /** `w'` is `w` with bytes appended and at most one branch among them. */
  ghost predicate Appends(arch: Arch, w: World, w': World, bytes: seq<byte>) {
    && InOrder(arch, w.sites, |w.code|) && InOrder(arch, w'.sites, |w'.code|)
    && w'.code == w.code + bytes && w'.text == w.text + bytes
    && (w'.sites == w.sites
        || (|w'.sites| == |w.sites| + 1 && w'.sites[..|w.sites|] == w.sites && w'.sites[|w.sites|].slot >= |w.code|))
  }

  lemma AppendKeepsText(arch: Arch, w: World, w': World, bytes: seq<byte>)
    requires Appends(arch, w, w', bytes) && TextKept(arch, w)
    ensures TextKept(arch, w')
  {
    hide Load32, Opcode;
    forall k | 0 <= k < |w.sites| ensures w'.sites[k] == w.sites[k] && w.sites[k].FieldEnd() <= |w.code| {
      assert w.sites[k].End(arch) <= |w.code|;
    }
    forall i | 0 <= i < |w'.code| && (forall k :: 0 <= k < |w'.sites| ==> !w'.sites[k].Covers(i)) ensures w'.code[i] == w'.text[i] {
      if i < |w.code| {
        forall k | 0 <= k < |w.sites| ensures !w.sites[k].Covers(i) { assert w'.sites[k] == w.sites[k]; }
      }
    }
    forall k | 0 <= k < |w'.sites| && w'.sites[k].FieldEnd() <= |w'.code| && !w'.sites[k].narrow
      ensures Opcode(arch, Load32(w'.code, w'.sites[k].slot)) == Opcode(arch, Load32(w'.text, w'.sites[k].slot))
    {
      var s := w'.sites[k];
      if k < |w.sites| {
        LoadFrame(w.code, w'.code, s.slot);
        LoadFrame(w.text, w'.text, s.slot);
      } else {
        LoadFrame(w'.code, w'.text, s.slot);
      }
    }
  }

  lemma AppendKeepsLabel(arch: Arch, w: World, w': World, bytes: seq<byte>, l: nat)
    requires Appends(arch, w, w', bytes) && LabelSound(arch, w, l) && w'.LabelOf(l) == w.LabelOf(l)
    requires w'.sites != w.sites ==> w'.sites[|w.sites|].target != l
    ensures LabelSound(arch, w', l)
  {
    hide Load32, LabelSound;
    forall k, b | 0 <= k < |w.sites| && w.sites[k].target == l && w.sites[k].Covers(b) ensures w'.code[b] == w.code[b] {
      assert w.sites[k].End(arch) <= |w.code|;
    }
    LabelFrame(arch, w, w', l);
  }

  /** An unbound label's position is a place behind a word slot already emitted, or 0. */
  lemma HeadPosition(arch: Arch, w: World, l: nat)
    requires Sound(arch, w) && !w.LabelOf(l).IsBound()
    ensures 0 <= w.LabelOf(l).position <= |w.code|
    ensures arch != X86 ==> w.LabelOf(l).position % 4 == 0
    ensures arch == MIPS32 && w.LabelOf(l).position != 0 ==> w.LabelOf(l).position + 4 <= |w.code|
  {
    hide Load32, NextLink, TextKept;
    assert LabelSound(arch, w, l);
    var words := Slots(w.sites, l, false);
    if words != [] {
      var k := SlotSite(w.sites, l, false, |words| - 1);
      assert w.sites[k].End(arch) <= |w.code|;
    }
  }

  /** A new branch to a bound label goes there when taken. */
  lemma BackwardLands(arch: Arch, w: World, code: seq<byte>, op: Op)
    requires Sound(arch, w) && op.Branch? && Allowed(arch, w, op) && w.LabelOf(op.target).IsBound()
    requires code == w.code + (op.pre + Field(arch, |w.code| + |op.pre|, w.LabelOf(op.target), op.narrow, op.word) + op.post)
    ensures Lands(arch, code, Site(|w.code|, |w.code| + |op.pre|, op.narrow, op.target), w.LabelOf(op.target).BoundAt())
  {
    hide Load32, PatchWord, TargetOf, Bytes32, Chain, TextKept, JumpOpcode, InOrder, LabelSound, WordAligned, PatchFits;
    var slot, bound := |w.code| + |op.pre|, w.LabelOf(op.target).BoundAt();
    BoundAligned(arch, w, op);
    var field := Field(arch, slot, w.LabelOf(op.target), op.narrow, op.word);
    FieldInCode(w.code, op.pre, field, op.post);
    if op.narrow {
      assert code[slot] == field[0];
      NearLands(slot, bound);
    } else {
      LoadBytes32(code, slot, PatchWord(arch, slot, bound, op.word));
      PatchLands(arch, slot, bound, op.word);
    }
  }

  lemma FieldInCode(code: seq<byte>, pre: seq<byte>, field: seq<byte>, post: seq<byte>)
    ensures var all, slot := code + (pre + field + post), |code| + |pre|;
            all[slot..slot + |field|] == field && forall k :: 0 <= k < |field| ==> all[slot + k] == field[k]
  {
  }

  /** On word-sized instruction sets a bound label and a new branch are both aligned. */
  lemma BoundAligned(arch: Arch, w: World, op: Op)
    requires Sound(arch, w) && op.Branch? && Allowed(arch, w, op) && w.LabelOf(op.target).IsBound()
    ensures arch != X86 ==> (w.LabelOf(op.target).BoundAt() - (|w.code| + |op.pre|)) % 4 == 0
  {
    hide TextKept, InOrder;
    assert LabelSound(arch, w, op.target);
  }

  /** A new branch to an unplaced label becomes the head of its chain. */
  lemma ForwardLinks(arch: Arch, w: World, code: seq<byte>, op: Op)
    requires Sound(arch, w) && op.Branch? && Allowed(arch, w, op) && !w.LabelOf(op.target).IsBound() && !op.narrow
    requires code == w.code + (op.pre + Field(arch, |w.code| + |op.pre|, w.LabelOf(op.target), op.narrow, op.word) + op.post)
    ensures NextLink(arch, |w.code| + |op.pre|, Load32(code, |w.code| + |op.pre|)) == w.LabelOf(op.target).position
  {
    hide Load32, LinkWord, NextLink, Bytes32, Chain, TextKept, InOrder, JumpOpcode, LabelSound;
    var slot, enc := |w.code| + |op.pre|, w.LabelOf(op.target).position;
    var field := Field(arch, slot, w.LabelOf(op.target), op.narrow, op.word);
    FieldInCode(w.code, op.pre, field, op.post);
    LoadBytes32(code, slot, LinkWord(arch, slot, enc, op.word));
    HeadPosition(arch, w, op.target);
    LinkReadsBack(arch, slot, enc, op.word);
  }

  /** What one more branch adds to the slots of its label. */
  lemma NewSlot(sites: seq<Site>, s: Site)
    ensures Slots(sites + [s], s.target, s.narrow) == Slots(sites, s.target, s.narrow) + [s.slot]
    ensures Slots(sites + [s], s.target, !s.narrow) == Slots(sites, s.target, !s.narrow)
  {
    assert (sites + [s])[..|sites|] == sites;
  }

  /** The label a new branch refers to stays sound. */
  lemma BranchTarget(arch: Arch, w: World, op: Op)
    requires Sound(arch, w) && op.Branch? && Allowed(arch, w, op)
    requires InOrder(arch, Step(arch, w, op).sites, |Step(arch, w, op).code|)
    ensures LabelSound(arch, Step(arch, w, op), op.target)
  {
    hide Load32, NextLink, TextKept, BranchShape, Lands, Field, Slots, InOrder, Allowed, Chain;
    var w' := Step(arch, w, op);
    var l, lab, slot := op.target, w.LabelOf(op.target), |w.code| + |op.pre|;
    LongerCode(arch, w, w'.code, l);
    NewSlot(w.sites, Site(|w.code|, slot, op.narrow, l));
    assert w'.LabelOf(l) == Linked(slot, lab, op.narrow);
    if lab.IsBound() {
      BackwardLands(arch, w, w'.code, op);
    } else if !op.narrow {
      ForwardLinks(arch, w, w'.code, op);
      SlotsFit(arch, w.sites, l, |w'.code|);
      ChainGrows(arch, w'.code, lab.position, Slots(w.sites, l, false), slot);
    }
  }

  lemma ChainGrows(arch: Arch, code: seq<byte>, enc: int, slots: seq<nat>, slot: nat)
    requires slot + 4 <= |code| && forall i :: 0 <= i < |slots| ==> slots[i] + 4 <= |code|
    requires Chain(arch, code, enc, slots) && NextLink(arch, slot, Load32(code, slot)) == enc
    ensures Chain(arch, code, slot + WORD_SIZE, slots + [slot])
  {
    hide Load32, NextLink;
    assert (slots + [slot])[..|slots|] == slots;
  }

  lemma LongerCode(arch: Arch, w: World, code: seq<byte>, l: nat)
    requires Sound(arch, w) && |w.code| <= |code| && code[..|w.code|] == w.code
    ensures InOrder(arch, w.sites, |code|) && LabelSound(arch, w.(code := code), l)
  {
    hide Load32, LabelSound, TextKept;
    assert LabelSound(arch, w, l);
    forall k | 0 <= k < |w.sites| ensures w.sites[k].End(arch) <= |w.code| {}
    forall k, b | 0 <= k < |w.sites| && w.sites[k].target == l && w.sites[k].Covers(b) ensures code[b] == w.code[b] {
      assert w.sites[k].End(arch) <= |w.code|;
      assert code[..|w.code|][b] == code[b];
    }
    LabelFrame(arch, w, w.(code := code), l);
  }

  lemma BranchSound(arch: Arch, w: World, op: Op)
    requires Sound(arch, w) && op.Branch? && Allowed(arch, w, op)
    ensures Sound(arch, Step(arch, w, op))
  {
    hide TextKept, LabelSound, Allowed, InOrder, Appends, WordAligned, Step;
    var bytes := BranchShapeKept(arch, w, op);
    BranchTarget(arch, w, op);
    AppendSound(arch, w, Step(arch, w, op), bytes, op.target);
  }

  /** What a branch step appends, and what that leaves as it was. */
  lemma BranchShapeKept(arch: Arch, w: World, op: Op) returns (bytes: seq<byte>)
    requires InOrder(arch, w.sites, |w.code|) && WordAligned(arch, w) && op.Branch? && Allowed(arch, w, op)
    ensures InOrder(arch, Step(arch, w, op).sites, |Step(arch, w, op).code|)
    ensures Appends(arch, w, Step(arch, w, op), bytes) && WordAligned(arch, Step(arch, w, op))
    ensures forall m: nat :: m != op.target ==> Step(arch, w, op).LabelOf(m) == w.LabelOf(m)
    ensures Step(arch, w, op).sites == w.sites + [Site(|w.code|, |w.code| + |op.pre|, op.narrow, op.target)]
  {
    hide PatchFits, LinkFits, JumpOpcode, Field, InOrder;
    bytes := op.pre + Field(arch, |w.code| + |op.pre|, w.LabelOf(op.target), op.narrow, op.word) + op.post;
    var s := Site(|w.code|, |w.code| + |op.pre|, op.narrow, op.target);
    SiteAdded(arch, w.sites, |w.code|, s, |w.code| + |bytes|);
  }

  lemma SiteAdded(arch: Arch, sites: seq<Site>, size: nat, s: Site, size': nat)
    requires InOrder(arch, sites, size) && size <= s.start <= s.slot && s.End(arch) <= size'
    ensures InOrder(arch, sites + [s], size')
  {
    forall i | 0 <= i < |sites| ensures sites[i].End(arch) <= size {}
  }

  lemma AppendSound(arch: Arch, w: World, w': World, bytes: seq<byte>, l: nat)
    requires Sound(arch, w) && Appends(arch, w, w', bytes) && WordAligned(arch, w')
    requires forall m: nat :: m != l ==> w'.LabelOf(m) == w.LabelOf(m)
    requires w'.sites != w.sites ==> w'.sites[|w.sites|].target == l
    requires LabelSound(arch, w', l)
    ensures Sound(arch, w')
  {
    hide TextKept, LabelSound, InOrder, WordAligned;
    AppendKeepsText(arch, w, w', bytes);
    forall m: nat ensures LabelSound(arch, w', m) {
      if m != l {
        assert LabelSound(arch, w, m);
        AppendKeepsLabel(arch, w, w', bytes, m);
      }
    }
  }

  lemma RawSound(arch: Arch, w: World, op: Op)
    requires Sound(arch, w) && (op.Raw? || op.Reloc?) && Allowed(arch, w, op)
    ensures Sound(arch, Step(arch, w, op))
  {
    hide TextKept, LabelSound, Allowed, InOrder, Appends, WordAligned, Step;
    RawShapeKept(arch, w, op);
    assert LabelSound(arch, w, 0);
    AppendKeepsLabel(arch, w, Step(arch, w, op), op.bytes, 0);
    AppendSound(arch, w, Step(arch, w, op), op.bytes, 0);
  }

  lemma RawShapeKept(arch: Arch, w: World, op: Op)
    requires InOrder(arch, w.sites, |w.code|) && WordAligned(arch, w) && (op.Raw? || op.Reloc?) && Allowed(arch, w, op)
    ensures Appends(arch, w, Step(arch, w, op), op.bytes) && WordAligned(arch, Step(arch, w, op))
    ensures Step(arch, w, op).sites == w.sites && forall m: nat :: Step(arch, w, op).LabelOf(m) == w.LabelOf(m)
  {
    hide InOrder;
    MoreRoom(arch, w.sites, |w.code|, |Step(arch, w, op).code|);
  }

  lemma MoreRoom(arch: Arch, sites: seq<Site>, size: nat, size': nat)
    requires InOrder(arch, sites, size) && size <= size'
    ensures InOrder(arch, sites, size')
  {
    forall i | 0 <= i < |sites| ensures sites[i].End(arch) <= size {}
  }

  /** Binding a label changes no word that belongs to another label. */
  lemma BindFrame(arch: Arch, w: World, l: nat, k: nat)
    requires InOrder(arch, w.sites, |w.code|) && k < |w.sites| && w.sites[k].target != l
    ensures w.sites[k].FieldEnd() <= |w.code|
    ensures forall b :: w.sites[k].Covers(b) ==> Bound(arch, w.code, w.sites, l)[b] == w.code[b]
  {
    hide Bound;
    BindEffect(arch, w.code, w.sites, l);
    assert w.sites[k].End(arch) <= |w.code|;
    forall b | w.sites[k].Covers(b) ensures Bound(arch, w.code, w.sites, l)[b] == w.code[b] {
      forall j | 0 <= j < |w.sites| && w.sites[j].target == l ensures !w.sites[j].Covers(b) {
        if j < k { assert w.sites[j].End(arch) <= w.sites[k].start; } else { assert w.sites[k].End(arch) <= w.sites[j].start; }
      }
    }
  }

  /** The label just bound: every branch to it lands. */
  lemma BindTarget(arch: Arch, w: World, l: nat)
    requires Sound(arch, w) && Allowed(arch, w, Bind(l))
    ensures LabelSound(arch, Step(arch, w, Bind(l)), l)
  {
    hide Load32, TextKept, Bound, PatchWord, TargetOf, PatchFits, Chain, Slots;
    var w' := Step(arch, w, Bind(l));
    BindEffect(arch, w.code, w.sites, l);
    forall k | 0 <= k < |w.sites| && w.sites[k].target == l ensures Lands(arch, w'.code, w'.sites[k], |w.code|) {
      var s := w.sites[k];
      assert s.End(arch) <= |w.code|;
      if !s.narrow {
        PatchLands(arch, s.slot, |w.code|, Load32(w.code, s.slot));
      }
    }
  }

  lemma BindKeepsText(arch: Arch, w: World, l: nat)
    requires InOrder(arch, w.sites, |w.code|) && TextKept(arch, w)
    ensures TextKept(arch, Step(arch, w, Bind(l)))
  {
    hide Load32, Bound, PatchWord, Opcode;
    var w' := Step(arch, w, Bind(l));
    BindEffect(arch, w.code, w.sites, l);
    forall k | 0 <= k < |w.sites| && w.sites[k].FieldEnd() <= |w.code| && !w.sites[k].narrow
      ensures Opcode(arch, Load32(w'.code, w.sites[k].slot)) == Opcode(arch, Load32(w'.text, w.sites[k].slot))
    {
      var s := w.sites[k];
      if s.target == l {
        PatchLands(arch, s.slot, |w.code|, Load32(w.code, s.slot));
      } else {
        BindFrame(arch, w, l, k);
        forall b | s.slot <= b < s.slot + 4 ensures w'.code[b] == w.code[b] { assert s.Covers(b); }
        LoadFrame(w.code, w'.code, s.slot);
      }
    }
  }

  lemma BindSound(arch: Arch, w: World, l: nat)
    requires Sound(arch, w) && Allowed(arch, w, Bind(l))
    ensures Sound(arch, Step(arch, w, Bind(l)))
  {
    hide Load32, TextKept, LabelSound, Bound;
    var w' := Step(arch, w, Bind(l));
    BindKeepsText(arch, w, l);
    BindTarget(arch, w, l);
    forall m: nat ensures LabelSound(arch, w', m) {
      if m != l {
        assert LabelSound(arch, w, m) && w'.LabelOf(m) == w.LabelOf(m);
        forall k, b | 0 <= k < |w.sites| && w.sites[k].target == m && w.sites[k].Covers(b) ensures w'.code[b] == w.code[b] {
          BindFrame(arch, w, l, k);
        }
        LabelFrame(arch, w, w', m);
      }
    }
  }

  /** Every step the source allows keeps the machine sound. */
  lemma StepSound(arch: Arch, w: World, op: Op)
    requires Sound(arch, w) && Allowed(arch, w, op)
    ensures Sound(arch, Step(arch, w, op))
  {
    hide Sound, Step, Allowed;
    match op
    case Raw(_) => RawSound(arch, w, op);
    case Reloc(_, _) => RawSound(arch, w, op);
    case Branch(_, _, _, _, _) => BranchSound(arch, w, op);
    case Bind(l) => BindSound(arch, w, l);
  }
}
