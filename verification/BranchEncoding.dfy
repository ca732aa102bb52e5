/** How the three back ends write a branch's displacement field.

    A field is used twice.  While its label is unplaced it holds a link to the label's previous
    unresolved branch; once the label is bound it holds the displacement.  `LinkWord` and
    `NextLink` are the first use, `PatchWord` is the second, and `TargetOf` is what the processor
    does with the field (Intel SDM Vol. 2 "Jcc" and "JMP"; ARM ARM DDI 0406C section A8.8.18 for
    the 24-bit immediate branch; the MIPS32 I-type branches).
 */
module BranchEncoding {
  import opened Bytes

  datatype Arch = X86 | ARM32 | MIPS32

  /** How far ahead of the branch each word-sized instruction set sees its PC. */
  const ARM_PC_READ_OFFSET := 8
  const MIPS_PC_READ_OFFSET := 4

  // --- The ARM32 24-bit field ---

  /** The assertion both ARM emission and binding make before encoding. */
  predicate ArmCanEncode(offset: int) {
    (offset - ARM_PC_READ_OFFSET) % 4 == 0 && IsInt24((offset - ARM_PC_READ_OFFSET) / 4)
  }

  function ArmEncode(offset: int, inst: uint32): uint32 {
    inst / 0x100_0000 * 0x100_0000 + (offset - ARM_PC_READ_OFFSET) / 4 % 0x100_0000
  }

  function ArmDecode(inst: uint32): int {
    // (field << 8) as a signed word, arithmetically shifted right by 6
    Signed32(inst % 0x100_0000 * 0x100) / 0x40 + ARM_PC_READ_OFFSET
  }

  // --- The MIPS32 16-bit field ---

  predicate MipsCanEncode(offset: int) {
    (offset - MIPS_PC_READ_OFFSET) % 4 == 0 && IsInt16((offset - MIPS_PC_READ_OFFSET) / 4)
  }

  function MipsEncode(offset: int, inst: uint32): uint32 {
    inst / 0x1_0000 * 0x1_0000 + (offset - MIPS_PC_READ_OFFSET) / 4 % 0x1_0000
  }

  function MipsDecode(inst: uint32): int {
    Signed16(inst % 0x1_0000) * 4 + MIPS_PC_READ_OFFSET
  }

  /** A field holds a number exactly when the number is in the field's range. */
  lemma FieldHolds(q: int)
    ensures Signed24(q % 0x100_0000) == q <==> IsInt24(q)
    ensures Signed16(q % 0x1_0000) == q <==> IsInt16(q)
  {
  }

  /** The ARM and MIPS encoders replace the field and nothing else. */
  lemma EncodeSplits(offset: int, w: uint32)
    ensures ArmEncode(offset, w) % 0x100_0000 == (offset - ARM_PC_READ_OFFSET) / 4 % 0x100_0000
    ensures ArmEncode(offset, w) / 0x100_0000 == w / 0x100_0000
    ensures MipsEncode(offset, w) % 0x1_0000 == (offset - MIPS_PC_READ_OFFSET) / 4 % 0x1_0000
    ensures MipsEncode(offset, w) / 0x1_0000 == w / 0x1_0000
  {
  }

  /** Decoding inverts encoding exactly on the offsets the encoder asserts it can take. */
  lemma ArmDecodeEncode(offset: int, inst: uint32)
    ensures ArmDecode(ArmEncode(offset, inst)) == offset <==> ArmCanEncode(offset)
  {
    var q := (offset - ARM_PC_READ_OFFSET) / 4;
    EncodeSplits(offset, inst);
    FieldHolds(q);
    var field := q % 0x100_0000;
    assert Signed32(field * 0x100) / 0x40 == Signed24(field) * 4;
  }

  lemma MipsDecodeEncode(offset: int, inst: uint32)
    ensures MipsDecode(MipsEncode(offset, inst)) == offset <==> MipsCanEncode(offset)
  {
    EncodeSplits(offset, inst);
    FieldHolds((offset - MIPS_PC_READ_OFFSET) / 4);
  }

  // --- One field, three instruction sets ---

  /** The field's word at slot `p` when the branch there is chained onto a label whose encoded
      position is `enc`: 0 for the end of the chain, else the previous slot plus 4. */
  function LinkWord(arch: Arch, p: int, enc: int, w: uint32): uint32 {
    match arch
    case X86 => enc % 0x1_0000_0000
    case ARM32 => ArmEncode(enc, w)
    case MIPS32 => MipsEncode(if enc != 0 then p - enc else 0, w)
  }

  /** The encoded position `bind` reads back from the word at slot `p`. */
  function NextLink(arch: Arch, p: int, w: uint32): int {
    match arch
    case X86 => Signed32(w)
    case ARM32 => ArmDecode(w)
    case MIPS32 => var d := MipsDecode(w); if d != 0 then p - d else 0
  }

  /** The word `bind` stores at slot `p` to reach `bound`. */
  function PatchWord(arch: Arch, p: int, bound: int, w: uint32): uint32 {
    match arch
    case X86 => (bound - (p + 4)) % 0x1_0000_0000
    case ARM32 => ArmEncode(bound - p, w)
    case MIPS32 => MipsEncode(bound - p, w)
  }

  /** Where the processor goes when it takes the branch whose field word is at `p`. */
  function TargetOf(arch: Arch, p: int, w: uint32): int {
    match arch
    case X86 => p + 4 + Signed32(w)
    case ARM32 => p + 8 + 4 * Signed24(w % 0x100_0000)
    case MIPS32 => p + 4 + 4 * Signed16(w % 0x1_0000)
  }

  /** The part of the word that is not displacement: condition, opcode and registers. */
  function Opcode(arch: Arch, w: uint32): int {
    match arch
    case X86 => 0
    case ARM32 => w / 0x100_0000
    case MIPS32 => w / 0x1_0000
  }

  /** The range half of what the source asserts about a displacement before storing it. */
  predicate PatchFits(arch: Arch, p: int, bound: int) {
    match arch
    case X86 => IsInt32(bound - (p + 4))
    case ARM32 => IsInt24((bound - p - ARM_PC_READ_OFFSET) / 4)
    case MIPS32 => IsInt16((bound - p - MIPS_PC_READ_OFFSET) / 4)
  }

  /** The whole assertion: word-sized instruction sets also ask for a word-aligned distance. */
  predicate PatchOk(arch: Arch, p: int, bound: int) {
    PatchFits(arch, p, bound) && (arch != X86 ==> (bound - p) % 4 == 0)
  }

  /** The distance or position a link stores, and the same two assertions about it. */
  predicate LinkFits(arch: Arch, p: int, enc: int) {
    match arch
    case X86 => IsInt32(enc)
    case ARM32 => IsInt24((enc - ARM_PC_READ_OFFSET) / 4)
    case MIPS32 => enc != 0 ==> IsInt16((p - enc - MIPS_PC_READ_OFFSET) / 4)
  }

  predicate LinkOk(arch: Arch, p: int, enc: int) {
    && LinkFits(arch, p, enc)
    && (arch == ARM32 ==> enc % 4 == 0)
    && (arch == MIPS32 && enc != 0 ==> (p - enc) % 4 == 0)
  }

  /** A patched branch goes to the bound position exactly when the source's assertion holds, and
      keeps its condition, opcode and registers either way. */
  lemma PatchLands(arch: Arch, p: int, bound: int, w: uint32)
    ensures TargetOf(arch, p, PatchWord(arch, p, bound, w)) == bound <==> PatchOk(arch, p, bound)
    ensures Opcode(arch, PatchWord(arch, p, bound, w)) == Opcode(arch, w)
  {
    hide *;
    match arch
    case X86 => X86PatchLands(p, bound, w);
    case ARM32 => ArmPatchLands(p, bound, w);
    case MIPS32 => MipsPatchLands(p, bound, w);
  }

  lemma X86PatchLands(p: int, bound: int, w: uint32)
    ensures TargetOf(X86, p, PatchWord(X86, p, bound, w)) == bound <==> PatchOk(X86, p, bound)
    ensures Opcode(X86, PatchWord(X86, p, bound, w)) == Opcode(X86, w)
  {
  }

  lemma ArmPatchLands(p: int, bound: int, w: uint32)
    ensures TargetOf(ARM32, p, PatchWord(ARM32, p, bound, w)) == bound <==> PatchOk(ARM32, p, bound)
    ensures Opcode(ARM32, PatchWord(ARM32, p, bound, w)) == Opcode(ARM32, w)
  {
    hide ArmEncode, Signed24, IsInt24;
    EncodeSplits(bound - p, w);
    FieldHolds((bound - p - ARM_PC_READ_OFFSET) / 4);
    WordDistance(p, bound, Signed24((bound - p - ARM_PC_READ_OFFSET) / 4 % 0x100_0000), ARM_PC_READ_OFFSET);
  }

  /** Going `n` words on from where the processor sees its PC ends at `bound` exactly when `n` is the whole
      distance in words. */
  lemma WordDistance(p: int, bound: int, n: int, ahead: int)
    requires ahead % 4 == 0
    ensures p + ahead + 4 * n == bound <==> n == (bound - p - ahead) / 4 && (bound - p) % 4 == 0
  {
  }

  lemma MipsPatchLands(p: int, bound: int, w: uint32)
    ensures TargetOf(MIPS32, p, PatchWord(MIPS32, p, bound, w)) == bound <==> PatchOk(MIPS32, p, bound)
    ensures Opcode(MIPS32, PatchWord(MIPS32, p, bound, w)) == Opcode(MIPS32, w)
  {
    hide MipsEncode, Signed16, IsInt16;
    EncodeSplits(bound - p, w);
    FieldHolds((bound - p - MIPS_PC_READ_OFFSET) / 4);
    WordDistance(p, bound, Signed16((bound - p - MIPS_PC_READ_OFFSET) / 4 % 0x1_0000), MIPS_PC_READ_OFFSET);
  }

  /** A link reads back exactly when it is encodable and, on MIPS32, is not the distance 0 that
      stands for the end of the chain. */
  lemma LinkReadsBack(arch: Arch, p: int, enc: int, w: uint32)
    ensures NextLink(arch, p, LinkWord(arch, p, enc, w)) == enc
            <==> LinkOk(arch, p, enc) && (arch == MIPS32 && enc != 0 ==> p != enc)
    ensures Opcode(arch, LinkWord(arch, p, enc, w)) == Opcode(arch, w)
  {
    hide *;
    match arch
    case X86 => X86LinkReadsBack(p, enc, w);
    case ARM32 => ArmLinkReadsBack(p, enc, w);
    case MIPS32 => MipsLinkReadsBack(p, enc, w);
  }

  lemma X86LinkReadsBack(p: int, enc: int, w: uint32)
    ensures NextLink(X86, p, LinkWord(X86, p, enc, w)) == enc <==> LinkOk(X86, p, enc)
    ensures Opcode(X86, LinkWord(X86, p, enc, w)) == Opcode(X86, w)
  {
  }

  lemma ArmLinkReadsBack(p: int, enc: int, w: uint32)
    ensures NextLink(ARM32, p, LinkWord(ARM32, p, enc, w)) == enc <==> LinkOk(ARM32, p, enc)
    ensures Opcode(ARM32, LinkWord(ARM32, p, enc, w)) == Opcode(ARM32, w)
  {
    hide ArmEncode, ArmDecode;
    EncodeSplits(enc, w);
    ArmDecodeEncode(enc, w);
  }

  lemma MipsLinkReadsBack(p: int, enc: int, w: uint32)
    ensures NextLink(MIPS32, p, LinkWord(MIPS32, p, enc, w)) == enc <==> LinkOk(MIPS32, p, enc) && (enc != 0 ==> p != enc)
    ensures Opcode(MIPS32, LinkWord(MIPS32, p, enc, w)) == Opcode(MIPS32, w)
  {
    hide MipsEncode, MipsDecode;
    var distance := if enc != 0 then p - enc else 0;
    EncodeSplits(distance, w);
    MipsDecodeEncode(distance, w);
    assert MipsCanEncode(distance) <==> LinkOk(MIPS32, p, enc);
  }
}
