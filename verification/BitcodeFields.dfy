/** What the bitstream reader reads, as functions of the stream and the cursor: variable width
    integers, abbreviated fields, records and abbreviation definitions, past the end of the stream too. */
module BitcodeFields {
  import opened Bytes
  import opened Words
  import opened BitCursor
  import opened Abbreviations

  datatype Option<T> = None | Some(value: T)

  // --- Variable width integers ---

  function HighBit(piece: nat, n: Width): nat { ShiftRight(piece, n - 1) % 2 }

  /** The pieces from the cursor to the first one with a clear high bit, joined without a width limit. */
  function Pieces(bytes: seq<byte>, c: Cursor, n: Width): (r: Reading<nat>)
    requires Sound(bytes, c)
    ensures Sound(bytes, r.next) && Position(r.next) >= Position(c)
    decreases Remaining(bytes, c)
  {
    hide BitCursor.Read, ShiftRight, Low, ShiftLeft, Bits;
    ReadIsBits(bytes, c, n);
    ShiftZero(n - 1);
    var piece := Read(bytes, c, n);
    if HighBit(piece.value, n) == 0 then Reading(piece.next, Low(piece.value, n - 1))
    else
      var rest := Pieces(bytes, piece.next, n);
      Reading(rest.next, Low(piece.value, n - 1) + ShiftLeft(rest.value, n - 1))
  }

  /** A variable width integer in a register of `width` bits. */
  function VbrOf(bytes: seq<byte>, c: Cursor, n: Width, width: nat): (r: Reading<nat>)
    requires Sound(bytes, c)
    ensures Sound(bytes, r.next) && Position(r.next) >= Position(c)
  {
    var r := Pieces(bytes, c, n);
    Reading(r.next, Low(r.value, width))
  }

  lemma VbrNarrow(bytes: seq<byte>, c: Cursor, n: Width, width: nat)
    requires Sound(bytes, c)
    ensures Low(VbrOf(bytes, c, n, width).value, width) == VbrOf(bytes, c, n, width).value
  {
    hide Low, Pieces;
    LowTwice(Pieces(bytes, c, n).value, width, width);
  }

  /** A piece without a high bit is its own digits, in any register that holds it. */
  lemma LastPiece(piece: nat, n: Width, width: nat)
    requires Low(piece, n) == piece && HighBit(piece, n) == 0 && n <= width
    ensures Low(piece, n - 1) == piece == Low(piece, width)
  {
    hide Low;
    TopBit(piece, n - 1);
    assert ShiftLeft(0, n - 1) == 0 by { NoneLeft(n - 1); }
    LowTwice(piece, n, width);
  }

  /** Rounds up to a byte by dropping buffered bits. */
  function AlignedTo(c: Cursor, align: bool): Cursor {
    if align then Drop(c, c.bitsInCurWord % 8) else c
  }

  lemma AlignLands(bytes: seq<byte>, c: Cursor, align: bool)
    requires Sound(bytes, c)
    ensures Sound(bytes, AlignedTo(c, align))
    ensures Position(AlignedTo(c, align)) == if align then (Position(c) + 7) / 8 * 8 else Position(c)
  {
    hide Sound, ShiftRight;
    if align {
      DropSound(bytes, c, c.bitsInCurWord % 8);
      var whole := c.nextChar - c.bitsInCurWord / 8;
      assert Position(c) + c.bitsInCurWord % 8 == 8 * whole;
    }
  }

  // --- Abbreviated fields ---

  function DecodeChar6(v: nat): nat {
    if v < 26 then v + 'a' as int
    else if v < 52 then v - 26 + 'A' as int
    else if v < 62 then v - 52 + '0' as int
    else if v == 62 then '.' as int
    else '_' as int
  }

  /** An operand that stands for one value.  Zero widths are read as literals. */
  predicate Scalar(op: Op) {
    match op
    case Literal(_) => true
    case Fixed(w) => 1 <= w <= MAX_ABBREV_WIDTH
    case VBR(w) => 1 <= w <= MAX_ABBREV_WIDTH
    case Array => false
    case Char6 => true
  }

  /** The operands that are left of a valid abbreviation. */
  predicate Readable(ops: Abbrev) {
    && (forall i :: 0 <= i < |ops| ==> ops[i].Array? ==> i + 2 == |ops|)
    && (forall i :: 0 <= i < |ops| ==> !ops[i].Array? ==> Scalar(ops[i]))
  }

  /** After an array operator comes exactly one operand, and that one is not an array. */
  lemma ReadableHead(ops: Abbrev)
    requires Readable(ops) && ops != []
    ensures ops[0].Array? ==> |ops| == 2 && Scalar(ops[1])
    ensures !ops[0].Array? ==> Scalar(ops[0]) && Readable(ops[1..])
  {
    hide Scalar;
    if ops[0].Array? {
      assert |ops| == 2;
      assert !ops[1].Array?;
    } else {
      forall i | 0 <= i < |ops| - 1
        ensures ops[1..][i].Array? ==> i + 2 == |ops[1..]|
        ensures !ops[1..][i].Array? ==> Scalar(ops[1..][i])
      {
        assert ops[1..][i] == ops[i + 1];
      }
    }
  }

  function FieldOf(bytes: seq<byte>, c: Cursor, op: Op): (r: Reading<nat>)
    requires Sound(bytes, c) && Scalar(op)
    ensures Sound(bytes, r.next) && Position(r.next) >= Position(c)
  {
    hide BitCursor.Read;
    match op
    case Literal(v) => Reading(c, v)
    case Fixed(w) => ReadIsBits(bytes, c, w); Read(bytes, c, w)
    case VBR(w) => VbrOf(bytes, c, w, 64)
    case Char6 => ReadIsBits(bytes, c, 6); var r := Read(bytes, c, 6); Reading(r.next, DecodeChar6(r.value))
  }

  function FieldsOf(bytes: seq<byte>, c: Cursor, op: Op, count: nat): (r: Reading<seq<nat>>)
    requires Sound(bytes, c) && Scalar(op)
    ensures Sound(bytes, r.next) && Position(r.next) >= Position(c) && |r.value| == count
    decreases count
  {
    if count == 0 then Reading(c, [])
    else
      var first := FieldOf(bytes, c, op);
      var rest := FieldsOf(bytes, first.next, op, count - 1);
      Reading(rest.next, [first.value] + rest.value)
  }

  // --- Records ---

  /** The values of an abbreviated record, the code first. */
  function Operands(bytes: seq<byte>, c: Cursor, ops: Abbrev): (r: Reading<seq<nat>>)
    requires Sound(bytes, c) && Readable(ops)
    ensures Sound(bytes, r.next) && Position(r.next) >= Position(c)
    decreases |ops|
  {
    if ops == [] then Reading(c, [])
    else
      ReadableHead(ops);
      if ops[0].Array? then
        var count := VbrOf(bytes, c, 6, 32);
        FieldsOf(bytes, count.next, ops[1], count.value)
      else
        var first := FieldOf(bytes, c, ops[0]);
        var rest := Operands(bytes, first.next, ops[1..]);
        Reading(rest.next, [first.value] + rest.value)
  }

  /** A record: abbreviated, or with everything in chunks of 6 bits. */
  function RecordOf(bytes: seq<byte>, c: Cursor, align: bool, abbrev: Option<Abbrev>): (r: Reading<seq<nat>>)
    requires Sound(bytes, c) && (abbrev.Some? ==> Readable(abbrev.value))
    ensures Sound(bytes, r.next) && Position(r.next) >= Position(c)
  {
    hide Sound, Position;
    var r := match abbrev
      case None =>
        var code := VbrOf(bytes, c, 6, 32);
        var count := VbrOf(bytes, code.next, 6, 32);
        var elements := FieldsOf(bytes, count.next, VBR(6), count.value);
        Reading(elements.next, [code.value] + elements.value)
      case Some(ops) => Operands(bytes, c, ops);
    AlignLands(bytes, r.next, align);
    Reading(AlignedTo(r.next, align), r.value)
  }

  // --- Definitions of abbreviations ---

  datatype Definition<T> = Defined(value: T) | BadEncoding | BadWidth | BadAbbreviation

  function HasValue(encoding: nat): bool { encoding <= 2 }

  function OpFrom(encoding: nat, data: nat): Definition<Op> {
    if (encoding == 1 || encoding == 2) && data == 0 then Defined(Literal(0))
    else if (encoding == 1 || encoding == 2) && data > MAX_ABBREV_WIDTH then BadWidth
    else match encoding
      case 0 => Defined(Literal(data))
      case 1 => Defined(Fixed(data))
      case 2 => Defined(VBR(data))
      case 3 => Defined(Array)
      case _ => Defined(Char6)
  }

  lemma OpFromKnown(encoding: nat)
    ensures forall data: nat :: !OpFrom(encoding, data).BadEncoding?
  {
  }

  /** One operand of a definition. */
  function OpAt(bytes: seq<byte>, c: Cursor): (r: Reading<Definition<Op>>)
    requires Sound(bytes, c)
    ensures Sound(bytes, r.next) && Position(r.next) >= Position(c)
    ensures r.value.Defined? && !r.value.value.Array? ==> Scalar(r.value.value)
  {
    hide Sound, Position, BitCursor.Read;
    ReadIsBits(bytes, c, 1);
    var isLiteral := Read(bytes, c, 1);
    if isLiteral.value != 0 then
      var v := VbrOf(bytes, isLiteral.next, 8, 64);
      Reading(v.next, Defined(Literal(v.value)))
    else
      ReadIsBits(bytes, isLiteral.next, 3);
      var encoding := Read(bytes, isLiteral.next, 3);
      if encoding.value > 4 then Reading(encoding.next, BadEncoding)
      else if HasValue(encoding.value) then
        var data := VbrOf(bytes, encoding.next, 5, 64);
        Reading(data.next, OpFrom(encoding.value, Low(data.value, 32)))
      else Reading(encoding.next, OpFrom(encoding.value, 0))
  }

  /** The operands of a definition, up to the first one that is not acceptable. */
  function OpsAt(bytes: seq<byte>, c: Cursor, count: nat): (r: Reading<Definition<Abbrev>>)
    requires Sound(bytes, c)
    ensures Sound(bytes, r.next) && Position(r.next) >= Position(c)
    decreases count
  {
    if count == 0 then Reading(c, Defined([]))
    else
      var first := OpAt(bytes, c);
      match first.value
      case BadEncoding => Reading(first.next, BadEncoding)
      case BadWidth => Reading(first.next, BadWidth)
      case BadAbbreviation => Reading(first.next, BadAbbreviation)
      case Defined(op) =>
        var rest := OpsAt(bytes, first.next, count - 1);
        if rest.value.Defined? then Reading(rest.next, Defined([op] + rest.value.value)) else rest
  }

  function DefinitionOf(bytes: seq<byte>, c: Cursor, align: bool): (r: Reading<Definition<Abbrev>>)
    requires Sound(bytes, c)
    ensures Sound(bytes, r.next) && Position(r.next) >= Position(c)
  {
    hide Sound, Position;
    var count := VbrOf(bytes, c, 5, 32);
    var ops := OpsAt(bytes, count.next, count.value);
    AlignLands(bytes, ops.next, align);
    if !ops.value.Defined? then ops
    else if !Valid(ops.value.value) then Reading(AlignedTo(ops.next, align), BadAbbreviation)
    else Reading(AlignedTo(ops.next, align), ops.value)
  }

  /** Where skipping the operands of a definition ends, if no encoding is unknown. */
  function SkippedOps(bytes: seq<byte>, c: Cursor, count: nat): (r: Option<Cursor>)
    requires Sound(bytes, c)
    ensures r.Some? ==> Sound(bytes, r.value)
    decreases count
  {
    if count == 0 then Some(c)
    else
      var first := OpAt(bytes, c);
      if first.value.BadEncoding? then None else SkippedOps(bytes, first.next, count - 1)
  }

  function SkippedDefinition(bytes: seq<byte>, c: Cursor, align: bool): Option<Cursor>
    requires Sound(bytes, c)
  {
    var count := VbrOf(bytes, c, 5, 32);
    match SkippedOps(bytes, count.next, count.value)
    case None => None
    case Some(next) => Some(AlignedTo(next, align))
  }

  lemma {:induction false} OpsSkipped(bytes: seq<byte>, c: Cursor, count: nat)
    requires Sound(bytes, c)
    ensures var r, s := OpsAt(bytes, c, count), SkippedOps(bytes, c, count);
            && (r.value.Defined? ==> s == Some(r.next) && |r.value.value| == count)
            && (r.value.BadEncoding? ==> s == None)
            && !r.value.BadAbbreviation?
    decreases count
  {
    hide Sound, Position, OpAt;
    if count > 0 {
      var first := OpAt(bytes, c);
      OpIsChecked(bytes, c);
      OpsSkipped(bytes, first.next, count - 1);
    }
  }

  lemma OpIsChecked(bytes: seq<byte>, c: Cursor)
    requires Sound(bytes, c)
    ensures !OpAt(bytes, c).value.BadAbbreviation?
  {
    hide Sound, Position, BitCursor.Read, VbrOf;
  }

  /** Where reading a definition succeeds, skipping it ends at the same bit; where reading stops at an
      unknown encoding, so does skipping. */
  lemma DefinitionSkipped(bytes: seq<byte>, c: Cursor, align: bool)
    requires Sound(bytes, c)
    ensures var r, s := DefinitionOf(bytes, c, align), SkippedDefinition(bytes, c, align);
            && (r.value.Defined? || r.value.BadAbbreviation? ==> s == Some(r.next))
            && (r.value.BadEncoding? ==> s == None)
  {
    hide Sound, Position, OpsAt, SkippedOps, VbrOf;
    var count := VbrOf(bytes, c, 5, 32);
    OpsSkipped(bytes, count.next, count.value);
  }

  lemma {:induction false} OpsScalar(bytes: seq<byte>, c: Cursor, count: nat)
    requires Sound(bytes, c) && OpsAt(bytes, c, count).value.Defined?
    ensures forall i :: 0 <= i < |OpsAt(bytes, c, count).value.value| ==>
              !OpsAt(bytes, c, count).value.value[i].Array? ==> Scalar(OpsAt(bytes, c, count).value.value[i])
    decreases count
  {
    hide Sound, Position, OpAt, Scalar;
    if count > 0 {
      OpsScalar(bytes, OpAt(bytes, c).next, count - 1);
    }
  }

  /** Every abbreviation that a definition yields is one that records can be read with: its widths are
      from 1 to 32, and an array has exactly one element operand, which is not an array. */
  lemma DefinedIsReadable(bytes: seq<byte>, c: Cursor, align: bool)
    requires Sound(bytes, c) && DefinitionOf(bytes, c, align).value.Defined?
    ensures var ops := DefinitionOf(bytes, c, align).value.value; ops != [] && Readable(ops)
  {
    hide Sound, Position, OpsAt, VbrOf, Scalar;
    var count := VbrOf(bytes, c, 5, 32);
    OpsScalar(bytes, count.next, count.value);
  }
}
