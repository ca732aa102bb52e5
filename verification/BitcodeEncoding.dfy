/** The bits the format gives to values, records and definitions, and that the reader, started on
    those bits anywhere in a stream, yields exactly what was encoded and stops right behind it. */
module BitcodeEncoding {
  import opened Bytes
  import opened Words
  import opened BitCursor
  import opened Abbreviations
  import opened BitcodeFields

  /** The stream holds these bits from `p`. */
  predicate HasBits(bytes: seq<byte>, p: nat, bits: seq<nat>) {
    p + |bits| <= 8 * |bytes| && forall i :: 0 <= i < |bits| ==> Bit(bytes, p + i) == bits[i]
  }

  lemma HasBoth(bytes: seq<byte>, p: nat, a: seq<nat>, b: seq<nat>)
    requires HasBits(bytes, p, a + b)
    ensures HasBits(bytes, p, a) && HasBits(bytes, p + |a|, b)
  {
    hide Bit;
    forall i | 0 <= i < |a| ensures Bit(bytes, p + i) == a[i] { assert (a + b)[i] == a[i]; }
    forall i | 0 <= i < |b| ensures Bit(bytes, p + |a| + i) == b[i] { assert (a + b)[|a| + i] == b[i]; }
  }

  function Digits(v: nat, n: nat): (bits: seq<nat>)
    ensures |bits| == n
  {
    if n == 0 then [] else [v % 2] + Digits(v / 2, n - 1)
  }

  lemma {:induction false} DigitsHeld(bytes: seq<byte>, p: nat, v: nat, n: nat)
    requires HasBits(bytes, p, Digits(v, n))
    ensures Bits(bytes, p, n) == Low(v, n)
    decreases n
  {
    hide Bit, HasBits;
    if n > 0 {
      HasBoth(bytes, p, [v % 2], Digits(v / 2, n - 1));
      OneBit(bytes, p, v % 2);
      DigitsHeld(bytes, p + 1, v / 2, n - 1);
    }
  }

  lemma OneBit(bytes: seq<byte>, p: nat, b: nat)
    requires HasBits(bytes, p, [b])
    ensures Bit(bytes, p) == b == Bits(bytes, p, 1)
  {
    hide Bit;
    assert [b][0] == b;
    assert Bits(bytes, p, 1) == Bit(bytes, p) + 2 * Bits(bytes, p + 1, 0);
  }

  /** The cursor is sound and the stream holds these bits from it on. */
  predicate Ahead(bytes: seq<byte>, c: Cursor, bits: seq<nat>) {
    Sound(bytes, c) && HasBits(bytes, Position(c), bits)
  }

  /** A reading took exactly these bits and gave this value. */
  predicate Took<T(==)>(bytes: seq<byte>, c: Cursor, r: Reading<T>, bits: seq<nat>, v: T) {
    Sound(bytes, r.next) && Position(r.next) == Position(c) + |bits| && r.value == v
  }

  lemma AheadSplits(bytes: seq<byte>, c: Cursor, a: seq<nat>, b: seq<nat>)
    requires Ahead(bytes, c, a + b)
    ensures Ahead(bytes, c, a)
    ensures forall next :: Sound(bytes, next) && Position(next) == Position(c) + |a| ==> Ahead(bytes, next, b)
  {
    hide Sound, HasBits;
    SoundPosition(bytes, c);
    HasBoth(bytes, Position(c), a, b);
  }

  lemma SoundPosition(bytes: seq<byte>, c: Cursor)
    requires Sound(bytes, c)
    ensures Position(c) >= 0
  {
    hide Bits;
  }

  lemma DigitsRead(bytes: seq<byte>, c: Cursor, v: nat, n: Width)
    requires Ahead(bytes, c, Digits(v, n)) && ShiftRight(v, n) == 0
    ensures Took(bytes, c, Read(bytes, c, n), Digits(v, n), v)
  {
    hide BitCursor.Read, Bits, Bit, Low, ShiftRight, Digits;
    ReadIsBits(bytes, c, n);
    DigitsHeld(bytes, Position(c), v, n);
    Recompose(v, n);
    NoneLeft(n);
  }

  // --- Variable width integers ---

  /** Chunks of `n` bits, the high bit of each telling whether another follows. */
  function EncodeVbr(v: nat, n: Width): seq<nat>
    decreases v
  {
    if n == 1 || ShiftRight(v, n - 1) == 0 then Digits(v, n)
    else
      ShiftShrinks(v, n - 1);
      ShiftZero(n - 1);
      Digits(v, n - 1) + [1] + EncodeVbr(ShiftRight(v, n - 1), n)
  }

  lemma LastPieceRead(bytes: seq<byte>, c: Cursor, v: nat, n: Width)
    requires Ahead(bytes, c, Digits(v, n)) && ShiftRight(v, n - 1) == 0
    ensures Took(bytes, c, Pieces(bytes, c, n), Digits(v, n), v)
  {
    hide BitCursor.Read, Low, Sound, HasBits, Digits;
    assert ShiftRight(v, n) == 0;
    DigitsRead(bytes, c, v, n);
    Recompose(v, n - 1);
    NoneLeft(n - 1);
  }

  lemma PieceRead(bytes: seq<byte>, c: Cursor, v: nat, n: Width)
    requires Ahead(bytes, c, Digits(v, n - 1) + [1])
    ensures var r := Read(bytes, c, n);
            && Took(bytes, c, r, Digits(v, n - 1) + [1], r.value)
            && HighBit(r.value, n) == 1 && Low(r.value, n - 1) == Low(v, n - 1)
  {
    hide BitCursor.Read, Bits, Bit, Low, ShiftRight, Digits;
    ReadIsBits(bytes, c, n);
    var p := Position(c);
    HasBoth(bytes, p, Digits(v, n - 1), [1]);
    OneBit(bytes, p + n - 1, 1);
    DigitsHeld(bytes, p, v, n - 1);
    BitsMask(bytes, p, n, n - 1);
  }

  /** A variable width integer reads back, whatever its size. */
  lemma {:induction false} PiecesRead(bytes: seq<byte>, c: Cursor, v: nat, n: Width)
    requires Ahead(bytes, c, EncodeVbr(v, n)) && (n >= 2 || v == 0)
    ensures Took(bytes, c, Pieces(bytes, c, n), EncodeVbr(v, n), v)
    decreases v
  {
    hide BitCursor.Read, Low, Sound, HasBits, Digits, ShiftLeft, ShiftRight;
    ShiftZero(n - 1);
    if ShiftRight(v, n - 1) == 0 {
      LastPieceRead(bytes, c, v, n);
    } else {
      ShiftShrinks(v, n - 1);
      var high := ShiftRight(v, n - 1);
      AheadSplits(bytes, c, Digits(v, n - 1) + [1], EncodeVbr(high, n));
      PieceRead(bytes, c, v, n);
      ReadIsBits(bytes, c, n);
      PiecesRead(bytes, Read(bytes, c, n).next, high, n);
      Recompose(v, n - 1);
    }
  }

  /** In a register it reads back exactly when it fits. */
  lemma VbrRead(bytes: seq<byte>, c: Cursor, v: nat, n: Width, width: nat)
    requires Ahead(bytes, c, EncodeVbr(v, n)) && (n >= 2 || v == 0)
    ensures Took(bytes, c, VbrOf(bytes, c, n, width), EncodeVbr(v, n), Low(v, width))
    ensures Low(v, width) == v <==> ShiftRight(v, width) == 0
  {
    hide Low, Sound, HasBits, ShiftRight, EncodeVbr;
    PiecesRead(bytes, c, v, n);
    Recompose(v, width);
    LeftNonzero(ShiftRight(v, width), width);
  }

  // --- Abbreviated fields ---

  function EncodeChar6(c: nat): (v: nat)
    requires IsChar6(c)
    ensures v < 64 && DecodeChar6(v) == c
  {
    if 'a' as int <= c <= 'z' as int then c - 'a' as int
    else if 'A' as int <= c <= 'Z' as int then c - 'A' as int + 26
    else if '0' as int <= c <= '9' as int then c - '0' as int + 52
    else if c == '.' as int then 62
    else 63
  }

  /** Every six bits are the code of exactly one character. */
  lemma Char6Decodes(v: nat)
    requires v < 64
    ensures IsChar6(DecodeChar6(v)) && EncodeChar6(DecodeChar6(v)) == v
  {
  }

  function EncodeField(op: Op, v: nat): seq<nat>
    requires Scalar(op) && Fits(op, v)
  {
    match op
    case Literal(_) => []
    case Fixed(w) => Digits(v, w)
    case VBR(w) => EncodeVbr(v, w)
    case Char6 => Digits(EncodeChar6(v), 6)
  }

  lemma FieldRead(bytes: seq<byte>, c: Cursor, op: Op, v: nat)
    requires Scalar(op) && Fits(op, v) && Ahead(bytes, c, EncodeField(op, v))
    ensures Took(bytes, c, FieldOf(bytes, c, op), EncodeField(op, v), v)
  {
    hide BitCursor.Read, Sound, HasBits, Digits, VbrOf, ShiftRight, EncodeChar6, DecodeChar6, EncodeVbr, IsChar6;
    match op
    case Literal(_) =>
    case Fixed(w) => DigitsRead(bytes, c, v, w);
    case VBR(w) => VbrRead(bytes, c, v, w, 64);
    case Char6 =>
      SixBits(EncodeChar6(v));
      DigitsRead(bytes, c, EncodeChar6(v), 6);
  }

  function EncodeAll(op: Op, vals: seq<nat>): seq<nat>
    requires Scalar(op) && AllFit(op, vals)
  {
    if vals == [] then [] else EncodeField(op, vals[0]) + EncodeAll(op, vals[1..])
  }

  lemma {:induction false} FieldsRead(bytes: seq<byte>, c: Cursor, op: Op, vals: seq<nat>)
    requires Scalar(op) && AllFit(op, vals) && Ahead(bytes, c, EncodeAll(op, vals))
    ensures Took(bytes, c, FieldsOf(bytes, c, op, |vals|), EncodeAll(op, vals), vals)
    decreases |vals|
  {
    hide Sound, HasBits, FieldOf, EncodeField, Fits, Scalar;
    if vals != [] {
      AheadSplits(bytes, c, EncodeField(op, vals[0]), EncodeAll(op, vals[1..]));
      FieldRead(bytes, c, op, vals[0]);
      FieldsRead(bytes, FieldOf(bytes, c, op).next, op, vals[1..]);
      assert [vals[0]] + vals[1..] == vals;
    }
  }

  // --- What is read is what could have been written ---

  lemma NoHighBits(v: nat, n: nat)
    requires Low(v, n) == v
    ensures ShiftRight(v, n) == 0
  {
    hide Low, ShiftLeft, ShiftRight;
    Recompose(v, n);
    LeftNonzero(ShiftRight(v, n), n);
  }

  /** Chunks of one bit have no room for digits. */
  lemma {:induction false} NoDigits(bytes: seq<byte>, c: Cursor)
    requires Sound(bytes, c)
    ensures Pieces(bytes, c, 1).value == 0
    decreases Remaining(bytes, c)
  {
    hide BitCursor.Read, Bits, Sound, Position;
    ReadIsBits(bytes, c, 1);
    var piece := Read(bytes, c, 1);
    NoneLeft(0);
    if HighBit(piece.value, 1) != 0 {
      HighBitMoves(bytes, c);
      NoDigits(bytes, piece.next);
    }
  }

  lemma HighBitMoves(bytes: seq<byte>, c: Cursor)
    requires Sound(bytes, c) && HighBit(Read(bytes, c, 1).value, 1) != 0
    ensures Sound(bytes, Read(bytes, c, 1).next) && 0 <= Remaining(bytes, Read(bytes, c, 1).next) < Remaining(bytes, c)
  {
    hide BitCursor.Read, Bits;
    ReadIsBits(bytes, c, 1);
    ShiftZero(0);
  }

  /** Whatever the stream, an operand reads as a value it accepts. */
  lemma FieldFits(bytes: seq<byte>, c: Cursor, op: Op)
    requires Sound(bytes, c) && Scalar(op)
    ensures Fits(op, FieldOf(bytes, c, op).value)
  {
    hide BitCursor.Read, Sound, Pieces, Low, ShiftRight, DecodeChar6;
    match op
    case Literal(_) =>
    case Fixed(w) =>
      ReadFits(bytes, c, w);
      NoHighBits(Read(bytes, c, w).value, w);
    case VBR(w) =>
      VbrNarrow(bytes, c, w, 64);
      NoHighBits(VbrOf(bytes, c, w, 64).value, 64);
      if w == 1 {
        NoDigits(bytes, c);
        LowZero(64);
      }
    case Char6 =>
      ReadFits(bytes, c, 6);
      SixBitsOnly(Read(bytes, c, 6).value);
      Char6Decodes(Read(bytes, c, 6).value);
  }

  lemma SixBitsOnly(v: nat)
    requires Low(v, 6) == v
    ensures v < 64
  {
    NoHighBits(v, 6);
    FourShifts(v, 0);
    assert ShiftRight(v, 6) == ShiftRight(v, 4) / 2 / 2;
  }

  lemma {:induction false} FieldsFit(bytes: seq<byte>, c: Cursor, op: Op, count: nat)
    requires Sound(bytes, c) && Scalar(op)
    ensures AllFit(op, FieldsOf(bytes, c, op, count).value)
    decreases count
  {
    hide Sound, FieldOf, Fits, Scalar;
    if count > 0 {
      FieldFits(bytes, c, op);
      FieldsFit(bytes, FieldOf(bytes, c, op).next, op, count - 1);
    }
  }

  /** Whatever the stream, reading with an abbreviation gives a record that it accepts. */
  lemma {:induction false} OperandsMatch(bytes: seq<byte>, c: Cursor, ops: Abbrev)
    requires Sound(bytes, c) && Readable(ops)
    ensures Matches(ops, Operands(bytes, c, ops).value)
    decreases |ops|
  {
    hide Sound, FieldOf, FieldsOf, VbrOf, Fits, Scalar, Readable, AllFit;
    if ops != [] {
      ReadableHead(ops);
      if ops[0].Array? {
        var count := VbrOf(bytes, c, 6, 32);
        FieldsFit(bytes, count.next, ops[1], count.value);
      } else {
        FieldFits(bytes, c, ops[0]);
        OperandsMatch(bytes, FieldOf(bytes, c, ops[0]).next, ops[1..]);
      }
    }
  }

  // --- Records ---

  /** A count that fits the 32-bit register it is read into. */
  predicate CountFits(n: nat) { ShiftRight(n, 32) == 0 }

  function EncodeOperands(ops: Abbrev, vals: seq<nat>): seq<nat>
    requires Readable(ops) && Matches(ops, vals)
  {
    if ops == [] then []
    else
      ReadableHead(ops);
      if ops[0].Array? then EncodeVbr(|vals|, 6) + EncodeAll(ops[1], vals)
      else EncodeField(ops[0], vals[0]) + EncodeOperands(ops[1..], vals[1..])
  }

  lemma {:induction false} OperandsRead(bytes: seq<byte>, c: Cursor, ops: Abbrev, vals: seq<nat>)
    requires Readable(ops) && Matches(ops, vals) && Ahead(bytes, c, EncodeOperands(ops, vals))
    requires forall n :: 0 <= n <= |vals| ==> CountFits(n)
    ensures Took(bytes, c, Operands(bytes, c, ops), EncodeOperands(ops, vals), vals)
    decreases |ops|
  {
    hide Sound, HasBits, FieldOf, EncodeField, Fits, Scalar, EncodeVbr, Readable, ShiftRight, VbrOf, EncodeAll;
    if ops != [] {
      ReadableHead(ops);
      if ops[0].Array? {
        AheadSplits(bytes, c, EncodeVbr(|vals|, 6), EncodeAll(ops[1], vals));
        VbrRead(bytes, c, |vals|, 6, 32);
        assert CountFits(|vals|);
        FieldsRead(bytes, VbrOf(bytes, c, 6, 32).next, ops[1], vals);
      } else {
        AheadSplits(bytes, c, EncodeField(ops[0], vals[0]), EncodeOperands(ops[1..], vals[1..]));
        FieldRead(bytes, c, ops[0], vals[0]);
        OperandsRead(bytes, FieldOf(bytes, c, ops[0]).next, ops[1..], vals[1..]);
        assert [vals[0]] + vals[1..] == vals;
      }
    }
  }

  predicate Encodable(abbrev: Option<Abbrev>, vals: seq<nat>) {
    && CountFits(|vals|) && vals != []
    && match abbrev
       case None => CountFits(vals[0]) && AllFit(VBR(6), vals[1..])
       case Some(ops) => Readable(ops) && Matches(ops, vals)
  }

  function EncodeRecord(abbrev: Option<Abbrev>, vals: seq<nat>): seq<nat>
    requires Encodable(abbrev, vals)
  {
    match abbrev
    case None => EncodeVbr(vals[0], 6) + EncodeVbr(|vals| - 1, 6) + EncodeAll(VBR(6), vals[1..])
    case Some(ops) => EncodeOperands(ops, vals)
  }

  /** Every record an abbreviation accepts reads back, value for value, from any bit of a stream, and
      the cursor ends behind it, rounded up to a byte where records are aligned. */
  lemma RecordRead(bytes: seq<byte>, c: Cursor, align: bool, abbrev: Option<Abbrev>, vals: seq<nat>)
    requires Encodable(abbrev, vals) && Ahead(bytes, c, EncodeRecord(abbrev, vals))
    ensures var r := RecordOf(bytes, c, align, abbrev);
            var end := Position(c) + |EncodeRecord(abbrev, vals)|;
            r.value == vals && Position(r.next) == if align then (end + 7) / 8 * 8 else end
  {
    hide Sound, HasBits, EncodeVbr, EncodeAll, EncodeOperands, ShiftRight, VbrOf, Operands, Readable, Matches,
         FieldsOf, Position, AlignedTo;
    forall n | 0 <= n <= |vals| ensures CountFits(n) { ShiftMonotone(n, |vals|, 32); }
    match abbrev {
      case None =>
        var a, b, e := EncodeVbr(vals[0], 6), EncodeVbr(|vals| - 1, 6), EncodeAll(VBR(6), vals[1..]);
        AheadSplits(bytes, c, a + b, e);
        AheadSplits(bytes, c, a, b);
        VbrRead(bytes, c, vals[0], 6, 32);
        var afterCode := VbrOf(bytes, c, 6, 32).next;
        VbrRead(bytes, afterCode, |vals| - 1, 6, 32);
        assert CountFits(|vals| - 1);
        var afterCount := VbrOf(bytes, afterCode, 6, 32).next;
        FieldsRead(bytes, afterCount, VBR(6), vals[1..]);
        AlignLands(bytes, FieldsOf(bytes, afterCount, VBR(6), |vals| - 1).next, align);
      case Some(ops) =>
        OperandsRead(bytes, c, ops, vals);
        AlignLands(bytes, Operands(bytes, c, ops).next, align);
    }
  }

  // --- Numbers that do not fit their registers ---

  /** A value is cut to 64 bits. */
  lemma ValueCut(bytes: seq<byte>, c: Cursor, w: nat, v: nat)
    requires 2 <= w <= MAX_ABBREV_WIDTH && Ahead(bytes, c, EncodeVbr(v, w))
    ensures Took(bytes, c, FieldOf(bytes, c, VBR(w)), EncodeVbr(v, w), Low(v, 64))
  {
    hide Sound, HasBits, EncodeVbr, Low, VbrOf;
    VbrRead(bytes, c, v, w, 64);
  }

  /** The number of elements of an array is cut to 32. */
  lemma ArrayCut(bytes: seq<byte>, c: Cursor, e: Op, count: nat, vals: seq<nat>)
    requires Scalar(e) && AllFit(e, vals) && Low(count, 32) == |vals| && Ahead(bytes, c, EncodeVbr(count, 6) + EncodeAll(e, vals))
    ensures Readable([Array, e]) && Operands(bytes, c, [Array, e]).value == vals
  {
    hide Sound, HasBits, EncodeVbr, EncodeAll, Low, VbrOf, FieldsOf, Scalar, AllFit, ShiftRight;
    assert !e.Array? by { NoArray(e); }
    AheadSplits(bytes, c, EncodeVbr(count, 6), EncodeAll(e, vals));
    VbrRead(bytes, c, count, 6, 32);
    FieldsRead(bytes, VbrOf(bytes, c, 6, 32).next, e, vals);
  }

  lemma NoArray(e: Op)
    requires Scalar(e)
    ensures !e.Array?
  {
  }

  /** So are the code and the number of values of an unabbreviated record. */
  lemma RecordCut(bytes: seq<byte>, c: Cursor, align: bool, code: nat, count: nat, vals: seq<nat>)
    requires AllFit(VBR(6), vals) && Low(count, 32) == |vals|
    requires Ahead(bytes, c, EncodeVbr(code, 6) + EncodeVbr(count, 6) + EncodeAll(VBR(6), vals))
    ensures RecordOf(bytes, c, align, None).value == [Low(code, 32)] + vals
  {
    hide Sound, HasBits, EncodeVbr, EncodeAll, Low, VbrOf, FieldsOf, AllFit, ShiftRight, Position, AlignedTo;
    var a, b, e := EncodeVbr(code, 6), EncodeVbr(count, 6), EncodeAll(VBR(6), vals);
    AheadSplits(bytes, c, a + b, e);
    AheadSplits(bytes, c, a, b);
    VbrRead(bytes, c, code, 6, 32);
    var afterCode := VbrOf(bytes, c, 6, 32).next;
    VbrRead(bytes, afterCode, count, 6, 32);
    FieldsRead(bytes, VbrOf(bytes, afterCode, 6, 32).next, VBR(6), vals);
  }

  // --- Definitions of abbreviations ---

  predicate Writable(op: Op) {
    match op
    case Literal(v) => ShiftRight(v, 64) == 0
    case Array => true
    case _ => Scalar(op)
  }

  function EncodeOp(op: Op): seq<nat>
    requires Writable(op)
  {
    match op
    case Literal(v) => [1] + EncodeVbr(v, 8)
    case Fixed(w) => [0] + (Digits(1, 3) + EncodeVbr(w, 5))
    case VBR(w) => [0] + (Digits(2, 3) + EncodeVbr(w, 5))
    case Array => [0] + Digits(3, 3)
    case Char6 => [0] + Digits(4, 3)
  }

  lemma FlagRead(bytes: seq<byte>, c: Cursor, flag: nat)
    requires flag < 2 && Ahead(bytes, c, [flag])
    ensures Took(bytes, c, Read(bytes, c, 1), [flag], flag)
  {
    hide BitCursor.Read, Bit, Bits;
    ReadIsBits(bytes, c, 1);
    OneBit(bytes, Position(c), flag);
  }

  lemma EncodingRead(bytes: seq<byte>, c: Cursor, e: nat)
    requires e < 8 && Ahead(bytes, c, Digits(e, 3))
    ensures Took(bytes, c, Read(bytes, c, 3), Digits(e, 3), e)
  {
    hide BitCursor.Read, Bit, Bits, Sound, HasBits, Digits;
    assert ShiftRight(e, 1) == e / 2 && ShiftRight(e, 2) == e / 2 / 2;
    DigitsRead(bytes, c, e, 3);
  }

  /** An operand of a definition as any writer may write it: a literal, or an encoding of 3 bits with the
      number that the first three encodings are followed by. */
  datatype WrittenOp = Value(v: nat) | Coded(encoding: nat, data: nat)

  function EncodeWritten(o: WrittenOp): seq<nat> {
    match o
    case Value(v) => [1] + EncodeVbr(v, 8)
    case Coded(e, data) => [0] + (Digits(e, 3) + if e <= 2 then EncodeVbr(data, 5) else [])
  }

  /** Every written operand, good or bad, is read to its end and for what it means: numbers are cut to
      their registers, widths are from 1 to 32 with 0 for a literal 0, and there are five encodings. */
  lemma WrittenRead(bytes: seq<byte>, c: Cursor, o: WrittenOp)
    requires Ahead(bytes, c, EncodeWritten(o)) && (o.Coded? ==> o.encoding < 8)
    ensures Took(bytes, c, OpAt(bytes, c), EncodeWritten(o), OpAt(bytes, c).value)
    ensures o.Value? ==> OpAt(bytes, c).value == Defined(Literal(Low(o.v, 64)))
    ensures o.Coded? ==>
              var w, r := Low(o.data, 32), OpAt(bytes, c).value;
              && (o.encoding == 0 ==> r == Defined(Literal(w)))
              && (o.encoding in {1, 2} && w == 0 ==> r == Defined(Literal(0)))
              && (o.encoding in {1, 2} && w > 32 ==> r == BadWidth)
              && (o.encoding == 1 && 1 <= w <= 32 ==> r == Defined(Fixed(w)))
              && (o.encoding == 2 && 1 <= w <= 32 ==> r == Defined(VBR(w)))
              && (o.encoding == 3 ==> r == Defined(Array))
              && (o.encoding == 4 ==> r == Defined(Char6))
              && (o.encoding > 4 ==> r == BadEncoding)
  {
    hide BitCursor.Read, Sound, HasBits, EncodeVbr, Low, ShiftRight, VbrOf, Digits;
    var next := Read(bytes, c, 1).next;
    match o {
      case Value(v) =>
        AheadSplits(bytes, c, [1], EncodeVbr(v, 8));
        FlagRead(bytes, c, 1);
        VbrRead(bytes, next, v, 8, 64);
      case Coded(e, data) =>
        var number := if e <= 2 then EncodeVbr(data, 5) else [];
        AheadSplits(bytes, c, [0], Digits(e, 3) + number);
        FlagRead(bytes, c, 0);
        AheadSplits(bytes, next, Digits(e, 3), number);
        EncodingRead(bytes, next, e);
        if e <= 2 {
          VbrRead(bytes, Read(bytes, next, 3).next, data, 5, 64);
          LowLow(data);
        }
    }
  }

  /** A number cut to 64 bits and then to 32. */
  lemma LowLow(v: nat)
    ensures Low(Low(v, 64), 32) == Low(v, 32)
  {
    hide Low;
    LowAgain(v, 32, 64);
  }

  lemma {:induction false} LowAgain(v: nat, m: nat, n: nat)
    requires m <= n
    ensures Low(Low(v, n), m) == Low(v, m)
    decreases m
  {
    if m > 0 { LowAgain(v / 2, m - 1, n - 1); }
  }

  function EncodeAllWritten(ops: seq<WrittenOp>): seq<nat> {
    if ops == [] then [] else EncodeWritten(ops[0]) + EncodeAllWritten(ops[1..])
  }

  /** Skipping goes over every operand with a known encoding, whatever its width. */
  lemma {:induction false} WrittenSkipped(bytes: seq<byte>, c: Cursor, ops: seq<WrittenOp>)
    requires Ahead(bytes, c, EncodeAllWritten(ops)) && forall i :: 0 <= i < |ops| ==> ops[i].Coded? ==> ops[i].encoding <= 4
    ensures var s := SkippedOps(bytes, c, |ops|);
            s.Some? && Position(s.value) == Position(c) + |EncodeAllWritten(ops)|
    decreases |ops|
  {
    hide Sound, HasBits, OpAt, EncodeWritten, Low;
    if ops != [] {
      AheadSplits(bytes, c, EncodeWritten(ops[0]), EncodeAllWritten(ops[1..]));
      WrittenRead(bytes, c, ops[0]);
      WrittenSkipped(bytes, OpAt(bytes, c).next, ops[1..]);
    }
  }

  predicate Acceptable(o: WrittenOp) {
    o.Coded? ==> o.encoding <= 4 && (o.encoding in {1, 2} ==> Low(o.data, 32) <= 32)
  }

  /** A definition is read up to its first operand that is not acceptable, and that decides the fault. */
  lemma {:induction false} FaultRead(bytes: seq<byte>, c: Cursor, good: seq<WrittenOp>, bad: WrittenOp, count: nat)
    requires (forall i :: 0 <= i < |good| ==> Acceptable(good[i])) && bad.Coded? && bad.encoding < 8 && !Acceptable(bad)
    requires Ahead(bytes, c, EncodeAllWritten(good + [bad])) && count > |good|
    ensures var r := OpsAt(bytes, c, count);
            && r.value == (if bad.encoding > 4 then BadEncoding else BadWidth)
            && Position(r.next) == Position(c) + |EncodeAllWritten(good + [bad])|
    decreases |good|
  {
    hide Sound, HasBits, OpAt, EncodeWritten, Low;
    var ops := good + [bad];
    AheadSplits(bytes, c, EncodeWritten(ops[0]), EncodeAllWritten(ops[1..]));
    if good == [] {
      WrittenRead(bytes, c, bad);
    } else {
      assert Acceptable(good[0]);
      WrittenRead(bytes, c, good[0]);
      assert ops[1..] == good[1..] + [bad];
      FaultRead(bytes, OpAt(bytes, c).next, good[1..], bad, count - 1);
    }
  }

  lemma OpRead(bytes: seq<byte>, c: Cursor, op: Op)
    requires Writable(op) && Ahead(bytes, c, EncodeOp(op))
    ensures Took(bytes, c, OpAt(bytes, c), EncodeOp(op), Defined(op))
  {
    hide BitCursor.Read, Sound, HasBits, EncodeVbr, Low, ShiftRight, Digits, OpAt;
    match op
    case Literal(v) =>
      WrittenRead(bytes, c, Value(v));
      Recompose(v, 64);
      NoneLeft(64);
    case Fixed(w) => WidthKept(w); WrittenRead(bytes, c, Coded(1, w));
    case VBR(w) => WidthKept(w); WrittenRead(bytes, c, Coded(2, w));
    case Array =>
      assert Digits(3, 3) + [] == Digits(3, 3);
      WrittenRead(bytes, c, Coded(3, 0));
    case Char6 =>
      assert Digits(4, 3) + [] == Digits(4, 3);
      WrittenRead(bytes, c, Coded(4, 0));
  }

  lemma WidthKept(w: nat)
    requires w <= 32
    ensures Low(w, 32) == w
  {
    hide Low, ShiftRight;
    SixBits(w);
    ShiftFurther(w, 6, 32);
    Recompose(w, 32);
    NoneLeft(32);
  }

  predicate AllWritable(ops: Abbrev) {
    forall i :: 0 <= i < |ops| ==> Writable(ops[i])
  }

  function EncodeOps(ops: Abbrev): seq<nat>
    requires AllWritable(ops)
  {
    if ops == [] then [] else EncodeOp(ops[0]) + EncodeOps(ops[1..])
  }

  lemma {:induction false} OpsRead(bytes: seq<byte>, c: Cursor, ops: Abbrev)
    requires AllWritable(ops) && Ahead(bytes, c, EncodeOps(ops))
    ensures Took(bytes, c, OpsAt(bytes, c, |ops|), EncodeOps(ops), Defined(ops))
    decreases |ops|
  {
    hide Sound, HasBits, OpAt, EncodeOp, Writable;
    if ops != [] {
      AheadSplits(bytes, c, EncodeOp(ops[0]), EncodeOps(ops[1..]));
      OpRead(bytes, c, ops[0]);
      OpsRead(bytes, OpAt(bytes, c).next, ops[1..]);
      assert [ops[0]] + ops[1..] == ops;
    }
  }

  /** The number of operands of a definition is cut to 32 bits. */
  lemma DefinitionCut(bytes: seq<byte>, c: Cursor, align: bool, count: nat, ops: Abbrev)
    requires Valid(ops) && AllWritable(ops) && Low(count, 32) == |ops| && Ahead(bytes, c, EncodeVbr(count, 5) + EncodeOps(ops))
    ensures DefinitionOf(bytes, c, align).value == Defined(ops)
  {
    hide Sound, HasBits, EncodeVbr, ShiftRight, VbrOf, Position, AlignedTo, EncodeOps, Writable, OpsAt, Low;
    AheadSplits(bytes, c, EncodeVbr(count, 5), EncodeOps(ops));
    VbrRead(bytes, c, count, 5, 32);
    OpsRead(bytes, VbrOf(bytes, c, 5, 32).next, ops);
  }

  /** Every valid definition reads back as it was written. */
  lemma DefinitionRead(bytes: seq<byte>, c: Cursor, align: bool, ops: Abbrev)
    requires Valid(ops) && AllWritable(ops) && CountFits(|ops|)
    requires Ahead(bytes, c, EncodeVbr(|ops|, 5) + EncodeOps(ops))
    ensures var r := DefinitionOf(bytes, c, align);
            var end := Position(c) + |EncodeVbr(|ops|, 5)| + |EncodeOps(ops)|;
            r.value == Defined(ops) && Position(r.next) == if align then (end + 7) / 8 * 8 else end
  {
    hide Sound, HasBits, EncodeVbr, ShiftRight, VbrOf, Position, AlignedTo, EncodeOps, Writable, OpsAt;
    AheadSplits(bytes, c, EncodeVbr(|ops|, 5), EncodeOps(ops));
    VbrRead(bytes, c, |ops|, 5, 32);
    var next := VbrOf(bytes, c, 5, 32).next;
    OpsRead(bytes, next, ops);
    AlignLands(bytes, OpsAt(bytes, next, |ops|).next, align);
  }
}
