/** The bitstream cursor as the object the parser reads through. */
module BitstreamReaders {
  import opened Bytes
  import opened Words
  import opened BitCursor
  import opened Abbreviations
  import opened BitcodeFields

  class BitstreamCursor {
    const bytes: seq<byte>
    const align: bool
    var nextChar: nat
    var curWord: nat
    var bitsInCurWord: nat

    /** The state as a value. */
    function At(): Cursor
      reads this
    {
      Cursor(nextChar, curWord, bitsInCurWord)
    }

    ghost predicate Valid()
      reads this
    {
      Sound(bytes, At())
    }

    constructor (bytes: seq<byte>, align: bool)
      ensures Valid() && this.bytes == bytes && this.align == align && Position(At()) == 0
    {
      this.bytes, this.align := bytes, align;
      nextChar, curWord, bitsInCurWord := 0, 0, 0;
    }

    method FillCurWord()
      requires Valid()
      modifies this
      ensures Valid() && At() == BitCursor.FillCurWord(bytes, old(At()))
    {
      hide Bits, Position, BytesNumber;
      FillSound(bytes, At());
      var bytesRead := if |bytes| - nextChar < WORD_BYTES then |bytes| - nextChar else WORD_BYTES;
      if bytesRead == 0 { return; }
      curWord := BytesNumber(bytes[nextChar..nextChar + bytesRead]);
      nextChar := nextChar + bytesRead;
      bitsInCurWord := 8 * bytesRead;
    }

    method Read(n: Width) returns (r: nat)
      requires Valid()
      modifies this
      ensures Valid() && BitCursor.Read(bytes, old(At()), n) == Reading(At(), r)
    {
      hide Bits, Position, Low, ShiftLeft, ShiftRight;
      ReadIsBits(bytes, At(), n);
      if bitsInCurWord >= n {
        r := Low(curWord, n);
        curWord := ShiftRight(curWord, if n == WORD_BITS then 0 else n);
        bitsInCurWord := bitsInCurWord - n;
        return;
      }
      r := if bitsInCurWord > 0 then curWord else 0;
      var left := n - bitsInCurWord;
      FillCurWord();
      if left > bitsInCurWord { return 0; }
      var r2 := Low(curWord, left);
      curWord := ShiftRight(curWord, if left == WORD_BITS then 0 else left);
      bitsInCurWord := bitsInCurWord - left;
      r := r + ShiftLeft(r2, n - left);
    }

    /** What is still to come once a piece has been read. */
    ghost function PieceOnward(piece: nat, n: Width): Reading<nat>
      requires Valid()
      reads this
    {
      if HighBit(piece, n) == 0 then Reading(At(), Low(piece, n - 1))
      else
        var rest := Pieces(bytes, At(), n);
        Reading(rest.next, Low(piece, n - 1) + ShiftLeft(rest.value, n - 1))
    }

    /** A variable width integer, collected in a register of `width` bits, which drops what does not fit.
        The digits of a piece lie above those collected, so or-ing them in is adding them. */
    method ReadVBR(n: Width, width: nat) returns (result: nat)
      requires Valid() && n <= width
      modifies this
      ensures Valid() && VbrOf(bytes, old(At()), n, width) == Reading(At(), result)
    {
      hide BitCursor.Read, ShiftLeft, ShiftRight, Low;
      ghost var whole := Pieces(bytes, At(), n);
      ReadFits(bytes, At(), n);
      var piece := Read(n);
      if HighBit(piece, n) == 0 {
        LastPiece(piece, n, width);
        return piece;
      }
      result := 0;
      var nextBit: nat := 0;
      ghost var sum: nat := 0;
      LowZero(width);
      NoBits(bytes, 0, PieceOnward(piece, n).value);
      while true
        invariant Valid()
        invariant result == Low(sum, width)
        invariant whole.next == PieceOnward(piece, n).next
        invariant whole.value == sum + ShiftLeft(PieceOnward(piece, n).value, nextBit)
        decreases 8 * |bytes| - Position(At()), piece
      {
        LowAdd(sum, ShiftLeft(Low(piece, n - 1), nextBit), width);
        result := Low(result + ShiftLeft(Low(piece, n - 1), nextBit), width);
        if HighBit(piece, n) == 0 { return; }
        ghost var rest := Pieces(bytes, At(), n);
        ShiftSum(Low(piece, n - 1), rest.value, n - 1, nextBit);
        sum := sum + ShiftLeft(Low(piece, n - 1), nextBit);
        nextBit := nextBit + n - 1;
        ReadIsBits(bytes, At(), n);
        ShiftZero(n - 1);
        piece := Read(n);
      }
    }

    method SkipToByteBoundaryIfAligned()
      requires Valid()
      modifies this
      ensures Valid() && At() == AlignedTo(old(At()), align)
    {
      AlignLands(bytes, At(), align);
      if align {
        var bitsToSkip := bitsInCurWord % 8;
        if bitsToSkip > 0 {
          curWord := ShiftRight(curWord, bitsToSkip);
          bitsInCurWord := bitsInCurWord - bitsToSkip;
        }
      }
    }

    // --- Fields ---

    method SkipAbbreviatedField(op: Op)
      requires Valid() && Scalar(op)
      modifies this
      ensures Valid() && At() == FieldOf(bytes, old(At()), op).next
    {
      match op
      case Literal(_) =>
      case Fixed(w) => var _ := Read(w);
      case VBR(w) => var _ := ReadVBR(w, 64);
      case Array => assert false;
      case Char6 => var _ := Read(6);
    }

    /** Gives the value, or for an array operator the number of its elements. */
    method ReadRecordAbbrevField(op: Op) returns (isArray: bool, value: nat)
      requires Valid() && (op.Array? || Scalar(op))
      modifies this
      ensures Valid() && isArray == op.Array?
      ensures Reading(At(), value) == if isArray then VbrOf(bytes, old(At()), 6, 32) else FieldOf(bytes, old(At()), op)
    {
      isArray := false;
      match op
      case Literal(v) => value := v;
      case Array => value := ReadVBR(6, 32); isArray := true;
      case Fixed(w) => value := Read(w);
      case VBR(w) => value := ReadVBR(w, 64);
      case Char6 => var v := Read(6); value := DecodeChar6(v);
    }

    method ReadArrayAbbreviatedField(op: Op) returns (value: nat)
      requires Valid() && Scalar(op)
      modifies this
      ensures Valid() && Reading(At(), value) == FieldOf(bytes, old(At()), op)
    {
      match op
      case Literal(v) => value := v;
      case Fixed(w) => value := Read(w);
      case VBR(w) => value := ReadVBR(w, 64);
      case Array => assert false;
      case Char6 => var v := Read(6); value := DecodeChar6(v);
    }

    /** Appends `count` elements to the values read so far. */
    method ReadArrayAbbrev(op: Op, count: nat, vals: seq<nat>) returns (all: seq<nat>)
      requires Valid() && Scalar(op)
      modifies this
      ensures Valid() && vals <= all
      ensures FieldsOf(bytes, old(At()), op, count) == Reading(At(), all[|vals|..])
    {
      hide Sound, Position, FieldOf;
      all := vals;
      var left: nat := count;
      ghost var whole, got := FieldsOf(bytes, At(), op, count), [];
      assert got + whole.value == whole.value;
      while left > 0
        invariant Valid() && left <= count
        invariant all == vals + got
        invariant var rest := FieldsOf(bytes, At(), op, left);
                  whole == Reading(rest.next, got + rest.value)
      {
        var v := ReadArrayAbbreviatedField(op);
        ghost var rest := FieldsOf(bytes, At(), op, left - 1).value;
        assert got + ([v] + rest) == (got + [v]) + rest;
        all := all + [v];
        got := got + [v];
        left := left - 1;
      }
      assert all[|vals|..] == got && got + [] == got;
    }

    // --- Records ---

    /** Reads a record: its code and values, or nothing when an array that should hold the code is empty. */
    method ReadRecord(abbrev: Option<Abbrev>) returns (ok: bool, code: nat, vals: seq<nat>)
      requires Valid() && (abbrev.Some? ==> abbrev.value != [] && Readable(abbrev.value))
      modifies this
      ensures Valid()
      ensures ok <==> RecordOf(bytes, old(At()), align, abbrev).value != []
      ensures ok ==> RecordOf(bytes, old(At()), align, abbrev).next == At()
      ensures ok ==> code == Low(RecordOf(bytes, old(At()), align, abbrev).value[0], 32)
      ensures ok ==> vals == RecordOf(bytes, old(At()), align, abbrev).value[1..]
    {
      hide Sound, Position, FieldOf, VbrOf, Readable;
      vals := [];
      if abbrev.None? {
        ghost var start := At();
        code := ReadVBR(6, 32);
        VbrNarrow(bytes, start, 6, 32);
        var count := ReadVBR(6, 32);
        vals := ReadArrayAbbrev(VBR(6), count, []);
        SkipToByteBoundaryIfAligned();
        return true, code, vals;
      }
      var ops := abbrev.value;
      ReadableHead(ops);
      var isArray, value := ReadRecordAbbrevField(ops[0]);
      if isArray {
        if value == 0 { return false, 0, []; }
        var first := ReadArrayAbbreviatedField(ops[1]);
        vals := ReadArrayAbbrev(ops[1], value - 1, []);
        SkipToByteBoundaryIfAligned();
        return true, Low(first, 32), vals;
      }
      code := Low(value, 32);
      ghost var whole := Operands(bytes, At(), ops[1..]);
      assert [] + whole.value == whole.value;
      var i := 1;
      while i < |ops|
        invariant Valid() && 1 <= i <= |ops| && Readable(ops[i..])
        invariant var rest := Operands(bytes, At(), ops[i..]);
                  whole == Reading(rest.next, vals + rest.value)
        decreases |ops| - i
      {
        ReadableHead(ops[i..]);
        assert ops[i..][0] == ops[i] && ops[i..][1..] == ops[i + 1..];
        isArray, value := ReadRecordAbbrevField(ops[i]);
        if isArray {
          i := i + 1;
          vals := ReadArrayAbbrev(ops[i], value, vals);
          SkipToByteBoundaryIfAligned();
          return true, code, vals;
        }
        ghost var rest := Operands(bytes, At(), ops[i + 1..]).value;
        assert vals + ([value] + rest) == (vals + [value]) + rest;
        vals := vals + [value];
        i := i + 1;
      }
      SkipToByteBoundaryIfAligned();
      return true, code, vals;
    }

    /** Skips a record: the cursor ends where reading the record ends. */
    method SkipRecord(abbrev: Option<Abbrev>)
      requires Valid() && (abbrev.Some? ==> Readable(abbrev.value))
      modifies this
      ensures Valid() && At() == RecordOf(bytes, old(At()), align, abbrev).next
    {
      hide Sound, Position, VbrOf;
      if abbrev.None? {
        var _ := ReadVBR(6, 32);
        var count := ReadVBR(6, 32);
        SkipFields(VBR(6), count);
        SkipToByteBoundaryIfAligned();
        return;
      }
      var ops := abbrev.value;
      ghost var whole := Operands(bytes, At(), ops);
      var i := 0;
      assert ops[0..] == ops;
      while i < |ops|
        invariant Valid() && 0 <= i <= |ops| && Readable(ops[i..])
        invariant whole.next == Operands(bytes, At(), ops[i..]).next
        decreases |ops| - i
      {
        ReadableHead(ops[i..]);
        assert ops[i..][0] == ops[i] && ops[i..][1..] == ops[i + 1..];
        match ops[i] {
          case Literal(_) =>
          case Array =>
            var count := ReadVBR(6, 32);
            i := i + 1;
            SkipFields(ops[i], count);
            assert ops[i + 1..] == [];
          case _ =>
            SkipAbbreviatedField(ops[i]);
        }
        i := i + 1;
      }
      SkipToByteBoundaryIfAligned();
    }

    method SkipFields(op: Op, count: nat)
      requires Valid() && Scalar(op)
      modifies this
      ensures Valid() && At() == FieldsOf(bytes, old(At()), op, count).next
    {
      hide Sound, Position, FieldOf;
      ghost var whole := FieldsOf(bytes, At(), op, count);
      var left: nat := count;
      while left > 0
        invariant Valid() && left <= count
        invariant whole.next == FieldsOf(bytes, At(), op, left).next
      {
        SkipAbbreviatedField(op);
        left := left - 1;
      }
    }

    // --- Definitions of abbreviations ---

    /** Reads a definition, stopping at the first operand that is not acceptable. */
    method ReadAbbrevRecord() returns (abbrev: Definition<Abbrev>)
      requires Valid()
      modifies this
      ensures Valid() && Reading(At(), abbrev) == DefinitionOf(bytes, old(At()), align)
    {
      hide Sound, Position, OpAt, OpFrom, VbrOf;
      var count := ReadVBR(5, 32);
      var ops: Abbrev := [];
      var left: nat := count;
      ghost var whole := OpsAt(bytes, At(), count);
      assert whole.value.Defined? ==> ops + whole.value.value == whole.value.value;
      while left > 0
        invariant Valid() && left <= count
        invariant var rest := OpsAt(bytes, At(), left);
                  && whole.next == rest.next
                  && whole.value == if rest.value.Defined? then Defined(ops + rest.value.value) else rest.value
      {
        ghost var rest := OpsAt(bytes, At(), left).value;
        var op := ReadOp();
        match op {
          case BadEncoding => return BadEncoding;
          case BadWidth => return BadWidth;
          case BadAbbreviation => return BadAbbreviation;
          case Defined(o) =>
            assert rest.Defined? ==> (ops + [o]) + rest.value[1..] == ops + rest.value;
            ops := ops + [o];
        }
        left := left - 1;
      }
      assert ops + [] == ops;
      SkipToByteBoundaryIfAligned();
      var ok := IsValid(ops);
      return if ok then Defined(ops) else BadAbbreviation;
    }

    method ReadOp() returns (op: Definition<Op>)
      requires Valid()
      modifies this
      ensures Valid() && Reading(At(), op) == OpAt(bytes, old(At()))
    {
      hide Sound, Position, BitCursor.Read, VbrOf;
      var isLiteral := Read(1);
      if isLiteral != 0 {
        var v := ReadVBR(8, 64);
        return Defined(Literal(v));
      }
      var encoding := Read(3);
      if encoding > 4 { return BadEncoding; }
      if HasValue(encoding) {
        var data := ReadVBR(5, 64);
        return OpFrom(encoding, Low(data, 32));
      }
      return OpFrom(encoding, 0);
    }

    /** Skips a definition, building nothing; only an unknown encoding stops it. */
    method SkipAbbrevRecord() returns (ok: bool)
      requires Valid()
      modifies this
      ensures Valid()
      ensures SkippedDefinition(bytes, old(At()), align) == if ok then Some(At()) else None
    {
      hide Sound, Position, BitCursor.Read, VbrOf, OpFrom;
      var count := ReadVBR(5, 32);
      var left: nat := count;
      ghost var whole := SkippedOps(bytes, At(), count);
      while left > 0
        invariant Valid() && left <= count
        invariant whole == SkippedOps(bytes, At(), left)
      {
        ghost var start := At();
        var isLiteral := Read(1);
        if isLiteral != 0 {
          var _ := ReadVBR(8, 64);
        } else {
          var encoding := Read(3);
          OpFromKnown(encoding);
          if encoding > 4 { return false; }
          if HasValue(encoding) {
            var _ := ReadVBR(5, 64);
          }
        }
        assert At() == OpAt(bytes, start).next;
        left := left - 1;
      }
      SkipToByteBoundaryIfAligned();
      return true;
    }
  }
}
