/** The bitstream cursor: fields of bits read through a buffered word.

    `Cursor` is the reader's state and the functions are what its methods do to it, at every position
    including past the end.  `Bits` is the plain meaning: the stream as a sequence of bits, least
    significant first. */
module BitCursor {
  import opened Bytes
  import opened Words

  const WORD_BYTES := 8

  // --- The stream as bits ---

  function Bit(bytes: seq<byte>, i: nat): (b: nat)
    ensures b < 2
  {
    if i / 8 < |bytes| then ShiftRight(bytes[i / 8] as int, i % 8) % 2 else 0
  }

  /** The number whose binary digits are the `n` bits from `p`, least significant first. */
  function Bits(bytes: seq<byte>, p: nat, n: nat): nat
    decreases n
  {
    if n == 0 then 0 else Bit(bytes, p) + 2 * Bits(bytes, p + 1, n - 1)
  }

  lemma {:induction false} BitsSplit(bytes: seq<byte>, p: nat, a: nat, b: nat)
    ensures Bits(bytes, p, a + b) == Bits(bytes, p, a) + ShiftLeft(Bits(bytes, p + a, b), a)
    decreases a
  {
    hide Bit;
    if a > 0 {
      BitsSplit(bytes, p + 1, a - 1, b);
      assert p + 1 + (a - 1) == p + a;
    }
  }

  /** Masking gives the low bits, and shifting drops them. */
  lemma {:induction false} BitsMask(bytes: seq<byte>, p: nat, n: nat, a: nat)
    requires a <= n
    ensures Low(Bits(bytes, p, n), a) == Bits(bytes, p, a)
    ensures ShiftRight(Bits(bytes, p, n), a) == Bits(bytes, p + a, n - a)
    decreases a
  {
    hide Bit;
    if a > 0 {
      BitsMask(bytes, p + 1, n - 1, a - 1);
      ShiftFirst(Bits(bytes, p, n), a - 1);
      assert Bits(bytes, p, n) / 2 == Bits(bytes, p + 1, n - 1);
    }
  }

  /** The number of whole bytes, least significant first. */
  function BytesNumber(bytes: seq<byte>): nat {
    if bytes == [] then 0 else bytes[0] as int + 0x100 * BytesNumber(bytes[1..])
  }

  lemma ByteShifted(w: nat)
    ensures ShiftLeft(w, 8) == 0x100 * w
    ensures w < 0x100 ==> ShiftRight(w, 8) == 0
  {
    FourShifts(w, 0);
    FourShifts(w, 4);
  }

  lemma {:induction false} RestOfByte(bytes: seq<byte>, k: nat, i: nat)
    requires k < |bytes| && i <= 8
    ensures Bits(bytes, 8 * k + i, 8 - i) == ShiftRight(bytes[k] as int, i)
    decreases 8 - i
  {
    if i == 8 {
      ByteShifted(bytes[k] as int);
    } else {
      RestOfByte(bytes, k, i + 1);
      assert (8 * k + i) / 8 == k && (8 * k + i) % 8 == i;
      assert 8 * k + i + 1 == 8 * k + (i + 1);
    }
  }

  lemma {:induction false} BytesBits(bytes: seq<byte>, from: nat, k: nat)
    requires from + k <= |bytes|
    ensures BytesNumber(bytes[from..from + k]) == Bits(bytes, 8 * from, 8 * k)
    decreases k
  {
    hide Bit, ShiftLeft, ShiftRight;
    if k > 0 {
      BytesBits(bytes, from + 1, k - 1);
      assert bytes[from..from + k][1..] == bytes[from + 1..from + k];
      RestOfByte(bytes, from, 0);
      NoBits(bytes, 0, bytes[from] as int);
      BitsSplit(bytes, 8 * from, 8, 8 * (k - 1));
      assert 8 * from + 8 == 8 * (from + 1) && 8 + 8 * (k - 1) == 8 * k;
      ByteShifted(Bits(bytes, 8 * (from + 1), 8 * (k - 1)));
    }
  }

  // --- The cursor ---

  datatype Cursor = Cursor(nextChar: nat, curWord: nat, bitsInCurWord: nat)

  /** The position of the next bit. */
  function Position(c: Cursor): int { 8 * c.nextChar - c.bitsInCurWord }

  /** The buffered word holds exactly the bits between the cursor and the next byte to fetch. */
  predicate Sound(bytes: seq<byte>, c: Cursor) {
    && c.nextChar <= |bytes| && c.bitsInCurWord <= WORD_BITS && c.bitsInCurWord <= 8 * c.nextChar
    && (c.bitsInCurWord > 0 ==> c.curWord == Bits(bytes, Position(c), c.bitsInCurWord))
  }

  function Remaining(bytes: seq<byte>, c: Cursor): int { 8 * |bytes| - Position(c) }

  /** At the end of the stream the buffered word and its bit count stay as they are. */
  function FillCurWord(bytes: seq<byte>, c: Cursor): Cursor
    requires c.nextChar <= |bytes|
  {
    var bytesRead := if |bytes| - c.nextChar < WORD_BYTES then |bytes| - c.nextChar else WORD_BYTES;
    if bytesRead == 0 then c
    else Cursor(c.nextChar + bytesRead, BytesNumber(bytes[c.nextChar..c.nextChar + bytesRead]), 8 * bytesRead)
  }

  /** Drops `n` buffered bits.  A shift by the word width is masked to a shift by 0. */
  function Drop(c: Cursor, n: nat): Cursor
    requires n <= c.bitsInCurWord
  {
    c.(curWord := ShiftRight(c.curWord, if n == WORD_BITS then 0 else n), bitsInCurWord := c.bitsInCurWord - n)
  }

  /** What a read gives: the value, and the cursor after it. */
  datatype Reading<T> = Reading(next: Cursor, value: T)

  type Width = n: nat | 1 <= n <= WORD_BITS witness 1

  /** Reads a field; past the end it gives 0 or, when the bits left over from the last word are enough
      for what is missing, those bits again. */
  function Read(bytes: seq<byte>, c: Cursor, n: Width): Reading<nat>
    requires Sound(bytes, c)
  {
    if c.bitsInCurWord >= n then
      Reading(Drop(c, n), Low(c.curWord, n))
    else
      var low := if c.bitsInCurWord > 0 then c.curWord else 0;
      var left := n - c.bitsInCurWord;
      var f := FillCurWord(bytes, c);
      if left > f.bitsInCurWord then Reading(f, 0)
      else Reading(Drop(f, left), low + ShiftLeft(Low(f.curWord, left), n - left))
  }

  lemma FillSound(bytes: seq<byte>, c: Cursor)
    requires Sound(bytes, c)
    ensures Sound(bytes, FillCurWord(bytes, c))
  {
    hide Bits;
    if c.nextChar < |bytes| {
      var bytesRead := if |bytes| - c.nextChar < WORD_BYTES then |bytes| - c.nextChar else WORD_BYTES;
      BytesBits(bytes, c.nextChar, bytesRead);
    }
  }

  lemma NoBits(bytes: seq<byte>, p: nat, w: nat)
    ensures Bits(bytes, p, 0) == 0 && ShiftLeft(w, 0) == w && ShiftRight(w, 0) == w
  {
  }

  /** Dropping the low bits of the buffered word moves the cursor over them. */
  lemma DropSound(bytes: seq<byte>, c: Cursor, n: nat)
    requires Sound(bytes, c) && n <= c.bitsInCurWord
    ensures Sound(bytes, Drop(c, n)) && Position(Drop(c, n)) == Position(c) + n
    ensures c.bitsInCurWord > 0 ==> Low(c.curWord, n) == Bits(bytes, Position(c), n)
  {
    hide Bits, ShiftRight, Low;
    if c.bitsInCurWord > 0 {
      BitsMask(bytes, Position(c), c.bitsInCurWord, n);
    }
  }

  /** Reading keeps the buffer in step with the stream.  With `n` bits left it returns exactly the next
      `n` bits, wherever the words begin, and moves over them; the cursor moves by `n` exactly then,
      never moves back, and where it stays the value is 0. */
  lemma ReadIsBits(bytes: seq<byte>, c: Cursor, n: Width)
    requires Sound(bytes, c)
    ensures var r := Read(bytes, c, n);
            && Sound(bytes, r.next)
            && (Remaining(bytes, c) >= n ==> r.value == Bits(bytes, Position(c), n))
            && (Position(r.next) == Position(c) + n <==> Remaining(bytes, c) >= n)
            && (Position(r.next) > Position(c) || (Position(r.next) == Position(c) && r.value == 0))
  {
    hide Bits, Bit, BytesNumber, ShiftRight, ShiftLeft, Low;
    if c.bitsInCurWord >= n {
      DropSound(bytes, c, n);
    } else {
      var left := n - c.bitsInCurWord;
      var f := FillCurWord(bytes, c);
      FillSound(bytes, c);
      if left <= f.bitsInCurWord {
        DropSound(bytes, f, left);
        BitsSplit(bytes, Position(c), c.bitsInCurWord, left);
        NoBits(bytes, Position(c), Low(f.curWord, left));
      }
    }
  }

  /** With fewer bits left, a read that can still fetch a word drops the bits before it and gives 0; one
      that cannot repeats the buffered bits if they are enough for what is missing, and else gives 0. */
  lemma ReadPastEnd(bytes: seq<byte>, c: Cursor, n: Width)
    requires Sound(bytes, c) && Remaining(bytes, c) < n
    ensures var r, left := Read(bytes, c, n), n - c.bitsInCurWord;
            if c.nextChar < |bytes| then r.value == 0 && Position(r.next) == 8 * c.nextChar
            else if left > c.bitsInCurWord then r == Reading(c, 0)
            else && r.value == Bits(bytes, Position(c), c.bitsInCurWord) + ShiftLeft(Bits(bytes, Position(c), left), c.bitsInCurWord)
                 && Position(r.next) == Position(c) + left
  {
    hide Bits, Bit, BytesNumber, ShiftRight, ShiftLeft, Low;
    if c.nextChar == |bytes| && n - c.bitsInCurWord <= c.bitsInCurWord {
      DropSound(bytes, c, n - c.bitsInCurWord);
    }
  }

  // --- Value ranges ---

  lemma {:induction false} LowBits(bytes: seq<byte>, p: nat, n: nat)
    ensures Low(Bits(bytes, p, n), n) == Bits(bytes, p, n)
    decreases n
  {
    hide Bit;
    if n > 0 { LowBits(bytes, p + 1, n - 1); }
  }

  /** A field of `n` bits gives a value of `n` bits, past the end of the stream too. */
  lemma ReadFits(bytes: seq<byte>, c: Cursor, n: Width)
    requires Sound(bytes, c)
    ensures Low(Read(bytes, c, n).value, n) == Read(bytes, c, n).value
  {
    hide Bits, Bit, BytesNumber, ShiftRight, ShiftLeft, Low;
    LowZero(n);
    LowZero(0);
    if c.bitsInCurWord >= n {
      BitsMask(bytes, Position(c), c.bitsInCurWord, n);
      LowBits(bytes, Position(c), n);
    } else {
      var left := n - c.bitsInCurWord;
      var f := FillCurWord(bytes, c);
      FillSound(bytes, c);
      if left <= f.bitsInCurWord {
        BitsMask(bytes, Position(f), f.bitsInCurWord, left);
        LowBits(bytes, Position(f), left);
        if c.bitsInCurWord > 0 { LowBits(bytes, Position(c), c.bitsInCurWord); }
        LowJoin(if c.bitsInCurWord > 0 then c.curWord else 0, c.bitsInCurWord, Low(f.curWord, left), left);
      }
    }
  }

}
