/** Machine words as numbers, shifted and masked a bit at a time. */
module Words {
  const WORD_BITS := 64
  const WORD_LIMIT := 0x1_0000_0000_0000_0000

  type Word = w: nat | w < WORD_LIMIT

  function ShiftRight(w: nat, n: nat): nat {
    if n == 0 then w else ShiftRight(w, n - 1) / 2
  }

  function ShiftLeft(w: nat, n: nat): nat {
    if n == 0 then w else 2 * ShiftLeft(w, n - 1)
  }

  /** The low `n` bits of a word: the word under a mask of `n` ones. */
  function Low(w: nat, n: nat): nat {
    if n == 0 then 0 else w % 2 + 2 * Low(w / 2, n - 1)
  }

  lemma {:induction false} ShiftFirst(w: nat, n: nat)
    ensures ShiftRight(w, n + 1) == ShiftRight(w / 2, n)
  {
    if n > 0 { ShiftFirst(w, n - 1); }
  }

  lemma {:induction false} ShiftZero(n: nat)
    ensures ShiftRight(0, n) == 0
  {
    if n > 0 { ShiftZero(n - 1); }
  }

  lemma {:induction false} ShiftShrinks(v: nat, n: nat)
    ensures ShiftRight(v, n) <= v && (n > 0 && v > 0 ==> ShiftRight(v, n) < v)
  {
    if n > 0 { ShiftShrinks(v, n - 1); }
  }

  lemma {:induction false} ShiftMonotone(a: nat, b: nat, n: nat)
    requires a <= b
    ensures ShiftRight(a, n) <= ShiftRight(b, n)
  {
    if n > 0 { ShiftMonotone(a, b, n - 1); }
  }

  lemma {:induction false} ShiftFurther(v: nat, a: nat, b: nat)
    requires a <= b && ShiftRight(v, a) == 0
    ensures ShiftRight(v, b) == 0
    decreases b
  {
    if a < b { ShiftFurther(v, a, b - 1); }
  }

  lemma {:induction false} NoneLeft(n: nat)
    ensures ShiftLeft(0, n) == 0
  {
    if n > 0 { NoneLeft(n - 1); }
  }

  lemma {:induction false} LeftNonzero(w: nat, n: nat)
    ensures ShiftLeft(w, n) == 0 <==> w == 0
  {
    if n > 0 { LeftNonzero(w, n - 1); }
  }

  lemma {:induction false} ShiftSum(a: nat, b: nat, k: nat, j: nat)
    ensures ShiftLeft(a + ShiftLeft(b, k), j) == ShiftLeft(a, j) + ShiftLeft(b, j + k)
    decreases j
  {
    if j > 0 { ShiftSum(a, b, k, j - 1); }
  }

  lemma FourShifts(w: nat, n: nat)
    ensures ShiftLeft(w, 0) == w == ShiftRight(w, 0)
    ensures ShiftLeft(w, n + 4) == 16 * ShiftLeft(w, n) && ShiftRight(w, n + 4) == ShiftRight(w, n) / 16
  {
    assert ShiftLeft(w, n + 1) == 2 * ShiftLeft(w, n) && ShiftRight(w, n + 1) == ShiftRight(w, n) / 2;
    assert ShiftLeft(w, n + 2) == 4 * ShiftLeft(w, n) && ShiftRight(w, n + 2) == ShiftRight(w, n) / 4;
    assert ShiftLeft(w, n + 3) == 8 * ShiftLeft(w, n) && ShiftRight(w, n + 3) == ShiftRight(w, n) / 8;
  }

  lemma SixBits(v: nat)
    requires v < 64
    ensures ShiftRight(v, 6) == 0
  {
    FourShifts(v, 0);
    assert ShiftRight(v, 6) == ShiftRight(v, 4) / 2 / 2;
  }

  lemma {:induction false} LowZero(n: nat)
    ensures Low(0, n) == 0
  {
    if n > 0 { LowZero(n - 1); }
  }

  lemma {:induction false} LowTwice(w: nat, k: nat, m: nat)
    requires k <= m
    ensures Low(Low(w, k), m) == Low(w, k)
    decreases k
  {
    if k == 0 {
      LowZero(m);
    } else {
      assert Low(w, k) / 2 == Low(w / 2, k - 1);
      LowTwice(w / 2, k - 1, m - 1);
    }
  }

  lemma {:induction false} LowAdd(a: nat, b: nat, m: nat)
    ensures Low(Low(a, m) + b, m) == Low(a + b, m)
    decreases m
  {
    if m > 0 {
      var carry := (a % 2 + b) / 2;
      assert (Low(a, m) + b) / 2 == Low(a / 2, m - 1) + carry;
      assert (a + b) / 2 == a / 2 + carry;
      LowAdd(a / 2, carry, m - 1);
    }
  }

  /** Any value below two to the `n`, added below the bit `k`. */
  lemma {:induction false} LowJoin(a: nat, k: nat, b: nat, n: nat)
    requires Low(a, k) == a && Low(b, n) == b
    ensures Low(a + ShiftLeft(b, k), k + n) == a + ShiftLeft(b, k)
    decreases k
  {
    if k > 0 {
      assert (a + ShiftLeft(b, k)) / 2 == a / 2 + ShiftLeft(b, k - 1);
      LowJoin(a / 2, k - 1, b, n);
    }
  }

  lemma {:induction false} TopBit(w: nat, n: nat)
    ensures Low(w, n + 1) == Low(w, n) + ShiftLeft(ShiftRight(w, n) % 2, n)
  {
    if n > 0 {
      TopBit(w / 2, n - 1);
      ShiftFirst(w, n - 1);
    }
  }

  lemma {:induction false} Recompose(v: nat, n: nat)
    ensures v == Low(v, n) + ShiftLeft(ShiftRight(v, n), n)
  {
    if n > 0 {
      Recompose(v / 2, n - 1);
      ShiftFirst(v, n - 1);
    }
  }

  // --- Bits of words ---

  predicate HasBit(w: nat, i: nat) { ShiftRight(w, i) % 2 == 1 }

  lemma HasBitNext(w: nat, i: nat)
    requires i > 0
    ensures HasBit(w, i) <==> HasBit(w / 2, i - 1)
  {
    ShiftFirst(w, i - 1);
  }

  lemma {:induction false} SameBits(a: nat, b: nat, n: nat)
    requires Low(a, n) == a && Low(b, n) == b
    requires forall i :: 0 <= i < n ==> (HasBit(a, i) <==> HasBit(b, i))
    ensures a == b
  {
    hide HasBit;
    if n > 0 {
      LowerHalf(a, n);
      LowerHalf(b, n);
      forall i | 0 <= i < n - 1 ensures HasBit(a / 2, i) <==> HasBit(b / 2, i) {
        HasBitNext(a, i + 1);
        HasBitNext(b, i + 1);
        assert HasBit(a, i + 1) <==> HasBit(b, i + 1);
      }
      SameBits(a / 2, b / 2, n - 1);
      assert HasBit(a, 0) <==> HasBit(b, 0);
    }
  }

  lemma LowerHalf(a: nat, n: nat)
    requires n > 0 && Low(a, n) == a
    ensures Low(a / 2, n - 1) == a / 2 && (HasBit(a, 0) <==> a % 2 == 1)
  {
  }

  lemma {:induction false} LowBit(w: nat, n: nat, i: nat)
    ensures HasBit(Low(w, n), i) <==> i < n && HasBit(w, i)
    decreases n
  {
    if n == 0 {
      ShiftZero(i);
    } else if i > 0 {
      HasBitNext(w, i);
      HasBitNext(Low(w, n), i);
      assert Low(w, n) / 2 == Low(w / 2, n - 1);
      LowBit(w / 2, n - 1, i - 1);
    }
  }

  lemma {:induction false} LeftBit(w: nat, k: nat, i: nat)
    ensures HasBit(ShiftLeft(w, k), i) <==> i >= k && HasBit(w, i - k)
    decreases k
  {
    if k > 0 && i > 0 {
      HasBitNext(ShiftLeft(w, k), i);
      LeftBit(w, k - 1, i - 1);
    }
  }

  lemma SixteenShifts(w: nat, n: nat)
    ensures ShiftLeft(w, n + 16) == 0x1_0000 * ShiftLeft(w, n)
  {
    FourShifts(w, n);
    FourShifts(w, n + 4);
    FourShifts(w, n + 8);
    FourShifts(w, n + 12);
  }

  /** A number fits a machine word exactly when masking it to 64 bits keeps it. */
  lemma WordFits(w: nat)
    ensures w < WORD_LIMIT <==> Low(w, WORD_BITS) == w
  {
    hide Low, ShiftLeft, ShiftRight;
    var high := ShiftRight(w, WORD_BITS);
    Recompose(w, WORD_BITS);
    SixteenShifts(high, 0);
    SixteenShifts(high, 16);
    SixteenShifts(high, 32);
    SixteenShifts(high, 48);
    FourShifts(high, 0);
    LowBelow(w);
  }

  lemma LowBelow(w: nat)
    ensures Low(w, WORD_BITS) < WORD_LIMIT
  {
    hide Low, ShiftLeft;
    SixteenShifts(1, 0);
    SixteenShifts(1, 16);
    SixteenShifts(1, 32);
    SixteenShifts(1, 48);
    FourShifts(1, 0);
    LowPower(w, WORD_BITS);
  }

  lemma {:induction false} LowPower(w: nat, n: nat)
    ensures Low(w, n) < ShiftLeft(1, n)
  {
    if n > 0 { LowPower(w / 2, n - 1); }
  }

  // --- Bitwise operations ---

  datatype BitOp = Or | And | AndNot | Xor | Not

  predicate Applied(op: BitOp, a: bool, b: bool) {
    match op
    case Or => a || b
    case And => a && b
    case AndNot => a && !b
    case Xor => a != b
    case Not => !a
  }

  /** The `n`-bit word whose every bit is the operation on the bits of the operands. */
  function CombineLow(op: BitOp, a: nat, b: nat, n: nat): nat {
    if n == 0 then 0
    else (if Applied(op, a % 2 == 1, b % 2 == 1) then 1 else 0) + 2 * CombineLow(op, a / 2, b / 2, n - 1)
  }

  lemma {:induction false} CombineLowBit(op: BitOp, a: nat, b: nat, n: nat, i: nat)
    ensures HasBit(CombineLow(op, a, b, n), i) <==> i < n && Applied(op, HasBit(a, i), HasBit(b, i))
    ensures Low(CombineLow(op, a, b, n), n) == CombineLow(op, a, b, n)
    decreases n
  {
    hide Applied;
    if n == 0 {
      ShiftZero(i);
    } else {
      var c := CombineLow(op, a, b, n);
      assert c / 2 == CombineLow(op, a / 2, b / 2, n - 1);
      CombineLowBit(op, a / 2, b / 2, n - 1, if i > 0 then i - 1 else 0);
      if i > 0 {
        HasBitNext(c, i);
        HasBitNext(a, i);
        HasBitNext(b, i);
      }
    }
  }

  function Combine(op: BitOp, a: Word, b: Word): Word {
    CombineLowBit(op, a, b, WORD_BITS, 0);
    WordFits(CombineLow(op, a, b, WORD_BITS));
    CombineLow(op, a, b, WORD_BITS)
  }

  lemma CombineBit(op: BitOp, a: Word, b: Word, i: nat)
    requires i < WORD_BITS
    ensures HasBit(Combine(op, a, b), i) <==> Applied(op, HasBit(a, i), HasBit(b, i))
  {
    CombineLowBit(op, a, b, WORD_BITS, i);
  }

  /** Words are equal when their bits are; a word is zero when it has none. */
  lemma WordsEqual(a: Word, b: Word)
    requires forall i :: 0 <= i < WORD_BITS ==> (HasBit(a, i) <==> HasBit(b, i))
    ensures a == b
  {
    hide Low, HasBit;
    WordFits(a);
    WordFits(b);
    SameBits(a, b, WORD_BITS);
  }

  lemma ZeroWord(a: Word)
    ensures a == 0 <==> forall i :: 0 <= i < WORD_BITS ==> !HasBit(a, i)
  {
    forall i ensures i >= 0 ==> !HasBit(0, i) { if i >= 0 { ShiftZero(i); } }
    if forall i :: 0 <= i < WORD_BITS ==> !HasBit(a, i) { WordsEqual(a, 0); }
  }

  // --- Masks ---

  function Ones(n: nat): nat {
    LeftNonzero(1, n);
    ShiftLeft(1, n) - 1
  }

  lemma {:induction false} OnesBit(n: nat, i: nat)
    ensures HasBit(Ones(n), i) <==> i < n
    decreases n
  {
    if n == 0 {
      ShiftZero(i);
    } else {
      assert Ones(n) == 1 + 2 * Ones(n - 1);
      if i > 0 {
        HasBitNext(Ones(n), i);
        OnesBit(n - 1, i - 1);
      }
    }
  }

  lemma {:induction false} OnesLow(n: nat, m: nat)
    requires n <= m
    ensures Low(Ones(n), m) == Ones(n)
    decreases n
  {
    if n == 0 { LowZero(m); } else {
      assert Ones(n) == 1 + 2 * Ones(n - 1);
      OnesLow(n - 1, m - 1);
    }
  }

  const ALL_ONES: Word := WORD_LIMIT - 1

  lemma AllOnes()
    ensures Ones(WORD_BITS) == ALL_ONES
  {
    hide ShiftLeft;
    SixteenShifts(1, 0);
    SixteenShifts(1, 16);
    SixteenShifts(1, 32);
    SixteenShifts(1, 48);
    FourShifts(1, 0);
  }

  /** All ones, shifted left within the word. */
  function HighMask(k: nat): Word {
    LowBelow(ShiftLeft(ALL_ONES, k));
    Low(ShiftLeft(ALL_ONES, k), WORD_BITS)
  }

  /** One shifted left, less one. */
  function LowMask(k: nat): Word
    requires k <= WORD_BITS
  {
    OnesLow(k, WORD_BITS);
    LowBelow(Ones(k));
    Ones(k)
  }

  /** One bit shifted left, less another. */
  function RangeMask(i: nat, e: nat): Word
    requires i <= e <= WORD_BITS
  {
    RangeIsShifted(i, e);
    OnesLow(e, WORD_BITS);
    LowBelow(Ones(e));
    LeftNonzero(1, i);
    ShiftLeft(1, e) - ShiftLeft(1, i)
  }

  lemma {:induction false} RangeIsShifted(i: nat, e: nat)
    requires i <= e
    ensures ShiftLeft(1, e) - ShiftLeft(1, i) == ShiftLeft(Ones(e - i), i)
    decreases i
  {
    if i > 0 { RangeIsShifted(i - 1, e - 1); }
  }

  lemma HighMaskBit(k: nat, i: nat)
    requires i < WORD_BITS
    ensures HasBit(HighMask(k), i) <==> i >= k
  {
    hide HasBit, Low, ShiftLeft, Ones;
    LowBit(ShiftLeft(ALL_ONES, k), WORD_BITS, i);
    LeftBit(ALL_ONES, k, i);
    AllOnes();
    if i >= k { OnesBit(WORD_BITS, i - k); }
  }

  lemma LowMaskBit(k: nat, i: nat)
    requires k <= WORD_BITS
    ensures HasBit(LowMask(k), i) <==> i < k
  {
    OnesBit(k, i);
  }

  lemma RangeMaskBit(lo: nat, hi: nat, i: nat)
    requires lo <= hi <= WORD_BITS
    ensures HasBit(RangeMask(lo, hi), i) <==> lo <= i < hi
  {
    hide HasBit, ShiftLeft, Ones;
    RangeIsShifted(lo, hi);
    LeftBit(Ones(hi - lo), lo, i);
    if i >= lo { OnesBit(hi - lo, i - lo); }
  }

  lemma AllOnesBit(i: nat)
    ensures HasBit(ALL_ONES, i) <==> i < WORD_BITS
  {
    AllOnes();
    OnesBit(WORD_BITS, i);
  }
}
