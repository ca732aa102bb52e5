/** The bit vector: 64-bit words changed in place, and the set of indices it stands for. */
module BitVectors {
  import opened Words

  function NumBitWords(s: nat): nat { (s + WORD_BITS - 1) / WORD_BITS }

  predicate BitOf(words: seq<Word>, i: nat) {
    i / WORD_BITS < |words| && HasBit(words[i / WORD_BITS], i % WORD_BITS)
  }

  /** The bits from `size` up to the end of the last used word are zero. */
  predicate Clean(words: seq<Word>, size: nat) {
    && NumBitWords(size) <= |words|
    && forall i :: size <= i < WORD_BITS * NumBitWords(size) ==> !BitOf(words, i)
  }

  // --- Ranges ---

  /** The bits in [lo, hi) have one value and the others are as before. */
  ghost predicate RangeSet(before: seq<Word>, after: seq<Word>, lo: nat, hi: nat, value: bool) {
    && |after| == |before|
    && forall i: nat :: BitOf(after, i) <==> if lo <= i < hi then value else BitOf(before, i)
  }

  lemma RangesJoin(a: seq<Word>, b: seq<Word>, c: seq<Word>, lo: nat, mid: nat, hi: nat, value: bool)
    requires lo <= mid <= hi && RangeSet(a, b, lo, mid, value) && RangeSet(b, c, mid, hi, value)
    ensures RangeSet(a, c, lo, hi, value)
  {
    hide BitOf;
  }

  lemma RangesMeet(a: seq<Word>, b: seq<Word>, c: seq<Word>, lo: nat, mid: nat, hi: nat, value: bool)
    requires lo <= mid <= hi && RangeSet(a, b, mid, hi, value) && RangeSet(b, c, lo, mid, value)
    ensures RangeSet(a, c, lo, hi, value)
  {
    hide BitOf;
  }

  lemma RangesOverlap(a: seq<Word>, b: seq<Word>, c: seq<Word>, lo: nat, from: nat, mid: nat, hi: nat, value: bool)
    requires lo <= from <= mid <= hi && RangeSet(a, b, lo, mid, value) && RangeSet(b, c, from, hi, value)
    ensures RangeSet(a, c, lo, hi, value)
  {
    hide BitOf;
  }

  lemma RangeEmpty(a: seq<Word>, lo: nat, value: bool)
    ensures RangeSet(a, a, lo, lo, value)
  {
    hide BitOf;
  }

  lemma StaysClean(a: seq<Word>, b: seq<Word>, size: nat, lo: nat, hi: nat, value: bool)
    requires Clean(a, size) && RangeSet(a, b, lo, hi, value) && hi <= size
    ensures Clean(b, size)
  {
    hide BitOf;
  }

  /** The mask has exactly the bits of [lo, hi) that are in word `k`. */
  predicate MaskOf(mask: Word, k: nat, lo: nat, hi: nat) {
    forall j :: 0 <= j < WORD_BITS ==> (HasBit(mask, j) <==> lo <= WORD_BITS * k + j < hi)
  }

  /** Where the whole words of a range over several words begin. */
  lemma FirstWords(from: nat, to: nat, size: nat)
    requires from / WORD_BITS < to / WORD_BITS && to <= size
    ensures var k := from / WORD_BITS;
            && WORD_BITS * k <= from < WORD_BITS * (k + 1) <= to
            && WORD_BITS * NumBitWords(from) == (if from == WORD_BITS * k then from else WORD_BITS * (k + 1))
  {
  }

  lemma PrefixMask(lo: nat)
    ensures MaskOf(HighMask(lo % WORD_BITS), lo / WORD_BITS, lo, WORD_BITS * (lo / WORD_BITS + 1))
  {
    hide HasBit, HighMask;
    forall j | 0 <= j < WORD_BITS ensures HasBit(HighMask(lo % WORD_BITS), j) <==> j >= lo % WORD_BITS {
      HighMaskBit(lo % WORD_BITS, j);
    }
  }

  lemma PostfixMask(lo: nat, hi: nat)
    requires lo % WORD_BITS == 0 && lo < hi < lo + WORD_BITS
    ensures MaskOf(LowMask(hi % WORD_BITS), lo / WORD_BITS, lo, hi)
  {
    hide HasBit, LowMask;
    forall j | 0 <= j < WORD_BITS ensures HasBit(LowMask(hi % WORD_BITS), j) <==> j < hi % WORD_BITS {
      LowMaskBit(hi % WORD_BITS, j);
    }
  }

  lemma MiddleMask(lo: nat, hi: nat)
    requires lo <= hi && lo / WORD_BITS == hi / WORD_BITS
    ensures lo % WORD_BITS <= hi % WORD_BITS
    ensures MaskOf(RangeMask(lo % WORD_BITS, hi % WORD_BITS), lo / WORD_BITS, lo, hi)
  {
    hide HasBit, RangeMask;
    forall j | 0 <= j < WORD_BITS
      ensures HasBit(RangeMask(lo % WORD_BITS, hi % WORD_BITS), j) <==> lo % WORD_BITS <= j < hi % WORD_BITS
    {
      RangeMaskBit(lo % WORD_BITS, hi % WORD_BITS, j);
    }
  }

  /** A mask of the bits [lo, hi) of word `k`, or-ed in or masked out. */
  lemma MaskedRange(words: seq<Word>, k: nat, value: bool, mask: Word, lo: nat, hi: nat)
    requires k < |words| && WORD_BITS * k <= lo <= hi <= WORD_BITS * (k + 1)
    requires MaskOf(mask, k, lo, hi)
    ensures RangeSet(words, words[k := Combine(if value then Or else AndNot, words[k], mask)], lo, hi, value)
  {
    hide HasBit, Combine;
    var op := if value then Or else AndNot;
    var after := words[k := Combine(op, words[k], mask)];
    forall i: nat ensures BitOf(after, i) <==> if lo <= i < hi then value else BitOf(words, i) {
      if i / WORD_BITS == k {
        CombineBit(op, words[k], mask, i % WORD_BITS);
        assert HasBit(mask, i % WORD_BITS) <==> lo <= WORD_BITS * k + i % WORD_BITS < hi;
      }
    }
  }

  lemma WholeWord(words: seq<Word>, k: nat, value: bool)
    requires k < |words|
    ensures RangeSet(words, words[k := if value then ALL_ONES else 0], WORD_BITS * k, WORD_BITS * (k + 1), value)
  {
    hide HasBit;
    var after := words[k := if value then ALL_ONES else 0];
    forall i: nat
      ensures BitOf(after, i) <==> if WORD_BITS * k <= i < WORD_BITS * (k + 1) then value else BitOf(words, i)
    {
      if i / WORD_BITS == k {
        AllOnesBit(i % WORD_BITS);
        ZeroWord(0);
      }
    }
  }

  // --- Word by word operations ---

  /** The first `n` words combined, the others as before. */
  predicate Merged(op: BitOp, before: seq<Word>, other: seq<Word>, after: seq<Word>, n: nat) {
    && n <= |before| && n <= |other| && |after| == |before|
    && (forall j :: 0 <= j < n ==> after[j] == Combine(op, before[j], other[j]))
    && (forall j :: n <= j < |before| ==> after[j] == before[j])
  }

  lemma MergedBit(op: BitOp, before: seq<Word>, other: seq<Word>, after: seq<Word>, n: nat, i: nat)
    requires Merged(op, before, other, after, n)
    ensures BitOf(after, i) <==>
            if i < WORD_BITS * n then Applied(op, BitOf(before, i), BitOf(other, i)) else BitOf(before, i)
  {
    hide HasBit, Combine, Applied;
    if i / WORD_BITS < n {
      CombineBit(op, before[i / WORD_BITS], other[i / WORD_BITS], i % WORD_BITS);
    }
  }

  // --- Members in order ---

  /** The members from `lo` up to `hi`, ascending. */
  function Listed(words: seq<Word>, lo: nat, hi: nat): seq<nat>
    decreases hi - lo
  {
    if lo >= hi then [] else (if BitOf(words, lo) then [lo] else []) + Listed(words, lo + 1, hi)
  }

  lemma {:induction false} ListedExactly(words: seq<Word>, lo: nat, hi: nat)
    ensures forall x :: x in Listed(words, lo, hi) <==> lo <= x < hi && BitOf(words, x)
    decreases hi - lo
  {
    hide BitOf;
    if lo < hi { ListedExactly(words, lo + 1, hi); }
  }

  lemma {:induction false} ListedAscends(words: seq<Word>, lo: nat, hi: nat, a: nat, b: nat)
    requires a < b < |Listed(words, lo, hi)|
    ensures Listed(words, lo, hi)[a] < Listed(words, lo, hi)[b]
    decreases hi - lo
  {
    hide BitOf;
    var rest := Listed(words, lo + 1, hi);
    if BitOf(words, lo) {
      ListedExactly(words, lo + 1, hi);
      assert rest[b - 1] in rest;
      if a > 0 { ListedAscends(words, lo + 1, hi, a - 1, b - 1); }
    } else {
      ListedAscends(words, lo + 1, hi, a, b);
    }
  }

  lemma {:induction false} ListedSplits(words: seq<Word>, lo: nat, mid: nat, hi: nat)
    requires lo <= mid <= hi
    ensures Listed(words, lo, hi) == Listed(words, lo, mid) + Listed(words, mid, hi)
    decreases mid - lo
  {
    hide BitOf;
    if lo < mid { ListedSplits(words, lo + 1, mid, hi); }
  }

  /** The smallest member from `lo` up to `hi`, or -1. */
  predicate IsNext(words: seq<Word>, lo: nat, hi: nat, r: int) {
    if r == -1 then forall i :: lo <= i < hi ==> !BitOf(words, i)
    else lo <= r < hi && BitOf(words, r) && forall i :: lo <= i < r ==> !BitOf(words, i)
  }

  /** Asking for the next member from each one found lists them all: the next is the head of the list
      and the rest is the list from behind it. */
  lemma {:induction false} NextListed(words: seq<Word>, lo: nat, hi: nat, r: int)
    requires IsNext(words, lo, hi, r)
    ensures Listed(words, lo, hi) == if r == -1 then [] else [r] + Listed(words, r + 1, hi)
    decreases hi - lo
  {
    hide BitOf;
    if lo < hi && r != lo { NextListed(words, lo + 1, hi, r); }
  }

  function Population(w: nat, n: nat): nat {
    if n == 0 then 0 else w % 2 + Population(w / 2, n - 1)
  }

  lemma {:induction false} WordListed(words: seq<Word>, k: nat, a: nat)
    requires k < |words| && a <= WORD_BITS
    ensures |Listed(words, WORD_BITS * k + a, WORD_BITS * (k + 1))| == Population(ShiftRight(words[k], a), WORD_BITS - a)
    decreases WORD_BITS - a
  {
    if a < WORD_BITS {
      WordListed(words, k, a + 1);
      assert (WORD_BITS * k + a) / WORD_BITS == k && (WORD_BITS * k + a) % WORD_BITS == a;
      assert WORD_BITS * k + a + 1 == WORD_BITS * k + (a + 1);
    }
  }

  function Counted(words: seq<Word>, k: nat): nat
    requires k <= |words|
  {
    if k == 0 then 0 else Counted(words, k - 1) + Population(words[k - 1], WORD_BITS)
  }

  /** Adding up the set bits of the used words counts the members. */
  lemma {:induction false} CountedListed(words: seq<Word>, k: nat)
    requires k <= |words|
    ensures Counted(words, k) == |Listed(words, 0, WORD_BITS * k)|
  {
    hide BitOf, Population, Listed;
    if k == 0 {
      NothingListed(words, 0, 0);
    } else {
      CountedListed(words, k - 1);
      assert ShiftRight(words[k - 1], 0) == words[k - 1];
      WordListed(words, k - 1, 0);
      ListedSplits(words, 0, WORD_BITS * (k - 1), WORD_BITS * k);
    }
  }

  lemma {:induction false} NothingListed(words: seq<Word>, lo: nat, hi: nat)
    requires forall i :: lo <= i < hi ==> !BitOf(words, i)
    ensures Listed(words, lo, hi) == []
    decreases hi - lo
  {
    hide BitOf;
    if lo < hi { NothingListed(words, lo + 1, hi); }
  }

  lemma CountedMembers(words: seq<Word>, size: nat)
    requires Clean(words, size)
    ensures Counted(words, NumBitWords(size)) == |Listed(words, 0, size)|
  {
    hide BitOf;
    var end := WORD_BITS * NumBitWords(size);
    CountedListed(words, NumBitWords(size));
    ListedSplits(words, 0, size, end);
    NothingListed(words, size, end);
  }

  function TrailingZeros(w: nat): nat
    requires w > 0
  {
    if w % 2 == 1 then 0 else 1 + TrailingZeros(w / 2)
  }

  lemma {:induction false} LowestBit(w: nat)
    requires w > 0
    ensures HasBit(w, TrailingZeros(w)) && forall j :: 0 <= j < TrailingZeros(w) ==> !HasBit(w, j)
    decreases w
  {
    hide HasBit;
    assert HasBit(w, 0) <==> w % 2 == 1 by { BitZero(w); }
    if w % 2 == 0 {
      LowestBit(w / 2);
      HasBitNext(w, TrailingZeros(w));
      forall j | 0 <= j < TrailingZeros(w) ensures !HasBit(w, j) {
        if j > 0 { HasBitNext(w, j); }
      }
    }
  }

  lemma BitZero(w: nat)
    ensures HasBit(w, 0) <==> w % 2 == 1
  {
  }

  /** The lowest bit of a nonzero word `k` is the next member, when the bits before the word and those
      masked off do not count. */
  lemma NextInWord(words: seq<Word>, k: nat, w: Word, lo: nat, hi: nat)
    requires k < |words| && w > 0 && hi <= WORD_BITS * |words|
    requires forall j :: 0 <= j < WORD_BITS ==>
               (HasBit(w, j) <==> HasBit(words[k], j) && lo <= WORD_BITS * k + j)
    requires forall i :: lo <= i < WORD_BITS * k ==> !BitOf(words, i)
    requires forall i :: hi <= i < WORD_BITS * (k + 1) ==> !BitOf(words, i)
    ensures IsNext(words, lo, hi, WORD_BITS * k + TrailingZeros(w))
  {
    hide HasBit, TrailingZeros;
    LowestBit(w);
    var t := TrailingZeros(w);
    HighBitsClear(w, t);
    var r := WORD_BITS * k + t;
    assert r / WORD_BITS == k && r % WORD_BITS == t;
    assert HasBit(words[k], t) && lo <= r;
    assert BitOf(words, r);
    forall i | lo <= i < r ensures !BitOf(words, i) {
      if i >= WORD_BITS * k {
        assert i / WORD_BITS == k && i % WORD_BITS == i - WORD_BITS * k;
        assert !HasBit(w, i - WORD_BITS * k);
      }
    }
  }

  lemma HighBitsClear(w: Word, t: nat)
    requires HasBit(w, t)
    ensures t < WORD_BITS
  {
    WordFits(w);
    LowBit(w, WORD_BITS, t);
  }

  // --- Words and the bits they hold ---

  lemma WordClear(op: BitOp, x: seq<Word>, y: seq<Word>, k: nat)
    requires k < |x| && k < |y|
    ensures Combine(op, x[k], y[k]) == 0
       <==> forall i: nat :: WORD_BITS * k <= i < WORD_BITS * (k + 1) ==> !Applied(op, BitOf(x, i), BitOf(y, i))
  {
    hide HasBit, Combine, Applied;
    var c := Combine(op, x[k], y[k]);
    ZeroWord(c);
    forall i: nat | WORD_BITS * k <= i < WORD_BITS * (k + 1)
      ensures Applied(op, BitOf(x, i), BitOf(y, i)) <==> HasBit(c, i - WORD_BITS * k)
    {
      assert i / WORD_BITS == k && i % WORD_BITS == i - WORD_BITS * k;
      CombineBit(op, x[k], y[k], i - WORD_BITS * k);
    }
    if c != 0 {
      var j :| 0 <= j < WORD_BITS && HasBit(c, j);
      assert Applied(op, BitOf(x, WORD_BITS * k + j), BitOf(y, WORD_BITS * k + j));
    }
  }

  lemma WordEmpty(x: seq<Word>, k: nat)
    requires k < |x|
    ensures x[k] == 0 <==> forall i: nat :: WORD_BITS * k <= i < WORD_BITS * (k + 1) ==> !BitOf(x, i)
  {
    hide HasBit;
    ZeroWord(x[k]);
    forall i: nat | WORD_BITS * k <= i < WORD_BITS * (k + 1)
      ensures BitOf(x, i) <==> HasBit(x[k], i - WORD_BITS * k)
    {
      assert i / WORD_BITS == k && i % WORD_BITS == i - WORD_BITS * k;
    }
    if x[k] != 0 {
      var j :| 0 <= j < WORD_BITS && HasBit(x[k], j);
      assert BitOf(x, WORD_BITS * k + j);
    }
  }

  lemma WordSame(x: seq<Word>, y: seq<Word>, k: nat)
    requires k < |x| && k < |y|
    ensures x[k] == y[k] <==>
            forall i: nat :: WORD_BITS * k <= i < WORD_BITS * (k + 1) ==> (BitOf(x, i) <==> BitOf(y, i))
  {
    hide HasBit;
    if forall i: nat :: WORD_BITS * k <= i < WORD_BITS * (k + 1) ==> (BitOf(x, i) <==> BitOf(y, i)) {
      forall j | 0 <= j < WORD_BITS ensures HasBit(x[k], j) <==> HasBit(y[k], j) {
        var i := WORD_BITS * k + j;
        assert i / WORD_BITS == k && i % WORD_BITS == j;
        assert BitOf(x, i) <==> BitOf(y, i);
      }
      WordsEqual(x[k], y[k]);
    }
  }

  /** The bits of word `k` below `hi` are all set exactly when the word is the mask of them. */
  lemma FullWord(x: seq<Word>, k: nat, hi: nat)
    requires k < |x| && WORD_BITS * k < hi <= WORD_BITS * (k + 1)
    requires forall i: nat :: hi <= i < WORD_BITS * (k + 1) ==> !BitOf(x, i)
    ensures x[k] == LowMask(hi - WORD_BITS * k) <==> forall i: nat :: WORD_BITS * k <= i < hi ==> BitOf(x, i)
    ensures hi == WORD_BITS * (k + 1) ==> LowMask(hi - WORD_BITS * k) == ALL_ONES
  {
    hide HasBit, LowMask;
    var mask := LowMask(hi - WORD_BITS * k);
    forall i: nat | WORD_BITS * k <= i < WORD_BITS * (k + 1)
      ensures BitOf(x, i) <==> HasBit(x[k], i - WORD_BITS * k)
      ensures HasBit(mask, i - WORD_BITS * k) <==> i < hi
    {
      assert i / WORD_BITS == k && i % WORD_BITS == i - WORD_BITS * k;
      LowMaskBit(hi - WORD_BITS * k, i - WORD_BITS * k);
    }
    if forall i: nat :: WORD_BITS * k <= i < hi ==> BitOf(x, i) {
      forall j | 0 <= j < WORD_BITS ensures HasBit(x[k], j) <==> HasBit(mask, j) {
        var i := WORD_BITS * k + j;
        assert i - WORD_BITS * k == j;
        assert BitOf(x, i) <==> HasBit(x[k], i - WORD_BITS * k);
        assert BitOf(x, i) <==> i < hi;
      }
      WordsEqual(x[k], mask);
    }
    FullMask();
  }

  lemma FullMask()
    ensures LowMask(WORD_BITS) == ALL_ONES
  {
    AllOnes();
  }

  lemma NoneMasked(x: seq<Word>, k: nat, w: Word, lo: nat)
    requires k < |x| && w == 0
    requires forall j :: 0 <= j < WORD_BITS ==> (HasBit(w, j) <==> HasBit(x[k], j) && lo <= WORD_BITS * k + j)
    ensures forall i: nat :: lo <= i && WORD_BITS * k <= i < WORD_BITS * (k + 1) ==> !BitOf(x, i)
  {
    hide HasBit;
    ZeroWord(w);
    forall i: nat | lo <= i && WORD_BITS * k <= i < WORD_BITS * (k + 1) ensures !BitOf(x, i) {
      assert i / WORD_BITS == k && i % WORD_BITS == i - WORD_BITS * k;
      assert !HasBit(w, i - WORD_BITS * k);
    }
  }

  lemma SamePrefix(x: seq<Word>, y: seq<Word>, n: nat)
    requires n <= |x| && n <= |y| && forall j :: 0 <= j < n ==> x[j] == y[j]
    ensures forall i: nat :: i < WORD_BITS * n ==> (BitOf(x, i) <==> BitOf(y, i))
  {
    hide HasBit;
  }

  function Max(a: nat, b: nat): nat { if a < b then b else a }

  function NewCapacity(capacity: nat, newSize: nat): nat { Max(NumBitWords(newSize), 2 * capacity) }

  /** Growing at least doubles the capacity and holds the new size, and takes no more than one of the two
      asks for. */
  lemma CapacityLeast(capacity: nat, newSize: nat, words: nat)
    requires words >= 2 * capacity && WORD_BITS * words >= newSize
    ensures var n := NewCapacity(capacity, newSize); n >= 2 * capacity && WORD_BITS * n >= newSize && n <= words
  {
  }

  lemma EnoughWords(capacity: nat, newSize: nat)
    ensures var c := NewCapacity(capacity, newSize); c >= capacity && c >= NumBitWords(newSize) && WORD_BITS * c >= newSize
  {
  }

  /** A bit after resizing, given what the allocated words held. */
  predicate Resized(words: seq<Word>, garbage: seq<Word>, size: nat, n: nat, t: bool, i: nat) {
    if i >= size then t else BitOf(if n > WORD_BITS * |words| then garbage else words, i)
  }

  /** Resizing keeps the bits that remain, whatever the allocator returns, exactly when it stays within
      the capacity or the vector was empty. */
  lemma ResizeKeeps(words: seq<Word>, size: nat, n: nat, t: bool)
    requires Clean(words, size)
    ensures n <= WORD_BITS * |words| || size == 0
       <==> forall garbage: seq<Word>, i: nat :: |garbage| == NewCapacity(|words|, n) && i < size && i < n ==>
              (Resized(words, garbage, size, n, t, i) <==> BitOf(words, i))
  {
    hide BitOf;
    if n > WORD_BITS * |words| && size > 0 {
      var w: Word := if BitOf(words, 0) then 0 else ALL_ONES;
      var garbage := seq(NewCapacity(|words|, n), _ => w);
      GarbageBit(garbage, w);
      assert Resized(words, garbage, size, n, t, 0) <==> !BitOf(words, 0);
    }
  }

  lemma GarbageBit(garbage: seq<Word>, w: Word)
    requires |garbage| > 0 && garbage[0] == w && (w == 0 || w == ALL_ONES)
    ensures BitOf(garbage, 0) <==> w == ALL_ONES
  {
    ZeroWord(0);
    AllOnesBit(0);
  }

  // --- Masks of 32-bit words ---

  type Half = w: nat | w < 0x1_0000_0000

  function MaskOp(addBits: bool): BitOp { if addBits then Or else AndNot }

  /** A mask word, inverted or not, moved to its place in a word. */
  function MaskTerm(m: Half, invert: bool, shift: nat): Word
    requires shift <= 32
  {
    var w := if invert then CombineLow(Not, m, m, 32) else m;
    LowBelow(ShiftLeft(w, shift));
    Low(ShiftLeft(w, shift), WORD_BITS)
  }

  lemma MaskTermBit(m: Half, invert: bool, shift: nat, j: nat)
    requires shift <= 32 && j < WORD_BITS
    ensures HasBit(MaskTerm(m, invert, shift), j) <==>
            shift <= j < shift + 32 && HasBit(m, j - shift) != invert
  {
    hide HasBit, Low, ShiftLeft, CombineLow;
    var w := if invert then CombineLow(Not, m, m, 32) else m;
    LowBit(ShiftLeft(w, shift), WORD_BITS, j);
    LeftBit(w, shift, j);
    if j >= shift {
      CombineLowBit(Not, m, m, 32, j - shift);
      HalfBits(m, j - shift);
    }
  }

  lemma HalfBits(m: Half, i: nat)
    ensures HasBit(m, i) ==> i < 32
  {
    hide Low, ShiftRight, ShiftLeft, HasBit;
    Recompose(m, 32);
    SixteenShifts(ShiftRight(m, 32), 0);
    SixteenShifts(ShiftRight(m, 32), 16);
    FourShifts(ShiftRight(m, 32), 0);
    NoneLeft(32);
    LowBit(m, 32, i);
  }

  /** A bit that the mask covers, after applying it. */
  predicate Masked(before: seq<Word>, mask: seq<Half>, addBits: bool, invert: bool, i: nat)
    requires i / 32 < |mask|
  {
    var chosen := HasBit(mask[i / 32], i % 32) != invert;
    if addBits then BitOf(before, i) || chosen else BitOf(before, i) && !chosen
  }

  /** The mask has been applied as far as its word `p`. */
  ghost predicate MaskedTo(start: seq<Word>, after: seq<Word>, mask: seq<Half>, addBits: bool, invert: bool, p: nat) {
    && |after| == |start| && p <= |mask|
    && forall i: nat :: BitOf(after, i) <==>
         if i / 32 < p then i / 64 < |start| && Masked(start, mask, addBits, invert, i) else BitOf(start, i)
  }

  lemma MaskedNone(start: seq<Word>, mask: seq<Half>, addBits: bool, invert: bool)
    ensures MaskedTo(start, start, mask, addBits, invert, 0)
  {
    hide BitOf, Masked;
  }

  lemma MaskedNext(start: seq<Word>, x: seq<Word>, mask: seq<Half>, addBits: bool, invert: bool, p: nat)
    requires MaskedTo(start, x, mask, addBits, invert, p) && p < |mask| && p / 2 < |x|
    ensures var term := MaskTerm(mask[p], invert, 32 * (p % 2));
            MaskedTo(start, x[p / 2 := Combine(MaskOp(addBits), x[p / 2], term)], mask, addBits, invert, p + 1)
  {
    hide HasBit, Combine, MaskTerm;
    var term := MaskTerm(mask[p], invert, 32 * (p % 2));
    var after := x[p / 2 := Combine(MaskOp(addBits), x[p / 2], term)];
    forall i: nat
      ensures BitOf(after, i) <==>
              if i / 32 < p + 1 then i / 64 < |start| && Masked(start, mask, addBits, invert, i) else BitOf(start, i)
    {
      assert BitOf(x, i) <==>
             if i / 32 < p then i / 64 < |start| && Masked(start, mask, addBits, invert, i) else BitOf(start, i);
      if i / WORD_BITS == p / 2 {
        CombineBit(MaskOp(addBits), x[p / 2], term, i % WORD_BITS);
        MaskTermBit(mask[p], invert, 32 * (p % 2), i % WORD_BITS);
        MaskPlace(p, i);
      }
    }
  }

  /** Mask word `p` covers the lower or the upper half of word `p / 2`. */
  lemma MaskPlace(p: nat, i: nat)
    requires i / WORD_BITS == p / 2
    ensures var shift := 32 * (p % 2);
            (i / 32 == p <==> shift <= i % WORD_BITS < shift + 32)
            && (i / 32 == p ==> i % 32 == i % WORD_BITS - shift)
  {
  }

  lemma MaskedAll(start: seq<Word>, after: seq<Word>, mask: seq<Half>, addBits: bool, invert: bool, p: nat, size: nat)
    requires MaskedTo(start, after, mask, addBits, invert, p) && p <= (size + 31) / 32 && Clean(start, size)
    ensures forall i: nat :: i < size ==>
              (BitOf(after, i) <==> if i < 32 * p then Masked(start, mask, addBits, invert, i) else BitOf(start, i))
    ensures !addBits ==> Clean(after, size)
  {
    hide BitOf, HasBit;
  }

  function Min(a: nat, b: nat): nat { if a < b then a else b }

  class BitVector {
    var bits: array<Word>
    var size: nat

    function View(): seq<Word>
      reads this, bits
    {
      bits[..]
    }

    /** The unused bits of the last used word are zero. */
    predicate Valid()
      reads this, bits
    {
      Clean(View(), size)
    }

    predicate Has(i: nat)
      reads this, bits
    {
      i < size && BitOf(View(), i)
    }

    constructor (s: nat, t: bool)
      ensures Valid() && fresh(bits) && size == s && bits.Length == NumBitWords(s)
      ensures forall i: nat :: Has(i) <==> i < s && t
    {
      bits, size := new Word[NumBitWords(s)], s;
      new;
      hide BitOf;
      InitWords(0, bits.Length, t);
      if t { SetUnusedBits(false); }
    }

    method InitWords(from: nat, to: nat, t: bool)
      requires from <= to <= bits.Length
      modifies bits
      ensures RangeSet(old(View()), View(), WORD_BITS * from, WORD_BITS * to, t)
    {
      hide BitOf, RangeSet;
      ghost var start := View();
      RangeEmpty(start, WORD_BITS * from, t);
      for k := from to to
        invariant RangeSet(start, View(), WORD_BITS * from, WORD_BITS * k, t)
      {
        ghost var before := View();
        FillWord(k, t);
        RangesJoin(start, before, View(), WORD_BITS * from, WORD_BITS * k, WORD_BITS * (k + 1), t);
      }
    }

    method FillWord(k: nat, t: bool)
      requires k < bits.Length
      modifies bits
      ensures RangeSet(old(View()), View(), WORD_BITS * k, WORD_BITS * (k + 1), t)
    {
      hide BitOf, RangeSet;
      ghost var before := View();
      bits[k] := if t then ALL_ONES else 0;
      WholeWord(before, k, t);
      assert View() == before[k := if t then ALL_ONES else 0];
    }

    /** Gives every bit from `size` to the end of the capacity one value. */
    method SetUnusedBits(t: bool)
      requires NumBitWords(size) <= bits.Length
      modifies bits
      ensures RangeSet(old(View()), View(), size, WORD_BITS * bits.Length, t)
    {
      hide BitOf, RangeSet;
      ghost var start := View();
      var usedWords := NumBitWords(size);
      if bits.Length > usedWords {
        InitWords(usedWords, bits.Length, t);
      } else {
        RangeEmpty(start, WORD_BITS * usedWords, t);
      }
      var extraBits := size % WORD_BITS;
      if extraBits != 0 {
        ghost var high := View();
        PrefixMask(size);
        MaskWord(usedWords - 1, t, HighMask(extraBits), size, WORD_BITS * usedWords);
        RangesMeet(start, high, View(), size, WORD_BITS * usedWords, WORD_BITS * bits.Length, t);
      }
    }

    /** Ors a mask into word `k`, or masks it out. */
    method MaskWord(k: nat, value: bool, mask: Word, ghost lo: nat, ghost hi: nat)
      requires k < bits.Length && WORD_BITS * k <= lo <= hi <= WORD_BITS * (k + 1) && MaskOf(mask, k, lo, hi)
      modifies bits
      ensures RangeSet(old(View()), View(), lo, hi, value)
    {
      hide BitOf, RangeSet, HasBit, Combine;
      ghost var before := View();
      bits[k] := Combine(if value then Or else AndNot, bits[k], mask);
      MaskedRange(before, k, value, mask, lo, hi);
      assert View() == before[k := Combine(if value then Or else AndNot, before[k], mask)];
    }

    /** Sets or resets the bits in [from, to). */
    method SetRange(from: nat, to: nat, value: bool)
      requires Valid() && from <= to <= size
      modifies bits
      ensures Valid() && RangeSet(old(View()), View(), from, to, value)
    {
      hide BitOf, RangeSet, HighMask, LowMask, RangeMask, MaskOf, Combine;
      ghost var start := View();
      if from == to {
        RangeEmpty(start, from, value);
        return;
      }
      var k := from / WORD_BITS;
      if k == to / WORD_BITS {
        MiddleMask(from, to);
        MaskWord(k, value, RangeMask(from % WORD_BITS, to % WORD_BITS), from, to);
        StaysClean(start, View(), size, from, to, value);
        return;
      }
      PrefixMask(from);
      MaskWord(k, value, HighMask(from % WORD_BITS), from, WORD_BITS * (k + 1));
      var i: nat := WORD_BITS * NumBitWords(from);
      ghost var end, w := WORD_BITS * (k + 1), NumBitWords(from);
      FirstWords(from, to, size);
      while i + WORD_BITS <= to
        invariant i == WORD_BITS * w && from <= i <= end <= to
        invariant i == end || (i + WORD_BITS == end && i == from)
        invariant RangeSet(start, View(), from, end, value)
      {
        ghost var before := View();
        FillWord(i / WORD_BITS, value);
        RangesOverlap(start, before, View(), from, i, end, i + WORD_BITS, value);
        i, w := i + WORD_BITS, w + 1;
        end := i;
      }
      if i < to {
        ghost var before := View();
        PostfixMask(i, to);
        MaskWord(i / WORD_BITS, value, LowMask(to % WORD_BITS), i, to);
        RangesOverlap(start, before, View(), from, i, end, to, value);
      }
      StaysClean(start, View(), size, from, to, value);
    }

    // --- Queries ---

    method Count() returns (count: nat)
      requires Valid()
      ensures count == |Listed(View(), 0, size)|
    {
      hide BitOf;
      count := 0;
      for i := 0 to NumBitWords(size)
        invariant count == Counted(View(), i)
      {
        count := count + Population(bits[i], WORD_BITS);
      }
      CountedMembers(View(), size);
    }

    method Any() returns (any: bool)
      requires Valid()
      ensures any <==> exists i: nat :: Has(i)
    {
      hide BitOf;
      for i := 0 to NumBitWords(size)
        invariant forall x: nat :: x < WORD_BITS * i ==> !BitOf(View(), x)
      {
        WordEmpty(View(), i);
        if bits[i] != 0 {
          var x: nat :| WORD_BITS * i <= x < WORD_BITS * (i + 1) && BitOf(View(), x);
          assert Has(x);
          return true;
        }
      }
      return false;
    }

    method All() returns (all: bool)
      requires Valid()
      ensures all <==> forall i: nat :: i < size ==> Has(i)
    {
      hide HasBit, BitOf;
      for i := 0 to size / WORD_BITS
        invariant forall x: nat :: x < WORD_BITS * i ==> BitOf(View(), x)
      {
        FullWord(View(), i, WORD_BITS * (i + 1));
        if bits[i] != ALL_ONES {
          var x: nat :| WORD_BITS * i <= x < WORD_BITS * (i + 1) && !BitOf(View(), x);
          assert !Has(x);
          return false;
        }
      }
      var remainder := size % WORD_BITS;
      if remainder != 0 {
        FullWord(View(), size / WORD_BITS, size);
        all := bits[size / WORD_BITS] == LowMask(remainder);
        if !all {
          var x: nat :| WORD_BITS * (size / WORD_BITS) <= x < size && !BitOf(View(), x);
          assert !Has(x);
        }
        return;
      }
      return true;
    }

    method FindFirst() returns (r: int)
      requires Valid()
      ensures IsNext(View(), 0, size, r)
    {
      hide BitOf, HasBit;
      for i := 0 to NumBitWords(size)
        invariant forall x: nat :: x < WORD_BITS * i ==> !BitOf(View(), x)
      {
        WordEmpty(View(), i);
        if bits[i] != 0 {
          NextInWord(View(), i, bits[i], 0, size);
          return WORD_BITS * i + TrailingZeros(bits[i]);
        }
      }
      return -1;
    }

    method FindNext(prev: nat) returns (r: int)
      requires Valid()
      ensures IsNext(View(), prev + 1, size, r)
    {
      hide BitOf, HasBit, Combine;
      var from := prev + 1;
      if from >= size { return -1; }
      var wordPos := from / WORD_BITS;
      var copy := Combine(And, bits[wordPos], HighMask(from % WORD_BITS));
      forall j | 0 <= j < WORD_BITS
        ensures HasBit(copy, j) <==> HasBit(bits[wordPos], j) && from <= WORD_BITS * wordPos + j
      {
        CombineBit(And, bits[wordPos], HighMask(from % WORD_BITS), j);
        HighMaskBit(from % WORD_BITS, j);
      }
      if copy != 0 {
        NextInWord(View(), wordPos, copy, from, size);
        return WORD_BITS * wordPos + TrailingZeros(copy);
      }
      NoneMasked(View(), wordPos, copy, from);
      for i := wordPos + 1 to NumBitWords(size)
        invariant forall x: nat :: from <= x < WORD_BITS * i ==> !BitOf(View(), x)
      {
        WordEmpty(View(), i);
        if bits[i] != 0 {
          NextInWord(View(), i, bits[i], from, size);
          return WORD_BITS * i + TrailingZeros(bits[i]);
        }
      }
      return -1;
    }

    method AnyCommon(rhs: BitVector) returns (any: bool)
      requires Valid() && rhs.Valid()
      ensures any <==> exists i: nat :: Has(i) && rhs.Has(i)
    {
      hide BitOf, Combine;
      var words := Min(NumBitWords(size), NumBitWords(rhs.size));
      for i := 0 to words
        invariant forall x: nat :: x < WORD_BITS * i ==> !(BitOf(View(), x) && BitOf(rhs.View(), x))
      {
        WordClear(And, View(), rhs.View(), i);
        if Combine(And, bits[i], rhs.bits[i]) != 0 {
          var x: nat :| WORD_BITS * i <= x < WORD_BITS * (i + 1) && BitOf(View(), x) && BitOf(rhs.View(), x);
          assert Has(x) && rhs.Has(x);
          return true;
        }
      }
      return false;
    }

    /** Whether a member is not in `rhs`. */
    method Test(rhs: BitVector) returns (any: bool)
      requires Valid() && rhs.Valid()
      ensures any <==> exists i: nat :: Has(i) && !rhs.Has(i)
    {
      hide BitOf, Combine;
      var words := Min(NumBitWords(size), NumBitWords(rhs.size));
      for i := 0 to words
        invariant forall x: nat :: x < WORD_BITS * i ==> !(BitOf(View(), x) && !BitOf(rhs.View(), x))
      {
        WordClear(AndNot, View(), rhs.View(), i);
        if Combine(AndNot, bits[i], rhs.bits[i]) != 0 {
          var x: nat :| WORD_BITS * i <= x < WORD_BITS * (i + 1) && BitOf(View(), x) && !BitOf(rhs.View(), x);
          assert Has(x) && !rhs.Has(x);
          return true;
        }
      }
      for i := words to NumBitWords(size)
        invariant forall x: nat :: x < WORD_BITS * words ==> !(BitOf(View(), x) && !BitOf(rhs.View(), x))
        invariant forall x: nat :: WORD_BITS * words <= x < WORD_BITS * i ==> !BitOf(View(), x)
      {
        WordEmpty(View(), i);
        if bits[i] != 0 {
          var x: nat :| WORD_BITS * i <= x < WORD_BITS * (i + 1) && BitOf(View(), x);
          assert Has(x) && !rhs.Has(x);
          return true;
        }
      }
      return false;
    }

    method Equals(rhs: BitVector) returns (equal: bool)
      requires Valid() && rhs.Valid()
      ensures equal <==> forall i: nat :: Has(i) <==> rhs.Has(i)
    {
      hide BitOf;
      var words := Min(NumBitWords(size), NumBitWords(rhs.size));
      for i := 0 to words
        invariant forall x: nat :: x < WORD_BITS * i ==> (BitOf(View(), x) <==> BitOf(rhs.View(), x))
      {
        WordSame(View(), rhs.View(), i);
        if bits[i] != rhs.bits[i] {
          var x: nat :| WORD_BITS * i <= x < WORD_BITS * (i + 1) && (BitOf(View(), x) <==> !BitOf(rhs.View(), x));
          assert Has(x) <==> !rhs.Has(x);
          return false;
        }
      }
      var longer := if words == NumBitWords(size) then rhs else this;
      for i := words to NumBitWords(longer.size)
        invariant forall x: nat :: x < WORD_BITS * words ==> (BitOf(View(), x) <==> BitOf(rhs.View(), x))
        invariant forall x: nat :: WORD_BITS * words <= x < WORD_BITS * i ==> !BitOf(longer.View(), x)
      {
        WordEmpty(longer.View(), i);
        if longer.bits[i] != 0 {
          var x: nat :| WORD_BITS * i <= x < WORD_BITS * (i + 1) && BitOf(longer.View(), x);
          assert Has(x) <==> !rhs.Has(x);
          return false;
        }
      }
      return true;
    }

    // --- Changes ---

    /** Moves to an array of twice the capacity or more.  The words are copied the wrong way, out of the
        new array into the old one, so what the new array happened to hold is what the vector holds. */
    method Grow(newSize: nat, newBits: array<Word>)
      requires NumBitWords(size) <= bits.Length
      requires newBits != bits && newBits.Length == NewCapacity(bits.Length, newSize)
      modifies this, bits, newBits
      ensures bits == newBits && size == old(size)
      ensures RangeSet(old(newBits[..]), View(), size, WORD_BITS * bits.Length, false)
    {
      var oldCapacity := bits.Length;
      forall i | 0 <= i < oldCapacity { bits[i] := newBits[i]; }
      bits := newBits;
      assert View() == old(newBits[..]);
      SetUnusedBits(false);
    }

    method Resize(n: nat, t: bool, newBits: array<Word>)
      requires Valid() && newBits != bits && newBits.Length == NewCapacity(bits.Length, n)
      modifies this, bits, newBits
      ensures Valid() && size == n && bits == if n > WORD_BITS * old(bits).Length then newBits else old(bits)
      ensures forall i: nat :: Has(i) <==> i < n && Resized(old(View()), old(newBits[..]), old(size), n, t, i)
      ensures n <= WORD_BITS * old(bits).Length ==> forall i: nat :: Has(i) <==> i < n && if i < old(size) then old(Has(i)) else t
    {
      hide BitOf, NewCapacity;
      EnoughWords(bits.Length, n);
      ghost var kept := if n > WORD_BITS * bits.Length then newBits[..] else View();
      if n > WORD_BITS * bits.Length {
        var oldCapacity := bits.Length;
        Grow(n, newBits);
        InitWords(oldCapacity, bits.Length, t);
      }
      assert forall i: nat :: i < size ==> (BitOf(View(), i) <==> BitOf(kept, i));
      assert n == size ==> Clean(View(), size);
      if n > size { SetUnusedBits(t); }
      assert forall i: nat :: i < size ==> (BitOf(View(), i) <==> BitOf(kept, i));
      assert n > size ==> forall i: nat :: size <= i < WORD_BITS * bits.Length ==> (BitOf(View(), i) <==> t);
      var oldSize := size;
      size := n;
      if t || n < oldSize { SetUnusedBits(false); }
    }

    method Flip()
      requires Valid()
      modifies bits
      ensures Valid() && forall i: nat :: Has(i) <==> i < size && !old(Has(i))
    {
      hide BitOf, Combine;
      ghost var before := View();
      MergeWords(Not, bits, NumBitWords(size));
      ghost var flipped := View();
      SetUnusedBits(false);
      forall i: nat ensures Has(i) <==> i < size && !old(Has(i)) {
        MergedBit(Not, before, before, flipped, NumBitWords(size), i);
      }
    }

    /** Combines the first `n` words with those of `other`, which may be the same array. */
    method MergeWords(op: BitOp, other: array<Word>, n: nat)
      requires n <= bits.Length && n <= other.Length
      modifies bits
      ensures Merged(op, old(View()), old(other[..]), View(), n)
    {
      hide Combine;
      for i := 0 to n
        invariant forall j :: 0 <= j < i ==> bits[j] == Combine(op, old(bits[j]), old(other[j]))
        invariant forall j :: i <= j < bits.Length ==> bits[j] == old(bits[j])
        invariant forall j :: i <= j < other.Length ==> other[j] == old(other[j])
      {
        bits[i] := Combine(op, bits[i], other[i]);
      }
    }

    /** Intersection. */
    method AndWith(rhs: BitVector)
      requires Valid() && rhs.Valid()
      modifies bits
      ensures Valid() && forall i: nat :: Has(i) <==> old(Has(i)) && old(rhs.Has(i))
    {
      hide BitOf, Combine;
      ghost var before, other := View(), rhs.View();
      var words := Min(NumBitWords(size), NumBitWords(rhs.size));
      MergeWords(And, rhs.bits, words);
      ghost var merged := View();
      InitWords(words, NumBitWords(size), false);
      forall i: nat ensures BitOf(merged, i) <==>
                            if i < WORD_BITS * words then BitOf(before, i) && BitOf(other, i) else BitOf(before, i)
      {
        MergedBit(And, before, other, merged, words, i);
      }
    }

    /** Difference. */
    method ResetAll(rhs: BitVector)
      requires Valid() && rhs.Valid()
      modifies bits
      ensures Valid() && forall i: nat :: Has(i) <==> old(Has(i)) && !old(rhs.Has(i))
    {
      hide BitOf, Combine;
      ghost var before, other := View(), rhs.View();
      var words := Min(NumBitWords(size), NumBitWords(rhs.size));
      MergeWords(AndNot, rhs.bits, words);
      forall i: nat ensures BitOf(View(), i) <==>
                            if i < WORD_BITS * words then BitOf(before, i) && !BitOf(other, i) else BitOf(before, i)
      {
        MergedBit(AndNot, before, other, View(), words, i);
      }
    }

    /** Union, or the symmetric difference; the vector first grows to the size of the other one. */
    method JoinWith(rhs: BitVector, exclusive: bool, newBits: array<Word>)
      requires Valid() && rhs.Valid() && (rhs == this || rhs.bits != bits) && newBits != rhs.bits
      requires newBits != bits && newBits.Length == NewCapacity(bits.Length, rhs.size)
      modifies this, bits, newBits
      ensures Valid() && size == Max(old(size), old(rhs.size))
      ensures forall i: nat :: Has(i) <==>
                i < size
                && var mine := Resized(old(View()), old(newBits[..]), old(size), size, false, i);
                   if exclusive then mine != old(rhs.Has(i)) else mine || old(rhs.Has(i))
    {
      hide BitOf, Combine;
      if size < rhs.size { Resize(rhs.size, false, newBits); }
      ghost var before, other := View(), rhs.View();
      var op := if exclusive then Xor else Or;
      MergeWords(op, rhs.bits, NumBitWords(rhs.size));
      forall i: nat ensures BitOf(View(), i) <==>
                            if i < WORD_BITS * NumBitWords(old(rhs.size)) then Applied(op, BitOf(before, i), BitOf(other, i))
                            else BitOf(before, i)
      {
        MergedBit(op, before, other, View(), NumBitWords(old(rhs.size)), i);
      }
    }

    /** Assignment, into the capacity at hand or from none. */
    method Assign(rhs: BitVector)
      requires Valid() && rhs.Valid() && (rhs == this || rhs.bits != bits)
      requires rhs.size <= WORD_BITS * bits.Length || bits.Length == 0
      modifies this, bits
      ensures Valid() && size == old(rhs.size) && forall i: nat :: Has(i) <==> old(rhs.Has(i))
    {
      if rhs == this { return; }
      hide BitOf;
      size := rhs.size;
      var rhsWords := NumBitWords(size);
      if size <= WORD_BITS * bits.Length {
        forall j | 0 <= j < rhsWords { bits[j] := rhs.bits[j]; }
        SamePrefix(View(), rhs.View(), rhsWords);
        SetUnusedBits(false);
      } else {
        var newBits := new Word[rhsWords];
        forall j | 0 <= j < rhsWords { newBits[j] := rhs.bits[j]; }
        bits := newBits;
        SamePrefix(View(), rhs.View(), rhsWords);
      }
    }

    // --- Portable masks of 32-bit words ---

    /** Sets or clears the bits that the mask has, or those it has not, without resizing. */
    method ApplyMask(addBits: bool, invertMask: bool, mask: seq<Half>, maskWords: nat)
      requires Valid() && Min(maskWords, (size + 31) / 32) <= |mask|
      modifies bits
      ensures Valid() && forall i: nat :: Has(i) <==>
                i < size
                && if i < 32 * Min(maskWords, (size + 31) / 32)
                   then Masked(old(View()), mask, addBits, invertMask, i) else old(Has(i))
    {
      hide BitOf, Combine, Masked, MaskedTo, MaskTerm;
      var words := Min(maskWords, (size + 31) / 32);
      ghost var start, before := View(), View();
      var left: nat := words;
      var i: nat := 0;
      MaskedNone(start, mask, addBits, invertMask);
      while left >= 2
        invariant left <= words && 2 * i + left == words
        invariant MaskedTo(start, View(), mask, addBits, invertMask, 2 * i)
      {
        before := View();
        var bw := bits[i];
        bw := Combine(MaskOp(addBits), bw, MaskTerm(mask[2 * i], invertMask, 0));
        MaskedNext(start, before, mask, addBits, invertMask, 2 * i);
        ghost var half := before[i := bw];
        bw := Combine(MaskOp(addBits), bw, MaskTerm(mask[2 * i + 1], invertMask, 32));
        MaskedNext(start, half, mask, addBits, invertMask, 2 * i + 1);
        bits[i] := bw;
        assert View() == half[i := bw];
        i := i + 1;
        left := left - 2;
      }
      if left > 0 {
        before := View();
        bits[i] := Combine(MaskOp(addBits), bits[i], MaskTerm(mask[2 * i], invertMask, 0));
        MaskedNext(start, before, mask, addBits, invertMask, 2 * i);
        assert View() == before[i := Combine(MaskOp(addBits), before[i], MaskTerm(mask[2 * i], invertMask, 0))];
      }
      ghost var done := View();
      MaskedAll(start, done, mask, addBits, invertMask, words, size);
      if addBits { SetUnusedBits(false); }
    }

    /** The bit of a mask of 32-bit words, none behind its end. */
    predicate InMask(mask: seq<Half>, i: nat) { i / 32 < |mask| && HasBit(mask[i / 32], i % 32) }

    method SetBitsInMask(mask: seq<Half>)
      requires Valid()
      modifies bits
      ensures Valid() && forall i: nat :: Has(i) <==> old(Has(i)) || (i < size && InMask(mask, i))
    {
      ApplyMask(true, false, mask, |mask|);
    }

    method ClearBitsInMask(mask: seq<Half>)
      requires Valid()
      modifies bits
      ensures Valid() && forall i: nat :: Has(i) <==> old(Has(i)) && !InMask(mask, i)
    {
      ApplyMask(false, false, mask, |mask|);
    }

    /** The bits behind the mask are left alone. */
    method SetBitsNotInMask(mask: seq<Half>)
      requires Valid()
      modifies bits
      ensures Valid() && forall i: nat :: Has(i) <==> old(Has(i)) || (i < size && i < 32 * |mask| && !InMask(mask, i))
    {
      ApplyMask(true, true, mask, |mask|);
    }

    method ClearBitsNotInMask(mask: seq<Half>)
      requires Valid()
      modifies bits
      ensures Valid() && forall i: nat :: Has(i) <==> old(Has(i)) && (i < 32 * |mask| ==> InMask(mask, i))
    {
      ApplyMask(false, true, mask, |mask|);
    }
  }
}
