/** The compiler side of AddressSanitizer: redzones around stack variables and globals. */
module AsanInstrumentation {
  import opened Bytes
  import opened AsanShadow

  const BYTES_PER_WORD := 4

  function OffsetToAlignment(pos: nat, align: nat): nat
    requires align > 0
  {
    if pos % align == 0 then 0 else align - pos % align
  }

  // --- Laying things out ---

  type Alignment = a: nat | a > 0 witness 1

  /** Something that is given memory, at a multiple of its alignment. */
  datatype Piece = Piece(size: nat, alignment: Alignment)

  function AlignedUp(at: nat, alignment: Alignment): nat { at + OffsetToAlignment(at, alignment) }

  /** Where pieces end that are placed from `base`, each as soon as its alignment allows. */
  function EndOfPieces(base: nat, pieces: seq<Piece>): nat {
    if pieces == [] then base
    else
      var last := pieces[|pieces| - 1];
      AlignedUp(EndOfPieces(base, pieces[..|pieces| - 1]), last.alignment) + last.size
  }

  /** Where the piece `k` is then. */
  function PlaceOf(base: nat, pieces: seq<Piece>, k: nat): nat
    requires k < |pieces|
  {
    AlignedUp(EndOfPieces(base, pieces[..k]), pieces[k].alignment)
  }

  lemma PieceAdded(base: nat, pieces: seq<Piece>, p: Piece)
    ensures EndOfPieces(base, pieces + [p]) == AlignedUp(EndOfPieces(base, pieces), p.alignment) + p.size
  {
    assert (pieces + [p])[..|pieces|] == pieces;
  }

  // --- Stack variables ---

  /** The bytes a variable's alloca asks for: itself, a redzone, and what rounds both up. */
  function AllocaSize(size: nat): nat { size + RZ_SIZE + OffsetToAlignment(size, RZ_SIZE) }

  /** One run of equal shadow values. */
  datatype Entry = Entry(count: nat, value: int)

  /** A 32-bit store into the shadow, at an offset from the first redzone's shadow. */
  datatype Store = Store(offset: nat, word: uint32)

  function Repeat(n: nat, v: int): (r: seq<int>)
    ensures |r| == n && forall i :: 0 <= i < n ==> r[i] == v
  {
    seq(n, _ => v)
  }

  /** The shadow a list of runs stands for. */
  function Expand(vals: seq<Entry>): seq<int> {
    if vals == [] then [] else Repeat(vals[0].count, vals[0].value) + Expand(vals[1..])
  }

  /** The shadow of one variable and the redzone after it, as it should be. */
  function VariableShadow(size: nat): (r: seq<int>)
    ensures |r| == AllocaSize(size) / SHADOW_SCALE
  {
    seq(AllocaSize(size) / SHADOW_SCALE, g requires 0 <= g => ObjectShadow(0, size, STACK_POISON, g))
  }

  /** The shadow of the whole frame: a redzone, then each variable. */
  function FrameShadow(sizes: seq<nat>): seq<int> {
    if sizes == [] then Repeat(RZ_SIZE / SHADOW_SCALE, STACK_POISON)
    else FrameShadow(sizes[..|sizes| - 1]) + VariableShadow(sizes[|sizes| - 1])
  }

  lemma {:induction false} ExpandAppend(a: seq<Entry>, b: seq<Entry>)
    ensures Expand(a + b) == Expand(a) + Expand(b)
  {
    if a == [] {
      assert a + b == b;
    } else {
      assert (a + b)[1..] == a[1..] + b;
      ExpandAppend(a[1..], b);
    }
  }

  const SIZE_LIMIT := 0x1_0000_0000

  /** The alloca size as the compiler computes it, in 32 bits. */
  function AllocaBytes(size: uint32): uint32 { AllocaSize(size) % SIZE_LIMIT }

  /** The 32-bit sum holds the variable and its redzone exactly when it does not wrap. */
  lemma AllocaBytesHold(size: uint32)
    ensures size + RZ_SIZE <= AllocaBytes(size) <==> AllocaSize(size) < SIZE_LIMIT
  {
  }

  /** The runs pushed for one variable. */
  function VariableEntries(size: uint32): seq<Entry> {
    var zeros, offset := size / SHADOW_SCALE, size % SHADOW_SCALE;
    (if zeros > 0 then [Entry(zeros, 0)] else [])
    + [Entry(1, if offset == 0 then STACK_POISON else offset),
       Entry((AllocaBytes(size) / SHADOW_SCALE - zeros - 1) % SIZE_LIMIT, STACK_POISON)]
  }

  /** No run is empty, even where the size of the alloca wraps. */
  lemma VariableRuns(size: uint32)
    ensures NoEmptyRun(VariableEntries(size))
  {
    var zeros := size / SHADOW_SCALE;
    var left := AllocaBytes(size) / SHADOW_SCALE - zeros - 1;
    if AllocaSize(size) < SIZE_LIMIT {
      assert AllocaSize(size) / SHADOW_SCALE >= zeros + 4;
      assert 3 <= left < SIZE_LIMIT;
    } else {
      assert AllocaBytes(size) <= 63 && zeros >= 0x1000_0000;
      assert -SIZE_LIMIT < left < 0;
    }
  }

  lemma FittingRuns(size: uint32)
    requires AllocaSize(size) < SIZE_LIMIT
    ensures var zeros, offset := size / SHADOW_SCALE, size % SHADOW_SCALE;
            && AllocaSize(size) / SHADOW_SCALE >= zeros + 4
            && VariableEntries(size) == (if zeros > 0 then [Entry(zeros, 0)] else [])
                 + [Entry(1, if offset == 0 then STACK_POISON else offset), Entry(AllocaSize(size) / SHADOW_SCALE - zeros - 1, STACK_POISON)]
  {
    AllocaHolds(size);
  }

  lemma ThreeRuns(zeros: nat, one: int, rest: nat)
    ensures Expand((if zeros > 0 then [Entry(zeros, 0)] else []) + [Entry(1, one), Entry(rest, STACK_POISON)])
         == Repeat(zeros, 0) + [one] + Repeat(rest, STACK_POISON)
  {
    var last := [Entry(rest, STACK_POISON)];
    var two := [Entry(1, one)] + last;
    assert Expand(last) == Repeat(rest, STACK_POISON) + [];
    assert two[1..] == last;
    assert Expand(two) == [one] + Repeat(rest, STACK_POISON);
    var tail := [one] + Repeat(rest, STACK_POISON);
    assert Repeat(zeros, 0) + [one] + Repeat(rest, STACK_POISON) == Repeat(zeros, 0) + tail;
    assert [Entry(1, one), Entry(rest, STACK_POISON)] == two;
    if zeros > 0 {
      var all := [Entry(zeros, 0)] + two;
      assert all[1..] == two;
    } else {
      assert (if zeros > 0 then [Entry(zeros, 0)] else []) + two == two;
      assert [] + two == two && Repeat(zeros, 0) == [] && [] + tail == tail;
    }
  }

  /** Where it does not wrap the runs are the shadow of the variable and its redzone. */
  lemma VariableEntriesExpand(size: uint32)
    requires AllocaSize(size) < SIZE_LIMIT
    ensures Expand(VariableEntries(size)) == VariableShadow(size)
  {
    hide VariableEntries, Expand, AllocaSize;
    var zeros, offset := size / SHADOW_SCALE, size % SHADOW_SCALE;
    FittingRuns(size);
    ThreeRuns(zeros, if offset == 0 then STACK_POISON else offset, AllocaSize(size) / SHADOW_SCALE - zeros - 1);
    var e, v := Expand(VariableEntries(size)), VariableShadow(size);
    forall g | 0 <= g < |v| ensures e[g] == v[g] {}
  }

  // --- Packing the shadow into word stores ---

  function Lane(vals: seq<int>, i: nat): int { if i < |vals| then vals[i] % 0x100 else 0 }

  /** Up to four shadow values as one little-endian word; missing ones are 0. */
  function Word(vals: seq<int>): uint32 {
    Lane(vals, 0) + 0x100 * Lane(vals, 1) + 0x1_0000 * Lane(vals, 2) + 0x100_0000 * Lane(vals, 3)
  }

  function Chunk(l: seq<int>): nat { if |l| < BYTES_PER_WORD then |l| else BYTES_PER_WORD }

  /** The stores for a shadow, a word at a time, leaving out the words that are 0. */
  function Pack(l: seq<int>, offset: nat): seq<Store>
    decreases |l|
  {
    if l == [] then [] else
    var n := Chunk(l);
    var w := Word(l[..n]);
    (if w == 0 then [] else [Store(offset, w)]) + Pack(l[n..], offset + BYTES_PER_WORD)
  }

  /** There is one store for each word of the shadow that is not 0, and none for the others. */
  lemma {:induction false} PackStores(l: seq<int>, offset: nat, at: nat)
    requires at < |l| && at % BYTES_PER_WORD == 0
    ensures Word(l[at..]) != 0 ==> Store(offset + at, Word(l[at..])) in Pack(l, offset)
    ensures Word(l[at..]) == 0 ==> forall s :: s in Pack(l, offset) ==> s.offset != offset + at
    decreases |l|
  {
    hide Word, Pack;
    var rest, next := l[Chunk(l)..], offset + BYTES_PER_WORD;
    PackUnfold(l, offset);
    FirstWord(l);
    PackOrdered(rest, next);
    if at == 0 {
      assert l[at..] == l;
    } else {
      assert rest[at - BYTES_PER_WORD..] == l[at..];
      PackStores(rest, next, at - BYTES_PER_WORD);
    }
  }

  lemma FirstWord(l: seq<int>)
    ensures Word(l[..Chunk(l)]) == Word(l)
  {
  }

  /** The stores are at ascending word offsets. */
  lemma {:induction false} PackOrdered(l: seq<int>, offset: nat)
    ensures forall s :: s in Pack(l, offset) ==> s.offset >= offset && s.word != 0 && (s.offset - offset) % BYTES_PER_WORD == 0
    ensures forall i, j :: 0 <= i < j < |Pack(l, offset)| ==> Pack(l, offset)[i].offset < Pack(l, offset)[j].offset
    decreases |l|
  {
    hide Word, Pack;
    if l != [] {
      PackUnfold(l, offset);
      var tail, w := Pack(l[Chunk(l)..], offset + BYTES_PER_WORD), Word(l[..Chunk(l)]);
      PackOrdered(l[Chunk(l)..], offset + BYTES_PER_WORD);
      if w == 0 {
        assert Pack(l, offset) == tail;
        LaterStores(tail, offset);
      } else {
        assert Pack(l, offset) == [Store(offset, w)] + tail;
        LaterStores(tail, offset);
      }
    } else {
      assert Pack(l, offset) == [] by { PackedNothing(offset); }
    }
  }

  lemma PackedNothing(offset: nat)
    ensures Pack([], offset) == []
  {
  }

  lemma LaterStores(stores: seq<Store>, offset: nat)
    requires forall s :: s in stores ==> s.offset >= offset + BYTES_PER_WORD && (s.offset - (offset + BYTES_PER_WORD)) % BYTES_PER_WORD == 0
    ensures forall s :: s in stores ==> s.offset > offset && (s.offset - offset) % BYTES_PER_WORD == 0
  {
    forall s | s in stores ensures s.offset > offset && (s.offset - offset) % BYTES_PER_WORD == 0 {
      var d := s.offset - (offset + BYTES_PER_WORD);
      assert d == BYTES_PER_WORD * (d / BYTES_PER_WORD);
      assert s.offset - offset == BYTES_PER_WORD * (d / BYTES_PER_WORD + 1);
    }
  }

  predicate NoEmptyRun(entries: seq<Entry>) {
    forall i :: 0 <= i < |entries| ==> entries[i].count > 0
  }

  /** The second loop: consumes the runs in place, four values to a word. */
  method PackEntries(entries: seq<Entry>) returns (stores: seq<Store>)
    requires NoEmptyRun(entries)
    ensures stores == Pack(Expand(entries), 0)
  {
    hide Word, Pack, Expand, Lane;
    var vals := entries;
    var it: nat := 0;
    var offset: nat := 0;
    stores := [];
    while it < |vals|
      invariant it <= |vals| && forall i :: it <= i < |vals| ==> vals[i].count > 0
      invariant stores + Pack(Expand(vals[it..]), offset) == Pack(Expand(entries), 0)
      decreases |Expand(vals[it..])|
    {
      ghost var rest := Expand(vals[it..]);
      ExpandNonEmpty(vals[it..]);
      var curVals: seq<int>;
      curVals, vals, it := TakeWord(vals, it);
      PackUnfold(rest, offset);
      WordOfPadded(rest[..Chunk(rest)], curVals);
      var poison := Word(curVals);
      if poison != 0 {
        stores := stores + [Store(offset, poison)];
      }
      offset := offset + BYTES_PER_WORD;
    }
    PackedOut(vals[it..], offset);
  }

  lemma PackUnfold(l: seq<int>, offset: nat)
    requires l != []
    ensures var w := Word(l[..Chunk(l)]);
            Pack(l, offset) == (if w == 0 then [] else [Store(offset, w)]) + Pack(l[Chunk(l)..], offset + BYTES_PER_WORD)
  {
  }

  lemma PackedOut(vals: seq<Entry>, offset: nat)
    requires vals == []
    ensures Pack(Expand(vals), offset) == []
  {
  }

  lemma ExpandNonEmpty(vals: seq<Entry>)
    requires vals != [] && vals[0].count > 0
    ensures Expand(vals) != []
  {
  }

  /** Padding with 0 does not change the word. */
  lemma WordOfPadded(v: seq<int>, padded: seq<int>)
    requires |v| <= 4 && |padded| == 4 && v <= padded && forall j :: |v| <= j < 4 ==> padded[j] == 0
    ensures Word(padded) == Word(v)
  {
    forall j | 0 <= j < 4 ensures Lane(padded, j) == Lane(v, j) {}
  }

  /** The inner loop: the next four values, or as many as there are. */
  method TakeWord(vals: seq<Entry>, it: nat) returns (curVals: seq<int>, vals': seq<Entry>, it': nat)
    requires it < |vals| && forall i :: it <= i < |vals| ==> vals[i].count > 0
    ensures it' <= |vals'| && forall i :: it' <= i < |vals'| ==> vals'[i].count > 0
    ensures var rest := Expand(vals[it..]);
            && |curVals| == 4 && rest[..Chunk(rest)] <= curVals && (forall j :: Chunk(rest) <= j < 4 ==> curVals[j] == 0)
            && Expand(vals'[it'..]) == rest[Chunk(rest)..]
  {
    hide Expand, Repeat;
    ghost var rest, taken: seq<int> := Expand(vals[it..]), [];
    curVals, vals', it' := [0, 0, 0, 0], vals, it;
    for i := 0 to BYTES_PER_WORD
      invariant it' <= |vals'| && forall k :: it' <= k < |vals'| ==> vals'[k].count > 0
      invariant |curVals| == 4 && |taken| == i && rest == taken + Expand(vals'[it'..])
      invariant taken <= curVals && forall j :: |taken| <= j < 4 ==> curVals[j] == 0
    {
      if it' == |vals'| {
        ExpandEnd(vals', it');
        break;
      }
      var val := vals'[it'];
      curVals := curVals[i := val.value];
      ExpandOne(vals', it');
      if val.count - 1 > 0 {
        vals' := vals'[it' := Entry(val.count - 1, val.value)];
      } else {
        it' := it' + 1;
      }
      ghost var left := Expand(vals'[it'..]);
      assert taken + ([val.value] + left) == (taken + [val.value]) + left;
      taken := taken + [val.value];
    }
  }

  lemma ExpandEnd(vals: seq<Entry>, it: nat)
    requires it == |vals|
    ensures Expand(vals[it..]) == []
  {
  }

  /** The next value of the runs, and the runs without it. */
  lemma ExpandOne(vals: seq<Entry>, it: nat)
    requires it < |vals| && vals[it].count > 0
    ensures Expand(vals[it..]) == [vals[it].value]
            + if vals[it].count > 1 then Expand(vals[it := Entry(vals[it].count - 1, vals[it].value)][it..]) else Expand(vals[it + 1..])
  {
    var val := vals[it];
    assert vals[it..][1..] == vals[it + 1..];
    assert Repeat(val.count, val.value) == [val.value] + Repeat(val.count - 1, val.value);
    if val.count > 1 {
      var next := vals[it := Entry(val.count - 1, val.value)];
      assert next[it..][1..] == vals[it + 1..];
    } else {
      assert Repeat(0, val.value) == [];
    }
  }

  // --- What the stores do to the shadow ---

  function StoreWord(shadow: seq<int>, at: nat, w: uint32): (r: seq<int>)
    requires at + 4 <= |shadow|
    ensures |r| == |shadow|
  {
    var b := Bytes32(w);
    shadow[at := Signed8(b[0])][at + 1 := Signed8(b[1])][at + 2 := Signed8(b[2])][at + 3 := Signed8(b[3])]
  }

  predicate StoresFit(shadow: seq<int>, first: nat, stores: seq<Store>) {
    forall i :: 0 <= i < |stores| ==> first + stores[i].offset + 4 <= |shadow|
  }

  function Applied(shadow: seq<int>, first: nat, stores: seq<Store>): (r: seq<int>)
    requires StoresFit(shadow, first, stores)
    ensures |r| == |shadow|
    decreases |stores|
  {
    if stores == [] then shadow
    else Applied(StoreWord(shadow, first + stores[0].offset, stores[0].word), first, stores[1..])
  }

  /** The stores replayed before a return: the same places, with 0. */
  function Cleared(stores: seq<Store>): seq<Store> {
    seq(|stores|, i requires 0 <= i < |stores| => Store(stores[i].offset, 0))
  }

  predicate IsShadow(l: seq<int>) { forall i :: 0 <= i < |l| ==> -0x80 <= l[i] < 0x80 }

  lemma LaneByte(x: int)
    requires -0x80 <= x < 0x80
    ensures 0 <= x % 0x100 < 0x100 && Signed8(x % 0x100) == x && (x % 0x100 == 0 <==> x == 0)
  {
    assert x < 0 ==> x % 0x100 == x + 0x100;
  }

  lemma WordLanes(v: seq<int>)
    ensures Bytes32(Word(v)) == [Lane(v, 0), Lane(v, 1), Lane(v, 2), Lane(v, 3)]
    ensures Word(v) == 0 <==> Lane(v, 0) == Lane(v, 1) == Lane(v, 2) == Lane(v, 3) == 0
  {
    hide Bytes32, Lane;
    LaneRange(v);
    BytesOfDigits(Lane(v, 0), Lane(v, 1), Lane(v, 2), Lane(v, 3));
  }

  lemma LaneRange(v: seq<int>)
    ensures forall i: nat :: 0 <= Lane(v, i) < 0x100
  {
  }

  lemma WordBytes(v: seq<int>)
    requires |v| == 4 && IsShadow(v)
    ensures forall i :: 0 <= i < 4 ==> Signed8(Bytes32(Word(v))[i]) == v[i]
    ensures Word(v) == 0 <==> v == [0, 0, 0, 0]
  {
    hide Bytes32, Word, Signed8;
    WordLanes(v);
    LaneByte(v[0]);
    LaneByte(v[1]);
    LaneByte(v[2]);
    LaneByte(v[3]);
    assert v == [v[0], v[1], v[2], v[3]];
    assert Lane(v, 0) == v[0] % 0x100 && Lane(v, 1) == v[1] % 0x100 && Lane(v, 2) == v[2] % 0x100 && Lane(v, 3) == v[3] % 0x100;
  }

  lemma {:induction false} PackFits(shadow: seq<int>, first: nat, l: seq<int>, offset: nat)
    requires |l| % 4 == 0 && first + offset + |l| <= |shadow|
    ensures StoresFit(shadow, first, Pack(l, offset)) && StoresFit(shadow, first, Cleared(Pack(l, offset)))
    decreases |l|
  {
    hide Word;
    if l != [] {
      PackFits(shadow, first, l[4..], offset + 4);
    }
  }

  /** One word of the packing, and what is left. */
  lemma AppliedChunk(shadow: seq<int>, first: nat, l: seq<int>, offset: nat)
    requires |l| % 4 == 0 && l != [] && first + offset + |l| <= |shadow|
    ensures StoresFit(shadow, first, Pack(l, offset)) && StoresFit(shadow, first, Cleared(Pack(l, offset)))
    ensures StoresFit(shadow, first, Pack(l[4..], offset + 4)) && StoresFit(shadow, first, Cleared(Pack(l[4..], offset + 4)))
    ensures var w := Word(l[..4]);
            && Applied(shadow, first, Pack(l, offset))
               == Applied(if w == 0 then shadow else StoreWord(shadow, first + offset, w), first, Pack(l[4..], offset + 4))
            && Applied(shadow, first, Cleared(Pack(l, offset)))
               == Applied(if w == 0 then shadow else StoreWord(shadow, first + offset, 0), first, Cleared(Pack(l[4..], offset + 4)))
  {
    hide Word, StoreWord;
    PackFits(shadow, first, l, offset);
    PackFits(shadow, first, l[4..], offset + 4);
    var w, stores, later := Word(l[..4]), Pack(l, offset), Pack(l[4..], offset + 4);
    if w != 0 {
      assert stores[0] == Store(offset, w) && stores[1..] == later;
      assert Cleared(stores)[0] == Store(offset, 0) && Cleared(stores)[1..] == Cleared(later);
    } else {
      assert stores == later;
    }
  }

  lemma StoreWordAt(shadow: seq<int>, at: nat, v: seq<int>, g: nat)
    requires |v| == 4 && IsShadow(v) && at + 4 <= |shadow| && g < |shadow|
    ensures StoreWord(shadow, at, Word(v))[g] == if at <= g < at + 4 then v[g - at] else shadow[g]
    ensures StoreWord(shadow, at, 0)[g] == if at <= g < at + 4 then 0 else shadow[g]
  {
    hide Word, Bytes32, Signed8;
    WordBytes(v);
    WordBytes([0, 0, 0, 0]);
  }

  lemma PackNothing(shadow: seq<int>, first: nat, offset: nat)
    ensures StoresFit(shadow, first, Pack([], offset)) && StoresFit(shadow, first, Cleared(Pack([], offset)))
    ensures Applied(shadow, first, Pack([], offset)) == shadow && Applied(shadow, first, Cleared(Pack([], offset))) == shadow
  {
  }

  /** Over a clear shadow the stores give every granule exactly its packed value and change no other,
      although the words that are 0 were never stored. */
  lemma {:induction false} PackWrites(shadow: seq<int>, first: nat, l: seq<int>, offset: nat, g: nat)
    requires |l| % 4 == 0 && IsShadow(l) && first + offset + |l| <= |shadow| && g < |shadow|
    requires first + offset <= g < first + offset + |l| ==> shadow[g] == 0
    ensures StoresFit(shadow, first, Pack(l, offset))
    ensures Applied(shadow, first, Pack(l, offset))[g]
            == if first + offset <= g < first + offset + |l| then l[g - (first + offset)] else shadow[g]
    decreases |l|
  {
    hide Word, StoreWord, Applied, Pack, Cleared, StoresFit;
    if l == [] {
      PackNothing(shadow, first, offset);
    } else {
      var v, rest, at := l[..4], l[4..], first + offset;
      AppliedChunk(shadow, first, l, offset);
      WordBytes(v);
      StoreWordAt(shadow, at, v, g);
      PackWrites(if Word(v) == 0 then shadow else StoreWord(shadow, at, Word(v)), first, rest, offset + 4, g);
    }
  }

  /** Clearing the same words clears every granule of the packed shadow: what was left out was 0. */
  lemma {:induction false} ClearedRestores(shadow: seq<int>, first: nat, l: seq<int>, offset: nat, g: nat)
    requires |l| % 4 == 0 && IsShadow(l) && first + offset + |l| <= |shadow| && g < |shadow|
    requires first + offset <= g < first + offset + |l| ==> shadow[g] == l[g - (first + offset)]
    ensures StoresFit(shadow, first, Cleared(Pack(l, offset)))
    ensures Applied(shadow, first, Cleared(Pack(l, offset)))[g]
            == if first + offset <= g < first + offset + |l| then 0 else shadow[g]
    decreases |l|
  {
    hide Word, StoreWord, Applied, Pack, Cleared, StoresFit;
    if l == [] {
      PackNothing(shadow, first, offset);
    } else {
      var v, rest, at := l[..4], l[4..], first + offset;
      AppliedChunk(shadow, first, l, offset);
      WordBytes(v);
      StoreWordAt(shadow, at, v, g);
      ClearedRestores(if Word(v) == 0 then shadow else StoreWord(shadow, at, 0), first, rest, offset + 4, g);
    }
  }

  // --- The instrumented frame ---

  function Allocas(sizes: seq<nat>): seq<nat> {
    if sizes == [] then [RZ_SIZE] else Allocas(sizes[..|sizes| - 1]) + [AllocaSize(sizes[|sizes| - 1])]
  }

  /** The allocas and runs as the compiler computes them, in 32 bits. */
  function NewAllocas(sizes: seq<uint32>): seq<nat> {
    if sizes == [] then [RZ_SIZE] else NewAllocas(sizes[..|sizes| - 1]) + [AllocaBytes(sizes[|sizes| - 1])]
  }

  function FrameEntries(sizes: seq<uint32>): seq<Entry> {
    if sizes == [] then [Entry(RZ_SIZE / SHADOW_SCALE, STACK_POISON)]
    else FrameEntries(sizes[..|sizes| - 1]) + VariableEntries(sizes[|sizes| - 1])
  }

  predicate AllFit(sizes: seq<uint32>) { forall i :: 0 <= i < |sizes| ==> AllocaSize(sizes[i]) < SIZE_LIMIT }

  /** Where no size wraps they are those of the frame's layout. */
  lemma {:induction false} FrameFits(sizes: seq<uint32>)
    requires AllFit(sizes)
    ensures NewAllocas(sizes) == Allocas(sizes) && Expand(FrameEntries(sizes)) == FrameShadow(sizes)
  {
    hide VariableEntries, VariableShadow, AllocaSize, Expand;
    if sizes == [] {
      FirstRedzone();
    } else {
      var n := |sizes| - 1;
      FrameFits(sizes[..n]);
      VariableEntriesExpand(sizes[n]);
      ExpandAppend(FrameEntries(sizes[..n]), VariableEntries(sizes[n]));
    }
  }

  lemma EntriesStart()
    ensures NewAllocas([]) == [RZ_SIZE] && FrameEntries([]) == [Entry(RZ_SIZE / SHADOW_SCALE, STACK_POISON)]
  {
  }

  lemma EntriesStep(sizes: seq<uint32>, k: nat)
    requires k < |sizes|
    ensures NewAllocas(sizes[..k + 1]) == NewAllocas(sizes[..k]) + [AllocaBytes(sizes[k])]
    ensures FrameEntries(sizes[..k + 1]) == FrameEntries(sizes[..k]) + VariableEntries(sizes[k])
    ensures VariableEntries(sizes[k]) != []
  {
    assert sizes[..k + 1][..k] == sizes[..k];
  }

  /** What `instrumentFuncStart` leaves in a function with these constant allocas: the new allocas and
      the stores that poison their redzones, those of the frame's layout where no size wraps; a function
      without any is left alone. */
  method InstrumentFuncStart(sizes: seq<uint32>) returns (allocas: seq<nat>, stores: seq<Store>)
    ensures sizes == [] ==> allocas == [] && stores == []
    ensures sizes != [] ==> allocas == NewAllocas(sizes) && stores == Pack(Expand(FrameEntries(sizes)), 0)
    ensures sizes != [] && AllFit(sizes) ==> allocas == Allocas(sizes) && stores == Pack(FrameShadow(sizes), 0)
  {
    hide Pack, VariableEntries, VariableShadow, Expand, NewAllocas, FrameEntries, AllocaBytes;
    EntriesStart();
    var poisonVals: seq<Entry> := [];
    allocas := [];
    for k := 0 to |sizes|
      invariant k == 0 ==> allocas == [] && poisonVals == []
      invariant k > 0 ==> allocas == NewAllocas(sizes[..k]) && poisonVals == FrameEntries(sizes[..k])
      invariant NoEmptyRun(poisonVals) && (k > 0 ==> poisonVals != [])
    {
      if poisonVals == [] {
        allocas := [RZ_SIZE];
        poisonVals := [Entry(RZ_SIZE / SHADOW_SCALE, STACK_POISON)];
      }
      EntriesStep(sizes, k);
      assert k == 0 ==> sizes[..k] == [];
      allocas := allocas + [AllocaBytes(sizes[k])];
      VariableRuns(sizes[k]);
      poisonVals := poisonVals + VariableEntries(sizes[k]);
    }
    assert sizes[..|sizes|] == sizes;
    if poisonVals == [] {
      return [], [];
    }
    stores := PackEntries(poisonVals);
    if AllFit(sizes) { FrameFits(sizes); }
  }

  lemma FirstRedzone()
    ensures Expand([Entry(RZ_SIZE / SHADOW_SCALE, STACK_POISON)]) == FrameShadow([]) && Allocas([]) == [RZ_SIZE]
  {
    assert Expand([Entry(4, STACK_POISON)]) == Repeat(4, STACK_POISON) + Expand([]);
  }

  /** Where a variable starts when the allocas are laid out one after another from 0. */
  function VariableAt(sizes: seq<nat>, k: nat): nat
    requires k < |sizes|
  {
    SHADOW_SCALE * |FrameShadow(sizes[..k])|
  }

  predicate InVariable(sizes: seq<nat>, k: nat, a: int)
    requires k < |sizes|
  {
    VariableAt(sizes, k) <= a < VariableAt(sizes, k) + sizes[k]
  }

  ghost predicate InSomeVariable(sizes: seq<nat>, a: int) { exists k :: 0 <= k < |sizes| && InVariable(sizes, k, a) }

  function SumOf(l: seq<nat>): nat { if l == [] then 0 else SumOf(l[..|l| - 1]) + l[|l| - 1] }

  /** The frame's shadow covers exactly the new allocas, in whole words. */
  lemma {:induction false} FrameCovered(sizes: seq<nat>)
    ensures SHADOW_SCALE * |FrameShadow(sizes)| == SumOf(Allocas(sizes))
    ensures |FrameShadow(sizes)| % 4 == 0 && IsShadow(FrameShadow(sizes))
  {
    hide OffsetToAlignment, ObjectShadow, AllocaSize, VariableShadow, SumOf, IsShadow;
    if sizes == [] {
      FirstShadow();
      SumAppend([], RZ_SIZE);
      assert Allocas(sizes) == [] + [RZ_SIZE];
    } else {
      var n := |sizes| - 1;
      FrameCovered(sizes[..n]);
      SumAppend(Allocas(sizes[..n]), AllocaSize(sizes[n]));
      VariableCovered(sizes[n]);
      JoinShadows(FrameShadow(sizes[..n]), VariableShadow(sizes[n]));
    }
  }

  lemma FirstShadow()
    ensures |FrameShadow([])| == 4 && IsShadow(FrameShadow([]))
  {
  }

  lemma JoinShadows(a: seq<int>, b: seq<int>)
    requires |a| % 4 == 0 && |b| % 4 == 0 && IsShadow(a) && IsShadow(b)
    ensures |a + b| % 4 == 0 && IsShadow(a + b)
  {
  }

  lemma SumAppend(l: seq<nat>, x: nat)
    ensures SumOf(l + [x]) == SumOf(l) + x && SumOf([]) == 0
  {
    assert (l + [x])[..|l|] == l;
  }

  lemma VariableCovered(size: nat)
    ensures AllocaSize(size) % RZ_SIZE == 0 && SHADOW_SCALE * |VariableShadow(size)| == AllocaSize(size)
    ensures |VariableShadow(size)| % 4 == 0 && IsShadow(VariableShadow(size))
  {
    hide VariableShadow, IsShadow, OffsetToAlignment;
    hide AllocaSize;
    AllocaUnits(size);
    UnitGranules(AllocaSize(size) / RZ_SIZE);
    ShadowValues(size);
  }

  /** A redzone unit is four granules. */
  lemma UnitGranules(q: nat)
    ensures RZ_SIZE * q / SHADOW_SCALE == 4 * q && SHADOW_SCALE * (RZ_SIZE * q / SHADOW_SCALE) == RZ_SIZE * q
    ensures RZ_SIZE * q / SHADOW_SCALE % 4 == 0
  {
  }

  lemma AllocaUnits(size: nat)
    ensures AllocaSize(size) % RZ_SIZE == 0
  {
  }

  lemma ShadowValues(size: nat)
    ensures |VariableShadow(size)| == AllocaSize(size) / SHADOW_SCALE && IsShadow(VariableShadow(size))
  {
    hide AllocaSize;
  }

  lemma AllocaHolds(size: nat)
    ensures AllocaSize(size) >= size + RZ_SIZE
  {
  }

  /** It is the least multiple of the redzone size that holds the variable and a redzone. */
  lemma AllocaLeast(size: nat, n: nat)
    requires n % RZ_SIZE == 0 && size + RZ_SIZE <= n
    ensures AllocaSize(size) % RZ_SIZE == 0 && AllocaSize(size) <= n
  {
    var a := AllocaSize(size);
    assert a % RZ_SIZE == 0 && a < size + 2 * RZ_SIZE;
    assert n == RZ_SIZE * (n / RZ_SIZE) && a == RZ_SIZE * (a / RZ_SIZE);
  }

  /** The alignment the new allocas ask for. */
  const ALLOCA_ALIGNMENT := 8

  function AllocaPieces(allocas: seq<nat>): seq<Piece> {
    seq(|allocas|, i requires 0 <= i < |allocas| => Piece(allocas[i], ALLOCA_ALIGNMENT))
  }

  /** Placed in order from an aligned address, the first alloca is the left redzone, and the one after the
      `k`-th before it is the variable `k`'s, at the place its shadow is made for. */
  lemma VariablePlaced(base: nat, sizes: seq<nat>, k: nat)
    requires base % ALLOCA_ALIGNMENT == 0 && k < |sizes|
    ensures |Allocas(sizes)| == |sizes| + 1
    ensures var pieces := AllocaPieces(Allocas(sizes));
            && PlaceOf(base, pieces, 0) == base && pieces[0].size == RZ_SIZE
            && PlaceOf(base, pieces, k + 1) == base + VariableAt(sizes, k) && pieces[k + 1].size == AllocaSize(sizes[k])
            && EndOfPieces(base, pieces) == base + SumOf(Allocas(sizes))
  {
    hide AllocaSize, FrameShadow, SumOf, EndOfPieces, OffsetToAlignment;
    AllocaPrefix(sizes, k);
    AllocaPrefix(sizes, 0);
    var pieces := AllocaPieces(Allocas(sizes));
    AllocasEnd(base, sizes);
    AllocasEnd(base, sizes[..k]);
    FrameCovered(sizes[..k]);
    assert pieces[..k + 1] == AllocaPieces(Allocas(sizes[..k]));
    AlignedAlready(base);
    AlignedAlready(base + VariableAt(sizes, k));
    NoPieces(base, pieces);
  }

  lemma NoPieces(base: nat, pieces: seq<Piece>)
    ensures EndOfPieces(base, pieces[..0]) == base
  {
  }

  lemma AlignedAlready(at: nat)
    ensures at % ALLOCA_ALIGNMENT == 0 ==> AlignedUp(at, ALLOCA_ALIGNMENT) == at
  {
  }

  lemma {:induction false} AllocaPrefix(sizes: seq<nat>, k: nat)
    requires k <= |sizes|
    ensures |Allocas(sizes)| == |sizes| + 1 && Allocas(sizes)[0] == RZ_SIZE
    ensures Allocas(sizes)[..k + 1] == Allocas(sizes[..k]) && (k < |sizes| ==> Allocas(sizes)[k + 1] == AllocaSize(sizes[k]))
  {
    hide AllocaSize;
    if sizes != [] {
      var n := |sizes| - 1;
      AllocaPrefix(sizes[..n], if k <= n then k else n);
      if k <= n { assert sizes[..n][..k] == sizes[..k]; } else { assert sizes[..k] == sizes; }
    }
  }

  lemma {:induction false} AllocasEnd(base: nat, sizes: seq<nat>)
    requires base % ALLOCA_ALIGNMENT == 0
    ensures EndOfPieces(base, AllocaPieces(Allocas(sizes))) == base + SumOf(Allocas(sizes))
    ensures EndOfPieces(base, AllocaPieces(Allocas(sizes))) % ALLOCA_ALIGNMENT == 0
  {
    hide AllocaSize, SumOf, EndOfPieces, OffsetToAlignment;
    if sizes == [] {
      NoPieces(base, []);
      assert AllocaPieces([]) == [] && [] + [RZ_SIZE] == [RZ_SIZE];
      SumAppend([], RZ_SIZE);
      AllocaAdded(base, [], RZ_SIZE);
    } else {
      var n := |sizes| - 1;
      AllocasEnd(base, sizes[..n]);
      AllocaUnits(sizes[n]);
      AllocaAdded(base, Allocas(sizes[..n]), AllocaSize(sizes[n]));
    }
  }

  lemma AllocaAdded(base: nat, older: seq<nat>, last: nat)
    requires EndOfPieces(base, AllocaPieces(older)) == base + SumOf(older) && (base + SumOf(older)) % ALLOCA_ALIGNMENT == 0 && last % RZ_SIZE == 0
    ensures EndOfPieces(base, AllocaPieces(older + [last])) == base + SumOf(older + [last])
    ensures (base + SumOf(older + [last])) % ALLOCA_ALIGNMENT == 0
  {
    hide SumOf, EndOfPieces, OffsetToAlignment, AlignedUp;
    SumAppend(older, last);
    assert AllocaPieces(older + [last]) == AllocaPieces(older) + [Piece(last, ALLOCA_ALIGNMENT)];
    PieceAdded(base, AllocaPieces(older), Piece(last, ALLOCA_ALIGNMENT));
    AlignedAlready(base + SumOf(older));
    UnitsOfEight(last);
    EightsAdd(base + SumOf(older), last);
  }

  lemma EightsAdd(a: nat, b: nat)
    requires a % ALLOCA_ALIGNMENT == 0 && b % ALLOCA_ALIGNMENT == 0
    ensures (a + b) % ALLOCA_ALIGNMENT == 0
  {
  }

  lemma UnitsOfEight(n: nat)
    ensures n % RZ_SIZE == 0 ==> n % ALLOCA_ALIGNMENT == 0
  {
    assert n % RZ_SIZE == 0 ==> n == ALLOCA_ALIGNMENT * (4 * (n / RZ_SIZE));
  }

  /** Each variable is followed by at least a redzone and lies inside the allocas. */
  lemma {:induction false} VariablesApart(sizes: seq<nat>, k: nat)
    requires k < |sizes|
    ensures RZ_SIZE <= VariableAt(sizes, k)
    ensures VariableAt(sizes, k) + sizes[k] + RZ_SIZE <= (if k + 1 < |sizes| then VariableAt(sizes, k + 1) else SHADOW_SCALE * |FrameShadow(sizes)|)
  {
    hide AllocaSize, VariableShadow, OffsetToAlignment;
    assert sizes[..k + 1][..k] == sizes[..k];
    FrameAtLeastRedzone(sizes[..k]);
    VariableCovered(sizes[k]);
    AllocaHolds(sizes[k]);
    if k + 1 == |sizes| { assert sizes[..k + 1] == sizes; }
  }

  lemma {:induction false} FrameAtLeastRedzone(sizes: seq<nat>)
    ensures |FrameShadow(sizes)| >= RZ_SIZE / SHADOW_SCALE
  {
    if sizes != [] {
      FrameAtLeastRedzone(sizes[..|sizes| - 1]);
    }
  }

  /** The frame's shadow lets a byte be accessed exactly when it belongs to a variable. */
  lemma {:induction false} FrameByte(sizes: seq<nat>, a: nat)
    requires a / SHADOW_SCALE < |FrameShadow(sizes)|
    ensures Addressable(FrameShadow(sizes), a) <==> InSomeVariable(sizes, a)
  {
    hide VariableShadow, AllocaSize, InVariable;
    if sizes != [] {
      var n := |sizes| - 1;
      var older, start := sizes[..n], SHADOW_SCALE * |FrameShadow(sizes[..n])|;
      forall k | 0 <= k < n ensures InVariable(sizes, k, a) <==> InVariable(older, k, a) { SameVariable(sizes, n, k, a); }
      LastVariable(sizes, a);
      if a < start {
        FrameByte(older, a);
        assert InSomeVariable(sizes, a) <==> InSomeVariable(older, a);
      } else {
        forall k | 0 <= k < n ensures !InVariable(older, k, a) { BeforeEnd(older, k, a); }
      }
    }
  }

  lemma SameVariable(sizes: seq<nat>, n: nat, k: nat, a: int)
    requires k < n <= |sizes|
    ensures InVariable(sizes, k, a) <==> InVariable(sizes[..n], k, a)
  {
    assert sizes[..n][..k] == sizes[..k];
  }

  /** Before the last variable's shadow a byte is not in it, and from there on its shadow decides. */
  lemma LastVariable(sizes: seq<nat>, a: nat)
    requires sizes != [] && a / SHADOW_SCALE < |FrameShadow(sizes)|
    ensures var n := |sizes| - 1;
            if a < VariableAt(sizes, n) then !InVariable(sizes, n, a)
            else InVariable(sizes, n, a) <==> Addressable(FrameShadow(sizes), a)
  {
    var n := |sizes| - 1;
    ObjectByte(0, sizes[n], STACK_POISON, a - VariableAt(sizes, n));
  }

  lemma {:induction false} BeforeEnd(sizes: seq<nat>, k: nat, a: int)
    requires k < |sizes| && SHADOW_SCALE * |FrameShadow(sizes)| <= a
    ensures !InVariable(sizes, k, a)
  {
    var n := |sizes| - 1;
    if k < n {
      BeforeEnd(sizes[..n], k, a);
      SameVariable(sizes, n, k, a);
    }
  }

  /** From entry to return: with the new allocas laid out from the aligned address `base` over a
      clear shadow, a byte of the frame is accessible exactly when it belongs to a variable, no other
      byte's shadow changes, and the stores replayed at the return clear the frame again. */
  lemma FramePoisoned(shadow: seq<int>, base: nat, sizes: seq<nat>, a: nat)
    requires sizes != [] && base % SHADOW_SCALE == 0 && base + SumOf(Allocas(sizes)) <= SHADOW_SCALE * |shadow|
    requires forall g :: base / SHADOW_SCALE <= g < (base + SumOf(Allocas(sizes))) / SHADOW_SCALE ==> shadow[g] == 0
    requires a < SHADOW_SCALE * |shadow|
    ensures var first, stores := base / SHADOW_SCALE, Pack(FrameShadow(sizes), 0);
            && StoresFit(shadow, first, stores) && StoresFit(shadow, first, Cleared(stores))
            && (base <= a < base + SumOf(Allocas(sizes)) ==>
                  (Addressable(Applied(shadow, first, stores), a) <==> InSomeVariable(sizes, a - base)))
            && (!(base <= a < base + SumOf(Allocas(sizes))) ==> Applied(shadow, first, stores)[a / SHADOW_SCALE] == shadow[a / SHADOW_SCALE])
            && Applied(Applied(shadow, first, stores), first, Cleared(stores)) == shadow
  {
    hide Pack, Applied, Cleared, StoresFit, InSomeVariable, FrameShadow, Allocas, SumOf;
    var first, l, stores := base / SHADOW_SCALE, FrameShadow(sizes), Pack(FrameShadow(sizes), 0);
    FrameCovered(sizes);
    PackFits(shadow, first, l, 0);
    var after := Applied(shadow, first, stores);
    PackWrites(shadow, first, l, 0, a / SHADOW_SCALE);
    if base <= a < base + SumOf(Allocas(sizes)) {
      assert (a - base) / SHADOW_SCALE == a / SHADOW_SCALE - first && (a - base) % SHADOW_SCALE == a % SHADOW_SCALE;
      FrameByte(sizes, a - base);
    }
    PackFits(after, first, l, 0);
    forall g | 0 <= g < |shadow| ensures Applied(after, first, Cleared(stores))[g] == shadow[g] {
      PackWrites(shadow, first, l, 0, g);
      ClearedRestores(after, first, l, 0, g);
    }
  }

  lemma {:induction false} FrameWellFormed(sizes: seq<nat>)
    ensures WellFormed(FrameShadow(sizes))
  {
    hide VariableShadow, AllocaSize;
    if sizes != [] {
      FrameWellFormed(sizes[..|sizes| - 1]);
      VariableWellFormed(sizes[|sizes| - 1]);
    }
  }

  lemma VariableWellFormed(size: nat)
    ensures WellFormed(VariableShadow(size))
  {
    hide AllocaSize;
  }
}
