/** Redzones around globals: laid out by the compiler, poisoned by the runtime at start. */
module AsanGlobals {
  import opened Bytes
  import opened AsanShadow
  import I = AsanInstrumentation

  datatype GlobalVariable = GlobalVariable(numBytes: nat, alignment: nat)

  /** A declaration of the instrumented program, in the order and with the alignment it is laid out. */
  datatype Decl = Redzone(size: nat, alignment: I.Alignment) | Variable(size: nat, alignment: I.Alignment)

  function RightSize(n: nat): nat { RZ_SIZE + I.OffsetToAlignment(n, RZ_SIZE) }

  function TripleSize(n: nat): nat { RZ_SIZE + n + RightSize(n) }

  function Triples(globals: seq<GlobalVariable>): seq<Decl> {
    if globals == [] then [] else
    var n := globals[|globals| - 1].numBytes;
    Triples(globals[..|globals| - 1]) + [Redzone(RZ_SIZE, RZ_SIZE), Variable(n, RZ_SIZE), Redzone(RightSize(n), 1)]
  }

  /** The `__$rz_sizes` array: four little-endian bytes for each redzone. */
  function SizeBytes(globals: seq<GlobalVariable>): seq<byte>
    requires forall i :: 0 <= i < |globals| ==> TripleSize(globals[i].numBytes) < 0x1_0000_0000
  {
    if globals == [] then [] else
    var n := globals[|globals| - 1].numBytes;
    SizeBytes(globals[..|globals| - 1]) + Bytes32(RZ_SIZE) + Bytes32(RightSize(n))
  }

  function Max(a: nat, b: nat): nat { if a < b then b else a }

  method SizeToByteVec(size: uint32) returns (contents: seq<byte>)
    ensures contents == Bytes32(size)
  {
    var rest: nat := size;
    contents := [];
    for i := 0 to 4
      invariant |contents| == i && contents == Bytes32(size)[..i]
      invariant rest == [size as nat, size / 0x100, size / 0x1_0000, size / 0x100_0000, 0][i]
    {
      contents := contents + [rest % 0x100];
      rest := rest / 0x100;
    }
  }

  /** The compiler's loop over the globals.  The source asserts that none wants more alignment than a
      redzone gives. */
  method InstrumentGlobals(globals: seq<GlobalVariable>) returns (decls: seq<Decl>, rzSizes: seq<byte>, rzNum: nat)
    requires forall i :: 0 <= i < |globals| ==> globals[i].alignment <= RZ_SIZE && TripleSize(globals[i].numBytes) < 0x1_0000_0000
    ensures decls == Triples(globals) && rzSizes == SizeBytes(globals) && rzNum == 2 * |globals|
  {
    hide Bytes32;
    decls, rzSizes, rzNum := [], [], 0;
    for i := 0 to |globals|
      invariant decls == Triples(globals[..i]) && rzSizes == SizeBytes(globals[..i]) && rzNum == 2 * i
    {
      var global := globals[i];
      var alignment := Max(RZ_SIZE, global.alignment);
      var rzLeftSize := alignment;
      var rzRightSize := RZ_SIZE + I.OffsetToAlignment(global.numBytes, alignment);
      assert globals[..i + 1][..i] == globals[..i];
      decls := decls + [Redzone(rzLeftSize, alignment), Variable(global.numBytes, alignment), Redzone(rzRightSize, 1)];
      var left := SizeToByteVec(rzLeftSize);
      var right := SizeToByteVec(rzRightSize);
      rzSizes := rzSizes + left + right;
      rzNum := rzNum + 2;
    }
    assert globals[..|globals|] == globals;
  }

  // --- Layout and start-up ---

  /** Where the triples end when they are laid out one after another from `base`. */
  function EndOf(base: nat, globals: seq<GlobalVariable>): nat {
    if globals == [] then base else EndOf(base, globals[..|globals| - 1]) + TripleSize(globals[|globals| - 1].numBytes)
  }

  /** Where the linker put the redzones: the contents of `__$rz_array`. */
  function RedzonesAt(base: nat, globals: seq<GlobalVariable>): (r: seq<nat>)
    ensures |r| == 2 * |globals|
  {
    if globals == [] then [] else
    var older := globals[..|globals| - 1];
    var at := EndOf(base, older);
    RedzonesAt(base, older) + [at, at + RZ_SIZE + globals[|globals| - 1].numBytes]
  }

  function InitShadow(shadow: seq<int>, base: nat, globals: seq<GlobalVariable>): (r: seq<int>)
    requires EndOf(base, globals) <= SHADOW_SCALE * |shadow|
    ensures |r| == |shadow|
  {
    if globals == [] then shadow else
    var older, n := globals[..|globals| - 1], globals[|globals| - 1].numBytes;
    var at := EndOf(base, older);
    Poisoned(Poisoned(InitShadow(shadow, base, older), at, RZ_SIZE, GLOBAL_POISON), at + RZ_SIZE + n, RightSize(n), GLOBAL_POISON)
  }

  // --- Where the linker puts the declarations ---

  function Pieces(decls: seq<Decl>): seq<I.Piece> {
    seq(|decls|, i requires 0 <= i < |decls| => I.Piece(decls[i].size, decls[i].alignment))
  }

  /** Placed in order from any address, each at its own alignment, the declarations of a global are its left
      redzone, itself and its right redzone, where the layout has them and of the sizes that the table says. */
  lemma TriplePlaced(from: nat, globals: seq<GlobalVariable>, k: nat)
    requires forall i :: 0 <= i < |globals| ==> TripleSize(globals[i].numBytes) < 0x1_0000_0000
    requires k < |globals|
    ensures |Triples(globals)| == 3 * |globals| && |SizeBytes(globals)| == 8 * |globals|
    ensures var base := I.AlignedUp(from, RZ_SIZE);
            var d, at, n := Triples(globals), EndOf(base, globals[..k]), globals[k].numBytes;
            var pieces, rzs, sizes := Pieces(d), RedzonesAt(base, globals), SizeBytes(globals);
            && d[3 * k].Redzone? && d[3 * k].size == Load32(sizes, 8 * k) && I.PlaceOf(from, pieces, 3 * k) == rzs[2 * k]
            && d[3 * k + 1].Variable? && d[3 * k + 1].size == n && I.PlaceOf(from, pieces, 3 * k + 1) == at + RZ_SIZE
            && d[3 * k + 2].Redzone? && d[3 * k + 2].size == Load32(sizes, 8 * k + 4) && I.PlaceOf(from, pieces, 3 * k + 2) == rzs[2 * k + 1]
            && I.EndOfPieces(from, pieces) == EndOf(base, globals)
  {
    hide Load32, SizeBytes, RedzonesAt, EndOf, TripleSize, RightSize, I.EndOfPieces, I.AlignedUp, I.PlaceOf, Pieces, Triples;
    var base := I.AlignedUp(from, RZ_SIZE);
    var older, n, at := Triples(globals[..k]), globals[k].numBytes, EndOf(base, globals[..k]);
    TriplePrefix(globals, k);
    TriplesEnd(from, globals);
    RedzonePrefix(base, globals, k);
    SizePrefix(globals, k);
    TriplesEnd(from, globals[..k]);
    ThreePlaces(from, Triples(globals), older, 3 * k, at, n);
  }

  lemma ThreePlaces(from: nat, d: seq<Decl>, older: seq<Decl>, m: nat, at: nat, n: nat)
    requires m + 3 <= |d| && d[..m] == older && d[m] == Redzone(RZ_SIZE, RZ_SIZE) && d[m + 1] == Variable(n, RZ_SIZE) && d[m + 2] == Redzone(RightSize(n), 1)
    requires I.AlignedUp(I.EndOfPieces(from, Pieces(older)), RZ_SIZE) == at
    ensures var pieces := Pieces(d);
            && I.PlaceOf(from, pieces, m) == at && I.PlaceOf(from, pieces, m + 1) == at + RZ_SIZE
            && I.PlaceOf(from, pieces, m + 2) == at + RZ_SIZE + n
  {
    hide RightSize, I.EndOfPieces, I.AlignedUp;
    var pieces, left := Pieces(d), Pieces(older) + [I.Piece(RZ_SIZE, RZ_SIZE)];
    ThreePlaced(from, Pieces(older), at, n);
    assert pieces[..m] == Pieces(older) && pieces[..m + 1] == left && pieces[..m + 2] == left + [I.Piece(n, RZ_SIZE)];
  }

  lemma {:induction false} TriplePrefix(globals: seq<GlobalVariable>, k: nat)
    requires k < |globals|
    ensures |Triples(globals)| == 3 * |globals| && Triples(globals)[..3 * k] == Triples(globals[..k])
    ensures var d, n := Triples(globals), globals[k].numBytes;
            d[3 * k] == Redzone(RZ_SIZE, RZ_SIZE) && d[3 * k + 1] == Variable(n, RZ_SIZE) && d[3 * k + 2] == Redzone(RightSize(n), 1)
  {
    hide RightSize;
    var m := |globals| - 1;
    TriplesLength(globals[..m]);
    if k < m {
      TriplePrefix(globals[..m], k);
      assert globals[..m][..k] == globals[..k];
    }
  }

  lemma {:induction false} TriplesLength(globals: seq<GlobalVariable>)
    ensures |Triples(globals)| == 3 * |globals|
  {
    if globals != [] { TriplesLength(globals[..|globals| - 1]); }
  }

  /** A triple behind other pieces. */
  lemma ThreePlaced(from: nat, pieces: seq<I.Piece>, at: nat, n: nat)
    requires I.AlignedUp(I.EndOfPieces(from, pieces), RZ_SIZE) == at
    ensures var left := pieces + [I.Piece(RZ_SIZE, RZ_SIZE)];
            var both := left + [I.Piece(n, RZ_SIZE)];
            && I.AlignedUp(I.EndOfPieces(from, left), RZ_SIZE) == at + RZ_SIZE
            && I.AlignedUp(I.EndOfPieces(from, both), 1) == at + RZ_SIZE + n
            && I.EndOfPieces(from, both + [I.Piece(RightSize(n), 1)]) == at + TripleSize(n)
            && I.AlignedUp(at + TripleSize(n), RZ_SIZE) == at + TripleSize(n)
  {
    hide I.EndOfPieces, RightSize, I.AlignedUp;
    var left := pieces + [I.Piece(RZ_SIZE, RZ_SIZE)];
    I.PieceAdded(from, pieces, I.Piece(RZ_SIZE, RZ_SIZE));
    I.PieceAdded(from, left, I.Piece(n, RZ_SIZE));
    I.PieceAdded(from, left + [I.Piece(n, RZ_SIZE)], I.Piece(RightSize(n), 1));
    UnitAligned(I.EndOfPieces(from, pieces));
    UnitAligned(at + RZ_SIZE);
    ByteAligned(at + RZ_SIZE + n);
    TripleAligned(n);
    SumAligned(at, RZ_SIZE);
    SumAligned(at, TripleSize(n));
    UnitAligned(at + TripleSize(n));
  }

  lemma UnitAligned(at: nat)
    ensures I.AlignedUp(at, RZ_SIZE) % RZ_SIZE == 0 && (at % RZ_SIZE == 0 ==> I.AlignedUp(at, RZ_SIZE) == at)
  {
  }

  lemma ByteAligned(at: nat)
    ensures I.AlignedUp(at, 1) == at
  {
  }

  lemma {:induction false} TriplesEnd(from: nat, globals: seq<GlobalVariable>)
    ensures var base, end := I.AlignedUp(from, RZ_SIZE), I.EndOfPieces(from, Pieces(Triples(globals)));
            I.AlignedUp(end, RZ_SIZE) == EndOf(base, globals) && (globals != [] ==> end == EndOf(base, globals))
  {
    hide RightSize, TripleSize, I.EndOfPieces, I.AlignedUp;
    if globals == [] {
      I.NoPieces(from, []);
      assert Pieces([]) == [];
    } else {
      var older, n := globals[..|globals| - 1], globals[|globals| - 1].numBytes;
      TriplesEnd(from, older);
      var p := Pieces(Triples(older));
      ThreePlaced(from, p, EndOf(I.AlignedUp(from, RZ_SIZE), older), n);
      assert Pieces(Triples(globals)) == p + [I.Piece(RZ_SIZE, RZ_SIZE)] + [I.Piece(n, RZ_SIZE)] + [I.Piece(RightSize(n), 1)];
    }
  }

  /** Every triple is a whole number of redzone units, so each starts aligned. */
  lemma {:induction false} TriplesAligned(base: nat, globals: seq<GlobalVariable>)
    requires base % RZ_SIZE == 0
    ensures EndOf(base, globals) % RZ_SIZE == 0 && base <= EndOf(base, globals)
  {
    hide TripleSize;
    if globals != [] {
      var n := globals[|globals| - 1].numBytes;
      TriplesAligned(base, globals[..|globals| - 1]);
      TripleAligned(n);
      SumAligned(EndOf(base, globals[..|globals| - 1]), TripleSize(n));
    }
  }

  lemma SumAligned(a: int, b: int)
    requires a % RZ_SIZE == 0 && b % RZ_SIZE == 0
    ensures (a + b) % RZ_SIZE == 0
  {
    assert a + b == RZ_SIZE * (a / RZ_SIZE + b / RZ_SIZE);
  }

  lemma TripleAligned(n: nat)
    ensures TripleSize(n) % RZ_SIZE == 0
  {
  }

  lemma {:induction false} EndGrows(base: nat, globals: seq<GlobalVariable>, i: nat)
    requires i <= |globals|
    ensures EndOf(base, globals[..i]) <= EndOf(base, globals)
  {
    if i < |globals| {
      EndGrows(base, globals[..|globals| - 1], i);
      assert globals[..|globals| - 1][..i] == globals[..i];
    } else {
      assert globals[..i] == globals;
    }
  }

  lemma {:induction false} RedzonePrefix(base: nat, globals: seq<GlobalVariable>, i: nat)
    requires i < |globals|
    ensures var at := EndOf(base, globals[..i]);
            RedzonesAt(base, globals)[2 * i] == at && RedzonesAt(base, globals)[2 * i + 1] == at + RZ_SIZE + globals[i].numBytes
  {
    var older := globals[..|globals| - 1];
    if i < |globals| - 1 {
      RedzonePrefix(base, older, i);
      assert older[..i] == globals[..i];
    }
  }

  lemma {:induction false} SizePrefix(globals: seq<GlobalVariable>, i: nat)
    requires forall k :: 0 <= k < |globals| ==> TripleSize(globals[k].numBytes) < 0x1_0000_0000
    requires i < |globals|
    ensures |SizeBytes(globals)| == 8 * |globals|
    ensures Load32(SizeBytes(globals), 8 * i) == RZ_SIZE && Load32(SizeBytes(globals), 8 * i + 4) == RightSize(globals[i].numBytes)
  {
    hide Bytes32, Load32, RightSize, TripleSize;
    var n := |globals| - 1;
    var older := globals[..n];
    if n > 0 { SizePrefix(older, if i < n then i else 0); }
    SizeTail(SizeBytes(older), RZ_SIZE, SmallSize(globals[n].numBytes), if i < n then 8 * i else 0);
    if i < n { SizeTail(SizeBytes(older), RZ_SIZE, SmallSize(globals[n].numBytes), 8 * i + 4); }
  }

  /** The size of a right redzone is a word. */
  function SmallSize(n: nat): (w: uint32)
    ensures w == RightSize(n)
  {
    RightAtLeast(n);
    RightSize(n)
  }

  /** Two more words leave those before them as they are and read back behind them. */
  lemma SizeTail(s: seq<byte>, a: uint32, b: uint32, p: nat)
    ensures var all := s + Bytes32(a) + Bytes32(b);
            && Load32(all, |s|) == a && Load32(all, |s| + 4) == b && (p + 4 <= |s| ==> Load32(all, p) == Load32(s, p))
  {
    hide Bytes32, Load32;
    var all := s + Bytes32(a) + Bytes32(b);
    assert all[|s|..|s| + 4] == Bytes32(a) && all[|s| + 4..|s| + 8] == Bytes32(b);
    LoadBytes32(all, |s|, a);
    LoadBytes32(all, |s| + 4, b);
    if p + 4 <= |s| { LoadFrame(s, all, p); }
  }

  /** The shadow after the first `i` calls of the loop in `__asan_init`. */
  function Replayed(shadow: seq<int>, rzs: seq<nat>, rzSizes: seq<byte>, i: nat): (r: seq<int>)
    requires i <= |rzs| && 4 * i <= |rzSizes| && forall k :: 0 <= k < i ==> PoisonOk(|shadow|, rzs[k], Load32(rzSizes, 4 * k))
    ensures |r| == |shadow|
  {
    if i == 0 then shadow else
    assert PoisonOk(|shadow|, rzs[i - 1], Load32(rzSizes, 4 * (i - 1)));
    Poisoned(Replayed(shadow, rzs, rzSizes, i - 1), rzs[i - 1], Load32(rzSizes, 4 * (i - 1)), GLOBAL_POISON)
  }

  /** The loop of `__asan_init`. */
  method Init(shadow: array<int>, rzs: seq<nat>, rzSizes: seq<byte>)
    requires 4 * |rzs| == |rzSizes| && forall k :: 0 <= k < |rzs| ==> PoisonOk(shadow.Length, rzs[k], Load32(rzSizes, 4 * k))
    modifies shadow
    ensures shadow[..] == Replayed(old(shadow[..]), rzs, rzSizes, |rzs|)
  {
    hide Load32, Poisoned;
    for i := 0 to |rzs|
      invariant shadow[..] == Replayed(old(shadow[..]), rzs, rzSizes, i)
    {
      Poison(shadow, rzs[i], Load32(rzSizes, 4 * i), GLOBAL_POISON);
    }
  }

  /** What the compiler lays out is what start-up expects: every call meets the assertions of
      `__asan_poison`, and together they poison each triple's redzones. */
  lemma {:induction false} InitMeetsLayout(shadow: seq<int>, base: nat, globals: seq<GlobalVariable>, m: nat)
    requires forall i :: 0 <= i < |globals| ==> TripleSize(globals[i].numBytes) < 0x1_0000_0000
    requires base % RZ_SIZE == 0 && EndOf(base, globals) <= SHADOW_SCALE * |shadow| && m <= |globals|
    ensures |SizeBytes(globals)| == 4 * |RedzonesAt(base, globals)| && EndOf(base, globals[..m]) <= SHADOW_SCALE * |shadow|
    ensures forall k :: 0 <= k < 2 * m ==> PoisonOk(|shadow|, RedzonesAt(base, globals)[k], Load32(SizeBytes(globals), 4 * k))
    ensures Replayed(shadow, RedzonesAt(base, globals), SizeBytes(globals), 2 * m) == InitShadow(shadow, base, globals[..m])
    decreases m
  {
    hide Load32, Poisoned, SizeBytes, RedzonesAt, TripleSize, RightSize, PoisonOk, EndOf;
    EndGrows(base, globals, m);
    if m == 0 {
      SizesLength(globals);
    } else {
      InitMeetsLayout(shadow, base, globals, m - 1);
      TripleInit(|shadow|, base, globals, m - 1);
      assert globals[..m][..m - 1] == globals[..m - 1];
      assert 4 * (2 * m - 2) == 8 * (m - 1) && 4 * (2 * m - 1) == 8 * (m - 1) + 4;
      forall k | 0 <= k < 2 * m ensures PoisonOk(|shadow|, RedzonesAt(base, globals)[k], Load32(SizeBytes(globals), 4 * k)) {
        assert k < 2 * m - 2 || k == 2 * (m - 1) || k == 2 * (m - 1) + 1;
      }
    }
  }

  lemma {:induction false} SizesLength(globals: seq<GlobalVariable>)
    requires forall i :: 0 <= i < |globals| ==> TripleSize(globals[i].numBytes) < 0x1_0000_0000
    ensures |SizeBytes(globals)| == 8 * |globals|
  {
    if globals != [] { SizesLength(globals[..|globals| - 1]); }
  }

  /** The redzones of an aligned triple are ranges the poisoning function accepts. */
  lemma TripleOk(granules: nat, at: nat, n: nat)
    requires at % RZ_SIZE == 0 && at + TripleSize(n) <= SHADOW_SCALE * granules
    ensures PoisonOk(granules, at, RZ_SIZE) && PoisonOk(granules, at + RZ_SIZE + n, RightSize(n))
  {
    hide RightSize;
    TripleAligned(n);
    RightAtLeast(n);
    SumAligned(at, TripleSize(n));
    UnitEnd(at + RZ_SIZE, at + RZ_SIZE + n);
    UnitEnd(at + TripleSize(n), 0);
  }

  lemma RightAtLeast(n: nat)
    ensures RZ_SIZE <= RightSize(n) < 2 * RZ_SIZE
  {
  }

  lemma EndStep(base: nat, globals: seq<GlobalVariable>, k: nat)
    requires k < |globals|
    ensures EndOf(base, globals[..k + 1]) == EndOf(base, globals[..k]) + TripleSize(globals[k].numBytes)
  {
    assert globals[..k + 1][..k] == globals[..k];
  }

  lemma TripleInit(granules: nat, base: nat, globals: seq<GlobalVariable>, k: nat)
    requires forall i :: 0 <= i < |globals| ==> TripleSize(globals[i].numBytes) < 0x1_0000_0000
    requires base % RZ_SIZE == 0 && EndOf(base, globals) <= SHADOW_SCALE * granules && k < |globals|
    ensures |SizeBytes(globals)| == 8 * |globals| && EndOf(base, globals[..k + 1]) <= SHADOW_SCALE * granules
    ensures var rzs, sizes, at := RedzonesAt(base, globals), SizeBytes(globals), EndOf(base, globals[..k]);
            && rzs[2 * k] == at && Load32(sizes, 8 * k) == RZ_SIZE
            && rzs[2 * k + 1] == at + RZ_SIZE + globals[k].numBytes && Load32(sizes, 8 * k + 4) == RightSize(globals[k].numBytes)
            && PoisonOk(granules, rzs[2 * k], RZ_SIZE) && PoisonOk(granules, rzs[2 * k + 1], RightSize(globals[k].numBytes))
  {
    hide Load32, SizeBytes, RedzonesAt, EndOf, TripleSize, RightSize, PoisonOk;
    RedzonePrefix(base, globals, k);
    SizePrefix(globals, k);
    TriplesAligned(base, globals[..k]);
    EndGrows(base, globals, k + 1);
    EndStep(base, globals, k);
    TripleOk(granules, EndOf(base, globals[..k]), globals[k].numBytes);
  }

  // --- What start-up leaves ---

  predicate InGlobal(base: nat, globals: seq<GlobalVariable>, k: nat, a: int)
    requires k < |globals|
  {
    var start := EndOf(base, globals[..k]) + RZ_SIZE;
    start <= a < start + globals[k].numBytes
  }

  ghost predicate InSomeGlobal(base: nat, globals: seq<GlobalVariable>, a: int) {
    exists k :: 0 <= k < |globals| && InGlobal(base, globals, k, a)
  }

  /** Ends of redzone units are ends of granules. */
  lemma UnitEnd(end: nat, a: nat)
    requires end % RZ_SIZE == 0
    ensures end % SHADOW_SCALE == 0 && (end <= a <==> end <= SHADOW_SCALE * (a / SHADOW_SCALE))
  {
    var p, g := end / RZ_SIZE, a / SHADOW_SCALE;
    assert end == SHADOW_SCALE * (4 * p);
    assert a == SHADOW_SCALE * g + a % SHADOW_SCALE;
    assert end <= a ==> 4 * p <= g;
  }

  /** Poisoning one triple over a clear shadow leaves exactly the global's own bytes accessible. */
  lemma TripleByte(shadow: seq<int>, at: nat, n: nat, a: nat)
    requires at % RZ_SIZE == 0 && at + TripleSize(n) <= SHADOW_SCALE * |shadow| && a < SHADOW_SCALE * |shadow|
    requires at <= a < at + TripleSize(n) ==> shadow[a / SHADOW_SCALE] == 0
    ensures at / SHADOW_SCALE < |shadow| && (at + RZ_SIZE + n) / SHADOW_SCALE < |shadow|
    ensures var r := Poisoned(Poisoned(shadow, at, RZ_SIZE, GLOBAL_POISON), at + RZ_SIZE + n, RightSize(n), GLOBAL_POISON);
            if at <= a < at + TripleSize(n) then Addressable(r, a) <==> at + RZ_SIZE <= a < at + RZ_SIZE + n
            else r[a / SHADOW_SCALE] == shadow[a / SHADOW_SCALE]
  {
    hide Poisoned, ObjectShadow, RightSize;
    TripleAligned(n);
    RightAtLeast(n);
    SumAligned(at, TripleSize(n));
    UnitEnd(at, a);
    UnitEnd(at + TripleSize(n), a);
    UnitEnd(at + RZ_SIZE, a);
    ObjectGranule(shadow, at, n, RightSize(n), GLOBAL_POISON, a / SHADOW_SCALE);
    ObjectByte(at + RZ_SIZE, n, GLOBAL_POISON, a);
  }

  /** After start-up over a clear shadow, a byte of the globals' memory may be accessed exactly when it
      belongs to a global, and no other byte's shadow has changed. */
  lemma {:induction false} GlobalsPoisoned(shadow: seq<int>, base: nat, globals: seq<GlobalVariable>, a: nat)
    requires base % RZ_SIZE == 0 && EndOf(base, globals) <= SHADOW_SCALE * |shadow| && a < SHADOW_SCALE * |shadow|
    requires base <= a < EndOf(base, globals) ==> shadow[a / SHADOW_SCALE] == 0
    ensures if base <= a < EndOf(base, globals) then Addressable(InitShadow(shadow, base, globals), a) <==> InSomeGlobal(base, globals, a)
            else InitShadow(shadow, base, globals)[a / SHADOW_SCALE] == shadow[a / SHADOW_SCALE]
  {
    hide Poisoned, InGlobal, TripleSize, RightSize;
    if globals != [] {
      var m := |globals| - 1;
      var older, n := globals[..m], globals[m].numBytes;
      var at := EndOf(base, older);
      GlobalsPoisoned(shadow, base, older, a);
      TriplesAligned(base, older);
      TripleByte(InitShadow(shadow, base, older), at, n, a);
      InLast(base, globals, a);
      forall k | 0 <= k < m ensures InGlobal(base, globals, k, a) <==> InGlobal(base, older, k, a) { SameGlobal(base, globals, m, k, a); }
      if at <= a {
        forall k | 0 <= k < m ensures !InGlobal(base, older, k, a) { GlobalBeforeEnd(base, older, k, a); }
      }
    }
  }

  lemma SameGlobal(base: nat, globals: seq<GlobalVariable>, m: nat, k: nat, a: int)
    requires k < m <= |globals|
    ensures InGlobal(base, globals, k, a) <==> InGlobal(base, globals[..m], k, a)
  {
    assert globals[..m][..k] == globals[..k];
  }

  lemma InLast(base: nat, globals: seq<GlobalVariable>, a: int)
    requires globals != []
    ensures var m := |globals| - 1;
            InGlobal(base, globals, m, a) <==> EndOf(base, globals[..m]) + RZ_SIZE <= a < EndOf(base, globals[..m]) + RZ_SIZE + globals[m].numBytes
  {
  }

  lemma {:induction false} GlobalBeforeEnd(base: nat, globals: seq<GlobalVariable>, k: nat, a: int)
    requires k < |globals| && EndOf(base, globals) <= a
    ensures !InGlobal(base, globals, k, a)
  {
    var m := |globals| - 1;
    if k < m {
      GlobalBeforeEnd(base, globals[..m], k, a);
      SameGlobal(base, globals, m, k, a);
    }
  }

  lemma {:induction false} InitWellFormed(shadow: seq<int>, base: nat, globals: seq<GlobalVariable>)
    requires WellFormed(shadow) && EndOf(base, globals) <= SHADOW_SCALE * |shadow|
    ensures WellFormed(InitShadow(shadow, base, globals))
  {
    hide Poisoned, WellFormed;
    if globals != [] {
      var older, n := globals[..|globals| - 1], globals[|globals| - 1].numBytes;
      var at := EndOf(base, older);
      InitWellFormed(shadow, base, older);
      PoisonedWellFormed(InitShadow(shadow, base, older), at, RZ_SIZE, GLOBAL_POISON);
      PoisonedWellFormed(Poisoned(InitShadow(shadow, base, older), at, RZ_SIZE, GLOBAL_POISON), at + RZ_SIZE + n, RightSize(n), GLOBAL_POISON);
    }
  }
}
