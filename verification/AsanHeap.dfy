/** What the shadow and the memory of the heap mean: blocks with redzones, live or in quarantine, amid
    shadow that belongs to others. */
module AsanHeap {
  import opened Bytes
  import opened AsanShadow
  import opened AsanMemory

  const QUARANTINE_MAX_SIZE := 0x1000_0000

  /** A system block that starts with its left redzone at `base` and serves `size` user bytes. */
  datatype Block = Block(base: nat, size: nat) {
    function Ptr(): nat { base + RZ_SIZE }
    function RzRight(): nat { base + RZ_SIZE + size }
    function RzRightSize(): nat { RZ_SIZE + if size % SHADOW_SCALE == 0 then 0 else SHADOW_SCALE - size % SHADOW_SCALE }
    function Total(): nat { RZ_SIZE + size + RzRightSize() }
    function End(): nat { base + Total() }
    predicate Has(a: int) { base <= a < End() }
    predicate Serves(a: int) { Ptr() <= a < RzRight() }
  }

  datatype Heap = Heap(live: set<Block>, quarantine: seq<Block>)

  const EMPTY_HEAP := Heap({}, [])

  predicate Apart(b: Block, c: Block) { b.End() <= c.base || c.End() <= b.base }

  predicate Owned(h: Heap, b: Block) { b in h.live || b in h.quarantine }

  /** Blocks come from the system aligned, inside the shadowed memory, and disjoint. */
  predicate Placed(b: Block, granules: nat) {
    && b.base > 0 && b.base % SHADOW_SCALE == 0 && b.End() <= SHADOW_SCALE * granules && b.End() <= ADDRESS_LIMIT
  }

  ghost predicate Disjoint(h: Heap, granules: nat) {
    && (forall b :: Owned(h, b) ==> Placed(b, granules))
    && (forall b, c :: Owned(h, b) && Owned(h, c) && b != c ==> Apart(b, c))
    && (forall i :: 0 <= i < |h.quarantine| ==> h.quarantine[i] !in h.live)
    && (forall i, j :: 0 <= i < j < |h.quarantine| ==> h.quarantine[i] != h.quarantine[j])
  }

  /** A block the system may hand out: apart from the others, where nothing else is poisoned. */
  ghost predicate Fresh(h: Heap, b: Block, around: seq<int>) {
    && Placed(b, |around|) && (forall c :: Owned(h, c) ==> Apart(b, c))
    && forall g :: 0 <= g < |around| && b.Has(SHADOW_SCALE * g) ==> around[g] == 0
  }

  /** The shadow of a live block's granule. */
  function LiveShadow(b: Block, g: int): int { ObjectShadow(b.Ptr(), b.size, HEAP_POISON, g) }

  /** The whole shadow as a function of the heap and of the shadow around it, which is clear under the
      heap's blocks. */
  ghost predicate Shadows(shadow: seq<int>, h: Heap, around: seq<int>) {
    && |around| == |shadow|
    && (forall b, g :: Owned(h, b) && 0 <= g < |shadow| && b.Has(SHADOW_SCALE * g) ==> around[g] == 0)
    && (forall b, g :: b in h.live && 0 <= g < |shadow| && b.Has(SHADOW_SCALE * g) ==> shadow[g] == LiveShadow(b, g))
    && (forall i, g :: 0 <= i < |h.quarantine| && 0 <= g < |shadow| && h.quarantine[i].Has(SHADOW_SCALE * g) ==> shadow[g] == FREED_POISON)
    && (forall g :: 0 <= g < |shadow| && (forall b :: Owned(h, b) ==> !b.Has(SHADOW_SCALE * g)) ==> shadow[g] == around[g])
  }

  ghost predicate LiveByte(h: Heap, a: int) { exists b :: b in h.live && b.Serves(a) }

  ghost predicate HeldByte(h: Heap, a: int) { exists b :: Owned(h, b) && b.Has(a) }

  /** The shadow answers the simple question: a byte of a block may be accessed exactly when a live
      block serves it, any other byte as the shadow around the heap says. */
  lemma ByteAccess(shadow: seq<int>, h: Heap, around: seq<int>, a: nat)
    requires Disjoint(h, |shadow|) && Shadows(shadow, h, around) && a / SHADOW_SCALE < |shadow|
    ensures Addressable(shadow, a) <==> if HeldByte(h, a) then LiveByte(h, a) else Addressable(around, a)
  {
    hide LiveShadow, Placed;
    var g := a / SHADOW_SCALE;
    if HeldByte(h, a) {
      var b :| Owned(h, b) && b.Has(a);
      BlockGranules(b, |shadow|, a);
      if b in h.live {
        ServedByte(b, |shadow|, a);
        forall c | c in h.live && c.Serves(a) ensures c == b { assert Owned(h, c) && c.Has(a); }
      } else {
        var i :| 0 <= i < |h.quarantine| && h.quarantine[i] == b;
        forall c | c in h.live ensures !c.Serves(a) { assert Owned(h, c) && Apart(b, c); }
      }
    } else {
      forall b | Owned(h, b) ensures !b.Has(SHADOW_SCALE * g) {
        BlockGranules(b, |shadow|, a);
      }
    }
  }

  /** A block is the least whole number of granules that holds what it serves between two redzones. */
  lemma BlockLeast(b: Block, n: nat)
    requires n % SHADOW_SCALE == 0 && b.size + 2 * RZ_SIZE <= n
    ensures b.Total() % SHADOW_SCALE == 0 && b.Total() <= n
    ensures b.Ptr() - b.base == RZ_SIZE && b.RzRight() - b.Ptr() == b.size && RZ_SIZE <= b.RzRightSize() == b.End() - b.RzRight()
  {
    var t := b.Total();
    assert t % SHADOW_SCALE == 0 && t < b.size + 2 * RZ_SIZE + SHADOW_SCALE;
    assert n == SHADOW_SCALE * (n / SHADOW_SCALE) && t == SHADOW_SCALE * (t / SHADOW_SCALE);
  }

  lemma BlockGranules(b: Block, granules: nat, a: nat)
    requires Placed(b, granules)
    ensures b.Total() % SHADOW_SCALE == 0
    ensures b.Has(a) <==> b.Has(a / SHADOW_SCALE * SHADOW_SCALE)
  {
  }

  lemma ServedByte(b: Block, granules: nat, a: nat)
    requires Placed(b, granules) && b.Has(a)
    ensures b.Serves(a) <==> LiveShadow(b, a / SHADOW_SCALE) == 0 || a % SHADOW_SCALE < LiveShadow(b, a / SHADOW_SCALE)
  {
    hide ObjectShadow;
    ObjectByte(b.Ptr(), b.size, HEAP_POISON, a);
  }

  lemma ShadowWellFormed(shadow: seq<int>, h: Heap, around: seq<int>)
    requires Shadows(shadow, h, around) && WellFormed(around)
    ensures WellFormed(shadow)
  {
    forall g | 0 <= g < |shadow| ensures shadow[g] < SHADOW_SCALE {
      if b :| Owned(h, b) && b.Has(SHADOW_SCALE * g) {
        if b !in h.live {
          var i :| 0 <= i < |h.quarantine| && h.quarantine[i] == b;
        }
      }
    }
  }

  /** A naturally aligned strict check of memory the allocator holds passes exactly when a live block
      serves every byte of the access. */
  lemma HeapCheckExact(shadow: seq<int>, h: Heap, around: seq<int>, ptr: nat, size: AccessSize)
    requires Disjoint(h, |shadow|) && Shadows(shadow, h, around) && WellFormed(around)
    requires ptr / SHADOW_SCALE < |shadow| && ptr % size == 0
    requires HeldByte(h, ptr)
    ensures CheckPasses(shadow, ptr, size) <==> forall a :: ptr <= a < ptr + size ==> LiveByte(h, a)
  {
    hide Addressable, CheckPasses, Shadows, LiveByte;
    ShadowWellFormed(shadow, h, around);
    AlignedCheckExact(shadow, ptr, size);
    forall a | ptr <= a < ptr + size ensures a / SHADOW_SCALE < |shadow| && (Addressable(shadow, a) <==> LiveByte(h, a)) {
      AccessInGranule(ptr, size, a);
      assert HeldByte(h, a) by {
        var b :| Owned(h, b) && b.Has(ptr);
        BlockGranules(b, |shadow|, ptr);
        BlockGranules(b, |shadow|, a);
      }
      ByteAccess(shadow, h, around, a);
    }
  }

  // --- Allocation and release ---

  function Allocated(h: Heap, b: Block): Heap { h.(live := h.live + {b}) }

  function Sum(q: seq<Block>): nat { if q == [] then 0 else q[0].Total() + Sum(q[1..]) }

  /** Drops the oldest blocks until the quarantine is within its limit. */
  function Evicted(q: seq<Block>): (r: seq<Block>)
    ensures |r| <= |q| && r == q[|q| - |r|..]
    ensures Sum(r) <= QUARANTINE_MAX_SIZE
  {
    if Sum(q) <= QUARANTINE_MAX_SIZE then q else Evicted(q[1..])
  }

  function Released(h: Heap, b: Block): Heap {
    Heap(h.live - {b}, Evicted(h.quarantine + [b]))
  }

  /** Eviction stops as soon as it can: any longer suffix is over the limit. */
  lemma {:induction false} EvictsNoMoreThanNeeded(q: seq<Block>, k: nat)
    requires k < |q| - |Evicted(q)|
    ensures Sum(q[k..]) > QUARANTINE_MAX_SIZE
    decreases k
  {
    if k > 0 {
      assert q[k..] == q[1..][k - 1..];
      EvictsNoMoreThanNeeded(q[1..], k - 1);
    }
  }

  lemma {:induction false} SumOfLast(q: seq<Block>, b: Block)
    ensures Sum(q + [b]) == Sum(q) + b.Total()
  {
    if q == [] {
      assert q + [b] == [b];
    } else {
      assert (q + [b])[1..] == q[1..] + [b];
      SumOfLast(q[1..], b);
    }
  }

  /** The block just freed stays in quarantine exactly when it fits the limit by itself. */
  lemma {:induction false} NewestSurvives(q: seq<Block>, b: Block)
    ensures b.Total() <= QUARANTINE_MAX_SIZE ==> Evicted(q + [b]) != [] && Evicted(q + [b])[|Evicted(q + [b])| - 1] == b
    ensures b.Total() > QUARANTINE_MAX_SIZE ==> Evicted(q + [b]) == []
  {
    if q == [] {
      assert q + [b] == [b] && [b][1..] == [];
    } else {
      var r := q[1..] + [b];
      SumOfLast(q, b);
      assert (q + [b])[1..] == r;
      NewestSurvives(q[1..], b);
      assert Evicted(q + [b]) == if Sum(q + [b]) <= QUARANTINE_MAX_SIZE then q + [b] else Evicted(r);
    }
  }

  lemma EvictOnce(q: seq<Block>)
    requires Sum(q) > QUARANTINE_MAX_SIZE
    ensures q != [] && Evicted(q) == Evicted(q[1..]) && Sum(q) == q[0].Total() + Sum(q[1..])
  {
  }

  lemma EvictDone(q: seq<Block>)
    requires Sum(q) <= QUARANTINE_MAX_SIZE
    ensures Evicted(q) == q
  {
  }

  // --- What allocation and release do to the shadow ---

  lemma AllocatedDisjoint(h: Heap, b: Block, around: seq<int>)
    requires Disjoint(h, |around|) && Fresh(h, b, around)
    ensures Disjoint(Allocated(h, b), |around|) && b !in h.live && b !in h.quarantine
  {
    assert !Apart(b, b);
    forall c | Owned(Allocated(h, b), c) ensures c == b || Owned(h, c) {}
  }

  /** Poisoning both redzones of a fresh block is all its shadow needs: because the shadow is clear
      where the system hands out blocks, the user bytes are accessible without being unpoisoned. */
  lemma AllocatedShadows(shadow: seq<int>, h: Heap, around: seq<int>, b: Block)
    requires Disjoint(h, |shadow|) && Shadows(shadow, h, around) && Fresh(h, b, around)
    ensures Shadows(Poisoned(Poisoned(shadow, b.base, RZ_SIZE, HEAP_POISON), b.RzRight(), b.RzRightSize(), HEAP_POISON), Allocated(h, b), around)
  {
    hide Fill, LiveShadow;
    var h' := Allocated(h, b);
    var s := Poisoned(Poisoned(shadow, b.base, RZ_SIZE, HEAP_POISON), b.RzRight(), b.RzRightSize(), HEAP_POISON);
    forall g | 0 <= g < |shadow| ensures s[g] == if b.Has(SHADOW_SCALE * g) then LiveShadow(b, g) else shadow[g] {
      if b.Has(SHADOW_SCALE * g) {
        forall c | Owned(h, c) ensures !c.Has(SHADOW_SCALE * g) {}
        assert shadow[g] == 0;
      }
      MallocGranule(shadow, b, g);
    }
    forall c, g | c in h'.live && 0 <= g < |shadow| && c.Has(SHADOW_SCALE * g) ensures s[g] == LiveShadow(c, g) {
      if c != b { assert Owned(h, c) && Apart(b, c); }
    }
    forall i, g | 0 <= i < |h.quarantine| && 0 <= g < |shadow| && h.quarantine[i].Has(SHADOW_SCALE * g) ensures s[g] == FREED_POISON {
      assert Owned(h, h.quarantine[i]);
    }
    forall g | 0 <= g < |shadow| && (forall c :: Owned(h', c) ==> !c.Has(SHADOW_SCALE * g)) ensures s[g] == around[g] {
      assert Owned(h', b);
      forall c | Owned(h, c) ensures !c.Has(SHADOW_SCALE * g) { assert Owned(h', c); }
    }
  }

  lemma MallocGranule(shadow: seq<int>, b: Block, g: nat)
    requires Placed(b, |shadow|) && g < |shadow| && (b.Has(SHADOW_SCALE * g) ==> shadow[g] == 0)
    ensures Poisoned(Poisoned(shadow, b.base, RZ_SIZE, HEAP_POISON), b.RzRight(), b.RzRightSize(), HEAP_POISON)[g]
            == if b.Has(SHADOW_SCALE * g) then LiveShadow(b, g) else shadow[g]
  {
    hide Poisoned, ObjectShadow;
    ObjectGranule(shadow, b.base, b.size, b.RzRightSize(), HEAP_POISON, g);
  }

  /** Poisoning or unpoisoning a whole block changes exactly its granules. */
  lemma WholeBlock(shadow: seq<int>, b: Block, poison: int, g: nat)
    requires Placed(b, |shadow|) && g < |shadow|
    ensures Poisoned(shadow, b.base, b.Total(), poison)[g] == if b.Has(SHADOW_SCALE * g) then poison else shadow[g]
    ensures Unpoisoned(shadow, b.base, b.Total())[g] == if b.Has(SHADOW_SCALE * g) then 0 else shadow[g]
  {
    BlockGranules(b, |shadow|, b.base);
  }

  /** A live block moves to the end of the quarantine. */
  lemma QuarantinedShadows(shadow: seq<int>, h: Heap, around: seq<int>, b: Block)
    requires Disjoint(h, |shadow|) && Shadows(shadow, h, around) && b in h.live && Owned(h, b)
    ensures var h' := Heap(h.live - {b}, h.quarantine + [b]);
            Placed(b, |shadow|) && Disjoint(h', |shadow|) && Shadows(Poisoned(shadow, b.base, b.Total(), FREED_POISON), h', around)
  {
    hide Poisoned, LiveShadow;
    assert Owned(h, b) && Placed(b, |shadow|);
    var h', q := Heap(h.live - {b}, h.quarantine + [b]), h.quarantine + [b];
    var s := Poisoned(shadow, b.base, b.Total(), FREED_POISON);
    assert Owned(h, b) && Placed(b, |shadow|);
    forall c ensures Owned(h', c) <==> Owned(h, c) {
      if c in h.quarantine { assert c in q; }
      if c == b { assert q[|q| - 1] == c; }
    }
    forall g | 0 <= g < |shadow| ensures s[g] == if b.Has(SHADOW_SCALE * g) then FREED_POISON else shadow[g] {
      WholeBlock(shadow, b, FREED_POISON, g);
    }
    forall c, g | c in h'.live && 0 <= g < |shadow| && c.Has(SHADOW_SCALE * g) ensures s[g] == LiveShadow(c, g) {
      assert Owned(h, c) && Apart(b, c);
    }
    forall i, g | 0 <= i < |q| && 0 <= g < |shadow| && q[i].Has(SHADOW_SCALE * g) ensures s[g] == FREED_POISON {
      if i < |h.quarantine| { assert Owned(h, h.quarantine[i]) && Apart(b, q[i]); }
    }
  }

  /** The oldest quarantined block goes back to the system with its shadow cleared. */
  lemma EvictedShadows(shadow: seq<int>, h: Heap, around: seq<int>)
    requires Disjoint(h, |shadow|) && Shadows(shadow, h, around) && h.quarantine != []
    ensures Owned(h, h.quarantine[0])
    ensures var h', b := Heap(h.live, h.quarantine[1..]), h.quarantine[0];
            Placed(b, |shadow|) && Disjoint(h', |shadow|) && Shadows(Unpoisoned(shadow, b.base, b.Total()), h', around)
  {
    hide Unpoisoned, LiveShadow;
    var h', b := Heap(h.live, h.quarantine[1..]), h.quarantine[0];
    assert Owned(h, b) && Placed(b, |shadow|);
    var s := Unpoisoned(shadow, b.base, b.Total());
    forall c ensures Owned(h', c) <==> Owned(h, c) && c != b {}
    forall g | 0 <= g < |shadow| ensures s[g] == if b.Has(SHADOW_SCALE * g) then 0 else shadow[g] {
      WholeBlock(shadow, b, 0, g);
    }
    forall c, g | c in h'.live && 0 <= g < |shadow| && c.Has(SHADOW_SCALE * g) ensures s[g] == LiveShadow(c, g) {
      assert Owned(h', c) && Apart(b, c);
    }
    forall i, g | 0 <= i < |h'.quarantine| && 0 <= g < |shadow| && h'.quarantine[i].Has(SHADOW_SCALE * g) ensures s[g] == FREED_POISON {
      assert h'.quarantine[i] == h.quarantine[i + 1] && Owned(h', h'.quarantine[i]) && Apart(b, h'.quarantine[i]);
    }
    forall g | 0 <= g < |shadow| && (forall c :: Owned(h', c) ==> !c.Has(SHADOW_SCALE * g)) ensures s[g] == around[g] {
      if !b.Has(SHADOW_SCALE * g) {
        forall c | Owned(h, c) ensures !c.Has(SHADOW_SCALE * g) {}
      }
    }
  }

  /** The heap and the shadow around it determine the whole shadow. */
  lemma ShadowsUnique(s: seq<int>, t: seq<int>, h: Heap, around: seq<int>)
    requires Shadows(s, h, around) && Shadows(t, h, around)
    ensures s == t
  {
    forall g | 0 <= g < |s| ensures s[g] == t[g] {
      if b :| Owned(h, b) && b.Has(SHADOW_SCALE * g) {
        if b in h.live {
          assert s[g] == LiveShadow(b, g);
        } else {
          var i :| 0 <= i < |h.quarantine| && h.quarantine[i] == b;
          assert s[g] == FREED_POISON;
        }
      }
    }
  }

  /** Shadow that changes away from the blocks, for others, changes around the heap alone. */
  lemma AroundChanges(shadow: seq<int>, h: Heap, around: seq<int>, shadow': seq<int>, around': seq<int>)
    requires Shadows(shadow, h, around) && |shadow'| == |around'| == |shadow|
    requires forall g :: 0 <= g < |shadow| ==>
               if HeldGranule(h, g) then shadow'[g] == shadow[g] && around'[g] == around[g]
               else shadow[g] == around[g] ==> shadow'[g] == around'[g]
    ensures Shadows(shadow', h, around')
  {
    hide LiveShadow;
    forall b, g | Owned(h, b) && 0 <= g < |shadow| && b.Has(SHADOW_SCALE * g)
      ensures shadow'[g] == shadow[g] && around'[g] == around[g]
    {
      assert HeldGranule(h, g);
    }
    forall i | 0 <= i < |h.quarantine| ensures Owned(h, h.quarantine[i]) {}
  }

  ghost predicate HeldGranule(h: Heap, g: int) { exists b :: Owned(h, b) && b.Has(SHADOW_SCALE * g) }

  /** The first user granule tells a live block from a quarantined one. */
  lemma DoubleFreeSeen(shadow: seq<int>, h: Heap, around: seq<int>, b: Block)
    requires Disjoint(h, |shadow|) && Shadows(shadow, h, around) && Owned(h, b)
    ensures b.Ptr() / SHADOW_SCALE < |shadow|
    ensures shadow[b.Ptr() / SHADOW_SCALE] == FREED_POISON <==> b !in h.live
  {
    var g := b.Ptr() / SHADOW_SCALE;
    assert Placed(b, |shadow|) && b.Has(SHADOW_SCALE * g);
    if b in h.live {
      assert shadow[g] == LiveShadow(b, g);
    } else {
      var i :| 0 <= i < |h.quarantine| && h.quarantine[i] == b;
    }
  }

  /** A whole block is a range the poisoning functions accept, unless its size is no `int`. */
  lemma BlockRange(b: Block, granules: nat)
    requires Placed(b, granules)
    ensures b.base != NULL && (PoisonOk(granules, b.base, b.Total()) <==> b.Total() < 0x8000_0000)
    ensures PoisonOk(granules, b.base, RZ_SIZE) && PoisonOk(granules, b.RzRight(), b.RzRightSize())
  {
  }

  // --- Metadata words kept in the redzones ---

  /** A live block's redzones record where the right one is and how long it is. */
  predicate Recorded(m: Memory, b: Block) {
    Load(m, b.base) == b.RzRight() && Load(m, b.RzRight()) == b.RzRightSize()
  }

  /** A quarantined block holds the next one's address and its own size. */
  predicate Entry(m: Memory, b: Block, next: nat) {
    Load(m, b.base) == next && Load(m, b.base + WORD) == b.Total()
  }

  function BaseOf(q: seq<Block>, i: nat): nat { if i < |q| then q[i].base else NULL }

  ghost predicate Metadata(m: Memory, h: Heap) {
    && (forall b :: b in h.live ==> Recorded(m, b))
    && (forall i :: 0 <= i < |h.quarantine| ==> Entry(m, h.quarantine[i], BaseOf(h.quarantine, i + 1)))
  }

  /** The bytes that a live block's words take, and a quarantined one's. */
  predicate RecordByte(b: Block, x: int) { b.base <= x < b.base + WORD || b.RzRight() <= x < b.RzRight() + WORD }
  predicate EntryByte(b: Block, x: int) { b.base <= x < b.base + 2 * WORD }

  lemma RecordedKept(m: Memory, m': Memory, b: Block)
    requires Recorded(m, b) && forall x :: RecordByte(b, x) ==> m'(x) == m(x)
    ensures Recorded(m', b)
  {
    hide Load;
    LoadKept(m, m', b.base);
    LoadKept(m, m', b.RzRight());
  }

  lemma EntryKept(m: Memory, m': Memory, b: Block, next: nat)
    requires Entry(m, b, next) && forall x :: EntryByte(b, x) ==> m'(x) == m(x)
    ensures Entry(m', b, next)
  {
    hide Load;
    LoadKept(m, m', b.base);
    LoadKept(m, m', b.base + WORD);
  }

  /** Metadata lives in its own blocks: what is written outside them leaves it alone. */
  lemma MetadataKept(m: Memory, m': Memory, h: Heap)
    requires Metadata(m, h)
    requires forall b, x :: b in h.live && RecordByte(b, x) ==> m'(x) == m(x)
    requires forall i, x :: 0 <= i < |h.quarantine| && EntryByte(h.quarantine[i], x) ==> m'(x) == m(x)
    ensures Metadata(m', h)
  {
    hide Recorded, Entry, RecordByte, EntryByte;
    forall b | b in h.live ensures Recorded(m', b) { RecordedKept(m, m', b); }
    forall i | 0 <= i < |h.quarantine| ensures Entry(m', h.quarantine[i], BaseOf(h.quarantine, i + 1)) {
      EntryKept(m, m', h.quarantine[i], BaseOf(h.quarantine, i + 1));
    }
  }

  lemma WordsInside(b: Block, x: int)
    ensures RecordByte(b, x) || EntryByte(b, x) ==> b.Has(x)
  {
  }

  /** Writing inside one block leaves the metadata of a heap without it. */
  lemma MetadataApart(m: Memory, m': Memory, h: Heap, b: Block)
    requires Metadata(m, h) && (forall c :: Owned(h, c) ==> Apart(b, c)) && forall x :: !b.Has(x) ==> m'(x) == m(x)
    ensures Metadata(m', h)
  {
    hide RecordByte, EntryByte, Recorded, Entry;
    forall c, x | c in h.live && RecordByte(c, x) ensures m'(x) == m(x) {
      WordsInside(c, x);
      assert Owned(h, c);
    }
    forall i, x | 0 <= i < |h.quarantine| && EntryByte(h.quarantine[i], x) ensures m'(x) == m(x) {
      WordsInside(h.quarantine[i], x);
      assert Owned(h, h.quarantine[i]);
    }
    MetadataKept(m, m', h);
  }

  // --- Allocation ---

  /** The words `__asan_malloc` writes. */
  function RecordStored(m: Memory, b: Block): Memory
    requires b.End() <= ADDRESS_LIMIT
  {
    Store(Store(m, b.base, b.RzRight()), b.RzRight(), b.RzRightSize())
  }

  lemma RecordedNow(m: Memory, b: Block)
    requires b.End() <= ADDRESS_LIMIT
    ensures Recorded(RecordStored(m, b), b) && forall x :: !RecordByte(b, x) ==> RecordStored(m, b)(x) == m(x)
  {
    hide Load, Bytes32;
    var one := Store(m, b.base, b.RzRight());
    LoadStored(m, b.base, b.RzRight());
    LoadStored(one, b.RzRight(), b.RzRightSize());
    LoadKept(one, RecordStored(m, b), b.base);
  }

  lemma AllocatedMetadata(m: Memory, h: Heap, b: Block, around: seq<int>)
    requires Disjoint(h, |around|) && Fresh(h, b, around) && Metadata(m, h)
    ensures Metadata(RecordStored(m, b), Allocated(h, b))
  {
    hide Recorded, Entry, RecordStored, RecordByte, Apart;
    var m' := RecordStored(m, b);
    RecordedNow(m, b);
    forall x | !b.Has(x) ensures m'(x) == m(x) { WordsInside(b, x); }
    MetadataApart(m, m', h, b);
  }

  // --- Release ---

  /** The entry `__asan_free` writes. */
  function EntryStored(m: Memory, b: Block): Memory
    requires b.Total() < ADDRESS_LIMIT
  {
    Store(Store(m, b.base, NULL), b.base + WORD, b.Total())
  }

  lemma EntryNow(m: Memory, b: Block)
    requires b.Total() < ADDRESS_LIMIT
    ensures Entry(EntryStored(m, b), b, NULL) && forall x :: !EntryByte(b, x) ==> EntryStored(m, b)(x) == m(x)
  {
    hide Load, Bytes32;
    var one := Store(m, b.base, NULL);
    LoadStored(m, b.base, NULL);
    LoadStored(one, b.base + WORD, b.Total());
    LoadKept(one, EntryStored(m, b), b.base);
  }

  /** With the entry written, the block is the last of the queue but for the link that leads to it. */
  lemma EntryMetadata(m: Memory, h: Heap, b: Block, granules: nat)
    requires Disjoint(h, granules) && Metadata(m, h) && b in h.live && b.Total() < ADDRESS_LIMIT
    ensures Metadata(EntryStored(m, b), Heap(h.live - {b}, h.quarantine)) && Entry(EntryStored(m, b), b, NULL)
  {
    hide Recorded, Entry, EntryStored, EntryByte, Apart, Placed;
    var m', rest := EntryStored(m, b), Heap(h.live - {b}, h.quarantine);
    EntryNow(m, b);
    forall x | !b.Has(x) ensures m'(x) == m(x) { WordsInside(b, x); }
    assert Owned(h, b);
    forall c | Owned(rest, c) ensures Apart(b, c) {
      assert Owned(h, c);
      if c in h.quarantine { var i :| 0 <= i < |h.quarantine| && h.quarantine[i] == c; }
    }
    MetadataApart(m, m', rest, b);
  }

  /** The link from the block that was last completes the queue. */
  lemma LinkedMetadata(m: Memory, h: Heap, b: Block, granules: nat)
    requires Disjoint(Heap(h.live, h.quarantine + [b]), granules) && h.quarantine != []
    requires Metadata(m, h) && Entry(m, b, NULL)
    ensures var last := h.quarantine[|h.quarantine| - 1];
            b.base < ADDRESS_LIMIT && last.base != NULL && Metadata(Store(m, last.base, b.base), Heap(h.live, h.quarantine + [b]))
  {
    hide Recorded, Entry, EntryByte, RecordByte, Apart, Placed, Store;
    var n, q := |h.quarantine|, h.quarantine + [b];
    var h', last := Heap(h.live, q), h.quarantine[n - 1];
    assert q[n - 1] == last && q[n] == b;
    assert Owned(h', last) && Owned(h', b);
    PlacedBase(last, granules);
    PlacedBase(b, granules);
    var m' := Store(m, last.base, b.base);
    LinkStored(m, last, b.base, BaseOf(h.quarantine, n));
    forall c | c in h.live ensures Recorded(m', c) {
      assert Owned(h', c) && c != last;
      OutsideBlock(m, m', last, c);
      RecordedKept(m, m', c);
    }
    forall i | 0 <= i < n + 1 ensures Entry(m', q[i], BaseOf(q, i + 1)) {
      if i != n - 1 {
        assert Owned(h', q[i]) && q[i] != last;
        OutsideBlock(m, m', last, q[i]);
        EntryKept(m, m', q[i], BaseOf(q, i + 1));
      }
    }
  }

  lemma PlacedBase(b: Block, granules: nat)
    requires Placed(b, granules)
    ensures 0 < b.base < ADDRESS_LIMIT && b.Total() < ADDRESS_LIMIT && b.End() <= ADDRESS_LIMIT
  {
  }

  lemma LinkStored(m: Memory, c: Block, link: uint32, next: nat)
    requires Entry(m, c, next)
    ensures Entry(Store(m, c.base, link), c, link) && forall x :: !c.Has(x) ==> Store(m, c.base, link)(x) == m(x)
  {
    hide Load, Bytes32;
    LoadStored(m, c.base, link);
    LoadKept(m, Store(m, c.base, link), c.base + WORD);
  }

  lemma OutsideBlock(m: Memory, m': Memory, b: Block, c: Block)
    requires Apart(b, c) && forall x :: !b.Has(x) ==> m'(x) == m(x)
    ensures forall x :: RecordByte(c, x) || EntryByte(c, x) ==> m'(x) == m(x)
  {
    hide RecordByte, EntryByte;
    forall x | RecordByte(c, x) || EntryByte(c, x) ensures m'(x) == m(x) { WordsInside(c, x); }
  }

  /** Evicting the oldest entry leaves a shorter list. */
  lemma EvictedMetadata(m: Memory, h: Heap)
    requires Metadata(m, h) && h.quarantine != []
    ensures Load(m, h.quarantine[0].base + WORD) == h.quarantine[0].Total()
    ensures Load(m, h.quarantine[0].base) == BaseOf(h.quarantine[1..], 0)
    ensures Metadata(m, Heap(h.live, h.quarantine[1..]))
  {
    hide Load;
    assert Entry(m, h.quarantine[0], BaseOf(h.quarantine, 1));
    var q := h.quarantine[1..];
    forall i | 0 <= i < |q| ensures Entry(m, q[i], BaseOf(q, i + 1)) {
      assert q[i] == h.quarantine[i + 1] && BaseOf(q, i + 1) == BaseOf(h.quarantine, i + 2);
    }
  }

  lemma LiveRecorded(m: Memory, h: Heap, b: Block)
    requires Metadata(m, h) && b in h.live
    ensures Load(m, b.base) == b.RzRight() && Load(m, b.RzRight()) == b.RzRightSize()
  {
    assert Recorded(m, b);
  }

  // --- Linking from a tail that is no longer queued ---

  /** What a word written at `t` leaves of a live block: its first word, the bytes it serves, and the
      size at its end, unless the bytes written there are those already there. */
  predicate Spared(t: int, link: uint32, c: Block) {
    && (t + WORD <= c.base || c.base + WORD <= t)
    && (t + WORD <= c.Ptr() || c.RzRight() <= t)
    && forall k :: 0 <= k < WORD && c.RzRight() <= t + k < c.RzRight() + WORD ==>
         Bytes32(link)[k] == RightSizeByte(c, t + k - c.RzRight())
  }

  function RightSizeByte(c: Block, k: int): byte
    requires 0 <= k < WORD
  {
    Bytes32(c.RzRightSize())[k]
  }

  /** Queueing `b` behind a block that has gone back to the system, whose base `t` the tail still holds,
      writes a link there.  It does the heap no harm where `t` is not the new entry itself and every live block is
      spared; in particular where no block holds the four bytes. */
  ghost predicate Harmless(t: int, live: set<Block>, b: Block)
    requires b.base < ADDRESS_LIMIT
  {
    t != b.base && forall c :: c in live ==> Spared(t, b.base, c)
  }

  /** The link changes no metadata and no byte of a live block. */
  ghost predicate LinkKeeps(m: Memory, h: Heap, t: int, link: uint32) {
    Metadata(Store(m, t, link), h) && forall a :: LiveByte(h, a) ==> Store(m, t, link)(a) == m(a)
  }

  lemma HarmlessKeeps(m: Memory, live: set<Block>, b: Block, t: int, granules: nat)
    requires Disjoint(Heap(live, [b]), granules) && Metadata(m, Heap(live, [b])) && t % SHADOW_SCALE == 0 && b.base < ADDRESS_LIMIT
    requires Harmless(t, live, b)
    ensures LinkKeeps(m, Heap(live, [b]), t, b.base)
  {
    hide Recorded, Entry, Load, Placed, Bytes32, RightSizeByte;
    var h, m' := Heap(live, [b]), Store(m, t, b.base);
    forall c, x | c in live && RecordByte(c, x) ensures m'(x) == m(x) {
      assert Recorded(m, c);
      SparedWords(m, t, b.base, c, x);
    }
    forall i, x | 0 <= i < |h.quarantine| && EntryByte(h.quarantine[i], x) ensures m'(x) == m(x) {
      assert Owned(h, b) && Placed(b, granules);
      EntrySpared(t, b, granules, x);
    }
    MetadataKept(m, m', h);
  }

  lemma EntrySpared(t: int, b: Block, granules: nat, x: int)
    requires Placed(b, granules) && t % SHADOW_SCALE == 0 && t != b.base && EntryByte(b, x)
    ensures !(t <= x < t + WORD)
  {
  }

  lemma SparedWords(m: Memory, t: int, link: uint32, c: Block, x: int)
    requires Spared(t, link, c) && Recorded(m, c) && RecordByte(c, x)
    ensures Store(m, t, link)(x) == m(x)
  {
    hide Load, Bytes32;
    if t <= x < t + WORD {
      var k := x - t;
      assert c.RzRight() <= t + k < c.RzRight() + WORD;
      LoadBytes(m, c.RzRight(), x - c.RzRight());
    }
  }

  /** The link breaks a live block's metadata or changes a byte one serves. */
  ghost predicate HarmsLive(m: Memory, live: set<Block>, t: int, link: uint32) {
    (exists c :: c in live && !Recorded(Store(m, t, link), c))
    || exists a :: LiveByte(Heap(live, []), a) && Store(m, t, link)(a) != m(a)
  }

  /** Where it is not harmless it overwrites the new entry or harms a live block, unless the byte it meets
      in user memory is already the one it writes. */
  lemma HarmShows(m: Memory, live: set<Block>, b: Block, t: int, granules: nat)
    requires Disjoint(Heap(live, [b]), granules) && Metadata(m, Heap(live, [b])) && t % SHADOW_SCALE == 0 && b.base < ADDRESS_LIMIT
    requires !Harmless(t, live, b) && (LiveByte(Heap(live, []), t) ==> m(t) != Bytes32(b.base)[0])
    ensures t == b.base || HarmsLive(m, live, t, b.base)
  {
    hide Placed, Spared, Disjoint, Load, Bytes32, HarmsLive;
    if t != b.base {
      var c :| c in live && !Spared(t, b.base, c);
      HarmToBlock(m, live, b, t, granules, c);
    }
  }

  lemma HarmToBlock(m: Memory, live: set<Block>, b: Block, t: int, granules: nat, c: Block)
    requires Disjoint(Heap(live, [b]), granules) && Metadata(m, Heap(live, [b])) && t % SHADOW_SCALE == 0 && b.base < ADDRESS_LIMIT
    requires c in live && !Spared(t, b.base, c) && (LiveByte(Heap(live, []), t) ==> m(t) != Bytes32(b.base)[0])
    ensures HarmsLive(m, live, t, b.base)
  {
    hide Placed, Load, Bytes32, Apart, RecordByte, EntryByte, Spared, Entry;
    var h := Heap(live, [b]);
    assert Owned(h, b) && Owned(h, c) && Recorded(m, c);
    assert c != b by { assert h.quarantine[0] == b; }
    BaseAligned(c, t, granules);
    if t == c.base {
      LoadStored(m, t, b.base);
      RightInside(b, c);
      assert !Recorded(Store(m, t, b.base), c);
    } else if c.Ptr() <= t < c.RzRight() {
      assert Store(m, t, b.base)(t) == Bytes32(b.base)[0];
      assert LiveByte(Heap(live, []), t);
    } else {
      SizeHarmed(m, t, b.base, c);
    }
  }

  lemma BaseAligned(c: Block, t: int, granules: nat)
    requires Placed(c, granules) && t % SHADOW_SCALE == 0
    ensures t + WORD <= c.base || t == c.base || c.base + WORD <= t
    ensures t + WORD <= c.Ptr() || c.Ptr() <= t
  {
    var u, v := t / SHADOW_SCALE, c.base / SHADOW_SCALE;
    assert t == SHADOW_SCALE * u && c.base == SHADOW_SCALE * v;
    assert u < v || u == v || u > v;
  }

  lemma RightInside(b: Block, c: Block)
    requires Apart(b, c)
    ensures b.base != c.RzRight()
  {
  }

  lemma SizeHarmed(m: Memory, t: int, link: uint32, c: Block)
    requires Recorded(m, c) && !Spared(t, link, c)
    requires (t + WORD <= c.base || c.base + WORD <= t) && (t + WORD <= c.Ptr() || c.RzRight() <= t)
    ensures !Recorded(Store(m, t, link), c)
  {
    hide Load, Bytes32;
    var k :| 0 <= k < WORD && c.RzRight() <= t + k < c.RzRight() + WORD && Bytes32(link)[k] != RightSizeByte(c, t + k - c.RzRight());
    var m' := Store(m, t, link);
    assert m'(t + k) == Bytes32(link)[k];
    LoadBytes(m', c.RzRight(), t + k - c.RzRight());
  }

  /** A byte that a block serves is no block's metadata. */
  lemma UserByteFree(m: Memory, m': Memory, h: Heap, c: Block, a: int, granules: nat)
    requires Disjoint(h, granules) && Metadata(m, h) && c in h.live && c.Serves(a) && forall x :: x != a ==> m'(x) == m(x)
    ensures Metadata(m', h)
  {
    hide Recorded, Entry, Placed;
    assert Owned(h, c);
    forall d, x | d in h.live && RecordByte(d, x) ensures m'(x) == m(x) {
      WordsInside(d, x);
      assert Owned(h, d);
      assert d != c ==> Apart(d, c);
    }
    forall i, x | 0 <= i < |h.quarantine| && EntryByte(h.quarantine[i], x) ensures m'(x) == m(x) {
      WordsInside(h.quarantine[i], x);
      assert Owned(h, h.quarantine[i]) && Apart(h.quarantine[i], c);
    }
    MetadataKept(m, m', h);
  }

  /** In particular, as far as blocks go, a link to memory that none holds is harmless. */
  lemma UnheldIsHarmless(live: set<Block>, b: Block, t: int)
    requires b.base < ADDRESS_LIMIT && forall x :: t <= x < t + WORD ==> !HeldByte(Heap(live, [b]), x)
    ensures Harmless(t, live, b)
  {
    var h := Heap(live, [b]);
    assert Owned(h, b) && !HeldByte(h, t);
    forall c | c in live ensures Spared(t, b.base, c) {
      assert Owned(h, c);
      forall x | t <= x < t + WORD ensures !c.Has(x) { assert !HeldByte(h, x); }
      assert !c.Has(t) && !c.Has(t + 3);
    }
  }
}
