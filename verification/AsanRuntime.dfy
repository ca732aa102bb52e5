/** The runtime's allocator entry points and its quarantine, over shadow and memory.

    The functions are what the code does to its state, whatever the state is; `Sound` says what the
    state means, and the lemmas that every call keeps that meaning. */
module AsanRuntime {
  import opened Bytes
  import opened AsanShadow
  import opened AsanMemory
  import opened AsanHeap

  /** What `posix_memalign` did: the start of a fresh block, or out of memory. */
  datatype Memalign = NoMemory | Aligned(base: uint32)

  datatype FreeOutcome = Ignored | Quarantined | DoubleFree

  /** A call that returns, or one that fails an assertion or reaches outside the shadowed memory. */
  datatype Outcome<T> = Done(value: T) | Stuck

  datatype State = State(shadow: seq<int>, memory: Memory, size: nat, head: uint32, tail: uint32)

  // --- What the code does ---

  function Padding(size: nat): nat { if size % SHADOW_SCALE == 0 then 0 else SHADOW_SCALE - size % SHADOW_SCALE }

  /** The bytes `__asan_malloc` asks the system for, in 32 bits. */
  function Requested(size: uint32): uint32 { (RZ_SIZE + size + (RZ_SIZE + Padding(size))) % ADDRESS_LIMIT }

  /** The system's block holds both redzones and all the bytes served exactly when the sum does not wrap. */
  lemma RequestHolds(size: uint32, base: nat)
    ensures (forall a :: Block(base, size).Has(a) ==> base <= a < base + Requested(size)) <==> Block(base, size).Total() < ADDRESS_LIMIT
  {
    var b := Block(base, size);
    if b.Total() >= ADDRESS_LIMIT {
      assert b.Has(base + b.Total() - 1);
    }
  }

  /** `__asan_malloc` once the system has handed out a block at `base`. */
  function MallocStep(s: State, size: uint32, base: uint32): Outcome<State> {
    var right := (base + RZ_SIZE + size) % ADDRESS_LIMIT;
    var rightSize := RZ_SIZE + Padding(size);
    if !PoisonOk(|s.shadow|, base, RZ_SIZE) || !PoisonOk(|s.shadow|, right, rightSize) then Stuck
    else
      Done(s.(shadow := Poisoned(Poisoned(s.shadow, base, RZ_SIZE, HEAP_POISON), right, rightSize, HEAP_POISON),
              memory := Store(Store(s.memory, base, right), right, rightSize)))
  }

  /** The middle of `__asan_free`: poisons what the redzones say the block is and links it behind the tail. */
  function EnqueueStep(s: State, ptr: uint32): Outcome<State>
    requires ptr >= RZ_SIZE
  {
    var left := ptr - RZ_SIZE;
    var right := Load(s.memory, left);
    var total := (Load(s.memory, right) + (right - left)) % ADDRESS_LIMIT;
    if !PoisonOk(|s.shadow|, left, total) then Stuck
    else
      var queued := Store(Store(s.memory, left, NULL), left + WORD, total);
      Done(State(Poisoned(s.shadow, left, total, FREED_POISON),
                 if s.tail != NULL then Store(queued, s.tail, left) else queued,
                 s.size + total, if s.head == NULL then left else s.head, left))
  }

  /** The loop at the end of `__asan_free`.  Where an entry's size is 0 or more than the whole queue's,
      the loop is not followed. */
  function EvictStep(s: State): Outcome<State>
    decreases s.size
  {
    if s.size <= QUARANTINE_MAX_SIZE then Done(s)
    else
      var freed := Load(s.memory, s.head + WORD);
      if s.head == NULL || freed == 0 || freed > s.size || !PoisonOk(|s.shadow|, s.head, freed) then Stuck
      else EvictStep(s.(shadow := Unpoisoned(s.shadow, s.head, freed), size := s.size - freed, head := Load(s.memory, s.head)))
  }

  datatype Freed = Freed(outcome: FreeOutcome, state: State)

  function FreeStep(s: State, ptr: uint32): Outcome<Freed> {
    if ptr == NULL then Done(Freed(Ignored, s))
    else if ptr / SHADOW_SCALE >= |s.shadow| then Stuck
    else if s.shadow[ptr / SHADOW_SCALE] == FREED_POISON then Done(Freed(DoubleFree, s))
    else if ptr < RZ_SIZE then Stuck
    else match EnqueueStep(s, ptr)
      case Stuck => Stuck
      case Done(queued) =>
        match EvictStep(queued)
        case Stuck => Stuck
        case Done(evicted) => Done(Freed(Quarantined, evicted))
  }

  // --- What a state means ---

  /** Everything but the tail and the limit. */
  ghost predicate Queue(s: State, h: Heap, around: seq<int>) {
    && Disjoint(h, |s.shadow|)
    && Shadows(s.shadow, h, around)
    && Metadata(s.memory, h)
    && s.head == BaseOf(h.quarantine, 0)
    && s.size == Sum(h.quarantine)
  }

  /** The tail leads to the newest entry; with an empty queue it is null, or `stale`, the base of a block
      that has gone back to the system. */
  predicate TailAt(s: State, h: Heap, stale: nat) {
    && stale % SHADOW_SCALE == 0
    && (h.quarantine == [] ==> s.tail == stale)
    && (h.quarantine != [] ==> stale == NULL && s.tail == h.quarantine[|h.quarantine| - 1].base)
  }

  /** The state of the code is that of a heap amid other shadow. */
  ghost predicate Sound(s: State, h: Heap, around: seq<int>, stale: nat) {
    Queue(s, h, around) && TailAt(s, h, stale) && s.size <= QUARANTINE_MAX_SIZE
  }

  /** No byte that a live block serves has changed. */
  ghost predicate UserKept(m: Memory, m': Memory, h: Heap) {
    forall a :: LiveByte(h, a) ==> m'(a) == m(a)
  }

  // --- Allocation ---

  lemma MallocSound(s: State, h: Heap, around: seq<int>, stale: nat, b: Block)
    requires Sound(s, h, around, stale) && Fresh(h, b, around)
    ensures b.base < ADDRESS_LIMIT && b.size < ADDRESS_LIMIT && MallocStep(s, b.size, b.base).Done?
    ensures var s' := MallocStep(s, b.size, b.base).value;
            Sound(s', Allocated(h, b), around, stale) && UserKept(s.memory, s'.memory, h)
  {
    hide Poisoned, Shadows, Disjoint, Apart, Metadata, Store, LiveByte, Recorded;
    SameLength(s.shadow, h, around);
    BlockRange(b, |around|);
    PlacedBase(b, |around|);
    RightAddress(b);
    AllocatedDisjoint(h, b, around);
    AllocatedShadows(s.shadow, h, around, b);
    AllocatedMetadata(s.memory, h, b, around);
    AllocationSpares(s.memory, h, b, around);
  }

  lemma SameLength(shadow: seq<int>, h: Heap, around: seq<int>)
    requires Shadows(shadow, h, around)
    ensures |shadow| == |around|
  {
  }

  lemma RightAddress(b: Block)
    requires b.End() <= ADDRESS_LIMIT
    ensures (b.base + RZ_SIZE + b.size) % ADDRESS_LIMIT == b.RzRight() && RZ_SIZE + Padding(b.size) == b.RzRightSize()
  {
  }

  lemma AllocationSpares(m: Memory, h: Heap, b: Block, around: seq<int>)
    requires Disjoint(h, |around|) && Fresh(h, b, around)
    ensures b.End() <= ADDRESS_LIMIT && UserKept(m, RecordStored(m, b), h)
  {
    hide RecordStored, RecordByte, Placed, Recorded;
    PlacedBase(b, |around|);
    RecordedNow(m, b);
    forall a | LiveByte(h, a) ensures RecordStored(m, b)(a) == m(a) {
      var c :| c in h.live && c.Serves(a);
      assert Owned(h, c);
      WordsInside(b, a);
    }
  }

  // --- Release ---

  /** The state after one round of the loop. */
  function EvictedOnce(s: State, b: Block): State
    requires b.base / SHADOW_SCALE < |s.shadow| && b.Total() <= s.size
  {
    s.(shadow := Unpoisoned(s.shadow, b.base, b.Total()), size := s.size - b.Total(), head := Load(s.memory, b.base))
  }

  lemma EvictRound(s: State, b: Block)
    requires s.size > QUARANTINE_MAX_SIZE && s.head == b.base && b.base != NULL && Load(s.memory, b.base + WORD) == b.Total()
    requires 0 < b.Total() <= s.size && b.base / SHADOW_SCALE < |s.shadow| && PoisonOk(|s.shadow|, b.base, b.Total())
    ensures EvictStep(s) == EvictStep(EvictedOnce(s, b))
  {
    hide PoisonOk, Load, Unpoisoned, Block.Total;
  }

  /** Where the queue is within the limit nothing is evicted. */
  lemma QueueWithin(s: State, h: Heap, around: seq<int>)
    requires Queue(s, h, around) && s.size <= QUARANTINE_MAX_SIZE
    ensures Evicted(h.quarantine) == h.quarantine && Queue(s, Heap(h.live, h.quarantine), around)
  {
    hide Shadows, Disjoint, Metadata, Sum, Evicted;
    EvictDone(h.quarantine);
  }

  /** Where it is over the limit one round leaves the queue without its oldest block. */
  lemma QueueOver(s: State, h: Heap, around: seq<int>)
    requires Queue(s, h, around) && s.size > QUARANTINE_MAX_SIZE
    ensures h.quarantine != [] && Evicted(h.quarantine) == Evicted(h.quarantine[1..])
    ensures var b := h.quarantine[0];
            && s.head == b.base && b.base != NULL && Load(s.memory, b.base + WORD) == b.Total() && 0 < b.Total() <= s.size
            && b.base / SHADOW_SCALE < |s.shadow| && (b.Total() < 0x8000_0000 ==> PoisonOk(|s.shadow|, b.base, b.Total()))
            && Queue(EvictedOnce(s, b), Heap(h.live, h.quarantine[1..]), around)
  {
    hide EvictStep, Unpoisoned, Shadows, Disjoint, Placed, Metadata, Sum, Evicted, Block.Total, Load, PoisonOk;
    EvictOnce(h.quarantine);
    var b := h.quarantine[0];
    EvictedShadows(s.shadow, h, around);
    EvictedMetadata(s.memory, h);
    BlockRange(b, |s.shadow|);
    BlockGranule(b, |s.shadow|);
    NotEmpty(b);
  }

  lemma BlockGranule(b: Block, granules: nat)
    requires Placed(b, granules)
    ensures b.base / SHADOW_SCALE < granules
  {
  }

  /** The loop evicts the oldest blocks and no more, whatever is around the heap. */
  lemma {:induction false} EvictSound(s: State, h: Heap, around: seq<int>)
    requires Queue(s, h, around) && forall i :: 0 <= i < |h.quarantine| ==> h.quarantine[i].Total() < 0x8000_0000
    ensures EvictStep(s).Done?
    ensures var s' := EvictStep(s).value;
            && Queue(s', Heap(h.live, Evicted(h.quarantine)), around) && s'.size <= QUARANTINE_MAX_SIZE
            && s'.tail == s.tail && s'.memory == s.memory
    decreases |h.quarantine|
  {
    hide Queue, EvictStep, Evicted, Block.Total, PoisonOk, Load, Unpoisoned;
    if s.size <= QUARANTINE_MAX_SIZE {
      QueueWithin(s, h, around);
      EvictNothing(s);
    } else {
      QueueOver(s, h, around);
      var b := h.quarantine[0];
      EvictRound(s, b);
      EvictSound(EvictedOnce(s, b), Heap(h.live, h.quarantine[1..]), around);
    }
  }

  lemma EvictNothing(s: State)
    requires s.size <= QUARANTINE_MAX_SIZE
    ensures EvictStep(s) == Done(s)
  {
  }

  lemma NotEmpty(b: Block)
    ensures b.Total() >= 2 * RZ_SIZE
  {
  }

  /** Whether a live block may be freed: its size is an `int`, and where the tail is stale the link that
      is written there is harmless. */
  ghost predicate Freeable(h: Heap, stale: nat, b: Block) {
    && b in h.live && b.Total() < 0x8000_0000
    && (stale != NULL ==> b.base < ADDRESS_LIMIT && Harmless(stale, h.live - {b}, b))
  }

  function QueuedHeap(h: Heap, b: Block): Heap { Heap(h.live - {b}, h.quarantine + [b]) }

  lemma EnqueueSound(s: State, h: Heap, around: seq<int>, stale: nat, b: Block)
    requires Sound(s, h, around, stale) && Freeable(h, stale, b)
    ensures RZ_SIZE <= b.Ptr() < ADDRESS_LIMIT && EnqueueStep(s, b.Ptr()).Done?
    ensures var s' := EnqueueStep(s, b.Ptr()).value;
            Queue(s', QueuedHeap(h, b), around) && s'.tail == b.base && UserKept(s.memory, s'.memory, Heap(h.live - {b}, []))
  {
    hide Poisoned, Shadows, Disjoint, Placed, Metadata, Store, Harmless, UserKept, Load, Sum;
    assert Owned(h, b);
    QuarantinedShadows(s.shadow, h, around, b);
    BlockRange(b, |s.shadow|);
    PlacedBase(b, |s.shadow|);
    SumOfLast(h.quarantine, b);
    LiveRecorded(s.memory, h, b);
    TotalRead(b);
    QueuedMemory(s, h, stale, b);
    if h.quarantine != [] { BaseIsAligned(h, h.quarantine[0], |s.shadow|); }
  }

  lemma TotalRead(b: Block)
    requires b.End() <= ADDRESS_LIMIT && b.base > 0
    ensures (b.RzRightSize() + (b.RzRight() - b.base)) % ADDRESS_LIMIT == b.Total() && b.Ptr() < ADDRESS_LIMIT
  {
  }

  /** The memory after queueing is the new queue, and no other live block's bytes have changed. */
  lemma QueuedMemory(s: State, h: Heap, stale: nat, b: Block)
    requires Disjoint(h, |s.shadow|) && Disjoint(QueuedHeap(h, b), |s.shadow|) && Metadata(s.memory, h) && TailAt(s, h, stale) && Freeable(h, stale, b)
    requires b.Total() < ADDRESS_LIMIT && b.base < ADDRESS_LIMIT && b.base != NULL
    ensures var queued := EntryStored(s.memory, b);
            var m' := if s.tail != NULL then Store(queued, s.tail, b.base) else queued;
            Metadata(m', QueuedHeap(h, b)) && UserKept(s.memory, m', Heap(h.live - {b}, []))
  {
    hide Store, Harmless, Load, Recorded, Entry, UserKept, EntryStored, Disjoint;
    var queued, rest := EntryStored(s.memory, b), Heap(h.live - {b}, h.quarantine);
    EntryMetadata(s.memory, h, b, |s.shadow|);
    EntrySpares(s.memory, h, b, |s.shadow|);
    if h.quarantine != [] {
      LinkedMetadata(queued, rest, b, |s.shadow|);
      LinkSpares(queued, h, b, |s.shadow|);
      KeptTwice(s.memory, queued, Store(queued, s.tail, b.base), Heap(h.live - {b}, []));
    } else {
      assert h.quarantine + [b] == [b];
      AloneInQueue(queued, h.live - {b}, b);
      if stale != NULL {
        HarmlessKeeps(queued, h.live - {b}, b, stale, |s.shadow|);
        LiveOnly(h.live - {b}, b);
        KeptTwice(s.memory, queued, Store(queued, s.tail, b.base), Heap(h.live - {b}, []));
      }
    }
  }

  lemma KeptTwice(m: Memory, m1: Memory, m2: Memory, h: Heap)
    requires UserKept(m, m1, h)
    ensures UserKept(m1, m2, h) ==> UserKept(m, m2, h)
    ensures (forall a :: LiveByte(h, a) ==> m2(a) == m1(a)) ==> UserKept(m, m2, h)
  {
    hide LiveByte;
  }

  lemma LiveOnly(live: set<Block>, b: Block)
    ensures forall a :: LiveByte(Heap(live, []), a) <==> LiveByte(Heap(live, [b]), a)
  {
  }

  lemma AloneInQueue(m: Memory, live: set<Block>, b: Block)
    requires Metadata(m, Heap(live, [])) && Entry(m, b, NULL)
    ensures Metadata(m, Heap(live, [b]))
  {
    hide Recorded, Entry;
  }

  lemma EntrySpares(m: Memory, h: Heap, b: Block, granules: nat)
    requires Disjoint(h, granules) && b in h.live && b.Total() < ADDRESS_LIMIT
    ensures UserKept(m, EntryStored(m, b), Heap(h.live - {b}, []))
  {
    hide EntryStored, EntryByte, Placed, Entry;
    EntryNow(m, b);
    assert Owned(h, b);
    forall a | LiveByte(Heap(h.live - {b}, []), a) ensures EntryStored(m, b)(a) == m(a) {
      var c :| c in h.live - {b} && c.Serves(a);
      assert Owned(h, c);
      WordsInside(b, a);
    }
  }

  lemma LinkSpares(m: Memory, h: Heap, b: Block, granules: nat)
    requires Disjoint(h, granules) && h.quarantine != [] && b.base < ADDRESS_LIMIT
    ensures UserKept(m, Store(m, h.quarantine[|h.quarantine| - 1].base, b.base), Heap(h.live - {b}, []))
  {
    hide Placed, Bytes32;
    var last := h.quarantine[|h.quarantine| - 1];
    assert Owned(h, last);
    forall a | LiveByte(Heap(h.live - {b}, []), a) ensures !(last.base <= a < last.base + WORD) {
      var c :| c in h.live - {b} && c.Serves(a);
      assert Owned(h, c) && c != last;
    }
  }

  /** The base the tail is left with when the block just freed is evicted too. */
  function StaleAfter(b: Block): nat { if b.Total() > QUARANTINE_MAX_SIZE then b.base else NULL }

  /** A quarantine within its limit has only blocks within it. */
  lemma {:induction false} SmallInQueue(q: seq<Block>, i: nat)
    requires i < |q|
    ensures q[i].Total() <= Sum(q)
  {
    if i > 0 { SmallInQueue(q[1..], i - 1); }
  }

  /** Freeing a live block keeps the meaning of the state: the block is quarantined and the oldest ones
      are evicted.  A block over the limit leaves the tail stale; a stale tail must be harmless. */
  lemma FreeSound(s: State, h: Heap, around: seq<int>, stale: nat, b: Block)
    requires Sound(s, h, around, stale) && Freeable(h, stale, b)
    ensures b.Ptr() < ADDRESS_LIMIT && FreeStep(s, b.Ptr()).Done? && FreeStep(s, b.Ptr()).value.outcome == Quarantined
    ensures var s' := FreeStep(s, b.Ptr()).value.state;
            Sound(s', Released(h, b), around, StaleAfter(b)) && UserKept(s.memory, s'.memory, Heap(h.live - {b}, []))
  {
    hide EnqueueStep, EvictStep, Shadows, Disjoint, Metadata, Harmless, UserKept, Evicted, Sum;
    assert Owned(h, b);
    DoubleFreeSeen(s.shadow, h, around, b);
    EnqueueSound(s, h, around, stale, b);
    var q := h.quarantine + [b];
    forall i | 0 <= i < |q| ensures q[i].Total() < 0x8000_0000 {
      if i < |h.quarantine| { SmallInQueue(h.quarantine, i); }
    }
    EvictSound(EnqueueStep(s, b.Ptr()).value, QueuedHeap(h, b), around);
    NewestSurvives(h.quarantine, b);
    BaseIsAligned(h, b, |s.shadow|);
  }

  /** A block of 2^31 bytes or more cannot be freed: its size is no `int`. */
  lemma TooLongStuck(s: State, h: Heap, around: seq<int>, stale: nat, b: Block)
    requires Sound(s, h, around, stale) && b in h.live && b.Total() >= 0x8000_0000 && b.Ptr() < ADDRESS_LIMIT
    ensures FreeStep(s, b.Ptr()).Stuck?
  {
    hide EvictStep, Shadows, Disjoint, Metadata, Load, Poisoned, PoisonOk, Store, Placed, Block.Total;
    assert Owned(h, b);
    DoubleFreeSeen(s.shadow, h, around, b);
    BlockAddress(s, h, around, stale, b);
    BlockRange(b, |s.shadow|);
    LiveRecorded(s.memory, h, b);
    TotalRead(b);
  }

  lemma BaseIsAligned(h: Heap, b: Block, granules: nat)
    requires Disjoint(h, granules) && Owned(h, b)
    ensures b.base % SHADOW_SCALE == 0 && b.base != NULL
  {
  }

  /** A block already in quarantine is reported. */
  lemma DoubleFreeReported(s: State, h: Heap, around: seq<int>, b: Block)
    requires Queue(s, h, around) && b in h.quarantine
    ensures b.Ptr() < ADDRESS_LIMIT && FreeStep(s, b.Ptr()) == Done(Freed(DoubleFree, s))
  {
    hide EnqueueStep, EvictStep, Shadows, Metadata;
    assert Owned(h, b) && b !in h.live by {
      var i :| 0 <= i < |h.quarantine| && h.quarantine[i] == b;
    }
    DoubleFreeSeen(s.shadow, h, around, b);
    assert Placed(b, |s.shadow|);
  }

  /** A free writes the entry in the block and the link at the tail, and nowhere else. */
  lemma FreedBytes(s: State, h: Heap, around: seq<int>, stale: nat, b: Block)
    requires Sound(s, h, around, stale) && Freeable(h, stale, b) && b.Ptr() < ADDRESS_LIMIT && b.base < ADDRESS_LIMIT && b.Total() < ADDRESS_LIMIT
    ensures FreeStep(s, b.Ptr()).Done?
    ensures FreeStep(s, b.Ptr()).value.state.memory
            == if s.tail != NULL then Store(EntryStored(s.memory, b), s.tail, b.base) else EntryStored(s.memory, b)
  {
    hide EnqueueStep, EvictStep, Shadows, Disjoint, Metadata, Harmless, Evicted, UserKept, EntryStored, Store, Load;
    FreeSound(s, h, around, stale, b);
    EnqueueSound(s, h, around, stale, b);
    EnqueuedMemory(s, h, around, stale, b);
    EvictKeepsMemory(EnqueueStep(s, b.Ptr()).value);
    DoubleFreeSeen(s.shadow, h, around, b);
  }

  /** So it changes no byte but of blocks the allocator holds and at a stale tail. */
  lemma FreeOutside(s: State, h: Heap, around: seq<int>, stale: nat, b: Block, a: int)
    requires Sound(s, h, around, stale) && Freeable(h, stale, b) && b.Ptr() < ADDRESS_LIMIT
    requires !HeldByte(h, a) && !(stale != NULL && stale <= a < stale + WORD)
    ensures FreeStep(s, b.Ptr()).Done? && FreeStep(s, b.Ptr()).value.state.memory(a) == s.memory(a)
  {
    hide FreeStep, Queue, Harmless, Store, EntryStored, EntryByte, Block.Total;
    BlockAddress(s, h, around, stale, b);
    FreedBytes(s, h, around, stale, b);
    assert Owned(h, b) && !b.Has(a);
    WordsInside(b, a);
    EntryNow(s.memory, b);
    if s.tail != NULL {
      TailElsewhere(s, h, stale, a);
      StoreElsewhere(EntryStored(s.memory, b), s.tail, b.base, a);
    }
  }

  lemma TailElsewhere(s: State, h: Heap, stale: nat, a: int)
    requires TailAt(s, h, stale) && s.tail != NULL && !HeldByte(h, a) && !(stale != NULL && stale <= a < stale + WORD)
    ensures !(s.tail <= a < s.tail + WORD)
  {
    if h.quarantine != [] {
      var last := h.quarantine[|h.quarantine| - 1];
      assert Owned(h, last) && !last.Has(a);
    }
  }

  lemma StoreElsewhere(m: Memory, t: int, w: uint32, a: int)
    requires !(t <= a < t + WORD)
    ensures Store(m, t, w)(a) == m(a)
  {
    hide Bytes32;
  }

  lemma {:induction false} EvictKeepsMemory(s: State)
    ensures EvictStep(s).Done? ==> EvictStep(s).value.memory == s.memory
    decreases s.size
  {
    hide Unpoisoned, Load, PoisonOk;
    if s.size > QUARANTINE_MAX_SIZE {
      var freed := Load(s.memory, s.head + WORD);
      if s.head != NULL && 0 < freed <= s.size && PoisonOk(|s.shadow|, s.head, freed) {
        RangeStart(|s.shadow|, s.head, freed);
        EvictKeepsMemory(s.(shadow := Unpoisoned(s.shadow, s.head, freed), size := s.size - freed, head := Load(s.memory, s.head)));
      }
    }
  }

  lemma RangeStart(granules: nat, ptr: nat, size: nat)
    requires PoisonOk(granules, ptr, size)
    ensures ptr / SHADOW_SCALE < granules
  {
  }

  /** What queueing leaves in memory. */
  lemma EnqueuedMemory(s: State, h: Heap, around: seq<int>, stale: nat, b: Block)
    requires Sound(s, h, around, stale) && b in h.live && b.Total() < 0x8000_0000 && b.Ptr() < ADDRESS_LIMIT && b.base < ADDRESS_LIMIT
    ensures b.Total() < ADDRESS_LIMIT && EnqueueStep(s, b.Ptr()).Done?
    ensures var s' := EnqueueStep(s, b.Ptr()).value;
            && s'.memory == (if s.tail != NULL then Store(EntryStored(s.memory, b), s.tail, b.base) else EntryStored(s.memory, b))
            && s'.shadow == Poisoned(s.shadow, b.base, b.Total(), FREED_POISON) && s'.tail == b.base
            && s'.size == s.size + b.Total() && s'.head == if s.head == NULL then b.base else s.head
  {
    hide Shadows, Disjoint, Metadata, Load, Poisoned, PoisonOk, Store, Placed, Block.Total;
    BlockAddress(s, h, around, stale, b);
    BlockRange(b, |s.shadow|);
    BlockGranule(b, |s.shadow|);
    LiveRecorded(s.memory, h, b);
    TotalRead(b);
  }

  // --- Freeing with a stale tail ---

  /** Freeing `b` does all it should, for whatever the memory holds: the state is that of the heap with
      `b` released, and no byte of another live block or of the objects outside the heap has changed. */
  ghost predicate FreesWell(s: State, h: Heap, around: seq<int>, b: Block, outside: iset<int>)
    requires b.Ptr() < ADDRESS_LIMIT
  {
    var r := FreeStep(s, b.Ptr());
    && r.Done? && Sound(r.value.state, Released(h, b), around, StaleAfter(b))
    && UserKept(s.memory, r.value.state.memory, Heap(h.live - {b}, []))
    && forall a :: a in outside ==> r.value.state.memory(a) == s.memory(a)
  }

  /** A word at `t` is none of the objects' outside the heap. */
  ghost predicate Spares(outside: iset<int>, t: int) { forall x :: t <= x < t + WORD ==> x !in outside }

  /** After a block over the limit was freed, the next free does all it should, whatever memory holds,
      exactly when the word at the stale tail is harmless to write and no live object has it. */
  lemma StaleFreeExact(s: State, h: Heap, around: seq<int>, stale: nat, b: Block, outside: iset<int>)
    requires Sound(s, h, around, stale) && stale != NULL && b in h.live && b.Total() < 0x8000_0000
    requires forall a :: a in outside ==> !HeldByte(h, a)
    ensures b.Ptr() < ADDRESS_LIMIT && b.base < ADDRESS_LIMIT
    ensures Harmless(stale, h.live - {b}, b) && Spares(outside, stale) <==>
            forall m :: Sound(s.(memory := m), h, around, stale) ==> FreesWell(s.(memory := m), h, around, b, outside)
  {
    hide Disjoint, Metadata, Harmless, FreesWell, Sound, Bytes32;
    BlockAddress(s, h, around, stale, b);
    if Harmless(stale, h.live - {b}, b) && Spares(outside, stale) {
      forall m | Sound(s.(memory := m), h, around, stale) ensures FreesWell(s.(memory := m), h, around, b, outside) {
        FreesWhenHarmless(s.(memory := m), h, around, stale, b, outside);
      }
    } else if Harmless(stale, h.live - {b}, b) {
      var x :| stale <= x < stale + WORD && x in outside;
      var m := WithByte(s.memory, x, Other(Bytes32(b.base)[x - stale]));
      OutsideSound(s, h, around, stale, x, m);
      FreeOverwrites(s.(memory := m), h, around, stale, b, x, outside);
    } else {
      var m := Tweaked(s.memory, h.live - {b}, stale, b.base);
      TweakedSound(s, h, around, stale, b, m);
      FreeHarms(s.(memory := m), h, around, stale, b, outside);
    }
  }

  lemma BlockAddress(s: State, h: Heap, around: seq<int>, stale: nat, b: Block)
    requires Sound(s, h, around, stale) && Owned(h, b)
    ensures Placed(b, |s.shadow|) && b.Ptr() < ADDRESS_LIMIT && b.base < ADDRESS_LIMIT && b.Total() < ADDRESS_LIMIT && b.End() <= ADDRESS_LIMIT && b.base != NULL
  {
    hide Shadows, Metadata;
    assert Placed(b, |s.shadow|);
  }

  lemma FreesWhenHarmless(s: State, h: Heap, around: seq<int>, stale: nat, b: Block, outside: iset<int>)
    requires Sound(s, h, around, stale) && b.base < ADDRESS_LIMIT && Harmless(stale, h.live - {b}, b)
    requires b in h.live && b.Total() < 0x8000_0000 && Spares(outside, stale) && forall a :: a in outside ==> !HeldByte(h, a)
    ensures b.Ptr() < ADDRESS_LIMIT && FreesWell(s, h, around, b, outside)
  {
    hide FreeStep, Sound, Harmless, UserKept, HeldByte;
    FreeSound(s, h, around, stale, b);
    forall a | a in outside ensures FreeStep(s, b.Ptr()).value.state.memory(a) == s.memory(a) {
      FreeOutside(s, h, around, stale, b, a);
    }
  }

  function Other(v: byte): byte { if v == 0 then 1 else 0 }

  function WithByte(m: Memory, a: int, v: byte): Memory { x => if x == a then v else m(x) }

  /** Bytes that no block holds mean nothing to the state. */
  lemma OutsideSound(s: State, h: Heap, around: seq<int>, stale: nat, a: int, m: Memory)
    requires Sound(s, h, around, stale) && !HeldByte(h, a) && forall x :: x != a ==> m(x) == s.memory(x)
    ensures Sound(s.(memory := m), h, around, stale)
  {
    hide LiveByte;
    forall x | HeldByte(h, x) && !LiveByte(h, x) ensures m(x) == s.memory(x) {}
    UserWriteSound(s, h, around, stale, m);
  }

  /** Where the word at the stale tail is an object's, the free overwrites it. */
  lemma FreeOverwrites(s: State, h: Heap, around: seq<int>, stale: nat, b: Block, x: int, outside: iset<int>)
    requires Sound(s, h, around, stale) && stale != NULL && b in h.live && b.Total() < 0x8000_0000
    requires b.Ptr() < ADDRESS_LIMIT && b.base < ADDRESS_LIMIT && Harmless(stale, h.live - {b}, b)
    requires stale <= x < stale + WORD && x in outside && s.memory(x) != Bytes32(b.base)[x - stale]
    ensures !FreesWell(s, h, around, b, outside)
  {
    hide FreeStep, Sound, Harmless, UserKept, EntryStored, Bytes32, Released, StaleAfter;
    BlockAddress(s, h, around, stale, b);
    StaleTail(s, h, around, stale);
    FreedBytes(s, h, around, stale, b);
    assert Store(EntryStored(s.memory, b), stale, b.base)(x) == Bytes32(b.base)[x - stale];
  }

  lemma StaleTail(s: State, h: Heap, around: seq<int>, stale: nat)
    requires Sound(s, h, around, stale) && stale != NULL
    ensures h.quarantine == [] && s.tail == stale && s.head == NULL && s.size == 0 && stale % SHADOW_SCALE == 0
  {
    hide Shadows, Disjoint, Metadata;
    NothingQueued();
  }

  /** Memory in which a user byte at `t` is not what a link there would make it. */
  ghost function Tweaked(m: Memory, live: set<Block>, t: int, link: uint32): Memory {
    x => if x == t && LiveByte(Heap(live, []), t) then Other(Bytes32(link)[0]) else m(x)
  }

  lemma TweakedSound(s: State, h: Heap, around: seq<int>, stale: nat, b: Block, m: Memory)
    requires Sound(s, h, around, stale) && b.base < ADDRESS_LIMIT && m == Tweaked(s.memory, h.live - {b}, stale, b.base)
    ensures Sound(s.(memory := m), h, around, stale)
    ensures LiveByte(Heap(h.live - {b}, []), stale) ==> m(stale) != Bytes32(b.base)[0]
  {
    hide Disjoint, Shadows, Metadata, TailAt, Bytes32, Tweaked;
    TweakedByte(s.memory, h.live - {b}, stale, b.base);
    if LiveByte(Heap(h.live - {b}, []), stale) {
      var c :| c in h.live - {b} && c.Serves(stale);
      UserByteFree(s.memory, m, h, c, stale, |s.shadow|);
    } else {
      MetadataKept(s.memory, m, h);
    }
    SameTail(s, h, stale, m);
  }

  lemma TweakedByte(m: Memory, live: set<Block>, t: int, link: uint32)
    ensures var m' := Tweaked(m, live, t, link);
            && (forall x :: x != t ==> m'(x) == m(x))
            && if LiveByte(Heap(live, []), t) then m'(t) == Other(Bytes32(link)[0]) else m'(t) == m(t)
  {
    hide LiveByte, Bytes32, Other;
  }

  lemma SameTail(s: State, h: Heap, stale: nat, m: Memory)
    ensures TailAt(s.(memory := m), h, stale) <==> TailAt(s, h, stale)
  {
  }

  /** The link does harm, and no later step of the call undoes it. */
  lemma FreeHarms(s: State, h: Heap, around: seq<int>, stale: nat, b: Block, outside: iset<int>)
    requires Sound(s, h, around, stale) && stale != NULL && b in h.live && b.Total() < 0x8000_0000
    requires b.Ptr() < ADDRESS_LIMIT && b.base < ADDRESS_LIMIT && !Harmless(stale, h.live - {b}, b)
    requires LiveByte(Heap(h.live - {b}, []), stale) ==> s.memory(stale) != Bytes32(b.base)[0]
    ensures !FreesWell(s, h, around, b, outside)
  {
    hide FreeStep, Shadows, Disjoint, Metadata, Harmless, Load, Bytes32, Store, Placed, LiveByte, HarmsLive, EntryStored, StaleAfter, Released, Recorded, UserKept;
    var live, queued := h.live - {b}, EntryStored(s.memory, b);
    StaleTail(s, h, around, stale);
    BlockAddress(s, h, around, stale, b);
    QuarantinedShadows(s.shadow, h, around, b);
    assert h.quarantine + [b] == [b];
    EntryMetadata(s.memory, h, b, |s.shadow|);
    EntrySpares(s.memory, h, b, |s.shadow|);
    AloneInQueue(queued, live, b);
    if LiveByte(Heap(live, []), stale) { KeptByte(s.memory, queued, Heap(live, []), stale); }
    HarmShows(queued, live, b, stale, |s.shadow|);
    FreedMemory(s, h, around, stale, b);
    if stale == b.base {
      EntryLost(s, h, around, stale, b);
    } else {
      HarmStays(s.memory, queued, Store(queued, stale, b.base), live, stale, b.base);
      ReleasedAlone(h, b);
      AllRecorded(FreeStep(s, b.Ptr()).value.state, Released(h, b), around, StaleAfter(b));
    }
  }

  lemma AllRecorded(s: State, h: Heap, around: seq<int>, stale: nat)
    ensures Sound(s, h, around, stale) ==> forall c :: c in h.live ==> Recorded(s.memory, c)
  {
    hide Shadows, Disjoint, Recorded, Entry, TailAt;
  }

  lemma ReleasedAlone(h: Heap, b: Block)
    requires h.quarantine == []
    ensures Released(h, b) == Heap(h.live - {b}, if b.Total() > QUARANTINE_MAX_SIZE then [] else [b])
  {
    hide Evicted, Block.Total;
    assert [] + [b] == [b];
    NewestSurvives([], b);
    if b.Total() <= QUARANTINE_MAX_SIZE {
      NothingQueued();
      SumOfLast([], b);
      EvictDone([b]);
    }
  }

  /** What a free with a stale tail comes to, harmful or not: the link, and the block queued, or over the
      limit unqueued again along its own link. */
  lemma FreedMemory(s: State, h: Heap, around: seq<int>, stale: nat, b: Block)
    requires Sound(s, h, around, stale) && stale != NULL && b in h.live && b.Total() < 0x8000_0000 && b.Ptr() < ADDRESS_LIMIT && b.base < ADDRESS_LIMIT
    ensures b.Total() < ADDRESS_LIMIT && FreeStep(s, b.Ptr()).Done?
    ensures var s', m := FreeStep(s, b.Ptr()).value.state, Store(EntryStored(s.memory, b), stale, b.base);
            s'.memory == m && s'.head == if b.Total() > QUARANTINE_MAX_SIZE then Load(m, b.base) else b.base
  {
    hide EvictStep, EnqueueStep, Shadows, Disjoint, Metadata, Load, Poisoned, Store, EntryStored, Block.Total, PoisonOk;
    StaleTail(s, h, around, stale);
    assert Owned(h, b);
    DoubleFreeSeen(s.shadow, h, around, b);
    BlockAddress(s, h, around, stale, b);
    EnqueuedMemory(s, h, around, stale, b);
    BlockRange(b, |s.shadow|);
    BlockGranule(b, |s.shadow|);
    NotEmpty(b);
    var queued := EnqueueStep(s, b.Ptr()).value;
    if b.Total() > QUARANTINE_MAX_SIZE {
      SizeLeft(s.memory, b, stale);
      EvictRound(queued, b);
      EvictNothing(EvictedOnce(queued, b));
    } else {
      EvictNothing(queued);
    }
  }

  lemma SizeLeft(m: Memory, b: Block, stale: nat)
    requires stale % SHADOW_SCALE == 0 && b.base % SHADOW_SCALE == 0 && b.Total() < ADDRESS_LIMIT && b.base < ADDRESS_LIMIT
    ensures Load(Store(EntryStored(m, b), stale, b.base), b.base + WORD) == b.Total()
  {
    hide Load, Bytes32, EntryStored, Block.Total;
    EntryNow(m, b);
    EightApart(stale, b.base);
    LoadKept(EntryStored(m, b), Store(EntryStored(m, b), stale, b.base), b.base + WORD);
  }

  lemma EightApart(t: nat, u: nat)
    requires t % SHADOW_SCALE == 0 && u % SHADOW_SCALE == 0
    ensures t == u || t + SHADOW_SCALE <= u || u + SHADOW_SCALE <= t
  {
    assert t == SHADOW_SCALE * (t / SHADOW_SCALE) && u == SHADOW_SCALE * (u / SHADOW_SCALE);
  }

  /** Where the stale tail is the new entry itself, that leads to itself. */
  lemma EntryLost(s: State, h: Heap, around: seq<int>, stale: nat, b: Block)
    requires Sound(s, h, around, stale) && stale == b.base != NULL && b in h.live && b.Total() < 0x8000_0000 && b.Ptr() < ADDRESS_LIMIT && b.base < ADDRESS_LIMIT
    ensures FreeStep(s, b.Ptr()).Done? && !Queue(FreeStep(s, b.Ptr()).value.state, Released(h, b), around)
  {
    hide FreeStep, Shadows, Disjoint, Load, Store, EntryStored, Recorded, Block.Total, Released;
    StaleTail(s, h, around, stale);
    FreedMemory(s, h, around, stale, b);
    ReleasedAlone(h, b);
    var m := Store(EntryStored(s.memory, b), stale, b.base);
    LoadStored(EntryStored(s.memory, b), stale, b.base);
    if b.Total() <= QUARANTINE_MAX_SIZE {
      assert Released(h, b).quarantine[0] == b;
      assert !Entry(m, b, NULL);
    }
  }

  lemma NothingQueued()
    ensures Sum([]) == 0
  {
  }

  lemma HarmStays(m: Memory, queued: Memory, m': Memory, live: set<Block>, t: int, link: uint32)
    requires m' == Store(queued, t, link) && HarmsLive(queued, live, t, link) && UserKept(m, queued, Heap(live, []))
    ensures !((forall c :: c in live ==> Recorded(m', c)) && UserKept(m, m', Heap(live, [])))
  {
    hide Store, LiveByte, Recorded;
  }

  // --- The calls a program makes ---

  datatype Reply = Reply(ret: uint32, state: State)

  function MallocCall(s: State, size: uint32, system: Memalign): Outcome<Reply> {
    match system
    case NoMemory => Done(Reply(NULL, s))
    case Aligned(base) =>
      match MallocStep(s, size, base)
      case Stuck => Stuck
      case Done(s') => Done(Reply((base + RZ_SIZE) % ADDRESS_LIMIT, s'))
  }

  /** The product is a `size_t`.  Out of memory is not looked at before the block is cleared, so with
      bytes to clear the call faults. */
  function CallocCall(s: State, nmemb: uint32, size: uint32, system: Memalign): Outcome<Reply> {
    var n := nmemb * size % ADDRESS_LIMIT;
    match MallocCall(s, n, system)
    case Stuck => Stuck
    case Done(r) =>
      if r.ret != NULL then Done(Reply(r.ret, r.state.(memory := Cleared(r.state.memory, r.ret, n))))
      else if n == 0 then Done(r)
      else Stuck
  }

  function Min(a: nat, b: nat): nat { if a < b then a else b }

  /** A double free aborts. */
  function FreeCall(s: State, ptr: uint32, ret: uint32): Outcome<Reply> {
    match FreeStep(s, ptr)
    case Stuck => Stuck
    case Done(f) => if f.outcome == DoubleFree then Stuck else Done(Reply(ret, f.state))
  }

  lemma CannotFree(s: State, h: Heap, around: seq<int>, stale: nat, b: Block)
    requires Sound(s, h, around, stale) && Owned(h, b) && (b !in h.live || b.Total() >= 0x8000_0000)
    ensures b.Ptr() < ADDRESS_LIMIT && FreeCall(s, b.Ptr(), NULL).Stuck?
  {
    hide FreeStep, Queue, Block.Total;
    BlockAddress(s, h, around, stale, b);
    if b in h.live { TooLongStuck(s, h, around, stale, b); } else { DoubleFreeReported(s, h, around, b); }
  }

  function ReallocCall(s: State, ptr: uint32, size: uint32, system: Memalign): Outcome<Reply> {
    if ptr == NULL then MallocCall(s, size, system)
    else if size == 0 then FreeCall(s, ptr, NULL)
    else if ptr < RZ_SIZE then Stuck
    else
      var oldSize := (Load(s.memory, ptr - RZ_SIZE) - ptr) % ADDRESS_LIMIT;
      if size == oldSize then Done(Reply(ptr, s))
      else match MallocCall(s, size, system)
        case Stuck => Stuck
        case Done(r) =>
          if r.ret == NULL then Done(r)
          else FreeCall(r.state.(memory := Copied(r.state.memory, ptr, r.ret, Min(size, oldSize))), ptr, r.ret)
  }

  /** Writing bytes that live blocks serve or no block holds, and no others, changes nothing the state
      means. */
  lemma UserWriteSound(s: State, h: Heap, around: seq<int>, stale: nat, m: Memory)
    requires Sound(s, h, around, stale) && forall x :: HeldByte(h, x) && !LiveByte(h, x) ==> m(x) == s.memory(x)
    ensures Sound(s.(memory := m), h, around, stale)
  {
    hide Shadows, Recorded, Entry, Placed, LiveByte;
    forall c, x | c in h.live && RecordByte(c, x) ensures m(x) == s.memory(x) {
      WordsInside(c, x);
      assert Owned(h, c);
      MetadataNotLive(h, c, x, |s.shadow|);
      assert HeldByte(h, x);
    }
    forall i, x | 0 <= i < |h.quarantine| && EntryByte(h.quarantine[i], x) ensures m(x) == s.memory(x) {
      WordsInside(h.quarantine[i], x);
      assert Owned(h, h.quarantine[i]);
      MetadataNotLive(h, h.quarantine[i], x, |s.shadow|);
      assert HeldByte(h, x);
    }
    MetadataKept(s.memory, m, h);
  }

  lemma MetadataNotLive(h: Heap, c: Block, x: int, granules: nat)
    requires Disjoint(h, granules) && Owned(h, c) && c.Has(x) && !(c in h.live && c.Serves(x))
    ensures !LiveByte(h, x)
  {
    hide Placed;
    forall d | d in h.live ensures !d.Serves(x) { assert Owned(h, d) && (d != c ==> Apart(d, c)); }
  }

  /** An allocation of any size that the system serves, as a block or not at all. */
  lemma MallocCallSound(s: State, h: Heap, around: seq<int>, stale: nat, size: uint32, system: Memalign)
    requires Sound(s, h, around, stale) && (system.Aligned? ==> Fresh(h, Block(system.base, size), around))
    ensures MallocCall(s, size, system).Done?
    ensures var r := MallocCall(s, size, system).value;
            && Sound(r.state, if system.Aligned? then Allocated(h, Block(system.base, size)) else h, around, stale)
            && UserKept(s.memory, r.state.memory, h)
            && r.ret == (if system.Aligned? then Block(system.base, size).Ptr() else NULL)
            && (system.NoMemory? ==> r.state == s)
  {
    hide MallocStep, Sound, Fresh, Allocated;
    if system.Aligned? {
      MallocSound(s, h, around, stale, Block(system.base, size));
      FreshAddress(h, Block(system.base, size), around);
    }
  }

  lemma FreshAddress(h: Heap, b: Block, around: seq<int>)
    requires Fresh(h, b, around)
    ensures NULL < b.base < ADDRESS_LIMIT && NULL < b.Ptr() < ADDRESS_LIMIT && b.End() <= ADDRESS_LIMIT
  {
  }

  /** `calloc` gives a block of the wrapped product with every byte 0, and faults exactly when memory is
      out and there is something to clear. */
  lemma CallocSound(s: State, h: Heap, around: seq<int>, stale: nat, nmemb: uint32, size: uint32, system: Memalign)
    requires Sound(s, h, around, stale)
    requires system.Aligned? ==> Fresh(h, Block(system.base, nmemb * size % ADDRESS_LIMIT), around)
    ensures CallocCall(s, nmemb, size, system).Stuck? <==> system.NoMemory? && nmemb * size % ADDRESS_LIMIT != 0
    ensures system.NoMemory? && nmemb * size % ADDRESS_LIMIT == 0 ==> CallocCall(s, nmemb, size, system) == Done(Reply(NULL, s))
    ensures system.Aligned? ==>
              var b, r := Block(system.base, nmemb * size % ADDRESS_LIMIT), CallocCall(s, nmemb, size, system).value;
              && r.ret == b.Ptr() && Sound(r.state, Allocated(h, b), around, stale) && UserKept(s.memory, r.state.memory, h)
              && forall a :: b.Serves(a) ==> r.state.memory(a) == 0
  {
    hide MallocCall, Sound, Fresh;
    var n := nmemb * size % ADDRESS_LIMIT;
    MallocCallSound(s, h, around, stale, n, system);
    if system.Aligned? {
      var b, r := Block(system.base, n), MallocCall(s, n, system).value;
      FreshAddress(h, b, around);
      var m := Cleared(r.state.memory, r.ret, n);
      NewBytes(h, b, around);
      UserWriteSound(r.state, Allocated(h, b), around, stale, m);
    }
  }

  /** The bytes of a new block are live, and no other live block's. */
  lemma NewBytes(h: Heap, b: Block, around: seq<int>)
    requires Fresh(h, b, around)
    ensures forall a :: LiveByte(Allocated(h, b), a) <==> LiveByte(h, a) || b.Serves(a)
    ensures forall a :: LiveByte(h, a) ==> !b.Serves(a)
  {
    forall a | b.Serves(a) ensures LiveByte(Allocated(h, b), a) { assert b in Allocated(h, b).live; }
    forall a | LiveByte(h, a) ensures !b.Serves(a) && LiveByte(Allocated(h, b), a) {
      var c :| c in h.live && c.Serves(a);
      assert Owned(h, c) && Apart(b, c) && c in Allocated(h, b).live;
    }
  }

  /** The heap `realloc` leaves: the new block is allocated before the old one is released. */
  function Reallocated(h: Heap, ptr: nat, b: Block, size: nat, system: Memalign): Heap {
    var grown := if system.Aligned? then Allocated(h, Block(system.base, size)) else h;
    if ptr == NULL then grown
    else if size == 0 then Released(h, b)
    else if size == b.size || system.NoMemory? then h
    else Released(grown, b)
  }

  /** What `realloc` asks of a live block when it is to move it or free it. */
  ghost predicate Reallocable(h: Heap, stale: nat, b: Block, size: nat, system: Memalign) {
    if size == 0 then Freeable(h, stale, b)
    else b in h.live && (size != b.size && system.Aligned? ==> Freeable(Allocated(h, Block(system.base, size)), stale, b))
  }

  /** `realloc` of a live block: freed, kept, refused, or moved with the bytes that fit. */
  lemma ReallocSound(s: State, h: Heap, around: seq<int>, stale: nat, b: Block, size: uint32, system: Memalign)
    requires Sound(s, h, around, stale) && Reallocable(h, stale, b, size, system) && b.Ptr() < ADDRESS_LIMIT
    requires system.Aligned? ==> Fresh(h, Block(system.base, size), around)
    ensures ReallocCall(s, b.Ptr(), size, system).Done?
    ensures var r, h' := ReallocCall(s, b.Ptr(), size, system).value, Reallocated(h, b.Ptr(), b, size, system);
            && Sound(r.state, h', around, if b in h'.live then stale else StaleAfter(b))
            && r.ret == (if size == 0 then NULL else if size == b.size then b.Ptr() else if system.NoMemory? then NULL else Block(system.base, size).Ptr())
            && UserKept(s.memory, r.state.memory, Heap(h.live - {b}, []))
            && (r.ret != NULL ==> Moved(s.memory, b.Ptr(), r.state.memory, r.ret, if size < b.size then size else b.size))
  {
    hide MallocCall, FreeStep, Sound, Fresh, Harmless, UserKept, Evicted, Load, Moved, Copied;
    BlockAddress(s, h, around, stale, b);
    OldSize(s, h, around, stale, b);
    ReallocatedLive(h, b, size, system, around);
    SameKept(s.memory, Heap(h.live - {b}, []), b.Ptr(), b.size);
    if size == 0 {
      FreeSound(s, h, around, stale, b);
    } else if size != b.size {
      MallocCallSound(s, h, around, stale, size, system);
      var r := MallocCall(s, size, system).value;
      if system.Aligned? {
        FreshAddress(h, Block(system.base, size), around);
        MoveSound(s, r, h, around, stale, b, Block(system.base, size));
      } else {
        FewerKept(s.memory, r.state.memory, h, b);
      }
    }
  }

  /** `realloc` of null gives a fresh block, or null and nothing else where memory is out. */
  lemma ReallocNullSound(s: State, h: Heap, around: seq<int>, stale: nat, size: uint32, system: Memalign)
    requires Sound(s, h, around, stale) && (system.Aligned? ==> Fresh(h, Block(system.base, size), around))
    ensures ReallocCall(s, NULL, size, system).Done?
    ensures var r := ReallocCall(s, NULL, size, system).value;
            if system.Aligned? then
              var b := Block(system.base, size);
              && r.ret == b.Ptr() != NULL && Sound(r.state, Allocated(h, b), around, stale)
              && UserKept(s.memory, r.state.memory, h)
            else r.ret == NULL && r.state == s
  {
    hide MallocCall, Sound, Fresh, Allocated, UserKept;
    MallocCallSound(s, h, around, stale, size, system);
    if system.Aligned? { FreshAddress(h, Block(system.base, size), around); }
  }

  lemma SameKept(m: Memory, h: Heap, at: int, n: nat)
    ensures UserKept(m, m, h) && Moved(m, at, m, at, n)
  {
  }

  lemma FewerKept(m: Memory, m': Memory, h: Heap, b: Block)
    requires UserKept(m, m', h)
    ensures UserKept(m, m', Heap(h.live - {b}, []))
  {
    forall a | LiveByte(Heap(h.live - {b}, []), a) ensures LiveByte(h, a) {
      var c :| c in h.live - {b} && c.Serves(a);
      assert c in h.live;
    }
  }

  lemma OldSize(s: State, h: Heap, around: seq<int>, stale: nat, b: Block)
    requires Sound(s, h, around, stale) && b in h.live && b.Ptr() < ADDRESS_LIMIT && b.End() <= ADDRESS_LIMIT
    ensures (Load(s.memory, b.base) - b.Ptr()) % ADDRESS_LIMIT == b.size && b.base == b.Ptr() - RZ_SIZE
  {
    hide Load;
    LiveRecorded(s.memory, h, b);
  }

  lemma ReallocatedLive(h: Heap, b: Block, size: nat, system: Memalign, around: seq<int>)
    requires b in h.live && (system.Aligned? ==> Fresh(h, Block(system.base, size), around))
    ensures var h' := Reallocated(h, b.Ptr(), b, size, system);
            b in h'.live <==> !Ends(b, size, system)
    ensures system.Aligned? ==> b != Block(system.base, size)
  {
    hide Evicted, Placed;
    if system.Aligned? { assert Owned(h, b) && Apart(Block(system.base, size), b); }
  }

  /** The copy and the release that end a `realloc` with a new block. */
  lemma MoveSound(s: State, r: Reply, h: Heap, around: seq<int>, stale: nat, b: Block, c: Block)
    requires Sound(s, h, around, stale) && Fresh(h, c, around) && b != c && b.Ptr() < ADDRESS_LIMIT
    requires Sound(r.state, Allocated(h, c), around, stale) && UserKept(s.memory, r.state.memory, h) && r.ret == c.Ptr()
    requires b in h.live && Freeable(Allocated(h, c), stale, b)
    ensures var n := Min(c.size, b.size);
            var moved := FreeCall(r.state.(memory := Copied(r.state.memory, b.Ptr(), c.Ptr(), n)), b.Ptr(), c.Ptr());
            && moved.Done? && moved.value.ret == c.Ptr()
            && Sound(moved.value.state, Released(Allocated(h, c), b), around, StaleAfter(b))
            && UserKept(s.memory, moved.value.state.memory, Heap(h.live - {b}, []))
            && Moved(s.memory, b.Ptr(), moved.value.state.memory, c.Ptr(), n)
  {
    hide FreeStep, Sound, Fresh, Harmless, Evicted, LiveByte, UserKept, Moved, Copied;
    var n, h1 := Min(c.size, b.size), Allocated(h, c);
    var m := Copied(r.state.memory, b.Ptr(), c.Ptr(), n);
    CopyInside(r.state.memory, b.Ptr(), c, n);
    NewBytes(h, c, around);
    CopySound(r.state, h, around, stale, b, c);
    FreeSound(r.state.(memory := m), h1, around, stale, b);
    var m' := FreeStep(r.state.(memory := m), b.Ptr()).value.state.memory;
    CopyMoves(s.memory, r.state.memory, h, b, c, n);
    MovedKept(s.memory, b.Ptr(), m, m', Heap(h1.live - {b}, []), c, n);
    OthersLive(h, b, c);
    RestKept(s.memory, r.state.memory, m, m', h, b, c);
  }

  lemma CopySound(s: State, h: Heap, around: seq<int>, stale: nat, b: Block, c: Block)
    requires Sound(s, Allocated(h, c), around, stale) && Fresh(h, c, around)
    ensures Sound(s.(memory := Copied(s.memory, b.Ptr(), c.Ptr(), Min(c.size, b.size))), Allocated(h, c), around, stale)
  {
    hide Sound, Fresh, LiveByte, Copied;
    var n := Min(c.size, b.size);
    CopyInside(s.memory, b.Ptr(), c, n);
    NewBytes(h, c, around);
    UserWriteSound(s, Allocated(h, c), around, stale, Copied(s.memory, b.Ptr(), c.Ptr(), n));
  }

  /** The first `n` bytes from one place are now at another. */
  predicate Moved(m: Memory, from: int, m': Memory, to: int, n: nat) {
    forall a :: to <= a < to + n ==> m'(a) == m(a - to + from)
  }

  lemma CopyInside(m: Memory, from: int, c: Block, n: nat)
    requires n <= c.size
    ensures forall x :: !c.Serves(x) ==> Copied(m, from, c.Ptr(), n)(x) == m(x)
  {
  }

  lemma CopyMoves(m: Memory, m1: Memory, h: Heap, b: Block, c: Block, n: nat)
    requires b in h.live && n <= b.size && UserKept(m, m1, h)
    ensures Moved(m, b.Ptr(), Copied(m1, b.Ptr(), c.Ptr(), n), c.Ptr(), n)
  {
    hide LiveByte, Copied, UserKept;
    var from, to, m2 := b.Ptr(), c.Ptr(), Copied(m1, b.Ptr(), c.Ptr(), n);
    forall a | to <= a < to + n ensures m2(a) == m(a - to + from) {
      var x := a - to + from;
      ServedLive(h, b, x);
      KeptByte(m, m1, h, x);
      CopiedByte(m1, from, to, n, a, x);
    }
  }

  lemma KeptByte(m: Memory, m': Memory, h: Heap, a: int)
    requires UserKept(m, m', h) && LiveByte(h, a)
    ensures m'(a) == m(a)
  {
  }

  lemma CopiedByte(m: Memory, from: int, to: int, n: nat, a: int, x: int)
    requires to <= a < to + n && x == a - to + from
    ensures Copied(m, from, to, n)(a) == m(x)
  {
    assert from + (a - to) == x;
  }

  lemma MovedKept(m: Memory, from: int, m1: Memory, m2: Memory, h: Heap, c: Block, n: nat)
    requires c in h.live && n <= c.size && UserKept(m1, m2, h) && Moved(m, from, m1, c.Ptr(), n)
    ensures Moved(m, from, m2, c.Ptr(), n)
  {
    hide LiveByte;
    forall a | c.Ptr() <= a < c.Ptr() + n ensures m2(a) == m(a - c.Ptr() + from) {
      ServedLive(h, c, a);
      assert m2(a) == m1(a);
    }
  }

  lemma RestKept(m: Memory, m1: Memory, m2: Memory, m3: Memory, h: Heap, b: Block, c: Block)
    requires UserKept(m, m1, h) && (forall x :: !c.Serves(x) ==> m2(x) == m1(x))
    requires UserKept(m2, m3, Heap(Allocated(h, c).live - {b}, [])) && forall a :: LiveByte(h, a) ==> !c.Serves(a)
    requires forall a :: LiveByte(Heap(h.live - {b}, []), a) ==> LiveByte(h, a) && LiveByte(Heap(Allocated(h, c).live - {b}, []), a)
    ensures UserKept(m, m3, Heap(h.live - {b}, []))
  {
    hide LiveByte;
  }

  lemma ServedLive(h: Heap, c: Block, a: int)
    requires c in h.live && c.Serves(a)
    ensures LiveByte(h, a)
  {
  }

  lemma OthersLive(h: Heap, b: Block, c: Block)
    ensures forall a :: LiveByte(Heap(h.live - {b}, []), a) ==> LiveByte(h, a) && LiveByte(Heap(Allocated(h, c).live - {b}, []), a)
  {
    forall a | LiveByte(Heap(h.live - {b}, []), a) ensures LiveByte(h, a) && LiveByte(Heap(Allocated(h, c).live - {b}, []), a) {
      var d :| d in h.live - {b} && d.Serves(a);
      assert d in h.live && d in Allocated(h, c).live - {b};
    }
  }

  // --- What the calls leave alone ---

  lemma MallocOutside(s: State, b: Block, a: int)
    requires b.base < ADDRESS_LIMIT && b.size < ADDRESS_LIMIT && b.End() <= ADDRESS_LIMIT && !b.Has(a)
    ensures MallocStep(s, b.size, b.base).Done? ==> MallocStep(s, b.size, b.base).value.memory(a) == s.memory(a)
  {
    hide Poisoned, PoisonOk, RecordByte;
    RightAddress(b);
    RecordedNow(s.memory, b);
    WordsInside(b, a);
  }

  lemma MallocCallOutside(s: State, h: Heap, around: seq<int>, size: uint32, system: Memalign, a: int)
    requires system.Aligned? ==> Fresh(h, Block(system.base, size), around) && !Block(system.base, size).Has(a)
    ensures MallocCall(s, size, system).Done? ==> MallocCall(s, size, system).value.state.memory(a) == s.memory(a)
  {
    hide MallocStep, Fresh;
    if system.Aligned? {
      FreshAddress(h, Block(system.base, size), around);
      MallocOutside(s, Block(system.base, size), a);
    }
  }

  /** `calloc` changes no byte but of its block. */
  lemma CallocOutside(s: State, h: Heap, around: seq<int>, nmemb: uint32, size: uint32, b: Block, a: int)
    requires b.base < ADDRESS_LIMIT && b.size == nmemb * size % ADDRESS_LIMIT && Fresh(h, b, around) && !b.Has(a)
    ensures var r := CallocCall(s, nmemb, size, Aligned(b.base)); r.Done? ==> r.value.state.memory(a) == s.memory(a)
  {
    hide MallocCall, Fresh, Cleared;
    var n: uint32 := b.size;
    MallocCallOutside(s, h, around, n, Aligned(b.base), a);
    FreshReply(s, b, n);
    FreshAddress(h, b, around);
    if MallocCall(s, n, Aligned(b.base)).Done? {
      ClearedOutside(MallocCall(s, n, Aligned(b.base)).value.state.memory, b, a);
    }
  }

  lemma FreshReply(s: State, b: Block, n: uint32)
    requires b.base < ADDRESS_LIMIT
    ensures var r := MallocCall(s, n, Aligned(b.base)); r.Done? ==> r.value.ret == b.Ptr() % ADDRESS_LIMIT
  {
    hide MallocStep;
  }

  lemma ClearedOutside(m: Memory, b: Block, a: int)
    requires !b.Has(a)
    ensures Cleared(m, b.Ptr(), b.size)(a) == m(a)
  {
  }

  /** Whether `realloc` releases the block it is given, and whether it moves its bytes first. */
  predicate Ends(b: Block, size: nat, system: Memalign) { size == 0 || Moves(b, size, system) }
  predicate Moves(b: Block, size: nat, system: Memalign) { size != 0 && size != b.size && system.Aligned? }

  /** Where `realloc` does not end the block it changes nothing at all. */
  lemma ReallocRefused(s: State, h: Heap, around: seq<int>, stale: nat, b: Block, size: uint32, system: Memalign)
    requires Sound(s, h, around, stale) && b in h.live && b.Ptr() < ADDRESS_LIMIT && !Ends(b, size, system)
    ensures var r := ReallocCall(s, b.Ptr(), size, system); r.Done? && r.value.state == s
    ensures Reallocated(h, b.Ptr(), b, size, system) == h
  {
    hide Sound, Load, MallocStep;
    BlockAddress(s, h, around, stale, b);
    OldSize(s, h, around, stale, b);
  }

  /** `realloc` changes no byte but of the blocks the allocator holds, the new one, and at a stale tail. */
  lemma ReallocOutside(s: State, h: Heap, around: seq<int>, stale: nat, b: Block, size: uint32, system: Memalign, a: int)
    requires Sound(s, h, around, stale) && Reallocable(h, stale, b, size, system) && b.Ptr() < ADDRESS_LIMIT && Ends(b, size, system)
    requires system.Aligned? ==> Fresh(h, Block(system.base, size), around) && !Block(system.base, size).Has(a)
    requires !HeldByte(h, a) && !(stale != NULL && stale <= a < stale + WORD)
    ensures var r := ReallocCall(s, b.Ptr(), size, system); r.Done? && r.value.state.memory(a) == s.memory(a)
  {
    hide Sound, Harmless, FreeStep, MallocCall, Fresh, Load, HeldByte, Copied;
    BlockAddress(s, h, around, stale, b);
    OldSize(s, h, around, stale, b);
    if size == 0 {
      FreeSound(s, h, around, stale, b);
      FreeOutside(s, h, around, stale, b, a);
    } else {
      var c, n := Block(system.base, size), Min(size, b.size);
      MallocCallSound(s, h, around, stale, size, system);
      MallocCallOutside(s, h, around, size, system, a);
      FreshAddress(h, c, around);
      var r := MallocCall(s, size, system).value;
      CopySound(r.state, h, around, stale, b, c);
      CopyInside(r.state.memory, b.Ptr(), c, n);
      NotHeldNow(h, c, a);
      var moved := r.state.(memory := Copied(r.state.memory, b.Ptr(), c.Ptr(), n));
      FreeSound(moved, Allocated(h, c), around, stale, b);
      FreeOutside(moved, Allocated(h, c), around, stale, b, a);
    }
  }

  lemma NotHeldNow(h: Heap, c: Block, a: int)
    requires !HeldByte(h, a) && !c.Has(a)
    ensures !HeldByte(Allocated(h, c), a) && !c.Serves(a)
  {
    forall d | Owned(Allocated(h, c), d) ensures !d.Has(a) { assert d == c || Owned(h, d); }
  }

  /** `calloc` serves all the bytes asked for exactly when their number fits a `size_t`. */
  lemma CallocServes(nmemb: nat, size: nat, base: nat)
    ensures var b := Block(base, nmemb * size % ADDRESS_LIMIT);
            (forall a :: b.Ptr() <= a < b.Ptr() + nmemb * size ==> b.Serves(a)) <==> nmemb * size < ADDRESS_LIMIT
  {
    var n := nmemb * size;
    var b := Block(base, n % ADDRESS_LIMIT);
    if n >= ADDRESS_LIMIT {
      assert !b.Serves(b.Ptr() + (n - 1));
    }
  }

  // --- The runtime as the code keeps it ---

  class Runtime {
    const shadow: array<int>
    var memory: Memory
    var quarantineSize: nat
    var quarantineHead: uint32
    var quarantineTail: uint32

    function CurrentState(): State
      reads this, shadow
    {
      State(shadow[..], memory, quarantineSize, quarantineHead, quarantineTail)
    }

    /** The runtime of a program that has not allocated anything. */
    constructor (granules: nat, memory: Memory)
      ensures fresh(shadow) && CurrentState() == State(seq(granules, _ => 0), memory, 0, NULL, NULL)
    {
      shadow := new int[granules](_ => 0);
      this.memory := memory;
      quarantineSize, quarantineHead, quarantineTail := 0, NULL, NULL;
    }

    /** Allocates a block with both redzones poisoned, or returns null. */
    method Malloc(size: uint32, system: Memalign) returns (ret: uint32)
      requires MallocCall(CurrentState(), size, system).Done?
      modifies this`memory, shadow
      ensures MallocCall(old(CurrentState()), size, system) == Done(Reply(ret, CurrentState()))
      ensures forall h, around, stale ::
                Sound(old(CurrentState()), h, around, stale) && (system.Aligned? ==> Fresh(h, Block(system.base, size), around)) ==>
                  Sound(CurrentState(), if system.Aligned? then Allocated(h, Block(system.base, size)) else h, around, stale)
    {
      hide Poisoned, Sound, Fresh, Store;
      ghost var s := CurrentState();
      forall h, around, stale | Sound(s, h, around, stale) && (system.Aligned? ==> Fresh(h, Block(system.base, size), around))
        ensures Sound(MallocCall(s, size, system).value.state, if system.Aligned? then Allocated(h, Block(system.base, size)) else h, around, stale)
      {
        MallocCallSound(s, h, around, stale, size, system);
      }
      var padding := if size % SHADOW_SCALE == 0 then 0 else SHADOW_SCALE - size % SHADOW_SCALE;
      var rzLeftSize := RZ_SIZE;
      var rzRightSize := RZ_SIZE + padding;
      if system.NoMemory? {
        return NULL;
      }
      var rzLeft := system.base;
      ret := (rzLeft + rzLeftSize) % ADDRESS_LIMIT;
      var rzRight := (rzLeft + rzLeftSize + size) % ADDRESS_LIMIT;
      Poison(shadow, rzLeft, rzLeftSize, HEAP_POISON);
      Poison(shadow, rzRight, rzRightSize, HEAP_POISON);
      memory := Store(memory, rzLeft, rzRight);
      memory := Store(memory, rzRight, rzRightSize);
    }

    /** The loop at the end of `__asan_free`: releases the oldest entries while over the limit. */
    method Evict()
      requires EvictStep(CurrentState()).Done?
      modifies this`quarantineHead, this`quarantineSize, shadow
      ensures EvictStep(old(CurrentState())) == Done(CurrentState())
    {
      hide Unpoisoned, Load;
      while quarantineSize > QUARANTINE_MAX_SIZE
        invariant EvictStep(CurrentState()) == EvictStep(old(CurrentState()))
        decreases quarantineSize
      {
        var freed := quarantineHead;
        var size := Load(memory, freed + WORD);
        Unpoison(shadow, freed, size);
        quarantineSize := quarantineSize - size;
        quarantineHead := Load(memory, freed);
      }
    }

    /** The middle of `__asan_free`: poisons the whole block and links it behind the tail. */
    method Enqueue(ptr: uint32)
      requires ptr >= RZ_SIZE && EnqueueStep(CurrentState(), ptr).Done?
      modifies this`memory, this`quarantineHead, this`quarantineTail, this`quarantineSize, shadow
      ensures EnqueueStep(old(CurrentState()), ptr) == Done(CurrentState())
    {
      hide Poisoned, Load, Store;
      var rzLeft := ptr - RZ_SIZE;
      var rzRight := Load(memory, rzLeft);
      var rzRightSize := Load(memory, rzRight);
      var totalSize := (rzRightSize + (rzRight - rzLeft)) % ADDRESS_LIMIT;
      Poison(shadow, rzLeft, totalSize, FREED_POISON);
      memory := Store(memory, rzLeft, NULL);
      memory := Store(memory, rzLeft + WORD, totalSize);
      if quarantineTail != NULL {
        memory := Store(memory, quarantineTail, rzLeft);
      }
      quarantineTail := rzLeft;
      if quarantineHead == NULL {
        quarantineHead := rzLeft;
      }
      quarantineSize := quarantineSize + totalSize;
    }

    /** Quarantines a live block and evicts old ones; null is ignored and a block already in
        quarantine is reported. */
    method Free(ptr: uint32) returns (outcome: FreeOutcome)
      requires FreeStep(CurrentState(), ptr).Done?
      modifies this`memory, this`quarantineHead, this`quarantineTail, this`quarantineSize, shadow
      ensures FreeStep(old(CurrentState()), ptr) == Done(Freed(outcome, CurrentState()))
      ensures ptr == NULL ==> outcome == Ignored && CurrentState() == old(CurrentState())
      ensures forall h, around, stale, b: Block ::
                Sound(old(CurrentState()), h, around, stale) && b.Ptr() == ptr && Freeable(h, stale, b) ==>
                  outcome == Quarantined && Sound(CurrentState(), Released(h, b), around, StaleAfter(b))
    {
      hide EnqueueStep, EvictStep, Sound, Freeable;
      ghost var s := CurrentState();
      forall h, around, stale, b: Block | Sound(s, h, around, stale) && b.Ptr() == ptr && Freeable(h, stale, b)
        ensures FreeStep(s, ptr).value.outcome == Quarantined && Sound(FreeStep(s, ptr).value.state, Released(h, b), around, StaleAfter(b))
      {
        FreeSound(s, h, around, stale, b);
      }
      if ptr == NULL {
        return Ignored;
      }
      if shadow[ptr / SHADOW_SCALE] == FREED_POISON {
        return DoubleFree;
      }
      Enqueue(ptr);
      Evict();
      outcome := Quarantined;
    }

    /** Allocates and clears. */
    method Calloc(nmemb: uint32, size: uint32, system: Memalign) returns (ret: uint32)
      requires CallocCall(CurrentState(), nmemb, size, system).Done?
      modifies this`memory, shadow
      ensures CallocCall(old(CurrentState()), nmemb, size, system) == Done(Reply(ret, CurrentState()))
      ensures forall h, around, stale ::
                var b := Block(if system.Aligned? then system.base else 0, nmemb * size % ADDRESS_LIMIT);
                Sound(old(CurrentState()), h, around, stale) && system.Aligned? && Fresh(h, b, around) ==>
                  Sound(CurrentState(), Allocated(h, b), around, stale) && forall a :: b.Serves(a) ==> memory(a) == 0
    {
      hide MallocCall, Sound, Fresh;
      ghost var s := CurrentState();
      forall h, around, stale | Sound(s, h, around, stale) && system.Aligned? && Fresh(h, Block(system.base, nmemb * size % ADDRESS_LIMIT), around)
        ensures var b, r := Block(system.base, nmemb * size % ADDRESS_LIMIT), CallocCall(s, nmemb, size, system).value;
                Sound(r.state, Allocated(h, b), around, stale) && forall a :: b.Serves(a) ==> r.state.memory(a) == 0
      {
        CallocSound(s, h, around, stale, nmemb, size, system);
      }
      var allocSize := nmemb * size % ADDRESS_LIMIT;
      ret := Malloc(allocSize, system);
      if ret != NULL {
        memory := Cleared(memory, ret, allocSize);
      }
    }

    /** Moves a live block to a new one of another size, keeping what fits. */
    method Realloc(ptr: uint32, size: uint32, system: Memalign) returns (ret: uint32)
      requires ReallocCall(CurrentState(), ptr, size, system).Done?
      modifies this`memory, this`quarantineHead, this`quarantineTail, this`quarantineSize, shadow
      ensures ReallocCall(old(CurrentState()), ptr, size, system) == Done(Reply(ret, CurrentState()))
      ensures ptr == NULL && system.Aligned? ==>
                forall h, around, stale ::
                  var b := Block(system.base, size);
                  Sound(old(CurrentState()), h, around, stale) && Fresh(h, b, around) ==>
                    ret == b.Ptr() && Sound(CurrentState(), Allocated(h, b), around, stale)
    {
      hide MallocCall, FreeStep, Copied, Load, Sound, Fresh, Allocated;
      ghost var s := CurrentState();
      if ptr == NULL && system.Aligned? {
        forall h, around, stale | Sound(s, h, around, stale) && Fresh(h, Block(system.base, size), around)
          ensures var b, r := Block(system.base, size), ReallocCall(s, NULL, size, system).value;
                  r.ret == b.Ptr() && Sound(r.state, Allocated(h, b), around, stale)
        {
          ReallocNullSound(s, h, around, stale, size, system);
        }
      }
      if ptr == NULL {
        ret := Malloc(size, system);
        return;
      }
      if size == 0 {
        var _ := Free(ptr);
        return NULL;
      }
      var rzRight := Load(memory, ptr - RZ_SIZE);
      var oldSize := (rzRight - ptr) % ADDRESS_LIMIT;
      if size == oldSize {
        return ptr;
      }
      var newAlloc := Malloc(size, system);
      if newAlloc == NULL {
        return NULL;
      }
      var copyable := Min(size, oldSize);
      memory := Copied(memory, ptr, newAlloc, copyable);
      var _ := Free(ptr);
      ret := newAlloc;
    }

    /** The strict check before a store, and any access that is not an aligned word load. */
    method Check(ptr: nat, size: AccessSize) returns (ok: bool)
      requires ptr / SHADOW_SCALE < shadow.Length
      ensures ok == CheckPasses(shadow[..], ptr, size)
      ensures forall h, around, stale ::
                Sound(CurrentState(), h, around, stale) && WellFormed(around) && ptr % size == 0 && HeldByte(h, ptr) ==>
                  (ok <==> forall a :: ptr <= a < ptr + size ==> LiveByte(h, a))
    {
      hide LiveByte, HeldByte, Metadata, WellFormed;
      var v := shadow[ptr / SHADOW_SCALE];
      ok := if size == SHADOW_SCALE then v == 0 else v == 0 || ptr % SHADOW_SCALE + size <= v;
      forall h, around, stale | Sound(CurrentState(), h, around, stale) && WellFormed(around) && ptr % size == 0 && HeldByte(h, ptr)
        ensures ok <==> forall a :: ptr <= a < ptr + size ==> LiveByte(h, a)
      {
        HeapCheckExact(shadow[..], h, around, ptr, size);
      }
    }
  }
}
