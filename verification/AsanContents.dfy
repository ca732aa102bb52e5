/** What a program finds in its memory: the allocator's own words stay out of live objects. */
module AsanContents {
  import opened Bytes
  import opened AsanMemory
  import opened AsanHeap
  import opened AsanRuntime
  import opened AsanPrograms
  import I = AsanInstrumentation

  // --- One step ---

  /** Memory handed out has no byte of a live object. */
  lemma VacantApart(image: Image, p: Program, b: Block, a: int)
    requires Vacant(image, p, b) && LiveObject(image, p, a)
    ensures !b.Has(a)
  {
    hide BlockApart, GlobalOrVariable, Placed;
    if LiveByte(p.heap, a) {
      var c :| c in p.heap.live && c.Serves(a);
      assert Owned(p.heap, c) && Apart(b, c);
    } else {
      ApartFromOutside(image, p.frames, b, a);
    }
  }

  lemma AllocateKeeps(image: Image, s: State, p: Program, b: Block, a: int)
    requires Means(image, s, p) && Vacant(image, p, b) && LiveObject(image, p, a)
    ensures CodeStep(s, p.frames, Allocate(b)).Done? && CodeStep(s, p.frames, Allocate(b)).value.memory(a) == s.memory(a)
  {
    hide ImageOk, Sound, MallocStep, Separate, Vacant, Around, LiveObject;
    AllocateMeans(image, s, p, b);
    VacantApart(image, p, b, a);
    VacantAddress(image, p, b);
    MallocOutside(s, b, a);
  }

  lemma VacantAddress(image: Image, p: Program, b: Block)
    requires Vacant(image, p, b)
    ensures b.base < ADDRESS_LIMIT && b.size < ADDRESS_LIMIT && b.End() <= ADDRESS_LIMIT
  {
    PlacedBase(b, image.granules);
  }

  lemma CallocKeeps(image: Image, s: State, p: Program, nmemb: uint32, size: uint32, base: uint32, a: int)
    requires Means(image, s, p) && Permitted(image, p, Calloc(nmemb, size, base)) && LiveObject(image, p, a)
    ensures var r := CodeStep(s, p.frames, Calloc(nmemb, size, base)); r.Done? && r.value.memory(a) == s.memory(a)
  {
    hide ImageOk, Sound, CallocCall, FramesOk, Vacant, Around, LiveObject, Fresh;
    var b := ProductBlock(nmemb, size, base);
    CallocMeans(image, s, p, nmemb, size, base);
    VacantApart(image, p, b, a);
    FreshBlock(image, p, b);
    CallocOutside(s, p.heap, Around(image, p.frames), nmemb, size, b, a);
  }

  lemma TailMisses(image: Image, p: Program, a: int)
    requires TailSpares(image, p) && GlobalOrVariable(image, p.frames, a)
    ensures !(p.stale != NULL && p.stale <= a < p.stale + WORD)
  {
    hide GlobalOrVariable;
    assert a in OutsideHeap(image, p.frames);
  }

  /** A free changes no byte of another live object. */
  lemma ReleaseKeeps(image: Image, s: State, p: Program, b: Block, a: int)
    requires Means(image, s, p) && Permitted(image, p, Release(b))
    requires LiveByte(Heap(p.heap.live - {b}, []), a) || GlobalOrVariable(image, p.frames, a)
    ensures CodeStep(s, p.frames, Release(b)).Done? && CodeStep(s, p.frames, Release(b)).value.memory(a) == s.memory(a)
  {
    hide ImageOk, Sound, FreeStep, FramesOk, Around, GlobalOrVariable, LiveByte, HeldByte, BlockApart, Harmless, Released;
    var around := Around(image, p.frames);
    BlockAddress(s, p.heap, around, p.stale, b);
    FreeSound(s, p.heap, around, p.stale, b);
    if !LiveByte(Heap(p.heap.live - {b}, []), a) {
      NotHeld(image, p, a);
      TailMisses(image, p, a);
      FreeOutside(s, p.heap, around, p.stale, b, a);
    }
  }

  lemma ReallocKeeps(image: Image, s: State, p: Program, b: Block, size: uint32, system: Memalign, a: int)
    requires Means(image, s, p) && Permitted(image, p, Realloc(b, size, system)) && Ends(b, size, system) && LiveObject(image, p, a)
    requires LiveByte(Heap(p.heap.live - {b}, []), a) || GlobalOrVariable(image, p.frames, a)
    ensures var r := CodeStep(s, p.frames, Realloc(b, size, system)); r.Done? && r.value.memory(a) == s.memory(a)
  {
    hide ImageOk, Sound, ReallocCall, FramesOk, Around, GlobalOrVariable, LiveByte, HeldByte, BlockApart, Harmless, Reallocated, Fresh, Vacant, LiveObject;
    var around := Around(image, p.frames);
    BlockAddress(s, p.heap, around, p.stale, b);
    if system.Aligned? {
      FreshBlock(image, p, Block(system.base, size));
      VacantApart(image, p, Block(system.base, size), a);
    }
    ReallocSound(s, p.heap, around, p.stale, b, size, system);
    if !LiveByte(Heap(p.heap.live - {b}, []), a) {
      NotHeld(image, p, a);
      TailMisses(image, p, a);
      ReallocOutside(s, p.heap, around, p.stale, b, size, system, a);
    }
  }

  lemma ReallocNullKeeps(image: Image, s: State, p: Program, size: uint32, system: Memalign, a: int)
    requires Means(image, s, p) && Permitted(image, p, ReallocNull(size, system)) && LiveObject(image, p, a)
    ensures var r := CodeStep(s, p.frames, ReallocNull(size, system)); r.Done? && r.value.memory(a) == s.memory(a)
  {
    hide ImageOk, Sound, MallocCall, FramesOk, Around, LiveObject, Vacant, Fresh;
    ReallocNullMeans(image, s, p, size, system);
    if system.Aligned? {
      FreshBlock(image, p, Block(system.base, size));
      VacantApart(image, p, Block(system.base, size), a);
    }
    MallocCallOutside(s, p.heap, Around(image, p.frames), size, system, a);
  }

  /** A byte still live without `b` is another block's or outside the heap. */
  lemma StillLive(image: Image, p: Program, p': Program, b: Block, a: int)
    requires LiveObject(image, p', a) && p'.frames == p.frames && p'.heap.live == p.heap.live - {b}
    ensures LiveByte(Heap(p.heap.live - {b}, []), a) || GlobalOrVariable(image, p.frames, a)
  {
    hide GlobalOrVariable;
  }

  lemma StillLiveMoved(image: Image, p: Program, p': Program, b: Block, c: Block, a: int)
    requires LiveObject(image, p', a) && p'.frames == p.frames && p'.heap.live == p.heap.live + {c} - {b} && !c.Has(a)
    ensures LiveByte(Heap(p.heap.live - {b}, []), a) || GlobalOrVariable(image, p.frames, a)
  {
    hide GlobalOrVariable;
    if !GlobalOrVariable(image, p.frames, a) {
      var d :| d in p'.heap.live && d.Serves(a);
      assert d != c && d in p.heap.live - {b};
    }
  }

  /** No step changes a byte that is in a live object before it and after it, but by writing there. */
  lemma StepKeeps(image: Image, s: State, p: Program, e: Event, a: int)
    requires Means(image, s, p) && Permitted(image, p, e)
    requires LiveObject(image, p, a) && LiveObject(image, Next(p, e), a) && !(e.Write? && e.at == a)
    ensures CodeStep(s, p.frames, e).Done? && CodeStep(s, p.frames, e).value.memory(a) == s.memory(a)
  {
    hide Means, LiveObject, Vacant, Harmless, Evicted, FreeStep, MallocStep, CallocCall, ReallocCall, EntryStores, I.Applied, I.StoresFit, Around;
    StepMeans(image, s, p, e);
    match e
    case Allocate(b) => AllocateKeeps(image, s, p, b, a);
    case Calloc(nmemb, size, base) => CallocKeeps(image, s, p, nmemb, size, base, a);
    case Realloc(b, size, system) => StepReallocKeeps(image, s, p, b, size, system, a);
    case ReallocNull(size, system) => ReallocNullKeeps(image, s, p, size, system, a);
    case Release(b) =>
      StillLive(image, p, Next(p, e), b, a);
      ReleaseKeeps(image, s, p, b, a);
    case Enter(f) =>
    case Return =>
    case Write(at, v) =>
  }

  lemma StepReallocKeeps(image: Image, s: State, p: Program, b: Block, size: uint32, system: Memalign, a: int)
    requires Means(image, s, p) && Permitted(image, p, Realloc(b, size, system))
    requires LiveObject(image, p, a) && LiveObject(image, Next(p, Realloc(b, size, system)), a)
    ensures var r := CodeStep(s, p.frames, Realloc(b, size, system)); r.Done? && r.value.memory(a) == s.memory(a)
  {
    hide Sound, ImageOk, Separate, LiveObject, Vacant, Harmless, Evicted, ReallocCall, Around;
    SameFrames(image, p, p);
    var p', around := Next(p, Realloc(b, size, system)), Around(image, p.frames);
    if !Ends(b, size, system) {
      BlockAddress(s, p.heap, around, p.stale, b);
      ReallocRefused(s, p.heap, around, p.stale, b, size, system);
    } else {
      if size == 0 {
        StillLive(image, p, p', b, a);
      } else {
        VacantApart(image, p, Block(system.base, size), a);
        StillLiveMoved(image, p, p', b, Block(system.base, size), a);
      }
      ReallocKeeps(image, s, p, b, size, system, a);
    }
  }

  /** So in any run no call of the runtime changes a byte of a live object but of one it ends. */
  lemma RunKeeps(image: Image, memory: Memory, events: seq<Event>, e: Event, a: int)
    requires ImageOk(image) && PermittedRun(image, events + [e])
    requires LiveObject(image, ProgramRun(events), a) && LiveObject(image, ProgramRun(events + [e]), a) && !(e.Write? && e.at == a)
    ensures CodeRun(image, memory, events).Done? && CodeRun(image, memory, events + [e]).Done?
    ensures CodeRun(image, memory, events + [e]).value.memory(a) == CodeRun(image, memory, events).value.memory(a)
  {
    hide ImageOk, Means, Permitted, CodeStep, Next, LiveObject, PermittedRun, ProgramRun, CodeRun;
    RunOne(image, memory, events, e);
    RunMeans(image, memory, events);
    StepKeeps(image, CodeRun(image, memory, events).value, ProgramRun(events), e, a);
  }

  // --- What is known of memory ---

  datatype Known = Unknown | Holds(v: byte)

  /** What the C library promises of memory: `malloc` and new variables hold anything, `calloc` zeros,
      `realloc` the old bytes as far as they fit, and every other byte what was last written there. */
  function Learned(k: int -> Known, e: Event): int -> Known {
    match e
    case Allocate(b) => x => if b.Serves(x) then Unknown else k(x)
    case Calloc(nmemb, size, base) => x => if ProductBlock(nmemb, size, base).Serves(x) then Holds(0) else k(x)
    case Realloc(b, size, system) =>
      if Moves(b, size, system) then Carried(k, b, Block(system.base, size)) else k
    case ReallocNull(size, system) => x => if system.Aligned? && Block(system.base, size).Serves(x) then Unknown else k(x)
    case Release(_) => k
    case Enter(f) => x => if f.Has(x) then Unknown else k(x)
    case Return => k
    case Write(at, v) => x => if x == at then Holds(v) else k(x)
  }

  function Carried(k: int -> Known, b: Block, c: Block): int -> Known { x => CarriedAt(k, b, c, x) }

  function CarriedAt(k: int -> Known, b: Block, c: Block, x: int): Known {
    if !c.Serves(x) then k(x) else if x < c.Ptr() + b.size then k(x - c.Ptr() + b.Ptr()) else Unknown
  }

  function KnownAfter(memory: Memory, events: seq<Event>): int -> Known {
    if events == [] then x => Holds(memory(x))
    else Learned(KnownAfter(memory, events[..|events| - 1]), events[|events| - 1])
  }

  /** Every live byte has the value it is known to hold. */
  ghost predicate Remembers(image: Image, s: State, p: Program, k: int -> Known) {
    forall a :: LiveObject(image, p, a) && k(a).Holds? ==> s.memory(a) == k(a).v
  }

  /** The step makes the byte part of a new object. */
  predicate Made(e: Event, a: int) {
    match e
    case Allocate(b) => b.Serves(a)
    case Calloc(nmemb, size, base) => ProductBlock(nmemb, size, base).Serves(a)
    case Realloc(b, size, system) => Moves(b, size, system) && Block(system.base, size).Serves(a)
    case ReallocNull(size, system) => system.Aligned? && Block(system.base, size).Serves(a)
    case Enter(f) => f.Has(a)
    case _ => false
  }

  lemma NotMade(image: Image, p: Program, e: Event, a: int)
    requires LiveObject(image, Next(p, e), a) && !Made(e, a)
    ensures LiveObject(image, p, a)
  {
    hide I.InSomeVariable, Evicted, Frame.End, Image.End;
    var p' := Next(p, e);
    if LiveByte(p'.heap, a) {
      var d :| d in p'.heap.live && d.Serves(a);
      assert d in p.heap.live;
    } else if InFrameVariable(p'.frames, a) {
      var k :| 0 <= k < |p'.frames| && p'.frames[k].Has(a) && I.InSomeVariable(p'.frames[k].sizes, a - p'.frames[k].base);
      assert k < |p.frames| && p.frames[k] == p'.frames[k];
    }
  }

  lemma NotLearned(k: int -> Known, e: Event, a: int)
    requires !Made(e, a) && !(e.Write? && e.at == a)
    ensures Learned(k, e)(a) == k(a)
  {
  }

  lemma StepRemembers(image: Image, s: State, p: Program, e: Event, k: int -> Known)
    requires Means(image, s, p) && Permitted(image, p, e) && Remembers(image, s, p, k)
    ensures CodeStep(s, p.frames, e).Done? && Remembers(image, CodeStep(s, p.frames, e).value, Next(p, e), Learned(k, e))
  {
    hide Means, Permitted, LiveObject, Next, CodeStep, Learned, Made;
    StepMeans(image, s, p, e);
    forall a | LiveObject(image, Next(p, e), a) && Learned(k, e)(a).Holds? ensures CodeStep(s, p.frames, e).value.memory(a) == Learned(k, e)(a).v {
      if Made(e, a) {
        MadeRemembers(image, s, p, e, k, a);
      } else {
        NotMade(image, p, e, a);
        if e.Write? && e.at == a {
          Written(s, p.frames, k, e);
        } else {
          NotLearned(k, e, a);
          StepKeeps(image, s, p, e, a);
        }
      }
    }
  }

  lemma Written(s: State, frames: seq<Frame>, k: int -> Known, e: Event)
    requires e.Write?
    ensures CodeStep(s, frames, e).Done? && Learned(k, e)(e.at) == Holds(CodeStep(s, frames, e).value.memory(e.at))
  {
  }

  lemma MadeRemembers(image: Image, s: State, p: Program, e: Event, k: int -> Known, a: int)
    requires Means(image, s, p) && Permitted(image, p, e) && Remembers(image, s, p, k) && Made(e, a) && Learned(k, e)(a).Holds?
    ensures CodeStep(s, p.frames, e).Done? && CodeStep(s, p.frames, e).value.memory(a) == Learned(k, e)(a).v
  {
    hide Means, Permitted, CodeStep, Learned, Made, Remembers;
    match e
    case Calloc(nmemb, size, base) =>
      ZeroLearned(k, nmemb, size, base, a);
      ZeroRemembered(image, s, p, nmemb, size, base);
    case Realloc(b, size, system) =>
      MovedLearned(k, b, size, system, a);
      MovedRemembered(image, s, p, b, size, system, k, a);
    case _ => NothingLearned(k, e, a);
  }

  lemma ZeroLearned(k: int -> Known, nmemb: uint32, size: uint32, base: uint32, a: int)
    requires Made(Calloc(nmemb, size, base), a)
    ensures ProductBlock(nmemb, size, base).Serves(a) && Learned(k, Calloc(nmemb, size, base))(a) == Holds(0)
  {
    hide ProductBlock;
  }

  lemma MovedLearned(k: int -> Known, b: Block, size: uint32, system: Memalign, a: int)
    requires Made(Realloc(b, size, system), a) && Learned(k, Realloc(b, size, system))(a).Holds?
    ensures Moves(b, size, system)
    ensures var c := Block(system.base, size);
            c.Ptr() <= a < c.Ptr() + Min(size, b.size) && Learned(k, Realloc(b, size, system))(a) == k(a - c.Ptr() + b.Ptr())
  {
    hide CarriedAt, Made;
    MadeByMove(b, size, system, a);
    var c := Block(system.base, size);
    assert Learned(k, Realloc(b, size, system))(a) == CarriedAt(k, b, c, a);
    CarriedByte(k, b, c, a);
  }

  lemma MadeByMove(b: Block, size: uint32, system: Memalign, a: int)
    requires Made(Realloc(b, size, system), a)
    ensures Moves(b, size, system) && Block(system.base, size).Serves(a)
  {
  }

  lemma CarriedByte(k: int -> Known, b: Block, c: Block, a: int)
    requires c.Serves(a) && CarriedAt(k, b, c, a).Holds?
    ensures c.Ptr() <= a < c.Ptr() + Min(c.size, b.size) && CarriedAt(k, b, c, a) == k(a - c.Ptr() + b.Ptr())
  {
  }

  lemma NothingLearned(k: int -> Known, e: Event, a: int)
    requires Made(e, a) && !e.Calloc? && !e.Realloc?
    ensures Learned(k, e)(a) == Unknown
  {
  }

  lemma ZeroRemembered(image: Image, s: State, p: Program, nmemb: uint32, size: uint32, base: uint32)
    requires Means(image, s, p) && Permitted(image, p, Calloc(nmemb, size, base))
    ensures var r := CodeStep(s, p.frames, Calloc(nmemb, size, base));
            r.Done? && forall a :: ProductBlock(nmemb, size, base).Serves(a) ==> r.value.memory(a) == 0
  {
    hide Around, ImageOk, Sound, CallocCall, FramesOk, Vacant, Fresh;
    FreshBlock(image, p, ProductBlock(nmemb, size, base));
    CallocSound(s, p.heap, Around(image, p.frames), p.stale, nmemb, size, Aligned(base));
  }

  lemma MovedRemembered(image: Image, s: State, p: Program, b: Block, size: uint32, system: Memalign, k: int -> Known, a: int)
    requires Means(image, s, p) && Permitted(image, p, Realloc(b, size, system)) && Remembers(image, s, p, k) && Moves(b, size, system)
    requires Block(system.base, size).Ptr() <= a < Block(system.base, size).Ptr() + Min(size, b.size)
    ensures var r, x := CodeStep(s, p.frames, Realloc(b, size, system)), a - Block(system.base, size).Ptr() + b.Ptr();
            r.Done? && (k(x).Holds? ==> r.value.memory(a) == k(x).v)
  {
    hide Around, ImageOk, Sound, ReallocCall, FramesOk, Vacant, Fresh, Harmless, GlobalOrVariable, UserKept, Evicted;
    var c, around, x := Block(system.base, size), Around(image, p.frames), a - Block(system.base, size).Ptr() + b.Ptr();
    FreshBlock(image, p, c);
    BlockAddress(s, p.heap, around, p.stale, b);
    FreshAddress(p.heap, c, around);
    ReallocSound(s, p.heap, around, p.stale, b, size, system);
    assert b.Serves(x);
    assert LiveByte(p.heap, x);
  }

  /** After any run every byte of a live object that the C library's promises say holds a value holds it:
      neither redzones nor links nor sizes are ever written over a program's data. */
  lemma {:induction false} RunReads(image: Image, memory: Memory, events: seq<Event>, a: int)
    requires ImageOk(image) && PermittedRun(image, events)
    requires LiveObject(image, ProgramRun(events), a) && KnownAfter(memory, events)(a).Holds?
    ensures CodeRun(image, memory, events).Done? && CodeRun(image, memory, events).value.memory(a) == KnownAfter(memory, events)(a).v
  {
    hide ImageOk, PermittedRun, LiveObject, ProgramRun, CodeRun, KnownAfter;
    RunRemembers(image, memory, events);
  }

  lemma {:induction false} RunRemembers(image: Image, memory: Memory, events: seq<Event>)
    requires ImageOk(image) && PermittedRun(image, events)
    ensures CodeRun(image, memory, events).Done?
    ensures Remembers(image, CodeRun(image, memory, events).value, ProgramRun(events), KnownAfter(memory, events))
  {
    hide ImageOk, Means, Permitted, CodeStep, Next, LiveObject, Learned, Remembers;
    if events == [] {
      NothingForgotten(image, memory);
    } else {
      var before, e := events[..|events| - 1], events[|events| - 1];
      RunMeans(image, memory, before);
      RunRemembers(image, memory, before);
      StepRemembers(image, CodeRun(image, memory, before).value, ProgramRun(before), e, KnownAfter(memory, before));
    }
  }

  lemma NothingForgotten(image: Image, memory: Memory)
    requires ImageOk(image)
    ensures Remembers(image, Initial(image, memory), START, KnownAfter(memory, []))
  {
    hide LiveObject, ImageOk;
  }

  // --- When a free is safe ---

  /** Freeing `b` does all it should: the state goes on meaning the program's objects, and no byte of
      another live object changes. */
  ghost predicate ReleasesWell(image: Image, s: State, p: Program, b: Block) {
    var r := CodeStep(s, p.frames, Release(b));
    && r.Done? && Means(image, r.value, Next(p, Release(b)))
    && forall a :: LiveObject(image, p, a) && !b.Serves(a) ==> r.value.memory(a) == s.memory(a)
  }

  /** A block of the allocator's can be freed, whatever memory holds, exactly when it is live, its size is
      an `int`, and the word at a stale tail is harmless to the heap and no variable's or global's. */
  lemma ReleaseExact(image: Image, s: State, p: Program, b: Block)
    requires Means(image, s, p) && Owned(p.heap, b)
    ensures Permitted(image, p, Release(b)) <==>
            forall m :: Means(image, s.(memory := m), p) ==> ReleasesWell(image, s.(memory := m), p, b)
  {
    hide Means, Permitted, ReleasesWell;
    if Permitted(image, p, Release(b)) {
      forall m | Means(image, s.(memory := m), p) ensures ReleasesWell(image, s.(memory := m), p, b) {
        PermittedReleases(image, s.(memory := m), p, b);
      }
    } else {
      var m := HarmfulMemory(image, s, p, b);
    }
  }

  lemma PermittedReleases(image: Image, s: State, p: Program, b: Block)
    requires Means(image, s, p) && Permitted(image, p, Release(b))
    ensures ReleasesWell(image, s, p, b)
  {
    hide Means, CodeStep, Next, GlobalOrVariable, Harmless, TailSpares;
    ReleaseMeans(image, s, p, b);
    forall a | LiveObject(image, p, a) && !b.Serves(a) ensures CodeStep(s, p.frames, Release(b)).value.memory(a) == s.memory(a) {
      OtherObject(image, p, b, a);
      ReleaseKeeps(image, s, p, b, a);
    }
  }

  lemma OtherObject(image: Image, p: Program, b: Block, a: int)
    requires LiveObject(image, p, a) && !b.Serves(a)
    ensures LiveByte(Heap(p.heap.live - {b}, []), a) || GlobalOrVariable(image, p.frames, a)
  {
    hide GlobalOrVariable;
    if LiveByte(p.heap, a) {
      var c :| c in p.heap.live && c.Serves(a);
      assert c in p.heap.live - {b};
    }
  }

  /** Where the free is not permitted there is memory with which it goes wrong. */
  lemma HarmfulMemory(image: Image, s: State, p: Program, b: Block) returns (m: Memory)
    requires Means(image, s, p) && Owned(p.heap, b) && !Permitted(image, p, Release(b))
    ensures Means(image, s.(memory := m), p) && !ReleasesWell(image, s.(memory := m), p, b)
  {
    hide Sound, ImageOk, Separate, Around, FreeStep, Harmless, ReleasesWell, FreesWell, GlobalOrVariable;
    SameFrames(image, p, p);
    var around, outside := Around(image, p.frames), OutsideHeap(image, p.frames);
    BlockAddress(s, p.heap, around, p.stale, b);
    m := s.memory;
    assert s.(memory := m) == s;
    if b !in p.heap.live || b.Total() >= 0x8000_0000 {
      FreeStuck(image, s, p, b);
    } else {
      forall a | a in outside ensures !HeldByte(p.heap, a) { NotHeld(image, p, a); }
      StaleFreeExact(s, p.heap, around, p.stale, b, outside);
      m :| Sound(s.(memory := m), p.heap, around, p.stale) && !FreesWell(s.(memory := m), p.heap, around, b, outside);
      if ReleasesWell(image, s.(memory := m), p, b) { WellIsWell(image, s.(memory := m), p, b); }
    }
  }

  lemma FreeStuck(image: Image, s: State, p: Program, b: Block)
    requires Means(image, s, p) && Owned(p.heap, b) && (b !in p.heap.live || b.Total() >= 0x8000_0000)
    ensures !ReleasesWell(image, s, p, b)
  {
    hide ImageOk, Separate, Around, FreeCall, Sound, Block.Total;
    SameFrames(image, p, p);
    BlockAddress(s, p.heap, Around(image, p.frames), p.stale, b);
    CannotFree(s, p.heap, Around(image, p.frames), p.stale, b);
  }

  lemma WellIsWell(image: Image, s: State, p: Program, b: Block)
    requires Means(image, s, p) && b in p.heap.live && b.Ptr() < ADDRESS_LIMIT && ReleasesWell(image, s, p, b)
    ensures FramesOk(image, p.frames) && FreesWell(s, p.heap, Around(image, p.frames), b, OutsideHeap(image, p.frames))
  {
    hide ImageOk, FramesOk, Around, FreeStep, Sound, GlobalOrVariable, BlockApart, HeldByte, LiveByte, Released;
    var r := FreeStep(s, b.Ptr());
    forall a | LiveByte(Heap(p.heap.live - {b}, []), a) || GlobalOrVariable(image, p.frames, a) ensures r.value.state.memory(a) == s.memory(a) {
      ServedApart(image, s, p, b, a);
    }
  }

  /** The bytes of other live objects are not `b`'s. */
  lemma ServedApart(image: Image, s: State, p: Program, b: Block, a: int)
    requires Means(image, s, p) && b in p.heap.live
    requires LiveByte(Heap(p.heap.live - {b}, []), a) || GlobalOrVariable(image, p.frames, a)
    ensures LiveObject(image, p, a) && !b.Serves(a)
  {
    hide ImageOk, FramesOk, Around, Shadows, Metadata, GlobalOrVariable, BlockApart, Placed;
    assert Owned(p.heap, b);
    if LiveByte(Heap(p.heap.live - {b}, []), a) {
      var c :| c in p.heap.live - {b} && c.Serves(a);
      assert Owned(p.heap, c) && Apart(b, c);
    } else {
      NotHeld(image, p, a);
      assert !b.Has(a);
    }
  }
}
