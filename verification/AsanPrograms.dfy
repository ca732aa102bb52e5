/** Whole programs under AddressSanitizer: globals poisoned at start-up, heap blocks, and the frames of
    instrumented functions, over one shadow and one memory. */
module AsanPrograms {
  import opened Bytes
  import opened AsanShadow
  import opened AsanMemory
  import opened AsanHeap
  import opened AsanRuntime
  import I = AsanInstrumentation
  import G = AsanGlobals

  /** The shadowed memory and where the linker put the instrumented globals. */
  datatype Image = Image(granules: nat, base: nat, globals: seq<G.GlobalVariable>) {
    function End(): nat { G.EndOf(base, globals) }
    predicate Has(a: int) { base <= a < End() }
  }

  /** The allocas of an active function, one after another. */
  datatype Frame = Frame(base: nat, sizes: seq<uint32>) {
    function End(): nat { base + I.SumOf(I.Allocas(sizes)) }
    predicate Has(a: int) { base <= a < End() }
  }

  predicate ImageOk(image: Image) {
    && image.base % RZ_SIZE == 0 && image.End() <= SHADOW_SCALE * image.granules
    && forall i :: 0 <= i < |image.globals| ==> G.TripleSize(image.globals[i].numBytes) < 0x1_0000_0000
  }

  predicate FrameOk(image: Image, f: Frame) {
    && f.sizes != [] && I.AllFit(f.sizes) && f.base % SHADOW_SCALE == 0 && f.End() <= SHADOW_SCALE * image.granules
    && (f.End() <= image.base || image.End() <= f.base)
  }

  predicate FramesOk(image: Image, frames: seq<Frame>) {
    && (forall k :: 0 <= k < |frames| ==> FrameOk(image, frames[k]))
    && (forall j, k :: 0 <= j < k < |frames| ==> FramesApart(frames[j], frames[k]))
  }

  predicate FramesApart(f: Frame, g: Frame) { f.End() <= g.base || g.End() <= f.base }

  /** The stores at a function's entry; `instrumentFuncStart` makes them. */
  function EntryStores(f: Frame): seq<I.Store> { I.Pack(I.FrameShadow(f.sizes), 0) }

  // --- The shadow around the heap ---

  predicate InSomeFrame(frames: seq<Frame>, a: int) { exists k :: 0 <= k < |frames| && frames[k].Has(a) }

  ghost predicate InFrameVariable(frames: seq<Frame>, a: int) {
    exists k :: 0 <= k < |frames| && frames[k].Has(a) && I.InSomeVariable(frames[k].sizes, a - frames[k].base)
  }

  function Zeros(n: nat): (z: seq<int>)
    ensures |z| == n && forall g :: 0 <= g < n ==> z[g] == 0
  {
    seq(n, _ => 0)
  }

  /** A frame takes whole granules, in whole words of shadow. */
  lemma FrameGranules(image: Image, f: Frame)
    requires FrameOk(image, f)
    ensures SHADOW_SCALE * |I.FrameShadow(f.sizes)| == f.End() - f.base && |I.FrameShadow(f.sizes)| % 4 == 0
    ensures I.IsShadow(I.FrameShadow(f.sizes)) && f.base / SHADOW_SCALE + |I.FrameShadow(f.sizes)| <= image.granules
    ensures forall g :: f.Has(SHADOW_SCALE * g) <==> f.base / SHADOW_SCALE <= g < f.base / SHADOW_SCALE + |I.FrameShadow(f.sizes)|
    ensures f.End() % SHADOW_SCALE == 0
  {
    hide I.FrameShadow, I.SumOf, I.Allocas;
    I.FrameCovered(f.sizes);
  }

  lemma FrameFits(image: Image, f: Frame, shadow: seq<int>)
    requires FrameOk(image, f) && |shadow| == image.granules
    ensures I.StoresFit(shadow, f.base / SHADOW_SCALE, EntryStores(f))
    ensures I.StoresFit(shadow, f.base / SHADOW_SCALE, I.Cleared(EntryStores(f)))
  {
    hide I.FrameShadow, I.Pack, I.StoresFit, I.Cleared;
    FrameGranules(image, f);
    I.PackFits(shadow, f.base / SHADOW_SCALE, I.FrameShadow(f.sizes), 0);
  }

  lemma OlderFrames(image: Image, frames: seq<Frame>)
    requires FramesOk(image, frames) && frames != []
    ensures FramesOk(image, frames[..|frames| - 1]) && FrameOk(image, frames[|frames| - 1])
  {
    hide FrameOk, FramesApart;
  }

  /** The shadow without the heap: the globals', and that of each active frame. */
  ghost function Around(image: Image, frames: seq<Frame>): (r: seq<int>)
    requires ImageOk(image) && FramesOk(image, frames)
    ensures |r| == image.granules
    decreases |frames|
  {
    hide FramesOk, FrameOk, EntryStores, I.StoresFit, I.Applied;
    if frames == [] then G.InitShadow(Zeros(image.granules), image.base, image.globals)
    else
      OlderFrames(image, frames);
      var older, f := Around(image, frames[..|frames| - 1]), frames[|frames| - 1];
      FrameFits(image, f, older);
      I.Applied(older, f.base / SHADOW_SCALE, EntryStores(f))
  }

  /** Outside the globals and the frames it is clear. */
  lemma {:induction false} AroundClear(image: Image, frames: seq<Frame>, g: nat)
    requires ImageOk(image) && FramesOk(image, frames) && g < image.granules
    requires !image.Has(SHADOW_SCALE * g) && !InSomeFrame(frames, SHADOW_SCALE * g)
    ensures Around(image, frames)[g] == 0
    decreases |frames|
  {
    hide FramesOk, FrameOk, ImageOk, I.StoresFit, I.Applied, I.FrameShadow, I.Pack, Image.End, Frame.End;
    if frames == [] {
      GlobalShadow(image, SHADOW_SCALE * g);
    } else {
      OlderFrames(image, frames);
      var n := |frames| - 1;
      forall k | 0 <= k < n ensures !frames[..n][k].Has(SHADOW_SCALE * g) { assert frames[k] == frames[..n][k]; }
      AroundClear(image, frames[..n], g);
      FrameGranules(image, frames[n]);
      FrameFits(image, frames[n], Around(image, frames[..n]));
      I.PackWrites(Around(image, frames[..n]), frames[n].base / SHADOW_SCALE, I.FrameShadow(frames[n].sizes), 0, g);
    }
  }

  lemma GlobalShadow(image: Image, a: nat)
    requires ImageOk(image) && a / SHADOW_SCALE < image.granules
    ensures FramesOk(image, []) && a / SHADOW_SCALE < |Around(image, [])|
    ensures image.Has(a) ==> (Addressable(Around(image, []), a) <==> G.InSomeGlobal(image.base, image.globals, a))
    ensures !image.Has(a) ==> Around(image, [])[a / SHADOW_SCALE] == 0
  {
    hide G.EndOf, G.InitShadow, G.InSomeGlobal, G.TripleSize;
    G.GlobalsPoisoned(Zeros(image.granules), image.base, image.globals, a);
  }

  /** It lets a byte of a global's or frame's memory be accessed exactly when a global or a variable of
      an active function has it, and any other byte. */
  lemma {:induction false} AroundByte(image: Image, frames: seq<Frame>, a: nat)
    requires ImageOk(image) && FramesOk(image, frames) && a / SHADOW_SCALE < image.granules
    ensures Addressable(Around(image, frames), a) <==>
            if image.Has(a) then G.InSomeGlobal(image.base, image.globals, a)
            else if InSomeFrame(frames, a) then InFrameVariable(frames, a)
            else true
    decreases |frames|
  {
    hide FramesOk, FrameOk, ImageOk, Around, I.InSomeVariable, G.InSomeGlobal, Image.End, Frame.End, Addressable;
    if frames == [] {
      GlobalShadow(image, a);
      ClearGranule(image, a);
    } else {
      OlderFrames(image, frames);
      var n := |frames| - 1;
      var older, f := frames[..n], frames[n];
      AroundByte(image, older, a);
      LastFrameByte(image, frames, a);
      forall k | 0 <= k < n ensures frames[k] == older[k] {}
      if f.Has(a) {
        LastFrameApart(image, frames, a);
        assert frames[n].Has(a);
      } else {
        assert InSomeFrame(frames, a) <==> InSomeFrame(older, a);
        assert InFrameVariable(frames, a) <==> InFrameVariable(older, a);
      }
    }
  }

  lemma ClearGranule(image: Image, a: nat)
    requires ImageOk(image) && a / SHADOW_SCALE < image.granules && FramesOk(image, [])
    ensures Around(image, [])[a / SHADOW_SCALE] == 0 ==> Addressable(Around(image, []), a)
  {
  }

  /** The last frame decides its own bytes and no other's. */
  lemma LastFrameByte(image: Image, frames: seq<Frame>, a: nat)
    requires ImageOk(image) && FramesOk(image, frames) && frames != [] && a / SHADOW_SCALE < image.granules
    ensures FramesOk(image, frames[..|frames| - 1])
    ensures var f := frames[|frames| - 1];
            if f.Has(a) then Addressable(Around(image, frames), a) <==> I.InSomeVariable(f.sizes, a - f.base)
            else Addressable(Around(image, frames), a) <==> Addressable(Around(image, frames[..|frames| - 1]), a)
  {
    hide FramesOk, FrameOk, ImageOk, I.InSomeVariable, I.Applied, I.StoresFit, EntryStores, Image.End, Frame.End, Addressable, ClearUnder, Around;
    OlderFrames(image, frames);
    var n := |frames| - 1;
    var f, older := frames[n], Around(image, frames[..n]);
    FrameAllClear(image, frames);
    AroundLast(image, frames);
    EntryByte(image, f, older, a);
  }

  lemma AroundLast(image: Image, frames: seq<Frame>)
    requires ImageOk(image) && FramesOk(image, frames) && frames != []
    ensures FramesOk(image, frames[..|frames| - 1])
    ensures var f, older := frames[|frames| - 1], Around(image, frames[..|frames| - 1]);
            && I.StoresFit(older, f.base / SHADOW_SCALE, EntryStores(f))
            && Around(image, frames) == I.Applied(older, f.base / SHADOW_SCALE, EntryStores(f))
  {
    hide FramesOk, FrameOk, ImageOk, I.Applied, I.StoresFit, EntryStores;
    OlderFrames(image, frames);
    FrameFits(image, frames[|frames| - 1], Around(image, frames[..|frames| - 1]));
  }

  predicate ClearUnder(shadow: seq<int>, f: Frame) {
    forall g :: 0 <= g < |shadow| && f.base / SHADOW_SCALE <= g < f.End() / SHADOW_SCALE ==> shadow[g] == 0
  }

  lemma FrameAllClear(image: Image, frames: seq<Frame>)
    requires ImageOk(image) && FramesOk(image, frames) && frames != []
    ensures FramesOk(image, frames[..|frames| - 1]) && ClearUnder(Around(image, frames[..|frames| - 1]), frames[|frames| - 1])
  {
    hide FramesOk, FrameOk, ImageOk, Around, Frame.End;
    OlderFrames(image, frames);
    var f, older := frames[|frames| - 1], Around(image, frames[..|frames| - 1]);
    forall g | 0 <= g < |older| && f.base / SHADOW_SCALE <= g < f.End() / SHADOW_SCALE ensures older[g] == 0 {
      LastFrameClear(image, frames, g);
    }
  }

  lemma EntryByte(image: Image, f: Frame, older: seq<int>, a: nat)
    requires FrameOk(image, f) && |older| == image.granules && a / SHADOW_SCALE < image.granules
    requires ClearUnder(older, f)
    ensures I.StoresFit(older, f.base / SHADOW_SCALE, EntryStores(f))
    ensures var after := I.Applied(older, f.base / SHADOW_SCALE, EntryStores(f));
            if f.Has(a) then Addressable(after, a) <==> I.InSomeVariable(f.sizes, a - f.base)
            else Addressable(after, a) <==> Addressable(older, a)
  {
    hide FrameOk, I.InSomeVariable, I.Applied, I.StoresFit, I.Pack, I.FrameShadow, I.Cleared, I.SumOf, I.Allocas;
    FrameRange(image, f);
    FrameFits(image, f, older);
    I.FramePoisoned(older, f.base, f.sizes, a);
  }

  lemma FrameRange(image: Image, f: Frame)
    requires FrameOk(image, f)
    ensures f.sizes != [] && f.base % SHADOW_SCALE == 0 && f.End() % SHADOW_SCALE == 0 && f.base <= f.End() <= SHADOW_SCALE * image.granules
  {
    hide I.SumOf, I.Allocas;
    FrameGranules(image, f);
  }

  /** Before a function is entered its frame's shadow is clear. */
  lemma LastFrameClear(image: Image, frames: seq<Frame>, g: nat)
    requires ImageOk(image) && FramesOk(image, frames) && frames != []
    requires frames[|frames| - 1].base / SHADOW_SCALE <= g < frames[|frames| - 1].End() / SHADOW_SCALE
    ensures FramesOk(image, frames[..|frames| - 1]) && g < image.granules && Around(image, frames[..|frames| - 1])[g] == 0
  {
    hide FrameOk, ImageOk, Around, Image.End, Frame.End;
    OlderFrames(image, frames);
    var f := frames[|frames| - 1];
    FrameRange(image, f);
    assert f.Has(SHADOW_SCALE * g);
    LastFrameApart(image, frames, SHADOW_SCALE * g);
    AroundClear(image, frames[..|frames| - 1], g);
  }

  lemma LastFrameApart(image: Image, frames: seq<Frame>, a: int)
    requires FramesOk(image, frames) && frames != [] && frames[|frames| - 1].Has(a)
    ensures !image.Has(a) && !InSomeFrame(frames[..|frames| - 1], a)
  {
    hide Image.End, Frame.End;
    var n := |frames| - 1;
    assert FrameOk(image, frames[n]);
    forall k | 0 <= k < n ensures !frames[..n][k].Has(a) { assert FramesApart(frames[k], frames[n]); }
  }

  lemma {:induction false} AroundWellFormed(image: Image, frames: seq<Frame>)
    requires ImageOk(image) && FramesOk(image, frames)
    ensures WellFormed(Around(image, frames))
    decreases |frames|
  {
    hide FramesOk, FrameOk, ImageOk, I.FrameShadow, EntryStores, I.Applied, I.StoresFit;
    if frames == [] {
      GlobalsFit(image);
      G.InitWellFormed(Zeros(image.granules), image.base, image.globals);
    } else {
      OlderFrames(image, frames);
      var n := |frames| - 1;
      var older, f := Around(image, frames[..n]), frames[n];
      AroundWellFormed(image, frames[..n]);
      FrameAllClear(image, frames);
      I.FrameWellFormed(f.sizes);
      FrameFits(image, f, older);
      forall g | 0 <= g < |older| ensures Around(image, frames)[g] < SHADOW_SCALE {
        FrameGranules(image, f);
        EntryGranule(image, f, older, g);
      }
    }
  }

  lemma GlobalsFit(image: Image)
    requires ImageOk(image)
    ensures G.EndOf(image.base, image.globals) <= SHADOW_SCALE * image.granules
  {
  }

  /** A frame's entry writes its layout over clear shadow and nothing else. */
  lemma EntryGranule(image: Image, f: Frame, shadow: seq<int>, g: nat)
    requires FrameOk(image, f) && |shadow| == image.granules && g < image.granules
    requires f.Has(SHADOW_SCALE * g) ==> shadow[g] == 0
    ensures I.StoresFit(shadow, f.base / SHADOW_SCALE, EntryStores(f))
    ensures f.Has(SHADOW_SCALE * g) ==> 0 <= g - f.base / SHADOW_SCALE < |I.FrameShadow(f.sizes)|
    ensures I.Applied(shadow, f.base / SHADOW_SCALE, EntryStores(f))[g]
            == if f.Has(SHADOW_SCALE * g) then I.FrameShadow(f.sizes)[g - f.base / SHADOW_SCALE] else shadow[g]
  {
    hide FrameOk, I.FrameShadow, I.Pack, I.Applied, I.StoresFit, Frame.End;
    FrameGranules(image, f);
    FrameFits(image, f, shadow);
    I.PackWrites(shadow, f.base / SHADOW_SCALE, I.FrameShadow(f.sizes), 0, g);
  }

  /** The stores replayed at its return clear the layout and nothing else. */
  lemma ReturnGranule(image: Image, f: Frame, shadow: seq<int>, g: nat)
    requires FrameOk(image, f) && |shadow| == image.granules && g < image.granules
    requires f.Has(SHADOW_SCALE * g) ==>
               0 <= g - f.base / SHADOW_SCALE < |I.FrameShadow(f.sizes)| && shadow[g] == I.FrameShadow(f.sizes)[g - f.base / SHADOW_SCALE]
    ensures I.StoresFit(shadow, f.base / SHADOW_SCALE, I.Cleared(EntryStores(f)))
    ensures I.Applied(shadow, f.base / SHADOW_SCALE, I.Cleared(EntryStores(f)))[g] == if f.Has(SHADOW_SCALE * g) then 0 else shadow[g]
  {
    hide FrameOk, I.FrameShadow, I.Pack, I.Applied, I.StoresFit, I.Cleared, Frame.End;
    FrameGranules(image, f);
    FrameFits(image, f, shadow);
    I.ClearedRestores(shadow, f.base / SHADOW_SCALE, I.FrameShadow(f.sizes), 0, g);
  }

  // --- Programs ---

  /** What happens in a program: the allocator's calls, functions entered and left, and bytes written to
      live objects.  Where the system has no memory for them, `malloc` does nothing and `calloc` may fault. */
  datatype Event =
    | Allocate(block: Block)
    | Calloc(nmemb: uint32, size: uint32, base: uint32)
    | Realloc(block: Block, newSize: uint32, system: Memalign)
    | ReallocNull(newSize: uint32, system: Memalign)
    | Release(block: Block)
    | Enter(frame: Frame)
    | Return
    | Write(at: int, v: byte)

  /** The objects there are, and the base the tail of the quarantine is stale at, if it is. */
  datatype Program = Program(heap: Heap, frames: seq<Frame>, stale: nat)

  const START := Program(EMPTY_HEAP, [], NULL)

  /** The block `calloc` serves: its size is the product in 32 bits. */
  function ProductBlock(nmemb: uint32, size: uint32, base: uint32): Block { Block(base, nmemb * size % ADDRESS_LIMIT) }

  function Next(p: Program, e: Event): Program {
    match e
    case Allocate(b) => p.(heap := Allocated(p.heap, b))
    case Calloc(nmemb, size, base) => p.(heap := Allocated(p.heap, ProductBlock(nmemb, size, base)))
    case Realloc(b, size, system) =>
      p.(heap := Reallocated(p.heap, b.Ptr(), b, size, system), stale := if Ends(b, size, system) then StaleAfter(b) else p.stale)
    case ReallocNull(size, system) => if system.Aligned? then p.(heap := Allocated(p.heap, Block(system.base, size))) else p
    case Release(b) => p.(heap := Released(p.heap, b), stale := StaleAfter(b))
    case Enter(f) => p.(frames := p.frames + [f])
    case Return => p.(frames := if p.frames == [] then [] else p.frames[..|p.frames| - 1])
    case Write(_, _) => p
  }

  predicate Beside(b: Block, f: Frame) { b.End() <= f.base || f.End() <= b.base }

  predicate BlockApart(image: Image, frames: seq<Frame>, b: Block) {
    (b.End() <= image.base || image.End() <= b.base) && forall k :: 0 <= k < |frames| ==> Beside(b, frames[k])
  }

  /** The bytes of globals and of active functions' variables. */
  ghost predicate GlobalOrVariable(image: Image, frames: seq<Frame>, a: int) {
    (image.Has(a) && G.InSomeGlobal(image.base, image.globals, a)) || InFrameVariable(frames, a)
  }

  /** The byte is in a live object: a block that is allocated, a global, or a variable of an active
      function. */
  ghost predicate LiveObject(image: Image, p: Program, a: int) {
    LiveByte(p.heap, a) || GlobalOrVariable(image, p.frames, a)
  }

  /** The byte belongs to the allocator, to the globals and their redzones, or to a frame. */
  ghost predicate Instrumented(image: Image, p: Program, a: int) {
    HeldByte(p.heap, a) || image.Has(a) || InSomeFrame(p.frames, a)
  }

  ghost function OutsideHeap(image: Image, frames: seq<Frame>): iset<int> { iset a: int | GlobalOrVariable(image, frames, a) }

  /** Memory for a block that nothing else has. */
  ghost predicate Vacant(image: Image, p: Program, b: Block) {
    Placed(b, image.granules) && (forall c :: Owned(p.heap, c) ==> Apart(b, c)) && BlockApart(image, p.frames, b)
  }

  /** The word at a stale tail is no global's and no variable's. */
  ghost predicate TailSpares(image: Image, p: Program) {
    p.stale != NULL ==> Spares(OutsideHeap(image, p.frames), p.stale)
  }

  /** What the system and the program owe: memory for blocks and frames that nothing else has, writes to
      live objects only, and frees of live blocks only, where the word at a stale tail may be written. */
  ghost predicate Permitted(image: Image, p: Program, e: Event) {
    match e
    case Allocate(b) => Vacant(image, p, b)
    case Calloc(nmemb, size, base) => Vacant(image, p, ProductBlock(nmemb, size, base))
    case Realloc(b, size, system) =>
      && Reallocable(p.heap, p.stale, b, size, system) && (system.Aligned? ==> Vacant(image, p, Block(system.base, size)))
      && (Ends(b, size, system) ==> TailSpares(image, p))
    case ReallocNull(size, system) => system.Aligned? ==> Vacant(image, p, Block(system.base, size))
    case Release(b) => Freeable(p.heap, p.stale, b) && TailSpares(image, p)
    case Enter(f) => FrameOk(image, f) && (forall k :: 0 <= k < |p.frames| ==> FramesApart(p.frames[k], f)) && forall b :: Owned(p.heap, b) ==> Beside(b, f)
    case Return => p.frames != []
    case Write(a, _) => LiveObject(image, p, a)
  }

  function ProgramRun(events: seq<Event>): Program {
    if events == [] then START else Next(ProgramRun(events[..|events| - 1]), events[|events| - 1])
  }

  ghost predicate PermittedRun(image: Image, events: seq<Event>) {
    events == [] || (PermittedRun(image, events[..|events| - 1]) && Permitted(image, ProgramRun(events[..|events| - 1]), events[|events| - 1]))
  }

  // --- What the code does ---

  function Left(r: Outcome<Reply>): Outcome<State> {
    match r
    case Stuck => Stuck
    case Done(reply) => Done(reply.state)
  }

  /** The runtime's and the instrumented code's part in an event, while `frames` are active. */
  function CodeStep(s: State, frames: seq<Frame>, e: Event): Outcome<State> {
    match e
    case Allocate(b) => if b.base >= ADDRESS_LIMIT || b.size >= ADDRESS_LIMIT then Stuck else MallocStep(s, b.size, b.base)
    case Calloc(nmemb, size, base) => Left(CallocCall(s, nmemb, size, Aligned(base)))
    case Realloc(b, size, system) => if b.Ptr() >= ADDRESS_LIMIT then Stuck else Left(ReallocCall(s, b.Ptr(), size, system))
    case ReallocNull(size, system) => Left(ReallocCall(s, NULL, size, system))
    case Release(b) => if b.Ptr() >= ADDRESS_LIMIT then Stuck else Left(FreeCall(s, b.Ptr(), NULL))
    case Enter(f) =>
      if !I.StoresFit(s.shadow, f.base / SHADOW_SCALE, EntryStores(f)) then Stuck
      else Done(s.(shadow := I.Applied(s.shadow, f.base / SHADOW_SCALE, EntryStores(f))))
    case Return =>
      if frames == [] then Stuck
      else
        var f := frames[|frames| - 1];
        if !I.StoresFit(s.shadow, f.base / SHADOW_SCALE, I.Cleared(EntryStores(f))) then Stuck
        else Done(s.(shadow := I.Applied(s.shadow, f.base / SHADOW_SCALE, I.Cleared(EntryStores(f)))))
    case Write(a, v) => Done(s.(memory := WithByte(s.memory, a, v)))
  }

  /** The state when `main` starts: `__asan_init` has run over the tables the compiler made. */
  ghost function Initial(image: Image, memory: Memory): State
    requires ImageOk(image)
  {
    var rzs, sizes := G.RedzonesAt(image.base, image.globals), G.SizeBytes(image.globals);
    G.InitMeetsLayout(Zeros(image.granules), image.base, image.globals, |image.globals|);
    State(G.Replayed(Zeros(image.granules), rzs, sizes, |rzs|), memory, 0, NULL, NULL)
  }

  ghost function CodeRun(image: Image, memory: Memory, events: seq<Event>): Outcome<State>
    requires ImageOk(image)
  {
    if events == [] then Done(Initial(image, memory))
    else
      var before := events[..|events| - 1];
      match CodeRun(image, memory, before)
      case Stuck => Stuck
      case Done(s) => CodeStep(s, ProgramRun(before).frames, events[|events| - 1])
  }

  lemma RunOne(image: Image, memory: Memory, events: seq<Event>, e: Event)
    requires ImageOk(image)
    ensures ProgramRun(events + [e]) == Next(ProgramRun(events), e)
    ensures PermittedRun(image, events + [e]) <==> PermittedRun(image, events) && Permitted(image, ProgramRun(events), e)
    ensures CodeRun(image, memory, events).Done? ==>
              CodeRun(image, memory, events + [e]) == CodeStep(CodeRun(image, memory, events).value, ProgramRun(events).frames, e)
  {
    hide Permitted, Next, CodeStep, ImageOk;
    assert (events + [e])[..|events|] == events;
  }

  // --- Every run ---

  ghost predicate Separate(image: Image, p: Program) {
    FramesOk(image, p.frames) && forall b :: Owned(p.heap, b) ==> BlockApart(image, p.frames, b)
  }

  /** The code's state is that of the program's objects. */
  ghost predicate Means(image: Image, s: State, p: Program) {
    ImageOk(image) && Separate(image, p) && |s.shadow| == image.granules && Sound(s, p.heap, Around(image, p.frames), p.stale)
  }

  lemma InitialMeans(image: Image, memory: Memory)
    requires ImageOk(image)
    ensures Means(image, Initial(image, memory), START)
  {
    hide G.InitShadow, G.Replayed;
    G.InitMeetsLayout(Zeros(image.granules), image.base, image.globals, |image.globals|);
    assert image.globals[..|image.globals|] == image.globals;
  }

  /** Memory that no global and no active frame has is free for blocks. */
  lemma FreshBlock(image: Image, p: Program, b: Block)
    requires ImageOk(image) && Separate(image, p) && Vacant(image, p, b)
    ensures Fresh(p.heap, b, Around(image, p.frames))
  {
    hide FramesOk, ImageOk, Around, Placed, Image.End, Frame.End;
    var around := Around(image, p.frames);
    forall g | 0 <= g < |around| && b.Has(SHADOW_SCALE * g) ensures around[g] == 0 {
      forall k | 0 <= k < |p.frames| ensures !p.frames[k].Has(SHADOW_SCALE * g) { assert Beside(b, p.frames[k]); }
      AroundClear(image, p.frames, g);
    }
  }

  lemma AllocateMeans(image: Image, s: State, p: Program, b: Block)
    requires Means(image, s, p) && Permitted(image, p, Allocate(b))
    ensures CodeStep(s, p.frames, Allocate(b)).Done? && Means(image, CodeStep(s, p.frames, Allocate(b)).value, Next(p, Allocate(b)))
  {
    hide Around, FramesOk, ImageOk, Sound, MallocStep, BlockApart, Fresh;
    FreshBlock(image, p, b);
    MallocSound(s, p.heap, Around(image, p.frames), p.stale, b);
    MallocLength(s, b);
    AllocatedApart(image, p, b);
  }

  lemma AllocatedApart(image: Image, p: Program, b: Block)
    requires Separate(image, p) && Vacant(image, p, b)
    ensures Separate(image, p.(heap := Allocated(p.heap, b)))
  {
    hide FramesOk, BlockApart;
    forall c | Owned(Allocated(p.heap, b), c) ensures BlockApart(image, p.frames, c) { assert c == b || Owned(p.heap, c); }
  }

  lemma CallocMeans(image: Image, s: State, p: Program, nmemb: uint32, size: uint32, base: uint32)
    requires Means(image, s, p) && Permitted(image, p, Calloc(nmemb, size, base))
    ensures var e := Calloc(nmemb, size, base); CodeStep(s, p.frames, e).Done? && Means(image, CodeStep(s, p.frames, e).value, Next(p, e))
  {
    hide Around, ImageOk, Sound, CallocCall, Separate, Vacant, Fresh;
    var b := ProductBlock(nmemb, size, base);
    SameFrames(image, p, p);
    FreshBlock(image, p, b);
    CallocSound(s, p.heap, Around(image, p.frames), p.stale, nmemb, size, Aligned(base));
    SoundLength(CallocCall(s, nmemb, size, Aligned(base)).value.state, Allocated(p.heap, b), Around(image, p.frames), p.stale);
    AllocatedApart(image, p, b);
    SameFrames(image, p, p.(heap := Allocated(p.heap, b)));
  }

  lemma SameFrames(image: Image, p: Program, p': Program)
    requires Separate(image, p) && p'.frames == p.frames
    ensures FramesOk(image, p'.frames)
  {
    hide FramesOk;
  }

  lemma SoundLength(s: State, h: Heap, around: seq<int>, stale: nat)
    requires Sound(s, h, around, stale)
    ensures |s.shadow| == |around|
  {
    hide Disjoint, Metadata;
    SameLength(s.shadow, h, around);
  }

  lemma ReallocMeans(image: Image, s: State, p: Program, b: Block, size: uint32, system: Memalign)
    requires Means(image, s, p) && Permitted(image, p, Realloc(b, size, system))
    ensures var e := Realloc(b, size, system); CodeStep(s, p.frames, e).Done? && Means(image, CodeStep(s, p.frames, e).value, Next(p, e))
  {
    hide Around, ImageOk, Sound, ReallocCall, Separate, Vacant, Fresh, Harmless, Reallocated;
    SameFrames(image, p, p);
    var around := Around(image, p.frames);
    if system.Aligned? { FreshBlock(image, p, Block(system.base, size)); }
    BlockAddress(s, p.heap, around, p.stale, b);
    ReallocSound(s, p.heap, around, p.stale, b, size, system);
    ReallocatedLive(p.heap, b, size, system, around);
    var p' := Next(p, Realloc(b, size, system));
    SoundLength(ReallocCall(s, b.Ptr(), size, system).value.state, p'.heap, around, p'.stale);
    ReallocatedApart(image, p, b, size, system);
  }

  lemma ReallocNullMeans(image: Image, s: State, p: Program, size: uint32, system: Memalign)
    requires Means(image, s, p) && Permitted(image, p, ReallocNull(size, system))
    ensures var e := ReallocNull(size, system); CodeStep(s, p.frames, e).Done? && Means(image, CodeStep(s, p.frames, e).value, Next(p, e))
  {
    hide Around, ImageOk, Sound, ReallocCall, Separate, Vacant, Fresh, Allocated;
    SameFrames(image, p, p);
    var around := Around(image, p.frames);
    if system.Aligned? {
      FreshBlock(image, p, Block(system.base, size));
      AllocatedApart(image, p, Block(system.base, size));
    }
    ReallocNullSound(s, p.heap, around, p.stale, size, system);
    var p' := Next(p, ReallocNull(size, system));
    SoundLength(ReallocCall(s, NULL, size, system).value.state, p'.heap, around, p'.stale);
  }

  lemma ReallocatedApart(image: Image, p: Program, b: Block, size: uint32, system: Memalign)
    requires Separate(image, p) && Permitted(image, p, Realloc(b, size, system))
    ensures Separate(image, Next(p, Realloc(b, size, system)))
  {
    hide FramesOk, BlockApart, Harmless, Evicted, TailSpares, Vacant;
    if size == 0 {
      ReleasedApart(image, p, b);
    } else if Moves(b, size, system) {
      var c := Block(system.base, size);
      AllocatedApart(image, p, c);
      ReleasedApart(image, p.(heap := Allocated(p.heap, c)), b);
    }
  }

  lemma ReleasedApart(image: Image, p: Program, b: Block)
    requires Separate(image, p) && b in p.heap.live
    ensures Separate(image, p.(heap := Released(p.heap, b)))
  {
    hide FramesOk, BlockApart, Evicted;
    forall c | Owned(Released(p.heap, b), c) ensures BlockApart(image, p.frames, c) { ReleasedOwned(p.heap, b, c); }
  }

  lemma MallocLength(s: State, b: Block)
    requires b.base < ADDRESS_LIMIT && b.size < ADDRESS_LIMIT
    ensures MallocStep(s, b.size, b.base).Done? ==> |MallocStep(s, b.size, b.base).value.shadow| == |s.shadow|
  {
  }

  lemma ReleaseMeans(image: Image, s: State, p: Program, b: Block)
    requires Means(image, s, p) && Permitted(image, p, Release(b))
    ensures CodeStep(s, p.frames, Release(b)).Done? && Means(image, CodeStep(s, p.frames, Release(b)).value, Next(p, Release(b)))
  {
    hide Around, FramesOk, ImageOk, FreeStep, BlockApart, Harmless, Evicted, Sound, TailSpares, Released;
    FreeSound(s, p.heap, Around(image, p.frames), p.stale, b);
    SoundLength(FreeStep(s, b.Ptr()).value.state, Released(p.heap, b), Around(image, p.frames), StaleAfter(b));
    ReleasedApart(image, p, b);
  }

  lemma ReleasedOwned(h: Heap, b: Block, c: Block)
    requires b in h.live && Owned(Released(h, b), c)
    ensures Owned(h, c)
  {
    hide Sum, Evicted, Block.Total;
    if c !in h.live {
      var q := h.quarantine + [b];
      var i :| 0 <= i < |Evicted(q)| && Evicted(q)[i] == c;
      assert q[|q| - |Evicted(q)| + i] == c;
    }
  }

  lemma WriteMeans(image: Image, s: State, p: Program, a: int, v: byte)
    requires Means(image, s, p) && Permitted(image, p, Write(a, v))
    ensures CodeStep(s, p.frames, Write(a, v)).Done? && Means(image, CodeStep(s, p.frames, Write(a, v)).value, Next(p, Write(a, v)))
  {
    hide Around, FramesOk, ImageOk, Sound, LiveByte, BlockApart, GlobalOrVariable, HeldByte;
    if GlobalOrVariable(image, p.frames, a) { NotHeld(image, p, a); }
    UserWriteSound(s, p.heap, Around(image, p.frames), p.stale, WithByte(s.memory, a, v));
  }

  /** No block has a byte of a global or a variable. */
  lemma NotHeld(image: Image, p: Program, a: int)
    requires Separate(image, p) && GlobalOrVariable(image, p.frames, a)
    ensures !HeldByte(p.heap, a)
  {
    hide FramesOk, GlobalOrVariable, BlockApart;
    forall b | Owned(p.heap, b) ensures !b.Has(a) { ApartFromOutside(image, p.frames, b, a); }
  }

  lemma ApartFromOutside(image: Image, frames: seq<Frame>, b: Block, a: int)
    requires BlockApart(image, frames, b) && GlobalOrVariable(image, frames, a)
    ensures !b.Has(a)
  {
    hide I.InSomeVariable, G.InSomeGlobal, Image.End, Frame.End, Block.End;
    if !image.Has(a) {
      var k :| 0 <= k < |frames| && frames[k].Has(a);
      assert Beside(b, frames[k]);
    }
  }

  lemma EnterMeans(image: Image, s: State, p: Program, f: Frame)
    requires Means(image, s, p) && Permitted(image, p, Enter(f))
    ensures CodeStep(s, p.frames, Enter(f)).Done? && Means(image, CodeStep(s, p.frames, Enter(f)).value, Next(p, Enter(f)))
  {
    hide ImageOk, FrameOk, EntryStores, I.Applied, I.StoresFit, I.FrameShadow, Shadows, Disjoint, Metadata, Frame.End, Image.End, Sum;
    var frames := p.frames + [f];
    EnteredOk(image, p, f);
    assert frames[..|frames| - 1] == p.frames && frames[|frames| - 1] == f;
    var around := Around(image, p.frames);
    FrameFits(image, f, around);
    FrameFits(image, f, s.shadow);
    var shadow', around' := I.Applied(s.shadow, f.base / SHADOW_SCALE, EntryStores(f)), I.Applied(around, f.base / SHADOW_SCALE, EntryStores(f));
    assert Around(image, frames) == around';
    FrameAllClear(image, frames);
    forall g | 0 <= g < |s.shadow|
      ensures if HeldGranule(p.heap, g) then shadow'[g] == s.shadow[g] && around'[g] == around[g]
              else s.shadow[g] == around[g] ==> shadow'[g] == around'[g]
    {
      FrameGranule(image, p.heap, f, s.shadow, around, g);
    }
    AroundChanges(s.shadow, p.heap, around, shadow', around');
  }

  lemma EnteredOk(image: Image, p: Program, f: Frame)
    requires Separate(image, p) && Permitted(image, p, Enter(f))
    ensures Separate(image, p.(frames := p.frames + [f]))
  {
    hide FrameOk, FramesApart, Beside, Image.End;
    forall b | Owned(p.heap, b) ensures BlockApart(image, p.frames + [f], b) { assert BlockApart(image, p.frames, b); }
  }

  /** A frame that no block is in changes the shadow of no block, and the rest as it changes the shadow
      around the heap. */
  lemma FrameGranule(image: Image, h: Heap, f: Frame, shadow: seq<int>, around: seq<int>, g: nat)
    requires FrameOk(image, f) && |shadow| == |around| == image.granules && g < image.granules && ClearUnder(around, f)
    requires forall b :: Owned(h, b) ==> Beside(b, f)
    ensures I.StoresFit(shadow, f.base / SHADOW_SCALE, EntryStores(f)) && I.StoresFit(around, f.base / SHADOW_SCALE, EntryStores(f))
    ensures var shadow', around' := I.Applied(shadow, f.base / SHADOW_SCALE, EntryStores(f)), I.Applied(around, f.base / SHADOW_SCALE, EntryStores(f));
            if HeldGranule(h, g) then shadow'[g] == shadow[g] && around'[g] == around[g]
            else shadow[g] == around[g] ==> shadow'[g] == around'[g]
  {
    hide FrameOk, EntryStores, I.Applied, I.StoresFit, I.FrameShadow, Frame.End;
    FrameFits(image, f, shadow);
    FrameFits(image, f, around);
    ClearAt(image, f, around, g);
    EntryGranule(image, f, around, g);
    if HeldGranule(h, g) {
      var b :| Owned(h, b) && b.Has(SHADOW_SCALE * g);
      assert Beside(b, f);
      EntryGranule(image, f, shadow, g);
    } else if shadow[g] == around[g] {
      EntryGranule(image, f, shadow, g);
    }
  }

  lemma ClearAt(image: Image, f: Frame, around: seq<int>, g: nat)
    requires FrameOk(image, f) && |around| == image.granules && g < image.granules && ClearUnder(around, f)
    ensures f.Has(SHADOW_SCALE * g) ==> around[g] == 0
  {
    hide FrameOk;
    FrameRange(image, f);
  }

  lemma ReturnMeans(image: Image, s: State, p: Program)
    requires Means(image, s, p) && Permitted(image, p, Return)
    ensures CodeStep(s, p.frames, Return).Done? && Means(image, CodeStep(s, p.frames, Return).value, Next(p, Return))
  {
    hide ImageOk, FrameOk, EntryStores, I.Applied, I.StoresFit, I.FrameShadow, I.Cleared, Shadows, Disjoint, Metadata, Frame.End, Image.End, Sum;
    var n := |p.frames| - 1;
    var f, older, around := p.frames[n], p.frames[..n], Around(image, p.frames);
    OlderFrames(image, p.frames);
    FrameFits(image, f, s.shadow);
    FrameFits(image, f, Around(image, older));
    forall b | Owned(p.heap, b) ensures BlockApart(image, older, b) && Beside(b, f) { assert BlockApart(image, p.frames, b); }
    FrameAllClear(image, p.frames);
    var shadow', around' := I.Applied(s.shadow, f.base / SHADOW_SCALE, I.Cleared(EntryStores(f))), Around(image, older);
    forall g | 0 <= g < |s.shadow|
      ensures if HeldGranule(p.heap, g) then shadow'[g] == s.shadow[g] && around'[g] == around[g]
              else s.shadow[g] == around[g] ==> shadow'[g] == around'[g]
    {
      LeftGranule(image, p.heap, f, s.shadow, around', around, g);
    }
    AroundChanges(s.shadow, p.heap, around, shadow', around');
  }

  /** Leaving a frame undoes entering it, around the heap and amid it. */
  lemma LeftGranule(image: Image, h: Heap, f: Frame, shadow: seq<int>, older: seq<int>, around: seq<int>, g: nat)
    requires FrameOk(image, f) && |shadow| == |older| == image.granules && g < image.granules && ClearUnder(older, f)
    requires I.StoresFit(older, f.base / SHADOW_SCALE, EntryStores(f)) && around == I.Applied(older, f.base / SHADOW_SCALE, EntryStores(f))
    requires forall b :: Owned(h, b) ==> Beside(b, f)
    ensures I.StoresFit(shadow, f.base / SHADOW_SCALE, I.Cleared(EntryStores(f)))
    ensures var shadow' := I.Applied(shadow, f.base / SHADOW_SCALE, I.Cleared(EntryStores(f)));
            if HeldGranule(h, g) then shadow'[g] == shadow[g] && older[g] == around[g]
            else shadow[g] == around[g] ==> shadow'[g] == older[g]
  {
    hide FrameOk, EntryStores, I.Applied, I.StoresFit, I.FrameShadow, I.Cleared, Frame.End;
    FrameFits(image, f, shadow);
    ClearAt(image, f, older, g);
    EntryGranule(image, f, older, g);
    if HeldGranule(h, g) {
      var b :| Owned(h, b) && b.Has(SHADOW_SCALE * g);
      assert Beside(b, f);
      ReturnGranule(image, f, shadow, g);
    } else if shadow[g] == around[g] {
      ReturnGranule(image, f, shadow, g);
    }
  }

  /** Whatever a program does, in any order, the code's state goes on meaning what the program's objects
      are, and no call gets stuck. */
  lemma {:induction false} RunMeans(image: Image, memory: Memory, events: seq<Event>)
    requires ImageOk(image) && PermittedRun(image, events)
    ensures CodeRun(image, memory, events).Done? && Means(image, CodeRun(image, memory, events).value, ProgramRun(events))
  {
    hide ImageOk, Means, Permitted, CodeStep, Next, Initial;
    if events == [] {
      InitialMeans(image, memory);
    } else {
      var before, e := events[..|events| - 1], events[|events| - 1];
      RunMeans(image, memory, before);
      StepMeans(image, CodeRun(image, memory, before).value, ProgramRun(before), e);
    }
  }

  lemma StepMeans(image: Image, s: State, p: Program, e: Event)
    requires Means(image, s, p) && Permitted(image, p, e)
    ensures CodeStep(s, p.frames, e).Done? && Means(image, CodeStep(s, p.frames, e).value, Next(p, e))
  {
    hide Means, Permitted, CodeStep, Next;
    match e
    case Allocate(b) => AllocateMeans(image, s, p, b);
    case Calloc(nmemb, size, base) => CallocMeans(image, s, p, nmemb, size, base);
    case Realloc(b, size, system) => ReallocMeans(image, s, p, b, size, system);
    case ReallocNull(size, system) => ReallocNullMeans(image, s, p, size, system);
    case Release(b) => ReleaseMeans(image, s, p, b);
    case Enter(f) => EnterMeans(image, s, p, f);
    case Return => ReturnMeans(image, s, p);
    case Write(a, v) => WriteMeans(image, s, p, a, v);
  }

  // --- What the shadow answers ---

  lemma MeantByte(image: Image, s: State, p: Program, a: nat)
    requires Means(image, s, p) && a / SHADOW_SCALE < image.granules
    ensures Addressable(s.shadow, a) <==> LiveObject(image, p, a) || !Instrumented(image, p, a)
  {
    hide ImageOk, FramesOk, Around, Shadows, Disjoint, Metadata, Addressable, I.InSomeVariable, G.InSomeGlobal, Image.End, Frame.End;
    var around := Around(image, p.frames);
    ByteAccess(s.shadow, p.heap, around, a);
    AroundByte(image, p.frames, a);
    LiveIsHeld(p.heap, a);
    if HeldByte(p.heap, a) {
      var b :| Owned(p.heap, b) && b.Has(a);
      assert BlockApart(image, p.frames, b);
      forall k | 0 <= k < |p.frames| ensures !p.frames[k].Has(a) { assert Beside(b, p.frames[k]); }
    } else if image.Has(a) {
      NotInFrames(image, p.frames, a);
    }
  }

  lemma NotInFrames(image: Image, frames: seq<Frame>, a: int)
    requires FramesOk(image, frames) && image.Has(a)
    ensures !InSomeFrame(frames, a)
  {
    hide Image.End, Frame.End, FramesApart;
    forall k | 0 <= k < |frames| ensures !frames[k].Has(a) { assert FrameOk(image, frames[k]); }
  }

  lemma LiveIsHeld(h: Heap, a: int)
    ensures LiveByte(h, a) ==> HeldByte(h, a)
  {
    if LiveByte(h, a) {
      var b :| b in h.live && b.Serves(a);
      assert Owned(h, b) && b.Has(a);
    }
  }

  /** After any run, for any byte of memory: it is accessible exactly when a live object has it, or when it
      is none of AddressSanitizer's business. */
  lemma RunByteExact(image: Image, memory: Memory, events: seq<Event>, a: nat)
    requires ImageOk(image) && PermittedRun(image, events) && a / SHADOW_SCALE < image.granules
    ensures CodeRun(image, memory, events).Done? && |CodeRun(image, memory, events).value.shadow| == image.granules
    ensures var p := ProgramRun(events);
            Addressable(CodeRun(image, memory, events).value.shadow, a) <==> LiveObject(image, p, a) || !Instrumented(image, p, a)
  {
    hide CodeRun, ImageOk, PermittedRun, ProgramRun, Addressable, LiveObject, Instrumented;
    RunMeans(image, memory, events);
    MeantByte(image, CodeRun(image, memory, events).value, ProgramRun(events), a);
  }

  /** After any run, the check of any access within a granule passes exactly when every byte of the access
      is in a live object or outside all instrumented memory. */
  lemma RunCheckExact(image: Image, memory: Memory, events: seq<Event>, ptr: nat, size: AccessSize)
    requires ImageOk(image) && PermittedRun(image, events) && (ptr + size - 1) / SHADOW_SCALE < image.granules
    requires ptr % SHADOW_SCALE + size <= SHADOW_SCALE
    ensures CodeRun(image, memory, events).Done? && |CodeRun(image, memory, events).value.shadow| == image.granules
    ensures var p := ProgramRun(events);
            CheckPasses(CodeRun(image, memory, events).value.shadow, ptr, size) <==>
            forall a :: ptr <= a < ptr + size ==> LiveObject(image, p, a) || !Instrumented(image, p, a)
  {
    hide CodeRun, ImageOk, PermittedRun, ProgramRun, Addressable, LiveObject, Instrumented, CheckPasses, WellFormed;
    RunMeans(image, memory, events);
    var s, p := CodeRun(image, memory, events).value, ProgramRun(events);
    MeantWellFormed(image, s, p);
    OneGranule(s.shadow, ptr, size);
    forall a | ptr <= a < ptr + size
      ensures a / SHADOW_SCALE < image.granules && (Addressable(s.shadow, a) <==> LiveObject(image, p, a) || !Instrumented(image, p, a))
    {
      MeantByte(image, s, p, a);
    }
  }

  lemma MeantWellFormed(image: Image, s: State, p: Program)
    requires Means(image, s, p)
    ensures WellFormed(s.shadow)
  {
    hide ImageOk, FramesOk, Around, WellFormed, Disjoint, Metadata, Shadows;
    AroundWellFormed(image, p.frames);
    ShadowWellFormed(s.shadow, p.heap, Around(image, p.frames));
  }

  // --- The quarantine in memory ---

  function ReleasedBy(e: Event): seq<Block> {
    match e
    case Release(b) => [b]
    case Realloc(b, size, system) => if Ends(b, size, system) then [b] else []
    case _ => []
  }

  /** The blocks released in a run, in order. */
  function Frees(events: seq<Event>): seq<Block> {
    if events == [] then []
    else Frees(events[..|events| - 1]) + ReleasedBy(events[|events| - 1])
  }

  /** `q` is the end of `all`. */
  predicate Latest(q: seq<Block>, all: seq<Block>) { |q| <= |all| && q == all[|all| - |q|..] }

  lemma LatestEvicted(q: seq<Block>, all: seq<Block>, b: Block)
    requires Latest(q, all)
    ensures Latest(Evicted(q + [b]), all + [b])
  {
    hide Sum, Evicted, Block.Total;
    var both, longer, r := q + [b], all + [b], Evicted(q + [b]);
    forall i | 0 <= i < |r| ensures r[i] == longer[|longer| - |r| + i] {
      var j := |both| - |r| + i;
      assert r[i] == both[j];
      if j < |q| { assert q[j] == all[|all| - |q| + j]; }
    }
  }

  /** Following the links in memory from `head` visits exactly these blocks, in this order, each with its
      size, and ends in null. */
  predicate Linked(m: Memory, head: nat, q: seq<Block>)
    decreases |q|
  {
    if q == [] then head == NULL
    else head == q[0].base && Load(m, head + WORD) == q[0].Total() && Linked(m, Load(m, head), q[1..])
  }

  lemma {:induction false} QueueLinked(m: Memory, h: Heap)
    requires Metadata(m, h)
    ensures Linked(m, BaseOf(h.quarantine, 0), h.quarantine)
    decreases |h.quarantine|
  {
    hide Load, Recorded, Entry;
    if h.quarantine != [] {
      EvictedMetadata(m, h);
      QueueLinked(m, Heap(h.live, h.quarantine[1..]));
    }
  }

  lemma StepLatest(p: Program, all: seq<Block>, e: Event)
    requires Latest(p.heap.quarantine, all)
    ensures Latest(Next(p, e).heap.quarantine, all + ReleasedBy(e))
  {
    hide Evicted, Latest;
    assert all + [] == all;
    match e
    case Release(b) => LatestEvicted(p.heap.quarantine, all, b);
    case Realloc(b, size, system) => LatestEvicted(p.heap.quarantine, all, b);
    case _ =>
  }

  lemma {:induction false} RunLatest(events: seq<Event>)
    ensures Latest(ProgramRun(events).heap.quarantine, Frees(events))
  {
    hide Next, ReleasedBy;
    if events != [] {
      var before := events[..|events| - 1];
      RunLatest(before);
      StepLatest(ProgramRun(before), Frees(before), events[|events| - 1]);
    }
  }

  /** After any run the list in memory is the latest releases, oldest first, of as many bytes as the code
      has counted, within the limit: blocks go back to the system first in, first out. */
  lemma QuarantineIsFifo(image: Image, memory: Memory, events: seq<Event>)
    requires ImageOk(image) && PermittedRun(image, events)
    ensures CodeRun(image, memory, events).Done?
    ensures var s, q := CodeRun(image, memory, events).value, ProgramRun(events).heap.quarantine;
            && Latest(q, Frees(events)) && Linked(s.memory, s.head, q)
            && s.size == Sum(q) <= QUARANTINE_MAX_SIZE && (q != [] ==> s.tail == q[|q| - 1].base)
  {
    hide CodeRun, ImageOk, PermittedRun, ProgramRun, Sum, Metadata, Linked, Latest, Shadows, Disjoint, Separate;
    RunMeans(image, memory, events);
    RunLatest(events);
    QueueLinked(CodeRun(image, memory, events).value.memory, ProgramRun(events).heap);
  }
}
