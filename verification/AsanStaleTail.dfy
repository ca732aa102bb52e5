/** Runs in which the runtime's stale tail does harm. */
module AsanStaleTail {
  import opened Bytes
  import opened AsanShadow
  import opened AsanMemory
  import opened AsanHeap
  import opened AsanRuntime
  import opened AsanPrograms
  import I = AsanInstrumentation

  const SMALL := Image(40_000_000, 0, [])
  const OVER_LIMIT := Block(8, 0x1000_0000)
  const NEAR := Block(8, 8)
  const FAR := Block(1008, 8)

  /** A block over the limit is freed, and its memory handed out again. */
  function Reused(): seq<Event> { [] + [Allocate(OVER_LIMIT)] + [Release(OVER_LIMIT)] + [Allocate(NEAR)] + [Allocate(FAR)] }

  /** A program gets there, and there the tail is stale. */
  lemma ReusedRun(memory: Memory)
    ensures ImageOk(SMALL) && PermittedRun(SMALL, Reused())
    ensures ProgramRun(Reused()) == Program(Heap({NEAR, FAR}, []), [], 8)
    ensures FAR in ProgramRun(Reused()).heap.live && !Permitted(SMALL, ProgramRun(Reused()), Release(FAR))
  {
    hide PermittedRun, ProgramRun, CodeRun, Evicted;
    RunNone();
    var one := [] + [Allocate(OVER_LIMIT)];
    var two := one + [Release(OVER_LIMIT)];
    RunOne(SMALL, memory, [], Allocate(OVER_LIMIT));
    RunOne(SMALL, memory, one, Release(OVER_LIMIT));
    RunOne(SMALL, memory, two, Allocate(NEAR));
    RunOne(SMALL, memory, two + [Allocate(NEAR)], Allocate(FAR));
    NewestSurvives([], OVER_LIMIT);
    assert Permitted(SMALL, START, Allocate(OVER_LIMIT));
    assert ProgramRun(one).heap == Heap({OVER_LIMIT}, []);
    assert ProgramRun(two) == Program(Heap({}, []), [], 8);
    assert ProgramRun(two + [Allocate(NEAR)]) == Program(Heap({NEAR}, []), [], 8);
    assert {NEAR} + {FAR} == {NEAR, FAR};
    assert NEAR in {NEAR, FAR} - {FAR} && !Spared(8, FAR.base, NEAR);
  }

  lemma RunNone()
    ensures ImageOk(SMALL) && PermittedRun(SMALL, []) && ProgramRun([]) == START
  {
  }

  /** From there two more frees of live blocks poison memory that no block has had since: the first
      writes its link over the other block's metadata, and the second takes it for where that block ends. */
  lemma StaleTailHarms(memory: Memory)
    ensures ImageOk(SMALL)
    ensures var run := CodeRun(SMALL, memory, Reused() + [Release(FAR)] + [Release(NEAR)]);
            run.Done? && |run.value.shadow| == SMALL.granules && !Addressable(run.value.shadow, 500)
    ensures !NEAR.Has(500) && !FAR.Has(500)
  {
    hide PermittedRun, ProgramRun, CodeRun, CodeStep, Next, Permitted, Reused, FreeStep, Means, LinkOverNear, ImageOk, Addressable;
    ReusedRun(memory);
    RunMeans(SMALL, memory, Reused());
    var s, events := CodeRun(SMALL, memory, Reused()).value, Reused() + [Release(FAR)];
    RunOne(SMALL, memory, Reused(), Release(FAR));
    FarFreed(s);
    var s1 := FreeStep(s, FAR.Ptr()).value.state;
    ReleaseStep(s, ProgramRun(Reused()).frames, FAR);
    SameShadow(s1);
    RunOne(SMALL, memory, events, Release(NEAR));
    NearFreed(s1);
    ReleaseStep(s1, ProgramRun(events).frames, NEAR);
  }

  lemma SameShadow(s: State)
    requires LinkOverNear(s)
    ensures |s.shadow| == SMALL.granules
  {
  }

  lemma ReleaseStep(s: State, frames: seq<Frame>, b: Block)
    requires b.Ptr() < ADDRESS_LIMIT && FreeStep(s, b.Ptr()).Done? && FreeStep(s, b.Ptr()).value.outcome == Quarantined
    ensures CodeStep(s, frames, Release(b)) == Done(FreeStep(s, b.Ptr()).value.state)
  {
    hide FreeStep;
  }

  /** The state after the first of the two. */
  predicate LinkOverNear(s: State) {
    && |s.shadow| == SMALL.granules && s.shadow[5] != FREED_POISON && s.size == 72 && s.head == 1008 && s.tail == 1008
    && Load(s.memory, 8) == 1008 && Load(s.memory, 1008) == NULL
  }

  lemma FarFreed(s: State)
    requires Means(SMALL, s, Program(Heap({NEAR, FAR}, []), [], 8))
    ensures FAR.Ptr() < ADDRESS_LIMIT && FreeStep(s, FAR.Ptr()).Done? && FreeStep(s, FAR.Ptr()).value.outcome == Quarantined
    ensures LinkOverNear(FreeStep(s, FAR.Ptr()).value.state)
  {
    hide Poisoned, Load, Store, Shadows, Disjoint, Metadata, Around, ImageOk, FramesOk, BlockApart;
    var h, around := Heap({NEAR, FAR}, []), Around(SMALL, []);
    DoubleFreeSeen(s.shadow, h, around, FAR);
    DoubleFreeSeen(s.shadow, h, around, NEAR);
    LiveRecorded(s.memory, h, FAR);
    NothingQueued();
    var queued := EntryStored(s.memory, FAR);
    EntryNow(s.memory, FAR);
    LoadStored(queued, 8, 1008);
    KeptWord(queued, 8, 1008, 1008);
    PoisonFar(s.shadow);
  }

  lemma KeptWord(m: Memory, a: int, w: uint32, b: int)
    requires a + WORD <= b || b + WORD <= a
    ensures Load(Store(m, a, w), b) == Load(m, b)
  {
    hide Load, Bytes32;
    LoadKept(m, Store(m, a, w), b);
  }

  lemma PoisonFar(shadow: seq<int>)
    requires |shadow| == SMALL.granules
    ensures PoisonOk(|shadow|, 1008, 72) && |Poisoned(shadow, 1008, 72, FREED_POISON)| == |shadow|
    ensures Poisoned(shadow, 1008, 72, FREED_POISON)[5] == shadow[5]
  {
    hide Poisoned;
    PoisonMeans(shadow, 1008, 72, FREED_POISON, 40);
  }

  lemma NearFreed(s: State)
    requires LinkOverNear(s)
    ensures NEAR.Ptr() < ADDRESS_LIMIT && FreeStep(s, NEAR.Ptr()).Done? && FreeStep(s, NEAR.Ptr()).value.outcome == Quarantined
    ensures var s' := FreeStep(s, NEAR.Ptr()).value.state; |s'.shadow| == |s.shadow| && !Addressable(s'.shadow, 500)
  {
    hide Poisoned, Load, Store;
    PoisonMeans(s.shadow, 8, 1000, FREED_POISON, 500);
  }

  // --- A link over a variable ---

  const HIGH := Block(1000, 0x1000_0000)
  const SPARE := Block(2000, 8)
  const FRAME := Frame(968, [8])

  /** A block over the limit is freed, and a function entered whose variable is where it was. */
  function Overlaid(): seq<Event> { [] + [Allocate(HIGH)] + [Release(HIGH)] + [Allocate(SPARE)] + [Enter(FRAME)] }

  /** A program gets there, and there a free is not permitted although the link harms no block. */
  lemma OverlaidRun(memory: Memory)
    ensures ImageOk(SMALL) && PermittedRun(SMALL, Overlaid())
    ensures ProgramRun(Overlaid()) == Program(Heap({SPARE}, []), [FRAME], 1000)
    ensures Freeable(Heap({SPARE}, []), 1000, SPARE)
    ensures forall a :: 1000 <= a < 1008 ==> LiveObject(SMALL, ProgramRun(Overlaid()), a)
    ensures !Permitted(SMALL, ProgramRun(Overlaid()), Release(SPARE))
  {
    hide PermittedRun, ProgramRun, CodeRun, Evicted, FrameOk, InFrameVariable;
    RunNone();
    var one := [] + [Allocate(HIGH)];
    var two := one + [Release(HIGH)];
    RunOne(SMALL, memory, [], Allocate(HIGH));
    RunOne(SMALL, memory, one, Release(HIGH));
    RunOne(SMALL, memory, two, Allocate(SPARE));
    RunOne(SMALL, memory, two + [Allocate(SPARE)], Enter(FRAME));
    NewestSurvives([], HIGH);
    assert Permitted(SMALL, START, Allocate(HIGH));
    assert ProgramRun(one).heap == Heap({HIGH}, []);
    assert ProgramRun(two) == Program(Heap({}, []), [], 1000);
    assert ProgramRun(two + [Allocate(SPARE)]) == Program(Heap({SPARE}, []), [], 1000);
    assert {SPARE} - {SPARE} == {};
    OverlaidFrame();
    forall a | 1000 <= a < 1008 ensures GlobalOrVariable(SMALL, [FRAME], a) { OverlaidVariable(a); }
    assert 1000 in OutsideHeap(SMALL, [FRAME]);
  }

  lemma OverlaidFrame()
    ensures FrameOk(SMALL, FRAME) && FRAME.End() == 1064
  {
    assert [8][..0] == [];
    assert I.Allocas([8]) == [RZ_SIZE, 64];
    assert [RZ_SIZE, 64][..1] == [RZ_SIZE] && [RZ_SIZE][..0] == [];
    assert I.SumOf([RZ_SIZE]) == RZ_SIZE;
    assert I.SumOf([RZ_SIZE, 64]) == 96;
  }

  lemma OverlaidVariable(a: int)
    requires 1000 <= a < 1008
    ensures InFrameVariable([FRAME], a)
  {
    OverlaidFrame();
    assert [8][..0] == [];
    assert I.InVariable([8], 0, a - 968);
    assert [FRAME][0].Has(a);
  }

  /** From there freeing the other block writes a link over the variable. */
  lemma LinkOverVariable(memory: Memory)
    ensures ImageOk(SMALL)
    ensures var run := CodeRun(SMALL, memory, Overlaid() + [Release(SPARE)]); run.Done? && Load(run.value.memory, 1000) == 2000
  {
    hide PermittedRun, ProgramRun, CodeRun, Permitted, Overlaid, FreeStep, Sound, ImageOk, Separate, Around, Load, Store, EntryStored, Freeable, Next;
    OverlaidRun(memory);
    RunMeans(SMALL, memory, Overlaid());
    var s, p := CodeRun(SMALL, memory, Overlaid()).value, ProgramRun(Overlaid());
    SameFrames(SMALL, p, p);
    RunOne(SMALL, memory, Overlaid(), Release(SPARE));
    FreeSound(s, p.heap, Around(SMALL, p.frames), p.stale, SPARE);
    FreedMemory(s, p.heap, Around(SMALL, p.frames), p.stale, SPARE);
    ReleaseStep(s, p.frames, SPARE);
    LoadStored(EntryStored(s.memory, SPARE), 1000, 2000);
  }
}
