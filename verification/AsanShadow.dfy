/** The shadow encoding of the AddressSanitizer runtime: one shadow value for each 8-byte granule.
    0 means all 8 bytes may be accessed, k in 1..7 that only the first k may, and a negative value
    that none may and why.  `char` is modelled as signed, as the poison values need. */
module AsanShadow {
  const RZ_SIZE := 32
  const SHADOW_SCALE := 8

  const STACK_POISON := -1
  const HEAP_POISON := -2
  const GLOBAL_POISON := -3
  const FREED_POISON := -4

  /** Whether the shadow lets byte `a` be accessed. */
  predicate Addressable(shadow: seq<int>, a: nat)
    requires a / SHADOW_SCALE < |shadow|
  {
    var v := shadow[a / SHADOW_SCALE];
    v == 0 || a % SHADOW_SCALE < v
  }

  function Fill(shadow: seq<int>, lo: int, hi: int, v: int): (r: seq<int>)
    ensures |r| == |shadow|
    ensures forall g :: 0 <= g < |shadow| ==> r[g] == if lo <= g < hi then v else shadow[g]
  {
    seq(|shadow|, g requires 0 <= g < |shadow| => if lo <= g < hi then v else shadow[g])
  }

  /** What `__asan_poison` does to the shadow. */
  function Poisoned(shadow: seq<int>, ptr: nat, size: nat, poison: int): (r: seq<int>)
    requires ptr / SHADOW_SCALE < |shadow|
    ensures |r| == |shadow|
  {
    var first := if ptr % SHADOW_SCALE == 0 then poison else ptr % SHADOW_SCALE;
    Fill(shadow[ptr / SHADOW_SCALE := first], (ptr + size % SHADOW_SCALE) / SHADOW_SCALE, (ptr + size) / SHADOW_SCALE, poison)
  }

  /** What `__asan_unpoison` does to the shadow. */
  function Unpoisoned(shadow: seq<int>, ptr: nat, size: nat): (r: seq<int>)
    requires ptr / SHADOW_SCALE < |shadow|
    ensures |r| == |shadow|
  {
    Fill(shadow[ptr / SHADOW_SCALE := 0], (ptr + size % SHADOW_SCALE) / SHADOW_SCALE, (ptr + size) / SHADOW_SCALE, 0)
  }

  /** Poisoning makes exactly the bytes of the range inaccessible, makes the bytes before them in a
      shared granule accessible, and leaves every other granule alone. */
  lemma PoisonMeans(shadow: seq<int>, ptr: nat, size: nat, poison: int, a: nat)
    requires poison < 0 && size > 0 && (ptr + size) % SHADOW_SCALE == 0 && ptr + size <= SHADOW_SCALE * |shadow|
    requires a < SHADOW_SCALE * |shadow|
    ensures ptr / SHADOW_SCALE < |shadow| && a / SHADOW_SCALE < |shadow|
    ensures ptr <= a < ptr + size ==> !Addressable(Poisoned(shadow, ptr, size, poison), a)
    ensures ptr / SHADOW_SCALE * SHADOW_SCALE <= a < ptr ==> Addressable(Poisoned(shadow, ptr, size, poison), a)
    ensures a < ptr / SHADOW_SCALE * SHADOW_SCALE || ptr + size <= a ==>
              Poisoned(shadow, ptr, size, poison)[a / SHADOW_SCALE] == shadow[a / SHADOW_SCALE]
  {
    hide Poisoned;
    PoisonRange(ptr, size);
    PoisonedAt(shadow, ptr, size, poison, a / SHADOW_SCALE);
    assert a == SHADOW_SCALE * (a / SHADOW_SCALE) + a % SHADOW_SCALE;
  }

  /** Clearing makes exactly the granules of the range accessible, the bytes before it in a shared one too,
      and leaves every other granule alone. */
  lemma UnpoisonMeans(shadow: seq<int>, ptr: nat, size: nat, a: nat)
    requires size > 0 && (ptr + size) % SHADOW_SCALE == 0 && ptr + size <= SHADOW_SCALE * |shadow| && a < SHADOW_SCALE * |shadow|
    ensures ptr / SHADOW_SCALE < |shadow| && a / SHADOW_SCALE < |shadow|
    ensures var r := Unpoisoned(shadow, ptr, size);
            if ptr / SHADOW_SCALE * SHADOW_SCALE <= a < ptr + size then Addressable(r, a)
            else r[a / SHADOW_SCALE] == shadow[a / SHADOW_SCALE]
  {
    hide Unpoisoned;
    PoisonRange(ptr, size);
    ClearedAt(shadow, ptr, size, a / SHADOW_SCALE);
    assert a == SHADOW_SCALE * (a / SHADOW_SCALE) + a % SHADOW_SCALE;
  }

  lemma ClearedAt(shadow: seq<int>, ptr: nat, size: nat, g: nat)
    requires size > 0 && (ptr + size) % SHADOW_SCALE == 0 && ptr + size <= SHADOW_SCALE * |shadow| && g < |shadow|
    ensures ptr / SHADOW_SCALE < |shadow|
    ensures Unpoisoned(shadow, ptr, size)[g] == if ptr / SHADOW_SCALE <= g < (ptr + size) / SHADOW_SCALE then 0 else shadow[g]
  {
    PoisonRange(ptr, size);
  }

  /** The granules a range that ends on a granule covers whole. */
  lemma PoisonRange(ptr: nat, size: nat)
    requires (ptr + size) % SHADOW_SCALE == 0
    ensures var g, e := ptr / SHADOW_SCALE, (ptr + size) / SHADOW_SCALE;
            && ptr == SHADOW_SCALE * g + ptr % SHADOW_SCALE && ptr + size == SHADOW_SCALE * e && (size > 0 ==> g < e)
            && (ptr + size % SHADOW_SCALE) / SHADOW_SCALE == if ptr % SHADOW_SCALE == 0 then g else g + 1
  {
    var g, off, e := ptr / SHADOW_SCALE, ptr % SHADOW_SCALE, (ptr + size) / SHADOW_SCALE;
    assert ptr == SHADOW_SCALE * g + off && ptr + size == SHADOW_SCALE * e;
    if off == 0 {
      assert size == SHADOW_SCALE * (e - g);
    } else {
      assert size == SHADOW_SCALE * (e - g - 1) + (SHADOW_SCALE - off);
      assert size % SHADOW_SCALE == SHADOW_SCALE - off;
    }
  }

  lemma PoisonedAt(shadow: seq<int>, ptr: nat, size: nat, poison: int, g: nat)
    requires size > 0 && (ptr + size) % SHADOW_SCALE == 0 && ptr + size <= SHADOW_SCALE * |shadow| && g < |shadow|
    ensures ptr / SHADOW_SCALE < |shadow|
    ensures Poisoned(shadow, ptr, size, poison)[g]
            == if g == ptr / SHADOW_SCALE && ptr % SHADOW_SCALE != 0 then ptr % SHADOW_SCALE
               else if ptr / SHADOW_SCALE <= g < (ptr + size) / SHADOW_SCALE then poison
               else shadow[g]
  {
    PoisonRange(ptr, size);
  }

  /** An empty aligned range is not left alone: its first granule is poisoned all the same.  So
      poisoning touches nothing outside its range's granules exactly when the range is not empty. */
  lemma EmptyPoisonSpills(shadow: seq<int>, ptr: nat, size: nat, poison: int)
    requires poison < 0 && (ptr + size) % SHADOW_SCALE == 0 && ptr + size <= SHADOW_SCALE * |shadow| && ptr / SHADOW_SCALE < |shadow|
    requires forall g :: 0 <= g < |shadow| ==> shadow[g] == 0
    ensures size > 0 <==>
            forall g :: 0 <= g < |shadow| && !(ptr / SHADOW_SCALE <= g < (ptr + size) / SHADOW_SCALE) ==>
              Poisoned(shadow, ptr, size, poison)[g] == 0
  {
    if size == 0 {
      assert Poisoned(shadow, ptr, size, poison)[ptr / SHADOW_SCALE] == poison;
    }
  }

  /** The shadow of a granule around an object that starts aligned and has redzones on both sides. */
  function ObjectShadow(start: int, size: nat, poison: int, g: int): int {
    var a := SHADOW_SCALE * g - start;
    if a < 0 || size <= a then poison
    else if a + SHADOW_SCALE <= size then 0
    else size - a
  }

  /** It lets exactly the object's own bytes be accessed. */
  lemma ObjectByte(start: int, size: nat, poison: int, a: int)
    requires start % SHADOW_SCALE == 0 && poison < 0
    ensures var v := ObjectShadow(start, size, poison, a / SHADOW_SCALE);
            start <= a < start + size <==> v == 0 || a % SHADOW_SCALE < v
  {
  }

  /** Poisoning a redzone that ends on a granule: its granules, the one it shares, and no other. */
  lemma RedzoneGranule(shadow: seq<int>, ptr: nat, size: nat, poison: int, g: nat)
    requires RZ_SIZE <= size && (ptr + size) % SHADOW_SCALE == 0 && ptr + size <= SHADOW_SCALE * |shadow| && g < |shadow|
    ensures ptr / SHADOW_SCALE < |shadow|
    ensures Poisoned(shadow, ptr, size, poison)[g]
            == if ptr <= SHADOW_SCALE * g < ptr + size then poison
               else if SHADOW_SCALE * g < ptr < SHADOW_SCALE * g + SHADOW_SCALE then ptr - SHADOW_SCALE * g
               else shadow[g]
  {
  }

  /** Poisoning both redzones of an object over a clear shadow gives every granule its shadow. */
  lemma ObjectGranule(shadow: seq<int>, base: nat, size: nat, rightSize: nat, poison: int, g: nat)
    requires base % SHADOW_SCALE == 0 && RZ_SIZE <= rightSize && g < |shadow|
    requires var end := base + RZ_SIZE + size + rightSize;
             && end % SHADOW_SCALE == 0 && end <= SHADOW_SCALE * |shadow|
             && (base <= SHADOW_SCALE * g < end ==> shadow[g] == 0)
    ensures base / SHADOW_SCALE < |shadow| && (base + RZ_SIZE + size) / SHADOW_SCALE < |shadow|
    ensures Poisoned(Poisoned(shadow, base, RZ_SIZE, poison), base + RZ_SIZE + size, rightSize, poison)[g]
            == if base <= SHADOW_SCALE * g < base + RZ_SIZE + size + rightSize then ObjectShadow(base + RZ_SIZE, size, poison, g) else shadow[g]
  {
    hide Poisoned;
    RedzoneGranule(shadow, base, RZ_SIZE, poison, g);
    RedzoneGranule(Poisoned(shadow, base, RZ_SIZE, poison), base + RZ_SIZE + size, rightSize, poison, g);
  }

  // --- Checks ---

  type AccessSize = s: nat | s == 1 || s == 2 || s == 4 || s == 8 witness 1

  function CheckPasses(shadow: seq<int>, ptr: nat, size: AccessSize): bool
    requires ptr / SHADOW_SCALE < |shadow|
  {
    var v := shadow[ptr / SHADOW_SCALE];
    if size == SHADOW_SCALE then v == 0 else v == 0 || ptr % SHADOW_SCALE + size <= v
  }

  /** The shadow only ever holds values of this form. */
  predicate WellFormed(shadow: seq<int>) {
    forall g :: 0 <= g < |shadow| ==> shadow[g] < SHADOW_SCALE
  }

  lemma PoisonedWellFormed(shadow: seq<int>, ptr: nat, size: nat, poison: int)
    requires WellFormed(shadow) && poison < SHADOW_SCALE && ptr / SHADOW_SCALE < |shadow|
    ensures WellFormed(Poisoned(shadow, ptr, size, poison))
  {
  }

  /** The check looks at one granule: it passes exactly when every byte of the access that lies in
      its first granule is accessible. */
  lemma CheckIsFirstGranule(shadow: seq<int>, ptr: nat, size: AccessSize)
    requires WellFormed(shadow) && ptr / SHADOW_SCALE < |shadow|
    ensures CheckPasses(shadow, ptr, size) <==>
            forall a :: ptr <= a < ptr + size && a / SHADOW_SCALE == ptr / SHADOW_SCALE ==> Addressable(shadow, a)
  {
    var g := ptr / SHADOW_SCALE;
    var last := if ptr % SHADOW_SCALE + size <= SHADOW_SCALE then ptr + size - 1 else g * SHADOW_SCALE + 7;
    assert last / SHADOW_SCALE == g && ptr <= last < ptr + size;
    if CheckPasses(shadow, ptr, size) {
      forall a | ptr <= a < ptr + size && a / SHADOW_SCALE == g ensures Addressable(shadow, a) {}
    } else {
      assert !Addressable(shadow, last);
    }
  }

  predicate AllAddressable(shadow: seq<int>, ptr: nat, size: AccessSize)
    requires (ptr + size - 1) / SHADOW_SCALE < |shadow|
  {
    forall a :: ptr <= a < ptr + size ==> Addressable(shadow, a)
  }

  /** The check answers for every byte of the access, on this shadow. */
  predicate Answers(shadow: seq<int>, ptr: nat, size: AccessSize)
    requires (ptr + size - 1) / SHADOW_SCALE < |shadow|
  {
    CheckPasses(shadow, ptr, size) <==> AllAddressable(shadow, ptr, size)
  }

  /** The check of an access answers for every byte on every shadow exactly when the access stays in one
      granule: the granule after the first is never looked at. */
  lemma CheckExact(ptr: nat, size: AccessSize)
    ensures ptr % SHADOW_SCALE + size <= SHADOW_SCALE
       <==> forall shadow :: WellFormed(shadow) && (ptr + size - 1) / SHADOW_SCALE < |shadow| ==> Answers(shadow, ptr, size)
  {
    var g := ptr / SHADOW_SCALE;
    if ptr % SHADOW_SCALE + size <= SHADOW_SCALE {
      forall shadow | WellFormed(shadow) && (ptr + size - 1) / SHADOW_SCALE < |shadow| ensures Answers(shadow, ptr, size) {
        OneGranule(shadow, ptr, size);
      }
    } else {
      var shadow := seq(g + 2, i => if i == g + 1 then STACK_POISON else 0);
      assert WellFormed(shadow) && CheckPasses(shadow, ptr, size);
      var last := ptr + size - 1;
      assert last / SHADOW_SCALE == g + 1 && !Addressable(shadow, last);
    }
  }

  lemma OneGranule(shadow: seq<int>, ptr: nat, size: AccessSize)
    requires WellFormed(shadow) && (ptr + size - 1) / SHADOW_SCALE < |shadow|
    requires ptr % SHADOW_SCALE + size <= SHADOW_SCALE
    ensures Answers(shadow, ptr, size)
  {
    CheckIsFirstGranule(shadow, ptr, size);
    forall a | ptr <= a < ptr + size ensures a / SHADOW_SCALE == ptr / SHADOW_SCALE {}
  }

  lemma AccessInGranule(ptr: nat, size: AccessSize, a: nat)
    requires ptr % size == 0 && ptr <= a < ptr + size
    ensures a / SHADOW_SCALE == ptr / SHADOW_SCALE
  {
    if size == 1 {} else if size == 2 { assert ptr % 8 != 7; } else if size == 4 { assert ptr % 8 == 0 || ptr % 8 == 4; } else {}
  }

  /** A naturally aligned access never leaves its granule, so for it the check is exact. */
  lemma AlignedCheckExact(shadow: seq<int>, ptr: nat, size: AccessSize)
    requires WellFormed(shadow) && ptr / SHADOW_SCALE < |shadow| && ptr % size == 0
    ensures (ptr + size - 1) / SHADOW_SCALE < |shadow|
    ensures CheckPasses(shadow, ptr, size) <==> forall a :: ptr <= a < ptr + size ==> Addressable(shadow, a)
  {
    CheckIsFirstGranule(shadow, ptr, size);
    forall a | ptr <= a < ptr + size ensures a / SHADOW_SCALE == ptr / SHADOW_SCALE {
      AccessInGranule(ptr, size, a);
    }
  }

  /** Loads of an aligned 4-byte word are checked by their first byte alone, since a one-byte load
      may have been widened to them. */
  function LoadCheckPasses(shadow: seq<int>, ptr: nat, size: AccessSize): bool
    requires ptr / SHADOW_SCALE < |shadow|
  {
    CheckPasses(shadow, ptr, if size == 4 && ptr % 4 == 0 then 1 else size)
  }

  lemma LoadCheckExact(shadow: seq<int>, ptr: nat, size: AccessSize)
    requires WellFormed(shadow) && ptr / SHADOW_SCALE < |shadow| && ptr % size == 0
    ensures (ptr + size - 1) / SHADOW_SCALE < |shadow|
    ensures LoadCheckPasses(shadow, ptr, size) <==>
            if size == 4 then Addressable(shadow, ptr) else forall a :: ptr <= a < ptr + size ==> Addressable(shadow, a)
  {
    AlignedCheckExact(shadow, ptr, size);
    if size == 4 {
      AlignedCheckExact(shadow, ptr, 1);
    }
  }

  // --- The shadow as the runtime holds it ---

  /** What `__asan_poison` and `__asan_unpoison` need: an aligned end, memory that has a shadow, and a
      size that is an `int`. */
  predicate PoisonOk(granules: nat, ptr: nat, size: nat) {
    (ptr + size) % SHADOW_SCALE == 0 && ptr / SHADOW_SCALE < granules && ptr + size <= SHADOW_SCALE * granules && size < 0x8000_0000
  }

  method Poison(shadow: array<int>, ptr: nat, size: nat, poison: int)
    requires PoisonOk(shadow.Length, ptr, size)
    modifies shadow
    ensures shadow[..] == Poisoned(old(shadow[..]), ptr, size, poison)
  {
    var end := ptr + size;
    var offset := ptr % SHADOW_SCALE;
    shadow[ptr / SHADOW_SCALE] := if offset == 0 then poison else offset;
    var ptr' := ptr + size % SHADOW_SCALE;
    var len := (end - ptr') / SHADOW_SCALE;
    MemSet(shadow, ptr' / SHADOW_SCALE, len, poison);
  }

  method Unpoison(shadow: array<int>, ptr: nat, size: nat)
    requires PoisonOk(shadow.Length, ptr, size)
    modifies shadow
    ensures shadow[..] == Unpoisoned(old(shadow[..]), ptr, size)
  {
    var end := ptr + size;
    shadow[ptr / SHADOW_SCALE] := 0;
    var ptr' := ptr + size % SHADOW_SCALE;
    MemSet(shadow, ptr' / SHADOW_SCALE, (end - ptr') / SHADOW_SCALE, 0);
  }

  method MemSet(shadow: array<int>, at: nat, len: nat, v: int)
    requires at + len <= shadow.Length
    modifies shadow
    ensures shadow[..] == Fill(old(shadow[..]), at, at + len, v)
  {
    for i := 0 to len
      invariant forall g :: 0 <= g < shadow.Length ==> shadow[g] == if at <= g < at + i then v else old(shadow[g])
    {
      shadow[at + i] := v;
    }
  }
}
