/** The ARM pseudo-instructions on quadword registers, each emitted as a few doubleword instructions
    that overwrite their destination while the sources are still needed. */
module VectorPseudosARM32 {
  import opened Bytes

  /** A doubleword register; a quadword register `q` is the pair `2 * q` and `2 * q + 1`. */
  type Double = d: seq<byte> | |d| == 8 witness [0, 0, 0, 0, 0, 0, 0, 0]

  const ZERO: Double := [0, 0, 0, 0, 0, 0, 0, 0]

  type RegisterFile = r: seq<Double> | |r| == 32 witness seq<Double>(32, _ => ZERO)

  type DReg = n: nat | n < 32
  type QReg = n: nat | n < 16

  datatype Instr =
    | Move(d: DReg, m: DReg)
    | Zip(size: ElementSize, d: DReg, m: DReg)
    | Transpose(d: DReg, m: DReg)
    | Narrow(d: DReg, q: QReg)

  /** The bytes of an element. */
  type ElementSize = n: nat | n == 1 || n == 2 || n == 4 witness 1

  // --- What the instructions do ---

  /** The elements of `a` and `b`, of `size` bytes each, in turn. */
  function Interleave(a: seq<byte>, b: seq<byte>, size: ElementSize): (all: seq<byte>)
    requires |a| == |b|
    ensures |a| % size == 0 ==> |all| == |a| + |b|
  {
    if |a| < size then
      Remainder(|a|, size);
      []
    else
      Remainder(|a| - size, size);
      a[..size] + b[..size] + Interleave(a[size..], b[size..], size)
  }

  lemma Remainder(n: nat, size: ElementSize)
    ensures (n + size) % size == n % size && (n < size ==> n % size == n)
  {
  }

  /** Whether a byte of the result is in an even place, and which byte of that source it is. */
  predicate FromFirst(i: nat, size: ElementSize) { i / size % 2 == 0 }
  function SourceByte(i: nat, size: ElementSize): nat { i / size / 2 * size + i % size }

  /** Interleaving byte by byte: at even places come the elements of `a`, at odd places those of `b`, in
      order, and each element's bytes stay together. */
  lemma {:induction false} InterleavedByte(a: seq<byte>, b: seq<byte>, size: ElementSize, i: nat)
    requires |a| == |b| && |a| % size == 0 && i < |a| + |b|
    ensures |Interleave(a, b, size)| == |a| + |b| && SourceByte(i, size) < |a|
    ensures Interleave(a, b, size)[i] == if FromFirst(i, size) then a[SourceByte(i, size)] else b[SourceByte(i, size)]
    decreases |a|
  {
    hide SourceByte, FromFirst;
    PlaceAt(i, size, |a|);
    Remainder(|a| - size, size);
    if i >= 2 * size {
      InterleavedByte(a[size..], b[size..], size, i - 2 * size);
    }
  }

  /** Two elements further on the place is two more, and the byte within is the same. */
  lemma PlaceAt(i: nat, size: ElementSize, n: nat)
    requires n % size == 0 && i < 2 * n
    ensures n >= size && SourceByte(i, size) < n
    ensures i < size ==> FromFirst(i, size) && SourceByte(i, size) == i
    ensures size <= i < 2 * size ==> !FromFirst(i, size) && SourceByte(i, size) == i - size
    ensures i >= 2 * size ==>
              SourceByte(i, size) == SourceByte(i - 2 * size, size) + size && (FromFirst(i, size) <==> FromFirst(i - 2 * size, size))
  {
    hide SourceByte, FromFirst;
    if size == 1 { BytePlace(i, n); } else if size == 2 { PairPlace(i, n); } else { WordPlace(i, n); }
  }

  lemma BytePlace(i: nat, n: nat)
    requires i < 2 * n
    ensures n >= 1 && SourceByte(i, 1) < n
    ensures i < 1 ==> FromFirst(i, 1) && SourceByte(i, 1) == i
    ensures 1 <= i < 2 * 1 ==> !FromFirst(i, 1) && SourceByte(i, 1) == i - 1
    ensures i >= 2 * 1 ==>
              SourceByte(i, 1) == SourceByte(i - 2 * 1, 1) + 1 && (FromFirst(i, 1) <==> FromFirst(i - 2 * 1, 1))
  {
  }

  lemma PairPlace(i: nat, n: nat)
    requires n % 2 == 0 && i < 2 * n
    ensures n >= 2 && SourceByte(i, 2) < n
    ensures i < 2 ==> FromFirst(i, 2) && SourceByte(i, 2) == i
    ensures 2 <= i < 2 * 2 ==> !FromFirst(i, 2) && SourceByte(i, 2) == i - 2
    ensures i >= 2 * 2 ==>
              SourceByte(i, 2) == SourceByte(i - 2 * 2, 2) + 2 && (FromFirst(i, 2) <==> FromFirst(i - 2 * 2, 2))
  {
  }

  lemma WordPlace(i: nat, n: nat)
    requires n % 4 == 0 && i < 2 * n
    ensures n >= 4 && SourceByte(i, 4) < n
    ensures i < 4 ==> FromFirst(i, 4) && SourceByte(i, 4) == i
    ensures 4 <= i < 2 * 4 ==> !FromFirst(i, 4) && SourceByte(i, 4) == i - 4
    ensures i >= 2 * 4 ==>
              SourceByte(i, 4) == SourceByte(i - 2 * 4, 4) + 4 && (FromFirst(i, 4) <==> FromFirst(i - 2 * 4, 4))
  {
    hide SourceByte, FromFirst;
    var q, r, m := i / 8, i % 8, n / 4;
    assert i == 8 * q + r && n == 4 * m;
    WordAt(q, r);
    assert q < m;
    if i >= 8 {
      WordAt(q - 1, r);
      assert i - 8 == 8 * (q - 1) + r;
    }
  }

  lemma WordAt(q: nat, r: nat)
    requires r < 8
    ensures SourceByte(8 * q + r, 4) == 4 * q + (if r < 4 then r else r - 4) && (FromFirst(8 * q + r, 4) <==> r < 4)
  {
    assert (8 * q + r) / 4 == 2 * q + r / 4;
  }

  function LowHalf(a: Double, b: Double, size: ElementSize): Double { Interleave(a, b, size)[..8] }

  function HighHalf(a: Double, b: Double, size: ElementSize): Double { Interleave(a, b, size)[8..] }

  /** One step; `narrow` is any way of narrowing the elements of a quadword to half their width. */
  function Step(i: Instr, narrow: (Double, Double) -> Double, r: RegisterFile): RegisterFile {
    match i
    case Move(d, m) => r[d := r[m]]
    case Zip(size, d, m) => r[d := LowHalf(r[d], r[m], size)][m := HighHalf(r[d], r[m], size)]
    case Transpose(d, m) => r[d := r[d][..4] + r[m][..4]][m := r[d][4..] + r[m][4..]]
    case Narrow(d, q) => r[d := narrow(r[2 * q], r[2 * q + 1])]
  }

  function Run(code: seq<Instr>, narrow: (Double, Double) -> Double, r: RegisterFile): RegisterFile {
    if code == [] then r
    else Step(code[|code| - 1], narrow, Run(code[..|code| - 1], narrow, r))
  }

  lemma RunLast(code: seq<Instr>, i: Instr, narrow: (Double, Double) -> Double, r: RegisterFile)
    ensures Run(code + [i], narrow, r) == Step(i, narrow, Run(code, narrow, r))
  {
    assert (code + [i])[..|code|] == code;
  }

  /** The registers with quadword `q` replaced. */
  function WithQ(r: RegisterFile, q: QReg, low: Double, high: Double): RegisterFile {
    r[2 * q := low][2 * q + 1 := high]
  }

  /** For elements of half a doubleword, transposing is interleaving. */
  lemma TransposeInterleaves(a: Double, b: Double)
    ensures LowHalf(a, b, 4) == a[..4] + b[..4] && HighHalf(a, b, 4) == a[4..] + b[4..]
  {
    assert Interleave(a[4..], b[4..], 4) == a[4..][..4] + b[4..][..4] + Interleave(a[4..][4..], b[4..][4..], 4);
  }

  class VectorAssembler {
    var code: seq<Instr>

    constructor ()
      ensures code == []
    {
      code := [];
    }

    method Emit(i: Instr)
      modifies this
      ensures code == old(code) + [i]
      ensures forall narrow, r :: Run(code, narrow, r) == Step(i, narrow, Run(old(code), narrow, r))
    {
      forall narrow, r ensures Run(code + [i], narrow, r) == Step(i, narrow, Run(code, narrow, r)) {
        RunLast(code, i, narrow, r);
      }
      code := code + [i];
    }

    /** A move onto itself emits nothing. */
    method EmitMoveDD(d: DReg, m: DReg)
      modifies this
      ensures code == if d == m then old(code) else old(code) + [Move(d, m)]
      ensures forall narrow, r {:trigger Run(code, narrow, r)} ::
                var was := Run(old(code), narrow, r);
                Run(code, narrow, r) == was[d := was[m]]
    {
      if d != m { Emit(Move(d, m)); }
    }

    /** The low half of `qm` under the high half of `qn`. */
    method Vmovlq(qd: QReg, qn: QReg, qm: QReg)
      modifies this
      ensures forall narrow, r {:trigger Run(code, narrow, r)} ::
                var was := Run(old(code), narrow, r);
                Run(code, narrow, r) == WithQ(was, qd, was[2 * qm], was[2 * qn + 1])
    {
      hide Run;
      EmitMoveDD(2 * qd, 2 * qm);
      EmitMoveDD(2 * qd + 1, 2 * qn + 1);
    }

    /** The low half of `qn` under the high half of `qm`. */
    method Vmovhq(qd: QReg, qn: QReg, qm: QReg)
      modifies this
      ensures forall narrow, r {:trigger Run(code, narrow, r)} ::
                var was := Run(old(code), narrow, r);
                Run(code, narrow, r) == WithQ(was, qd, was[2 * qn], was[2 * qm + 1])
    {
      hide Run;
      EmitMoveDD(2 * qd, 2 * qn);
      EmitMoveDD(2 * qd + 1, 2 * qm + 1);
    }

    /** The high half of `qm` under the high half of `qn`. */
    method Vmovhlq(qd: QReg, qn: QReg, qm: QReg)
      modifies this
      ensures forall narrow, r {:trigger Run(code, narrow, r)} ::
                var was := Run(old(code), narrow, r);
                Run(code, narrow, r) == WithQ(was, qd, was[2 * qm + 1], was[2 * qn + 1])
    {
      hide Run;
      EmitMoveDD(2 * qd, 2 * qm + 1);
      EmitMoveDD(2 * qd + 1, 2 * qn + 1);
    }

    /** The low half of `qn` under the low half of `qm`. */
    method Vmovlhq(qd: QReg, qn: QReg, qm: QReg)
      modifies this
      ensures forall narrow, r {:trigger Run(code, narrow, r)} ::
                var was := Run(old(code), narrow, r);
                Run(code, narrow, r) == WithQ(was, qd, was[2 * qn], was[2 * qm])
    {
      hide Run;
      EmitMoveDD(2 * qd + 1, 2 * qm);
      EmitMoveDD(2 * qd, 2 * qn);
    }

    /** The elements of the low halves of `qn` and `qm` in turn. */
    method Vzip(size: ElementSize, qd: QReg, qn: QReg, qm: QReg)
      modifies this
      ensures forall narrow, r {:trigger Run(code, narrow, r)} ::
                var was := Run(old(code), narrow, r);
                Run(code, narrow, r) == WithQ(was, qd, LowHalf(was[2 * qn], was[2 * qm], size),
                                              HighHalf(was[2 * qn], was[2 * qm], size))
    {
      hide Run, LowHalf, HighHalf;
      EmitMoveDD(2 * qd + 1, 2 * qm);
      EmitMoveDD(2 * qd, 2 * qn);
      if size != 4 {
        Emit(Zip(size, 2 * qd, 2 * qd + 1));
      } else {
        forall a: Double, b: Double
          ensures LowHalf(a, b, 4) == a[..4] + b[..4] && HighHalf(a, b, 4) == a[4..] + b[4..]
        {
          TransposeInterleaves(a, b);
        }
        Emit(Transpose(2 * qd, 2 * qd + 1));
      }
    }

    /** `qm` narrowed under `qn` narrowed; the order of the two steps depends on which source is the
        destination. */
    method Vqmovn2(qd: QReg, qm: QReg, qn: QReg)
      modifies this
      ensures forall narrow, r {:trigger Run(code, narrow, r)} ::
                var was := Run(old(code), narrow, r);
                Run(code, narrow, r) == WithQ(was, qd, narrow(was[2 * qm], was[2 * qm + 1]),
                                              narrow(was[2 * qn], was[2 * qn + 1]))
    {
      hide Run;
      if qm != qd {
        Emit(Narrow(2 * qd + 1, qn));
        Emit(Narrow(2 * qd, qm));
      } else if qn != qd {
        Emit(Narrow(2 * qd, qm));
        Emit(Narrow(2 * qd + 1, qn));
      } else {
        Emit(Narrow(2 * qd, qm));
        EmitMoveDD(2 * qd + 1, 2 * qd);
      }
    }
  }
}
