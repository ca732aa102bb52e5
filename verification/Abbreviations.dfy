/** Abbreviations: which records an abbreviation can encode, and what simplifying it keeps. */
module Abbreviations {
  import opened Words
  import opened BitCursor

  const MAX_ABBREV_WIDTH := 32

  datatype Op = Literal(value: nat) | Fixed(width: nat) | VBR(width: nat) | Array | Char6

  type Abbrev = seq<Op>

  /** An array operator may only be the second to last operand. */
  predicate Valid(ops: Abbrev) {
    |ops| > 0 && forall i :: 0 <= i < |ops| ==> ops[i].Array? ==> i + 2 == |ops|
  }

  method IsValid(ops: Abbrev) returns (ok: bool)
    ensures ok <==> Valid(ops)
  {
    if |ops| == 0 { return false; }
    for i := 0 to |ops|
      invariant forall j :: 0 <= j < i ==> ops[j].Array? ==> j + 2 == |ops|
    {
      if ops[i].Array? && i + 2 != |ops| { return false; }
    }
    return true;
  }

  predicate EndsInArray(ops: Abbrev) {
    |ops| >= 2 && ops[|ops| - 2].Array?
  }

  // --- The records an abbreviation encodes ---

  predicate IsChar6(c: int) {
    'a' as int <= c <= 'z' as int || 'A' as int <= c <= 'Z' as int || '0' as int <= c <= '9' as int
    || c == '.' as int || c == '_' as int
  }

  /** The values one operand can encode.  A one-bit VBR chunk has no room for digits. */
  predicate Fits(op: Op, v: nat) {
    match op
    case Literal(x) => v == x
    case Fixed(w) => ShiftRight(v, w) == 0
    case VBR(w) => ShiftRight(v, WORD_BITS) == 0 && (w >= 2 || v == 0)
    case Array => false
    case Char6 => IsChar6(v)
  }

  predicate AllFit(op: Op, vals: seq<nat>) {
    forall i :: 0 <= i < |vals| ==> Fits(op, vals[i])
  }

  /** The records an abbreviation encodes, the code first. */
  predicate Matches(ops: Abbrev, vals: seq<nat>) {
    if ops == [] then vals == []
    else if ops[0].Array? then |ops| == 2 && AllFit(ops[1], vals)
    else vals != [] && Fits(ops[0], vals[0]) && Matches(ops[1..], vals[1..])
  }

  function MinRecordSize(ops: Abbrev): int {
    if EndsInArray(ops) then |ops| - 2 else |ops|
  }

  predicate PrefixFits(ops: Abbrev, vals: seq<nat>) {
    |ops| <= |vals| && forall i :: 0 <= i < |ops| ==> Fits(ops[i], vals[i])
  }

  lemma {:induction false} MatchesArray(pre: Abbrev, e: Op, vals: seq<nat>)
    requires forall i :: 0 <= i < |pre| ==> !pre[i].Array?
    ensures Matches(pre + [Array, e], vals) <==> PrefixFits(pre, vals) && AllFit(e, vals[|pre|..])
  {
    hide Fits;
    var ops := pre + [Array, e];
    if pre == [] {
      assert ops[0] == Array && ops[1] == e && vals[0..] == vals;
    } else if vals == [] {
      assert ops[0] == pre[0];
    } else {
      assert ops[1..] == pre[1..] + [Array, e];
      assert |vals| >= |pre| ==> vals[1..][|pre| - 1..] == vals[|pre|..];
      MatchesArray(pre[1..], e, vals[1..]);
      assert PrefixFits(pre, vals) <==> Fits(pre[0], vals[0]) && PrefixFits(pre[1..], vals[1..]) by {
        if PrefixFits(pre, vals) {
          forall i | 0 <= i < |pre| - 1 ensures Fits(pre[1..][i], vals[1..][i]) { assert Fits(pre[i + 1], vals[i + 1]); }
        }
      }
    }
  }

  // --- Simplification ---

  /** Without the trailing copies of `e`. */
  function Trim(pre: Abbrev, e: Op): Abbrev {
    if pre != [] && pre[|pre| - 1] == e then Trim(pre[..|pre| - 1], e) else pre
  }

  function Simplified(ops: Abbrev): Abbrev {
    if EndsInArray(ops) then Trim(ops[..|ops| - 2], ops[|ops| - 1]) + ops[|ops| - 2..] else ops
  }

  /** The simplified form of the operands read so far. */
  function SoFar(ops: Abbrev, i: nat): Abbrev
    requires i <= |ops|
  {
    if EndsInArray(ops) && i >= |ops| - 1 then Trim(ops[..|ops| - 2], ops[|ops| - 1]) + ops[|ops| - 2..i]
    else ops[..i]
  }

  lemma SoFarStep(ops: Abbrev, i: nat)
    requires Valid(ops) && i < |ops|
    ensures ops[i].Array? ==> i + 2 == |ops| && SoFar(ops, i + 1) == Trim(SoFar(ops, i), ops[i + 1]) + [ops[i]]
    ensures !ops[i].Array? ==> SoFar(ops, i + 1) == SoFar(ops, i) + [ops[i]]
  {
    hide Trim;
    if ops[i].Array? {
      assert ops[i..i + 1] == [ops[i]];
    } else if EndsInArray(ops) && i >= |ops| - 1 {
      assert ops[|ops| - 2..i] + [ops[i]] == ops[|ops| - 2..i + 1];
    } else {
      assert ops[..i] + [ops[i]] == ops[..i + 1];
    }
  }

  method Simplify(ops: Abbrev) returns (abbrev: Abbrev)
    requires Valid(ops)
    ensures abbrev == Simplified(ops)
  {
    hide SoFar, EndsInArray, Simplified, Valid;
    SoFarEnds(ops);
    abbrev := [];
    for i := 0 to |ops|
      invariant abbrev == SoFar(ops, i)
    {
      var op := ops[i];
      SoFarStep(ops, i);
      ghost var before := abbrev;
      while op.Array? && abbrev != [] && abbrev[|abbrev| - 1] == ops[i + 1]
        invariant op.Array? ==> Trim(abbrev, ops[i + 1]) == Trim(before, ops[i + 1])
        invariant !op.Array? ==> abbrev == before
      {
        abbrev := abbrev[..|abbrev| - 1];
      }
      abbrev := abbrev + [op];
    }
  }

  lemma SoFarEnds(ops: Abbrev)
    ensures SoFar(ops, 0) == [] && SoFar(ops, |ops|) == Simplified(ops)
  {
    hide Trim;
    assert ops[..|ops|] == ops;
    assert |ops| >= 2 ==> ops[|ops| - 2..|ops|] == ops[|ops| - 2..];
  }

  lemma {:induction false} TrimSplits(pre: Abbrev, e: Op)
    ensures var t := Trim(pre, e);
            && t <= pre
            && (t != [] ==> t[|t| - 1] != e)
            && (forall i :: |t| <= i < |pre| ==> pre[i] == e)
  {
    if pre != [] && pre[|pre| - 1] == e { TrimSplits(pre[..|pre| - 1], e); }
  }

  /** The result is valid, keeps the array, and simplifying it again changes nothing. */
  lemma SimplifyStable(ops: Abbrev)
    requires Valid(ops)
    ensures Valid(Simplified(ops)) && (EndsInArray(Simplified(ops)) <==> EndsInArray(ops))
    ensures Simplified(Simplified(ops)) == Simplified(ops)
  {
    if EndsInArray(ops) {
      var n := |ops|;
      var pre, e := ops[..n - 2], ops[n - 1];
      TrimSplits(pre, e);
      var t := Trim(pre, e);
      var s := Simplified(ops);
      assert s == t + [Array, e];
      assert s[..|s| - 2] == t && s[|s| - 2..] == [Array, e];
    }
  }

  /** No copy of the element operand is left in front of the array. */
  lemma NoCopyLeft(ops: Abbrev)
    requires EndsInArray(Simplified(ops))
    ensures var s := Simplified(ops); |s| >= 3 ==> s[|s| - 3] != s[|s| - 1]
  {
    if EndsInArray(ops) {
      TrimSplits(ops[..|ops| - 2], ops[|ops| - 1]);
      var s := Simplified(ops);
      assert s[|s| - 2..] == ops[|ops| - 2..];
    }
  }

  /** However many copies there are in front of it, the simplified form is the same. */
  lemma {:induction false} CopiesVanish(pre: Abbrev, e: Op, n: nat)
    ensures Simplified(pre + seq(n, _ => e) + [Array, e]) == Simplified(pre + [Array, e])
  {
    var copies := pre + seq(n, _ => e);
    var ops := copies + [Array, e];
    assert ops[..|ops| - 2] == copies && ops[|ops| - 2..] == [Array, e];
    var short := pre + [Array, e];
    assert short[..|short| - 2] == pre && short[|short| - 2..] == [Array, e];
    TrimCopies(pre, e, n);
  }

  lemma {:induction false} TrimCopies(pre: Abbrev, e: Op, n: nat)
    ensures Trim(pre + seq(n, _ => e), e) == Trim(pre, e)
  {
    var copies := pre + seq(n, _ => e);
    if n == 0 {
      assert copies == pre;
    } else {
      assert copies[..|copies| - 1] == pre + seq(n - 1, _ => e);
      TrimCopies(pre, e, n - 1);
    }
  }

  /** A shorter prefix before the array accepts the same long records, since the elements fit alike. */
  lemma TrimMatches(pre: Abbrev, e: Op, vals: seq<nat>)
    ensures PrefixFits(pre, vals) && AllFit(e, vals[|pre|..])
        <==> |vals| >= |pre| && PrefixFits(Trim(pre, e), vals) && AllFit(e, vals[|Trim(pre, e)|..])
  {
    hide Fits, Trim;
    TrimSplits(pre, e);
    var t := Trim(pre, e);
    if |vals| >= |pre| {
      var long, short := vals[|pre|..], vals[|t|..];
      if PrefixFits(pre, vals) && AllFit(e, long) {
        forall i | 0 <= i < |t| ensures Fits(t[i], vals[i]) { assert t[i] == pre[i]; }
        forall i | 0 <= i < |short| ensures Fits(e, short[i]) {
          var j := |t| + i;
          if j < |pre| { assert Fits(pre[j], vals[j]); } else { assert short[i] == long[j - |pre|]; }
        }
      }
      if PrefixFits(t, vals) && AllFit(e, short) {
        forall i | 0 <= i < |pre| ensures Fits(pre[i], vals[i]) {
          if i < |t| { assert t[i] == pre[i]; } else { assert Fits(e, short[i - |t|]); }
        }
        forall i | 0 <= i < |long| ensures Fits(e, long[i]) { assert long[i] == short[|pre| - |t| + i]; }
      }
    }
  }

  /** An abbreviation encodes exactly those records of its simplified form that are not shorter than
      its own smallest record; in particular simplifying loses none. */
  lemma SimplifyKeepsRecords(ops: Abbrev, vals: seq<nat>)
    requires Valid(ops)
    ensures Matches(ops, vals) <==> Matches(Simplified(ops), vals) && |vals| >= MinRecordSize(ops)
  {
    hide Fits, Matches, Trim;
    if EndsInArray(ops) {
      var pre, e := ops[..|ops| - 2], ops[|ops| - 1];
      assert ops == pre + [Array, e] && ops[|ops| - 2..] == [Array, e];
      TrimSplits(pre, e);
      MatchesArray(pre, e, vals);
      MatchesArray(Trim(pre, e), e, vals);
      TrimMatches(pre, e, vals);
    } else {
      MatchesLength(ops, vals);
    }
  }

  lemma {:induction false} MatchesLength(ops: Abbrev, vals: seq<nat>)
    requires forall i :: 0 <= i < |ops| ==> !ops[i].Array?
    ensures Matches(ops, vals) ==> |vals| == |ops|
  {
    if ops != [] && vals != [] { MatchesLength(ops[1..], vals[1..]); }
  }

  /** Two abbreviations with one simplified form encode the same records from the longer minimum on. */
  lemma EquivalentAbbrevs(a: Abbrev, b: Abbrev, vals: seq<nat>)
    requires Valid(a) && Valid(b) && Simplified(a) == Simplified(b)
    requires |vals| >= MinRecordSize(a) && |vals| >= MinRecordSize(b)
    ensures Matches(a, vals) <==> Matches(b, vals)
  {
    SimplifyKeepsRecords(a, vals);
    SimplifyKeepsRecords(b, vals);
  }

  /** The simplified form is the shortest: any valid abbreviation that simplifies to it is no shorter. */
  lemma SimplifiedIsShortest(a: Abbrev, b: Abbrev)
    requires Valid(a) && Valid(b) && Simplified(b) == Simplified(a)
    ensures |Simplified(a)| <= |b|
    ensures |Simplified(a)| == |b| ==> Simplified(a) == b
  {
    if EndsInArray(b) {
      TrimSplits(b[..|b| - 2], b[|b| - 1]);
      assert b == b[..|b| - 2] + b[|b| - 2..];
    }
  }
}
