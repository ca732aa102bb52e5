/** The bisection search for failing items: a divide-and-conquer search with a test oracle.

    The oracle is the exit code of one run of the tested command as a function of the set of items
    it was told to include. */
module Bisection {

  /** An included range: one item, or the items from `start` up to `end`. */
  datatype Range = Item(item: int) | Span(start: int, end: int)

  /** A result: a single failing item, or a set of items that fail together. */
  datatype Node = Leaf(item: int) | Group(items: seq<int>)

  type Oracle = set<int> -> int

  function Interval(lo: int, hi: int): (r: set<int>)
    ensures forall i :: i in r <==> lo <= i < hi
    decreases hi - lo
  {
    if lo >= hi then {} else {lo} + Interval(lo + 1, hi)
  }

  predicate Fails(run: Oracle, s: set<int>) { run(s) != 0 }

  /** Including more never repairs a failure. */
  ghost predicate Monotone(run: Oracle) {
    forall s, t :: s <= t && Fails(run, s) ==> Fails(run, t)
  }

  function Flatten(nodes: seq<Node>): seq<int> {
    if nodes == [] then [] else
    (match nodes[0] { case Leaf(i) => [i] case Group(items) => items }) + Flatten(nodes[1..])
  }

  function Elements(items: seq<int>): (r: set<int>)
    ensures forall i :: i in r <==> i in items
  {
    set i | i in items
  }

  lemma {:induction false} FlattenAppend(a: seq<Node>, b: seq<Node>)
    ensures Flatten(a + b) == Flatten(a) + Flatten(b)
  {
    if a == [] {
      assert a + b == b;
    } else {
      assert (a + b)[1..] == a[1..] + b;
      FlattenAppend(a[1..], b);
    }
  }

  lemma FlattenOne(n: Node)
    ensures Flatten([n]) == match n { case Leaf(i) => [i] case Group(items) => items }
  {
    assert Flatten([n][1..]) == [];
  }

  // --- The search as a function, with the number of runs it makes ---

  datatype Search = Search(found: seq<Node>, tries: nat)

  function Found(s: Search): seq<int> { Flatten(s.found) }

  function Leaves(i: int): Search { Search([Leaf(i)], 0) }

  const NOTHING := Search([], 0)

  /** A failing half of one item is reported; a longer one is searched. */
  predicate IsItem(lo: int, hi: int) { hi == lo + 1 }

  /** What `find_failures` returns and how many runs it makes.  It needs its interval to fail with the
      includes: on a passing interval of one item the source recurses for ever. */
  ghost function Find(run: Oracle, lo: int, hi: int, inc: set<int>, all: bool): (r: Search)
    requires lo <= hi && Fails(run, Interval(lo, hi) + inc) && (all ==> Monotone(run))
    ensures Fails(run, Elements(Found(r)) + inc)
    decreases hi - lo
  {
    if lo == hi then
      assert Elements([]) == Interval(lo, hi);
      NOTHING
    else
      var mid := (lo + hi) / 2;
      var second := Interval(mid, hi);
      var fails1 := Fails(run, Interval(lo, mid) + inc);
      var tries := if all || !fails1 then 2 else 1;
      var fails2 := (all || !fails1) && Fails(run, second + inc);
      if !fails1 && !fails2 then
        Halves(lo, mid, hi, inc);
        var a := Find(run, lo, mid, second + inc, all);
        Regroup(Elements(Found(a)), second, inc);
        var b := Find(run, mid, hi, Elements(Found(a)) + inc, all);
        GroupFails(run, Found(a), Found(b), inc);
        Search([Group(Found(a) + Found(b))], tries + a.tries + b.tries)
      else
        var a := if !fails1 then NOTHING else if IsItem(lo, mid) then Leaves(lo) else Find(run, lo, mid, inc, all);
        var b := if !fails2 then NOTHING else if IsItem(mid, hi) then Leaves(mid) else Find(run, mid, hi, inc, all);
        LeafFails(run, lo, mid, inc);
        LeafFails(run, mid, hi, inc);
        EitherFails(run, a, b, inc, all);
        Search(a.found + b.found, tries + a.tries + b.tries)
  }

  lemma Halves(lo: int, mid: int, hi: int, inc: set<int>)
    requires lo <= mid <= hi
    ensures Interval(lo, mid) + (Interval(mid, hi) + inc) == Interval(lo, hi) + inc
    ensures Interval(lo, mid) + Interval(mid, hi) == Interval(lo, hi)
    ensures Interval(lo, mid) * Interval(mid, hi) == {}
  {
  }

  lemma Regroup(a: set<int>, b: set<int>, inc: set<int>)
    ensures b + (a + inc) == a + (b + inc)
  {
  }

  /** A conjunction found in two parts fails. */
  lemma GroupFails(run: Oracle, a: seq<int>, b: seq<int>, inc: set<int>)
    requires Fails(run, Elements(b) + (Elements(a) + inc))
    ensures Flatten([Group(a + b)]) == a + b
    ensures Fails(run, Elements(Flatten([Group(a + b)])) + inc)
  {
    FlattenOne(Group(a + b));
    assert Elements(a + b) + inc == Elements(b) + (Elements(a) + inc);
  }

  lemma LeafFails(run: Oracle, lo: int, hi: int, inc: set<int>)
    ensures Found(Leaves(lo)) == [lo]
    ensures IsItem(lo, hi) ==> (Fails(run, Elements(Found(Leaves(lo))) + inc) <==> Fails(run, Interval(lo, hi) + inc))
  {
    FlattenOne(Leaf(lo));
    if IsItem(lo, hi) { assert Interval(lo, hi) == {lo} == Elements([lo]); }
  }

  lemma EitherFails(run: Oracle, a: Search, b: Search, inc: set<int>, all: bool)
    requires all ==> Monotone(run)
    requires (a == NOTHING && Fails(run, Elements(Found(b)) + inc)) || (b == NOTHING && Fails(run, Elements(Found(a)) + inc))
             || (all && Fails(run, Elements(Found(a)) + inc))
    ensures Flatten(a.found + b.found) == Found(a) + Found(b)
    ensures Fails(run, Elements(Flatten(a.found + b.found)) + inc)
  {
    FlattenAppend(a.found, b.found);
    assert Elements(Found(a) + Found(b)) == Elements(Found(a)) + Elements(Found(b));
    if a == NOTHING {
      assert Elements(Found(a)) + Elements(Found(b)) + inc == Elements(Found(b)) + inc;
    } else if b == NOTHING {
      assert Elements(Found(a)) + Elements(Found(b)) + inc == Elements(Found(a)) + inc;
    } else {
      assert Elements(Found(a)) + inc <= Elements(Found(a)) + Elements(Found(b)) + inc;
    }
  }

  // --- One level of the search ---

  function Mid(lo: int, hi: int): int { (lo + hi) / 2 }

  predicate HalvesPass(run: Oracle, lo: int, hi: int, inc: set<int>) {
    !Fails(run, Interval(lo, Mid(lo, hi)) + inc) && !Fails(run, Interval(Mid(lo, hi), hi) + inc)
  }

  /** What a half that failed, or was not seen to fail, contributes. */
  ghost function Half(run: Oracle, lo: int, hi: int, inc: set<int>, all: bool, fails: bool): Search
    requires lo <= hi && (fails ==> Fails(run, Interval(lo, hi) + inc)) && (all ==> Monotone(run))
  {
    if !fails then NOTHING else if IsItem(lo, hi) then Leaves(lo) else Find(run, lo, hi, inc, all)
  }

  /** Both halves pass: the result is one conjunction, its first part found beside the whole second
      half and its second part beside the first part. */
  lemma Conjunction(run: Oracle, lo: int, hi: int, inc: set<int>, all: bool)
    requires lo < hi && Fails(run, Interval(lo, hi) + inc) && (all ==> Monotone(run)) && HalvesPass(run, lo, hi, inc)
    ensures var mid := Mid(lo, hi);
            var inc1 := Interval(mid, hi) + inc;
            && lo < mid < hi && Fails(run, Interval(lo, mid) + inc1)
            && var a := Find(run, lo, mid, inc1, all);
               var inc2 := Elements(Found(a)) + inc;
               && Fails(run, Interval(mid, hi) + inc2)
               && var b := Find(run, mid, hi, inc2, all);
                  var r := Find(run, lo, hi, inc, all);
                  && r.found == [Group(Found(a) + Found(b))] && Found(r) == Found(a) + Found(b)
                  && r.tries == 2 + a.tries + b.tries
  {
    var mid := Mid(lo, hi);
    var second := Interval(mid, hi);
    Halves(lo, mid, hi, inc);
    var a := Find(run, lo, mid, second + inc, all);
    Regroup(Elements(Found(a)), second, inc);
    FlattenOne(Group(Found(a) + Found(Find(run, mid, hi, Elements(Found(a)) + inc, all))));
  }

  /** A half fails: the result is what the failing halves contribute. */
  lemma Disjunction(run: Oracle, lo: int, hi: int, inc: set<int>, all: bool)
    requires lo < hi && Fails(run, Interval(lo, hi) + inc) && (all ==> Monotone(run)) && !HalvesPass(run, lo, hi, inc)
    ensures var mid := Mid(lo, hi);
            var fails1 := Fails(run, Interval(lo, mid) + inc);
            var fails2 := (all || !fails1) && Fails(run, Interval(mid, hi) + inc);
            var a, b, r := Half(run, lo, mid, inc, all, fails1), Half(run, mid, hi, inc, all, fails2), Find(run, lo, hi, inc, all);
            && (fails1 || fails2) && r.found == a.found + b.found && Found(r) == Found(a) + Found(b)
            && r.tries == (if all || !fails1 then 2 else 1) + a.tries + b.tries
  {
    var mid := Mid(lo, hi);
    var fails1 := Fails(run, Interval(lo, mid) + inc);
    FlattenAppend(Half(run, lo, mid, inc, all, fails1).found,
                  Half(run, mid, hi, inc, all, (all || !fails1) && Fails(run, Interval(mid, hi) + inc)).found);
  }

  // --- Order ---

  predicate Ascends(s: seq<int>, lo: int, hi: int) {
    && (forall i :: 0 <= i < |s| ==> lo <= s[i] < hi)
    && (forall i, j :: 0 <= i < j < |s| ==> s[i] < s[j])
  }

  /** Every item is reported once, in ascending order, and comes from the interval. */
  lemma {:induction false} FindAscends(run: Oracle, lo: int, hi: int, inc: set<int>, all: bool)
    requires lo <= hi && Fails(run, Interval(lo, hi) + inc) && (all ==> Monotone(run))
    ensures Ascends(Found(Find(run, lo, hi, inc, all)), lo, hi)
    decreases hi - lo, 0
  {
    hide Find, Found, HalvesPass, Fails, Interval, Half, Ascends, Elements, Monotone;
    if lo == hi {
      EmptyFind(run, lo, inc, all);
      NothingAscends(lo, hi);
    } else if HalvesPass(run, lo, hi, inc) {
      Conjunction(run, lo, hi, inc, all);
      var inc1 := Interval(Mid(lo, hi), hi) + inc;
      var a := Find(run, lo, Mid(lo, hi), inc1, all);
      var inc2 := Elements(Found(a)) + inc;
      FindAscends(run, lo, Mid(lo, hi), inc1, all);
      FindAscends(run, Mid(lo, hi), hi, inc2, all);
      BothAscend(Found(a), Found(Find(run, Mid(lo, hi), hi, inc2, all)), lo, Mid(lo, hi), hi);
    } else {
      var fails1 := Fails(run, Interval(lo, Mid(lo, hi)) + inc);
      var fails2 := (all || !fails1) && Fails(run, Interval(Mid(lo, hi), hi) + inc);
      Disjunction(run, lo, hi, inc, all);
      HalfAscends(run, lo, Mid(lo, hi), inc, all, fails1, hi - lo);
      HalfAscends(run, Mid(lo, hi), hi, inc, all, fails2, hi - lo);
      BothAscend(Found(Half(run, lo, Mid(lo, hi), inc, all, fails1)), Found(Half(run, Mid(lo, hi), hi, inc, all, fails2)), lo, Mid(lo, hi), hi);
    }
  }

  lemma NothingAscends(lo: int, hi: int)
    ensures Ascends([], lo, hi)
  {
  }

  lemma BothAscend(a: seq<int>, b: seq<int>, lo: int, mid: int, hi: int)
    requires lo <= mid <= hi && Ascends(a, lo, mid) && Ascends(b, mid, hi)
    ensures Ascends(a + b, lo, hi)
  {
  }

  lemma EmptyFind(run: Oracle, lo: int, inc: set<int>, all: bool)
    requires Fails(run, Interval(lo, lo) + inc) && (all ==> Monotone(run))
    ensures Find(run, lo, lo, inc, all) == NOTHING && Found(NOTHING) == []
  {
  }

  lemma {:induction false} HalfAscends(run: Oracle, lo: int, hi: int, inc: set<int>, all: bool, fails: bool, size: nat)
    requires lo <= hi && (fails ==> Fails(run, Interval(lo, hi) + inc)) && (all ==> Monotone(run))
    requires hi - lo < size || IsItem(lo, hi) || !fails
    ensures Ascends(Found(Half(run, lo, hi, inc, all, fails)), lo, hi)
    decreases size, 0, 0
  {
    LeafFails(run, lo, hi, inc);
    if fails && !IsItem(lo, hi) {
      FindAscends(run, lo, hi, inc, all);
    }
  }

  // --- Minimality ---

  ghost predicate Minimal(run: Oracle, items: set<int>, inc: set<int>) {
    forall s :: s < items ==> !Fails(run, s + inc)
  }

  /** A part minimal beside the whole other half, then a part of that half minimal beside the first
      part, are minimal together. */
  lemma MinimalJoin(run: Oracle, a: set<int>, b: set<int>, second: set<int>, inc: set<int>)
    requires Monotone(run) && b <= second && a * second == {}
    requires Minimal(run, a, second + inc) && Minimal(run, b, a + inc)
    ensures Minimal(run, a + b, inc)
  {
    forall s | s < a + b ensures !Fails(run, s + inc) {
      assert (forall x :: x in a + b ==> x in s) ==> a + b <= s;
      var x :| x in a + b && x !in s;
      if x in a {
        assert a - {x} < a && s + inc <= (a - {x}) + (second + inc);
      } else {
        assert b - {x} < b && s + inc <= (b - {x}) + (a + inc);
      }
    }
  }

  lemma InInterval(s: seq<int>, lo: int, hi: int)
    requires Ascends(s, lo, hi)
    ensures Elements(s) <= Interval(lo, hi)
  {
  }

  lemma NothingMinimal(run: Oracle, inc: set<int>)
    ensures Minimal(run, Elements(Found(NOTHING)), inc)
  {
  }

  lemma LeafMinimal(run: Oracle, lo: int, inc: set<int>)
    requires !Fails(run, inc)
    ensures Minimal(run, Elements(Found(Leaves(lo))), inc)
  {
    LeafFails(run, lo, lo + 1, inc);
    forall s | s < Elements([lo]) ensures !Fails(run, s + inc) {
      assert s == {} && {} + inc == inc;
    }
  }

  lemma ElementsJoin(a: seq<int>, b: seq<int>)
    ensures Elements(a + b) == Elements(a) + Elements(b)
  {
  }

  /** Asked for one failure, the search finds a set that fails and of which no part fails. */
  lemma {:induction false} FindMinimal(run: Oracle, lo: int, hi: int, inc: set<int>)
    requires lo <= hi && Fails(run, Interval(lo, hi) + inc) && Monotone(run) && !Fails(run, inc)
    ensures Minimal(run, Elements(Found(Find(run, lo, hi, inc, false))), inc)
    decreases hi - lo
  {
    hide Find, Found, HalvesPass, Fails, Interval, Minimal, Elements, Ascends;
    var mid := Mid(lo, hi);
    if lo == hi {
      EmptyFind(run, lo, inc, false);
      NothingMinimal(run, inc);
    } else if HalvesPass(run, lo, hi, inc) {
      Conjunction(run, lo, hi, inc, false);
      ConjunctionMinimal(run, lo, hi, inc);
      var a := Find(run, lo, mid, Interval(mid, hi) + inc, false);
      FindMinimal(run, lo, mid, Interval(mid, hi) + inc);
      FindMinimal(run, mid, hi, Elements(Found(a)) + inc);
      MinimalJoin(run, Elements(Found(a)), Elements(Found(Find(run, mid, hi, Elements(Found(a)) + inc, false))), Interval(mid, hi), inc);
      ElementsJoin(Found(a), Found(Find(run, mid, hi, Elements(Found(a)) + inc, false)));
    } else {
      Disjunction(run, lo, hi, inc, false);
      var fails1 := Fails(run, Interval(lo, mid) + inc);
      var from, to := if fails1 then lo else mid, if fails1 then mid else hi;
      JoinNothing(Found(Half(run, from, to, inc, false, true)));
      if IsItem(from, to) { LeafMinimal(run, from, inc); } else { FindMinimal(run, from, to, inc); }
    }
  }

  lemma JoinNothing(a: seq<int>)
    ensures Found(NOTHING) == [] && a + Found(NOTHING) == a == Found(NOTHING) + a
  {
  }

  /** The includes alone still pass in both searches of a conjunction. */
  lemma ConjunctionMinimal(run: Oracle, lo: int, hi: int, inc: set<int>)
    requires lo < hi && Fails(run, Interval(lo, hi) + inc) && Monotone(run) && HalvesPass(run, lo, hi, inc)
    ensures var mid := Mid(lo, hi);
            var inc1 := Interval(mid, hi) + inc;
            && !Fails(run, inc1) && Fails(run, Interval(lo, mid) + inc1)
            && var a := Elements(Found(Find(run, lo, mid, inc1, false)));
               && !Fails(run, a + inc) && a * Interval(mid, hi) == {} && Fails(run, Interval(mid, hi) + (a + inc))
               && Elements(Found(Find(run, mid, hi, a + inc, false))) <= Interval(mid, hi)
  {
    hide Find, Found, Ascends;
    var mid := Mid(lo, hi);
    var inc1 := Interval(mid, hi) + inc;
    Conjunction(run, lo, hi, inc, false);
    var a := Find(run, lo, mid, inc1, false);
    FindAscends(run, lo, mid, inc1, false);
    InInterval(Found(a), lo, mid);
    FindAscends(run, mid, hi, Elements(Found(a)) + inc, false);
    InInterval(Found(Find(run, mid, hi, Elements(Found(a)) + inc, false)), mid, hi);
    Halves(lo, mid, hi, inc);
    assert Elements(Found(a)) + inc <= Interval(lo, mid) + inc;
  }

  // --- The search when the includes fail by themselves ---

  /** If the includes already fail, the first half always does, and the search runs down to the first item. */
  lemma {:induction false} FirstItem(run: Oracle, lo: int, hi: int, inc: set<int>)
    requires lo + 1 < hi && Fails(run, Interval(lo, hi) + inc) && Monotone(run) && Fails(run, inc)
    ensures Found(Find(run, lo, hi, inc, false)) == [lo]
    decreases hi - lo
  {
    hide Find, Found;
    var mid := Mid(lo, hi);
    assert inc <= Interval(lo, mid) + inc;
    Disjunction(run, lo, hi, inc, false);
    LeafFails(run, lo, mid, inc);
    JoinNothing(Found(Half(run, lo, mid, inc, false, true)));
    if !IsItem(lo, mid) {
      FirstItem(run, lo, mid, inc);
    }
  }

  /** The result is minimal exactly when the includes alone pass, or there was at most one item to look
      at: otherwise an item is reported although the empty set fails as well. */
  lemma MinimalExactly(run: Oracle, lo: int, hi: int, inc: set<int>)
    requires lo <= hi && Fails(run, Interval(lo, hi) + inc) && Monotone(run)
    ensures Minimal(run, Elements(Found(Find(run, lo, hi, inc, false))), inc) <==> !Fails(run, inc) || hi - lo <= 1
  {
    hide Find, Found;
    if !Fails(run, inc) {
      FindMinimal(run, lo, hi, inc);
    } else if hi - lo <= 1 {
      EmptyFind(run, lo, inc, false);
      NothingMinimal(run, inc);
      if lo < hi {
        assert Interval(lo, lo) + inc == inc;
        Disjunction(run, lo, hi, inc, false);
        JoinNothing([]);
      }
    } else {
      FirstItem(run, lo, hi, inc);
      assert {} < Elements([lo]) && {} + inc == inc by { assert lo in Elements([lo]); }
    }
  }

  // --- Cost ---

  function CeilLog2(n: nat): nat { if n <= 1 then 0 else 1 + CeilLog2((n + 1) / 2) }

  function PowerOf2(k: nat): nat { if k == 0 then 1 else 2 * PowerOf2(k - 1) }

  /** It is the least power of two that is enough. */
  lemma {:induction false} LogLeast(n: nat, k: nat)
    ensures CeilLog2(n) <= k <==> n <= PowerOf2(k)
  {
    if k == 0 {
      assert PowerOf2(0) == 1;
    } else if n > 1 {
      LogLeast((n + 1) / 2, k - 1);
    } else {
      AtLeastOne(k);
    }
  }

  lemma {:induction false} AtLeastOne(k: nat)
    ensures PowerOf2(k) >= 1
  {
    if k > 0 { AtLeastOne(k - 1); }
  }

  lemma {:induction false} LogMonotone(m: nat, n: nat)
    requires m <= n
    ensures CeilLog2(m) <= CeilLog2(n)
    decreases n
  {
    if m > 1 {
      LogMonotone((m + 1) / 2, (n + 1) / 2);
    }
  }

  function Budget(k: nat, n: nat): nat { 2 * (k * (CeilLog2(n) + 1)) }

  /** One level of the search is paid for by the logarithm dropping in both halves. */
  lemma BudgetSplits(k1: nat, k2: nat, n: nat, n1: nat, n2: nat)
    requires n >= 2 && n1 == n / 2 && n2 == n - n / 2 && k1 + k2 >= 1
    ensures 2 + Budget(k1, n1) + Budget(k2, n2) <= Budget(k1 + k2, n)
  {
    var l := CeilLog2(n);
    LogMonotone(n1, n2);
    assert CeilLog2(n2) + 1 == l;
    Product(k1, CeilLog2(n1) + 1, l);
    Product(k2, CeilLog2(n2) + 1, l);
    assert (k1 + k2) * (l + 1) == k1 * l + k2 * l + (k1 + k2);
  }

  lemma Product(k: nat, a: nat, b: nat)
    requires a <= b
    ensures k * a <= k * b
  {
  }

  /** Asked for one failure in `n` items, the search makes at most 2 k (ceil(log2 n) + 1) runs, where `k`
      is the number of items it reports. */
  lemma FindCost(run: Oracle, lo: int, hi: int, inc: set<int>)
    requires lo < hi && Fails(run, Interval(lo, hi) + inc) && Monotone(run) && !Fails(run, inc)
    ensures var r := Find(run, lo, hi, inc, false);
            |Found(r)| >= 1 && r.tries <= 2 * (|Found(r)| * (CeilLog2(hi - lo) + 1))
  {
    hide Find, Found, CeilLog2, Fails, Interval, Monotone;
    CostWithin(run, lo, hi, inc);
  }

  lemma {:induction false} CostWithin(run: Oracle, lo: int, hi: int, inc: set<int>)
    requires lo < hi && Fails(run, Interval(lo, hi) + inc) && Monotone(run) && !Fails(run, inc)
    ensures var r := Find(run, lo, hi, inc, false);
            |Found(r)| >= 1 && r.tries <= Budget(|Found(r)|, hi - lo)
    decreases hi - lo, 0
  {
    hide Find, Found, HalvesPass, Fails, Interval, Elements, Budget, CeilLog2, Monotone;
    var mid := Mid(lo, hi);
    if HalvesPass(run, lo, hi, inc) {
      Conjunction(run, lo, hi, inc, false);
      ConjunctionMinimal(run, lo, hi, inc);
      var inc1 := Interval(mid, hi) + inc;
      var a := Find(run, lo, mid, inc1, false);
      CostWithin(run, lo, mid, inc1);
      CostWithin(run, mid, hi, Elements(Found(a)) + inc);
      BudgetSplits(|Found(a)|, |Found(Find(run, mid, hi, Elements(Found(a)) + inc, false))|, hi - lo, mid - lo, hi - mid);
    } else {
      HalfCost(run, lo, hi, inc);
    }
  }

  /** When a half fails only that half is paid for. */
  lemma {:induction false} HalfCost(run: Oracle, lo: int, hi: int, inc: set<int>)
    requires lo < hi && Fails(run, Interval(lo, hi) + inc) && Monotone(run) && !Fails(run, inc) && !HalvesPass(run, lo, hi, inc)
    ensures var r := Find(run, lo, hi, inc, false);
            |Found(r)| >= 1 && r.tries <= Budget(|Found(r)|, hi - lo)
    decreases hi - lo, 0, 0
  {
    hide Find, Found, HalvesPass, Budget, CeilLog2, Monotone;
    var mid, n := Mid(lo, hi), hi - lo;
    Disjunction(run, lo, hi, inc, false);
    var fails1 := Fails(run, Interval(lo, mid) + inc);
    var from, to := if fails1 then lo else mid, if fails1 then mid else hi;
    assert from >= to ==> Interval(from, to) + inc == inc;
    var k := |Found(Half(run, from, to, inc, false, true))|;
    JoinNothing(Found(Half(run, from, to, inc, false, true)));
    LeafFails(run, from, to, inc);
    if !IsItem(from, to) {
      CostWithin(run, from, to, inc);
    }
    BudgetOfNone(mid - lo);
    BudgetOfNone(hi - mid);
    if n == 1 {
      BudgetOfOne(k);
    } else {
      BudgetSplits(if fails1 then k else 0, if fails1 then 0 else k, n, mid - lo, hi - mid);
    }
  }

  lemma BudgetOfOne(k: nat)
    requires k >= 1
    ensures Budget(k, 1) >= 2
  {
  }

  lemma BudgetOfNone(n: nat)
    ensures Budget(0, n) == 0
  {
  }

  // --- Asking for all failures ---

  function NodeItems(n: Node): seq<int> {
    match n
    case Leaf(i) => [i]
    case Group(items) => items
  }

  lemma {:induction false} NodeInFlat(nodes: seq<Node>, j: nat, x: int)
    requires j < |nodes| && x in NodeItems(nodes[j])
    ensures x in Flatten(nodes)
  {
    if j > 0 {
      NodeInFlat(nodes[1..], j - 1, x);
    }
  }

  /** In an ascending result no item belongs to two nodes. */
  lemma {:induction false} NodesApart(nodes: seq<Node>, lo: int, hi: int, j: nat, k: nat, x: int)
    requires j < k < |nodes| && Ascends(Flatten(nodes), lo, hi) && x in NodeItems(nodes[j])
    ensures x !in NodeItems(nodes[k])
  {
    var head, tail := NodeItems(nodes[0]), Flatten(nodes[1..]);
    assert Flatten(nodes) == head + tail;
    assert Ascends(tail, lo, hi) by {
      assert forall i :: 0 <= i < |tail| ==> tail[i] == Flatten(nodes)[|head| + i];
    }
    if j > 0 {
      NodesApart(nodes[1..], lo, hi, j - 1, k - 1, x);
    } else {
      var p :| 0 <= p < |head| && head[p] == x;
      forall q | 0 <= q < |tail| ensures tail[q] != x {
        assert Flatten(nodes)[p] < Flatten(nodes)[|head| + q];
      }
      if x in NodeItems(nodes[k]) {
        NodeInFlat(nodes[1..], k - 1, x);
      }
    }
  }

  /** A single item is reported exactly when it fails alone. */
  lemma {:induction false} SinglesExactly(run: Oracle, lo: int, hi: int, inc: set<int>, i: int)
    requires lo <= i < hi && Fails(run, Interval(lo, hi) + inc) && Monotone(run)
    ensures Leaf(i) in Find(run, lo, hi, inc, true).found <==> Fails(run, {i} + inc)
    decreases hi - lo, 0
  {
    hide Find, Found, Ascends;
    var mid := Mid(lo, hi);
    assert i < mid ==> {i} + inc <= Interval(lo, mid) + inc;
    assert i >= mid ==> {i} + inc <= Interval(mid, hi) + inc;
    if HalvesPass(run, lo, hi, inc) {
      Conjunction(run, lo, hi, inc, true);
    } else {
      Disjunction(run, lo, hi, inc, true);
      HalfSingles(run, lo, mid, inc, i, lo, hi);
      HalfSingles(run, mid, hi, inc, i, lo, hi);
    }
  }

  lemma {:induction false} HalfSingles(run: Oracle, from: int, to: int, inc: set<int>, i: int, lo: int, hi: int)
    requires lo <= from <= to <= hi && lo < hi && Monotone(run) && (from == Mid(lo, hi) || to == Mid(lo, hi))
    requires from <= i < to && Fails(run, {i} + inc) ==> Fails(run, Interval(from, to) + inc)
    ensures var half := Half(run, from, to, inc, true, Fails(run, Interval(from, to) + inc));
            Leaf(i) in half.found <==> from <= i < to && Fails(run, {i} + inc)
    decreases hi - lo, 0, 0
  {
    hide Find, Found, Ascends;
    if Fails(run, Interval(from, to) + inc) {
      if IsItem(from, to) {
        assert Interval(from, to) == {from};
      } else {
        if from <= i < to {
          SinglesExactly(run, from, to, inc, i);
        } else {
          OutsideNotFound(run, from, to, inc, i);
        }
      }
    }
  }

  lemma OutsideNotFound(run: Oracle, lo: int, hi: int, inc: set<int>, i: int)
    requires lo <= hi && Fails(run, Interval(lo, hi) + inc) && Monotone(run) && !(lo <= i < hi)
    ensures Leaf(i) !in Find(run, lo, hi, inc, true).found
  {
    hide Find;
    var found := Find(run, lo, hi, inc, true).found;
    FindAscends(run, lo, hi, inc, true);
    if Leaf(i) in found {
      var j :| 0 <= j < |found| && found[j] == Leaf(i);
      NodeInFlat(found, j, i);
    }
  }

  /** Asked for all failures, the search reports each item that fails alone exactly once by itself, and
      every group it reports fails although none of its items fails alone. */
  lemma FindAll(run: Oracle, lo: int, hi: int, inc: set<int>, j: nat)
    requires lo <= hi && Fails(run, Interval(lo, hi) + inc) && Monotone(run) && j < |Find(run, lo, hi, inc, true).found|
    ensures var found := Find(run, lo, hi, inc, true).found;
            && Fails(run, Elements(NodeItems(found[j])) + inc)
            && (forall k :: 0 <= k < |found| && k != j ==> Elements(NodeItems(found[j])) !! Elements(NodeItems(found[k])))
            && (found[j].Group? ==> forall x :: x in found[j].items ==> lo <= x < hi && !Fails(run, {x} + inc))
  {
    hide Find;
    var found := Find(run, lo, hi, inc, true).found;
    FindAscends(run, lo, hi, inc, true);
    NodeFails(run, lo, hi, inc, j);
    forall k | 0 <= k < |found| && k != j ensures Elements(NodeItems(found[j])) !! Elements(NodeItems(found[k])) {
      forall x | x in NodeItems(found[j]) ensures x !in NodeItems(found[k]) {
        if j < k { NodesApart(found, lo, hi, j, k, x); } else if x in NodeItems(found[k]) { NodesApart(found, lo, hi, k, j, x); }
      }
    }
    if found[j].Group? {
      forall x | x in found[j].items ensures lo <= x < hi && !Fails(run, {x} + inc) {
        NodeInFlat(found, j, x);
        SinglesExactly(run, lo, hi, inc, x);
        forall k | 0 <= k < |found| ensures found[k] != Leaf(x) {
          assert k != j ==> x !in Elements(NodeItems(found[k]));
        }
      }
    }
  }

  /** Every node of the result fails with the includes. */
  lemma {:induction false} NodeFails(run: Oracle, lo: int, hi: int, inc: set<int>, j: nat)
    requires lo <= hi && Fails(run, Interval(lo, hi) + inc) && Monotone(run) && j < |Find(run, lo, hi, inc, true).found|
    ensures Fails(run, Elements(NodeItems(Find(run, lo, hi, inc, true).found[j])) + inc)
    decreases hi - lo
  {
    hide Find;
    var mid := Mid(lo, hi);
    if lo == hi {
      EmptyFind(run, lo, inc, true);
    } else if HalvesPass(run, lo, hi, inc) {
      Conjunction(run, lo, hi, inc, true);
    } else {
      Disjunction(run, lo, hi, inc, true);
      var fails1, fails2 := Fails(run, Interval(lo, mid) + inc), Fails(run, Interval(mid, hi) + inc);
      var a, b := Half(run, lo, mid, inc, true, fails1), Half(run, mid, hi, inc, true, fails2);
      if j < |a.found| {
        if IsItem(lo, mid) { LeafFails(run, lo, mid, inc); } else { NodeFails(run, lo, mid, inc, j); }
      } else {
        if IsItem(mid, hi) { LeafFails(run, mid, hi, inc); } else { NodeFails(run, mid, hi, inc, j - |a.found|); }
      }
    }
  }

  // --- Groups are minimal only when one failure is asked for ---

  /** The tool asked with `all` finds only minimal sets, on every oracle and interval where the
      includes alone pass. */
  ghost predicate AlwaysMinimal(all: bool) {
    forall run, lo, hi, inc, n ::
      lo <= hi && Fails(run, Interval(lo, hi) + inc) && Monotone(run) && !Fails(run, inc) && n in Find(run, lo, hi, inc, all).found ==>
        Minimal(run, Elements(NodeItems(n)), inc)
  }

  /** Items 0 and 2 fail together, and so do 1 and 2. */
  function TwoPairs(s: set<int>): int { if 2 in s && (0 in s || 1 in s) then 1 else 0 }

  /** Asked for all failures in 0..4, the search reports the one group {0, 1, 2}. */
  lemma TwoPairsGrouped()
    ensures Monotone(TwoPairs) && !Fails(TwoPairs, {}) && Fails(TwoPairs, Interval(0, 4) + {})
    ensures Find(TwoPairs, 0, 4, {}, true).found == [Group([0, 1, 2])]
  {
    hide Find, Flatten, Monotone;
    TwoPairsMonotone();
    TwoPairsHalves();
    Conjunction(TwoPairs, 0, 4, {}, true);
    TwoPairsFirst(Interval(2, 4) + {});
    TwoPairsSecond(Elements([0, 1]) + {});
    assert [0, 1] + [2] == [0, 1, 2];
  }

  lemma TwoPairsMonotone()
    ensures Monotone(TwoPairs)
  {
  }

  lemma TwoPairsHalves()
    ensures !Fails(TwoPairs, {}) && Fails(TwoPairs, Interval(0, 4) + {}) && HalvesPass(TwoPairs, 0, 4, {})
  {
    assert 0 in Interval(0, 4) + {};
  }

  lemma TwoPairsFirst(inc: set<int>)
    requires 2 in inc && 0 !in inc && 1 !in inc
    ensures Monotone(TwoPairs) && Fails(TwoPairs, Interval(0, 2) + inc) && Found(Find(TwoPairs, 0, 2, inc, true)) == [0, 1]
  {
    hide Find, Flatten, Monotone;
    TwoPairsMonotone();
    assert 0 in Interval(0, 2) + inc && 0 in Interval(0, 1) + inc;
    Disjunction(TwoPairs, 0, 2, inc, true);
    LeafFails(TwoPairs, 0, 1, inc);
    LeafFails(TwoPairs, 1, 2, inc);
    assert 1 in Interval(1, 2) + inc;
  }

  lemma TwoPairsSecond(inc: set<int>)
    requires 2 !in inc && (0 in inc || 1 in inc)
    ensures Monotone(TwoPairs) && Fails(TwoPairs, Interval(2, 4) + inc) && Found(Find(TwoPairs, 2, 4, inc, true)) == [2]
  {
    hide Find, Flatten, Monotone;
    TwoPairsMonotone();
    assert 2 in Interval(2, 4) + inc && 2 in Interval(2, 3) + inc && 2 !in Interval(3, 4) + inc;
    Disjunction(TwoPairs, 2, 4, inc, true);
    LeafFails(TwoPairs, 2, 3, inc);
    JoinNothing([2]);
  }

  lemma MinimalOnlyForOne(all: bool)
    ensures AlwaysMinimal(all) <==> !all
  {
    hide Find, Fails;
    if all {
      TwoPairsGrouped();
      var n := Group([0, 1, 2]);
      assert n in Find(TwoPairs, 0, 4, {}, true).found;
      assert !Minimal(TwoPairs, Elements(NodeItems(n)), {}) by { PairInGroup(); }
    } else {
      forall run, lo, hi, inc, n | lo <= hi && Fails(run, Interval(lo, hi) + inc) && Monotone(run) && !Fails(run, inc) && n in Find(run, lo, hi, inc, all).found
        ensures Minimal(run, Elements(NodeItems(n)), inc)
      {
        OneNode(run, lo, hi, inc);
        FindMinimal(run, lo, hi, inc);
        FlattenOne(n);
      }
    }
  }

  lemma PairInGroup()
    ensures {0, 2} < Elements([0, 1, 2]) && Fails(TwoPairs, {0, 2} + {})
  {
    assert 1 in Elements([0, 1, 2]);
  }

  /** Asked for one failure the search reports at most one node. */
  lemma {:induction false} OneNode(run: Oracle, lo: int, hi: int, inc: set<int>)
    requires lo <= hi && Fails(run, Interval(lo, hi) + inc)
    ensures |Find(run, lo, hi, inc, false).found| <= 1
    decreases hi - lo
  {
    hide Find;
    var mid := Mid(lo, hi);
    if lo == hi {
      EmptyFind(run, lo, inc, false);
    } else if HalvesPass(run, lo, hi, inc) {
      Conjunction(run, lo, hi, inc, false);
    } else {
      Disjunction(run, lo, hi, inc, false);
      if Fails(run, Interval(lo, mid) + inc) {
        if !IsItem(lo, mid) { OneNode(run, lo, mid, inc); }
      } else {
        if !IsItem(mid, hi) { OneNode(run, mid, hi, inc); }
      }
    }
  }

  // --- Which causes are found ---

  /** A failing set of which no part fails. */
  ghost predicate Cause(run: Oracle, inc: set<int>, c: set<int>) { Fails(run, c + inc) && Minimal(run, c, inc) }

  ghost predicate CauseIn(run: Oracle, lo: int, hi: int, inc: set<int>, c: set<int>) {
    c <= Interval(lo, hi) && Cause(run, inc, c)
  }

  /** Every failing set has a cause in it. */
  lemma {:induction false} HasCause(run: Oracle, inc: set<int>, s: set<int>) returns (c: set<int>)
    requires Monotone(run) && Fails(run, s + inc)
    ensures c <= s && Cause(run, inc, c)
    decreases |s|
  {
    if x :| x in s && Fails(run, (s - {x}) + inc) {
      c := HasCause(run, inc, s - {x});
    } else {
      c := s;
      forall t | t < s ensures !Fails(run, t + inc) {
        NotWithin(s, t);
        var x :| x in s && x !in t;
        assert t + inc <= (s - {x}) + inc;
      }
    }
  }

  /** Where the includes alone pass, a cause has items, and no cause is part of another. */
  lemma CausesDiffer(run: Oracle, inc: set<int>, c: set<int>, d: set<int>)
    requires !Fails(run, inc) && Cause(run, inc, c) && Cause(run, inc, d)
    ensures c != {} && (c <= d ==> c == d)
  {
    assert {} + inc == inc;
  }

  /** In this interval, beside these includes, what fails is what holds `m`. */
  ghost predicate OneCause(run: Oracle, lo: int, hi: int, inc: set<int>, m: set<int>) {
    m <= Interval(lo, hi) && forall s :: s <= Interval(lo, hi) ==> (Fails(run, s + inc) <==> m <= s)
  }

  lemma OneCauseFails(run: Oracle, lo: int, hi: int, inc: set<int>, m: set<int>)
    requires OneCause(run, lo, hi, inc, m)
    ensures Fails(run, Interval(lo, hi) + inc)
  {
  }

  /** A cause without another beside it is all there is. */
  lemma AloneIsOne(run: Oracle, lo: int, hi: int, inc: set<int>, m: set<int>)
    requires Monotone(run) && CauseIn(run, lo, hi, inc, m) && forall d :: CauseIn(run, lo, hi, inc, d) ==> d == m
    ensures OneCause(run, lo, hi, inc, m)
  {
    forall s | s <= Interval(lo, hi) ensures Fails(run, s + inc) <==> m <= s {
      if Fails(run, s + inc) {
        var d := HasCause(run, inc, s);
        assert CauseIn(run, lo, hi, inc, d);
      }
      if m <= s { assert m + inc <= s + inc; }
    }
  }

  /** The only cause is reported exactly, in one node, which is a single item exactly when the cause is. */
  lemma {:induction false} OneCauseExact(run: Oracle, lo: int, hi: int, inc: set<int>, all: bool, m: set<int>)
    requires lo <= hi && OneCause(run, lo, hi, inc, m) && m != {} && (all ==> Monotone(run))
    ensures Fails(run, Interval(lo, hi) + inc) && Reports(Find(run, lo, hi, inc, all), m)
    decreases hi - lo
  {
    hide Find, Elements, Interval, Reports, Found, OneCause, Monotone;
    OneCauseFails(run, lo, hi, inc, m);
    var mid := Mid(lo, hi);
    var first, second := Interval(lo, mid), Interval(mid, hi);
    SomeItem(run, lo, hi, inc, m);
    Halves(lo, mid, hi, inc);
    OneCauseHalves(run, lo, hi, inc, m);
    if HalvesPass(run, lo, hi, inc) {
      Conjunction(run, lo, hi, inc, all);
      var a := Find(run, lo, mid, second + inc, all);
      OneCauseExact(run, lo, mid, second + inc, all, m - second);
      ReportsFound(a, m - second);
      OneCauseExact(run, mid, hi, (m - second) + inc, all, m * second);
      var b := Find(run, mid, hi, (m - second) + inc, all);
      ReportsFound(b, m * second);
      ReportsGroup(Find(run, lo, hi, inc, all), Found(a), Found(b), m, second);
    } else {
      Disjunction(run, lo, hi, inc, all);
      var from, to := if Fails(run, first + inc) then lo else mid, if Fails(run, first + inc) then mid else hi;
      var half := Half(run, from, to, inc, all, true);
      assert Find(run, lo, hi, inc, all).found == half.found;
      if IsItem(from, to) {
        ReportsLeaf(run, from, to, inc, m);
      } else {
        OneCauseExact(run, from, to, inc, all, m);
      }
      SameReport(half, Find(run, lo, hi, inc, all), m);
    }
  }

  lemma SomeItem(run: Oracle, lo: int, hi: int, inc: set<int>, m: set<int>)
    requires lo <= hi && OneCause(run, lo, hi, inc, m) && m != {}
    ensures lo < hi
  {
    var x :| x in m;
    assert x in Interval(lo, hi);
  }

  /** One cause of the whole is one cause of the parts: of a half that has it, with the same includes, or,
      if it spans both, of the first beside the second and then of the second beside what was found. */
  lemma OneCauseHalves(run: Oracle, lo: int, hi: int, inc: set<int>, m: set<int>)
    requires lo < hi && OneCause(run, lo, hi, inc, m) && m != {}
    ensures var mid := Mid(lo, hi);
            var first, second := Interval(lo, mid), Interval(mid, hi);
            && (Fails(run, first + inc) ==> !Fails(run, second + inc) && OneCause(run, lo, mid, inc, m))
            && (Fails(run, second + inc) ==> !Fails(run, first + inc) && OneCause(run, mid, hi, inc, m))
            && (HalvesPass(run, lo, hi, inc) ==>
                  && m - second != {} && OneCause(run, lo, mid, second + inc, m - second)
                  && m * second != {} && OneCause(run, mid, hi, (m - second) + inc, m * second))
  {
    hide Interval;
    var mid := Mid(lo, hi);
    var first, second := Interval(lo, mid), Interval(mid, hi);
    Halves(lo, mid, hi, inc);
    if HalvesPass(run, lo, hi, inc) {
      assert m <= first + second && m - second <= first && m * second <= second;
      NotWithin(m, second);
      NotWithin(m, first);
      assert m - second != {} by { var x :| x in m && x !in second; assert x in m - second; }
      assert m * second != {} by { var x :| x in m && x !in first; assert x in m * second; }
      forall s | s <= first ensures Fails(run, s + (second + inc)) <==> m - second <= s {
        assert s + (second + inc) == (s + second) + inc && s + second <= Interval(lo, hi);
        assert m <= s + second <==> m - second <= s;
      }
      forall s | s <= second ensures Fails(run, s + ((m - second) + inc)) <==> m * second <= s {
        assert s + ((m - second) + inc) == (s + (m - second)) + inc && s + (m - second) <= Interval(lo, hi);
        assert m <= s + (m - second) <==> m * second <= s;
      }
    } else {
      assert !(m <= first && m <= second) by { var x :| x in m; }
    }
  }

  /** One node, with exactly these items; a single item exactly when there is one. */
  ghost predicate Reports(r: Search, items: set<int>) {
    && |r.found| == 1 && Elements(NodeItems(r.found[0])) == items
    && (r.found[0].Leaf? <==> exists x :: items == {x})
  }

  lemma SameReport(r: Search, r': Search, items: set<int>)
    requires r.found == r'.found && Reports(r, items)
    ensures Reports(r', items)
  {
  }

  lemma ReportsFound(r: Search, items: set<int>)
    requires Reports(r, items)
    ensures Elements(Found(r)) == items
  {
    FlattenOne(r.found[0]);
    assert r.found == [r.found[0]];
  }

  lemma ReportsGroup(r: Search, a: seq<int>, b: seq<int>, m: set<int>, second: set<int>)
    requires r.found == [Group(a + b)] && m - second != {} && m * second != {}
    requires Elements(a) == m - second && Elements(b) == m * second
    ensures Reports(r, m)
  {
    ElementsJoin(a, b);
    assert Elements(a) + Elements(b) == m;
    SomeIn(m - second);
    SomeIn(m * second);
    var x :| x in m - second;
    var y :| y in m * second;
    assert x != y;
  }

  lemma ReportsLeaf(run: Oracle, lo: int, hi: int, inc: set<int>, m: set<int>)
    requires IsItem(lo, hi) && OneCause(run, lo, hi, inc, m) && m != {}
    ensures Reports(Leaves(lo), m)
  {
    assert m == {lo};
  }

  lemma SomeIn(m: set<int>)
    requires m != {}
    ensures exists x :: x in m
  {
    NotWithin(m, {});
  }

  lemma NotWithin(m: set<int>, s: set<int>)
    requires !(m <= s)
    ensures exists x :: x in m && x !in s
  {
    assert (forall x :: x in m ==> x in s) ==> m <= s;
  }

  // --- When all of them are found ---

  ghost predicate Reported(found: seq<Node>, c: set<int>) {
    exists j :: 0 <= j < |found| && Elements(NodeItems(found[j])) == c
  }

  ghost predicate Covers(found: seq<Node>, run: Oracle, lo: int, hi: int, inc: set<int>) {
    forall c :: CauseIn(run, lo, hi, inc, c) ==> Reported(found, c)
  }

  /** The smallest interval of the search that holds a set. */
  datatype Segment = Segment(from: int, to: int)

  function Smallest(lo: int, hi: int, c: set<int>): (s: Segment)
    requires lo < hi
    ensures lo <= s.from < s.to <= hi
    decreases hi - lo
  {
    var mid := Mid(lo, hi);
    if hi - lo == 1 then Segment(lo, hi)
    else if c <= Interval(lo, mid) then Smallest(lo, mid, c)
    else if c <= Interval(mid, hi) then Smallest(mid, hi, c)
    else Segment(lo, hi)
  }

  predicate Apart(a: Segment, b: Segment) { a.to <= b.from || b.to <= a.from }

  ghost predicate CausesApart(run: Oracle, lo: int, hi: int, inc: set<int>)
    requires lo < hi
  {
    forall c, d :: CauseIn(run, lo, hi, inc, c) && CauseIn(run, lo, hi, inc, d) && c != d ==>
      Apart(Smallest(lo, hi, c), Smallest(lo, hi, d))
  }

  lemma ItemsInside(run: Oracle, lo: int, hi: int, inc: set<int>, fails: bool, j: nat)
    requires lo <= hi && Monotone(run) && (fails ==> Fails(run, Interval(lo, hi) + inc))
    requires j < |Half(run, lo, hi, inc, true, fails).found|
    ensures Elements(NodeItems(Half(run, lo, hi, inc, true, fails).found[j])) <= Interval(lo, hi)
  {
    hide Find;
    var found := Half(run, lo, hi, inc, true, fails).found;
    HalfAscends(run, lo, hi, inc, true, fails, hi - lo + 1);
    forall x | x in NodeItems(found[j]) ensures x in Interval(lo, hi) { NodeInFlat(found, j, x); }
  }

  /** The two halves together report a set of one half exactly when that half does. */
  lemma HalvesReport(run: Oracle, lo: int, hi: int, inc: set<int>, c: set<int>)
    requires lo < hi && Monotone(run) && c != {}
    ensures var mid := Mid(lo, hi);
            var a := Half(run, lo, mid, inc, true, Fails(run, Interval(lo, mid) + inc)).found;
            var b := Half(run, mid, hi, inc, true, Fails(run, Interval(mid, hi) + inc)).found;
            && (Reported(a + b, c) ==> c <= Interval(lo, mid) || c <= Interval(mid, hi))
            && (c <= Interval(lo, mid) ==> (Reported(a + b, c) <==> Reported(a, c)))
            && (c <= Interval(mid, hi) ==> (Reported(a + b, c) <==> Reported(b, c)))
  {
    hide Find, Half, Elements, NodeItems;
    var mid := Mid(lo, hi);
    var fails1, fails2 := Fails(run, Interval(lo, mid) + inc), Fails(run, Interval(mid, hi) + inc);
    var a, b := Half(run, lo, mid, inc, true, fails1).found, Half(run, mid, hi, inc, true, fails2).found;
    SomeIn(c);
    var x :| x in c;
    forall j | 0 <= j < |a| ensures Elements(NodeItems(a[j])) <= Interval(lo, mid) && (a + b)[j] == a[j] { ItemsInside(run, lo, mid, inc, fails1, j); }
    forall j | 0 <= j < |b| ensures Elements(NodeItems(b[j])) <= Interval(mid, hi) && (a + b)[|a| + j] == b[j] { ItemsInside(run, mid, hi, inc, fails2, j); }
    if Reported(a + b, c) {
      var j :| 0 <= j < |a + b| && Elements(NodeItems((a + b)[j])) == c;
      assert if j < |a| then (a + b)[j] == a[j] else (a + b)[j] == b[j - |a|];
    }
    if Reported(a, c) {
      var j :| 0 <= j < |a| && Elements(NodeItems(a[j])) == c;
      assert (a + b)[j] == a[j];
    }
    if Reported(b, c) {
      var j :| 0 <= j < |b| && Elements(NodeItems(b[j])) == c;
      assert (a + b)[|a| + j] == b[j];
    }
  }

  /** Where the includes alone fail, every item is reported by itself. */
  lemma {:induction false} OnlyLeaves(run: Oracle, lo: int, hi: int, inc: set<int>, j: nat)
    requires lo <= hi && Monotone(run) && Fails(run, inc) && Fails(run, Interval(lo, hi) + inc) && j < |Find(run, lo, hi, inc, true).found|
    ensures Find(run, lo, hi, inc, true).found[j].Leaf?
    decreases hi - lo
  {
    hide Find, Interval, Fails;
    if lo == hi {
      EmptyFind(run, lo, inc, true);
    } else {
      var mid := Mid(lo, hi);
      assert inc <= Interval(lo, mid) + inc && inc <= Interval(mid, hi) + inc;
      Disjunction(run, lo, hi, inc, true);
      var a := Half(run, lo, mid, inc, true, true);
      if j < |a.found| {
        if !IsItem(lo, mid) { OnlyLeaves(run, lo, mid, inc, j); }
      } else if !IsItem(mid, hi) {
        OnlyLeaves(run, mid, hi, inc, j - |a.found|);
      }
    }
  }

  /** So the cause, which is then the empty set, is not. */
  lemma NothingCovered(run: Oracle, lo: int, hi: int, inc: set<int>)
    requires lo <= hi && Monotone(run) && Fails(run, inc) && Fails(run, Interval(lo, hi) + inc)
    ensures !Covers(Find(run, lo, hi, inc, true).found, run, lo, hi, inc)
  {
    hide Find, Fails, Monotone;
    var found := Find(run, lo, hi, inc, true).found;
    assert {} + inc == inc;
    assert CauseIn(run, lo, hi, inc, {});
    forall j | 0 <= j < |found| ensures Elements(NodeItems(found[j])) != {} {
      OnlyLeaves(run, lo, hi, inc, j);
      assert found[j].item in NodeItems(found[j]);
    }
  }

  /** Asked for all failures, the search reports every cause in its interval exactly when the includes pass
      by themselves and the smallest search intervals of any two causes have no item in common. */
  lemma {:induction false} CompleteExactly(run: Oracle, lo: int, hi: int, inc: set<int>)
    requires lo < hi && Monotone(run) && Fails(run, Interval(lo, hi) + inc)
    ensures Covers(Find(run, lo, hi, inc, true).found, run, lo, hi, inc) <==> !Fails(run, inc) && CausesApart(run, lo, hi, inc)
    decreases hi - lo
  {
    hide Find, Cause, Covers, CausesApart, Interval, Monotone, Fails, HalvesPass, Half;
    if Fails(run, inc) {
      NothingCovered(run, lo, hi, inc);
      return;
    }
    var c := HasCause(run, inc, Interval(lo, hi));
    assert CauseIn(run, lo, hi, inc, c);
    if forall d :: CauseIn(run, lo, hi, inc, d) ==> d == c {
      AloneComplete(run, lo, hi, inc, c);
    } else {
      var d :| CauseIn(run, lo, hi, inc, d) && d != c;
      TwoNeedRoom(run, lo, hi, inc, c, d);
      if HalvesPass(run, lo, hi, inc) {
        BothSpan(run, lo, hi, inc, c, d);
      } else if e :| CauseIn(run, lo, hi, inc, e) && Spans(lo, hi, e) {
        SpanMissed(run, lo, hi, inc, e);
      } else {
        var mid := Mid(lo, hi);
        CoversHalves(run, lo, hi, inc);
        ApartHalves(run, lo, hi, inc);
        if Fails(run, Interval(lo, mid) + inc) {
          HalfIsFind(run, lo, mid, inc);
          if !IsItem(lo, mid) { CompleteExactly(run, lo, mid, inc); }
        }
        if Fails(run, Interval(mid, hi) + inc) {
          HalfIsFind(run, mid, hi, inc);
          if !IsItem(mid, hi) { CompleteExactly(run, mid, hi, inc); }
        }
      }
    }
  }

  lemma AloneComplete(run: Oracle, lo: int, hi: int, inc: set<int>, c: set<int>)
    requires lo < hi && Monotone(run) && Fails(run, Interval(lo, hi) + inc) && !Fails(run, inc)
    requires CauseIn(run, lo, hi, inc, c) && forall d :: CauseIn(run, lo, hi, inc, d) ==> d == c
    ensures Covers(Find(run, lo, hi, inc, true).found, run, lo, hi, inc) && CausesApart(run, lo, hi, inc)
  {
    hide Find, Cause, Interval, Monotone, OneCause;
    CausesDiffer(run, inc, c, c);
    AloneIsOne(run, lo, hi, inc, c);
    OneCauseExact(run, lo, hi, inc, true, c);
    var found := Find(run, lo, hi, inc, true).found;
    assert Elements(NodeItems(found[0])) == c;
  }

  lemma TwoNeedRoom(run: Oracle, lo: int, hi: int, inc: set<int>, c: set<int>, d: set<int>)
    requires lo < hi && !Fails(run, inc) && CauseIn(run, lo, hi, inc, c) && CauseIn(run, lo, hi, inc, d) && c != d
    ensures hi - lo >= 2 && lo < Mid(lo, hi) < hi
  {
    hide Cause;
    CausesDiffer(run, inc, c, d);
    CausesDiffer(run, inc, d, c);
    assert hi - lo == 1 ==> Interval(lo, hi) == {lo};
    assert hi - lo == 1 ==> c <= {lo} && d <= {lo};
    assert hi - lo == 1 ==> (lo in c ==> d <= c) && (lo in d ==> c <= d);
    SomeIn(c);
  }

  predicate Spans(lo: int, hi: int, c: set<int>) { !(c <= Interval(lo, Mid(lo, hi))) && !(c <= Interval(Mid(lo, hi), hi)) }

  /** A cause in an interval makes it fail. */
  lemma CauseMakesFail(run: Oracle, lo: int, hi: int, inc: set<int>, c: set<int>)
    requires Monotone(run) && CauseIn(run, lo, hi, inc, c)
    ensures Fails(run, Interval(lo, hi) + inc)
  {
    hide Minimal;
    assert c + inc <= Interval(lo, hi) + inc;
  }

  /** Where both halves pass, all causes span them, and no more than one is reported. */
  lemma BothSpan(run: Oracle, lo: int, hi: int, inc: set<int>, c: set<int>, d: set<int>)
    requires hi - lo >= 2 && Monotone(run) && Fails(run, Interval(lo, hi) + inc) && HalvesPass(run, lo, hi, inc)
    requires CauseIn(run, lo, hi, inc, c) && CauseIn(run, lo, hi, inc, d) && c != d
    ensures !Covers(Find(run, lo, hi, inc, true).found, run, lo, hi, inc) && !CausesApart(run, lo, hi, inc)
  {
    hide Find, Cause, Interval, Elements, Monotone;
    Conjunction(run, lo, hi, inc, true);
    SpansIfPass(run, lo, hi, inc, c);
    SpansIfPass(run, lo, hi, inc, d);
    assert !Apart(Smallest(lo, hi, c), Smallest(lo, hi, d));
    var found := Find(run, lo, hi, inc, true).found;
    assert Reported(found, c) ==> Elements(NodeItems(found[0])) == c;
    assert Reported(found, d) ==> Elements(NodeItems(found[0])) == d;
  }

  lemma SpansIfPass(run: Oracle, lo: int, hi: int, inc: set<int>, c: set<int>)
    requires Monotone(run) && HalvesPass(run, lo, hi, inc) && CauseIn(run, lo, hi, inc, c)
    ensures Spans(lo, hi, c)
  {
    hide Interval, Minimal;
    var mid := Mid(lo, hi);
    assert c <= Interval(lo, mid) ==> c + inc <= Interval(lo, mid) + inc;
    assert c <= Interval(mid, hi) ==> c + inc <= Interval(mid, hi) + inc;
  }

  /** Where a half fails, a cause that spans both is not reported. */
  lemma SpanMissed(run: Oracle, lo: int, hi: int, inc: set<int>, e: set<int>)
    requires hi - lo >= 2 && Monotone(run) && Fails(run, Interval(lo, hi) + inc) && !Fails(run, inc) && !HalvesPass(run, lo, hi, inc)
    requires CauseIn(run, lo, hi, inc, e) && Spans(lo, hi, e)
    ensures !Covers(Find(run, lo, hi, inc, true).found, run, lo, hi, inc) && !CausesApart(run, lo, hi, inc)
  {
    hide Find, Half, Cause, Interval, Elements, Monotone;
    var mid := Mid(lo, hi);
    Disjunction(run, lo, hi, inc, true);
    CausesDiffer(run, inc, e, e);
    HalvesReport(run, lo, hi, inc, e);
    Halves(lo, mid, hi, inc);
    var half := if Fails(run, Interval(lo, mid) + inc) then Interval(lo, mid) else Interval(mid, hi);
    var d := HasCause(run, inc, half);
    assert d <= Interval(lo, hi);
    assert CauseIn(run, lo, hi, inc, d) && d != e;
    assert Smallest(lo, hi, e) == Segment(lo, hi);
    assert !Apart(Smallest(lo, hi, e), Smallest(lo, hi, d));
  }

  /** Where no cause spans both halves, all are reported when each half's are. */
  lemma CoversHalves(run: Oracle, lo: int, hi: int, inc: set<int>)
    requires hi - lo >= 2 && Monotone(run) && Fails(run, Interval(lo, hi) + inc) && !Fails(run, inc) && !HalvesPass(run, lo, hi, inc)
    requires forall e :: CauseIn(run, lo, hi, inc, e) ==> !Spans(lo, hi, e)
    ensures var mid := Mid(lo, hi);
            var fails1, fails2 := Fails(run, Interval(lo, mid) + inc), Fails(run, Interval(mid, hi) + inc);
            Covers(Find(run, lo, hi, inc, true).found, run, lo, hi, inc) <==>
            (fails1 ==> Covers(Half(run, lo, mid, inc, true, fails1).found, run, lo, mid, inc))
            && (fails2 ==> Covers(Half(run, mid, hi, inc, true, fails2).found, run, mid, hi, inc))
  {
    hide Find, Half, Cause, Interval, Monotone, Reported;
    var mid := Mid(lo, hi);
    Disjunction(run, lo, hi, inc, true);
    Halves(lo, mid, hi, inc);
    forall c | CauseIn(run, lo, mid, inc, c) || CauseIn(run, mid, hi, inc, c) || CauseIn(run, lo, hi, inc, c)
      ensures CauseIn(run, lo, hi, inc, c) && c != {}
    {
      CausesDiffer(run, inc, c, c);
    }
    forall c | CauseIn(run, lo, hi, inc, c)
      ensures CauseIn(run, lo, mid, inc, c) || CauseIn(run, mid, hi, inc, c)
    {
      assert !Spans(lo, hi, c);
    }
    forall c | c != {} { HalvesReport(run, lo, hi, inc, c); }
    forall c | CauseIn(run, lo, mid, inc, c) ensures Fails(run, Interval(lo, mid) + inc) { CauseMakesFail(run, lo, mid, inc, c); }
    forall c | CauseIn(run, mid, hi, inc, c) ensures Fails(run, Interval(mid, hi) + inc) { CauseMakesFail(run, mid, hi, inc, c); }
  }

  lemma ApartHalves(run: Oracle, lo: int, hi: int, inc: set<int>)
    requires hi - lo >= 2 && Monotone(run) && !Fails(run, inc)
    requires forall e :: CauseIn(run, lo, hi, inc, e) ==> !Spans(lo, hi, e)
    ensures var mid := Mid(lo, hi);
            CausesApart(run, lo, hi, inc) <==>
            (Fails(run, Interval(lo, mid) + inc) ==> CausesApart(run, lo, mid, inc))
            && (Fails(run, Interval(mid, hi) + inc) ==> CausesApart(run, mid, hi, inc))
  {
    hide Cause, Interval, Monotone, Smallest;
    var mid := Mid(lo, hi);
    Halves(lo, mid, hi, inc);
    forall c | CauseIn(run, lo, mid, inc, c)
      ensures CauseIn(run, lo, hi, inc, c) && Smallest(lo, hi, c) == Smallest(lo, mid, c) && Fails(run, Interval(lo, mid) + inc)
    {
      CauseMakesFail(run, lo, mid, inc, c);
      CausesDiffer(run, inc, c, c);
      SmallestHalf(lo, hi, c);
    }
    forall c | CauseIn(run, mid, hi, inc, c)
      ensures CauseIn(run, lo, hi, inc, c) && Smallest(lo, hi, c) == Smallest(mid, hi, c) && Fails(run, Interval(mid, hi) + inc)
    {
      CauseMakesFail(run, mid, hi, inc, c);
      CausesDiffer(run, inc, c, c);
      SmallestHalf(lo, hi, c);
    }
    forall c | CauseIn(run, lo, hi, inc, c)
      ensures CauseIn(run, lo, mid, inc, c) || CauseIn(run, mid, hi, inc, c)
    {
      assert !Spans(lo, hi, c);
    }
  }

  lemma SmallestHalf(lo: int, hi: int, c: set<int>)
    requires hi - lo >= 2 && c != {}
    ensures c <= Interval(lo, Mid(lo, hi)) ==> Smallest(lo, hi, c) == Smallest(lo, Mid(lo, hi), c)
    ensures c <= Interval(Mid(lo, hi), hi) ==> Smallest(lo, hi, c) == Smallest(Mid(lo, hi), hi, c)
  {
    Halves(lo, Mid(lo, hi), hi, {});
    var x :| x in c;
  }

  /** A failing half of one item reports its only cause. */
  lemma HalfIsFind(run: Oracle, lo: int, hi: int, inc: set<int>)
    requires lo < hi && Monotone(run) && Fails(run, Interval(lo, hi) + inc) && !Fails(run, inc)
    ensures !IsItem(lo, hi) ==> Half(run, lo, hi, inc, true, true) == Find(run, lo, hi, inc, true)
    ensures IsItem(lo, hi) ==> Covers(Half(run, lo, hi, inc, true, true).found, run, lo, hi, inc) && CausesApart(run, lo, hi, inc)
  {
    hide Find, Cause, Monotone;
    if IsItem(lo, hi) {
      var found := Leaves(lo).found;
      assert Elements(NodeItems(found[0])) == {lo} == Interval(lo, hi);
      forall c | CauseIn(run, lo, hi, inc, c) ensures c == {lo} { CausesDiffer(run, inc, c, c); }
    }
  }

  ghost predicate CompleteOn(run: Oracle, lo: int, hi: int, inc: set<int>)
    requires lo <= hi
  {
    Monotone(run) && Fails(run, Interval(lo, hi) + inc) && !Fails(run, inc) ==> Covers(Find(run, lo, hi, inc, true).found, run, lo, hi, inc)
  }

  /** The item `mid` fails alone, and `lo` and `mid + 1` fail together. */
  function ItemOrPair(lo: int, mid: int): Oracle { s => if mid in s || {lo, mid + 1} <= s then 1 else 0 }

  /** Of the arguments: the search for all failures reports every cause, whatever fails, exactly when it
      has at most two items to look at. */
  lemma CompleteOnlyForTwo(lo: int, hi: int)
    requires lo <= hi
    ensures hi - lo <= 2 <==> forall run, inc :: CompleteOn(run, lo, hi, inc)
  {
    hide Find, CausesApart, Covers;
    if hi - lo <= 2 {
      forall run, inc ensures CompleteOn(run, lo, hi, inc) {
        if Monotone(run) && Fails(run, Interval(lo, hi) + inc) && !Fails(run, inc) {
          assert lo == hi ==> Interval(lo, hi) + inc == inc;
          CompleteExactly(run, lo, hi, inc);
          TwoApart(run, lo, hi, inc);
        }
      }
    } else {
      PairMissed(lo, hi);
      assert !CompleteOn(ItemOrPair(lo, Mid(lo, hi)), lo, hi, {});
    }
  }

  lemma TwoApart(run: Oracle, lo: int, hi: int, inc: set<int>)
    requires lo < hi <= lo + 2 && !Fails(run, inc)
    ensures CausesApart(run, lo, hi, inc)
  {
    hide Cause;
    forall c, d | CauseIn(run, lo, hi, inc, c) && CauseIn(run, lo, hi, inc, d) && c != d
      ensures Apart(Smallest(lo, hi, c), Smallest(lo, hi, d))
    {
      CausesDiffer(run, inc, c, d);
      CausesDiffer(run, inc, d, c);
      TwoNeedRoom(run, lo, hi, inc, c, d);
      OneEach(lo, c, d);
      assert Interval(lo, lo + 1) == {lo} && Interval(lo + 1, lo + 2) == {lo + 1};
    }
  }

  /** Of two items, two sets that are not part of each other have one each. */
  lemma OneEach(lo: int, c: set<int>, d: set<int>)
    requires c <= Interval(lo, lo + 2) && d <= Interval(lo, lo + 2) && !(c <= d) && !(d <= c)
    ensures (c == {lo} && d == {lo + 1}) || (c == {lo + 1} && d == {lo})
  {
    NotWithin(c, d);
    NotWithin(d, c);
    var x :| x in c && x !in d;
    var y :| y in d && y !in c;
    assert (x == lo || x == lo + 1) && (y == lo || y == lo + 1);
  }

  /** With three items or more a pair is missed: it spans the halves, and one of them fails by itself. */
  lemma PairMissed(lo: int, hi: int)
    requires hi - lo >= 3
    ensures var mid := Mid(lo, hi);
            var run := ItemOrPair(lo, mid);
            && Monotone(run) && Fails(run, Interval(lo, hi) + {}) && !Fails(run, {}) && CauseIn(run, lo, hi, {}, {lo, mid + 1})
            && !Reported(Find(run, lo, hi, {}, true).found, {lo, mid + 1})
            && !Covers(Find(run, lo, hi, {}, true).found, run, lo, hi, {})
  {
    hide Find, Half;
    var mid := Mid(lo, hi);
    var run, pair := ItemOrPair(lo, mid), {lo, mid + 1};
    assert mid in Interval(lo, hi) + {} && mid in Interval(mid, hi) + {};
    assert pair + {} == pair;
    forall s | s < pair ensures !Fails(run, s + {}) { assert s + {} == s && !(pair <= s) && mid !in s; }
    assert CauseIn(run, lo, hi, {}, pair);
    assert lo !in Interval(mid, hi) && mid + 1 !in Interval(lo, mid);
    Disjunction(run, lo, hi, {}, true);
    HalvesReport(run, lo, hi, {}, pair);
    assert lo in pair && mid + 1 in pair;
  }

  // --- Whether the search ends ---

  datatype Ending = Ends(result: Search) | Goes

  /** What `find_failures` does on any interval, includes and oracle, down to a depth of calls. */
  ghost function FindIn(run: Oracle, lo: int, hi: int, inc: set<int>, all: bool, depth: nat): Ending
    requires lo <= hi
    decreases depth
  {
    if depth == 0 then Goes
    else if lo == hi then Ends(NOTHING)
    else
      var mid := (lo + hi) / 2;
      var fails1 := Fails(run, Interval(lo, mid) + inc);
      var tries := if all || !fails1 then 2 else 1;
      var fails2 := (all || !fails1) && Fails(run, Interval(mid, hi) + inc);
      if !fails1 && !fails2 then
        match FindIn(run, lo, mid, Interval(mid, hi) + inc, all, depth - 1)
        case Goes => Goes
        case Ends(a) =>
          match FindIn(run, mid, hi, Elements(Found(a)) + inc, all, depth - 1)
          case Goes => Goes
          case Ends(b) => Ends(Search([Group(Found(a) + Found(b))], tries + a.tries + b.tries))
      else
        match HalfIn(run, lo, mid, inc, all, fails1, depth)
        case Goes => Goes
        case Ends(a) =>
          match HalfIn(run, mid, hi, inc, all, fails2, depth)
          case Goes => Goes
          case Ends(b) => Ends(Search(a.found + b.found, tries + a.tries + b.tries))
  }

  ghost function HalfIn(run: Oracle, lo: int, hi: int, inc: set<int>, all: bool, fails: bool, depth: nat): Ending
    requires lo <= hi && depth > 0
    decreases depth, 0
  {
    if !fails then Ends(NOTHING) else if IsItem(lo, hi) then Ends(Leaves(lo)) else FindIn(run, lo, hi, inc, all, depth - 1)
  }

  function Grouped(a: Search, b: Ending): Ending {
    if b.Goes? then Goes else Ends(Search([Group(Found(a) + Found(b.result))], 2 + a.tries + b.result.tries))
  }

  function Joined(a: Ending, b: Ending, tries: nat): Ending {
    if a.Goes? || b.Goes? then Goes else Ends(Search(a.result.found + b.result.found, tries + a.result.tries + b.result.tries))
  }

  /** One call, where both halves pass and where one does not. */
  lemma PassStep(run: Oracle, lo: int, hi: int, inc: set<int>, all: bool, depth: nat)
    requires lo < hi && depth > 0 && HalvesPass(run, lo, hi, inc)
    ensures var mid := Mid(lo, hi);
            var a := FindIn(run, lo, mid, Interval(mid, hi) + inc, all, depth - 1);
            FindIn(run, lo, hi, inc, all, depth)
            == if a.Goes? then Goes else Grouped(a.result, FindIn(run, mid, hi, Elements(Found(a.result)) + inc, all, depth - 1))
  {
    hide Interval, Elements, Found;
  }

  lemma FailStep(run: Oracle, lo: int, hi: int, inc: set<int>, all: bool, depth: nat)
    requires lo < hi && depth > 0 && (Fails(run, Interval(lo, Mid(lo, hi)) + inc) || Fails(run, Interval(Mid(lo, hi), hi) + inc))
    ensures var mid := Mid(lo, hi);
            var fails1 := Fails(run, Interval(lo, mid) + inc);
            var fails2 := (all || !fails1) && Fails(run, Interval(mid, hi) + inc);
            FindIn(run, lo, hi, inc, all, depth)
            == Joined(HalfIn(run, lo, mid, inc, all, fails1, depth), HalfIn(run, mid, hi, inc, all, fails2, depth), if all || !fails1 then 2 else 1)
  {
    hide Interval, Elements, Found, HalfIn;
  }

  /** What ends within a depth ends so within any greater one. */
  lemma {:induction false} DeeperSame(run: Oracle, lo: int, hi: int, inc: set<int>, all: bool, depth: nat, deeper: nat)
    requires lo <= hi && depth <= deeper && FindIn(run, lo, hi, inc, all, depth).Ends?
    ensures FindIn(run, lo, hi, inc, all, deeper) == FindIn(run, lo, hi, inc, all, depth)
    decreases depth
  {
    hide Interval, Elements, Found, FindIn;
    NoDepth(run, lo, inc, all, depth);
    NoDepth(run, lo, inc, all, deeper);
    GoesFirst(run, lo, hi, inc, all);
    if lo < hi {
      var mid := Mid(lo, hi);
      var fails1 := Fails(run, Interval(lo, mid) + inc);
      var fails2 := (all || !fails1) && Fails(run, Interval(mid, hi) + inc);
      if HalvesPass(run, lo, hi, inc) {
        PassStep(run, lo, hi, inc, all, depth);
        PassStep(run, lo, hi, inc, all, deeper);
        DeeperSame(run, lo, mid, Interval(mid, hi) + inc, all, depth - 1, deeper - 1);
        var a := FindIn(run, lo, mid, Interval(mid, hi) + inc, all, depth - 1).result;
        DeeperSame(run, mid, hi, Elements(Found(a)) + inc, all, depth - 1, deeper - 1);
      } else {
        FailStep(run, lo, hi, inc, all, depth);
        FailStep(run, lo, hi, inc, all, deeper);
        if fails1 && !IsItem(lo, mid) { DeeperSame(run, lo, mid, inc, all, depth - 1, deeper - 1); }
        if fails2 && !IsItem(mid, hi) { DeeperSame(run, mid, hi, inc, all, depth - 1, deeper - 1); }
      }
    }
  }

  /** On a failing interval, of a monotone oracle where all failures are asked for, the search ends with the
      result studied above, within ceil(log2 n) + 2 nested calls. */
  lemma {:induction false} FindEnds(run: Oracle, lo: int, hi: int, inc: set<int>, all: bool, depth: nat)
    requires lo <= hi && Fails(run, Interval(lo, hi) + inc) && (all ==> Monotone(run)) && depth >= CeilLog2(hi - lo) + 2
    ensures FindIn(run, lo, hi, inc, all, depth) == Ends(Find(run, lo, hi, inc, all))
    decreases depth, 1
  {
    hide Find, FindIn, Interval, Elements, Monotone, Found, CeilLog2, HalfIn, Half;
    NoDepth(run, lo, inc, all, depth);
    if lo == hi {
      EmptyFind(run, lo, inc, all);
    } else {
      var mid := Mid(lo, hi);
      HalfDepth(lo, hi);
      if HalvesPass(run, lo, hi, inc) {
        PassStep(run, lo, hi, inc, all, depth);
        Conjunction(run, lo, hi, inc, all);
        FindEnds(run, lo, mid, Interval(mid, hi) + inc, all, depth - 1);
        FindEnds(run, mid, hi, Elements(Found(Find(run, lo, mid, Interval(mid, hi) + inc, all))) + inc, all, depth - 1);
      } else {
        var fails1 := Fails(run, Interval(lo, mid) + inc);
        FailStep(run, lo, hi, inc, all, depth);
        Disjunction(run, lo, hi, inc, all);
        HalfEnds(run, lo, mid, inc, all, fails1, depth);
        HalfEnds(run, mid, hi, inc, all, (all || !fails1) && Fails(run, Interval(mid, hi) + inc), depth);
      }
    }
  }

  lemma {:induction false} HalfEnds(run: Oracle, lo: int, hi: int, inc: set<int>, all: bool, fails: bool, depth: nat)
    requires lo <= hi && (fails ==> Fails(run, Interval(lo, hi) + inc)) && (all ==> Monotone(run))
    requires depth >= 2 && (IsItem(lo, hi) || lo == hi || depth >= CeilLog2(hi - lo) + 3)
    ensures HalfIn(run, lo, hi, inc, all, fails, depth) == Ends(Half(run, lo, hi, inc, all, fails))
    decreases depth, 0
  {
    hide Find, FindIn, Interval, Elements, Monotone, Found, CeilLog2;
    if fails && lo == hi {
      EmptyFind(run, lo, inc, all);
      NoDepth(run, lo, inc, all, depth - 1);
    } else if fails && !IsItem(lo, hi) {
      FindEnds(run, lo, hi, inc, all, depth - 1);
    }
  }

  lemma NoDepth(run: Oracle, lo: int, inc: set<int>, all: bool, depth: nat)
    ensures FindIn(run, lo, lo, inc, all, depth) == if depth == 0 then Goes else Ends(NOTHING)
  {
  }

  lemma HalfDepth(lo: int, hi: int)
    requires lo < hi
    ensures lo < Mid(lo, hi) ==> CeilLog2(Mid(lo, hi) - lo) + 1 <= CeilLog2(hi - lo)
    ensures hi - lo >= 2 ==> lo < Mid(lo, hi) && CeilLog2(hi - Mid(lo, hi)) + 1 <= CeilLog2(hi - lo)
    ensures hi - lo == 1 ==> Mid(lo, hi) == lo
  {
    if hi - lo >= 2 {
      LogMonotone(Mid(lo, hi) - lo, (hi - lo + 1) / 2);
      LogMonotone(hi - Mid(lo, hi), (hi - lo + 1) / 2);
    }
  }

  /** On a passing interval with items it never does: down to one item, whose second half is itself. */
  lemma {:induction false} PassGoesOn(run: Oracle, lo: int, hi: int, inc: set<int>, all: bool, depth: nat)
    requires lo < hi && Monotone(run) && !Fails(run, Interval(lo, hi) + inc)
    ensures FindIn(run, lo, hi, inc, all, depth).Goes?
    decreases depth
  {
    hide Elements, Found, FindIn, Interval;
    GoesFirst(run, lo, hi, inc, all);
    if depth > 0 {
      var mid := Mid(lo, hi);
      Halves(lo, mid, hi, inc);
      assert Interval(lo, mid) + inc <= Interval(lo, hi) + inc && Interval(mid, hi) + inc <= Interval(lo, hi) + inc;
      PassStep(run, lo, hi, inc, all, depth);
      if lo < mid {
        PassGoesOn(run, lo, mid, Interval(mid, hi) + inc, all, depth - 1);
      } else {
        NoneFound(inc);
        NoDepth(run, lo, Interval(mid, hi) + inc, all, depth - 1);
        PassGoesOn(run, lo, hi, inc, all, depth - 1);
      }
    }
  }

  lemma GoesFirst(run: Oracle, lo: int, hi: int, inc: set<int>, all: bool)
    requires lo <= hi
    ensures FindIn(run, lo, hi, inc, all, 0).Goes?
  {
  }

  lemma NoneFound(inc: set<int>)
    ensures Elements(Found(NOTHING)) + inc == inc
  {
  }

  /** On a monotone oracle the search ends exactly where there is nothing to search or its interval fails. */
  lemma EndsExactly(run: Oracle, lo: int, hi: int, inc: set<int>, all: bool)
    requires lo <= hi && Monotone(run)
    ensures (exists depth: nat :: FindIn(run, lo, hi, inc, all, depth).Ends?) <==> lo == hi || Fails(run, Interval(lo, hi) + inc)
  {
    hide Find, Fails, Interval, Monotone;
    if lo == hi {
      assert FindIn(run, lo, hi, inc, all, 1).Ends?;
    } else if Fails(run, Interval(lo, hi) + inc) {
      FindEnds(run, lo, hi, inc, all, CeilLog2(hi - lo) + 2);
    } else {
      forall depth: nat ensures FindIn(run, lo, hi, inc, all, depth).Goes? { PassGoesOn(run, lo, hi, inc, all, depth); }
    }
  }

  /** Wherever it ends on a failing interval, it ends with that result. */
  lemma EndsWith(run: Oracle, lo: int, hi: int, inc: set<int>, all: bool, depth: nat)
    requires lo <= hi && Fails(run, Interval(lo, hi) + inc) && (all ==> Monotone(run)) && FindIn(run, lo, hi, inc, all, depth).Ends?
    ensures FindIn(run, lo, hi, inc, all, depth) == Ends(Find(run, lo, hi, inc, all))
  {
    hide Find, Fails, Interval, Monotone, FindIn;
    var deeper := depth + CeilLog2(hi - lo) + 2;
    DeeperSame(run, lo, hi, inc, all, depth, deeper);
    FindEnds(run, lo, hi, inc, all, deeper);
  }

  // --- The tool ---

  function ItemsOf(r: Range): set<int> {
    match r
    case Item(i) => {i}
    case Span(s, e) => Interval(s, e)
  }

  function Included(ranges: seq<Range>): set<int> {
    if ranges == [] then {} else ItemsOf(ranges[0]) + Included(ranges[1..])
  }

  function AsRanges(items: seq<int>): seq<Range> { seq(|items|, k requires 0 <= k < |items| => Item(items[k])) }

  lemma {:induction false} IncludedItems(items: seq<int>, ranges: seq<Range>)
    ensures Included(AsRanges(items) + ranges) == Elements(items) + Included(ranges)
  {
    var all := AsRanges(items) + ranges;
    if items == [] {
      assert all == ranges;
    } else {
      assert all[1..] == AsRanges(items[1..]) + ranges;
      IncludedItems(items[1..], ranges);
      assert Elements(items) == {items[0]} + Elements(items[1..]);
    }
  }

  lemma IncludedSpan(lo: int, hi: int, ranges: seq<Range>)
    ensures Included([Span(lo, hi)] + ranges) == Interval(lo, hi) + Included(ranges)
  {
    assert ([Span(lo, hi)] + ranges)[1..] == ranges;
  }

  class Runner {
    const oracle: Oracle
    var numTries: nat

    constructor (oracle: Oracle)
      ensures this.oracle == oracle && numTries == 0
    {
      this.oracle := oracle;
      numTries := 0;
    }

    /** One run of the command. */
    method Run(ranges: seq<Range>) returns (exitCode: int)
      modifies this`numTries
      ensures exitCode == oracle(Included(ranges)) && numTries == old(numTries) + 1
    {
      numTries := numTries + 1;
      exitCode := oracle(Included(ranges));
    }
  }

  lemma FlattenEnds(tree: seq<Node>)
    ensures tree[0..] == tree && Flatten(tree[|tree|..]) == []
  {
  }

  lemma FlattenStep(tree: seq<Node>, i: nat)
    requires i < |tree|
    ensures Flatten(tree[i..]) == (match tree[i] { case Leaf(x) => [x] case Group(items) => items }) + Flatten(tree[i + 1..])
  {
    assert tree[i..][1..] == tree[i + 1..];
  }

  method FlattenNodes(tree: seq<Node>) returns (result: seq<int>)
    ensures result == Flatten(tree)
  {
    hide Flatten;
    result := [];
    FlattenEnds(tree);
    for i := 0 to |tree|
      invariant result + Flatten(tree[i..]) == Flatten(tree)
    {
      FlattenStep(tree, i);
      ghost var before, rest := result, Flatten(tree[i + 1..]);
      match tree[i] {
        case Leaf(item) => result := result + [item];
        case Group(items) => result := result + items;
      }
      assert result + rest == before + (result[|before|..] + rest);
    }
  }

  /** The recursion, on any oracle and interval on which it ends. */
  method FindFailures(runner: Runner, lo: int, hi: int, includeRanges: seq<Range>, findAll: bool, ghost depth: nat) returns (found: seq<Node>)
    requires lo <= hi && FindIn(runner.oracle, lo, hi, Included(includeRanges), findAll, depth).Ends?
    modifies runner`numTries
    ensures var r := FindIn(runner.oracle, lo, hi, Included(includeRanges), findAll, depth).result;
            found == r.found && runner.numTries == old(runner.numTries) + r.tries
    decreases depth, 1
  {
    hide FindIn, HalfIn, Interval, Elements, Included, AsRanges, Flatten;
    ghost var run, inc := runner.oracle, Included(includeRanges);
    GoesFirst(run, lo, hi, inc, findAll);
    if lo == hi {
      NoDepth(run, lo, inc, findAll, depth);
      return [];
    }
    var mid := (lo + hi) / 2;
    var exitCode2 := 0;
    IncludedSpan(lo, mid, includeRanges);
    IncludedSpan(mid, hi, includeRanges);
    var exitCode1 := runner.Run([Span(lo, mid)] + includeRanges);
    if findAll || exitCode1 == 0 {
      exitCode2 := runner.Run([Span(mid, hi)] + includeRanges);
    }
    if exitCode1 == 0 && exitCode2 == 0 {
      PassStep(run, lo, hi, inc, findAll, depth);
      var partial := FindFailures(runner, lo, mid, [Span(mid, hi)] + includeRanges, findAll, depth - 1);
      var partialResult := FlattenNodes(partial);
      IncludedItems(partialResult, includeRanges);
      var rest := FindFailures(runner, mid, hi, AsRanges(partialResult) + includeRanges, findAll, depth - 1);
      var restResult := FlattenNodes(rest);
      partialResult := partialResult + restResult;
      found := [Group(partialResult)];
    } else {
      FailStep(run, lo, hi, inc, findAll, depth);
      found := FindInHalf(runner, lo, mid, includeRanges, findAll, exitCode1, depth);
      var more := FindInHalf(runner, mid, hi, includeRanges, findAll, exitCode2, depth);
      found := found + more;
    }
  }

  /** What a half adds to the result: nothing, its only item, or what the recursion finds. */
  method FindInHalf(runner: Runner, lo: int, hi: int, includeRanges: seq<Range>, findAll: bool, exitCode: int, ghost depth: nat) returns (found: seq<Node>)
    requires lo <= hi && depth > 0 && HalfIn(runner.oracle, lo, hi, Included(includeRanges), findAll, exitCode != 0, depth).Ends?
    modifies runner`numTries
    ensures var r := HalfIn(runner.oracle, lo, hi, Included(includeRanges), findAll, exitCode != 0, depth).result;
            found == r.found && runner.numTries == old(runner.numTries) + r.tries
    decreases depth, 0
  {
    hide FindIn, Included;
    if exitCode == 0 {
      found := [];
    } else if hi == lo + 1 {
      found := [Leaf(lo)];
    } else {
      found := FindFailures(runner, lo, hi, includeRanges, findAll, depth - 1);
    }
  }

  /** The tool's run over an initial range: one run of the whole, then the search if it fails. */
  method Bisect(runner: Runner, lo: int, hi: int, all: bool, ghost depth: nat) returns (failList: seq<Node>)
    requires lo <= hi && runner.numTries == 0
    requires Fails(runner.oracle, Interval(lo, hi)) ==> FindIn(runner.oracle, lo, hi, {}, all, depth).Ends?
    modifies runner`numTries
    ensures !Fails(runner.oracle, Interval(lo, hi)) ==> failList == [] && runner.numTries == 1
    ensures Fails(runner.oracle, Interval(lo, hi)) ==>
              var r := FindIn(runner.oracle, lo, hi, {}, all, depth).result;
              failList == r.found && runner.numTries == 1 + r.tries
    ensures Fails(runner.oracle, Interval(lo, hi)) && (all ==> Monotone(runner.oracle)) ==> Fails(runner.oracle, Elements(Flatten(failList)))
    ensures Fails(runner.oracle, Interval(lo, hi)) && !Fails(runner.oracle, {}) && !all && Monotone(runner.oracle) ==>
              && (forall s :: s < Elements(Flatten(failList)) ==> !Fails(runner.oracle, s))
              && runner.numTries <= 1 + 2 * (|Flatten(failList)| * (CeilLog2(hi - lo) + 1))
  {
    hide Find, FindIn, CeilLog2;
    ghost var run := runner.oracle;
    assert Interval(lo, hi) + {} == Interval(lo, hi);
    IncludedSpan(lo, hi, []);
    assert [Span(lo, hi)] + [] == [Span(lo, hi)];
    var exitCode := runner.Run([Span(lo, hi)]);
    if exitCode == 0 {
      return [];
    }
    failList := FindFailures(runner, lo, hi, [], all, depth);
    assert Elements(Flatten(failList)) + {} == Elements(Flatten(failList));
    if all ==> Monotone(run) { EndsWith(run, lo, hi, {}, all, depth); }
    if !Fails(run, {}) && !all && Monotone(run) {
      FindMinimal(run, lo, hi, {});
      forall s | s < Elements(Flatten(failList)) ensures !Fails(run, s) { assert s + {} == s; }
      if lo < hi { FindCost(run, lo, hi, {}); }
    }
  }
}
