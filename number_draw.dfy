/**
 * The number draw: `count` whole numbers from `[min, max]`, with or without repeats, and the
 * newest-first record of past draws. The random indices the source takes from `Math.random()`
 * are parameters.
 */
module NumberDraw {
  import opened Wrappers
  import opened Seqs

  /** `Array.from({length: n}, (_, i) => i + lo)`: the `n` consecutive numbers from `lo`. */
  function Range(lo: int, n: nat): (r: seq<int>)
    ensures |r| == n
    ensures forall i :: 0 <= i < n ==> r[i] == lo + i
  {
    seq(n, i => lo + i)
  }

  lemma RangeFacts(lo: int, n: nat)
    ensures NoDup(Range(lo, n))
    ensures forall x :: x in Range(lo, n) <==> lo <= x < lo + n
  {
    var r := Range(lo, n);
    forall x | lo <= x < lo + n ensures x in r {
      assert r[x - lo] == x;
    }
  }

  predicate InRange(xs: seq<int>, lo: int, hi: int) {
    forall x :: x in xs ==> lo <= x <= hi
  }

  /** Each pick indexes the pool as it is at that step: `picks[i]` is below `n - i`. */
  predicate ValidPicks(n: nat, picks: seq<nat>) {
    |picks| <= n && forall i :: 0 <= i < |picks| ==> picks[i] < n - i
  }

  lemma ValidPicksTail(n: nat, picks: seq<nat>, i: nat)
    requires ValidPicks(n, picks) && i < |picks|
    ensures ValidPicks(n - i - 1, picks[i + 1..])
  {
    var t := picks[i + 1..];
    forall j | 0 <= j < |t| ensures t[j] < n - i - 1 - j {
      assert t[j] == picks[i + 1 + j];
    }
  }

  /**
   * What taking `picks[i]`-th element of the pool and then splicing it out, for each `i` in
   * turn, yields: the numbers taken, in order, and the pool that is left.
   */
  function Deal(pool: seq<int>, picks: seq<nat>): (r: (seq<int>, seq<int>))
    requires ValidPicks(|pool|, picks)
    ensures |r.0| == |picks| && |r.1| == |pool| - |picks|
    decreases |picks|
  {
    if picks == [] then ([], pool)
    else
      ValidPicksTail(|pool|, picks, 0);
      var rest := Deal(RemoveAt(pool, picks[0]), picks[1..]);
      ([pool[picks[0]]] + rest.0, rest.1)
  }

  /** The first step of a deal, and the picks that remain valid for the smaller pool. */
  lemma DealStep(pool: seq<int>, picks: seq<nat>)
    requires ValidPicks(|pool|, picks) && picks != []
    ensures ValidPicks(|pool| - 1, picks[1..])
    ensures Deal(pool, picks).0 == [pool[picks[0]]] + Deal(RemoveAt(pool, picks[0]), picks[1..]).0
    ensures Deal(pool, picks).1 == Deal(RemoveAt(pool, picks[0]), picks[1..]).1
  {
    ValidPicksTail(|pool|, picks, 0);
  }

  /** Dealing from a duplicate-free pool takes distinct numbers from it and leaves the others, so nothing is lost or repeated. */
  lemma {:induction false} DealPartitions(pool: seq<int>, picks: seq<nat>)
    requires ValidPicks(|pool|, picks)
    requires NoDup(pool)
    ensures NoDup(Deal(pool, picks).0) && NoDup(Deal(pool, picks).1)
    ensures multiset(Deal(pool, picks).0) + multiset(Deal(pool, picks).1) == multiset(pool)
    decreases |picks|
  {
    if picks != [] {
      var k := picks[0];
      var rest := RemoveAt(pool, k);
      ValidPicksTail(|pool|, picks, 0);
      RemoveAtNoDup(pool, k);
      DealPartitions(rest, picks[1..]);
      var taken := Deal(rest, picks[1..]).0;
      assert pool[k] !in multiset(taken) by {
        assert multiset(taken) <= multiset(rest);
      }
      NoDupPrepend(pool[k], taken);
    }
  }

  lemma NoDupPrepend(x: int, s: seq<int>)
    requires NoDup(s) && x !in s
    ensures NoDup([x] + s)
  {
    var t := [x] + s;
    forall i, j | 0 <= i < j < |t| ensures t[i] != t[j] {
      if i == 0 { assert t[j] == s[j - 1]; } else { assert t[i] == s[i - 1] && t[j] == s[j - 1]; }
    }
  }

  /** Dealing from `[lo, lo + n)` draws distinct numbers of the range, and with what is left they are the whole range. */
  lemma DealFromRange(lo: int, n: nat, picks: seq<nat>)
    requires ValidPicks(n, picks)
    ensures NoDup(Deal(Range(lo, n), picks).0)
    ensures InRange(Deal(Range(lo, n), picks).0, lo, lo + n - 1)
    ensures multiset(Deal(Range(lo, n), picks).0) + multiset(Deal(Range(lo, n), picks).1) == multiset(Range(lo, n))
  {
    var range := Range(lo, n);
    RangeFacts(lo, n);
    DealPartitions(range, picks);
    var taken := Deal(range, picks).0;
    forall x | x in taken ensures lo <= x <= lo + n - 1 {
      assert x in multiset(taken);
      assert x in multiset(range);
    }
  }

  /** With repeats: each number is `Math.floor(Math.random() * rangeSize) + min`, the random part given as `picks[i]`. */
  method DrawWithRepeat(lo: int, hi: int, count: nat, picks: seq<nat>) returns (results: seq<int>)
    requires lo <= hi
    requires |picks| == count
    requires forall i :: 0 <= i < count ==> picks[i] < hi - lo + 1
    ensures |results| == count
    ensures forall i :: 0 <= i < count ==> results[i] == lo + picks[i]
    ensures InRange(results, lo, hi)
  {
    results := [];
    for i := 0 to count
      invariant |results| == i
      invariant forall j :: 0 <= j < i ==> results[j] == lo + picks[j]
      invariant InRange(results, lo, hi)
    {
      results := results + [lo + picks[i]];
    }
  }

  /**
   * Without repeats: the pool starts as `[min..max]`; each step takes the element at the random
   * index `picks[i]` of the current pool and splices it out. The numbers drawn are distinct,
   * lie in `[min, max]`, and together with what is left of the pool are exactly the range.
   */
  method DrawWithoutRepeat(lo: int, hi: int, count: nat, picks: seq<nat>) returns (results: seq<int>, pool: seq<int>)
    requires lo <= hi && count <= hi - lo + 1
    requires |picks| == count
    requires forall i :: 0 <= i < count ==> picks[i] < hi - lo + 1 - i
    ensures (results, pool) == Deal(Range(lo, hi - lo + 1), picks)
    ensures |results| == count && |pool| == hi - lo + 1 - count
    ensures NoDup(results) && InRange(results, lo, hi)
    ensures multiset(results) + multiset(pool) == multiset(Range(lo, hi - lo + 1))
  {
    var rangeSize := hi - lo + 1;
    var range := Range(lo, rangeSize);
    assert ValidPicks(rangeSize, picks);
    pool := range;
    results := [];
    assert picks[0..] == picks;
    assert Deal(range, picks).0 == [] + Deal(range, picks[0..]).0;
    for i := 0 to count
      invariant |results| == i && |pool| == rangeSize - i
      invariant ValidPicks(|pool|, picks[i..])
      invariant Deal(range, picks) == (results + Deal(pool, picks[i..]).0, Deal(pool, picks[i..]).1)
    {
      DealLoopStep(range, picks, results, pool, i);
      results := results + [pool[picks[i]]];
      pool := RemoveAt(pool, picks[i]);
    }
    assert picks[count..] == [];
    assert Deal(pool, picks[count..]) == ([], pool);
    assert results + [] == results;
    DealFromRange(lo, rangeSize, picks);
    assert range == Range(lo, hi - lo + 1);
  }

  /** One turn of the drawing loop: the next pick moves one number from the pool to the results. */
  lemma DealLoopStep(range: seq<int>, picks: seq<nat>, results: seq<int>, pool: seq<int>, i: nat)
    requires ValidPicks(|range|, picks) && i < |picks|
    requires ValidPicks(|pool|, picks[i..])
    requires Deal(range, picks) == (results + Deal(pool, picks[i..]).0, Deal(pool, picks[i..]).1)
    ensures picks[i] < |pool| && ValidPicks(|pool| - 1, picks[i + 1..])
    ensures Deal(range, picks) ==
      ((results + [pool[picks[i]]]) + Deal(RemoveAt(pool, picks[i]), picks[i + 1..]).0,
       Deal(RemoveAt(pool, picks[i]), picks[i + 1..]).1)
  {
    var k := picks[i];
    DealStep(pool, picks[i..]);
    assert picks[i..][1..] == picks[i + 1..];
    assert picks[i..][0] == k;
    var later := Deal(RemoveAt(pool, k), picks[i + 1..]);
    ConcatAssoc(results, [pool[k]], later.0);
  }

  lemma ConcatAssoc<T>(a: seq<T>, b: seq<T>, c: seq<T>)
    ensures a + (b + c) == (a + b) + c
  {
  }

  /** Drawing every number of the range without repeats yields an ordering of the whole range. */
  lemma DrawAllIsPermutation(lo: int, hi: int, results: seq<int>, pool: seq<int>)
    requires lo <= hi
    requires |pool| == 0
    requires multiset(results) + multiset(pool) == multiset(Range(lo, hi - lo + 1))
    ensures multiset(results) == multiset(Range(lo, hi - lo + 1))
    ensures forall x :: lo <= x <= hi <==> x in results
  {
    RangeFacts(lo, hi - lo + 1);
    assert pool == [];
    assert multiset(pool) == multiset{};
    forall x ensures lo <= x <= hi <==> x in results {
      assert x in results <==> x in multiset(results);
      assert x in Range(lo, hi - lo + 1) <==> x in multiset(Range(lo, hi - lo + 1));
    }
  }

  /** What `draw` promises of its numbers: `count` of them in `[lo, hi]`; without repeats distinct, and the whole range when `count` is its size. */
  predicate IsDraw(r: seq<int>, lo: int, hi: int, count: nat, allowRepeat: bool) {
    && |r| == count
    && InRange(r, lo, hi)
    && (!allowRepeat ==> NoDup(r))
    && (!allowRepeat && count == hi - lo + 1 ==> multiset(r) == multiset(Range(lo, hi - lo + 1)))
  }

  /** The random indices a draw consumes: one per number, each below the size of what it picks from. */
  predicate PicksFit(lo: int, hi: int, count: nat, allowRepeat: bool, picks: seq<nat>) {
    && |picks| == count
    && (allowRepeat ==> forall i :: 0 <= i < count ==> picks[i] < hi - lo + 1)
    && (!allowRepeat ==> forall i :: 0 <= i < count ==> picks[i] < hi - lo + 1 - i)
  }

  /** The generation step of `draw` (lines 47-60), after its guards have passed. */
  method GenerateNumbers(lo: int, hi: int, count: nat, allowRepeat: bool, picks: seq<nat>) returns (results: seq<int>)
    requires lo < hi && (allowRepeat || count <= hi - lo + 1)
    requires PicksFit(lo, hi, count, allowRepeat, picks)
    ensures IsDraw(results, lo, hi, count, allowRepeat)
  {
    if allowRepeat {
      results := DrawWithRepeat(lo, hi, count, picks);
    } else {
      var pool;
      results, pool := DrawWithoutRepeat(lo, hi, count, picks);
      if count == hi - lo + 1 {
        DrawAllIsPermutation(lo, hi, results, pool);
      }
    }
  }

  datatype DrawOutcome = Busy | InvalidRange | PoolTooSmall | Started

  class DrawState {
    var min: int
    var max: int
    /** The slider's value, between 1 and 10. */
    var count: nat
    var allowRepeat: bool
    var isDrawing: bool
    var currentNumbers: seq<int>
    var history: seq<seq<int>>
    /** The numbers of the draw whose animation is running, held by its closure. */
    var pending: Option<seq<int>>

    ghost predicate Valid()
      reads this
    {
      isDrawing <==> pending.Some?
    }

    constructor ()
      ensures Valid()
      ensures min == 1 && max == 100 && count == 1 && !allowRepeat
      ensures !isDrawing && currentNumbers == [] && history == []
    {
      min, max, count, allowRepeat := 1, 100, 1, false;
      isDrawing, currentNumbers, history, pending := false, [], [], None;
    }

    /** Whether `draw` passes its guards (line 30 and the two validations). */
    predicate WillStart()
      reads this
      ensures WillStart() ==> !isDrawing && min < max
      ensures WillStart() && !allowRepeat ==> count <= |Range(min, max - min + 1)|
    {
      !isDrawing && min < max && (allowRepeat || count <= max - min + 1)
    }

    /**
     * `draw`: ignored while a draw is running; refused when `min >= max`, or without repeats when
     * more numbers are asked for than the range holds; otherwise the animation starts with no
     * numbers shown and the drawn numbers wait for its end.
     */
    method Draw(picks: seq<nat>) returns (outcome: DrawOutcome)
      requires Valid()
      requires WillStart() ==> PicksFit(min, max, count, allowRepeat, picks)
      modifies this`isDrawing, this`currentNumbers, this`pending
      ensures Valid()
      ensures outcome == Busy <==> old(isDrawing)
      ensures outcome == InvalidRange <==> !old(isDrawing) && min >= max
      ensures outcome == PoolTooSmall <==> !old(isDrawing) && min < max && !allowRepeat && count > max - min + 1
      ensures outcome == Started <==> old(WillStart())
      ensures outcome != Started ==> isDrawing == old(isDrawing) && currentNumbers == old(currentNumbers) && pending == old(pending)
      ensures outcome == Started ==> isDrawing && currentNumbers == [] && pending.Some?
      ensures outcome == Started ==> IsDraw(pending.value, min, max, count, allowRepeat)
    {
      if isDrawing {
        return Busy;
      }
      if min >= max {
        return InvalidRange;
      }
      var rangeSize := max - min + 1;
      if !allowRepeat && count > rangeSize {
        return PoolTooSmall;
      }
      isDrawing := true;
      currentNumbers := [];
      var results := GenerateNumbers(min, max, count, allowRepeat, picks);
      pending := Some(results);
      outcome := Started;
    }

    /** The end of the animation: the drawn numbers are shown and put in front of the history. */
    method FinishDraw()
      requires Valid() && pending.Some?
      modifies this`isDrawing, this`currentNumbers, this`history, this`pending
      ensures Valid()
      ensures !isDrawing && currentNumbers == old(pending.value)
      ensures history == [old(pending.value)] + old(history)
      ensures |history| == |old(history)| + 1 && history[1..] == old(history)
    {
      var results := pending.value;
      isDrawing := false;
      currentNumbers := results;
      history := [results] + history;
      pending := None;
    }

    /** `clearHistory`: no past draws and no numbers shown. */
    method ClearHistory()
      requires Valid()
      modifies this`history, this`currentNumbers
      ensures Valid()
      ensures history == [] && currentNumbers == []
    {
      history := [];
      currentNumbers := [];
    }
  }
}
