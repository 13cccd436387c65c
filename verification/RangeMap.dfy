/**
 RangeMapSorted: a search over a list of ranges that halves an interval around a guess, by recursion.
 Python bounds the recursion: `room` is how many more frames the interpreter allows.
 */
module RangeMap {
  import opened Basics

  datatype Range<+D> = Range(lb: int, ub: int, data: D)

  datatype Outcome<+T> = Returns(value: T) | RecursionError

  const GREATER := -2
  const LESS := -1

  function CompareBounds(lb1: int, ub1: int, lb2: int, ub2: int): int {
    if lb1 < lb2 && ub1 < lb2 then -1
    else if lb1 > ub2 && ub1 > ub2 then 1
    else 0
  }

  /** int(math.ceil(n / 2.0)) */
  function CeilHalf(n: int): int { (n + 1) / 2 }

  function FindIndexFrom<D>(ranges: seq<Range<D>>, lb: int, ub: int, guess: nat, low: nat, high: nat,
                            room: nat): Outcome<int>
    requires low <= guess <= high <= |ranges|
    decreases room
  {
    if room == 0 then RecursionError
    else if guess >= |ranges| then Returns(GREATER)
    else
      var comp := CompareBounds(lb, ub, ranges[guess].lb, ranges[guess].ub);
      if comp == 0 then Returns(guess)
      else if comp < 0 then
        if guess == 0 then Returns(LESS)
        else FindIndexFrom(ranges, lb, ub, guess - CeilHalf(guess - low), low, guess, room - 1)
      else
        if guess >= |ranges| - 1 then Returns(GREATER)
        else FindIndexFrom(ranges, lb, ub, guess + CeilHalf(high - guess), guess, high, room - 1)
  }

  function FindIndex<D>(ranges: seq<Range<D>>, lb: int, ub: int, room: nat): Outcome<int> {
    FindIndexFrom(ranges, lb, ub, CeilHalf(|ranges|), 0, |ranges|, room)
  }

  function Lookup<D>(ranges: seq<Range<D>>, key: int, room: nat): Outcome<Option<D>> {
    IndexInBounds(ranges, key, key, CeilHalf(|ranges|), 0, |ranges|, room);
    match FindIndex(ranges, key, key, room)
    case RecursionError => RecursionError
    case Returns(index) =>
      if index < 0 then Returns(None)
      else if ranges[index].lb <= key <= ranges[index].ub then Returns(Some(ranges[index].data))
      else Returns(None)
  }

  /** The list object; Add is the only method that changes it. */
  class RangeMapSorted<D> {
    var ranges: seq<Range<D>>

    constructor ()
      ensures ranges == []
    {
      ranges := [];
    }

    method Add(lb: int, ub: int, data: D, room: nat) returns (raised: bool)
      modifies this
      ensures raised <==> FindIndex(old(ranges), lb, ub, room) == RecursionError
      ensures !raised ==> Returns(ranges) == Added(old(ranges), Range(lb, ub, data), room)
      ensures raised ==> ranges == old(ranges)
    {
      IndexInBounds(ranges, lb, ub, CeilHalf(|ranges|), 0, |ranges|, room);
      var index := FindIndex(ranges, lb, ub, room);
      if index == RecursionError {
        return true;
      }
      var rangeData := Range(lb, ub, data);
      if index.value == LESS {
        assert [rangeData] + ranges == ranges[..0] + [rangeData] + ranges[0..];
        ranges := [rangeData] + ranges;
      } else if index.value == GREATER {
        ranges := ranges + [rangeData];
      } else {
        ranges := ranges[..index.value] + [rangeData] + ranges[index.value..];
      }
      raised := false;
    }
  }

  /** The list after Add. */
  function Added<D>(ranges: seq<Range<D>>, r: Range<D>, room: nat): Outcome<seq<Range<D>>> {
    IndexInBounds(ranges, r.lb, r.ub, CeilHalf(|ranges|), 0, |ranges|, room);
    match FindIndex(ranges, r.lb, r.ub, room)
    case RecursionError => RecursionError
    case Returns(index) =>
      if index == GREATER then Returns(ranges + [r])
      else
        var at := if index == LESS then 0 else index;
        Returns(ranges[..at] + [r] + ranges[at..])
  }

  lemma {:induction false} IndexInBounds<D>(ranges: seq<Range<D>>, lb: int, ub: int, guess: nat, low: nat, high: nat,
                                            room: nat)
    requires low <= guess <= high <= |ranges|
    ensures var found := FindIndexFrom(ranges, lb, ub, guess, low, high, room);
            found.Returns? ==>
              || found.value in {GREATER, LESS}
              || (0 <= found.value < |ranges| && (lb <= ub ==> Overlaps(ranges[found.value], lb, ub)))
    decreases room
  {
    if room > 0 && guess < |ranges| {
      var comp := CompareBounds(lb, ub, ranges[guess].lb, ranges[guess].ub);
      if comp < 0 && guess > 0 {
        IndexInBounds(ranges, lb, ub, guess - CeilHalf(guess - low), low, guess, room - 1);
      } else if comp > 0 && guess < |ranges| - 1 {
        IndexInBounds(ranges, lb, ub, guess + CeilHalf(high - guess), guess, high, room - 1);
      }
    }
  }

  // ---------- Sorted lists of disjoint ranges ----------

  predicate Overlaps<D>(r: Range<D>, lb: int, ub: int) { r.lb <= ub && lb <= r.ub }

  /** The range is left of the query. */
  predicate LeftOf<D>(r: Range<D>, lb: int) { r.ub < lb }

  /** The range is right of the query. */
  predicate RightOf<D>(r: Range<D>, ub: int) { ub < r.lb }

  predicate SortedDisjoint<D>(ranges: seq<Range<D>>) {
    && (forall i :: 0 <= i < |ranges| ==> ranges[i].lb <= ranges[i].ub)
    && (forall i, j :: 0 <= i < j < |ranges| ==> ranges[i].ub < ranges[j].lb)
  }

  predicate Covered<D>(ranges: seq<Range<D>>, lb: int, ub: int) {
    exists i :: 0 <= i < |ranges| && Overlaps(ranges[i], lb, ub)
  }

  predicate BelowAll<D>(ranges: seq<Range<D>>, ub: int) { forall i :: 0 <= i < |ranges| ==> RightOf(ranges[i], ub) }

  predicate AboveAll<D>(ranges: seq<Range<D>>, lb: int) { forall i :: 0 <= i < |ranges| ==> LeftOf(ranges[i], lb) }

  /** Strictly between range g and the next one. */
  predicate InGap<D>(ranges: seq<Range<D>>, lb: int, ub: int, g: nat) {
    g + 1 < |ranges| && LeftOf(ranges[g], lb) && RightOf(ranges[g + 1], ub)
  }

  /** How often n is halved, rounding up, before it is 1. */
  function Halvings(n: nat): nat { if n <= 1 then 0 else 1 + Halvings((n + 1) / 2) }

  lemma {:induction false} HalvingsMonotone(m: nat, n: nat)
    requires m <= n
    ensures Halvings(m) <= Halvings(n)
  {
    if m > 1 {
      HalvingsMonotone((m + 1) / 2, (n + 1) / 2);
    }
  }

  /** The search for a query that overlaps range k: the interval is halved at each probe and never loses k. */
  lemma {:induction false} FindsFrom<D>(ranges: seq<Range<D>>, lb: int, ub: int, guess: nat, low: nat, high: nat,
                                        room: nat, k: nat)
    requires SortedDisjoint(ranges) && lb <= ub
    requires k < |ranges| && Overlaps(ranges[k], lb, ub)
    requires low <= guess < high <= |ranges|
    requires guess == low + (high - low) / 2 || guess == low + CeilHalf(high - low)
    requires low == 0 || low < k
    requires low < guess || low == 0
    requires k < high
    requires room > Halvings(high - low)
    ensures var found := FindIndexFrom(ranges, lb, ub, guess, low, high, room);
            found.Returns? && 0 <= found.value < |ranges| && Overlaps(ranges[found.value], lb, ub)
    decreases room
  {
    hide FindIndexFrom;
    FindIndexFromIs(ranges, lb, ub, guess, low, high, room);
    Sides(ranges, lb, ub, guess, k);
    if RightOf(ranges[guess], ub) {
      HalvingsMonotone(guess - low, (high - low + 1) / 2);
      FindsFrom(ranges, lb, ub, guess - CeilHalf(guess - low), low, guess, room - 1, k);
    } else if LeftOf(ranges[guess], lb) {
      HalvingsMonotone(high - guess, (high - low + 1) / 2);
      FindsFrom(ranges, lb, ub, guess + CeilHalf(high - guess), guess, high, room - 1, k);
    }
  }

  /** One call of FindIndexFrom, for a proper query. */
  lemma FindIndexFromIs<D>(ranges: seq<Range<D>>, lb: int, ub: int, guess: nat, low: nat, high: nat, room: nat)
    requires SortedDisjoint(ranges) && lb <= ub
    requires low <= guess <= high <= |ranges| && guess < |ranges| && room > 0
    ensures FindIndexFrom(ranges, lb, ub, guess, low, high, room)
         == if RightOf(ranges[guess], ub) then
              if guess == 0 then Returns(LESS)
              else FindIndexFrom(ranges, lb, ub, guess - CeilHalf(guess - low), low, guess, room - 1)
            else if LeftOf(ranges[guess], lb) then
              if guess == |ranges| - 1 then Returns(GREATER)
              else FindIndexFrom(ranges, lb, ub, guess + CeilHalf(high - guess), guess, high, room - 1)
            else Returns(guess)
  {
  }

  lemma Sides<D>(ranges: seq<Range<D>>, lb: int, ub: int, guess: nat, k: nat)
    requires SortedDisjoint(ranges) && lb <= ub && guess < |ranges| && k < |ranges|
    requires Overlaps(ranges[k], lb, ub)
    ensures RightOf(ranges[guess], ub) ==> k < guess
    ensures LeftOf(ranges[guess], lb) ==> guess < k
    ensures RightOf(ranges[guess], ub) || LeftOf(ranges[guess], lb) || Overlaps(ranges[guess], lb, ub)
  {
  }

  lemma {:induction false} LessFrom<D>(ranges: seq<Range<D>>, lb: int, ub: int, guess: nat, high: nat, room: nat)
    requires BelowAll(ranges, ub) && lb <= ub
    requires guess < |ranges| && guess <= high <= |ranges|
    requires room > Halvings(guess) + 1
    ensures FindIndexFrom(ranges, lb, ub, guess, 0, high, room) == Returns(LESS)
    decreases room
  {
    assert RightOf(ranges[guess], ub);
    if guess > 0 {
      var next := guess - CeilHalf(guess);
      if guess == 1 {
        assert RightOf(ranges[0], ub);
      } else {
        HalvingsMonotone(next, (guess + 1) / 2);
        LessFrom(ranges, lb, ub, next, guess, room - 1);
      }
    }
  }

  lemma {:induction false} GreaterFrom<D>(ranges: seq<Range<D>>, lb: int, ub: int, guess: nat, low: nat, room: nat)
    requires SortedDisjoint(ranges) && AboveAll(ranges, lb) && lb <= ub
    requires low <= guess <= |ranges|
    requires room > Halvings(|ranges| - guess)
    ensures FindIndexFrom(ranges, lb, ub, guess, low, |ranges|, room) == Returns(GREATER)
    decreases room
  {
    if guess < |ranges| - 1 {
      assert LeftOf(ranges[guess], lb);
      var next := guess + CeilHalf(|ranges| - guess);
      HalvingsMonotone(|ranges| - next, (|ranges| - guess + 1) / 2);
      GreaterFrom(ranges, lb, ub, next, guess, room - 1);
    } else if guess == |ranges| - 1 {
      assert LeftOf(ranges[guess], lb);
    }
  }

  /** In a gap the guess alternates for ever: no recursion depth is enough. */
  lemma {:induction false} GapFrom<D>(ranges: seq<Range<D>>, lb: int, ub: int, guess: nat, low: nat, high: nat,
                                      room: nat, g: nat)
    requires SortedDisjoint(ranges) && lb <= ub && InGap(ranges, lb, ub, g)
    requires low <= guess <= high <= |ranges| && guess < |ranges|
    requires low <= g < high
    ensures FindIndexFrom(ranges, lb, ub, guess, low, high, room) == RecursionError
    decreases room
  {
    if room > 0 {
      if guess <= g {
        assert LeftOf(ranges[guess], lb);
        GapFrom(ranges, lb, ub, guess + CeilHalf(high - guess), guess, high, room - 1, g);
      } else {
        assert RightOf(ranges[guess], ub);
        GapFrom(ranges, lb, ub, guess - CeilHalf(guess - low), low, guess, room - 1, g);
      }
    }
  }

  /** A query that misses every range and has one on its right is below all or in a gap. */
  lemma {:induction false} WhereItIs<D>(ranges: seq<Range<D>>, lb: int, ub: int, n: nat) returns (g: nat)
    requires SortedDisjoint(ranges) && lb <= ub && !Covered(ranges, lb, ub)
    requires n < |ranges| && RightOf(ranges[n], ub)
    ensures BelowAll(ranges, ub) || InGap(ranges, lb, ub, g)
    decreases n
  {
    g := 0;
    if n > 0 {
      if RightOf(ranges[n - 1], ub) {
        g := WhereItIs(ranges, lb, ub, n - 1);
      } else {
        assert !Overlaps(ranges[n - 1], lb, ub);
        g := n - 1;
      }
    }
  }

  /** Enough frames for any search that ends. */
  function Depth(n: nat): nat { Halvings(n) + 2 }

  /** With two or more ranges: an overlapped range when there is one, LESS below all, GREATER above all,
      within logarithmically many probes; and in a gap no depth is enough. */
  lemma FindIndexAnswers<D>(ranges: seq<Range<D>>, lb: int, ub: int, room: nat)
    requires SortedDisjoint(ranges) && |ranges| >= 2 && lb <= ub
    requires room >= Depth(|ranges|)
    ensures var found := FindIndex(ranges, lb, ub, room);
            && (Covered(ranges, lb, ub) <==> found.Returns? && found.value >= 0)
            && (BelowAll(ranges, ub) <==> found == Returns(LESS))
            && (AboveAll(ranges, lb) <==> found == Returns(GREATER))
            && (found.Returns? && found.value >= 0 ==>
                  found.value < |ranges| && Overlaps(ranges[found.value], lb, ub))
  {
    var n := |ranges|;
    var guess := CeilHalf(n);
    assert LeftOf(ranges[0], lb) || Overlaps(ranges[0], lb, ub) || RightOf(ranges[0], ub);
    if Covered(ranges, lb, ub) {
      var k :| 0 <= k < n && Overlaps(ranges[k], lb, ub);
      FindsFrom(ranges, lb, ub, guess, 0, n, room, k);
    } else if BelowAll(ranges, ub) {
      HalvingsMonotone(guess, n);
      LessFrom(ranges, lb, ub, guess, n, room);
    } else if AboveAll(ranges, lb) {
      HalvingsMonotone(n - guess, n);
      GreaterFrom(ranges, lb, ub, guess, 0, room);
    } else {
      NoGapOtherwise(ranges, lb, ub, room);
    }
  }

  lemma NoGapOtherwise<D>(ranges: seq<Range<D>>, lb: int, ub: int, room: nat)
    requires SortedDisjoint(ranges) && |ranges| >= 2 && lb <= ub
    requires !Covered(ranges, lb, ub) && !BelowAll(ranges, ub) && !AboveAll(ranges, lb)
    ensures FindIndex(ranges, lb, ub, room) == RecursionError
  {
    var n :| 0 <= n < |ranges| && !LeftOf(ranges[n], lb);
    assert !Overlaps(ranges[n], lb, ub);
    var g := WhereItIs(ranges, lb, ub, n);
    GapFrom(ranges, lb, ub, CeilHalf(|ranges|), 0, |ranges|, room, g);
  }

  /** The search ends, at some depth, exactly when the query is not strictly inside a gap. */
  lemma EndsExactlyOutsideGaps<D>(ranges: seq<Range<D>>, lb: int, ub: int)
    requires SortedDisjoint(ranges) && |ranges| >= 2 && lb <= ub
    ensures (exists room: nat :: FindIndex(ranges, lb, ub, room).Returns?)
        <==> Covered(ranges, lb, ub) || BelowAll(ranges, ub) || AboveAll(ranges, lb)
  {
    FindIndexAnswers(ranges, lb, ub, Depth(|ranges|));
    if !Covered(ranges, lb, ub) && !BelowAll(ranges, ub) && !AboveAll(ranges, lb) {
      forall room: nat
        ensures FindIndex(ranges, lb, ub, room) == RecursionError
      {
        NoGapOtherwise(ranges, lb, ub, room);
      }
    } else {
      assert FindIndex(ranges, lb, ub, Depth(|ranges|)).Returns?;
    }
  }

  /** With no range or one, the search says GREATER for every query. */
  lemma ShortListsAreGreater<D>(ranges: seq<Range<D>>, lb: int, ub: int, room: nat)
    requires |ranges| <= 1 && room > 0
    ensures FindIndex(ranges, lb, ub, room) == Returns(GREATER)
  {
  }

  /** The range that holds the key, if any. */
  ghost predicate Holds<D>(ranges: seq<Range<D>>, key: int, data: D) {
    exists i :: 0 <= i < |ranges| && ranges[i].lb <= key <= ranges[i].ub && ranges[i].data == data
  }

  /** Lookup gives the data of the range that holds the key exactly when there are two ranges or more; None
      for keys below all or above all, and an exception at every depth for a key in a gap. */
  lemma LookupAnswers<D>(ranges: seq<Range<D>>, key: int, room: nat)
    requires SortedDisjoint(ranges) && room >= Depth(|ranges|)
    ensures forall data ::
              Lookup(ranges, key, room) == Returns(Some(data)) <==> |ranges| >= 2 && Holds(ranges, key, data)
    ensures Lookup(ranges, key, room) == RecursionError
        <==> exists g :: InGap(ranges, key, key, g)
  {
    if |ranges| >= 2 {
      FindIndexAnswers(ranges, key, key, room);
      var found := FindIndex(ranges, key, key, room);
      if Covered(ranges, key, key) {
        forall data
          ensures Holds(ranges, key, data) <==> ranges[found.value].data == data
        {
        }
      } else if !BelowAll(ranges, key) && !AboveAll(ranges, key) {
        NoGapOtherwise(ranges, key, key, room);
        var n :| 0 <= n < |ranges| && !LeftOf(ranges[n], key);
        assert !Overlaps(ranges[n], key, key);
        var g := WhereItIs(ranges, key, key, n);
      }
      if g :| InGap(ranges, key, key, g) {
        GapFrom(ranges, key, key, CeilHalf(|ranges|), 0, |ranges|, room, g);
      }
    }
  }

  // ---------- What Add keeps ----------

  /** Add keeps a sorted list sorted and disjoint exactly when the new range is above all the others, or
      below all of at least two. */
  lemma AddKeepsSorted<D>(ranges: seq<Range<D>>, r: Range<D>, room: nat)
    requires SortedDisjoint(ranges) && r.lb <= r.ub && room >= Depth(|ranges|)
    ensures (Added(ranges, r, room).Returns? && SortedDisjoint(Added(ranges, r, room).value))
        <==> AboveAll(ranges, r.lb) || (|ranges| >= 2 && BelowAll(ranges, r.ub))
  {
    if AboveAll(ranges, r.lb) {
      AboveAllSorted(ranges, r);
      AboveAllAppends(ranges, r, room);
    } else if |ranges| == 1 {
      var after := ranges + [r];
      assert after[0] == ranges[0] && after[1] == r;
    } else {
      hide SortedDisjoint, FindIndex;
      FindIndexAnswers(ranges, r.lb, r.ub, room);
      IndexInBounds(ranges, r.lb, r.ub, CeilHalf(|ranges|), 0, |ranges|, room);
      var found := FindIndex(ranges, r.lb, r.ub, room);
      if found == Returns(LESS) {
        InsertedSorted(ranges, r, 0);
      } else if found.Returns? {
        InsertedSorted(ranges, r, found.value);
      }
    }
  }

  /** The new range is put in, and nothing else changes. */
  ghost predicate InsertedAt<D(!new)>(before: seq<Range<D>>, after: seq<Range<D>>, r: Range<D>, at: nat) {
    && at <= |before| && |after| == |before| + 1 && after[at] == r
    && after[..at] == before[..at] && after[at + 1..] == before[at..]
  }

  lemma InsertedCounts<D(!new)>(before: seq<Range<D>>, after: seq<Range<D>>, r: Range<D>, at: nat)
    requires InsertedAt(before, after, r, at)
    ensures multiset(after) == multiset(before) + multiset{r}
  {
    assert after == after[..at] + [after[at]] + after[at + 1..];
    assert before == before[..at] + before[at..];
  }

  /** Whatever list it is given, an Add that ends puts the new range in and keeps all the others in order; with
      two or more sorted ranges it stands first when it is below all, last when it is above all, and else just
      before a range that it overlaps; and with fewer it stands last. */
  lemma AddPutsIn<D(!new)>(ranges: seq<Range<D>>, r: Range<D>, room: nat) returns (at: nat)
    requires Added(ranges, r, room).Returns?
    ensures InsertedAt(ranges, Added(ranges, r, room).value, r, at)
    ensures multiset(Added(ranges, r, room).value) == multiset(ranges) + multiset{r}
    ensures |ranges| <= 1 ==> at == |ranges|
    ensures |ranges| >= 2 && SortedDisjoint(ranges) && r.lb <= r.ub && room >= Depth(|ranges|) ==>
              if BelowAll(ranges, r.ub) then at == 0
              else if AboveAll(ranges, r.lb) then at == |ranges|
              else at < |ranges| && Overlaps(ranges[at], r.lb, r.ub)
  {
    IndexInBounds(ranges, r.lb, r.ub, CeilHalf(|ranges|), 0, |ranges|, room);
    var found := FindIndex(ranges, r.lb, r.ub, room).value;
    var after := Added(ranges, r, room).value;
    at := if found == GREATER then |ranges| else if found == LESS then 0 else found;
    if |ranges| >= 2 && SortedDisjoint(ranges) && r.lb <= r.ub && room >= Depth(|ranges|) {
      FindIndexAnswers(ranges, r.lb, r.ub, room);
    }
    hide FindIndex, SortedDisjoint, BelowAll, AboveAll;
    assert after == ranges[..at] + [r] + ranges[at..];
    InsertedCounts(ranges, after, r, at);
  }

  lemma AboveAllSorted<D>(ranges: seq<Range<D>>, r: Range<D>)
    requires SortedDisjoint(ranges) && r.lb <= r.ub && AboveAll(ranges, r.lb)
    ensures SortedDisjoint(ranges + [r])
  {
    var after := ranges + [r];
    forall i, j | 0 <= i < j < |after|
      ensures after[i].ub < after[j].lb
    {
      assert LeftOf(ranges[i], r.lb);
    }
  }

  /** Put before a range that it overlaps, the list is spoilt; put before all it is not. */
  lemma InsertedSorted<D>(ranges: seq<Range<D>>, r: Range<D>, at: nat)
    requires SortedDisjoint(ranges) && r.lb <= r.ub && at < |ranges|
    requires Overlaps(ranges[at], r.lb, r.ub) || (at == 0 && BelowAll(ranges, r.ub))
    ensures SortedDisjoint(ranges[..at] + [r] + ranges[at..]) <==> !Overlaps(ranges[at], r.lb, r.ub)
  {
    var after := ranges[..at] + [r] + ranges[at..];
    assert after[at] == r && after[at + 1] == ranges[at];
    if !Overlaps(ranges[at], r.lb, r.ub) {
      assert after == [r] + ranges;
      forall i, j | 0 <= i < j < |after|
        ensures after[i].ub < after[j].lb
      {
        assert RightOf(ranges[j - 1], r.ub);
      }
    }
  }

  lemma AboveAllAppends<D>(ranges: seq<Range<D>>, r: Range<D>, room: nat)
    requires SortedDisjoint(ranges + [r]) && room >= Depth(|ranges|)
    ensures Added(ranges, r, room) == Returns(ranges + [r])
  {
    var after := ranges + [r];
    assert after[|ranges|] == r;
    assert forall i :: 0 <= i < |ranges| ==> after[i] == ranges[i];
    if |ranges| >= 2 {
      FindIndexAnswers(ranges, r.lb, r.ub, room);
    }
  }

  /** Every range is above all that came before it. */
  predicate Ascending<D>(ranges: seq<Range<D>>, more: seq<Range<D>>) { SortedDisjoint(ranges + more) }

  /** Adding one after another; an exception ends it. */
  function AddedAll<D>(ranges: seq<Range<D>>, more: seq<Range<D>>, room: nat): Outcome<seq<Range<D>>>
    decreases |more|
  {
    if more == [] then Returns(ranges)
    else
      match Added(ranges, more[0], room)
      case RecursionError => RecursionError
      case Returns(next) => AddedAll(next, more[1..], room)
  }

  /** Ascending Adds append, whatever was there, and so the list stays sorted and disjoint. */
  lemma {:induction false} AscendingAddsAppend<D>(ranges: seq<Range<D>>, more: seq<Range<D>>, room: nat)
    requires Ascending(ranges, more)
    requires room >= Depth(|ranges| + |more|)
    ensures AddedAll(ranges, more, room) == Returns(ranges + more)
    decreases |more|
  {
    hide Added, Depth;
    var all := ranges + more;
    if more == [] {
      assert all == ranges;
    } else {
      var next := ranges + [more[0]];
      assert next + more[1..] == all;
      assert all[..|next|] == next;
      PrefixSorted(all, |next|);
      DepthMonotone(|ranges|, |all|);
      AboveAllAppends(ranges, more[0], room);
      AscendingAddsAppend(next, more[1..], room);
    }
  }

  lemma PrefixSorted<D>(ranges: seq<Range<D>>, n: nat)
    requires SortedDisjoint(ranges) && n <= |ranges|
    ensures SortedDisjoint(ranges[..n])
  {
  }

  lemma DepthMonotone(m: nat, n: nat)
    requires m <= n
    ensures Depth(m) <= Depth(n)
  {
    HalvingsMonotone(m, n);
  }
}
