/** The window queries of utils/grid.py over a list of ranges and a list of events, both searched by halving. */
module Timeline {

  datatype Range = Range(start: int, end: int, value: string)

  /** A Python slice s[lo:hi] with bounds that are not negative. */
  function Slice<T>(s: seq<T>, lo: nat, hi: nat): seq<T> {
    var h := if hi < |s| then hi else |s|;
    if lo < h then s[lo..h] else []
  }

  // ---- Ranges ----

  /** Each range is well formed and ends before, or where, the next one starts. */
  ghost predicate Ordered(ranges: seq<Range>) {
    && (forall i | 0 <= i < |ranges| :: ranges[i].start <= ranges[i].end)
    && (forall i, j | 0 <= i < j < |ranges| :: ranges[i].end <= ranges[j].start)
  }

  /** Each range is well formed and ends before the next one starts. */
  ghost predicate Disjoint(ranges: seq<Range>) {
    && (forall i | 0 <= i < |ranges| :: ranges[i].start <= ranges[i].end)
    && (forall i, j | 0 <= i < j < |ranges| :: ranges[i].end < ranges[j].start)
  }

  predicate Contains(r: Range, key: int) {
    r.start <= key <= r.end
  }

  predicate Overlaps(r: Range, start: int, end: int) {
    r.start <= end && start <= r.end
  }

  ghost predicate InSome(ranges: seq<Range>, key: int) {
    exists i :: 0 <= i < |ranges| && Contains(ranges[i], key)
  }

  /** What halving the indices from l to u finds: the index of a range that holds the key, or -1. */
  function Probe(ranges: seq<Range>, key: int, l: nat, u: int): (index: int)
    requires l <= u + 1 <= |ranges|
    ensures index == -1 || (l <= index <= u && Contains(ranges[index], key))
    decreases u + 1 - l
  {
    if l > u then -1
    else
      var i := (l + u) / 2;
      if ranges[i].start <= key <= ranges[i].end then i
      else if key < ranges[i].start then Probe(ranges, key, l, i - 1)
      else Probe(ranges, key, i + 1, u)
  }

  function Found(ranges: seq<Range>, key: int): (index: int)
    ensures -1 <= index < |ranges| && (index != -1 ==> Contains(ranges[index], key))
  {
    Probe(ranges, key, 0, |ranges| - 1)
  }

  /** A range that misses the key rules out all the ranges on its far side. */
  lemma MissRulesOut(ranges: seq<Range>, key: int, i: nat)
    requires Ordered(ranges) && i < |ranges| && !Contains(ranges[i], key)
    ensures if key < ranges[i].start then forall j | i <= j < |ranges| :: !Contains(ranges[j], key)
            else forall j | 0 <= j <= i :: !Contains(ranges[j], key)
  {
  }

  lemma ProbeStep(ranges: seq<Range>, key: int, l: nat, u: int)
    requires l <= u + 1 <= |ranges|
    ensures Probe(ranges, key, l, u) ==
            if l > u then -1
            else
              var i := (l + u) / 2;
              if ranges[i].start <= key <= ranges[i].end then i
              else if key < ranges[i].start then Probe(ranges, key, l, i - 1)
              else Probe(ranges, key, i + 1, u)
  {
  }

  lemma {:induction false} ProbeMisses(ranges: seq<Range>, key: int, l: nat, u: int)
    requires Ordered(ranges) && l <= u + 1 <= |ranges| && Probe(ranges, key, l, u) == -1
    ensures forall i | l <= i <= u :: !Contains(ranges[i], key)
    decreases u + 1 - l
  {
    hide Ordered;
    if l <= u {
      var i := (l + u) / 2;
      MissRulesOut(ranges, key, i);
      if key < ranges[i].start {
        ProbeMisses(ranges, key, l, i - 1);
      } else {
        ProbeMisses(ranges, key, i + 1, u);
      }
    }
  }

  /** In ordered ranges the search finds a range that holds the key exactly when there is one. */
  lemma FoundIff(ranges: seq<Range>, key: int)
    requires Ordered(ranges)
    ensures Found(ranges, key) == -1 <==> !InSome(ranges, key)
  {
    if Found(ranges, key) == -1 {
      ProbeMisses(ranges, key, 0, |ranges| - 1);
    }
  }

  /** The range in the middle, the lower of the two in an even number, is tried first: of two ranges that touch the
      first is found, and of three the second. */
  lemma MiddleRangeFirst(ranges: seq<Range>, key: int)
    requires ranges != [] && Contains(ranges[(|ranges| - 1) / 2], key)
    ensures Found(ranges, key) == (|ranges| - 1) / 2
  {
  }

  /** The search in a part of the list is the search in that part alone. */
  lemma {:induction false} ProbeShift(part: seq<Range>, ranges: seq<Range>, key: int, offset: nat, l: nat, u: int)
    requires l <= u + 1 <= |part| && offset + |part| <= |ranges|
    requires forall i | 0 <= i < |part| :: part[i] == ranges[offset + i]
    ensures var inPart := Probe(part, key, l, u);
            Probe(ranges, key, offset + l, offset + u) == if inPart == -1 then -1 else offset + inPart
    decreases u + 1 - l
  {
    hide Probe;
    ProbeStep(part, key, l, u);
    ProbeStep(ranges, key, offset + l, offset + u);
    if l <= u {
      var i := (l + u) / 2;
      assert ((offset + l) + (offset + u)) / 2 == offset + i && ranges[offset + i] == part[i];
      if part[i].start <= key <= part[i].end {
      } else if key < part[i].start {
        ProbeShift(part, ranges, key, offset, l, i - 1);
      } else {
        ProbeShift(part, ranges, key, offset, i + 1, u);
      }
    }
  }

  lemma FoundStep(ranges: seq<Range>, key: int)
    requires ranges != []
    ensures var middle := (|ranges| - 1) / 2;
            Found(ranges, key) ==
            if Contains(ranges[middle], key) then middle
            else if key < ranges[middle].start then Probe(ranges, key, 0, middle - 1)
            else Probe(ranges, key, middle + 1, |ranges| - 1)
  {
    hide Probe;
    ProbeStep(ranges, key, 0, |ranges| - 1);
  }

  lemma FoundBelow(ranges: seq<Range>, key: int, n: nat)
    requires n <= |ranges|
    ensures Probe(ranges, key, 0, n - 1) == Found(ranges[..n], key)
  {
    hide Probe;
    ProbeShift(ranges[..n], ranges, key, 0, 0, n - 1);
  }

  lemma FoundAbove(ranges: seq<Range>, key: int, n: nat)
    requires n <= |ranges|
    ensures var above := Found(ranges[n..], key);
            Probe(ranges, key, n, |ranges| - 1) == if above == -1 then -1 else n + above
  {
    hide Probe;
    ProbeShift(ranges[n..], ranges, key, n, 0, |ranges| - n - 1);
  }

  /** Where the middle range does not hold the key, the search goes on in the half on the side of the key alone. */
  lemma HalvesRanges(ranges: seq<Range>, key: int)
    requires ranges != [] && !Contains(ranges[(|ranges| - 1) / 2], key)
    ensures var middle := (|ranges| - 1) / 2;
            var above := Found(ranges[middle + 1..], key);
            Found(ranges, key) ==
            if key < ranges[middle].start then Found(ranges[..middle], key)
            else if above == -1 then -1
            else middle + 1 + above
  {
    var middle := (|ranges| - 1) / 2;
    hide Probe, Found;
    FoundStep(ranges, key);
    FoundBelow(ranges, key, middle);
    FoundAbove(ranges, key, middle + 1);
  }

  /** The bounds of a window: from the range found for its start, or the first, to the range found for its end,
      or the last; empty when none is found for either. */
  function Bounds(ranges: seq<Range>, start: int, end: int): (b: (nat, nat))
    ensures b.0 <= |ranges| && b.1 <= |ranges|
  {
    var s, e := Found(ranges, start), Found(ranges, end);
    if s == -1 && e == -1 then (0, 0)
    else ((if s == -1 then 0 else s), (if e == -1 then |ranges| else e + 1))
  }

  function Selected(ranges: seq<Range>, start: int, end: int): seq<Range> {
    Slice(ranges, Bounds(ranges, start, end).0, Bounds(ranges, start, end).1)
  }

  class TimelineDataRange {
    var ranges: seq<Range>

    constructor ()
      ensures ranges == []
    {
      ranges := [];
    }

    method AddRange(r: Range)
      modifies this
      ensures ranges == old(ranges) + [r]
    {
      ranges := ranges + [r];
    }

    /** Binary search for a range that holds a key, or -1. In ordered ranges it finds one if there is one. */
    method Search(key: int) returns (index: int)
      ensures index == Found(ranges, key)
      ensures index != -1 ==> 0 <= index < |ranges| && ranges[index].start <= key <= ranges[index].end
      ensures Ordered(ranges) && index == -1 ==>
                forall i | 0 <= i < |ranges| :: !(ranges[i].start <= key <= ranges[i].end)
    {
      hide Ordered, Probe;
      if Ordered(ranges) {
        FoundIff(ranges, key);
        assert Found(ranges, key) == -1 ==> forall i | 0 <= i < |ranges| :: !Contains(ranges[i], key);
      }
      var l, u := 0, |ranges| - 1;
      while l <= u
        invariant 0 <= l <= u + 1 <= |ranges|
        invariant Found(ranges, key) == Probe(ranges, key, l, u)
        decreases u - l
      {
        ProbeStep(ranges, key, l, u);
        var i := (l + u) / 2;
        if key >= ranges[i].start && key <= ranges[i].end {
          return i;
        } else if key < ranges[i].start {
          u := i - 1;
        } else {
          l := i + 1;
        }
      }
      ProbeStep(ranges, key, l, u);
      return -1;
    }

    /** The bounds of a window. In ordered ranges every overlapping range lies within them exactly under the
        condition of `NothingDropped`, and no other range does exactly under that of `NothingAdded`. */
    method GetRangesBounds(start: int, end: int) returns (bounds: (nat, nat))
      ensures bounds == Bounds(ranges, start, end)
      ensures Ordered(ranges) && start <= end ==>
                && ((forall i | 0 <= i < |ranges| && Overlaps(ranges[i], start, end) :: bounds.0 <= i < bounds.1) <==>
                    NothingDropped(ranges, start, end))
                && ((forall i | bounds.0 <= i < bounds.1 :: Overlaps(ranges[i], start, end)) <==>
                    NothingAdded(ranges, start, end))
    {
      hide Overlaps, NothingDropped, NothingAdded, Ordered, Found;
      if Ordered(ranges) && start <= end {
        DropsNothingIff(ranges, start, end);
        AddsNothingIff(ranges, start, end);
      }
      var s := Search(start);
      var e := Search(end);
      if s == -1 && e == -1 {
        bounds := (0, 0);
      } else if s == -1 {
        bounds := (0, e + 1);
      } else if e == -1 {
        bounds := (s, |ranges|);
      } else {
        bounds := (s, e + 1);
      }
    }

    /** The ranges of a window: in ordered ranges exactly the overlapping ones under those two conditions. */
    method GetRanges(start: int, end: int) returns (selected: seq<Range>)
      ensures selected == Selected(ranges, start, end)
      ensures Ordered(ranges) && start <= end ==>
                (selected == Overlapping(ranges, start, end) <==>
                 NothingDropped(ranges, start, end) && NothingAdded(ranges, start, end))
    {
      hide Overlapping, NothingDropped, NothingAdded, Ordered, Found;
      if Ordered(ranges) && start <= end {
        SelectedIsExactIff(ranges, start, end);
      }
      var s := Search(start);
      var e := Search(end);
      if s == -1 && e == -1 {
        selected := [];
      } else if s == -1 {
        selected := Slice(ranges, 0, e + 1);
      } else if e == -1 {
        selected := Slice(ranges, s, |ranges|);
      } else {
        selected := Slice(ranges, s, e + 1);
      }
    }
  }

  // ---- The overlapping ranges ----

  /** The ranges that overlap a window, in order. */
  function Overlapping(ranges: seq<Range>, start: int, end: int): seq<Range> {
    if ranges == [] then []
    else
      var rest, last := Overlapping(ranges[..|ranges| - 1], start, end), ranges[|ranges| - 1];
      if Overlaps(last, start, end) then rest + [last] else rest
  }

  lemma {:induction false} OverlappingConcat(a: seq<Range>, b: seq<Range>, start: int, end: int)
    ensures Overlapping(a + b, start, end) == Overlapping(a, start, end) + Overlapping(b, start, end)
  {
    if b == [] {
      assert a + b == a;
    } else {
      var k := |b| - 1;
      assert (a + b)[..|a + b| - 1] == a + b[..k];
      OverlappingConcat(a, b[..k], start, end);
    }
  }

  lemma {:induction false} OverlappingMembers(ranges: seq<Range>, start: int, end: int)
    ensures forall r :: r in Overlapping(ranges, start, end) <==> r in ranges && Overlaps(r, start, end)
  {
    hide Overlaps;
    if ranges != [] {
      var k := |ranges| - 1;
      OverlappingMembers(ranges[..k], start, end);
      assert ranges == ranges[..k] + [ranges[k]];
    }
  }

  lemma {:induction false} AllOverlapping(ranges: seq<Range>, start: int, end: int)
    requires forall r | r in ranges :: Overlaps(r, start, end)
    ensures Overlapping(ranges, start, end) == ranges
  {
    hide Overlaps;
    if ranges != [] {
      var k := |ranges| - 1;
      assert ranges[k] in ranges;
      AllOverlapping(ranges[..k], start, end);
      assert ranges == ranges[..k] + [ranges[k]];
    }
  }

  lemma NoneOverlapping(ranges: seq<Range>, start: int, end: int)
    ensures Overlapping(ranges, start, end) == [] <==> forall r | r in ranges :: !Overlaps(r, start, end)
  {
    OverlappingMembers(ranges, start, end);
    if Overlapping(ranges, start, end) != [] {
      assert Overlapping(ranges, start, end)[0] in Overlapping(ranges, start, end);
    }
  }

  /** A stretch of the list is the list of overlapping ranges exactly when the overlapping ranges are those at its
      indices. */
  lemma StretchIsOverlappingIff(ranges: seq<Range>, start: int, end: int, lo: nat, hi: nat)
    requires lo <= hi <= |ranges|
    ensures Overlapping(ranges, start, end) == ranges[lo..hi] <==>
            forall i | 0 <= i < |ranges| :: Overlaps(ranges[i], start, end) <==> lo <= i < hi
  {
    hide Overlapping, Overlaps;
    var before, within, after := ranges[..lo], ranges[lo..hi], ranges[hi..];
    assert ranges == before + within + after;
    OverlappingConcat(before + within, after, start, end);
    OverlappingConcat(before, within, start, end);
    OverlappingMembers(ranges, start, end);
    NoneOverlapping(before, start, end);
    NoneOverlapping(after, start, end);
    if Overlapping(ranges, start, end) == within {
      AllOverlapping(within, start, end);
      assert |Overlapping(before, start, end)| + |Overlapping(after, start, end)| == 0;
      forall i | 0 <= i < |ranges| ensures Overlaps(ranges[i], start, end) <==> lo <= i < hi {
        if i < lo {
          assert before[i] in before;
        } else if i < hi {
          assert within[i - lo] in within;
        } else {
          assert after[i - hi] in after;
        }
      }
    }
    if forall i | 0 <= i < |ranges| :: Overlaps(ranges[i], start, end) <==> lo <= i < hi {
      assert Overlapping(before, start, end) == [] && Overlapping(after, start, end) == [];
      AllOverlapping(within, start, end);
    }
  }

  // ---- What the query misses and what it adds ----

  /** No overlapping range is dropped: none touches the window next to a range found for an endpoint, and when none
      is found for either endpoint, none lies in the window. */
  ghost predicate NothingDropped(ranges: seq<Range>, start: int, end: int) {
    var s, e := Found(ranges, start), Found(ranges, end);
    if s == -1 && e == -1 then
      forall i | 0 <= i < |ranges| :: ranges[i].end < start || end < ranges[i].start
    else
      && (s <= 0 || ranges[s - 1].end != start)
      && (e == -1 || e == |ranges| - 1 || ranges[e + 1].start != end)
  }

  /** No other range is added: an endpoint for which none is found lies beyond all the ranges. */
  ghost predicate NothingAdded(ranges: seq<Range>, start: int, end: int) {
    var s, e := Found(ranges, start), Found(ranges, end);
    (s == -1 && e == -1) ||
    ((s != -1 || start < ranges[0].start) && (e != -1 || ranges[|ranges| - 1].end < end))
  }

  lemma BoundsInOrder(ranges: seq<Range>, start: int, end: int)
    requires Ordered(ranges) && start <= end
    ensures Bounds(ranges, start, end).0 <= Bounds(ranges, start, end).1
  {
    var s, e := Found(ranges, start), Found(ranges, end);
    if s != -1 && e != -1 && start < end {
      assert s <= e;
    }
  }

  /** In ordered ranges, the query drops no overlapping range if and only if none touches the window beside the
      ranges found, or lies inside a window whose endpoints are in no range. */
  lemma DropsNothingIff(ranges: seq<Range>, start: int, end: int)
    requires Ordered(ranges) && start <= end
    ensures var b := Bounds(ranges, start, end);
            (forall i | 0 <= i < |ranges| && Overlaps(ranges[i], start, end) :: b.0 <= i < b.1) <==>
            NothingDropped(ranges, start, end)
  {
    hide Found, Ordered;
    FoundIff(ranges, start);
    FoundIff(ranges, end);
    var s, e := Found(ranges, start), Found(ranges, end);
    if s != -1 || e != -1 {
      forall i | 0 <= i < |ranges| && Overlaps(ranges[i], start, end)
        ensures s != -1 && i < s ==> ranges[s - 1].end == start
        ensures e != -1 && i > e ==> ranges[e + 1].start == end
      {
        TouchesBefore(ranges, start, end, s, i);
        TouchesAfter(ranges, start, end, e, i);
      }
      if s > 0 && ranges[s - 1].end == start {
        WellFormedAt(ranges, s - 1);
        assert Overlaps(ranges[s - 1], start, end);
      }
      if e != -1 && e < |ranges| - 1 && ranges[e + 1].start == end {
        WellFormedAt(ranges, e + 1);
        assert Overlaps(ranges[e + 1], start, end);
      }
    }
  }

  lemma WellFormedAt(ranges: seq<Range>, i: nat)
    requires Ordered(ranges) && i < |ranges|
    ensures ranges[i].start <= ranges[i].end
  {
  }

  lemma TouchesBefore(ranges: seq<Range>, start: int, end: int, s: int, i: nat)
    requires Ordered(ranges) && i < |ranges| && Overlaps(ranges[i], start, end)
    requires s == -1 || (0 <= s < |ranges| && Contains(ranges[s], start))
    ensures i < s ==> ranges[s - 1].end == start
  {
    if i < s {
      assert ranges[s - 1].end <= ranges[s].start <= start <= ranges[i].end;
      assert i < s - 1 ==> ranges[i].end <= ranges[s - 1].start;
    }
  }

  lemma TouchesAfter(ranges: seq<Range>, start: int, end: int, e: int, i: nat)
    requires Ordered(ranges) && i < |ranges| && Overlaps(ranges[i], start, end)
    requires e == -1 || (0 <= e < |ranges| && Contains(ranges[e], end))
    ensures e != -1 && e < i ==> ranges[e + 1].start == end
  {
    if e != -1 && e < i {
      assert end <= ranges[e].end <= ranges[e + 1].start;
      assert e + 1 < i ==> ranges[e + 1].end <= ranges[i].start;
    }
  }

  /** In ordered ranges, the query adds no other range if and only if each endpoint for which no range is found,
      when one is found for the other, lies beyond all the ranges. */
  lemma AddsNothingIff(ranges: seq<Range>, start: int, end: int)
    requires Ordered(ranges) && start <= end
    ensures var b := Bounds(ranges, start, end);
            (forall i | b.0 <= i < b.1 :: Overlaps(ranges[i], start, end)) <==> NothingAdded(ranges, start, end)
  {
    hide Found;
    FoundIff(ranges, start);
    FoundIff(ranges, end);
    BoundsInOrder(ranges, start, end);
    var b, s, e := Bounds(ranges, start, end), Found(ranges, start), Found(ranges, end);
    if s == -1 && e != -1 {
      assert !Contains(ranges[0], start) && b.0 == 0 < b.1;
    } else if s != -1 && e == -1 {
      assert !Contains(ranges[|ranges| - 1], end) && b.1 == |ranges| && s < b.1;
    }
  }

  /** In ordered ranges, the query is exactly the overlapping ranges if and only if it drops none and adds none. */
  lemma SelectedIsExactIff(ranges: seq<Range>, start: int, end: int)
    requires Ordered(ranges) && start <= end
    ensures Selected(ranges, start, end) == Overlapping(ranges, start, end) <==>
            NothingDropped(ranges, start, end) && NothingAdded(ranges, start, end)
  {
    hide NothingDropped, NothingAdded, Overlaps, Overlapping, Found, Ordered, Bounds;
    var b := Bounds(ranges, start, end);
    BoundsInOrder(ranges, start, end);
    DropsNothingIff(ranges, start, end);
    AddsNothingIff(ranges, start, end);
    StretchIsOverlappingIff(ranges, start, end, b.0, b.1);
    assert Selected(ranges, start, end) == ranges[b.0..b.1];
  }

  /** With strictly separated ranges and both endpoints in ranges, the query is exact; with one of them in a range
      it still drops nothing. */
  lemma SeparatedRangesAreCovered(ranges: seq<Range>, start: int, end: int)
    requires Disjoint(ranges) && start <= end
    ensures InSome(ranges, start) || InSome(ranges, end) ==>
              forall r | r in ranges && Overlaps(r, start, end) :: r in Selected(ranges, start, end)
    ensures InSome(ranges, start) && InSome(ranges, end) ==>
              Selected(ranges, start, end) == Overlapping(ranges, start, end)
  {
    hide Found, Overlapping;
    FoundIff(ranges, start);
    FoundIff(ranges, end);
    var b := Bounds(ranges, start, end);
    if InSome(ranges, start) || InSome(ranges, end) {
      SeparatedDropsNothing(ranges, start, end);
      DropsNothingIff(ranges, start, end);
      forall r | r in ranges && Overlaps(r, start, end) ensures r in Selected(ranges, start, end) {
        var i :| 0 <= i < |ranges| && ranges[i] == r;
        assert Selected(ranges, start, end)[i - b.0] == r;
      }
      SelectedIsExactIff(ranges, start, end);
    }
  }

  lemma SeparatedDropsNothing(ranges: seq<Range>, start: int, end: int)
    requires Disjoint(ranges) && (Found(ranges, start) != -1 || Found(ranges, end) != -1)
    ensures NothingDropped(ranges, start, end)
  {
    var s, e := Found(ranges, start), Found(ranges, end);
    assert s > 0 ==> ranges[s - 1].end < ranges[s].start;
    assert e != -1 && e < |ranges| - 1 ==> ranges[e].end < ranges[e + 1].start;
  }

  /** No two ranges hold the key, as they can only where they touch. */
  ghost predicate InAtMostOne(ranges: seq<Range>, key: int) {
    forall i, j | 0 <= i < j < |ranges| :: !(Contains(ranges[i], key) && Contains(ranges[j], key))
  }

  lemma DisjointInAtMostOne(ranges: seq<Range>, key: int)
    requires Disjoint(ranges)
    ensures Ordered(ranges) && InAtMostOne(ranges, key)
  {
  }

  /** The condition in terms of the window and the ranges alone: with one endpoint in a range the other is in one or
      beyond them all, and with neither in a range no range overlaps the window. */
  ghost predicate FitsWindow(ranges: seq<Range>, start: int, end: int) {
    if InSome(ranges, start) || InSome(ranges, end) then
      && (InSome(ranges, start) || forall i | 0 <= i < |ranges| :: start < ranges[i].start)
      && (InSome(ranges, end) || forall i | 0 <= i < |ranges| :: ranges[i].end < end)
    else
      forall i | 0 <= i < |ranges| :: !Overlaps(ranges[i], start, end)
  }

  /** A range found is the only one that holds its endpoint, so no neighbour touches the window there. */
  lemma NoNeighbourTouches(ranges: seq<Range>, start: int, end: int)
    requires Ordered(ranges) && InAtMostOne(ranges, start) && InAtMostOne(ranges, end)
    requires Found(ranges, start) != -1 || Found(ranges, end) != -1
    ensures NothingDropped(ranges, start, end)
  {
    hide Found;
    var s, e := Found(ranges, start), Found(ranges, end);
    assert s > 0 ==> !Contains(ranges[s - 1], start) && ranges[s - 1].start <= ranges[s - 1].end;
    assert e != -1 && e < |ranges| - 1 ==>
        !Contains(ranges[e + 1], end) && ranges[e + 1].start <= ranges[e + 1].end;
  }

  lemma BeyondAll(ranges: seq<Range>, key: int)
    requires Ordered(ranges) && ranges != []
    ensures key < ranges[0].start <==> forall i | 0 <= i < |ranges| :: key < ranges[i].start
    ensures ranges[|ranges| - 1].end < key <==> forall i | 0 <= i < |ranges| :: ranges[i].end < key
  {
    var k := |ranges| - 1;
    forall i | 0 <= i < |ranges| ensures ranges[0].start <= ranges[i].start && ranges[i].end <= ranges[k].end {
      WellFormedAt(ranges, i);
      WellFormedAt(ranges, 0);
      WellFormedAt(ranges, k);
    }
  }

  /** In ordered ranges, when no endpoint lies where two ranges touch, the query is exactly the overlapping ranges if
      and only if the window fits. */
  lemma SelectedIsExactIffFits(ranges: seq<Range>, start: int, end: int)
    requires Ordered(ranges) && start <= end && InAtMostOne(ranges, start) && InAtMostOne(ranges, end)
    ensures Selected(ranges, start, end) == Overlapping(ranges, start, end) <==> FitsWindow(ranges, start, end)
  {
    hide Found, Overlapping, Selected, InSome, InAtMostOne, Ordered;
    FoundIff(ranges, start);
    FoundIff(ranges, end);
    SelectedIsExactIff(ranges, start, end);
    if Found(ranges, start) != -1 || Found(ranges, end) != -1 {
      hide NothingDropped;
      NoNeighbourTouches(ranges, start, end);
      BeyondAll(ranges, start);
      BeyondAll(ranges, end);
    }
  }

  /** Strictly separated ranges touch nowhere. */
  lemma SeparatedIsExactIffFits(ranges: seq<Range>, start: int, end: int)
    requires Disjoint(ranges) && start <= end
    ensures Selected(ranges, start, end) == Overlapping(ranges, start, end) <==> FitsWindow(ranges, start, end)
  {
    DisjointInAtMostOne(ranges, start);
    DisjointInAtMostOne(ranges, end);
    SelectedIsExactIffFits(ranges, start, end);
  }

  /** A window between two points outside all ranges misses the range it holds. */
  lemma QueryCanMissRange(r: Range, start: int, end: int)
    requires start < r.start <= r.end < end
    ensures Selected([r], start, end) == [] && Overlapping([r], start, end) == [r]
  {
    assert [r][..0] == [];
    assert Probe([r], start, 0, 0) == -1 && Probe([r], end, 0, 0) == -1;
  }

  /** Of three ranges that touch, a window that starts where the first ends is searched from the middle one. */
  lemma QueryCanDropTouchingRange(a: Range, b: Range, c: Range)
    requires a.start < a.end == b.start < b.end == c.start < c.end
    ensures Ordered([a, b, c]) && Overlaps(a, b.start, b.end - 1) && Selected([a, b, c], b.start, b.end - 1) == [b]
  {
    var ranges := [a, b, c];
    assert Found(ranges, b.start) == 1 && Found(ranges, b.end - 1) == 1;
    assert ranges[1..2] == [b];
  }

  // ---- Events ----

  datatype Event = Event(at: int, value: string)

  ghost predicate Sorted(events: seq<Event>) {
    forall i, j | 0 <= i < j < |events| :: events[i].at <= events[j].at
  }

  ghost predicate Increasing(events: seq<Event>) {
    forall i, j | 0 <= i < j < |events| :: events[i].at < events[j].at
  }

  ghost predicate HappensAt(events: seq<Event>, at: int) {
    exists i :: 0 <= i < |events| && events[i].at == at
  }

  /** What halving the indices from l to u finds: an event at the time, or where one would be inserted. */
  function ProbeEvent(events: seq<Event>, key: int, l: nat, u: int): (index: nat)
    requires l <= u + 1 <= |events|
    ensures l <= index <= u + 1
    decreases u + 1 - l
  {
    if l > u then l
    else
      var i := (l + u) / 2;
      if key == events[i].at then i
      else if key < events[i].at then ProbeEvent(events, key, l, i - 1)
      else ProbeEvent(events, key, i + 1, u)
  }

  function FoundEvent(events: seq<Event>, key: int): (index: nat)
    ensures index <= |events|
  {
    ProbeEvent(events, key, 0, |events| - 1)
  }

  /** The events below one index are before the key and those from another on are after it. */
  ghost predicate Splits(events: seq<Event>, key: int, l: nat, h: nat) {
    && (forall i | 0 <= i < l && i < |events| :: events[i].at < key)
    && (forall i | h <= i < |events| :: key < events[i].at)
  }

  lemma SplitsCloser(events: seq<Event>, key: int, l: nat, h: nat, i: nat)
    requires Sorted(events) && Splits(events, key, l, h) && i < |events|
    ensures key < events[i].at ==> Splits(events, key, l, i)
    ensures events[i].at < key ==> Splits(events, key, i + 1, h)
  {
  }

  lemma {:induction false} ProbeEventMeans(events: seq<Event>, key: int, l: nat, u: int)
    requires Sorted(events) && l <= u + 1 <= |events|
    requires Splits(events, key, l, u + 1)
    ensures var r := ProbeEvent(events, key, l, u);
            (r < |events| && events[r].at == key) || Splits(events, key, r, r)
    decreases u + 1 - l
  {
    hide Sorted, Splits;
    if l <= u {
      var i := (l + u) / 2;
      SplitsCloser(events, key, l, u + 1, i);
      if key < events[i].at {
        ProbeEventMeans(events, key, l, i - 1);
      } else if events[i].at < key {
        ProbeEventMeans(events, key, i + 1, u);
      }
    }
  }

  /** The number of events before a time. */
  /** The event in the middle, the lower of the two in an even number, is tried first. */
  lemma MiddleEventFirst(events: seq<Event>, key: int)
    requires events != [] && events[(|events| - 1) / 2].at == key
    ensures FoundEvent(events, key) == (|events| - 1) / 2
  {
  }

  lemma ProbeEventStep(events: seq<Event>, key: int, l: nat, u: int)
    requires l <= u + 1 <= |events|
    ensures ProbeEvent(events, key, l, u) ==
            if l > u then l
            else
              var i := (l + u) / 2;
              if key == events[i].at then i
              else if key < events[i].at then ProbeEvent(events, key, l, i - 1)
              else ProbeEvent(events, key, i + 1, u)
  {
  }

  lemma FoundEventBelow(events: seq<Event>, key: int, n: nat)
    requires n <= |events|
    ensures ProbeEvent(events, key, 0, n - 1) == FoundEvent(events[..n], key)
  {
    hide ProbeEvent;
    ProbeEventShift(events[..n], events, key, 0, 0, n - 1);
  }

  lemma FoundEventAbove(events: seq<Event>, key: int, n: nat)
    requires n <= |events|
    ensures ProbeEvent(events, key, n, |events| - 1) == n + FoundEvent(events[n..], key)
  {
    hide ProbeEvent;
    ProbeEventShift(events[n..], events, key, n, 0, |events| - n - 1);
  }

  lemma FoundEventStep(events: seq<Event>, key: int)
    requires events != []
    ensures var middle := (|events| - 1) / 2;
            FoundEvent(events, key) ==
            if events[middle].at == key then middle
            else if key < events[middle].at then ProbeEvent(events, key, 0, middle - 1)
            else ProbeEvent(events, key, middle + 1, |events| - 1)
  {
    hide ProbeEvent;
    ProbeEventStep(events, key, 0, |events| - 1);
  }

  lemma {:induction false} ProbeEventShift(part: seq<Event>, events: seq<Event>, key: int, offset: nat, l: nat, u: int)
    requires l <= u + 1 <= |part| && offset + |part| <= |events|
    requires forall i | 0 <= i < |part| :: part[i] == events[offset + i]
    ensures ProbeEvent(events, key, offset + l, offset + u) == offset + ProbeEvent(part, key, l, u)
    decreases u + 1 - l
  {
    hide ProbeEvent;
    ProbeEventStep(part, key, l, u);
    ProbeEventStep(events, key, offset + l, offset + u);
    if l <= u {
      var i := (l + u) / 2;
      assert ((offset + l) + (offset + u)) / 2 == offset + i && events[offset + i] == part[i];
      if key == part[i].at {
      } else if key < part[i].at {
        ProbeEventShift(part, events, key, offset, l, i - 1);
      } else {
        ProbeEventShift(part, events, key, offset, i + 1, u);
      }
    }
  }

  /** Where the middle event is not at the key, the search goes on in the half on the side of the key alone. */
  lemma HalvesEvents(events: seq<Event>, key: int)
    requires events != [] && events[(|events| - 1) / 2].at != key
    ensures var middle := (|events| - 1) / 2;
            FoundEvent(events, key) ==
            if key < events[middle].at then FoundEvent(events[..middle], key)
            else middle + 1 + FoundEvent(events[middle + 1..], key)
  {
    var middle := (|events| - 1) / 2;
    hide ProbeEvent, FoundEvent;
    FoundEventStep(events, key);
    FoundEventBelow(events, key, middle);
    FoundEventAbove(events, key, middle + 1);
  }

  function CountBefore(events: seq<Event>, key: int): nat {
    if events == [] then 0
    else CountBefore(events[..|events| - 1], key) + if events[|events| - 1].at < key then 1 else 0
  }

  lemma {:induction false} CountBeforeMeans(events: seq<Event>, key: int)
    requires Sorted(events)
    ensures CountBefore(events, key) <= |events|
    ensures forall i | 0 <= i < |events| :: events[i].at < key <==> i < CountBefore(events, key)
  {
    if events != [] {
      CountBeforeMeans(events[..|events| - 1], key);
    }
  }

  /** In sorted events the search finds an event at the time, if there is one, and otherwise the number of events
      before it. */
  lemma FoundEventMeans(events: seq<Event>, key: int)
    requires Sorted(events)
    ensures var r := FoundEvent(events, key);
            if HappensAt(events, key) then r < |events| && events[r].at == key else r == CountBefore(events, key)
    ensures CountBefore(events, key) <= FoundEvent(events, key)
  {
    var r := FoundEvent(events, key);
    ProbeEventMeans(events, key, 0, |events| - 1);
    CountBeforeMeans(events, key);
    if !HappensAt(events, key) {
      assert r < |events| ==> !(events[r].at < key);
      assert r > 0 ==> events[r - 1].at < key;
    }
  }

  class TimelineEvent {
    var events: seq<Event>

    constructor ()
      ensures events == []
    {
      events := [];
    }

    method AddEvent(event: Event)
      modifies this
      ensures events == old(events) + [event]
    {
      events := events + [event];
    }

    /** Binary search for an event at a time, or for where it would be inserted. */
    method Search(key: int) returns (index: nat)
      ensures index == FoundEvent(events, key)
      ensures Sorted(events) ==>
                if HappensAt(events, key) then index < |events| && events[index].at == key
                else index == CountBefore(events, key)
    {
      hide Sorted, HappensAt, CountBefore;
      if Sorted(events) {
        FoundEventMeans(events, key);
      }
      var l, u := 0, |events| - 1;
      while l <= u
        invariant 0 <= l <= u + 1 <= |events|
        invariant FoundEvent(events, key) == ProbeEvent(events, key, l, u)
        decreases u - l
      {
        var i := (l + u) / 2;
        if key == events[i].at {
          return i;
        } else if key < events[i].at {
          u := i - 1;
        } else {
          l := i + 1;
        }
      }
      return l;
    }

    /** The bounds of a window: with distinct event times they delimit its events and the next one. */
    method GetEventsBounds(start: int, end: int) returns (bounds: (nat, nat))
      ensures bounds == (FoundEvent(events, start), FoundEvent(events, end) + 1)
      ensures Increasing(events) && start <= end ==>
                Slice(events, bounds.0, bounds.1) == WindowAndNext(events, start, end)
    {
      hide Increasing, WindowAndNext, FoundEvent;
      if Increasing(events) && start <= end {
        EventsInWindow(events, start, end);
      }
      var s := Search(start);
      var e := Search(end);
      bounds := (s, e + 1);
    }

    /** The events of a window and the next one, when the event times are distinct. */
    method GetEvents(start: int, end: int) returns (selected: seq<Event>)
      ensures selected == SelectedEvents(events, start, end)
      ensures Increasing(events) && start <= end ==> selected == WindowAndNext(events, start, end)
    {
      hide Increasing, WindowAndNext, FoundEvent;
      if Increasing(events) && start <= end {
        EventsInWindow(events, start, end);
      }
      var s := Search(start);
      var e := Search(end);
      selected := Slice(events, s, e + 1);
    }
  }

  function SelectedEvents(events: seq<Event>, start: int, end: int): seq<Event> {
    Slice(events, FoundEvent(events, start), FoundEvent(events, end) + 1)
  }

  /** The events of a window, in order. */
  function Within(events: seq<Event>, start: int, end: int): seq<Event> {
    if events == [] then []
    else
      var rest, last := Within(events[..|events| - 1], start, end), events[|events| - 1];
      if start <= last.at <= end then rest + [last] else rest
  }

  lemma {:induction false} WithinIsSlice(events: seq<Event>, start: int, end: int, lo: nat, hi: nat)
    requires lo <= hi <= |events|
    requires forall i | 0 <= i < |events| :: start <= events[i].at <= end <==> lo <= i < hi
    ensures Within(events, start, end) == events[lo..hi]
  {
    if events != [] {
      var k := |events| - 1;
      var rest := events[..k];
      if hi <= k {
        WithinIsSlice(rest, start, end, lo, hi);
        assert events[lo..hi] == rest[lo..hi];
      } else if lo <= k {
        WithinIsSlice(rest, start, end, lo, k);
        assert events[lo..hi] == rest[lo..k] + [events[k]];
      } else {
        WithinIsSlice(rest, start, end, k, k);
      }
    }
  }

  lemma {:induction false} CountsGrow(events: seq<Event>, a: int, b: int)
    requires a <= b
    ensures CountBefore(events, a) <= CountBefore(events, b)
  {
    if events != [] {
      CountsGrow(events[..|events| - 1], a, b);
    }
  }

  /** What the query should return: every event of the window in order, and after them the first later event when
      there is one and no event lies exactly at the end. */
  function WindowAndNext(events: seq<Event>, start: int, end: int): seq<Event> {
    var after := CountBefore(events, end + 1);
    Within(events, start, end) + if CountBefore(events, end) == after < |events| then [events[after]] else []
  }

  /** Where a search for the end of a window can land in sorted events. */
  lemma EndOfWindow(events: seq<Event>, end: int)
    requires Sorted(events)
    ensures var e, after := FoundEvent(events, end), CountBefore(events, end + 1);
            && (HappensAt(events, end) <==> CountBefore(events, end) != after)
            && (if HappensAt(events, end) then e < after else e == after)
  {
    FoundEventMeans(events, end);
    CountBeforeMeans(events, end);
    CountBeforeMeans(events, end + 1);
    CountsGrow(events, end, end + 1);
    if CountBefore(events, end) < CountBefore(events, end + 1) {
      assert events[CountBefore(events, end)].at == end;
    }
  }

  /** In sorted events the query is that list if and only if the search for the start lands on the first event at
      its time and the search for the end on the last: an event at the time of an endpoint is dropped
      exactly when the search lands on another one at that time. */
  lemma EventsInWindowIff(events: seq<Event>, start: int, end: int)
    requires Sorted(events) && start <= end
    ensures SelectedEvents(events, start, end) == WindowAndNext(events, start, end) <==>
            && FoundEvent(events, start) == CountBefore(events, start)
            && (HappensAt(events, end) ==> FoundEvent(events, end) + 1 == CountBefore(events, end + 1))
  {
    hide FoundEvent, WindowAndNext, CountBefore, Sorted, HappensAt;
    var s, e, first := FoundEvent(events, start), FoundEvent(events, end), CountBefore(events, start);
    FoundEventMeans(events, start);
    EndOfWindow(events, end);
    StartBeforeEnd(events, start, end);
    var hi := if e < |events| then e + 1 else e;
    assert SelectedEvents(events, start, end) == events[s..hi];
    var wanted := WantedSlice(events, start, end);
    assert first <= s && hi <= wanted;
    if events[s..hi] == events[first..wanted] {
      assert hi - s == wanted - first;
    }
  }

  lemma WantedSlice(events: seq<Event>, start: int, end: int) returns (hi: nat)
    requires Sorted(events) && start <= end
    ensures CountBefore(events, start) <= hi <= |events|
    ensures WindowAndNext(events, start, end) == events[CountBefore(events, start)..hi]
    ensures var after := CountBefore(events, end + 1);
            hi == if HappensAt(events, end) || after == |events| then after else after + 1
    ensures CountBefore(events, end + 1) <= |events|
  {
    hide FoundEvent, Within;
    var first, after := CountBefore(events, start), CountBefore(events, end + 1);
    CountBeforeMeans(events, start);
    CountBeforeMeans(events, end + 1);
    CountsGrow(events, start, end + 1);
    WithinIsSlice(events, start, end, first, after);
    EndOfWindow(events, end);
    hi := if HappensAt(events, end) || after == |events| then after else after + 1;
  }

  lemma StartBeforeEnd(events: seq<Event>, start: int, end: int)
    requires Sorted(events) && start <= end
    ensures FoundEvent(events, start) <= FoundEvent(events, end)
  {
    if start < end {
      CountsGrow(events, start + 1, end);
      EndOfWindow(events, start);
      FoundEventMeans(events, end);
    }
  }

  /** With distinct event times the query is always that list. */
  lemma EventsInWindow(events: seq<Event>, start: int, end: int)
    requires Increasing(events) && start <= end
    ensures SelectedEvents(events, start, end) == WindowAndNext(events, start, end)
  {
    hide FoundEvent, WindowAndNext, Within;
    LandsOnOnly(events, start);
    LandsOnOnly(events, end);
    EventsInWindowIff(events, start, end);
  }

  lemma LandsOnOnly(events: seq<Event>, key: int)
    requires Increasing(events)
    ensures FoundEvent(events, key) == CountBefore(events, key)
    ensures HappensAt(events, key) ==> FoundEvent(events, key) + 1 == CountBefore(events, key + 1)
  {
    hide FoundEvent;
    FoundEventMeans(events, key);
    EndOfWindow(events, key);
    CountBeforeMeans(events, key);
    CountBeforeMeans(events, key + 1);
    if HappensAt(events, key) {
      var r := FoundEvent(events, key);
      assert r > 0 ==> events[r - 1].at < key;
      assert r + 1 < |events| ==> key < events[r + 1].at;
    }
  }
}
