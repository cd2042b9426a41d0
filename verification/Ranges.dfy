/** The interval list that records which bytes of a message have arrived
    (src/protocol/someip_tp.cpp AddCoveredRange, and the Python _add_range). */
module Ranges {

  /** A half-open interval [first, second). */
  datatype Range = Range(first: nat, second: nat)

  predicate Within(r: Range, i: nat) { r.first <= i < r.second }

  /** Index i lies in one of the intervals. */
  predicate Covers(rs: seq<Range>, i: nat) {
    rs != [] && (Within(rs[|rs| - 1], i) || Covers(rs[..|rs| - 1], i))
  }

  /** Non-empty intervals in increasing order with a gap between any two. */
  ghost predicate Separated(rs: seq<Range>) {
    && (forall k :: 0 <= k < |rs| ==> rs[k].first < rs[k].second)
    && (forall j, k :: 0 <= j < k < |rs| ==> rs[j].second < rs[k].first)
  }

  /** std::pair order. */
  predicate NotAfter(a: Range, b: Range) {
    a.first < b.first || (a.first == b.first && a.second <= b.second)
  }

  ghost predicate Sorted(rs: seq<Range>) {
    forall j, k :: 0 <= j < k < |rs| ==> NotAfter(rs[j], rs[k])
  }

  function Insert(rs: seq<Range>, r: Range): (s: seq<Range>)
    ensures |s| == |rs| + 1
  {
    if rs == [] || NotAfter(rs[|rs| - 1], r) then rs + [r]
    else Insert(rs[..|rs| - 1], r) + [rs[|rs| - 1]]
  }

  /** What std::sort must return: NotAfter is a total order, so the sorted
      arrangement of a vector of pairs is unique. */
  function Sort(rs: seq<Range>): (s: seq<Range>)
    ensures |s| == |rs|
  {
    if rs == [] then [] else Insert(Sort(rs[..|rs| - 1]), rs[|rs| - 1])
  }

  lemma CoversSnoc(rs: seq<Range>, r: Range, i: nat)
    ensures Covers(rs + [r], i) <==> Covers(rs, i) || Within(r, i)
  {
    assert (rs + [r])[..|rs|] == rs;
  }

  lemma {:induction false} CoversIff(rs: seq<Range>, i: nat)
    ensures Covers(rs, i) <==> exists k :: 0 <= k < |rs| && Within(rs[k], i)
  {
    if rs != [] {
      var init := rs[..|rs| - 1];
      CoversIff(init, i);
      if Covers(init, i) {
        var k :| 0 <= k < |init| && Within(init[k], i);
        assert Within(rs[k], i);
      }
      if k :| 0 <= k < |rs| && Within(rs[k], i) {
        assert k < |init| ==> Within(init[k], i);
      }
    }
  }

  lemma {:induction false} InsertCovers(rs: seq<Range>, r: Range, i: nat)
    ensures Covers(Insert(rs, r), i) <==> Covers(rs, i) || Within(r, i)
  {
    if rs == [] || NotAfter(rs[|rs| - 1], r) {
      CoversSnoc(rs, r, i);
    } else {
      InsertCovers(rs[..|rs| - 1], r, i);
      CoversSnoc(Insert(rs[..|rs| - 1], r), rs[|rs| - 1], i);
    }
  }

  lemma {:induction false} InsertSorted(rs: seq<Range>, r: Range)
    requires Sorted(rs)
    ensures Sorted(Insert(rs, r))
    ensures forall k :: 0 <= k <= |rs| ==> Insert(rs, r)[k] == r || Insert(rs, r)[k] in rs
  {
    if rs == [] || NotAfter(rs[|rs| - 1], r) {
    } else {
      var init := rs[..|rs| - 1];
      InsertSorted(init, r);
      forall k | 0 <= k <= |init| ensures NotAfter(Insert(init, r)[k], rs[|rs| - 1]) {
        assert Insert(init, r)[k] == r || Insert(init, r)[k] in init;
      }
    }
  }

  lemma {:induction false} SortCovers(rs: seq<Range>, i: nat)
    ensures Covers(Sort(rs), i) <==> Covers(rs, i)
  {
    if rs != [] {
      SortCovers(rs[..|rs| - 1], i);
      InsertCovers(Sort(rs[..|rs| - 1]), rs[|rs| - 1], i);
    }
  }

  lemma {:induction false} SortSorts(rs: seq<Range>)
    ensures Sorted(Sort(rs))
    ensures forall r :: r in Sort(rs) ==> r in rs
  {
    if rs != [] {
      SortSorts(rs[..|rs| - 1]);
      InsertSorted(Sort(rs[..|rs| - 1]), rs[|rs| - 1]);
    }
  }

  /** AddCoveredRange: append, sort, merge. The result is again separated and
      covers exactly the old indices and the new interval. */
  method AddRange(old_ranges: seq<Range>, begin: nat, end: nat) returns (merged: seq<Range>)
    requires Separated(old_ranges) && begin < end
    ensures Separated(merged)
    ensures forall i: nat :: Covers(merged, i) <==> Covers(old_ranges, i) || begin <= i < end
  {
    var ranges := old_ranges + [Range(begin, end)];
    ghost var before := ranges;
    ranges := Sort(ranges);
    SortSorts(before);
    assert forall r :: r in ranges ==> r.first < r.second;
    merged := [];
    for n := 0 to |ranges|
      invariant Separated(merged)
      invariant n == 0 <==> merged == []
      invariant n > 0 ==> merged[|merged| - 1].first <= ranges[n - 1].first
      invariant forall i: nat :: Covers(merged, i) <==> Covers(ranges[..n], i)
    {
      ghost var was := merged;
      var range := ranges[n];
      if merged == [] || range.first > merged[|merged| - 1].second {
        merged := merged + [range];
      } else {
        var last := merged[|merged| - 1];
        merged := merged[..|merged| - 1] + [Range(last.first, if last.second < range.second then range.second else last.second)];
      }
      assert ranges[..n + 1] == ranges[..n] + [range];
      forall i: nat ensures Covers(merged, i) <==> Covers(ranges[..n + 1], i) {
        CoversSnoc(ranges[..n], range, i);
        assert Covers(was, i) <==> Covers(ranges[..n], i);
        if |merged| > |was| {
          CoversSnoc(was, range, i);
        } else {
          CoversSnoc(was[..|was| - 1], merged[|merged| - 1], i);
        }
      }
    }
    assert ranges[..|ranges|] == ranges;
    forall i: nat ensures Covers(merged, i) <==> Covers(old_ranges, i) || begin <= i < end {
      SortCovers(before, i);
      CoversSnoc(old_ranges, Range(begin, end), i);
    }
  }

  /** The list is a canonical form: the covered set determines it. */
  lemma {:induction false} SeparatedUnique(a: seq<Range>, b: seq<Range>)
    requires Separated(a) && Separated(b)
    requires forall i: nat :: Covers(a, i) <==> Covers(b, i)
    ensures a == b
    decreases |a|
  {
    if a == [] || b == [] {
      if a != [] { assert Covers(a, a[|a| - 1].first); }
      if b != [] { assert Covers(b, b[|b| - 1].first); }
    } else {
      var la, lb := a[|a| - 1], b[|b| - 1];
      LastBounds(a);
      LastBounds(b);
      assert Within(la, la.second - 1) && Covers(a, la.second - 1);
      assert Within(lb, lb.second - 1) && Covers(b, lb.second - 1);
      assert la.second == lb.second;
      LastFirst(a, b);
      LastFirst(b, a);
      var ia, ib := a[..|a| - 1], b[..|b| - 1];
      forall i: nat ensures Covers(ia, i) <==> Covers(ib, i) {
        assert Covers(a, i) <==> Covers(b, i);
        InitBelow(a, i);
        InitBelow(b, i);
      }
      SeparatedUnique(ia, ib);
      assert a == ia + [la] && b == ib + [lb];
    }
  }

  lemma LastBounds(rs: seq<Range>)
    requires Separated(rs) && rs != []
    ensures forall i: nat :: Covers(rs, i) ==> i < rs[|rs| - 1].second
  {
    forall i: nat | Covers(rs, i) ensures i < rs[|rs| - 1].second { CoversIff(rs, i); }
  }

  lemma LastFirst(a: seq<Range>, b: seq<Range>)
    requires Separated(a) && Separated(b) && a != [] && b != []
    requires forall i: nat :: Covers(a, i) <==> Covers(b, i)
    requires a[|a| - 1].second == b[|b| - 1].second
    ensures a[|a| - 1].first >= b[|b| - 1].first
  {
    var i := b[|b| - 1].first - 1;
    if a[|a| - 1].first <= i {
      assert Within(a[|a| - 1], i);
      LastGap(b);
    }
  }

  lemma LastGap(rs: seq<Range>)
    requires Separated(rs) && rs != [] && rs[|rs| - 1].first > 0
    ensures !Covers(rs, rs[|rs| - 1].first - 1)
  {
    CoversIff(rs, rs[|rs| - 1].first - 1);
  }

  /** The indices just outside an interval are in no interval. */
  lemma NotCovered(rs: seq<Range>, m: nat, i: nat)
    requires Separated(rs) && m < |rs|
    requires i + 1 == rs[m].first || i == rs[m].second
    ensures !Covers(rs, i)
  {
    CoversIff(rs, i);
    if k :| 0 <= k < |rs| && Within(rs[k], i) {
      assert false;
    }
  }

  lemma InitBelow(rs: seq<Range>, i: nat)
    requires Separated(rs) && rs != []
    ensures Covers(rs[..|rs| - 1], i) <==> Covers(rs, i) && i < rs[|rs| - 1].first
  {
    CoversIff(rs[..|rs| - 1], i);
    if Covers(rs[..|rs| - 1], i) {
      var k :| 0 <= k < |rs| - 1 && Within(rs[..|rs| - 1][k], i);
      assert rs[k].second < rs[|rs| - 1].first;
    }
  }

  ghost predicate AllCovered(rs: seq<Range>, size: nat) {
    forall i: nat :: i < size ==> Covers(rs, i)
  }

  /** IsFullyCovered tests one interval only, and that is enough. */
  lemma FullyCoveredIff(rs: seq<Range>, size: nat)
    requires Separated(rs) && size > 0
    requires forall i: nat :: Covers(rs, i) ==> i < size
    ensures (|rs| == 1 && rs[0].first == 0 && rs[0].second >= size) <==> AllCovered(rs, size)
  {
    if |rs| == 1 && rs[0].first == 0 && rs[0].second >= size {
      forall i: nat | i < size ensures Covers(rs, i) { assert Within(rs[0], i); }
    } else if AllCovered(rs, size) {
      var whole := [Range(0, size)];
      forall i: nat ensures Covers(rs, i) <==> Covers(whole, i) { assert Within(Range(0, size), i) <==> i < size; }
      SeparatedUnique(rs, whole);
      assert false;
    }
  }
}
