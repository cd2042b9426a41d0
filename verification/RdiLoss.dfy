/** RDI slot-loss accounting from the 32-bit E2E counter (TrackRdiLoss in
    src/afi_sdk.cpp). */
module RdiLoss {

  const WRAP := 0x1_0000_0000
  const HALF := 0x8000_0000

  /** total and lost are 32-bit statistics; last is meaningless while first. */
  datatype Loss = Loss(first: bool, last: nat, total: nat, lost: nat)

  const FRESH := Loss(true, 0, 0, 0)

  /** Unsigned 32-bit difference. */
  function Delta(counter: nat, last: nat): nat { (counter - last) % WRAP }

  function Track(s: Loss, counter: nat): Loss {
    var total := (s.total + 1) % WRAP;
    if s.first then Loss(false, counter, total, s.lost)
    else
      var delta := Delta(counter, s.last);
      Loss(false, counter, total, if 1 < delta < HALF then (s.lost + delta - 1) % WRAP else s.lost)
  }

  /** Who counts as lost, on 32-bit counters: the slots skipped by a counter that
      is 2 to 2^31-1 ahead, across the wrap or not; nothing for the next one, a
      repeat, or a counter 1 to 2^31 behind. */
  lemma TrackWrittenOut(s: Loss, counter: nat)
    requires s.last <= 4294967295 && counter <= 4294967295
    ensures var after := Track(s, counter);
            && !after.first && after.last == counter && after.total == (s.total + 1) % 4294967296
            && (s.first ==> after.lost == s.lost)
            && (!s.first && 2 <= counter - s.last <= 2147483647 ==>
                  after.lost == (s.lost + (counter - s.last) - 1) % 4294967296)
            && (!s.first && 2147483649 <= s.last - counter && !(counter == 0 && s.last == 4294967295) ==>
                  after.lost == (s.lost + (4294967296 + counter - s.last) - 1) % 4294967296)
            && (0 <= s.last - counter <= 2147483648 ==> after.lost == s.lost)
            && (counter - s.last >= 2147483648 ==> after.lost == s.lost)
            && (counter == s.last + 1 || (counter == 0 && s.last == 4294967295) ==> after.lost == s.lost)
  {
    Ahead(s.last, counter);
  }

  lemma Ahead(last: nat, counter: nat)
    requires last <= 4294967295 && counter <= 4294967295
    ensures Delta(counter, last) == if last <= counter then counter - last else 4294967296 + counter - last
  {
  }

  function TrackAll(s: Loss, counters: seq<nat>): Loss {
    if counters == [] then s else Track(TrackAll(s, counters[..|counters| - 1]), counters[|counters| - 1])
  }

  /** The slot numbers a sender really used: increasing, fewer than 2^31 apart. */
  ghost predicate Slots(slots: seq<nat>) {
    forall i :: 0 <= i < |slots| - 1 ==> 0 < slots[i + 1] - slots[i] < HALF
  }

  function OnWire(slots: seq<nat>): seq<nat> {
    seq(|slots|, i requires 0 <= i < |slots| => slots[i] % WRAP)
  }

  lemma WrappedDelta(a: nat, b: nat)
    requires a <= b < a + WRAP
    ensures Delta(b % WRAP, a % WRAP) == b - a
  {
  }

  lemma AddWrapped(x: int, y: int, z: int)
    requires x % WRAP == y % WRAP
    ensures (x + z) % WRAP == (y + z) % WRAP
  {
  }

  /** Slots lost inside a run, counted without wraparound. */
  function GapSum(counters: seq<nat>): nat {
    if |counters| <= 1 then 0
    else
      var delta := Delta(counters[|counters| - 1], counters[|counters| - 2]);
      GapSum(counters[..|counters| - 1]) + if 1 < delta < HALF then delta - 1 else 0
  }

  /** Every run: the two statistics are the number of frames and the sum of
      the gaps; repeats and steps back contribute no gap. */
  lemma {:induction false} Statistics(counters: seq<nat>)
    ensures var s := TrackAll(FRESH, counters);
      && s.total == |counters| % WRAP && s.lost == GapSum(counters) % WRAP
      && (s.first <==> counters == [])
      && (counters != [] ==> s.last == counters[|counters| - 1])
  {
    if counters != [] {
      var init := counters[..|counters| - 1];
      Statistics(init);
      var s := TrackAll(FRESH, init);
      AddWrapped(s.total, |init|, 1);
      AddWrapped(s.lost, GapSum(init), GapSum(counters) - GapSum(init));
    }
  }

  /** A restart (a step back, or a repeat) starts a new baseline: what is lost
      over both runs is what each of them lost. */
  lemma {:induction false} RestartRebases(before: seq<nat>, after: seq<nat>)
    requires before != [] && after != []
    requires var d := Delta(after[0], before[|before| - 1]); d == 0 || d >= HALF
    ensures GapSum(before + after) == GapSum(before) + GapSum(after)
  {
    var all := before + after;
    if |after| == 1 {
      assert all[..|all| - 1] == before;
    } else {
      var init := after[..|after| - 1];
      RestartRebases(before, init);
      assert all[..|all| - 1] == before + init;
    }
  }

  /** The gaps seen on the wire are the slots skipped, whatever wrapped. */
  lemma {:induction false} GapsOfSlots(slots: seq<nat>)
    requires slots != [] && Slots(slots)
    ensures slots[0] + |slots| + GapSum(OnWire(slots)) == slots[|slots| - 1] + 1
  {
    var n := |slots|;
    if n > 1 {
      var init := slots[..n - 1];
      assert OnWire(slots)[..n - 1] == OnWire(init);
      assert Slots(init);
      GapsOfSlots(init);
      var k := n - 2;
      assert 0 < slots[k + 1] - slots[k] < HALF;
      WrappedDelta(slots[n - 2], slots[n - 1]);
    }
  }

  /** Conservation across wraparound: the first slot, the frames received
      and the slots reported lost add up to the slot after the last. */
  lemma Conservation(slots: seq<nat>)
    requires slots != [] && Slots(slots)
    ensures var s := TrackAll(FRESH, OnWire(slots));
      (slots[0] + s.total + s.lost) % WRAP == (slots[|slots| - 1] + 1) % WRAP
  {
    hide TrackAll, GapSum;
    var s := TrackAll(FRESH, OnWire(slots));
    Statistics(OnWire(slots));
    GapsOfSlots(slots);
    AddWrapped(s.total, |slots|, slots[0] + s.lost);
    AddWrapped(s.lost, GapSum(OnWire(slots)), slots[0] + |slots|);
  }
}
