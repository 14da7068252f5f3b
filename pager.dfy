/** The keyboard pager of `extract_video_urls` (whop_downloader.py:215-267).

    Each of its 150 attempts waits, compares the number of captured streams
    with the last count it saw, stops if there were more than 30 attempts
    without a new stream (and at least one stream), presses ArrowRight, and
    after more than 15 fruitless attempts presses Space and sets the stall
    counter back to 10.  The capture count is an input: one observation per
    attempt, taken after the wait (the response callback runs only while
    the pager is suspended at an await, and none lies between the two
    tests of an attempt, so both see the same count).  Because the counter is set back to 10 whenever it passes 15,
    it never exceeds 16 where the stop rule is tested: the early stop is
    unreachable and the pager always makes all 150 attempts. */
module Pager {

  const MaxAttempts := 150
  const StopThreshold := 30
  const RecoveryThreshold := 15
  const RecoveryCredit := 10

  /** The keys the pager presses. */
  datatype Key = ArrowRight | Space

  /** `navigation_count`, `no_new_videos_count`, `last_video_count` and the
      keys pressed so far. */
  datatype PagerState = PagerState(navigations: nat, noNew: nat, last: nat, keys: seq<Key>)

  const Initial := PagerState(0, 0, 0, [])

  datatype Outcome = Outcome(state: PagerState, stoppedEarly: bool)

  function Max(a: nat, b: nat): nat {
    if a < b then b else a
  }

  /** The largest of `m` and the counts. */
  function MaxOf(m: nat, counts: seq<nat>): nat
    decreases |counts|
  {
    if counts == [] then m else MaxOf(Max(m, counts[0]), counts[1..])
  }

  /** Lines 225-238: count the attempt and compare the capture count with
      the last one seen. The stall counter becomes 0 exactly when the count
      grew and otherwise grows by one; the last count seen is the running
      maximum. */
  function Check(s: PagerState, count: nat): (t: PagerState)
    ensures t.navigations == s.navigations + 1
    ensures t.noNew == 0 <==> count > s.last
    ensures count <= s.last ==> t.noNew == s.noNew + 1
    ensures t.last == Max(s.last, count)
    ensures t.keys == s.keys
  {
    if count > s.last then s.(navigations := s.navigations + 1, last := count, noNew := 0)
    else s.(navigations := s.navigations + 1, noNew := s.noNew + 1)
  }

  /** Line 241: the early-stop rule. */
  predicate Stops(t: PagerState, count: nat) {
    t.noNew > StopThreshold && count > 0
  }

  /** Lines 247-267: press ArrowRight; after more than 15 fruitless
      attempts also press Space and set the stall counter to 10. */
  function Advance(t: PagerState): PagerState {
    var pressed := t.keys + [ArrowRight];
    if t.noNew > RecoveryThreshold then t.(keys := pressed + [Space], noNew := RecoveryCredit)
    else t.(keys := pressed)
  }

  /** The pager from state `s`, one capture count per remaining attempt. */
  function Run(s: PagerState, counts: seq<nat>): Outcome
    decreases |counts|
  {
    if counts == [] then Outcome(s, false)
    else
      var t := Check(s, counts[0]);
      if Stops(t, counts[0]) then Outcome(t, true) else Run(Advance(t), counts[1..])
  }

  function CountKey(keys: seq<Key>, k: Key): nat {
    if keys == [] then 0 else CountKey(keys[..|keys| - 1], k) + (if keys[|keys| - 1] == k then 1 else 0)
  }

  lemma CountKeyAppend(keys: seq<Key>, more: seq<Key>, k: Key)
    ensures CountKey(keys + more, k) == CountKey(keys, k) + CountKey(more, k)
    decreases |more|
  {
    if more != [] {
      var init := more[..|more| - 1];
      assert (keys + more)[..|keys + more| - 1] == keys + init;
      CountKeyAppend(keys, init, k);
    } else {
      assert keys + more == keys;
    }
  }

  /** One attempt from a counter of at most 15: the counter is at most 16
      at the stop test, so the attempt does not stop, and it is at most 15
      again afterwards; exactly one ArrowRight is pressed. */
  lemma AttemptBounds(s: PagerState, count: nat)
    requires s.noNew <= RecoveryThreshold
    ensures Check(s, count).noNew <= RecoveryThreshold + 1
    ensures !Stops(Check(s, count), count)
    ensures Advance(Check(s, count)).noNew <= RecoveryThreshold
    ensures CountKey(Advance(Check(s, count)).keys, ArrowRight) == CountKey(s.keys, ArrowRight) + 1
  {
    var t := Check(s, count);
    if t.noNew > RecoveryThreshold {
      CountKeyAppend(t.keys, [ArrowRight, Space], ArrowRight);
      assert [ArrowRight, Space][..1] == [ArrowRight];
    } else {
      CountKeyAppend(t.keys, [ArrowRight], ArrowRight);
    }
  }

  /** From a counter of at most 15 the pager never takes the early stop:
      it makes one attempt and one ArrowRight press per count, keeps the
      counter at most 15 and ends with the largest count as the last one. */
  lemma {:induction false} NeverStops(s: PagerState, counts: seq<nat>)
    requires s.noNew <= RecoveryThreshold
    ensures !Run(s, counts).stoppedEarly
    ensures Run(s, counts).state.navigations == s.navigations + |counts|
    ensures Run(s, counts).state.noNew <= RecoveryThreshold
    ensures Run(s, counts).state.last == MaxOf(s.last, counts)
    ensures CountKey(Run(s, counts).state.keys, ArrowRight) == CountKey(s.keys, ArrowRight) + |counts|
    decreases |counts|
  {
    if counts != [] {
      AttemptBounds(s, counts[0]);
      NeverStops(Advance(Check(s, counts[0])), counts[1..]);
    }
  }

  predicate NonDecreasing(counts: seq<nat>) {
    forall i, j :: 0 <= i <= j < |counts| ==> counts[i] <= counts[j]
  }

  /** For growing capture counts the largest is the final one. */
  lemma {:induction false} MaxOfNonDecreasing(m: nat, counts: seq<nat>)
    requires NonDecreasing(counts) && counts != [] && m <= counts[0]
    ensures MaxOf(m, counts) == counts[|counts| - 1]
    decreases |counts|
  {
    if |counts| > 1 {
      MaxOfNonDecreasing(Max(m, counts[0]), counts[1..]);
    }
  }

  /** The whole pager run: all 150 attempts are made, the early stop is
      never taken, and `last_video_count` ends at the final capture count
      when the counts only grow. */
  lemma PagerRunsToCap(counts: seq<nat>)
    requires |counts| == MaxAttempts
    ensures !Run(Initial, counts).stoppedEarly
    ensures Run(Initial, counts).state.navigations == MaxAttempts
    ensures CountKey(Run(Initial, counts).state.keys, ArrowRight) == MaxAttempts
    ensures NonDecreasing(counts) ==> Run(Initial, counts).state.last == counts[MaxAttempts - 1]
  {
    NeverStops(Initial, counts);
    if NonDecreasing(counts) {
      MaxOfNonDecreasing(0, counts);
    }
  }

  /** The loop of lines 224-267, one capture count per attempt. */
  method KeyboardPager(counts: seq<nat>) returns (out: Outcome)
    requires |counts| == MaxAttempts
    ensures out == Run(Initial, counts)
    ensures !out.stoppedEarly && out.state.navigations == MaxAttempts
  {
    var navigationCount: nat, noNewVideosCount: nat, lastVideoCount: nat := 0, 0, 0;
    var keys: seq<Key> := [];
    var stopped := false;
    for attempt := 0 to MaxAttempts
      invariant navigationCount == attempt
      invariant noNewVideosCount <= RecoveryThreshold
      invariant Run(Initial, counts)
             == Run(PagerState(navigationCount, noNewVideosCount, lastVideoCount, keys), counts[attempt..])
    {
      ghost var before := PagerState(navigationCount, noNewVideosCount, lastVideoCount, keys);
      assert counts[attempt..][1..] == counts[attempt + 1..];
      navigationCount := navigationCount + 1;
      var count := counts[attempt];
      if count > lastVideoCount {
        lastVideoCount := count;
        noNewVideosCount := 0;
      } else {
        noNewVideosCount := noNewVideosCount + 1;
      }
      if noNewVideosCount > StopThreshold && count > 0 {
        stopped := true;
        break;
      }
      keys := keys + [ArrowRight];
      if noNewVideosCount > RecoveryThreshold {
        keys := keys + [Space];
        noNewVideosCount := RecoveryCredit;
      }
      assert PagerState(navigationCount, noNewVideosCount, lastVideoCount, keys)
          == Advance(Check(before, count));
    }
    out := Outcome(PagerState(navigationCount, noNewVideosCount, lastVideoCount, keys), stopped);
    assert counts[MaxAttempts..] == [];
    PagerRunsToCap(counts);
  }
}
