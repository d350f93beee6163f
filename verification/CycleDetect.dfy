/** detect_modified_loop of kern/trap.c: a tortoise and a hare on the modified-frame list. */
module CycleDetect {
  class Frame {
    /** prev_next_info.le_next */
    var next: Frame?
  }

  /** Every link of a frame in the set leads back into the set. */
  ghost predicate Closed(frames: set<Frame>)
    reads frames
  {
    forall f :: f in frames ==> f.next == null || f.next in frames
  }

  /** The frame i links away from the first one, null beyond the end of the list. */
  ghost function Nth(frames: set<Frame>, first: Frame?, i: nat): (f: Frame?)
    requires Closed(frames) && (first == null || first in frames)
    ensures f == null || f in frames
    reads frames
  {
    if i == 0 then first
    else
      var before := Nth(frames, first, i - 1);
      if before == null then null else before.next
  }

  /** The list runs into a loop: some frame comes up again further on. */
  ghost predicate Cyclic(frames: set<Frame>, first: Frame?)
    requires Closed(frames) && (first == null || first in frames)
    reads frames
  {
    exists i: nat, j: nat :: i < j && Nth(frames, first, i) != null && Nth(frames, first, i) == Nth(frames, first, j)
  }

  lemma {:induction false} EndIsEnd(frames: set<Frame>, first: Frame?, i: nat, j: nat)
    requires Closed(frames) && (first == null || first in frames) && i <= j && Nth(frames, first, i) == null
    ensures Nth(frames, first, j) == null
    decreases j
  {
    if i < j {
      EndIsEnd(frames, first, i, j - 1);
    }
  }

  /** From a repetition on, everything repeats. */
  lemma {:induction false} RepeatsAfter(frames: set<Frame>, first: Frame?, i: nat, j: nat, k: nat)
    requires Closed(frames) && (first == null || first in frames) && Nth(frames, first, i) == Nth(frames, first, j)
    ensures Nth(frames, first, i + k) == Nth(frames, first, j + k)
    decreases k
  {
    if k > 0 {
      RepeatsAfter(frames, first, i, j, k - 1);
    }
  }

  lemma {:induction false} RepeatsTimes(frames: set<Frame>, first: Frame?, i: nat, period: nat, times: nat)
    requires Closed(frames) && (first == null || first in frames)
    requires Nth(frames, first, i) == Nth(frames, first, i + period)
    ensures Nth(frames, first, i) == Nth(frames, first, i + times * period)
    decreases times
  {
    if times > 0 {
      RepeatsTimes(frames, first, i, period, times - 1);
      RepeatsAfter(frames, first, i, i + period, (times - 1) * period);
      assert i + period + (times - 1) * period == i + times * period;
    }
  }

  /** A list that ends has no loop. */
  lemma EndedIsAcyclic(frames: set<Frame>, first: Frame?, e: nat)
    requires Closed(frames) && (first == null || first in frames) && Nth(frames, first, e) == null
    ensures !Cyclic(frames, first)
  {
    if i: nat, j: nat :| i < j && Nth(frames, first, i) != null && Nth(frames, first, i) == Nth(frames, first, j) {
      var k := e * (j - i);
      RepeatsTimes(frames, first, i, j - i, e);
      assert k >= e;
      EndIsEnd(frames, first, e, i + k);
    }
  }

  /** More steps than frames: two of them meet the same frame. */
  lemma {:induction false} Pigeonhole(frames: set<Frame>, visited: seq<Frame>) returns (a: nat, b: nat)
    requires |visited| > |frames| && forall i :: 0 <= i < |visited| ==> visited[i] in frames
    ensures a < b < |visited| && visited[a] == visited[b]
    decreases |visited|
  {
    var last := visited[|visited| - 1];
    if i :| 0 <= i < |visited| - 1 && visited[i] == last {
      return i, |visited| - 1;
    }
    a, b := Pigeonhole(frames - {last}, visited[..|visited| - 1]);
  }

  ghost function Walk(frames: set<Frame>, first: Frame?, n: nat): (s: seq<Frame>)
    requires Closed(frames) && (first == null || first in frames)
    requires forall i: nat :: i < n ==> Nth(frames, first, i) != null
    ensures |s| == n && forall i :: 0 <= i < n ==> s[i] == Nth(frames, first, i)
    reads frames
  {
    if n == 0 then [] else Walk(frames, first, n - 1) + [Nth(frames, first, n - 1)]
  }

  /** The hare's first step of round j lands on the tortoise. */
  ghost predicate Meets(frames: set<Frame>, first: Frame?, j: nat)
    requires Closed(frames) && (first == null || first in frames)
    reads frames
  {
    Nth(frames, first, 2 * j + 1) == Nth(frames, first, j)
  }

  /** The hare did not land on the tortoise in any of the first i rounds. */
  ghost predicate NotMet(frames: set<Frame>, first: Frame?, i: nat)
    requires Closed(frames) && (first == null || first in frames)
    reads frames
  {
    forall j: nat :: j < i ==> !Meets(frames, first, j)
  }

  /** On a list longer than the number of frames they meet in a round no later than that. */
  lemma SomeRoundMeets(frames: set<Frame>, first: Frame?) returns (j: nat)
    requires Closed(frames) && (first == null || first in frames)
    requires forall i: nat :: i <= |frames| ==> Nth(frames, first, i) != null
    ensures j <= |frames| && Meets(frames, first, j)
  {
    hide Nth, Walk;
    var a, b := Pigeonhole(frames, Walk(frames, first, |frames| + 1));
    var times;
    j, times := MeetingRound(a, b);
    RepeatsTimes(frames, first, a, b - a, times);
    RepeatsAfter(frames, first, a, a + j + 1, j - a);
    assert a + (j - a) == j && a + j + 1 + (j - a) == 2 * j + 1;
  }

  lemma MustMeet(frames: set<Frame>, first: Frame?, i: nat)
    requires Closed(frames) && (first == null || first in frames)
    requires NotMet(frames, first, i) && forall j: nat :: j <= 2 * i ==> Nth(frames, first, j) != null
    ensures i <= |frames|
  {
    if i > |frames| {
      var j := SomeRoundMeets(frames, first);
    }
  }

  /** Some multiple of the period ends between a and b. */
  lemma MeetingRound(a: nat, b: nat) returns (j: nat, times: nat)
    requires a < b
    ensures a <= j <= b && j + 1 == times * (b - a)
  {
    var p := b - a;
    times := (b + 1) / p;
    assert b + 1 == times * p + (b + 1) % p;
    j := times * p - 1;
  }

  /** The loop of detect_modified_loop; detected stands for the message. */
  method DetectModifiedLoop(first: Frame?, ghost frames: set<Frame>) returns (detected: bool)
    requires Closed(frames) && (first == null || first in frames)
    ensures detected <==> Cyclic(frames, first)
  {
    var slowPtr, fastPtr := first, first;
    detected := false;
    ghost var i: nat, at: nat := 0, 0;
    while slowPtr != null && fastPtr != null
      invariant slowPtr == Nth(frames, first, i) && fastPtr == Nth(frames, first, at) && at == 2 * i && !detected
      invariant NotMet(frames, first, i) && forall j: nat :: j < at ==> Nth(frames, first, j) != null
      decreases |frames| + 1 - i
    {
      EveryStepIsNonNull(frames, first, at);
      MustMeet(frames, first, i);
      fastPtr, at := fastPtr.next, at + 1;
      if fastPtr == slowPtr {
        detected := true;
        break;
      }
      if fastPtr == null {
        break;
      }
      EveryStepIsNonNull(frames, first, at);
      fastPtr, at := fastPtr.next, at + 1;
      if fastPtr == slowPtr {
        detected := true;
        break;
      }
      slowPtr, i := slowPtr.next, i + 1;
    }
    if detected {
      assert i < at && Nth(frames, first, i) == Nth(frames, first, at);
    } else {
      EndedIsAcyclic(frames, first, if slowPtr == null then i else at);
    }
  }

  lemma EveryStepIsNonNull(frames: set<Frame>, first: Frame?, n: nat)
    requires Closed(frames) && (first == null || first in frames) && Nth(frames, first, n) != null
    ensures forall j: nat :: j <= n ==> Nth(frames, first, j) != null
  {
    forall j: nat | j <= n ensures Nth(frames, first, j) != null {
      if Nth(frames, first, j) == null { EndIsEnd(frames, first, j, n); }
    }
  }
}
