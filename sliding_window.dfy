/** Rejecting sliding-window admission: the timestamps of accepted requests
    are kept in arrival order; a request first drops, from the front, the
    timestamps older than the start of the window, and is accepted only
    while fewer than the limit remain, in which case its own timestamp is
    appended. Timestamps are integer ticks. */
module SlidingWindow {

  /** The timestamps are in non-decreasing order. */
  ghost predicate Sorted(q: seq<int>) {
    forall i, j :: 0 <= i < j < |q| ==> q[i] <= q[j]
  }

  /** The index at which eviction, having reached index `from`, stops: the
      first index from there whose timestamp is not before `windowStart`,
      or the end of the queue. */
  function KeepFrom(q: seq<int>, windowStart: int, from: nat): (k: nat)
    requires from <= |q|
    ensures from <= k <= |q|
    decreases |q| - from
  {
    if from < |q| && q[from] < windowStart then KeepFrom(q, windowStart, from + 1) else from
  }

  /** The queue after dropping, from the front, every timestamp strictly
      before `windowStart`, stopping at the first one that is not. */
  function Evict(q: seq<int>, windowStart: int): (r: seq<int>)
    ensures |r| <= |q| && r == q[|q| - |r|..]
  {
    q[KeepFrom(q, windowStart, 0)..]
  }

  /** Eviction stops at the first timestamp not before the window start,
      and everything it dropped on the way was before it. */
  lemma {:induction false} KeepFromFront(q: seq<int>, windowStart: int, from: nat)
    requires from <= |q|
    ensures var k := KeepFrom(q, windowStart, from);
      k < |q| ==> q[k] >= windowStart
    ensures var k := KeepFrom(q, windowStart, from);
      forall i :: from <= i < k ==> q[i] < windowStart
    decreases |q| - from
  {
    if from < |q| && q[from] < windowStart {
      KeepFromFront(q, windowStart, from + 1);
    }
  }

  /** On a sorted queue eviction leaves a sorted queue whose timestamps all
      lie inside the window. */
  lemma EvictSorted(q: seq<int>, windowStart: int)
    requires Sorted(q)
    ensures var r := Evict(q, windowStart);
      Sorted(r) && forall i :: 0 <= i < |r| ==> r[i] >= windowStart
  {
    var k := KeepFrom(q, windowStart, 0);
    KeepFromFront(q, windowStart, 0);
    var r := Evict(q, windowStart);
    forall i | 0 <= i < |r|
      ensures r[i] >= windowStart
    {
      assert r[i] == q[k + i];
    }
  }

  /** On a sorted queue eviction keeps exactly the timestamps inside the
      window, including one exactly at its start: what it drops is a prefix
      and what it keeps the rest. */
  lemma EvictKeepsWindow(q: seq<int>, windowStart: int)
    requires Sorted(q)
    ensures var r := Evict(q, windowStart);
      && r == q[|q| - |r|..]
      && forall i :: 0 <= i < |q| ==> (q[i] >= windowStart <==> i >= |q| - |r|)
  {
    var k := KeepFrom(q, windowStart, 0);
    KeepFromFront(q, windowStart, 0);
    forall i | k <= i < |q|
      ensures q[i] >= windowStart
    {
      assert q[k] <= q[i];
    }
  }

  /** Eviction keeps a bound on the timestamps. */
  lemma EvictBounded(q: seq<int>, windowStart: int, now: int)
    requires forall i :: 0 <= i < |q| ==> q[i] <= now
    ensures var r := Evict(q, windowStart);
      forall i :: 0 <= i < |r| ==> r[i] <= now
  {
    var k := KeepFrom(q, windowStart, 0);
    var r := Evict(q, windowStart);
    assert forall i :: 0 <= i < |r| ==> r[i] == q[k + i];
  }

  /** Appending a timestamp no earlier than all others keeps the order and
      the bound. */
  lemma AppendBounded(r: seq<int>, now: int)
    requires Sorted(r) && forall i :: 0 <= i < |r| ==> r[i] <= now
    ensures Sorted(r + [now]) && forall i :: 0 <= i < |r| + 1 ==> (r + [now])[i] <= now
  {
    var q := r + [now];
    assert forall i :: 0 <= i < |r| ==> q[i] == r[i];
  }

  /** One admission decision and the queue it leaves: rejected when the
      retained timestamps already reach the limit, otherwise accepted with
      `now` appended. */
  function Admit(q: seq<int>, now: int, windowSize: int, requestLimit: int): (r: (bool, seq<int>))
    ensures r.0 <==> |Evict(q, now - windowSize)| < requestLimit
    ensures !r.0 ==> |r.1| <= |q| && r.1 == q[|q| - |r.1|..]
    ensures r.0 ==> 1 <= |r.1| <= requestLimit && r.1[|r.1| - 1] == now
    ensures r.0 ==> |r.1| <= |q| + 1 && r.1[..|r.1| - 1] == q[|q| - (|r.1| - 1)..]
  {
    var retained := Evict(q, now - windowSize);
    if |retained| >= requestLimit then (false, retained) else (true, retained + [now])
  }

  /** What an admission keeps true: with a clock that does not go back, the
      queue stays sorted, holds at most max(limit, 0) timestamps and none
      later than `now`. */
  lemma AdmitKeepsQueue(q: seq<int>, now: int, windowSize: int, requestLimit: int)
    requires Sorted(q) && |q| <= (if requestLimit > 0 then requestLimit else 0)
    requires forall i :: 0 <= i < |q| ==> q[i] <= now
    ensures var q' := Admit(q, now, windowSize, requestLimit).1;
      && Sorted(q')
      && |q'| <= (if requestLimit > 0 then requestLimit else 0)
      && (forall i :: 0 <= i < |q'| ==> q'[i] <= now)
  {
    var r := Evict(q, now - windowSize);
    EvictSorted(q, now - windowSize);
    EvictBounded(q, now - windowSize, now);
    if |r| < requestLimit {
      AppendBounded(r, now);
    }
  }

  /** When every timestamp is before the window, nothing is retained. */
  lemma EvictAll(q: seq<int>, windowStart: int)
    requires forall i :: 0 <= i < |q| ==> q[i] < windowStart
    ensures Evict(q, windowStart) == []
  {
    KeepFromFront(q, windowStart, 0);
  }

  /** k timestamps all equal to t. */
  function Repeat(t: int, k: nat): (r: seq<int>)
    ensures |r| == k && forall i :: 0 <= i < k ==> r[i] == t
  {
    if k == 0 then [] else Repeat(t, k - 1) + [t]
  }

  /** A burst at one instant, with a non-negative window: the first L
      requests are accepted, each appending its timestamp ... */
  lemma BurstAccepted(t: int, k: nat, windowSize: int, requestLimit: int)
    requires windowSize >= 0 && k < requestLimit
    ensures Admit(Repeat(t, k), t, windowSize, requestLimit) == (true, Repeat(t, k + 1))
  {
    var q := Repeat(t, k);
    if q != [] {
      assert q[0] >= t - windowSize;
    }
    assert Evict(q, t - windowSize) == q;
  }

  /** ... and the next one at the same instant is rejected, recording
      nothing. */
  lemma BurstRejected(t: int, windowSize: int, requestLimit: nat)
    requires windowSize >= 0
    ensures Admit(Repeat(t, requestLimit), t, windowSize, requestLimit) ==
      (false, Repeat(t, requestLimit))
  {
    var q := Repeat(t, requestLimit);
    if q != [] {
      assert q[0] >= t - windowSize;
    }
    assert Evict(q, t - windowSize) == q;
  }

  /** Once more than the window has passed since the latest acceptance,
      everything is evicted and a request is accepted again (for a positive
      limit). */
  lemma AcceptedAfterWindow(q: seq<int>, t: int, now: int, windowSize: int, requestLimit: int)
    requires forall i :: 0 <= i < |q| ==> q[i] <= t
    requires now > t + windowSize && requestLimit >= 1
    ensures Admit(q, now, windowSize, requestLimit) == (true, [now])
  {
    EvictAll(q, now - windowSize);
    assert [] + [now] == [now];
  }

  class RejectingSlidingWindowStrategy {
    const windowSize: int
    const requestLimit: int
    /** The timestamps of accepted requests, oldest first. */
    var requestTimestamps: seq<int>

    ghost predicate Valid()
      reads this
    {
      && Sorted(requestTimestamps)
      && |requestTimestamps| <= (if requestLimit > 0 then requestLimit else 0)
    }

    constructor (windowSize: int, requestLimit: int)
      ensures Valid() && requestTimestamps == []
      ensures this.windowSize == windowSize && this.requestLimit == requestLimit
    {
      this.windowSize := windowSize;
      this.requestLimit := requestLimit;
      requestTimestamps := [];
    }

    /** Dequeues from the front every timestamp before `windowStart`. */
    method EvictExpired(windowStart: int)
      modifies this
      ensures requestTimestamps == Evict(old(requestTimestamps), windowStart)
    {
      ghost var q0 := requestTimestamps;
      ghost var dropped := 0;
      while |requestTimestamps| > 0 && requestTimestamps[0] < windowStart
        invariant dropped <= |q0| && requestTimestamps == q0[dropped..]
        invariant KeepFrom(q0, windowStart, dropped) == KeepFrom(q0, windowStart, 0)
        decreases |requestTimestamps|
      {
        requestTimestamps := requestTimestamps[1..];
        dropped := dropped + 1;
      }
    }

    /** Evicts the timestamps before now - windowSize from the front, then
        rejects if the limit is reached and otherwise records `now`. The
        clock must not go back between calls. */
    method TryProcessRequest(now: int) returns (accepted: bool)
      requires Valid()
      requires forall i :: 0 <= i < |requestTimestamps| ==> requestTimestamps[i] <= now
      modifies this
      ensures Valid()
      ensures (accepted, requestTimestamps) == Admit(old(requestTimestamps), now, windowSize, requestLimit)
      ensures accepted <==> |Evict(old(requestTimestamps), now - windowSize)| < requestLimit
    {
      AdmitKeepsQueue(requestTimestamps, now, windowSize, requestLimit);
      EvictExpired(now - windowSize);
      if |requestTimestamps| >= requestLimit {
        return false;
      }
      requestTimestamps := requestTimestamps + [now];
      return true;
    }
  }
}
