/** `waitForRateLimit`: a sliding window of the request times of the last
    minute. Each round reads the clock, drops the timestamps that have left
    the window from the front, and either admits the next request (fewer than
    the allowed number remain) or computes how long to sleep before the oldest
    remaining timestamp leaves the window. Times are whole milliseconds. */
module RateLimiter {
  import opened Maybe

  const MaxRequestsPerMinute := 100
  const RequestWindowMs := 60000

  /** A timestamp has left the window at time `now`. */
  predicate Stale(now: int, t: int) {
    now - t > RequestWindowMs
  }

  predicate Sorted(ts: seq<int>) {
    forall i, j :: 0 <= i < j < |ts| ==> ts[i] <= ts[j]
  }

  /** No timestamp lies in the future of `now`. */
  predicate NotAfter(ts: seq<int>, now: int) {
    forall k :: 0 <= k < |ts| ==> ts[k] <= now
  }

  /** The inner `while` with `shift()`: timestamps come off the front while
      the first one is stale. */
  function Prune(now: int, ts: seq<int>): seq<int>
    decreases |ts|
  {
    if |ts| > 0 && Stale(now, ts[0]) then Prune(now, ts[1..]) else ts
  }

  /** Pruning keeps a suffix, in order; everything it dropped was stale; and
      it stops at the first timestamp still inside the window. */
  lemma {:induction false} PruneSpec(now: int, ts: seq<int>)
    ensures var kept := Prune(now, ts);
      && |kept| <= |ts| && kept == ts[|ts| - |kept|..]
      && (forall k :: 0 <= k < |ts| - |kept| ==> Stale(now, ts[k]))
      && (kept == [] || !Stale(now, kept[0]))
    decreases |ts|
  {
    if |ts| > 0 && Stale(now, ts[0]) {
      PruneSpec(now, ts[1..]);
      var kept := Prune(now, ts[1..]);
      assert forall k :: 1 <= k < |ts| - |kept| ==> ts[k] == ts[1..][k - 1];
    }
  }

  /** The timestamps of `ts` still inside the window at `now`, wherever they sit. */
  function Fresh(now: int, ts: seq<int>): seq<int> {
    if |ts| == 0 then []
    else (if Stale(now, ts[0]) then [] else [ts[0]]) + Fresh(now, ts[1..])
  }

  lemma {:induction false} FreshOfFresh(now: int, ts: seq<int>)
    requires forall k :: 0 <= k < |ts| ==> !Stale(now, ts[k])
    ensures Fresh(now, ts) == ts
    decreases |ts|
  {
    if |ts| > 0 {
      FreshOfFresh(now, ts[1..]);
      assert ts == [ts[0]] + ts[1..];
    }
  }

  /** On a sorted window, pruning the front is the same as keeping exactly
      the timestamps inside the window: every retained entry is fresh. */
  lemma {:induction false} PruneSortedIsFresh(now: int, ts: seq<int>)
    requires Sorted(ts)
    ensures Prune(now, ts) == Fresh(now, ts)
    decreases |ts|
  {
    if |ts| > 0 {
      if Stale(now, ts[0]) {
        PruneSortedIsFresh(now, ts[1..]);
        assert [] + Fresh(now, ts[1..]) == Fresh(now, ts[1..]);
      } else {
        FreshOfFresh(now, ts);
      }
    }
  }

  /** The inner loop as written, over an index instead of `shift()`. */
  method PruneLoop(now: int, ts: seq<int>) returns (kept: seq<int>)
    ensures kept == Prune(now, ts)
  {
    var i := 0;
    while i < |ts| && now - ts[i] > RequestWindowMs
      invariant 0 <= i <= |ts|
      invariant Prune(now, ts[i..]) == Prune(now, ts)
    {
      assert ts[i..][1..] == ts[i + 1..];
      i := i + 1;
    }
    kept := ts[i..];
  }

  /** What one round decides: admit with the pruned window, or sleep `waitMs`
      with the pruned window kept for the next round. */
  datatype Decision = Admit(kept: seq<int>) | Sleep(waitMs: int, kept: seq<int>)

  /** One round of the outer loop at clock reading `now`. */
  function Check(now: int, ts: seq<int>): Decision {
    var kept := Prune(now, ts);
    if |kept| < MaxRequestsPerMinute then Admit(kept)
    else Sleep(RequestWindowMs - (now - kept[0]), kept)
  }

  /** A round admits exactly when fewer than the maximum remain after
      pruning; otherwise it sleeps until the oldest remaining timestamp is
      exactly one window old, which is never in the past and, when no
      timestamp lies in the future, at most one window ahead. */
  lemma CheckSpec(now: int, ts: seq<int>)
    ensures Check(now, ts).kept == Prune(now, ts)
    ensures Check(now, ts).Admit? <==> |Prune(now, ts)| < MaxRequestsPerMinute
    ensures Check(now, ts).Sleep? ==>
      && now + Check(now, ts).waitMs == Prune(now, ts)[0] + RequestWindowMs
      && 0 <= Check(now, ts).waitMs
    ensures Check(now, ts).Sleep? && NotAfter(ts, now) ==> Check(now, ts).waitMs <= RequestWindowMs
  {
    PruneSpec(now, ts);
    var kept := Prune(now, ts);
    if NotAfter(ts, now) && |kept| > 0 {
      assert kept[0] == ts[|ts| - |kept|];
    }
  }

  /** What the outer loop ends with: the clock reading at which it admitted,
      and the window it leaves behind. */
  datatype Admission = Admission(at: int, kept: seq<int>)

  /** The outer loop, fed the successive clock readings it takes; `None` when
      the readings run out before a round admits. The window pruned in one
      round is what the next round starts from. */
  function Await(readings: seq<int>, ts: seq<int>): Option<Admission>
    decreases |readings|
  {
    if |readings| == 0 then None
    else
      match Check(readings[0], ts)
      case Admit(kept) => Some(Admission(readings[0], kept))
      case Sleep(_, kept) => Await(readings[1..], kept)
  }

  /** The loop admits only at one of its clock readings, and only with fewer
      than the maximum number of timestamps left in the window. */
  lemma {:induction false} AwaitSpec(readings: seq<int>, ts: seq<int>)
    ensures Await(readings, ts).Some? ==>
      && Await(readings, ts).value.at in readings
      && |Await(readings, ts).value.kept| < MaxRequestsPerMinute
    decreases |readings|
  {
    if |readings| > 0 {
      CheckSpec(readings[0], ts);
      match Check(readings[0], ts)
      case Admit(_) =>
      case Sleep(_, kept) =>
        AwaitSpec(readings[1..], kept);
    }
  }

  /** The window the agent keeps between requests: sorted, no more entries
      than the limit, none in the future. */
  predicate WindowOk(ts: seq<int>, now: int) {
    Sorted(ts) && |ts| <= MaxRequestsPerMinute && NotAfter(ts, now)
  }

  lemma PruneKeepsOrder(now: int, ts: seq<int>)
    requires Sorted(ts)
    ensures Sorted(Prune(now, ts))
  {
    PruneSpec(now, ts);
    var kept := Prune(now, ts);
    var d := |ts| - |kept|;
    forall i, j | 0 <= i < j < |kept| ensures kept[i] <= kept[j] {
      assert kept[i] == ts[d + i] && kept[j] == ts[d + j];
    }
  }

  /** Sleeping for longer than the computed wait always ends the waiting: the
      oldest timestamp has left the window, so the next round admits. */
  lemma SleepLongerAdmits(now: int, later: int, ts: seq<int>)
    requires WindowOk(ts, now)
    requires Check(now, ts).Sleep?
    requires later > now + Check(now, ts).waitMs
    ensures Check(later, Check(now, ts).kept).Admit?
  {
    CheckSpec(now, ts);
    PruneSpec(now, ts);
    var kept := Prune(now, ts);
    assert Stale(later, kept[0]);
    assert Prune(later, kept) == Prune(later, kept[1..]);
    PruneSpec(later, kept[1..]);
  }

  /** Waking after exactly the computed wait is not enough when the window is
      full: the oldest timestamp is then exactly one window old, `>` does not
      drop it, and the round sleeps again, for zero milliseconds. */
  lemma SleepExactlyWaitsAgain(now: int, ts: seq<int>)
    requires WindowOk(ts, now)
    requires Check(now, ts).Sleep?
    ensures var later := now + Check(now, ts).waitMs;
      Check(later, Check(now, ts).kept) == Sleep(0, Check(now, ts).kept)
  {
    CheckSpec(now, ts);
    var kept := Prune(now, ts);
    var later := now + Check(now, ts).waitMs;
    assert !Stale(later, kept[0]);
  }

  /** After an admission the new request's time is appended; with a clock
      that does not run backwards the window stays sorted, within the limit
      and free of future entries. */
  lemma RecordKeepsWindow(now: int, issuedAt: int, ts: seq<int>)
    requires WindowOk(ts, now)
    requires Check(now, ts).Admit?
    requires now <= issuedAt
    ensures WindowOk(Check(now, ts).kept + [issuedAt], issuedAt)
  {
    CheckSpec(now, ts);
    PruneSpec(now, ts);
    PruneKeepsOrder(now, ts);
    var kept := Prune(now, ts);
    var d := |ts| - |kept|;
    var next := kept + [issuedAt];
    forall k | 0 <= k < |kept| ensures kept[k] <= now {
      assert kept[k] == ts[d + k];
    }
    forall i, j | 0 <= i < j < |next| ensures next[i] <= next[j] {
      assert next[i] == kept[i];
      if j < |kept| {
        assert next[j] == kept[j];
      }
    }
    assert NotAfter(next, issuedAt);
    assert Sorted(next);
  }

  /** A full window costs the loop exactly one sleep when the clock, read
      again, has moved past the computed wait. */
  lemma AwaitAfterOneSleep(now: int, later: int, ts: seq<int>)
    requires WindowOk(ts, now)
    requires Check(now, ts).Sleep?
    requires later > now + Check(now, ts).waitMs
    ensures Await([now, later], ts) == Some(Admission(later, Prune(later, Check(now, ts).kept)))
  {
    SleepLongerAdmits(now, later, ts);
    assert [now, later][1..] == [later];
  }
}
