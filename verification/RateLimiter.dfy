/** The sliding-window limiter: hits older than the window are dropped as it goes. */
module RateLimiter {

  type Time = int

  const MAX_KEYS := 10_000

  /** The hits after the cut, in order. */
  function Recent(hits: seq<Time>, cut: Time): (r: seq<Time>)
    ensures |r| <= |hits|
  {
    if hits == [] then []
    else
      var rest, last := Recent(hits[..|hits| - 1], cut), hits[|hits| - 1];
      if last > cut then rest + [last] else rest
  }

  type Hits = map<string, seq<Time>>

  function HitsOf(hits: Hits, key: string): seq<Time> { if key in hits then hits[key] else [] }

  datatype Call = Call(key: string, max: nat, now: Time)

  function DropDead(hits: Hits, cut: Time): Hits { map k | k in hits && Recent(hits[k], cut) != [] :: hits[k] }

  /** As many recent hits on the key as the call admits. */
  predicate Full(hits: Hits, call: Call, window: nat) {
    |Recent(HitsOf(hits, call.key), call.now - window)| >= call.max
  }

  /** What one call leaves behind; it is allowed unless full. */
  function Allow(hits: Hits, call: Call, window: nat): Hits {
    var n := Recent(HitsOf(hits, call.key), call.now - window);
    if Full(hits, call, window) then hits[call.key := n]
    else Bounded(hits[call.key := n + [call.now]], call.now - window)
  }

  function Bounded(hits: Hits, cut: Time): Hits { if |hits| > MAX_KEYS then DropDead(hits, cut) else hits }

  // ---- The reference: a log of every accepted hit -------------------------------------------

  /** Nothing is compacted or dropped. */
  function Log(log: Hits, call: Call, window: nat): Hits {
    if Full(log, call, window) then log else log[call.key := HitsOf(log, call.key) + [call.now]]
  }

  function Limiter(calls: seq<Call>, window: nat): Hits {
    if calls == [] then map[] else Allow(Limiter(calls[..|calls| - 1], window), calls[|calls| - 1], window)
  }

  function Accepted(calls: seq<Call>, window: nat): Hits {
    if calls == [] then map[] else Log(Accepted(calls[..|calls| - 1], window), calls[|calls| - 1], window)
  }

  /** The limiter's decision on call `i` of a run, and that of the log. */
  predicate Allowed(calls: seq<Call>, window: nat, i: nat)
    requires i < |calls|
  {
    !Full(Limiter(calls[..i], window), calls[i], window)
  }

  predicate AllowedByLog(calls: seq<Call>, window: nat, i: nat)
    requires i < |calls|
  {
    !Full(Accepted(calls[..i], window), calls[i], window)
  }

  ghost predicate Monotone(calls: seq<Call>) {
    forall i, j :: 0 <= i < j < |calls| ==> calls[i].now <= calls[j].now
  }

  lemma {:induction false} RecentTwice(hits: seq<Time>, c: Time, d: Time)
    requires c <= d
    ensures Recent(Recent(hits, c), d) == Recent(hits, d)
  {
    if hits != [] {
      var init, last := hits[..|hits| - 1], hits[|hits| - 1];
      RecentTwice(init, c, d);
      if last > c {
        assert (Recent(init, c) + [last])[..|Recent(init, c)|] == Recent(init, c);
      }
    }
  }

  lemma RecentMore(hits: seq<Time>, t: Time, cut: Time)
    ensures Recent(hits + [t], cut) == if t > cut then Recent(hits, cut) + [t] else Recent(hits, cut)
  {
    assert (hits + [t])[..|hits|] == hits;
  }

  /** From `clock` on nobody can tell the two apart. */
  ghost predicate Agrees(hits: Hits, log: Hits, clock: Time, window: nat) {
    forall key, cut :: cut >= clock - window ==> Recent(HitsOf(hits, key), cut) == Recent(HitsOf(log, key), cut)
  }

  lemma AgreesNext(hits: Hits, log: Hits, clock: Time, window: nat, call: Call)
    requires Agrees(hits, log, clock, window) && clock <= call.now
    ensures Full(hits, call, window) == Full(log, call, window)
    ensures Agrees(Allow(hits, call, window), Log(log, call, window), call.now, window)
  {
    forall key, c | c >= call.now - window
      ensures Recent(HitsOf(Allow(hits, call, window), key), c) == Recent(HitsOf(Log(log, call, window), key), c)
    {
      AllowAt(hits, call, window, key, c);
      RecentMore(HitsOf(hits, key), call.now, c);
      RecentMore(HitsOf(log, key), call.now, c);
    }
  }

  lemma BoundedAt(hits: Hits, cut: Time, key: string, c: Time)
    requires cut <= c
    ensures Recent(HitsOf(Bounded(hits, cut), key), c) == Recent(HitsOf(hits, key), c)
  {
    RecentTwice(HitsOf(hits, key), cut, c);
  }

  /** One key's recent hits after a call, in the limiter. */
  lemma AllowAt(hits: Hits, call: Call, window: nat, key: string, c: Time)
    requires c >= call.now - window
    ensures Recent(HitsOf(Allow(hits, call, window), key), c)
         == if key == call.key && !Full(hits, call, window) then Recent(HitsOf(hits, key) + [call.now], c)
            else Recent(HitsOf(hits, key), c)
  {
    var cut := call.now - window;
    var n := Recent(HitsOf(hits, call.key), cut);
    RecentTwice(HitsOf(hits, call.key), cut, c);
    if Full(hits, call, window) {
      assert HitsOf(Allow(hits, call, window), key) == if key == call.key then n else HitsOf(hits, key);
    } else {
      var added := hits[call.key := n + [call.now]];
      assert HitsOf(added, key) == if key == call.key then n + [call.now] else HitsOf(hits, key);
      RecentMore(n, call.now, c);
      RecentMore(HitsOf(hits, call.key), call.now, c);
      BoundedAt(added, cut, key, c);
      assert Allow(hits, call, window) == Bounded(added, cut);
    }
  }

  lemma {:induction false} AgreesThroughout(calls: seq<Call>, window: nat, clock: Time)
    requires Monotone(calls) && forall i :: 0 <= i < |calls| ==> calls[i].now <= clock
    ensures Agrees(Limiter(calls, window), Accepted(calls, window), clock, window)
  {
    if calls != [] {
      var init, last := calls[..|calls| - 1], calls[|calls| - 1];
      AgreesThroughout(init, window, last.now);
      AgreesNext(Limiter(init, window), Accepted(init, window), last.now, window, last);
    }
  }

  /** Compaction and dropping dead keys never change a decision. */
  lemma DecidesLikeLog(calls: seq<Call>, window: nat, i: nat)
    requires Monotone(calls) && i < |calls|
    ensures Allowed(calls, window, i) == AllowedByLog(calls, window, i)
  {
    AgreesThroughout(calls[..i], window, calls[i].now);
    AgreesNext(Limiter(calls[..i], window), Accepted(calls[..i], window), calls[i].now, window, calls[i]);
  }

  // ---- What the log says --------------------------------------------------------------------

  /** The accepted calls on a key at a time in (t - window, t]. */
  function InWindow(calls: seq<Call>, window: nat, key: string, t: Time): (r: nat) {
    if calls == [] then 0
    else
      var i := |calls| - 1;
      InWindow(calls[..i], window, key, t)
      + (if calls[i].key == key && Allowed(calls, window, i) && t - window < calls[i].now <= t then 1 else 0)
  }

  lemma LogAt(log: Hits, call: Call, window: nat, key: string, c: Time)
    ensures |Recent(HitsOf(Log(log, call, window), key), c)| == |Recent(HitsOf(log, key), c)|
              + if key == call.key && !Full(log, call, window) && call.now > c then 1 else 0
  {
    RecentMore(HitsOf(log, call.key), call.now, c);
    assert HitsOf(Log(log, call, window), key)
        == if key == call.key && !Full(log, call, window) then HitsOf(log, key) + [call.now] else HitsOf(log, key);
  }

  /** The log holds exactly the accepted hits, so what is recent in it is what the window contains. */
  lemma {:induction false} LogCounts(calls: seq<Call>, window: nat, key: string, t: Time)
    requires Monotone(calls) && forall i :: 0 <= i < |calls| ==> calls[i].now <= t
    ensures |Recent(HitsOf(Accepted(calls, window), key), t - window)| == InWindow(calls, window, key, t)
  {
    if calls != [] {
      var i := |calls| - 1;
      LogCounts(calls[..i], window, key, t);
      DecidesLikeLog(calls, window, i);
      LogAt(Accepted(calls[..i], window), calls[i], window, key, t - window);
    }
  }

  /** A call is refused exactly when that many accepted calls on its key already lie in its window. */
  lemma RefusedIffFull(calls: seq<Call>, window: nat, i: nat)
    requires Monotone(calls) && i < |calls|
    ensures !Allowed(calls, window, i) <==> InWindow(calls[..i], window, calls[i].key, calls[i].now) >= calls[i].max
  {
    DecidesLikeLog(calls, window, i);
    LogCounts(calls[..i], window, calls[i].key, calls[i].now);
  }

  /** A later window sees no more of an earlier run. */
  lemma {:induction false} LaterSeesLess(calls: seq<Call>, window: nat, key: string, s: Time, t: Time)
    requires s <= t && forall i :: 0 <= i < |calls| ==> calls[i].now <= s
    ensures InWindow(calls, window, key, t) <= InWindow(calls, window, key, s)
  {
    if calls != [] {
      LaterSeesLess(calls[..|calls| - 1], window, key, s, t);
    }
  }

  /** For a key that is always called with the same maximum, no interval (t - window, t] ever holds more
      accepted calls than that. */
  lemma {:induction false} AtMostMax(calls: seq<Call>, window: nat, key: string, max: nat, t: Time)
    requires Monotone(calls) && forall i :: 0 <= i < |calls| && calls[i].key == key ==> calls[i].max == max
    ensures InWindow(calls, window, key, t) <= max
  {
    if calls != [] {
      var i := |calls| - 1;
      AtMostMax(calls[..i], window, key, max, t);
      if calls[i].key == key && calls[i].now <= t {
        RefusedIffFull(calls, window, i);
        LaterSeesLess(calls[..i], window, key, calls[i].now, t);
      }
    }
  }

  // ---- The limiter --------------------------------------------------------------------------

  /** Keeps the recent hits at the front of the buffer they are read from. */
  method Compact(arr: array<Time>, cut: Time) returns (n: nat)
    modifies arr
    ensures n <= arr.Length && arr[..n] == Recent(old(arr[..]), cut)
  {
    n := 0;
    for i := 0 to arr.Length
      invariant n <= i
      invariant arr[..n] == Recent(old(arr[..i]), cut)
      invariant forall k :: i <= k < arr.Length ==> arr[k] == old(arr[k])
    {
      ghost var before := old(arr[..i + 1]);
      assert before[..i] == old(arr[..i]);
      if arr[i] > cut {
        arr[n] := arr[i];
        n := n + 1;
      }
    }
    assert old(arr[..arr.Length]) == old(arr[..]);
  }

  /** The recent hits, compacted in a buffer of their own. */
  method Compacted(times: seq<Time>, cut: Time) returns (recent: seq<Time>)
    ensures recent == Recent(times, cut)
  {
    var arr := new Time[|times|](i requires 0 <= i < |times| => times[i]);
    assert arr[..] == times;
    var n := Compact(arr, cut);
    recent := arr[..n];
  }

  method AnyAfter(times: seq<Time>, cut: Time) returns (alive: bool)
    ensures alive <==> Recent(times, cut) != []
  {
    for i := 0 to |times|
      invariant Recent(times[..i], cut) == []
    {
      assert times[..i + 1][..i] == times[..i];
      if times[i] > cut {
        StaysRecent(times, cut, i + 1);
        return true;
      }
    }
    assert times[..|times|] == times;
    return false;
  }

  lemma {:induction false} StaysRecent(times: seq<Time>, cut: Time, i: nat)
    requires i <= |times| && Recent(times[..i], cut) != []
    ensures Recent(times, cut) != []
  {
    if i == |times| {
      assert times[..i] == times;
    } else {
      assert times[..|times| - 1][..i] == times[..i];
      StaysRecent(times[..|times| - 1], cut, i);
    }
  }

  class Buckets {
    var hits: Hits

    constructor ()
      ensures hits == map[]
    {
      hits := map[];
    }

    method Take(key: string, max: nat, window: nat, now: Time) returns (ok: bool)
      modifies this
      ensures hits == Allow(old(hits), Call(key, max, now), window)
      ensures ok == !Full(old(hits), Call(key, max, now), window)
    {
      var cut := now - window;
      var recent := Compacted(if key in hits then hits[key] else [], cut);
      if |recent| >= max {
        hits := hits[key := recent];
        return false;
      }
      hits := hits[key := recent + [now]];
      // Too many keys: those whose hits are all too old go.
      if |hits| > MAX_KEYS { Sweep(cut); }
      return true;
    }

    method Sweep(cut: Time)
      modifies this
      ensures hits == DropDead(old(hits), cut)
    {
      var keys := hits.Keys;
      while keys != {}
        invariant keys <= hits.Keys <= old(hits).Keys
        invariant forall k :: k in hits ==> hits[k] == old(hits)[k]
        invariant forall k :: k in old(hits) && k !in keys ==> (k in hits <==> Recent(old(hits)[k], cut) != [])
        decreases |keys|
      {
        var k :| k in keys;
        keys := keys - {k};
        var alive := AnyAfter(hits[k], cut);
        if !alive { hits := hits - {k}; }
      }
    }
  }
}
