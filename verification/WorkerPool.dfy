/** The promise pool: workers share a counter and give way to each other only where they await. */
module WorkerPool {
  import opened Prelude

  /** `Busy` is between claiming an index and the end of its call; `Failed` is a worker whose call threw. */
  datatype Worker = Fresh | Busy(index: nat) | Finished | Failed {
    predicate Over() { Finished? || Failed? }
  }

  /** `calls` are the indices handed to the function, in order; results that were never set are None. */
  datatype Pool<R> = Pool(next: nat, workers: seq<Worker>, results: seq<Option<R>>, calls: seq<nat>)

  function Size(items: nat, concurrency: int): nat {
    var most := if items == 0 then 1 else items;
    if concurrency < 0 then 0 else if concurrency < most then concurrency else most
  }

  function Repeat<T>(x: T, n: nat): (s: seq<T>)
    ensures |s| == n && forall i :: 0 <= i < n ==> s[i] == x
  {
    seq(n, _ => x)
  }

  function Start<R>(items: nat, concurrency: int): Pool<R> {
    Pool(0, Repeat(Fresh, Size(items, concurrency)), Repeat(None, items), [])
  }

  /** One turn: worker `w` runs up to its next await or its end, after its call returned or threw. */
  datatype Turn = Turn(w: nat, threw: bool)

  predicate Enabled<R>(p: Pool<R>, t: Turn) { t.w < |p.workers| && !p.workers[t.w].Over() }

  /** The loop head: claim the next index, or stop. */
  function Claim<R>(p: Pool<R>, w: nat, items: nat): Pool<R>
    requires w < |p.workers|
  {
    if p.next < items then p.(next := p.next + 1, workers := p.workers[w := Busy(p.next)], calls := p.calls + [p.next])
    else p.(workers := p.workers[w := Finished])
  }

  function Take<T, R>(p: Pool<R>, t: Turn, items: seq<T>, fn: (T, nat) -> R): Pool<R>
  {
    if !Enabled(p, t) then p
    else if !p.workers[t.w].Busy? then Claim(p, t.w, |items|)
    else if t.threw then p.(workers := p.workers[t.w := Failed])
    else
      var i := p.workers[t.w].index;
      if i < |items| && i < |p.results| then Claim(p.(results := p.results[i := Some(fn(items[i], i))]), t.w, |items|) else p
  }

  function After<T, R>(items: seq<T>, concurrency: int, fn: (T, nat) -> R, turns: seq<Turn>): Pool<R> {
    if turns == [] then Start(|items|, concurrency)
    else Take(After(items, concurrency, fn, turns[..|turns| - 1]), turns[|turns| - 1], items, fn)
  }

  /** A schedule the event loop can produce: every turn goes to a worker that is not over. */
  ghost predicate Possible<T, R>(items: seq<T>, concurrency: int, fn: (T, nat) -> R, turns: seq<Turn>) {
    turns == [] ||
      var n := |turns| - 1;
      && Possible(items, concurrency, fn, turns[..n])
      && Enabled(After(items, concurrency, fn, turns[..n]), turns[n])
  }

  // ---- What every state keeps ---------------------------------------------------------------

  predicate Counted(calls: seq<nat>) { forall i :: 0 <= i < |calls| ==> calls[i] == i }

  ghost predicate InFlight<R>(p: Pool<R>, i: nat) { exists w :: 0 <= w < |p.workers| && p.workers[w] == Busy(i) }

  ghost predicate Inv<T, R>(p: Pool<R>, items: seq<T>, fn: (T, nat) -> R) {
    && Counted(p.calls) && |p.calls| == p.next <= |items| == |p.results|
    && (forall w :: 0 <= w < |p.workers| && p.workers[w].Busy? ==>
          p.workers[w].index < p.next && p.results[p.workers[w].index].None?)
    && (forall v, w :: 0 <= v < w < |p.workers| && p.workers[v].Busy? ==> p.workers[v] != p.workers[w])
    && (forall i :: 0 <= i < |items| && p.results[i].Some? ==> i < p.next && p.results[i] == Some(fn(items[i], i)))
    && (forall w :: 0 <= w < |p.workers| && p.workers[w].Finished? ==> p.next == |items|)
  }

  lemma ClaimInv<T, R>(p: Pool<R>, w: nat, items: seq<T>, fn: (T, nat) -> R)
    requires Inv(p.(workers := if w < |p.workers| then p.workers[w := Fresh] else p.workers), items, fn) && w < |p.workers|
    ensures Inv(Claim(p, w, |items|), items, fn)
  {
    var q := p.(workers := p.workers[w := Fresh]);
    assert forall v :: 0 <= v < |q.workers| && v != w ==> q.workers[v] == p.workers[v];
  }

  lemma TakeInv<T, R>(p: Pool<R>, t: Turn, items: seq<T>, fn: (T, nat) -> R)
    requires Inv(p, items, fn) && Enabled(p, t)
    ensures Inv(Take(p, t, items, fn), items, fn)
  {
    if !p.workers[t.w].Busy? {
      ClaimInv(p, t.w, items, fn);
    } else if !t.threw {
      var i := p.workers[t.w].index;
      ClaimInv(p.(results := p.results[i := Some(fn(items[i], i))]), t.w, items, fn);
    }
  }

  lemma {:induction false} AfterInv<T, R>(items: seq<T>, concurrency: int, fn: (T, nat) -> R, turns: seq<Turn>)
    requires Possible(items, concurrency, fn, turns)
    ensures Inv(After(items, concurrency, fn, turns), items, fn)
    ensures |After(items, concurrency, fn, turns).workers| == Size(|items|, concurrency)
  {
    if turns != [] {
      var n := |turns| - 1;
      AfterInv(items, concurrency, fn, turns[..n]);
      TakeInv(After(items, concurrency, fn, turns[..n]), turns[n], items, fn);
    }
  }

  // ---- Exactly once, bounded, terminating, complete -----------------------------------------

  /** In every interleaving the calls are 0, 1, 2, ...: no index is claimed twice or skipped. */
  lemma ClaimedExactlyOnce<T, R>(items: seq<T>, concurrency: int, fn: (T, nat) -> R, turns: seq<Turn>)
    requires Possible(items, concurrency, fn, turns)
    ensures var calls := After(items, concurrency, fn, turns).calls;
            |calls| <= |items| && forall i :: 0 <= i < |calls| ==> calls[i] == i
  {
    AfterInv(items, concurrency, fn, turns);
  }

  function BusyCount(workers: seq<Worker>): nat {
    if workers == [] then 0
    else BusyCount(workers[..|workers| - 1]) + (if workers[|workers| - 1].Busy? then 1 else 0)
  }

  lemma {:induction false} BusyAtMost(workers: seq<Worker>)
    ensures BusyCount(workers) <= |workers|
  {
    if workers != [] { BusyAtMost(workers[..|workers| - 1]); }
  }

  /** Never more than `concurrency` calls are in flight. */
  lemma InFlightBounded<T, R>(items: seq<T>, concurrency: nat, fn: (T, nat) -> R, turns: seq<Turn>)
    requires Possible(items, concurrency, fn, turns)
    ensures BusyCount(After(items, concurrency, fn, turns).workers) <= concurrency
  {
    AfterInv(items, concurrency, fn, turns);
    BusyAtMost(After(items, concurrency, fn, turns).workers);
  }

  function Unfinished(workers: seq<Worker>): nat {
    if workers == [] then 0
    else Unfinished(workers[..|workers| - 1]) + (if workers[|workers| - 1].Over() then 0 else 1)
  }

  lemma {:induction false} UnfinishedUpdate(workers: seq<Worker>, w: nat, x: Worker)
    requires w < |workers|
    ensures Unfinished(workers[w := x]) + (if workers[w].Over() then 0 else 1) == Unfinished(workers) + (if x.Over() then 0 else 1)
  {
    var n := |workers| - 1;
    if w == n {
      assert workers[w := x][..n] == workers[..n];
    } else {
      assert workers[w := x][..n] == workers[..n][w := x];
      UnfinishedUpdate(workers[..n], w, x);
    }
  }

  lemma {:induction false} AllUnfinished(n: nat)
    ensures Unfinished(Repeat(Fresh, n)) == n
  {
    if n > 0 {
      assert Repeat(Fresh, n)[..n - 1] == Repeat(Fresh, n - 1);
      AllUnfinished(n - 1);
    }
  }

  /** Every turn uses up one unit: an index claimed, or a worker over. So every schedule ends, after at
      most one turn per worker and per item. */
  lemma {:induction false} Terminates<T, R>(items: seq<T>, concurrency: int, fn: (T, nat) -> R, turns: seq<Turn>)
    requires Possible(items, concurrency, fn, turns)
    ensures var p := After(items, concurrency, fn, turns);
            |turns| + Unfinished(p.workers) + (|items| - p.next) == Size(|items|, concurrency) + |items|
  {
    if turns == [] {
      AllUnfinished(Size(|items|, concurrency));
    } else {
      var n := |turns| - 1;
      Terminates(items, concurrency, fn, turns[..n]);
      AfterInv(items, concurrency, fn, turns[..n]);
      var p, t := After(items, concurrency, fn, turns[..n]), turns[n];
      UnfinishedUpdate(p.workers, t.w, Busy(p.next));
      UnfinishedUpdate(p.workers, t.w, Finished);
      UnfinishedUpdate(p.workers, t.w, Failed);
    }
  }

  /** Until every worker is over some turn is possible. */
  lemma NeverStuck<R>(p: Pool<R>)
    ensures (exists t :: Enabled(p, t)) <==> exists w :: 0 <= w < |p.workers| && !p.workers[w].Over()
  {
    if w :| 0 <= w < |p.workers| && !p.workers[w].Over() {
      assert Enabled(p, Turn(w, false));
    }
  }

  lemma {:induction false} NobodyFailed<T, R>(items: seq<T>, concurrency: int, fn: (T, nat) -> R, turns: seq<Turn>)
    requires Possible(items, concurrency, fn, turns) && forall i :: 0 <= i < |turns| ==> !turns[i].threw
    ensures var p := After(items, concurrency, fn, turns);
            && (forall w :: 0 <= w < |p.workers| ==> !p.workers[w].Failed?)
            && (forall i :: 0 <= i < p.next && i < |p.results| && p.results[i].None? ==> InFlight(p, i))
  {
    if turns != [] {
      var n := |turns| - 1;
      NobodyFailed(items, concurrency, fn, turns[..n]);
      AfterInv(items, concurrency, fn, turns[..n]);
      KeepsInFlight(After(items, concurrency, fn, turns[..n]), turns[n], items, fn);
    }
  }

  lemma KeepsInFlight<T, R>(p: Pool<R>, t: Turn, items: seq<T>, fn: (T, nat) -> R)
    requires Inv(p, items, fn) && Enabled(p, t) && !t.threw
    requires forall i :: 0 <= i < p.next && p.results[i].None? ==> InFlight(p, i)
    ensures var q := Take(p, t, items, fn); forall i :: 0 <= i < q.next && q.results[i].None? ==> InFlight(q, i)
  {
    var q := Take(p, t, items, fn);
    forall i | 0 <= i < q.next && q.results[i].None? ensures InFlight(q, i) {
      if i == p.next {
        assert q.workers[t.w] == Busy(i);
      } else {
        var w :| 0 <= w < |p.workers| && p.workers[w] == Busy(i);
        assert w != t.w && q.workers[w] == Busy(i);
      }
    }
  }

  lemma NothingInFlight<R>(p: Pool<R>)
    requires forall w :: 0 <= w < |p.workers| ==> p.workers[w].Over()
    ensures forall i :: !InFlight(p, i)
  {}

  /** When no call throws and every worker is over, every result is in its place; this needs at least
      one worker, unless there is nothing to do. */
  lemma Complete<T, R>(items: seq<T>, concurrency: int, fn: (T, nat) -> R, turns: seq<Turn>)
    requires Possible(items, concurrency, fn, turns) && forall i :: 0 <= i < |turns| ==> !turns[i].threw
    requires var p := After(items, concurrency, fn, turns); forall w :: 0 <= w < |p.workers| ==> p.workers[w].Over()
    ensures var results := After(items, concurrency, fn, turns).results;
            && |results| == |items|
            && ((forall i :: 0 <= i < |items| ==> results[i] == Some(fn(items[i], i))) <==> concurrency >= 1 || items == [])
  {
    AfterInv(items, concurrency, fn, turns);
    NobodyFailed(items, concurrency, fn, turns);
    var p := After(items, concurrency, fn, turns);
    if concurrency >= 1 {
      assert p.workers[0].Finished?;
      NothingInFlight(p);
    } else if items != [] {
      Terminates(items, concurrency, fn, turns);
      assert p.workers == [] && p.next == 0;
      assert p.results[0].None?;
    }
  }
}
