/** The lottery scheduler's per-thread state and its operations: base tickets
    with range-checked updates, the cached and recursively recomputed
    effective tickets, and the weighted draw that picks the next thread from
    a wait queue. Threads are the indices 0 .. n-1. */
module Scheduler {
  import opened Wrappers
  import opened Tickets
  import Draw
  import opened Donation

  /** The cached effective ticket count of a thread; Expired forces the next
      query to recompute it. */
  datatype Cache = Expired | Known(value: int)

  /** c is the value the recursive computation gives thread u along some
      in-progress path that does not contain u. */
  ghost predicate IsPathValue(prio: seq<int>, g: Graph, u: nat, c: Cache) {
    && WellFormed(g, |prio|)
    && u < |prio|
    && c.Known?
    && exists p: set<nat> :: OnPath(p, |prio|) && u !in p && c.value == Eff(prio, g, p, u)
  }

  /** A cached value left by a computation is at least the thread's base tickets. */
  lemma PathValueAtLeastBase(prio: seq<int>, g: Graph, u: nat, c: Cache)
    requires Draw.NonNegative(prio) && IsPathValue(prio, g, u, c)
    ensures c.value >= prio[u]
  {
    var p: set<nat> :| OnPath(p, |prio|) && u !in p && c.value == Eff(prio, g, p, u);
    EffAtLeastBase(prio, g, p, u);
  }

  /** Between two cache states: the threads in fixed keep their caches, and
      every thread outside exempt either keeps its cache or ends holding a
      path value. */
  ghost predicate Evolved(prio: seq<int>, g: Graph, before: seq<Cache>, after: seq<Cache>, fixed: set<nat>, exempt: set<nat>) {
    && |after| == |before|
    && (forall u :: 0 <= u < |after| && u in fixed ==> after[u] == before[u])
    && (forall u :: 0 <= u < |after| && u !in exempt ==> after[u] == before[u] || IsPathValue(prio, g, u, after[u]))
  }

  lemma EvolvedTrans(prio: seq<int>, g: Graph, a: seq<Cache>, b: seq<Cache>, c: seq<Cache>, fixed: set<nat>, exempt: set<nat>)
    requires Evolved(prio, g, a, b, fixed, exempt) && Evolved(prio, g, b, c, fixed, exempt)
    ensures Evolved(prio, g, a, c, fixed, exempt)
  {
  }

  /** A computation for a thread off the path fixes the path, exempts that
      thread, and leaves it holding its value. */
  lemma EvolvedSettle(prio: seq<int>, g: Graph, a: seq<Cache>, b: seq<Cache>, path: set<nat>, t: nat, r: int)
    requires Evolved(prio, g, a, b, path, {t}) && WellFormed(g, |prio|) && OnPath(path, |prio|)
    requires t < |b| && t < |prio| && t !in path && b[t] == Known(r) && r == Eff(prio, g, path, t)
    ensures Evolved(prio, g, a, b, path, {})
  {
    assert IsPathValue(prio, g, t, b[t]);
  }

  /** The weights w of the first waiters of wl: each is the cache the waiter
      had in before, or a value computed for it along some path. */
  ghost predicate WeightsFrom(prio: seq<int>, g: Graph, before: seq<Cache>, wl: seq<nat>, w: seq<int>) {
    && |w| <= |wl|
    && forall j :: 0 <= j < |w| ==>
         wl[j] < |before| && (Known(w[j]) == before[wl[j]] || IsPathValue(prio, g, wl[j], Known(w[j])))
  }

  lemma WeightsFromSnoc(prio: seq<int>, g: Graph, before: seq<Cache>, wl: seq<nat>, w: seq<int>, e: int)
    requires WeightsFrom(prio, g, before, wl, w) && |w| < |wl| && wl[|w|] < |before|
    requires Known(e) == before[wl[|w|]] || IsPathValue(prio, g, wl[|w|], Known(e))
    ensures WeightsFrom(prio, g, before, wl, w + [e])
  {
  }

  /** When every cache held beforehand was itself computed along some path,
      so is every weight of the draw, and no weight is below the waiter's
      base tickets. */
  lemma WeightsAtLeastBase(prio: seq<int>, g: Graph, before: seq<Cache>, wl: seq<nat>, w: seq<int>)
    requires Draw.NonNegative(prio) && WeightsFrom(prio, g, before, wl, w)
    requires forall u :: 0 <= u < |before| && before[u].Known? ==> IsPathValue(prio, g, u, before[u])
    ensures forall j :: 0 <= j < |w| ==> IsPathValue(prio, g, wl[j], Known(w[j]))
    ensures forall j :: 0 <= j < |w| ==> wl[j] < |prio| && w[j] >= prio[wl[j]]
  {
    forall j | 0 <= j < |w| ensures IsPathValue(prio, g, wl[j], Known(w[j])) && w[j] >= prio[wl[j]] {
      PathValueAtLeastBase(prio, g, wl[j], Known(w[j]));
    }
  }

  /** The set of threads whose effective tickets are being computed: the
      HashSet passed down the recursion. */
  class PathSet {
    var elems: set<nat>

    constructor ()
      ensures elems == {}
    {
      elems := {};
    }

    method Contains(x: nat) returns (b: bool)
      ensures b <==> x in elems
    {
      b := x in elems;
    }

    method Add(x: nat)
      modifies this
      ensures elems == old(elems) + {x}
    {
      elems := elems + {x};
    }

    method Remove(x: nat)
      modifies this
      ensures elems == old(elems) - {x}
    {
      elems := elems - {x};
    }
  }

  class LotteryScheduler {
    /** Number of threads known to the scheduler. */
    const n: nat
    /** Base tickets of each thread. */
    const priority: array<int>
    /** Cached effective tickets of each thread. */
    const effective: array<Cache>
    /** The queues each thread holds and the waiters of its joinQueue. */
    var graph: Graph

    ghost predicate Valid()
      reads this, priority, effective
    {
      && priority.Length == n
      && effective.Length == n
      && (forall t :: 0 <= t < n ==> InRange(priority[t]))
      && (forall t :: 0 <= t < n && effective[t].Known? ==> effective[t].value >= 1)
      && WellFormed(graph, n)
    }

    /** The scheduler state of n threads with the given base tickets, every
        cache expired. */
    constructor (prios: seq<int>, g: Graph)
      requires forall t :: 0 <= t < |prios| ==> InRange(prios[t])
      requires WellFormed(g, |prios|)
      ensures Valid() && fresh(priority) && fresh(effective)
      ensures n == |prios| && priority[..] == prios && graph == g
      ensures forall t :: 0 <= t < n ==> effective[t] == Expired
    {
      n := |prios|;
      priority := new int[|prios|](i requires 0 <= i < |prios| => prios[i]);
      effective := new Cache[|prios|](_ => Expired);
      graph := g;
    }

    /** The scheduler state of n threads as they are first seen: each with
        the default tickets and an expired cache. */
    constructor Defaults(count: nat, g: Graph)
      requires WellFormed(g, count)
      ensures Valid() && fresh(priority) && fresh(effective)
      ensures n == count && graph == g
      ensures forall t :: 0 <= t < n ==> priority[t] == PriorityDefault && effective[t] == Expired
    {
      n := count;
      priority := new int[count](_ => PriorityDefault);
      effective := new Cache[count](_ => Expired);
      graph := g;
    }

    /** The base tickets of thread t. */
    method GetPriority(t: nat) returns (r: int)
      requires Valid() && t < n
      ensures r == priority[t] && InRange(r)
    {
      r := priority[t];
    }

    /** Sets the base tickets of thread t, which must be in range. */
    method SetPriority(t: nat, p: int)
      requires Valid() && t < n && InRange(p)
      modifies priority
      ensures Valid()
      ensures priority[..] == old(priority[..])[t := p]
    {
      priority[t] := p;
    }

    /** Adds one ticket to the current thread unless it already holds the
        maximum; reports whether it did. */
    method IncreasePriority(current: nat) returns (ok: bool)
      requires Valid() && current < n
      modifies priority
      ensures Valid()
      ensures ok <==> old(priority[current]) != PriorityMaximum
      ensures priority[..] == match Increased(old(priority[current]))
                              case Some(p) => old(priority[..])[current := p]
                              case None => old(priority[..])
    {
      var p := GetPriority(current);
      if p == PriorityMaximum {
        return false;
      }
      SetPriority(current, p + 1);
      return true;
    }

    /** Takes one ticket from the current thread unless it already holds the
        minimum; reports whether it did. */
    method DecreasePriority(current: nat) returns (ok: bool)
      requires Valid() && current < n
      modifies priority
      ensures Valid()
      ensures ok <==> old(priority[current]) != PriorityMinimum
      ensures priority[..] == match Decreased(old(priority[current]))
                              case Some(p) => old(priority[..])[current := p]
                              case None => old(priority[..])
    {
      var p := GetPriority(current);
      if p == PriorityMinimum {
        return false;
      }
      SetPriority(current, p - 1);
      return true;
    }

    /** The effective tickets of thread t given the in-progress set ps. A
        thread already in ps yields its base tickets and changes nothing.
        Otherwise the result, also left in t's cache, is t's base tickets plus
        the effective tickets of each donor, each computed with t added to ps
        around the call; ps ends as it started. Every cache the call changes
        ends holding a value computed along some path. */
    method EffectiveFrom(t: nat, ps: PathSet) returns (r: int)
      requires Valid() && t < n && OnPath(ps.elems, n)
      modifies effective, ps
      decreases n - |ps.elems|, 4
      ensures Valid()
      ensures ps.elems == old(ps.elems)
      ensures r == Eff(priority[..], graph, old(ps.elems), t)
      ensures r >= priority[t]
      ensures t in old(ps.elems) ==> r == priority[t] && effective[..] == old(effective[..])
      ensures t !in old(ps.elems) ==> effective[t] == Known(r)
      ensures Evolved(priority[..], graph, old(effective[..]), effective[..], ps.elems, {})
    {
      var onPath := ps.Contains(t);
      if onPath {
        return priority[t];
      }
      PathFits(ps.elems, n, t);
      effective[t] := Known(priority[t]);
      ghost var start := effective[..];
      AddQueues(t, ps);
      ghost var mid := effective[..];
      var jq := graph.joinQueue[t];
      TransferWaitersBelow(graph.donationList[t], n);
      SumEffAppend(priority[..], graph, ps.elems + {t}, TransferWaiters(graph.donationList[t]), jq);
      AddDonors(t, jq, ps);
      r := effective[t].value;
      EvolvedTrans(priority[..], graph, old(effective[..]), start, mid, ps.elems, {t});
      EvolvedTrans(priority[..], graph, old(effective[..]), mid, effective[..], ps.elems, {t});
      EvolvedSettle(priority[..], graph, old(effective[..]), effective[..], ps.elems, t, r);
      EffAtLeastBase(priority[..], graph, ps.elems, t);
    }

    /** The donationList loop of the computation for thread t: the waiters
        of each transferring queue t holds are added to t's running value. */
    method AddQueues(t: nat, ps: PathSet)
      requires Valid() && t < n && OnPath(ps.elems, n) && t !in ps.elems
      requires effective[t].Known?
      modifies effective, ps
      decreases n - |ps.elems|, 3
      ensures Valid()
      ensures ps.elems == old(ps.elems)
      ensures Below(TransferWaiters(graph.donationList[t]), n)
      ensures effective[t] == Known(old(effective[t]).value
        + SumEff(priority[..], graph, ps.elems + {t}, TransferWaiters(graph.donationList[t])))
      ensures Evolved(priority[..], graph, old(effective[..]), effective[..], ps.elems, {t})
    {
      ghost var prio, fixed, before := priority[..], ps.elems, effective[..];
      ghost var path := fixed + {t};
      ghost var start := effective[t].value;
      PathFits(ps.elems, n, t);
      var qs := graph.donationList[t];
      var i := 0;
      while i < |qs|
        invariant 0 <= i <= |qs|
        invariant Valid() && ps.elems == fixed
        invariant Below(TransferWaiters(qs[..i]), n)
        invariant effective[t] == Known(start + SumEff(prio, graph, path, TransferWaiters(qs[..i])))
        invariant Evolved(prio, graph, before, effective[..], fixed, {t})
      {
        SumEffQueueStep(prio, graph, path, qs, i);
        ghost var mid := effective[..];
        AddQueue(t, qs[i], ps);
        EvolvedTrans(prio, graph, before, mid, effective[..], fixed, {t});
        i := i + 1;
      }
      assert qs[..i] == qs;
    }

    /** One queue t holds: when it transfers tickets, the effective tickets
        of its waiters are added to t's running value; otherwise nothing. */
    method AddQueue(t: nat, q: Queue, ps: PathSet)
      requires Valid() && t < n && OnPath(ps.elems, n) && t !in ps.elems && Below(q.waitList, n)
      requires effective[t].Known?
      modifies effective, ps
      decreases n - |ps.elems|, 2
      ensures Valid()
      ensures ps.elems == old(ps.elems)
      ensures effective[t] == Known(old(effective[t]).value
        + SumEff(priority[..], graph, ps.elems + {t}, Contribution(q)))
      ensures Evolved(priority[..], graph, old(effective[..]), effective[..], ps.elems, {t})
    {
      PathFits(ps.elems, n, t);
      if q.transferPriority {
        AddDonors(t, q.waitList, ps);
      }
    }

    /** One donor loop of the computation for thread t: each donor in ds in
        turn adds its effective tickets to t's running value. */
    method AddDonors(t: nat, ds: seq<nat>, ps: PathSet)
      requires Valid() && t < n && OnPath(ps.elems, n) && t !in ps.elems && Below(ds, n)
      requires effective[t].Known?
      modifies effective, ps
      decreases n - |ps.elems|, 1
      ensures Valid()
      ensures ps.elems == old(ps.elems)
      ensures effective[t] == Known(old(effective[t]).value + SumEff(priority[..], graph, ps.elems + {t}, ds))
      ensures Evolved(priority[..], graph, old(effective[..]), effective[..], ps.elems, {t})
    {
      ghost var prio, fixed, before := priority[..], ps.elems, effective[..];
      ghost var path := fixed + {t};
      ghost var start := effective[t].value;
      PathFits(ps.elems, n, t);
      var k := 0;
      while k < |ds|
        invariant 0 <= k <= |ds|
        invariant Valid() && ps.elems == fixed
        invariant effective[t] == Known(start + SumEff(prio, graph, path, ds[..k]))
        invariant Evolved(prio, graph, before, effective[..], fixed, {t})
      {
        ghost var mid := effective[..];
        AddDonor(t, ds[k], ps);
        EvolvedTrans(prio, graph, before, mid, effective[..], fixed, {t});
        SumEffStep(prio, graph, path, ds, k);
        k := k + 1;
      }
      assert ds[..k] == ds;
    }

    /** One step of a donor loop: t joins ps, donor d's effective tickets
        are added to t's running value, and t leaves ps again. */
    method AddDonor(t: nat, d: nat, ps: PathSet)
      requires Valid() && t < n && d < n && OnPath(ps.elems, n) && t !in ps.elems
      requires effective[t].Known?
      modifies effective, ps
      decreases n - |ps.elems|, 0
      ensures Valid()
      ensures ps.elems == old(ps.elems)
      ensures effective[t] == Known(old(effective[t]).value + Eff(priority[..], graph, ps.elems + {t}, d))
      ensures Evolved(priority[..], graph, old(effective[..]), effective[..], ps.elems, {t})
    {
      PathFits(ps.elems, n, t);
      ps.Add(t);
      var v := EffectiveFrom(d, ps);
      ps.Remove(t);
      effective[t] := Known(effective[t].value + v);
      assert ps.elems + {t} == old(ps.elems) + {t};
    }

    /** The effective tickets of thread t: the cached value when there is
        one, otherwise a fresh computation from an empty in-progress set. */
    method GetEffectivePriority(t: nat) returns (r: int)
      requires Valid() && t < n
      modifies effective
      ensures Valid()
      ensures r >= 1
      ensures old(effective[t]).Known? ==> r == old(effective[t]).value && effective[..] == old(effective[..])
      ensures old(effective[t]).Expired? ==>
        r == Eff(priority[..], graph, {}, t) && effective[t] == Known(r)
      ensures forall u :: 0 <= u < n ==>
        effective[u] == old(effective[u]) || IsPathValue(priority[..], graph, u, effective[u])
    {
      if effective[t].Known? {
        return effective[t].value;
      }
      var ps := new PathSet();
      r := EffectiveFrom(t, ps);
    }

    /** The index of the first running total above now, if any. */
    static method Search(sum: array<int>, now: int) returns (k: Option<nat>)
      ensures k.Some? ==> k.value < sum.Length && now < sum[k.value]
      ensures k.Some? ==> forall j :: 0 <= j < k.value ==> sum[j] <= now
      ensures k.None? ==> forall j :: 0 <= j < sum.Length ==> sum[j] <= now
    {
      var i := 0;
      while i < sum.Length
        invariant 0 <= i <= sum.Length
        invariant forall j :: 0 <= j < i ==> sum[j] <= now
      {
        if now < sum[i] {
          return Some(i);
        }
        i := i + 1;
      }
      return None;
    }

    /** The first loop of the draw: the effective tickets w of the waiters
        of wl, their running totals in sum and their total tot. */
    method SumTickets(wl: seq<nat>) returns (sum: array<int>, tot: int, ghost w: seq<int>)
      requires Valid() && Below(wl, n)
      modifies effective
      ensures Valid() && fresh(sum)
      ensures |w| == |wl| && Draw.Positive(w)
      ensures tot == Draw.Total(w) && sum[..] == Draw.PrefixSums(w)
      ensures WeightsFrom(priority[..], graph, old(effective[..]), wl, w)
      ensures forall u :: 0 <= u < n ==>
        effective[u] == old(effective[u]) || IsPathValue(priority[..], graph, u, effective[u])
    {
      tot := 0;
      sum := new int[|wl|];
      var i := 0;
      w := [];
      while i < |wl|
        invariant 0 <= i <= |wl| && |w| == i
        invariant Valid()
        invariant Draw.Positive(w)
        invariant tot == Draw.Total(w)
        invariant sum[..i] == Draw.PrefixSums(w)
        invariant WeightsFrom(priority[..], graph, old(effective[..]), wl, w)
        invariant forall u :: 0 <= u < n ==>
          effective[u] == old(effective[u]) || IsPathValue(priority[..], graph, u, effective[u])
      {
        ghost var before := effective[wl[i]];
        var e := GetEffectivePriority(wl[i]);
        if before.Expired? {
          assert OnPath({}, n);
          assert IsPathValue(priority[..], graph, wl[i], Known(e));
        }
        WeightsFromSnoc(priority[..], graph, old(effective[..]), wl, w, e);
        tot := tot + e;
        sum[i] := tot;
        assert (w + [e])[..|w|] == w;
        w := w + [e];
        i := i + 1;
      }
      assert sum[..] == sum[..i];
    }

    /** Picks the next thread of the wait list wl by lottery. Each waiter's
        effective tickets w are summed into running totals; the value
        nextInt(total) is drawn, and the waiter whose span of ticket values
        holds it wins. No thread is picked only from an empty list. */
    method PickNextThread(wl: seq<nat>, nextInt: int -> int) returns (r: Option<nat>, ghost w: seq<int>, now: int)
      requires Valid() && Below(wl, n)
      requires forall b :: 0 < b ==> 0 <= nextInt(b) < b
      modifies effective
      ensures Valid()
      ensures r.None? <==> wl == []
      ensures wl == [] ==> effective[..] == old(effective[..])
      ensures |w| == |wl| && Draw.Positive(w)
      ensures WeightsFrom(priority[..], graph, old(effective[..]), wl, w)
      ensures r.Some? ==>
        && now == nextInt(Draw.Total(w))
        && 0 <= now < Draw.Total(w)
        && r.value == wl[Draw.Winner(w, now)]
      ensures forall u :: 0 <= u < n ==>
        effective[u] == old(effective[u]) || IsPathValue(priority[..], graph, u, effective[u])
    {
      if wl == [] {
        return None, [], 0;
      }
      var sum, tot;
      sum, tot, w := SumTickets(wl);
      Draw.PrefixSumsIncrease(w);
      Draw.TotalAtLeastLength(w);
      assert sum[|wl| - 1] == tot;
      now := nextInt(tot);
      var k := Search(sum, now);
      match k
      case None =>
        assert false;
      case Some(j) =>
        Draw.FirstAboveIsWinner(w, now, j);
        r := Some(wl[j]);
    }
  }
}
