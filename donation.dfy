/** The donation graph of the lottery scheduler and the effective ticket count
    that LotteryThreadState.getEffectivePriority computes over it, as pure
    functions. Threads are the indices 0 .. n-1 of the base-ticket list prio. */
module Donation {
  import Draw

  /** A wait queue: whether it transfers tickets to its holder, and the
      threads waiting in it, in wait-list order. */
  datatype Queue = Queue(transferPriority: bool, waitList: seq<nat>)

  /** Per thread: the queues on its donationList (the queues it holds), and
      the waiters of its joinQueue (threads blocked until it finishes). */
  datatype Graph = Graph(donationList: seq<seq<Queue>>, joinQueue: seq<seq<nat>>)

  predicate Below(ids: seq<nat>, n: nat) {
    forall i :: 0 <= i < |ids| ==> ids[i] < n
  }

  /** Every list is indexed by thread and names only threads below n. */
  predicate WellFormed(g: Graph, n: nat) {
    && |g.donationList| == n
    && |g.joinQueue| == n
    && (forall t, j :: 0 <= t < n && 0 <= j < |g.donationList[t]| ==> Below(g.donationList[t][j].waitList, n))
    && (forall t :: 0 <= t < n ==> Below(g.joinQueue[t], n))
  }

  /** The set of threads whose computation is in progress holds only threads. */
  predicate OnPath(path: set<nat>, n: nat) {
    forall u :: u in path ==> u < n
  }

  /** The waiters a queue contributes: all of them if it transfers, none otherwise. */
  function Contribution(q: Queue): seq<nat> {
    if q.transferPriority then q.waitList else []
  }

  /** The waiters of the transferring queues in qs, in list order. */
  function TransferWaiters(qs: seq<Queue>): seq<nat> {
    if qs == [] then [] else TransferWaiters(qs[..|qs| - 1]) + Contribution(qs[|qs| - 1])
  }

  /** A thread is a transferring waiter exactly when it waits in one of the
      queues that transfer tickets. */
  lemma {:induction false} TransferWaitersMembers(qs: seq<Queue>, x: nat)
    ensures x in TransferWaiters(qs) <==> exists j :: 0 <= j < |qs| && qs[j].transferPriority && x in qs[j].waitList
  {
    if qs != [] {
      var m := |qs| - 1;
      TransferWaitersMembers(qs[..m], x);
      assert forall j :: 0 <= j < m ==> qs[..m][j] == qs[j];
    }
  }

  /** One more queue adds its contribution. */
  lemma TransferWaitersStep(qs: seq<Queue>, i: nat)
    requires i < |qs|
    ensures TransferWaiters(qs[..i + 1]) == TransferWaiters(qs[..i]) + Contribution(qs[i])
  {
    assert qs[..i + 1][..i] == qs[..i];
  }

  lemma {:induction false} TransferWaitersBelow(qs: seq<Queue>, n: nat)
    requires forall j :: 0 <= j < |qs| ==> Below(qs[j].waitList, n)
    ensures Below(TransferWaiters(qs), n)
  {
    if qs != [] {
      TransferWaitersBelow(qs[..|qs| - 1], n);
    }
  }

  /** The threads whose tickets flow into t, in the order the source visits
      them: the transferring queues of its donationList, then its joinQueue. */
  function Donors(g: Graph, t: nat): (ds: seq<nat>)
    requires WellFormed(g, |g.joinQueue|) && t < |g.joinQueue|
    ensures Below(ds, |g.joinQueue|)
  {
    TransferWaitersBelow(g.donationList[t], |g.joinQueue|);
    TransferWaiters(g.donationList[t]) + g.joinQueue[t]
  }

  /** The threads 0 .. n-1. */
  function Ids(n: nat): (s: set<nat>)
    ensures forall u: nat :: u in s <==> u < n
    ensures |s| == n
  {
    if n == 0 then {} else Ids(n - 1) + {n - 1}
  }

  /** A path of distinct threads that misses thread t has room for t. */
  lemma PathFits(path: set<nat>, n: nat, t: nat)
    requires OnPath(path, n) && t < n && t !in path
    ensures |path + {t}| <= n
  {
    var all := Ids(n);
    assert path + {t} <= all;
    SubsetSize(path + {t}, all);
  }

  lemma {:induction false} SubsetSize(a: set<nat>, b: set<nat>)
    requires a <= b
    ensures |a| <= |b|
    decreases |b|
  {
    if a != {} {
      var x :| x in a;
      SubsetSize(a - {x}, b - {x});
    }
  }

  /** The effective ticket count of thread t when the threads in path are
      already being computed: a thread on the path counts only its base
      tickets; any other thread counts its base tickets plus the effective
      tickets of each of its donors, computed with t added to the path. */
  function Eff(prio: seq<int>, g: Graph, path: set<nat>, t: nat): int
    requires WellFormed(g, |prio|) && OnPath(path, |prio|) && t < |prio|
    decreases |prio| - |path|, 0, 0
  {
    if t in path then prio[t]
    else
      PathFits(path, |prio|, t);
      prio[t] + SumEff(prio, g, path + {t}, Donors(g, t))
  }

  /** The summed effective tickets of the donors ds, all computed with the
      same path. */
  function SumEff(prio: seq<int>, g: Graph, path: set<nat>, ds: seq<nat>): int
    requires WellFormed(g, |prio|) && OnPath(path, |prio|) && Below(ds, |prio|)
    decreases |prio| - |path|, 1, |ds|
  {
    if ds == [] then 0
    else
      var m := |ds| - 1;
      SumEff(prio, g, path, ds[..m]) + Eff(prio, g, path, ds[m])
  }

  /** Tickets add: with no negative base counts, a thread's effective tickets
      are at least its own base tickets. */
  lemma {:induction false} EffAtLeastBase(prio: seq<int>, g: Graph, path: set<nat>, t: nat)
    requires WellFormed(g, |prio|) && OnPath(path, |prio|) && t < |prio|
    requires Draw.NonNegative(prio)
    ensures Eff(prio, g, path, t) >= prio[t]
    decreases |prio| - |path|, 0, 0
  {
    if t !in path {
      PathFits(path, |prio|, t);
      SumEffNonNegative(prio, g, path + {t}, Donors(g, t));
    }
  }

  lemma {:induction false} SumEffNonNegative(prio: seq<int>, g: Graph, path: set<nat>, ds: seq<nat>)
    requires WellFormed(g, |prio|) && OnPath(path, |prio|) && Below(ds, |prio|)
    requires Draw.NonNegative(prio)
    ensures SumEff(prio, g, path, ds) >= 0
    decreases |prio| - |path|, 1, |ds|
  {
    if ds != [] {
      var m := |ds| - 1;
      SumEffNonNegative(prio, g, path, ds[..m]);
      EffAtLeastBase(prio, g, path, ds[m]);
    }
  }

  /** One more donor adds its effective tickets. */
  lemma SumEffStep(prio: seq<int>, g: Graph, path: set<nat>, ds: seq<nat>, k: nat)
    requires WellFormed(g, |prio|) && OnPath(path, |prio|) && Below(ds, |prio|) && k < |ds|
    ensures SumEff(prio, g, path, ds[..k + 1]) == SumEff(prio, g, path, ds[..k]) + Eff(prio, g, path, ds[k])
  {
    assert ds[..k + 1][..k] == ds[..k];
  }

  /** Summing over two donor lists in turn is summing over their concatenation. */
  lemma {:induction false} SumEffAppend(prio: seq<int>, g: Graph, path: set<nat>, a: seq<nat>, b: seq<nat>)
    requires WellFormed(g, |prio|) && OnPath(path, |prio|) && Below(a, |prio|) && Below(b, |prio|)
    ensures SumEff(prio, g, path, a + b) == SumEff(prio, g, path, a) + SumEff(prio, g, path, b)
    decreases |b|
  {
    if b == [] {
      assert a + b == a;
    } else {
      var m := |b| - 1;
      SumEffAppend(prio, g, path, a, b[..m]);
      assert (a + b)[..|a + b| - 1] == a + b[..m];
    }
  }

  /** One more held queue adds the summed effective tickets of its contribution. */
  lemma SumEffQueueStep(prio: seq<int>, g: Graph, path: set<nat>, qs: seq<Queue>, i: nat)
    requires WellFormed(g, |prio|) && OnPath(path, |prio|) && i < |qs|
    requires forall j :: 0 <= j < |qs| ==> Below(qs[j].waitList, |prio|)
    ensures Below(TransferWaiters(qs[..i]), |prio|) && Below(TransferWaiters(qs[..i + 1]), |prio|)
    ensures SumEff(prio, g, path, TransferWaiters(qs[..i + 1]))
         == SumEff(prio, g, path, TransferWaiters(qs[..i])) + SumEff(prio, g, path, Contribution(qs[i]))
  {
    TransferWaitersStep(qs, i);
    TransferWaitersBelow(qs[..i], |prio|);
    TransferWaitersBelow(qs[..i + 1], |prio|);
    SumEffAppend(prio, g, path, TransferWaiters(qs[..i]), Contribution(qs[i]));
  }

  /** The transferring waiters of two queue lists in turn are those of their
      concatenation. */
  lemma {:induction false} TransferWaitersAppend(a: seq<Queue>, b: seq<Queue>)
    ensures TransferWaiters(a + b) == TransferWaiters(a) + TransferWaiters(b)
    decreases |b|
  {
    if b == [] {
      assert a + b == a;
    } else {
      var m := |b| - 1;
      var front, q := b[..m], b[m];
      assert b == front + [q];
      assert a + b == (a + front) + [q];
      TransferWaitersAppend(a, front);
      TransferWaitersSnoc(a + front, q);
      TransferWaitersSnoc(front, q);
      Associate(TransferWaiters(a), TransferWaiters(front), Contribution(q));
    }
  }

  lemma Associate(x: seq<nat>, y: seq<nat>, z: seq<nat>)
    ensures x + y + z == x + (y + z)
  {
  }

  /** A queue appended at the end adds its contribution at the end. */
  lemma TransferWaitersSnoc(qs: seq<Queue>, q: Queue)
    ensures TransferWaiters(qs + [q]) == TransferWaiters(qs) + Contribution(q)
  {
    assert (qs + [q])[..|qs|] == qs;
  }

  /** Two graphs that give the same donors to every thread off the path give
      every thread the same effective tickets: the donors of a thread on the
      path are never consulted. */
  lemma {:induction false} EffLocal(prio: seq<int>, g: Graph, h: Graph, path: set<nat>, t: nat)
    requires WellFormed(g, |prio|) && WellFormed(h, |prio|) && OnPath(path, |prio|) && t < |prio|
    requires forall v :: 0 <= v < |prio| && v !in path ==> Donors(g, v) == Donors(h, v)
    ensures Eff(prio, g, path, t) == Eff(prio, h, path, t)
    decreases |prio| - |path|, 0, 0
  {
    if t !in path {
      PathFits(path, |prio|, t);
      SumEffLocal(prio, g, h, path + {t}, Donors(g, t));
    }
  }

  lemma {:induction false} SumEffLocal(prio: seq<int>, g: Graph, h: Graph, path: set<nat>, ds: seq<nat>)
    requires WellFormed(g, |prio|) && WellFormed(h, |prio|) && OnPath(path, |prio|) && Below(ds, |prio|)
    requires forall v :: 0 <= v < |prio| && v !in path ==> Donors(g, v) == Donors(h, v)
    ensures SumEff(prio, g, path, ds) == SumEff(prio, h, path, ds)
    decreases |prio| - |path|, 1, |ds|
  {
    if ds != [] {
      var m := |ds| - 1;
      SumEffLocal(prio, g, h, path, ds[..m]);
      EffLocal(prio, g, h, path, ds[m]);
    }
  }

  /** Inserting donor x among the donors of thread t (t off the path) raises
      t's effective tickets by exactly x's effective tickets, computed with t
      on the path; no other thread's donors change. */
  lemma DonorAdds(prio: seq<int>, g: Graph, h: Graph, path: set<nat>, t: nat, x: nat, front: seq<nat>, back: seq<nat>)
    requires WellFormed(g, |prio|) && WellFormed(h, |prio|) && OnPath(path, |prio|)
    requires t < |prio| && x < |prio| && t !in path
    requires Donors(g, t) == front + back && Donors(h, t) == front + [x] + back
    requires forall v :: 0 <= v < |prio| && v != t ==> Donors(g, v) == Donors(h, v)
    ensures Eff(prio, h, path, t) == Eff(prio, g, path, t) + Eff(prio, g, path + {t}, x)
  {
    var p := path + {t};
    PathFits(path, |prio|, t);
    assert Below(front, |prio|) && Below(back, |prio|) by {
      assert forall i :: 0 <= i < |front| ==> front[i] == Donors(g, t)[i];
      assert forall i :: 0 <= i < |back| ==> back[i] == Donors(g, t)[|front| + i];
    }
    SumEffLocal(prio, g, h, p, Donors(h, t));
    EffLocal(prio, g, h, p, x);
    SumEffAppend(prio, g, p, front + [x], back);
    SumEffAppend(prio, g, p, front, [x]);
    SumEffAppend(prio, g, p, front, back);
    assert [x][..0] == [];
  }

  /** The graph after thread x starts waiting in t's joinQueue. */
  function AddJoinWaiter(g: Graph, t: nat, x: nat): Graph
    requires t < |g.joinQueue|
  {
    g.(joinQueue := g.joinQueue[t := g.joinQueue[t] + [x]])
  }

  /** A thread that starts waiting in t's joinQueue adds its effective
      tickets to t's. */
  lemma JoinWaiterAdds(prio: seq<int>, g: Graph, path: set<nat>, t: nat, x: nat)
    requires WellFormed(g, |prio|) && OnPath(path, |prio|)
    requires t < |prio| && x < |prio| && t !in path
    ensures WellFormed(AddJoinWaiter(g, t, x), |prio|)
    ensures Eff(prio, AddJoinWaiter(g, t, x), path, t) == Eff(prio, g, path, t) + Eff(prio, g, path + {t}, x)
  {
    var h := AddJoinWaiter(g, t, x);
    assert WellFormed(h, |prio|);
    assert Donors(g, t) == Donors(g, t) + [];
    DonorAdds(prio, g, h, path, t, x, Donors(g, t), []);
  }

  /** Replacing the j-th queue of a list replaces its contribution. */
  lemma TransferWaitersUpdate(qs: seq<Queue>, j: nat, q: Queue)
    requires j < |qs|
    ensures TransferWaiters(qs) == TransferWaiters(qs[..j]) + Contribution(qs[j]) + TransferWaiters(qs[j + 1..])
    ensures TransferWaiters(qs[j := q]) == TransferWaiters(qs[..j]) + Contribution(q) + TransferWaiters(qs[j + 1..])
  {
    var before, after := qs[..j], qs[j + 1..];
    assert qs == before + [qs[j]] + after;
    assert qs[j := q] == before + [q] + after;
    TransferWaitersAppend(before + [qs[j]], after);
    TransferWaitersAppend(before + [q], after);
    TransferWaitersAppend(before, [qs[j]]);
    TransferWaitersAppend(before, [q]);
    assert [q][..0] == [] && [qs[j]][..0] == [];
  }

  /** The graph after thread x starts waiting in the j-th queue held by t. */
  function AddQueueWaiter(g: Graph, t: nat, j: nat, x: nat): Graph
    requires t < |g.donationList| && j < |g.donationList[t]|
  {
    var q := g.donationList[t][j];
    g.(donationList := g.donationList[t := g.donationList[t][j := q.(waitList := q.waitList + [x])]])
  }

  lemma AddQueueWaiterWellFormed(g: Graph, n: nat, t: nat, j: nat, x: nat)
    requires WellFormed(g, n) && t < n && x < n && j < |g.donationList[t]|
    ensures WellFormed(AddQueueWaiter(g, t, j, x), n)
  {
    var h := AddQueueWaiter(g, t, j, x);
    forall u, i | 0 <= u < n && 0 <= i < |h.donationList[u]|
      ensures Below(h.donationList[u][i].waitList, n)
    {
      if u != t || i != j {
        assert h.donationList[u][i] == g.donationList[u][i];
      }
    }
  }

  lemma AddQueueWaiterOthers(g: Graph, n: nat, t: nat, j: nat, x: nat)
    requires WellFormed(g, n) && t < n && x < n && j < |g.donationList[t]|
    requires WellFormed(AddQueueWaiter(g, t, j, x), n)
    ensures forall v :: 0 <= v < n && v != t ==> Donors(g, v) == Donors(AddQueueWaiter(g, t, j, x), v)
  {
    var h := AddQueueWaiter(g, t, j, x);
    forall v | 0 <= v < n && v != t ensures Donors(g, v) == Donors(h, v) {
      assert h.donationList[v] == g.donationList[v];
    }
  }

  lemma Regroup(a: seq<nat>, b: seq<nat>, c: seq<nat>, d: seq<nat>, x: nat)
    ensures a + b + c + d == (a + b) + (c + d)
    ensures a + (b + [x]) + c + d == (a + b) + [x] + (c + d)
  {
  }

  /** A thread that starts waiting in the j-th queue held by t adds its
      effective tickets to t's when that queue transfers tickets, and
      nothing when it does not. */
  lemma QueueWaiterAdds(prio: seq<int>, g: Graph, path: set<nat>, t: nat, j: nat, x: nat)
    requires WellFormed(g, |prio|) && OnPath(path, |prio|)
    requires t < |prio| && x < |prio| && t !in path && j < |g.donationList[t]|
    ensures WellFormed(AddQueueWaiter(g, t, j, x), |prio|)
    ensures Eff(prio, AddQueueWaiter(g, t, j, x), path, t)
         == Eff(prio, g, path, t) + (if g.donationList[t][j].transferPriority then Eff(prio, g, path + {t}, x) else 0)
  {
    var q := g.donationList[t][j];
    var h := AddQueueWaiter(g, t, j, x);
    AddQueueWaiterWellFormed(g, |prio|, t, j, x);
    AddQueueWaiterOthers(g, |prio|, t, j, x);
    var qs := g.donationList[t];
    var q' := q.(waitList := q.waitList + [x]);
    assert h.donationList[t] == qs[j := q'] && h.joinQueue[t] == g.joinQueue[t];
    TransferWaitersUpdate(qs, j, q');
    var front := TransferWaiters(qs[..j]);
    var rest := TransferWaiters(qs[j + 1..]);
    var jq := g.joinQueue[t];
    if q.transferPriority {
      var wl := q.waitList;
      Regroup(front, wl, rest, jq, x);
      DonorAdds(prio, g, h, path, t, x, front + wl, rest + jq);
    } else {
      assert Donors(h, t) == Donors(g, t);
      EffLocal(prio, g, h, path, t);
    }
  }

  /** Two threads that each wait in a transferring queue the other holds. */
  function CycleGraph(): Graph {
    Graph([[Queue(true, [1])], [Queue(true, [0])]], [[], []])
  }

  lemma CycleDonors()
    ensures WellFormed(CycleGraph(), 2)
    ensures Donors(CycleGraph(), 0) == [1] && Donors(CycleGraph(), 1) == [0]
  {
    var g := CycleGraph();
    assert TransferWaiters(g.donationList[0]) == [1];
    assert TransferWaiters(g.donationList[1]) == [0];
  }

  /** Thread 1, reached from thread 0, counts thread 0's base tickets once. */
  lemma CycleInner(a: int, b: int)
    ensures WellFormed(CycleGraph(), 2)
    ensures Eff([a, b], CycleGraph(), {0}, 1) == a + b
  {
    var g, prio := CycleGraph(), [a, b];
    CycleDonors();
    assert SumEff(prio, g, {0, 1}, [0]) == a by {
      assert [0][..0] == [];
      assert Eff(prio, g, {0, 1}, 0) == a;
    }
    assert {0} + {1} == {0, 1};
  }

  /** In the cycle of CycleGraph the source's guard does not give either
      thread its base tickets: thread 0 gets its own base tickets twice plus
      thread 1's, and the value computed for thread 1 on the way (the one
      cached for it) is the sum of both base counts. */
  lemma TwoThreadCycle(a: int, b: int)
    ensures WellFormed(CycleGraph(), 2)
    ensures Eff([a, b], CycleGraph(), {0}, 1) == a + b
    ensures Eff([a, b], CycleGraph(), {}, 0) == 2 * a + b
  {
    var g, prio := CycleGraph(), [a, b];
    CycleDonors();
    CycleInner(a, b);
    assert SumEff(prio, g, {0}, [1]) == a + b by {
      assert [1][..0] == [];
    }
    assert {} + {0} == {0};
  }

  /** A fresh computation for thread 1 of CycleGraph counts thread 1's base
      tickets twice: more than the a + b that a computation for thread 0
      leaves in thread 1's cache. */
  lemma CycleFreshSecond(a: int, b: int)
    ensures WellFormed(CycleGraph(), 2)
    ensures Eff([a, b], CycleGraph(), {}, 1) == a + 2 * b
  {
    var g, prio := CycleGraph(), [a, b];
    CycleDonors();
    assert SumEff(prio, g, {0, 1}, [1]) == b by {
      assert [1][..0] == [];
      assert Eff(prio, g, {0, 1}, 1) == b;
    }
    assert Eff(prio, g, {1}, 0) == a + b by {
      assert {1} + {0} == {0, 1};
    }
    assert SumEff(prio, g, {1}, [0]) == a + b by {
      assert [0][..0] == [];
    }
    assert {} + {1} == {1};
  }

  /** A holder with one ticket whose transferring lock has one waiter with
      five tickets (and nothing else) has six effective tickets. */
  lemma LockDonationExample()
    ensures var g := Graph([[Queue(true, [1])], []], [[], []]);
      WellFormed(g, 2) && Eff([1, 5], g, {}, 0) == 6
  {
    var g := Graph([[Queue(true, [1])], []], [[], []]);
    assert WellFormed(g, 2);
    assert Donors(g, 0) == [1] && Donors(g, 1) == [];
    assert [1][..0] == [];
    assert {} + {0} == {0};
    assert Eff([1, 5], g, {0}, 1) == 5;
    assert SumEff([1, 5], g, {0}, [1]) == 5;
    assert Eff([1, 5], g, {}, 0) == 1 + SumEff([1, 5], g, {0}, [1]);
  }
}
