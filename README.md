# Lottery scheduler of Nachos (SJTU edition)

A Dafny model of the lottery scheduler in
`nachos-sjtu/src/nachos/threads/LotteryScheduler.java`. Each thread holds a
number of tickets. When a wait queue must hand over a resource, it holds a
lottery among the tickets of its waiters, and the thread holding the winning
ticket is picked. Tickets flow to a thread from the waiters it blocks. These
are the waiters of every transferring queue the thread holds and the waiters
of its join queue. The donated tickets add to the thread's own tickets; they
do not take a maximum.

Threads are the indices `0 .. n-1`. The model has five modules:

- `Wrappers` (`wrappers.dfy`) holds `Option`, which stands for a Java
  reference that may be null.
- `Tickets` (`tickets.dfy`) holds the ticket constants and the range check.
  It also has `Increased` and `Decreased`, the refused-or-one-step updates
  behind `increasePriority` and `decreasePriority`.
- `Draw` (`draw.dfy`) gives the weighted draw as mathematics. It has the
  running totals, the winner of a drawn value, and the count of draws each
  waiter wins.
- `Donation` (`donation.dfy`) holds the donation graph and the pure function
  `Eff`. `Eff(prio, g, path, t)` is the effective ticket count that
  `getEffectivePriority(set)` computes for thread `t` when `path` is the set
  of threads whose computation is in progress.
- `Scheduler` (`scheduler.dfy`) has the class `LotteryScheduler`, which holds
  all threads' scheduling state. Its fields are:
  - `priority`: the base tickets, as an array;
  - `effective`: the cached effective tickets, as an array;
  - `graph`: the held queues and the join queue of every thread.

  Its methods change that state as the Java code does, and each method is
  proved against the functions above. The `HashSet` passed down the
  recursion is the small class `PathSet`.

The recursive `getEffectivePriority(set)` (lines 157-182) is split into five
methods, one per level of its nesting:

- `EffectiveFrom`: the method itself;
- `AddQueues`: the loop over `donationList`;
- `AddQueue`: the `transferPriority` test;
- `AddDonors`: each loop over waiters;
- `AddDonor`: one `set.add`, recursive call, `set.remove` step.

They share one decreasing measure: `n - |path|`, then the nesting level.

Integers are unbounded. The random generator is the parameter `nextInt`, which
must return a value in `[0, b)` for every positive `b`.

One might expect a thread in a donation cycle to get only its own base
tickets. The code does not do that, and this model follows the code. The guard at
lines 158-161 gives a revisited thread its base tickets, not nothing, so A's
base tickets are counted once by A itself and once more by B. So for threads A and B, each waiting in a transferring queue
the other holds, A's effective count is `2·base(A) + base(B)`. The value left
in B's cache along the way is `base(A) + base(B)`. `Donation.TwoThreadCycle`
proves both values.

## Model

| member | source | states |
|---|---|---|
| Tickets.Increased | nachos-sjtu/src/nachos/threads/LotteryScheduler.java:76-82 | an increase is refused exactly at the maximum of 2^31-1; otherwise the new count is in range and larger |
| Tickets.Decreased | nachos-sjtu/src/nachos/threads/LotteryScheduler.java:95-101 | a decrease is refused exactly at the minimum of 1; otherwise the new count is in range and smaller |
| Tickets.InRange | nachos-sjtu/src/nachos/threads/LotteryScheduler.java:63-64 | the base ticket counts setPriority accepts: 1 up to 2^31-1, the bounds of lines 114-115 |
| Scheduler.LotteryScheduler.constructor | nachos-sjtu/src/nachos/threads/LotteryScheduler.java:33-34 | a state whose base tickets are all in range, with every cache expired |
| Scheduler.LotteryScheduler.Defaults | nachos-sjtu/src/nachos/threads/LotteryScheduler.java:107-113 | the state of threads as first seen: each holds the default of one ticket and an expired cache |
| Scheduler.LotteryScheduler.GetPriority | nachos-sjtu/src/nachos/threads/LotteryScheduler.java:48-52 | returns the thread's base tickets, which are in range |
| Scheduler.LotteryScheduler.SetPriority | nachos-sjtu/src/nachos/threads/LotteryScheduler.java:60-67 | demands a count in 1..2^31-1; afterwards that thread's base tickets are the argument and every other thread's are unchanged |
| Scheduler.LotteryScheduler.IncreasePriority | nachos-sjtu/src/nachos/threads/LotteryScheduler.java:69-86 | returns false and changes nothing at the maximum; otherwise returns true and the base tickets become old+1 |
| Scheduler.LotteryScheduler.DecreasePriority | nachos-sjtu/src/nachos/threads/LotteryScheduler.java:88-105 | returns false and changes nothing at the minimum; otherwise returns true and the base tickets become old-1 |
| Draw.Total | nachos-sjtu/src/nachos/threads/LotteryScheduler.java:125-131 | the total tot that the first loop accumulates over the waiters' weights |
| Draw.PrefixSums | nachos-sjtu/src/nachos/threads/LotteryScheduler.java:125-132 | entry i of the running totals is the sum of the ticket counts of waiters 0..i |
| Draw.PrefixSumsIncrease | nachos-sjtu/src/nachos/threads/LotteryScheduler.java:125-132 | when every count is at least 1, the running totals strictly increase and the last one is the total |
| Draw.TotalAtLeastLength | nachos-sjtu/src/nachos/threads/LotteryScheduler.java:134 | when every count is at least 1, a non-empty list has a positive total, so the draw bound is valid |
| Draw.Winner | nachos-sjtu/src/nachos/threads/LotteryScheduler.java:134-139 | the picked waiter owns the drawn value: the total of the waiters before it is at most the value, and adding its own count takes the total above the value |
| Draw.OwnerUnique | nachos-sjtu/src/nachos/threads/LotteryScheduler.java:134-139 | a drawn value has exactly one owner |
| Draw.WinnerIsFirstAbove | nachos-sjtu/src/nachos/threads/LotteryScheduler.java:136-139 | the winner's running total is above the drawn value and every earlier running total is not |
| Draw.FirstAboveIsWinner | nachos-sjtu/src/nachos/threads/LotteryScheduler.java:136-139 | the first index whose running total is above the drawn value is the winner |
| Draw.WinsOwnSpan | nachos-sjtu/src/nachos/threads/LotteryScheduler.java:13-16 | waiter k wins a draw exactly when the value lies in its own span of w[k] ticket values |
| Draw.TicketOwnership | nachos-sjtu/src/nachos/threads/LotteryScheduler.java:13-16 | of the total possible draws, exactly w[k] pick waiter k: the holder of the winning ticket is chosen |
| Draw.Interval | nachos-sjtu/src/nachos/threads/LotteryScheduler.java:134 | the range of draw values [a, b) has b-a members |
| Scheduler.LotteryScheduler.Search | nachos-sjtu/src/nachos/threads/LotteryScheduler.java:136-141 | the second loop finds the first index whose running total is above the drawn value, or reports that none is |
| Scheduler.LotteryScheduler.SumTickets | nachos-sjtu/src/nachos/threads/LotteryScheduler.java:125-132 | the first loop fills the running-totals array with the prefix sums of the weights w and sets the total to their sum; each w[i] is at least 1 and is waiter i's cache as it was before the draw or a value Eff computes for it along some path |
| Scheduler.LotteryScheduler.PickNextThread | nachos-sjtu/src/nachos/threads/LotteryScheduler.java:122-142 | no thread is picked exactly when the wait list is empty, and then no cache changes; otherwise the pick is the owner of the value nextInt(total) among weights w, each of which is the waiter's earlier cache or a value Eff computes for it along some path; the trailing null return is unreachable |
| Donation.TransferWaiters | nachos-sjtu/src/nachos/threads/LotteryScheduler.java:164-166 | the waiters of the held queues that pass the transferPriority test, in visit order; its meaning is stated by TransferWaitersMembers |
| Donation.Eff | nachos-sjtu/src/nachos/threads/LotteryScheduler.java:157-182 | the reference definition of getEffectivePriority(set): a thread in the set counts its base tickets; any other counts its base tickets plus each donor's value computed with it added to the set; its properties are the lemmas below |
| Donation.SumEff | nachos-sjtu/src/nachos/threads/LotteryScheduler.java:168 | the summed effective tickets of a donor list, all computed with the same set, as the += of lines 168 and 177 accumulate them |
| Donation.TransferWaitersMembers | nachos-sjtu/src/nachos/threads/LotteryScheduler.java:164-171 | a thread is a donor through the held queues exactly when it waits in one of them that transfers tickets |
| Donation.Donors | nachos-sjtu/src/nachos/threads/LotteryScheduler.java:164-179 | a thread's donors, in the order the loops visit them, are threads of the scheduler |
| Donation.PathFits | nachos-sjtu/src/nachos/threads/LotteryScheduler.java:158-161 | a path of distinct threads that misses t has room for t, so each descent grows the path and the recursion ends |
| Donation.EffAtLeastBase | nachos-sjtu/src/nachos/threads/LotteryScheduler.java:24-27 | because tickets add, a thread's effective tickets are at least its base tickets |
| Donation.SumEffNonNegative | nachos-sjtu/src/nachos/threads/LotteryScheduler.java:24-27 | donors never take tickets away |
| Donation.SumEffAppend | nachos-sjtu/src/nachos/threads/LotteryScheduler.java:164-179 | the donated tickets over two donor lists in turn are the sum of the tickets over each list |
| Donation.SumEffQueueStep | nachos-sjtu/src/nachos/threads/LotteryScheduler.java:164-171 | each held queue adds the tickets of its waiters if it transfers, and nothing if it does not |
| Donation.TransferWaitersAppend | nachos-sjtu/src/nachos/threads/LotteryScheduler.java:164-171 | the transferring waiters of two queue lists in turn are those of their concatenation |
| Donation.EffLocal | nachos-sjtu/src/nachos/threads/LotteryScheduler.java:158-161 | the donors of a thread already on the path are never consulted: graphs that agree off the path give equal effective tickets |
| Donation.DonorAdds | nachos-sjtu/src/nachos/threads/LotteryScheduler.java:164-179 | inserting one donor anywhere in a thread's donor list raises its effective tickets by exactly that donor's effective tickets |
| Donation.JoinWaiterAdds | nachos-sjtu/src/nachos/threads/LotteryScheduler.java:173-179 | a thread joining t adds its effective tickets to t's |
| Donation.QueueWaiterAdds | nachos-sjtu/src/nachos/threads/LotteryScheduler.java:164-171 | a thread waiting in a queue t holds adds its effective tickets to t's if that queue transfers, and nothing otherwise |
| Donation.TwoThreadCycle | nachos-sjtu/src/nachos/threads/LotteryScheduler.java:158-169 | with two threads each waiting on the other, the first gets 2·base(A)+base(B) and the second, on the way, base(A)+base(B) |
| Donation.CycleFreshSecond | nachos-sjtu/src/nachos/threads/LotteryScheduler.java:152-182 | in the same cycle, a fresh query for thread B gives base(A)+2·base(B), not the base(A)+base(B) a query for A leaves in B's cache |
| Donation.LockDonationExample | nachos-sjtu/src/nachos/threads/LotteryScheduler.java:164-170 | a 1-ticket holder of a transferring lock with one 5-ticket waiter has 6 effective tickets |
| Scheduler.PathValueAtLeastBase | nachos-sjtu/src/nachos/threads/LotteryScheduler.java:163-168 | a cache rewritten by a computation holds at least the thread's base tickets |
| Scheduler.WeightsAtLeastBase | nachos-sjtu/src/nachos/threads/LotteryScheduler.java:129-131 | when every cache held before the draw was computed along some path, every draw weight is such a value and is at least the waiter's base tickets |
| Scheduler.EvolvedSettle | nachos-sjtu/src/nachos/threads/LotteryScheduler.java:163-181 | once a thread's own computation is done, its cache holds a path value like every other cache the computation touched |
| Scheduler.PathSet.Add | nachos-sjtu/src/nachos/threads/LotteryScheduler.java:167 | the in-progress set gains the thread |
| Scheduler.PathSet.Remove | nachos-sjtu/src/nachos/threads/LotteryScheduler.java:169 | the in-progress set loses the thread |
| Scheduler.PathSet.Contains | nachos-sjtu/src/nachos/threads/LotteryScheduler.java:158 | reports membership in the in-progress set |
| Scheduler.LotteryScheduler.EffectiveFrom | nachos-sjtu/src/nachos/threads/LotteryScheduler.java:157-182 | the result is Eff for the given path and is at least the base tickets; a thread already in the set returns its base tickets and changes no cache; otherwise its cache ends holding the result; the set ends as it began; caches of path threads are kept, and every other changed cache holds a path value |
| Scheduler.LotteryScheduler.AddQueues | nachos-sjtu/src/nachos/threads/LotteryScheduler.java:164-171 | the running value grows by the summed effective tickets of the waiters of the transferring queues held |
| Scheduler.LotteryScheduler.AddQueue | nachos-sjtu/src/nachos/threads/LotteryScheduler.java:165-170 | one held queue adds its waiters' tickets when it transfers, and nothing when it does not |
| Scheduler.LotteryScheduler.AddDonors | nachos-sjtu/src/nachos/threads/LotteryScheduler.java:166-170 | the running value grows by the summed effective tickets of the given waiters, computed with the thread on the path |
| Scheduler.LotteryScheduler.AddDonor | nachos-sjtu/src/nachos/threads/LotteryScheduler.java:167-169 | the thread is added to the set, the donor's effective tickets are added to its running value, and the set is restored |
| Scheduler.LotteryScheduler.GetEffectivePriority | nachos-sjtu/src/nachos/threads/LotteryScheduler.java:152-155 | a known cache is returned and nothing changes; an expired one is recomputed from an empty set and left holding Eff(prio, graph, {}, t); the result is at least 1 |

## Left out

- Interrupt disabling and restoring, and the assertions that interrupts are disabled, are left out. They guard critical sections in a single-threaded kernel and compute nothing.
- `java.util.Random` seeded with 25 is replaced by the parameter `nextInt`. Proportionality over many draws is probabilistic; `Draw.TicketOwnership` states the exact count of winning draws instead.
- The "DeadLock!!" console message printed by the cycle guard is left out. It is console output.
- `KThread`, `KThread.currentThread()` and the lazy creation of scheduling state in `getThreadState` are left out. Every thread's state exists from the start, as `Defaults` builds it with the default tickets, and the current thread is the parameter `current`.
- `PriorityScheduler` is not part of this model. Its queue bookkeeping (enqueue, acquire, dequeue) and its setting of caches to `expiredPriority` are left out. The wait lists, held queues and join queues are the given `graph`, and the caches are given state.
- `expiredPriority` is a sentinel whose value lives in `PriorityScheduler`, so it is not shown here. It is modelled as the separate case `Expired` of `Cache`.
- Scheduler.LotteryScheduler.SetPriority: does not expire any cache, because the inherited `ThreadState.setPriority` is not part of this model. For the same reason `Valid` only promises known caches are at least 1, not at least the current base tickets.
- Scheduler.LotteryScheduler.SumTickets: states that each weight is the waiter's cache from before the loop or a value `Eff` computes for it along some path, not the value a fresh query would give. The difference is real: in `CycleGraph` with both caches expired and wait list [0, 1], thread 0's computation leaves a+b in thread 1's cache, so thread 1 draws with weight a+b, while a fresh query gives a+2b (`Donation.CycleFreshSecond`). The draw weights thus depend on the order of the waiters.
- Scheduler.LotteryScheduler.PickNextThread: states that each waiter's weight is its cache from before the draw or a value `Eff` computes for it along some path. It does not say the weight is `Eff` with an empty path, because computing one waiter's tickets may rewrite a later waiter's cache with a value computed along a non-empty path.
- Java's 32-bit `int` is not modelled: the sums `tot`, `sum[i]` and `effectivePriority` are unbounded integers. In Java they wrap once a sum exceeds `Integer.MAX_VALUE`, for example with two waiters of 2^30 tickets each.
