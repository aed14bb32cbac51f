/** Ticket counts of the lottery scheduler: the recognised range and the
    one-step adjustments made by increasePriority and decreasePriority. */
module Tickets {
  import opened Wrappers

  /** Tickets a thread starts with. */
  const PriorityDefault: int := 1
  /** Fewest tickets a thread may hold. */
  const PriorityMinimum: int := 1
  /** Most tickets a thread may hold: Java's Integer.MAX_VALUE. */
  const PriorityMaximum: int := 0x7fff_ffff

  /** A base ticket count accepted by setPriority. */
  predicate InRange(p: int) {
    PriorityMinimum <= p <= PriorityMaximum
  }

  /** The new base ticket count after increasePriority, or None when the
      thread already holds the maximum and the call is refused. */
  function Increased(p: int): (r: Option<int>)
    requires InRange(p)
    ensures r.None? <==> p == PriorityMaximum
    ensures r.Some? ==> InRange(r.value) && r.value > p
  {
    if p == PriorityMaximum then None else Some(p + 1)
  }

  /** The new base ticket count after decreasePriority, or None when the
      thread already holds the minimum and the call is refused. */
  function Decreased(p: int): (r: Option<int>)
    requires InRange(p)
    ensures r.None? <==> p == PriorityMinimum
    ensures r.Some? ==> InRange(r.value) && r.value < p
  {
    if p == PriorityMinimum then None else Some(p - 1)
  }

  /** A successful increase is undone by a decrease, and the other way round. */
  lemma IncreaseDecreaseInverse(p: int)
    requires InRange(p)
    ensures Increased(p).Some? ==> Decreased(Increased(p).value) == Some(p)
    ensures Decreased(p).Some? ==> Increased(Decreased(p).value) == Some(p)
  {
  }
}
