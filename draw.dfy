/** The weighted draw of LotteryQueue.pickNextThread, as mathematics over the
    list of effective ticket counts of the waiters, in wait-list order.
    Waiter k owns the ticket values from Total(w[..k]) up to, but not
    including, Total(w[..k+1]); the draw picks the owner of the drawn value. */
module Draw {

  /** Sum of the ticket counts in w. */
  function Total(w: seq<int>): int {
    if w == [] then 0 else Total(w[..|w| - 1]) + w[|w| - 1]
  }

  predicate NonNegative(w: seq<int>) {
    forall i :: 0 <= i < |w| ==> 0 <= w[i]
  }

  predicate Positive(w: seq<int>) {
    forall i :: 0 <= i < |w| ==> 1 <= w[i]
  }

  /** The running totals the first loop of pickNextThread stores in sum[]. */
  function PrefixSums(w: seq<int>): (s: seq<int>)
    ensures |s| == |w|
    ensures forall i :: 0 <= i < |w| ==> s[i] == Total(w[..i + 1])
  {
    if w == [] then []
    else
      var s := PrefixSums(w[..|w| - 1]);
      assert forall i :: 0 <= i < |w| - 1 ==> s[i] == Total(w[..i + 1]) by {
        forall i | 0 <= i < |w| - 1 ensures s[i] == Total(w[..i + 1]) {
          assert w[..|w| - 1][..i + 1] == w[..i + 1];
        }
      }
      assert w[..|w|] == w;
      s + [Total(w)]
  }

  /** Waiter k holds the ticket value now. */
  ghost predicate Owns(w: seq<int>, k: nat, now: int) {
    k < |w| && Total(w[..k]) <= now < Total(w[..k + 1])
  }

  /** The waiter whose span contains the drawn value now. */
  function Winner(w: seq<int>, now: int): (k: nat)
    requires 0 <= now < Total(w)
    ensures Owns(w, k, now)
  {
    var m := |w| - 1;
    assert w[..m + 1] == w;
    if Total(w[..m]) <= now then m
    else
      var k := Winner(w[..m], now);
      assert w[..m][..k] == w[..k] && w[..m][..k + 1] == w[..k + 1];
      k
  }

  lemma TotalSnoc(w: seq<int>, k: nat)
    requires k < |w|
    ensures Total(w[..k + 1]) == Total(w[..k]) + w[k]
  {
    assert w[..k + 1][..k] == w[..k];
  }

  /** With no negative counts, a longer prefix never has a smaller total. */
  lemma {:induction false} TotalMonotone(w: seq<int>, i: nat, j: nat)
    requires NonNegative(w) && i <= j <= |w|
    ensures Total(w[..i]) <= Total(w[..j])
  {
    if i < j {
      TotalMonotone(w, i, j - 1);
      TotalSnoc(w, j - 1);
    }
  }

  /** With every count at least one, the running totals strictly increase,
      and the last of them is the total. */
  lemma PrefixSumsIncrease(w: seq<int>)
    requires Positive(w)
    ensures forall i, j :: 0 <= i < j < |w| ==> PrefixSums(w)[i] < PrefixSums(w)[j]
    ensures w != [] ==> PrefixSums(w)[|w| - 1] == Total(w)
  {
    var s := PrefixSums(w);
    forall i, j | 0 <= i < j < |w| ensures s[i] < s[j] {
      TotalMonotone(w, i + 1, j);
      TotalSnoc(w, j);
    }
    assert w[..|w|] == w;
  }

  /** With every count at least one, the total is at least the number of
      counts, so a non-empty list has something to draw from. */
  lemma {:induction false} TotalAtLeastLength(w: seq<int>)
    requires Positive(w)
    ensures Total(w) >= |w|
  {
    if w != [] {
      TotalAtLeastLength(w[..|w| - 1]);
    }
  }

  /** A drawn value has exactly one owner. */
  lemma OwnerUnique(w: seq<int>, k: nat, l: nat, now: int)
    requires NonNegative(w) && Owns(w, k, now) && Owns(w, l, now)
    ensures k == l
  {
    if k < l {
      TotalMonotone(w, k + 1, l);
    } else if l < k {
      TotalMonotone(w, l + 1, k);
    }
  }

  /** The winner is the first waiter whose running total exceeds the drawn
      value: the index the second loop of pickNextThread stops at. */
  lemma WinnerIsFirstAbove(w: seq<int>, now: int)
    requires NonNegative(w) && 0 <= now < Total(w)
    ensures now < PrefixSums(w)[Winner(w, now)]
    ensures forall j :: 0 <= j < Winner(w, now) ==> PrefixSums(w)[j] <= now
  {
    var k := Winner(w, now);
    forall j | 0 <= j < k ensures PrefixSums(w)[j] <= now {
      TotalMonotone(w, j + 1, k);
    }
  }

  /** Conversely, the first waiter whose running total exceeds the drawn value
      is the winner. */
  lemma FirstAboveIsWinner(w: seq<int>, now: int, k: nat)
    requires NonNegative(w) && 0 <= now < Total(w) && k < |w|
    requires now < PrefixSums(w)[k]
    requires forall j :: 0 <= j < k ==> PrefixSums(w)[j] <= now
    ensures k == Winner(w, now)
  {
    if k > 0 {
      assert PrefixSums(w)[k - 1] <= now;
      assert (k - 1) + 1 == k;
    }
    assert Owns(w, k, now);
    OwnerUnique(w, k, Winner(w, now), now);
  }

  /** The integers from a up to b, excluding b. */
  function Interval(a: int, b: int): (r: set<int>)
    ensures forall x :: x in r <==> a <= x < b
    ensures a <= b ==> |r| == b - a
    decreases b - a
  {
    if b <= a then {} else Interval(a, b - 1) + {b - 1}
  }

  /** Waiter k wins exactly the draws in its own span of ticket values. */
  lemma WinsOwnSpan(w: seq<int>, k: nat, now: int)
    requires NonNegative(w) && k < |w|
    ensures (0 <= now < Total(w) && Winner(w, now) == k)
        <==> Total(w[..k]) <= now < Total(w[..k]) + w[k]
  {
    TotalSnoc(w, k);
    TotalMonotone(w, 0, k);
    TotalMonotone(w, k + 1, |w|);
    assert w[..0] == [] && w[..|w|] == w;
    if Total(w[..k]) <= now < Total(w[..k]) + w[k] {
      assert Owns(w, k, now);
      OwnerUnique(w, k, Winner(w, now), now);
    }
  }

  /** The draws, among the Total(w) possible values, that pick waiter k. */
  ghost function DrawsWonBy(w: seq<int>, k: nat): set<int> {
    set now: int | 0 <= now < Total(w) && Winner(w, now) == k
  }

  /** The winning-ticket promise: of the Total(w) equally likely draws,
      exactly w[k] pick waiter k. */
  lemma TicketOwnership(w: seq<int>, k: nat)
    requires NonNegative(w) && k < |w|
    ensures |DrawsWonBy(w, k)| == w[k]
  {
    var lo := Total(w[..k]);
    var picks := DrawsWonBy(w, k);
    var span := Interval(lo, lo + w[k]);
    forall now ensures now in picks <==> now in span {
      WinsOwnSpan(w, k, now);
    }
    assert picks == span;
    assert |span| == w[k];
  }
}
