/** The split virtqueue of `src/drivers/network.rs`, shared between the driver and a device.

    The rings and the driver's 16-bit indices are as in memory. Beside them a queue remembers every
    descriptor posted, how many of those the device has fetched and which it still holds, every completion
    it has made, and how many of those the driver has consumed. The device may fetch and complete at any
    time and in any order, but it completes only what it holds (section 2.7 of VIRTIO 1.2).
 */
module VirtioRing {
  import opened Common

  datatype Completion = Completion(descriptor: nat, length: nat)

  datatype Queue = Queue(
    size: nat, availableRing: seq<nat>, availableIndex: nat, usedRing: seq<Completion>, usedIndex: nat,
    available: nat, used: nat,
    posted: seq<nat>, fetched: nat, held: multiset<nat>, completed: seq<Completion>, consumed: nat)

  function Wrap(n: int): nat { n % U16_LIMIT }

  // ------------------------------------------------------------------ the steps

  /** The driver makes a descriptor available. */
  function Publish(q: Queue, descriptor: nat): Queue
    requires q.size > 0 && |q.availableRing| == q.size
  {
    var next := Wrap(q.available + 1);
    q.(availableRing := q.availableRing[q.available % q.size := descriptor],
       available := next, availableIndex := next, posted := q.posted + [descriptor])
  }

  datatype Taken = Nothing | Got(completion: Completion) | Invalid

  /** The driver looks for a completion. */
  function TakeUsed(q: Queue): (Taken, Queue)
    requires q.size > 0 && |q.usedRing| == q.size
  {
    var pending := Wrap(q.usedIndex - q.used);
    if pending == 0 then (Nothing, q)
    else if pending > q.size then (Invalid, q)
    else (Got(q.usedRing[q.used % q.size]), q.(used := Wrap(q.used + 1), consumed := q.consumed + 1))
  }

  /** The device reads the next available descriptor. */
  predicate CanFetch(q: Queue) { q.size > 0 && |q.availableRing| == q.size && Wrap(q.fetched) != q.availableIndex }

  function Fetch(q: Queue): Queue
    requires CanFetch(q)
  {
    q.(fetched := q.fetched + 1, held := q.held + multiset{q.availableRing[Wrap(q.fetched) % q.size]})
  }

  /** The device completes a descriptor it holds. */
  predicate CanComplete(q: Queue, c: Completion) { q.size > 0 && |q.usedRing| == q.size && c.descriptor in q.held }

  function Complete(q: Queue, c: Completion): Queue
    requires CanComplete(q, c)
  {
    q.(usedRing := q.usedRing[q.usedIndex % q.size := c], usedIndex := Wrap(q.usedIndex + 1),
       held := q.held - multiset{c.descriptor}, completed := q.completed + [c])
  }

  // ------------------------------------------------------------------ who owns which descriptor

  function Ids(completions: seq<Completion>): (s: seq<nat>)
    ensures |s| == |completions|
  {
    seq(|completions|, i requires 0 <= i < |completions| => completions[i].descriptor)
  }

  /** Descriptors posted and not yet fetched, and completions not yet consumed. */
  function Waiting(q: Queue): seq<nat>
    requires q.fetched <= |q.posted|
  {
    q.posted[q.fetched..]
  }

  function Finished(q: Queue): seq<Completion>
    requires q.consumed <= |q.completed|
  {
    q.completed[q.consumed..]
  }

  /** Every descriptor that is on its way, wherever it is. */
  function Afoot(q: Queue): multiset<nat>
    requires q.fetched <= |q.posted| && q.consumed <= |q.completed|
  {
    multiset(Waiting(q)) + q.held + multiset(Ids(Finished(q)))
  }

  /** A size that divides 2^16, so that slots follow the wrapping indices. */
  predicate GoodSize(size: nat) { 0 < size <= 256 && U16_LIMIT % size == 0 }

  ghost predicate Good(q: Queue) {
    && GoodSize(q.size) && |q.availableRing| == q.size && |q.usedRing| == q.size
    && q.fetched <= |q.posted| && q.consumed <= |q.completed|
    && q.available == Wrap(|q.posted|) && q.availableIndex == q.available
    && q.used == Wrap(q.consumed) && q.usedIndex == Wrap(|q.completed|)
    && |Afoot(q)| <= q.size
    && (forall i: nat :: q.fetched <= i < |q.posted| ==> q.availableRing[i % q.size] == q.posted[i])
    && (forall i: nat :: q.consumed <= i < |q.completed| ==> q.usedRing[i % q.size] == q.completed[i])
  }

  // ------------------------------------------------------------------ arithmetic of the indices

  lemma ModTwice(n: nat, size: nat)
    requires GoodSize(size)
    ensures Wrap(n) % size == n % size
  {
    var laps, k := n / U16_LIMIT, U16_LIMIT / size;
    assert U16_LIMIT == k * size;
    assert n == laps * (k * size) + Wrap(n);
    assert laps * (k * size) == (laps * k) * size;
    var q, r := Wrap(n) / size, Wrap(n) % size;
    assert Wrap(n) == q * size + r;
    Distribute(laps * k, q, size);
    DivisionUnique(n, size, laps * k + q, r);
  }

  lemma WrapStep(n: nat)
    ensures Wrap(Wrap(n) + 1) == Wrap(n + 1)
  {
  }

  /** Indices less than a lap apart name different slots. */
  lemma SlotsApart(size: nat, i: nat, j: nat)
    requires size > 0 && i < j < i + size
    ensures i % size != j % size
  {
    if i % size == j % size {
      assert j - i == size * (j / size) - size * (i / size);
      Distribute(j / size - i / size, i / size, size);
      assert j - i == (j / size - i / size) * size;
      if j / size - i / size >= 1 {
        MulLe(1, j / size - i / size, size);
      } else {
        MulLe(j / size - i / size, 0, size);
      }
    }
  }

  lemma PendingIs(consumed: nat, completed: nat)
    requires consumed <= completed < consumed + U16_LIMIT
    ensures Wrap(Wrap(completed) - Wrap(consumed)) == completed - consumed
  {
  }

  // ------------------------------------------------------------------ what each step keeps

  lemma AfootParts(q: Queue)
    requires q.fetched <= |q.posted| && q.consumed <= |q.completed|
    ensures |Afoot(q)| == |q.posted| - q.fetched + |q.held| + |q.completed| - q.consumed
  {
  }

  lemma PublishKeeps(q: Queue, d: nat)
    requires Good(q) && |Afoot(q)| < q.size
    ensures Good(Publish(q, d)) && Afoot(Publish(q, d)) == Afoot(q) + multiset{d}
  {
    var r, n := Publish(q, d), |q.posted|;
    AfootParts(q);
    ModTwice(n, q.size);
    WrapStep(n);
    assert Waiting(r) == Waiting(q) + [d];
    forall i: nat | q.fetched <= i < n ensures i % q.size != n % q.size { SlotsApart(q.size, i, n); }
  }

  lemma FetchKeeps(q: Queue)
    requires Good(q) && CanFetch(q)
    ensures q.fetched < |q.posted| && Good(Fetch(q)) && Afoot(Fetch(q)) == Afoot(q)
    ensures Fetch(q).held == q.held + multiset{q.posted[q.fetched]}
  {
    var r := Fetch(q);
    ModTwice(q.fetched, q.size);
    assert q.fetched < |q.posted|;
    assert Waiting(q) == [q.posted[q.fetched]] + Waiting(r);
  }

  lemma CompleteKeeps(q: Queue, c: Completion)
    requires Good(q) && CanComplete(q, c)
    ensures Good(Complete(q, c)) && Afoot(Complete(q, c)) == Afoot(q)
  {
    var r, n := Complete(q, c), |q.completed|;
    AfootParts(q);
    ModTwice(n, q.size);
    WrapStep(n);
    assert Ids(Finished(r)) == Ids(Finished(q)) + [c.descriptor];
    assert q.held == q.held - multiset{c.descriptor} + multiset{c.descriptor};
    forall i: nat | q.consumed <= i < n ensures i % q.size != n % q.size { SlotsApart(q.size, i, n); }
  }

  /** A look at the used ring returns the oldest completion not yet consumed, exactly when there is one. */
  lemma TakeKeeps(q: Queue)
    requires Good(q)
    ensures var (t, r) := TakeUsed(q);
            && Good(r)
            && (if q.consumed == |q.completed| then t == Nothing && r == q
                else && t == Got(q.completed[q.consumed]) && r.consumed == q.consumed + 1
                     && Afoot(q) == Afoot(r) + multiset{q.completed[q.consumed].descriptor})
  {
    AfootParts(q);
    PendingIs(q.consumed, |q.completed|);
    ModTwice(q.consumed, q.size);
    WrapStep(q.consumed);
    if q.consumed < |q.completed| {
      var r := TakeUsed(q).1;
      assert Ids(Finished(q)) == [q.completed[q.consumed].descriptor] + Ids(Finished(r));
    }
  }
}
