/** The receive and transmit sides of the virtio-net driver against any device: `src/drivers/network.rs`. */
module VirtioDriver {
  import opened Common
  import opened VirtioRing

  const RX_BUFFERS := 4

  function EmptyQueue(size: nat): Queue {
    Queue(size, seq(size, _ => 0), 0, seq(size, _ => Completion(0, 0)), 0, 0, 0, [], 0, multiset{}, [], 0)
  }

  lemma EmptyIsGood(size: nat)
    requires GoodSize(size)
    ensures Good(EmptyQueue(size)) && Afoot(EmptyQueue(size)) == multiset{}
  {
  }

  // ------------------------------------------------------------------ receiving

  /** The receive queue, the descriptor the driver has taken and not yet posted again, and what it took. */
  datatype Rx = Rx(queue: Queue, hand: Option<nat>, delivered: seq<Completion>)

  datatype RxMove = RxTake | RxRepost | RxFetch | RxComplete(completion: Completion)

  predicate RxEnabled(rx: Rx, m: RxMove) {
    && rx.queue.size > 0 && |rx.queue.availableRing| == rx.queue.size && |rx.queue.usedRing| == rx.queue.size
    && match m
       case RxTake => rx.hand.None?
       case RxRepost => rx.hand.Some?
       case RxFetch => CanFetch(rx.queue)
       case RxComplete(c) => CanComplete(rx.queue, c)
  }

  function RxStep(rx: Rx, m: RxMove): Rx
    requires RxEnabled(rx, m)
  {
    match m
    case RxTake =>
      (match TakeUsed(rx.queue)
       case (Got(c), queue) => Rx(queue, Some(c.descriptor), rx.delivered + [c])
       case _ => rx)
    case RxRepost =>
      if rx.hand.value < RX_BUFFERS then rx.(queue := Publish(rx.queue, rx.hand.value), hand := None)
      else rx.(hand := None)
    case RxFetch => rx.(queue := Fetch(rx.queue))
    case RxComplete(c) => rx.(queue := Complete(rx.queue, c))
  }

  function InHand(rx: Rx): multiset<nat> { if rx.hand.Some? then multiset{rx.hand.value} else multiset{} }

  /** The descriptors below `n`, once each. */
  ghost predicate OnceEach(m: multiset<nat>, n: nat) { |m| == n && forall d: nat :: m[d] == if d < n then 1 else 0 }

  /** Every descriptor that is anywhere. */
  function All(rx: Rx): multiset<nat>
    requires rx.queue.fetched <= |rx.queue.posted| && rx.queue.consumed <= |rx.queue.completed|
  {
    Afoot(rx.queue) + InHand(rx)
  }

  /** Each of the four descriptors is in exactly one place, and what was taken is what was completed, in order. */
  ghost predicate RxGood(rx: Rx) {
    && Good(rx.queue) && rx.queue.size >= RX_BUFFERS
    && OnceEach(All(rx), RX_BUFFERS)
    && rx.delivered == rx.queue.completed[..rx.queue.consumed]
  }

  /** The queue once the descriptors from `n` on are posted as well. */
  function PostFrom(q: Queue, n: nat): Queue
    requires q.size > 0 && |q.availableRing| == q.size && n <= RX_BUFFERS
    decreases RX_BUFFERS - n, q.size
  {
    if n == RX_BUFFERS then q else PostFrom(Publish(q, n), n + 1)
  }

  function RxStart(size: nat): Rx
    requires size > 0
  {
    Rx(PostFrom(EmptyQueue(size), 0), None, [])
  }

  lemma OneMore(m: multiset<nat>, n: nat)
    requires OnceEach(m, n)
    ensures OnceEach(m + multiset{n}, n + 1)
  {
  }

  /** The first `n` descriptors are posted and nothing has come back. */
  ghost predicate Posting(q: Queue, n: nat) {
    Good(q) && q.size >= RX_BUFFERS && OnceEach(Afoot(q), n) && q.completed == [] && q.consumed == 0
  }

  lemma PostOne(q: Queue, n: nat)
    requires Posting(q, n) && n < RX_BUFFERS
    ensures Posting(Publish(q, n), n + 1)
  {
    PublishKeeps(q, n);
    OneMore(Afoot(q), n);
  }

  lemma {:induction false} PostFromKeeps(q: Queue, n: nat)
    requires Posting(q, n) && n <= RX_BUFFERS
    ensures Posting(PostFrom(q, n), RX_BUFFERS)
    decreases RX_BUFFERS - n
  {
    if n < RX_BUFFERS {
      PostOne(q, n);
      PostFromKeeps(Publish(q, n), n + 1);
    }
  }

  lemma RxStartIsGood(size: nat)
    requires GoodSize(size) && size >= RX_BUFFERS
    ensures RxGood(RxStart(size))
  {
    EmptyIsGood(size);
    PostFromKeeps(EmptyQueue(size), 0);
    assert All(RxStart(size)) == Afoot(RxStart(size).queue);
  }

  lemma RxTakeKeeps(rx: Rx)
    requires RxGood(rx) && rx.hand.None?
    ensures RxGood(RxStep(rx, RxTake))
  {
    var q, after := rx.queue, RxStep(rx, RxTake);
    TakeKeeps(q);
    if q.consumed < |q.completed| {
      assert q.completed[..q.consumed + 1] == q.completed[..q.consumed] + [q.completed[q.consumed]];
      assert All(after) == All(rx);
    }
  }

  lemma RxRepostKeeps(rx: Rx)
    requires RxGood(rx) && rx.hand.Some?
    ensures RxGood(RxStep(rx, RxRepost))
  {
    var d := rx.hand.value;
    assert All(rx)[d] >= 1;
    assert |All(rx)| == |Afoot(rx.queue)| + 1;
    PublishKeeps(rx.queue, d);
    assert All(RxStep(rx, RxRepost)) == All(rx);
  }

  lemma RxFetchKeeps(rx: Rx)
    requires RxGood(rx) && RxEnabled(rx, RxFetch)
    ensures RxGood(RxStep(rx, RxFetch))
  {
    FetchKeeps(rx.queue);
    assert All(RxStep(rx, RxFetch)) == All(rx);
  }

  lemma RxCompleteKeeps(rx: Rx, c: Completion)
    requires RxGood(rx) && RxEnabled(rx, RxComplete(c))
    ensures RxGood(RxStep(rx, RxComplete(c)))
  {
    var q := rx.queue;
    CompleteKeeps(q, c);
    assert Complete(q, c).completed[..q.consumed] == q.completed[..q.consumed];
    assert All(RxStep(rx, RxComplete(c))) == All(rx);
  }

  lemma RxStepKeeps(rx: Rx, m: RxMove)
    requires RxGood(rx) && RxEnabled(rx, m)
    ensures RxGood(RxStep(rx, m))
  {
    match m
    case RxTake => RxTakeKeeps(rx);
    case RxRepost => RxRepostKeeps(rx);
    case RxFetch => RxFetchKeeps(rx);
    case RxComplete(c) => RxCompleteKeeps(rx, c);
  }

  predicate RxMoves(states: seq<Rx>, moves: seq<RxMove>, i: nat)
    requires |states| == |moves| + 1 && i < |moves|
  {
    RxEnabled(states[i], moves[i]) && states[i + 1] == RxStep(states[i], moves[i])
  }

  /** Whatever the device does, however often the indices wrap: the receive side stays good. */
  lemma {:induction false} EveryRxRun(states: seq<Rx>, moves: seq<RxMove>, size: nat, i: nat)
    requires |states| == |moves| + 1 && i < |states|
    requires GoodSize(size) && size >= RX_BUFFERS && states[0] == RxStart(size)
    requires forall k: nat :: k < |moves| ==> RxMoves(states, moves, k)
    ensures RxGood(states[i])
    decreases i
  {
    if i == 0 {
      RxStartIsGood(size);
    } else {
      EveryRxRun(states, moves, size, i - 1);
      assert RxMoves(states, moves, i - 1);
      RxStepKeeps(states[i - 1], moves[i - 1]);
    }
  }

  /** A receive descriptor is posted, with the device, completed or in hand, and never in two of these. */
  lemma OnePlaceEach(rx: Rx, d: nat)
    requires RxGood(rx) && d < RX_BUFFERS
    ensures multiset(Waiting(rx.queue))[d] + rx.queue.held[d]
            + multiset(Ids(Finished(rx.queue)))[d] + InHand(rx)[d] == 1
  {
    assert All(rx)[d] == 1;
  }

  /** A completion is taken exactly when one is there, it is the oldest, and it is never reported invalid. */
  lemma RxTakesInOrder(rx: Rx)
    requires RxGood(rx)
    ensures TakeUsed(rx.queue).0 == if |rx.delivered| == |rx.queue.completed| then Nothing
                                    else Got(rx.queue.completed[|rx.delivered|])
  {
    TakeKeeps(rx.queue);
  }

  // ------------------------------------------------------------------ transmitting

  /** The transmit queue, its busy flag, its one buffer, whether the buffer holds a packet that is not
      posted yet, and the packets posted so far. */
  datatype Tx = Tx(queue: Queue, busy: bool, buffer: seq<byte>, filled: bool, sent: seq<seq<byte>>)

  datatype TxMove = TxPoll | TxWrite(packet: seq<byte>) | TxPublish | TxFetch | TxComplete(completion: Completion)

  predicate TxEnabled(tx: Tx, m: TxMove) {
    && tx.queue.size > 0 && |tx.queue.availableRing| == tx.queue.size && |tx.queue.usedRing| == tx.queue.size
    && match m
       case TxPoll => !tx.filled
       case TxWrite(_) => !tx.busy && !tx.filled
       case TxPublish => tx.filled
       case TxFetch => CanFetch(tx.queue)
       case TxComplete(c) => CanComplete(tx.queue, c)
  }

  function TxStep(tx: Tx, m: TxMove): Tx
    requires TxEnabled(tx, m)
  {
    match m
    case TxPoll =>
      (match TakeUsed(tx.queue)
       case (Got(c), queue) => tx.(queue := queue, busy := tx.busy && c.descriptor != 0)
       case _ => tx)
    case TxWrite(packet) => tx.(buffer := packet, filled := true)
    case TxPublish => tx.(queue := Publish(tx.queue, 0), busy := true, filled := false, sent := tx.sent + [tx.buffer])
    case TxFetch => tx.(queue := Fetch(tx.queue))
    case TxComplete(c) => tx.(queue := Complete(tx.queue, c))
  }

  /** The descriptor is on its way exactly while the side is busy, and then the buffer is the packet sent last. */
  ghost predicate TxGood(tx: Tx) {
    && Good(tx.queue)
    && Afoot(tx.queue) == (if tx.busy then multiset{0} else multiset{})
    && (tx.busy ==> !tx.filled && |tx.sent| > 0 && tx.buffer == tx.sent[|tx.sent| - 1])
    && |tx.queue.posted| == |tx.sent|
  }

  function TxStart(size: nat): Tx { Tx(EmptyQueue(size), false, [], false, []) }

  lemma TxPollKeeps(tx: Tx)
    requires TxGood(tx) && !tx.filled
    ensures TxGood(TxStep(tx, TxPoll))
  {
    var q := tx.queue;
    TakeKeeps(q);
    if q.consumed < |q.completed| {
      var r := TakeUsed(q).1;
      assert |Afoot(q)| == |Afoot(r)| + 1;
      assert q.completed[q.consumed].descriptor in Afoot(q);
      assert Afoot(r) == multiset{};
    }
  }

  lemma TxPublishKeeps(tx: Tx)
    requires TxGood(tx) && tx.filled
    ensures TxGood(TxStep(tx, TxPublish))
  {
    PublishKeeps(tx.queue, 0);
  }

  lemma TxDeviceKeeps(tx: Tx, m: TxMove)
    requires TxGood(tx) && (m.TxFetch? || m.TxComplete?) && TxEnabled(tx, m)
    ensures TxGood(TxStep(tx, m))
  {
    if m.TxFetch? {
      FetchKeeps(tx.queue);
    } else {
      CompleteKeeps(tx.queue, m.completion);
    }
  }

  lemma TxStepKeeps(tx: Tx, m: TxMove)
    requires TxGood(tx) && TxEnabled(tx, m)
    ensures TxGood(TxStep(tx, m))
  {
    match m
    case TxPoll => TxPollKeeps(tx);
    case TxPublish => TxPublishKeeps(tx);
    case TxFetch => TxDeviceKeeps(tx, m);
    case TxComplete(_) => TxDeviceKeeps(tx, m);
    case TxWrite(_) =>
  }

  predicate TxMoves(states: seq<Tx>, moves: seq<TxMove>, i: nat)
    requires |states| == |moves| + 1 && i < |moves|
  {
    TxEnabled(states[i], moves[i]) && states[i + 1] == TxStep(states[i], moves[i])
  }

  lemma {:induction false} EveryTxRun(states: seq<Tx>, moves: seq<TxMove>, size: nat, i: nat)
    requires |states| == |moves| + 1 && i < |states| && GoodSize(size) && states[0] == TxStart(size)
    requires forall k: nat :: k < |moves| ==> TxMoves(states, moves, k)
    ensures TxGood(states[i])
    decreases i
  {
    if i == 0 {
      EmptyIsGood(size);
    } else {
      EveryTxRun(states, moves, size, i - 1);
      assert TxMoves(states, moves, i - 1);
      TxStepKeeps(states[i - 1], moves[i - 1]);
    }
  }

  /** The transmit buffer is written only while nothing is posted, held or completed. */
  lemma BufferIsOursWhenWritten(tx: Tx, packet: seq<byte>)
    requires TxGood(tx) && TxEnabled(tx, TxWrite(packet))
    ensures Waiting(tx.queue) == [] && tx.queue.held == multiset{} && Finished(tx.queue) == []
  {
    AfootParts(tx.queue);
  }

  /** While the device can read the buffer, it holds the packet that was sent last. */
  lemma DeviceReadsWhatWasSent(tx: Tx)
    requires TxGood(tx) && (Waiting(tx.queue) != [] || tx.queue.held != multiset{})
    ensures tx.busy && |tx.sent| > 0 && tx.buffer == tx.sent[|tx.sent| - 1] && !TxEnabled(tx, TxWrite([]))
  {
    AfootParts(tx.queue);
  }

  // ------------------------------------------------------------------ where the rings lie

  const PAGE_SIZE := 4096
  const MAX_QUEUE_PAGES := 3

  /** Offsets of the available ring and the used ring, and the length of it all. */
  function QueueLayout(size: nat): Option<(nat, nat, nat)> {
    if size == 0 || size > 256 || !IsPowerOfTwo(size) then None
    else
      var available := size * 16;
      var used := (available + 4 + size * 2 + PAGE_SIZE - 1) / PAGE_SIZE * PAGE_SIZE;
      Some((available, used, used + 4 + size * 8))
  }

  /** The descriptors, the available ring and the used ring follow one another without overlap, the used
      ring starts a page, everything fits the pages set aside, and indices wrap evenly. */
  lemma LayoutFits(size: nat)
    requires QueueLayout(size).Some?
    ensures var (available, used, total) := QueueLayout(size).value;
            && size * 16 <= available && available + 4 + size * 2 <= used && used % PAGE_SIZE == 0
            && used + 4 + size * 8 <= total <= MAX_QUEUE_PAGES * PAGE_SIZE
    ensures GoodSize(size)
  {
    RoundUp(size * 18 + 4);
    assert Pow2(16) == U16_LIMIT by {
      Pow2Eight(0);
      Pow2Eight(8);
    }
    PowersDivide(size, 16);
  }

  lemma RoundUp(n: nat)
    ensures var r := (n + PAGE_SIZE - 1) / PAGE_SIZE * PAGE_SIZE; n <= r < n + PAGE_SIZE && r % PAGE_SIZE == 0
  {
  }

  lemma {:induction false} PowersDivide(size: nat, n: nat)
    requires IsPowerOfTwo(size) && size <= Pow2(n)
    ensures Pow2(n) % size == 0
    decreases size
  {
    if size > 1 {
      var half, k := size / 2, Pow2(n - 1) / (size / 2);
      PowersDivide(half, n - 1);
      assert Pow2(n - 1) == k * half;
      assert Pow2(n) == k * size;
      DivisionUnique(Pow2(n), size, k, 0);
    }
  }
}
