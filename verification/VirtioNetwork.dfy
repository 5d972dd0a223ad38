/** The driver's queues in memory and the calls that use them: `src/drivers/network.rs`. */
module VirtioNetwork {
  import opened Common
  import opened VirtioRing
  import opened VirtioDriver

  const NET_HEADER := 10
  const MIN_FRAME := 14
  const MAX_FRAME := 1514

  datatype NetError = InvalidPacket | Busy | WouldBlock | BufferTooSmall | InvalidQueue

  type Page = p: seq<byte> | |p| == PAGE_SIZE witness seq(PAGE_SIZE, _ => 0)

  /** One queue: the rings, the driver's indices, and what has been posted and completed so far. */
  class RingMemory {
    const size: nat
    const availableRing: array<nat>
    const usedRing: array<Completion>
    var availableIndex: nat
    var usedIndex: nat
    var available: nat
    var used: nat
    ghost var posted: seq<nat>
    ghost var fetched: nat
    ghost var held: multiset<nat>
    ghost var completed: seq<Completion>
    ghost var consumed: nat

    ghost function View(): Queue
      reads this, availableRing, usedRing
    {
      Queue(size, availableRing[..], availableIndex, usedRing[..], usedIndex, available, used,
            posted, fetched, held, completed, consumed)
    }

    constructor (size: nat)
      ensures this.size == size && View() == EmptyQueue(size) && fresh(availableRing) && fresh(usedRing)
    {
      this.size := size;
      availableRing := new nat[size](_ => 0);
      usedRing := new Completion[size](_ => Completion(0, 0));
      availableIndex, usedIndex, available, used := 0, 0, 0, 0;
      posted, fetched, held, completed, consumed := [], 0, multiset{}, [], 0;
      new;
      assert availableRing[..] == seq(size, _ => 0);
    }

    method Publish(descriptor: nat)
      requires size > 0 && availableRing.Length == size
      modifies this, availableRing
      ensures View() == VirtioRing.Publish(old(View()), descriptor)
    {
      availableRing[available % size] := descriptor;
      available := Wrap(available + 1);
      availableIndex := available;
      posted := posted + [descriptor];
    }

    /** Makes the receive buffers' descriptors available. */
    method PostAll()
      requires size > 0 && availableRing.Length == size
      modifies this, availableRing
      ensures View() == PostFrom(old(View()), 0)
    {
      ghost var goal := PostFrom(View(), 0);
      for k := 0 to RX_BUFFERS
        invariant PostFrom(View(), k) == goal
      {
        Publish(k);
      }
    }

    method TakeUsed() returns (t: Taken)
      requires size > 0 && usedRing.Length == size
      modifies this
      ensures (t, View()) == VirtioRing.TakeUsed(old(View()))
    {
      var pending := Wrap(usedIndex - used);
      if pending == 0 {
        return Nothing;
      }
      if pending > size {
        return Invalid;
      }
      var completion := usedRing[used % size];
      used := Wrap(used + 1);
      consumed := consumed + 1;
      return Got(completion);
    }
  }

  predicate ValidPacket(packet: seq<byte>) { MIN_FRAME <= |packet| <= MAX_FRAME }

  /** A transmit page: a blank header, the packet, and zeros to the end. */
  function Framed(packet: seq<byte>): Page
    requires ValidPacket(packet)
  {
    seq(NET_HEADER, _ => 0) + packet + seq(PAGE_SIZE - NET_HEADER - |packet|, _ => 0)
  }

  /** What a completed receive comes to, given the room there is for it. */
  function Verdict(c: Completion, room: nat): Result<nat, NetError> {
    if c.length < NET_HEADER then Err(InvalidPacket)
    else if c.length - NET_HEADER > MAX_FRAME || c.length - NET_HEADER > room then Err(BufferTooSmall)
    else Ok(c.length - NET_HEADER)
  }

  /** The receive side, to which the device writes pages. */
  class Receiver {
    const ring: RingMemory
    var buffers: seq<Page>
    ghost var delivered: seq<Completion>
    var packets: nat
    var dropped: nat

    /** The state with this descriptor in the driver's hand. */
    ghost function View(hand: Option<nat>): Rx
      reads this, ring, ring.availableRing, ring.usedRing
    {
      Rx(ring.View(), hand, delivered)
    }

    ghost predicate Good()
      reads this, ring, ring.availableRing, ring.usedRing
    {
      RxGood(View(None)) && |buffers| == RX_BUFFERS
    }

    /** Posts every buffer. */
    constructor (size: nat)
      requires GoodSize(size) && size >= RX_BUFFERS
      ensures Good() && View(None) == RxStart(size)
      ensures fresh(ring) && fresh(ring.availableRing) && fresh(ring.usedRing)
    {
      var memory := new RingMemory(size);
      memory.PostAll();
      ring := memory;
      buffers := seq(RX_BUFFERS, _ => seq(PAGE_SIZE, _ => 0));
      delivered, packets, dropped := [], 0, 0;
      new;
      RxStartIsGood(size);
    }

    /** Takes the oldest completion into the driver's hand. */
    method Take() returns (t: Taken)
      requires Good()
      modifies this`delivered, ring
      ensures ring.completed == old(ring.completed)
      ensures if |old(delivered)| == |ring.completed| then t == Nothing && delivered == old(delivered) && Good()
              else
                && t == Got(ring.completed[|old(delivered)|]) && delivered == old(delivered) + [t.completion]
                && t.completion.descriptor < RX_BUFFERS && RxGood(View(Some(t.completion.descriptor)))
    {
      ghost var before := View(None);
      RxTakesInOrder(before);
      RxTakeKeeps(before);
      t := ring.TakeUsed();
      if t.Got? {
        delivered := delivered + [t.completion];
        HandIsBuffer(View(Some(t.completion.descriptor)));
      }
    }

    /** Posts the descriptor in hand again. */
    method Repost(d: nat)
      requires RxGood(View(Some(d))) && d < RX_BUFFERS
      modifies ring, ring.availableRing
      ensures RxGood(View(None)) && ring.completed == old(ring.completed)
    {
      RxRepostKeeps(View(Some(d)));
      ring.Publish(d);
    }

    /** Takes the oldest completed packet and posts its buffer again, whatever became of the packet. */
    method Receive(output: array<byte>) returns (r: Result<nat, NetError>)
      requires Good() && output as object !in {ring.availableRing, ring.usedRing}
      modifies this, ring, ring.availableRing, output
      ensures Good() && ring.completed == old(ring.completed) && buffers == old(buffers)
      ensures if |old(delivered)| == |ring.completed| then r == Err(WouldBlock) && delivered == old(delivered)
              else
                && var c := ring.completed[|old(delivered)|];
                && delivered == old(delivered) + [c] && r == Verdict(c, output.Length)
                && (r.Ok? ==> c.descriptor < RX_BUFFERS
                              && output[..r.value] == buffers[c.descriptor][NET_HEADER..NET_HEADER + r.value])
      ensures r.Err? ==> output[..] == old(output[..])
    {
      var t := Take();
      if t == Nothing {
        return Err(WouldBlock);
      }
      r := Deliver(t.completion, output);
      Repost(t.completion.descriptor);
    }

    /** Copies a packet out, or counts it as dropped. */
    method Deliver(c: Completion, output: array<byte>) returns (r: Result<nat, NetError>)
      requires |buffers| == RX_BUFFERS && c.descriptor < RX_BUFFERS
      modifies this`packets, this`dropped, output
      ensures r == Verdict(c, output.Length)
      ensures r.Ok? ==> output[..r.value] == buffers[c.descriptor][NET_HEADER..NET_HEADER + r.value]
      ensures r.Err? ==> output[..] == old(output[..])
    {
      r := Verdict(c, output.Length);
      if r.Err? {
        dropped := dropped + 1;
      } else {
        CopyOut(buffers[c.descriptor], r.value, output);
        packets := packets + 1;
      }
    }
  }

  lemma HandIsBuffer(rx: Rx)
    requires RxGood(rx) && rx.hand.Some?
    ensures rx.hand.value < RX_BUFFERS
  {
    assert All(rx)[rx.hand.value] >= 1;
  }

  /** Copies a received frame, which follows the header, to the caller. */
  method CopyOut(page: Page, length: nat, output: array<byte>)
    requires length <= MAX_FRAME && length <= output.Length
    modifies output
    ensures output[..length] == page[NET_HEADER..NET_HEADER + length]
    ensures output[length..] == old(output[length..])
  {
    forall k | 0 <= k < length { output[k] := page[NET_HEADER + k]; }
  }

  /** The transmit side, with its single buffer. */
  class Sender {
    const ring: RingMemory
    var busy: bool
    var buffer: Page
    var packets: nat
    ghost var sent: seq<seq<byte>>

    ghost function View(): Tx
      reads this, ring, ring.availableRing, ring.usedRing
    {
      Tx(ring.View(), busy, buffer, false, sent)
    }

    constructor (size: nat)
      requires GoodSize(size)
      ensures TxGood(View()) && fresh(ring) && fresh(ring.availableRing) && fresh(ring.usedRing) && sent == []
    {
      ring := new RingMemory(size);
      busy, buffer, packets, sent := false, seq(PAGE_SIZE, _ => 0), 0, [];
      new;
      EmptyIsGood(size);
    }

    /** Consumes one completion, if there is one. */
    method PollOnce() returns (more: bool)
      requires TxGood(View())
      modifies this`busy, this`packets, ring
      ensures TxGood(View()) && ring.completed == old(ring.completed)
      ensures ring.posted == old(ring.posted) && ring.held == old(ring.held) && ring.fetched == old(ring.fetched)
      ensures more == (old(ring.consumed) < |ring.completed|)
      ensures ring.consumed == old(ring.consumed) + if more then 1 else 0
    {
      ghost var after := TxStep(View(), TxPoll);
      PollFacts(View());
      var t := ring.TakeUsed();
      more := t.Got?;
      if more && t.completion.descriptor == 0 {
        busy := false;
        packets := packets + 1;
      }
      assert View() == after;
    }

    /** Consumes every completion there is. */
    method Poll()
      requires TxGood(View())
      modifies this`busy, this`packets, ring
      ensures TxGood(View()) && Finished(ring.View()) == []
      ensures ring.posted == old(ring.posted) && ring.held == old(ring.held) && ring.fetched == old(ring.fetched)
    {
      AfootParts(ring.View());
      for k := 0 to ring.size
        invariant TxGood(View()) && ring.completed == old(ring.completed) && ring.consumed == old(ring.consumed) + k
        invariant ring.posted == old(ring.posted) && ring.held == old(ring.held) && ring.fetched == old(ring.fetched)
      {
        var more := PollOnce();
        if !more {
          return;
        }
      }
    }

    /** Fills the buffer and posts it. */
    method Send(packet: seq<byte>)
      requires TxGood(View()) && !busy && ValidPacket(packet)
      modifies this, ring, ring.availableRing
      ensures TxGood(View()) && sent == old(sent) + [Framed(packet)] && buffer == Framed(packet) && busy
    {
      ghost var written := TxStep(View(), TxWrite(Framed(packet)));
      TxPublishKeeps(written);
      buffer := Framed(packet);
      ring.Publish(0);
      busy := true;
      sent := sent + [Framed(packet)];
    }

    /** Sends a packet unless the last one is still with the device. */
    method Transmit(packet: seq<byte>) returns (r: Result<(), NetError>)
      requires TxGood(View())
      modifies this, ring, ring.availableRing
      ensures TxGood(View())
      ensures r == if !ValidPacket(packet) then Err(InvalidPacket)
                   else if old(ring.fetched < |ring.posted| || ring.held != multiset{}) then Err(Busy)
                   else Ok(())
      ensures r.Ok? ==> sent == old(sent) + [Framed(packet)] && buffer == Framed(packet) && busy
      ensures r.Err? ==> sent == old(sent) && buffer == old(buffer)
    {
      Poll();
      if !ValidPacket(packet) {
        return Err(InvalidPacket);
      }
      BusyIsOwned(View());
      if busy {
        return Err(Busy);
      }
      Send(packet);
      return Ok(());
    }
  }

  /** One look for a completion: what it finds and what it leaves alone. */
  lemma PollFacts(tx: Tx)
    requires TxGood(tx) && !tx.filled
    ensures var t, after := TakeUsed(tx.queue).0, TxStep(tx, TxPoll);
            && TxGood(after) && (t.Got? <==> tx.queue.consumed < |tx.queue.completed|)
            && after == tx.(queue := TakeUsed(tx.queue).1, busy := tx.busy && !(t.Got? && t.completion.descriptor == 0))
            && after.queue.consumed == tx.queue.consumed + (if t.Got? then 1 else 0)
            && after.queue.completed == tx.queue.completed && after.queue.posted == tx.queue.posted
            && after.queue.held == tx.queue.held && after.queue.fetched == tx.queue.fetched
  {
    TakeKeeps(tx.queue);
    TxPollKeeps(tx);
  }

  /** With nothing left to consume, the side is busy exactly while the device has the descriptor. */
  lemma BusyIsOwned(tx: Tx)
    requires TxGood(tx) && Finished(tx.queue) == []
    ensures tx.busy <==> tx.queue.fetched < |tx.queue.posted| || tx.queue.held != multiset{}
  {
    AfootParts(tx.queue);
  }
}
