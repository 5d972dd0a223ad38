/** The byte ring between the PS/2 interrupt handler and its reader: `src/drivers/ps2.rs`.

    One producer and one consumer take the steps of `enqueue` and `dequeue` in any interleaving. A state
    also remembers the bytes accepted and taken so far and how many were offered and dropped.
 */
module Ps2Ring {
  import opened Common

  const CAPACITY := 128

  function NextIndex(index: nat): nat { if index + 1 == CAPACITY then 0 else index + 1 }

  /** Where the producer is: before it starts, after loading the head, after seeing room, after writing. */
  datatype Producer = Idle | Loaded(byte: byte, at: nat) | Cleared(byte: byte, at: nat) | Wrote(byte: byte, at: nat)

  /** Where the consumer is: before it starts, after loading the tail, after seeing data, after reading. */
  datatype Consumer = Resting | Peeked(at: nat) | Allowed(at: nat) | Read(byte: byte, at: nat)

  datatype Ring = Ring(head: nat, tail: nat, queue: seq<byte>, producer: Producer, consumer: Consumer,
                       accepted: seq<byte>, taken: seq<byte>, offered: nat, dropped: nat)

  function Empty(): Ring { Ring(0, 0, seq(CAPACITY, _ => 0), Idle, Resting, [], [], 0, 0) }

  /** The steps the two sides can take. */
  datatype Move = Offer(byte: byte) | CheckRoom | Write | Publish | Look | CheckData | Fetch | Release

  predicate Enabled(r: Ring, m: Move) {
    match m
    case Offer(_) => r.producer.Idle?
    case CheckRoom => r.producer.Loaded?
    case Write => r.producer.Cleared? && r.producer.at < |r.queue|
    case Publish => r.producer.Wrote?
    case Look => r.consumer.Resting?
    case CheckData => r.consumer.Peeked?
    case Fetch => r.consumer.Allowed? && r.consumer.at < |r.queue|
    case Release => r.consumer.Read?
  }

  function Step(r: Ring, m: Move): Ring
    requires Enabled(r, m)
  {
    match m
    case Offer(byte) => r.(producer := Loaded(byte, r.head), offered := r.offered + 1)
    case CheckRoom =>
      if NextIndex(r.producer.at) == r.tail then r.(producer := Idle, dropped := r.dropped + 1)
      else r.(producer := Cleared(r.producer.byte, r.producer.at))
    case Write =>
      r.(queue := r.queue[r.producer.at := r.producer.byte], producer := Wrote(r.producer.byte, r.producer.at))
    case Publish =>
      r.(head := NextIndex(r.producer.at), producer := Idle, accepted := r.accepted + [r.producer.byte])
    case Look => r.(consumer := Peeked(r.tail))
    case CheckData =>
      if r.consumer.at == r.head then r.(consumer := Resting) else r.(consumer := Allowed(r.consumer.at))
    case Fetch => r.(consumer := Read(r.queue[r.consumer.at], r.consumer.at))
    case Release => r.(tail := NextIndex(r.consumer.at), consumer := Resting, taken := r.taken + [r.consumer.byte])
  }

  // ------------------------------------------------------------------ what every interleaving keeps

  /** The bytes that are in the ring. */
  function Held(r: Ring): int { |r.accepted| - |r.taken| }

  ghost predicate ProducerOk(r: Ring) {
    match r.producer
    case Idle => true
    case Loaded(_, at) => at == r.head
    case Cleared(_, at) => at == r.head && Held(r) < CAPACITY - 1
    case Wrote(byte, at) => at == r.head && Held(r) < CAPACITY - 1 && at < |r.queue| && r.queue[at] == byte
  }

  ghost predicate ConsumerOk(r: Ring) {
    match r.consumer
    case Resting => true
    case Peeked(at) => at == r.tail
    case Allowed(at) => at == r.tail && Held(r) > 0
    case Read(byte, at) => at == r.tail && Held(r) > 0 && byte == r.accepted[|r.taken|]
  }

  ghost predicate Good(r: Ring) {
    && |r.queue| == CAPACITY && r.head == |r.accepted| % CAPACITY && r.tail == |r.taken| % CAPACITY
    && 0 <= Held(r) < CAPACITY && r.taken <= r.accepted
    && (forall i: nat :: |r.taken| <= i < |r.accepted| ==> r.queue[i % CAPACITY] == r.accepted[i])
    && r.offered == |r.accepted| + r.dropped + (if r.producer.Idle? then 0 else 1)
    && ProducerOk(r) && ConsumerOk(r)
  }

  lemma NextIsMod(n: nat)
    ensures NextIndex(n % CAPACITY) == (n + 1) % CAPACITY
  {
    var q, r := n / CAPACITY, n % CAPACITY;
    if r + 1 == CAPACITY {
      DivisionUnique(n + 1, CAPACITY, q + 1, 0);
    } else {
      DivisionUnique(n + 1, CAPACITY, q, r + 1);
    }
  }

  /** Positions less than a lap apart are in different slots. */
  lemma SlotsApart(a: nat, b: nat)
    requires a < b < a + CAPACITY
    ensures a % CAPACITY != b % CAPACITY
  {
    assert b - a == CAPACITY * (b / CAPACITY - a / CAPACITY) + (b % CAPACITY - a % CAPACITY);
  }

  lemma ProducerMove(r: Ring, m: Move)
    requires Good(r) && Enabled(r, m) && (m.Offer? || m.CheckRoom? || m.Write? || m.Publish?)
    ensures Good(Step(r, m))
  {
    var n := |r.accepted|;
    NextIsMod(n);
    match m
    case CheckRoom =>
      if Held(r) == CAPACITY - 1 {
        assert (n + 1) % CAPACITY == |r.taken| % CAPACITY;
      }
    case Write =>
      forall i: nat | |r.taken| <= i < n ensures i % CAPACITY != r.head { SlotsApart(i, n); }
    case _ =>
  }

  lemma ConsumerMove(r: Ring, m: Move)
    requires Good(r) && Enabled(r, m) && (m.Look? || m.CheckData? || m.Fetch? || m.Release?)
    ensures Good(Step(r, m))
  {
    NextIsMod(|r.taken|);
    match m
    case CheckData =>
      if r.tail != r.head {
        assert |r.accepted| != |r.taken|;
      }
    case Release => assert r.accepted[..|r.taken| + 1] == r.taken + [r.accepted[|r.taken|]];
    case _ =>
  }

  /** The slot being written is never the slot being read. */
  lemma NeverTheSameSlot(r: Ring)
    requires Good(r) && r.producer.Cleared? && r.consumer.Allowed?
    ensures r.producer.at != r.consumer.at
  {
    SlotsApart(|r.taken|, |r.accepted|);
  }

  predicate Moves(rings: seq<Ring>, moves: seq<Move>, i: nat)
    requires |rings| == |moves| + 1 && i < |moves|
  {
    Enabled(rings[i], moves[i]) && rings[i + 1] == Step(rings[i], moves[i])
  }

  /** Whatever the interleaving: what was taken is the start of what was accepted, at most 127 bytes are
      held, and every finished offer was accepted or dropped. */
  lemma {:induction false} EveryInterleaving(rings: seq<Ring>, moves: seq<Move>, i: nat)
    requires |rings| == |moves| + 1 && i < |rings| && rings[0] == Empty()
    requires forall k: nat :: k < |moves| ==> Moves(rings, moves, k)
    ensures var r := rings[i];
            && Good(r) && r.taken <= r.accepted && 0 <= Held(r) <= CAPACITY - 1
            && (r.producer.Idle? ==> r.offered == |r.accepted| + r.dropped)
            && (r.producer.Cleared? && r.consumer.Allowed? ==> r.producer.at != r.consumer.at)
    decreases i
  {
    if i > 0 {
      EveryInterleaving(rings, moves, i - 1);
      assert Moves(rings, moves, i - 1);
      var r, m := rings[i - 1], moves[i - 1];
      if m.Offer? || m.CheckRoom? || m.Write? || m.Publish? {
        ProducerMove(r, m);
      } else {
        ConsumerMove(r, m);
      }
      if rings[i].producer.Cleared? && rings[i].consumer.Allowed? {
        NeverTheSameSlot(rings[i]);
      }
    }
  }

  // ------------------------------------------------------------------ undisturbed calls

  /** A byte is dropped exactly when 127 are held. */
  lemma DropsWhenFull(r: Ring)
    requires Good(r) && r.producer.Loaded?
    ensures Step(r, CheckRoom).producer.Idle? <==> Held(r) == CAPACITY - 1
  {
    var n := |r.accepted|;
    NextIsMod(n);
    if Held(r) == CAPACITY - 1 {
      assert (n + 1) % CAPACITY == |r.taken| % CAPACITY;
    } else {
      SlotsApart(|r.taken|, n + 1);
    }
  }

  /** A reader finds nothing exactly when nothing is held. */
  lemma EmptyWhenNoneHeld(r: Ring)
    requires Good(r) && r.consumer.Peeked?
    ensures Step(r, CheckData).consumer.Resting? <==> Held(r) == 0
  {
    if Held(r) > 0 {
      SlotsApart(|r.taken|, |r.accepted|);
    }
  }

  /** The ring as one side uses it between interruptions by the other. */
  class ByteRing {
    var head: nat
    var tail: nat
    const queue: array<byte>
    var dropped: nat
    ghost var accepted: seq<byte>
    ghost var taken: seq<byte>

    ghost function View(): Ring
      reads this, queue
    {
      Ring(head, tail, queue[..], Idle, Resting, accepted, taken, |accepted| + dropped, dropped)
    }

    constructor ()
      ensures Good(View()) && accepted == [] && taken == [] && dropped == 0 && fresh(queue)
    {
      queue := new byte[CAPACITY](_ => 0);
      head, tail, dropped, accepted, taken := 0, 0, 0, [], [];
    }

    method Enqueue(byte: byte)
      requires Good(View())
      modifies this, queue
      ensures Good(View()) && taken == old(taken)
      ensures if |old(accepted)| - |taken| < CAPACITY - 1
              then accepted == old(accepted) + [byte] && dropped == old(dropped)
              else accepted == old(accepted) && dropped == old(dropped) + 1
    {
      ghost var r := View();
      ProducerMove(r, Offer(byte));
      ghost var loaded := Step(r, Offer(byte));
      DropsWhenFull(loaded);
      ProducerMove(loaded, CheckRoom);
      var current := head;
      var next := NextIndex(current);
      if next == tail {
        dropped := dropped + 1;
        return;
      }
      ghost var cleared := Step(loaded, CheckRoom);
      ProducerMove(cleared, Write);
      ghost var wrote := Step(cleared, Write);
      ProducerMove(wrote, Publish);
      queue[current] := byte;
      head := next;
      accepted := accepted + [byte];
      assert View() == Step(wrote, Publish);
    }

    method Dequeue() returns (b: Option<byte>)
      requires Good(View())
      modifies this
      ensures Good(View()) && accepted == old(accepted) && dropped == old(dropped)
      ensures if |old(taken)| < |accepted|
              then b == Some(accepted[|old(taken)|]) && taken == old(taken) + [accepted[|old(taken)|]]
              else b == None && taken == old(taken)
    {
      ghost var r := View();
      ConsumerMove(r, Look);
      ghost var peeked := Step(r, Look);
      EmptyWhenNoneHeld(peeked);
      ConsumerMove(peeked, CheckData);
      var current := tail;
      if current == head {
        return None;
      }
      ghost var permitted := Step(peeked, CheckData);
      ConsumerMove(permitted, Fetch);
      ghost var read := Step(permitted, Fetch);
      ConsumerMove(read, Release);
      var byte := queue[current];
      tail := NextIndex(current);
      taken := taken + [byte];
      assert View() == Step(read, Release);
      return Some(byte);
    }
  }
}
