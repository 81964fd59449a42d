/** The ADB packet ring of cuda.c: filled by the VIA interrupt, drained by a DPC that the
    interrupt can preempt between any two of its steps.

    KeInsertQueueDpc on a DPC already queued does nothing; the kernel takes the DPC off its queue
    before it calls the routine.  The VIA source is only registered after the DPC is initialised. */
module AdbRing {
  import opened Words

  const RING := 64
  const MAX_REPLY := 24
  const PKT_ADB: byte := 0

  type Packet = seq<byte>
  type Reply = r: seq<byte> | |r| <= MAX_REPLY

  // ---- a bounded queue with a preemptible consumer ---------------------------------------------

  /** Where the DPC routine stands: not running, about to test the ring, holding the head slot for
      delivery, or delivered and about to advance the head. */
  datatype Pc = Idle | Testing | Delivering | Advancing

  datatype Queue = Queue(
    pending: seq<Packet>,
    accepted: seq<Packet>,
    delivered: seq<Packet>,
    received: nat,
    dropped: nat,
    queued: bool,
    pc: Pc)

  datatype Action = Interrupt(replies: seq<Reply>) | Dispatch | Test | Deliver | Advance

  predicate IsAdb(reply: Reply) { |reply| >= 3 && reply[0] == PKT_ADB }

  function Offer(q: Queue, reply: Reply): Queue {
    if !IsAdb(reply) then q
    else if |q.pending| == RING - 1 then q.(received := q.received + 1, dropped := q.dropped + 1)
    else q.(received := q.received + 1, pending := q.pending + [reply[1..]], accepted := q.accepted + [reply[1..]])
  }

  function OfferAll(q: Queue, replies: seq<Reply>): Queue {
    if replies == [] then q
    else Offer(OfferAll(q, replies[..|replies| - 1]), replies[|replies| - 1])
  }

  /** One run of HalpCudaService: at most RING packets, and the DPC queued if any was parked. */
  function Service(q: Queue, replies: seq<Reply>): Queue {
    var after := OfferAll(q, replies[..Min(|replies|, RING)]);
    after.(queued := q.queued || |after.accepted| > |q.accepted|)
  }

  function Step(q: Queue, a: Action): Option<Queue> {
    match a
    case Interrupt(replies) => Some(Service(q, replies))
    case Dispatch => if q.queued && q.pc.Idle? then Some(q.(queued := false, pc := Testing)) else None
    case Test => if q.pc.Testing? then Some(q.(pc := if q.pending == [] then Idle else Delivering)) else None
    case Deliver =>
      if q.pc.Delivering? && q.pending != []
      then Some(q.(delivered := q.delivered + [q.pending[0]], pc := Advancing)) else None
    case Advance =>
      if q.pc.Advancing? && q.pending != [] then Some(q.(pending := q.pending[1..], pc := Testing)) else None
  }

  function Run(q: Queue, acts: seq<Action>): Option<Queue>
    decreases |acts|
  {
    if acts == [] then Some(q)
    else
      var next := Step(q, acts[0]);
      if next.None? then None else Run(next.value, acts[1..])
  }

  const EMPTY := Queue([], [], [], 0, 0, false, Idle)

  ghost predicate Inv(q: Queue) {
    && |q.pending| <= RING - 1
    && (q.pc.Delivering? ==> q.pending != [])
    && (if q.pc.Advancing? then
          q.pending != [] && q.delivered != [] && q.delivered[|q.delivered| - 1] == q.pending[0]
          && q.accepted == q.delivered + q.pending[1..]
        else
          q.accepted == q.delivered + q.pending)
    && |q.accepted| + q.dropped == q.received
    && (q.pending != [] ==> q.queued || !q.pc.Idle?)
  }

  /** Everything Inv says except that the wake-up may still be owed. */
  ghost predicate InvButWakeup(q: Queue) {
    Inv(q.(queued := true))
  }

  /** Parking packets touches neither what waits nor what the consumer holds. */
  lemma {:induction false} OffersOnlyAppend(q: Queue, replies: seq<Reply>)
    requires InvButWakeup(q)
    ensures var t := OfferAll(q, replies);
            && InvButWakeup(t)
            && t.queued == q.queued && t.pc == q.pc && t.delivered == q.delivered
            && q.pending <= t.pending && q.accepted <= t.accepted
            && |t.pending| - |q.pending| == |t.accepted| - |q.accepted|
  {
    hide InvButWakeup, Offer;
    if replies != [] {
      var rest := replies[..|replies| - 1];
      OffersOnlyAppend(q, rest);
      OfferAppends(OfferAll(q, rest), replies[|replies| - 1]);
    }
  }

  lemma OfferAppends(m: Queue, reply: Reply)
    requires InvButWakeup(m)
    ensures var t := Offer(m, reply);
            && InvButWakeup(t)
            && t.queued == m.queued && t.pc == m.pc && t.delivered == m.delivered
            && m.pending <= t.pending && m.accepted <= t.accepted
            && |t.pending| - |m.pending| == |t.accepted| - |m.accepted|
  {
    var t := Offer(m, reply);
    if t.pending != m.pending && t.pc.Advancing? {
      assert t.pending[1..] == m.pending[1..] + [reply[1..]];
    }
  }

  lemma OfferNext(q: Queue, replies: seq<Reply>, n: nat)
    requires InvButWakeup(q) && n < |replies|
    ensures var m := OfferAll(q, replies[..n]);
            OfferAll(q, replies[..n + 1]) == Offer(m, replies[n]) && |m.accepted| >= |q.accepted|
            && (Offer(m, replies[n]).accepted != m.accepted ==>
                  |Offer(m, replies[n]).accepted| == |m.accepted| + 1)
  {
    assert replies[..n + 1][..n] == replies[..n];
    OffersOnlyAppend(q, replies[..n]);
  }

  /** The ADB packets among some replies, each without its first byte. */
  function Bodies(replies: seq<Reply>): seq<Packet> {
    if replies == [] then []
    else
      var r := replies[|replies| - 1];
      Bodies(replies[..|replies| - 1]) + if |r| >= 3 && r[0] == 0 then [r[1..]] else []
  }

  /** As long as they fit, an interrupt parks the ADB packets Cuda presents, all of them in order and
      nothing else, up to 64 replies at once, and the DPC is queued if there were any. */
  lemma ServiceParks(q: Queue, replies: seq<Reply>)
    requires |replies| <= 64 && |q.pending| + |Bodies(replies)| <= 63
    ensures Service(q, replies) ==
            q.(pending := q.pending + Bodies(replies), accepted := q.accepted + Bodies(replies),
               received := q.received + |Bodies(replies)|, queued := q.queued || Bodies(replies) != [])
  {
    hide Offer, Bodies;
    assert replies[..|replies|] == replies;
    OffersPark(q, replies);
  }

  lemma {:induction false} OffersPark(q: Queue, replies: seq<Reply>)
    requires |q.pending| + |Bodies(replies)| <= 63
    ensures OfferAll(q, replies) ==
            q.(pending := q.pending + Bodies(replies), accepted := q.accepted + Bodies(replies),
               received := q.received + |Bodies(replies)|)
  {
    if replies == [] {
      assert q.pending + [] == q.pending && q.accepted + [] == q.accepted;
    } else {
      OffersPark(q, replies[..|replies| - 1]);
      var before := Bodies(replies[..|replies| - 1]);
      var r := replies[|replies| - 1];
      JoinOne(q.pending, before, r);
      JoinOne(q.accepted, before, r);
    }
  }

  lemma JoinOne(a: seq<Packet>, b: seq<Packet>, r: Reply)
    ensures |r| > 0 ==> a + (b + [r[1..]]) == (a + b) + [r[1..]]
    ensures a + (b + []) == a + b
  {
  }

  /** With 63 packets waiting an ADB packet is dropped and counted; replies past the 64th wait for the
      next interrupt. */
  lemma ServiceLeaves(q: Queue, reply: Reply, replies: seq<Reply>)
    ensures |q.pending| == 63 && |reply| >= 3 && reply[0] == 0 ==>
              Offer(q, reply) == q.(received := q.received + 1, dropped := q.dropped + 1)
    ensures |replies| > 64 ==> Service(q, replies) == Service(q, replies[..64])
  {
    if |replies| > 64 {
      assert replies[..64][..64] == replies[..64];
    }
  }

  lemma StepKeepsInv(q: Queue, a: Action)
    requires Inv(q) && Step(q, a).Some?
    ensures Inv(Step(q, a).value)
  {
    match a
    case Interrupt(replies) => OffersOnlyAppend(q, replies[..Min(|replies|, RING)]);
    case Deliver => assert q.pending == [q.pending[0]] + q.pending[1..];
    case _ =>
  }

  lemma {:induction false} RunKeepsInv(q: Queue, acts: seq<Action>)
    requires Inv(q) && Run(q, acts).Some?
    ensures Inv(Run(q, acts).value)
    decreases |acts|
  {
    if acts != [] {
      StepKeepsInv(q, acts[0]);
      RunKeepsInv(Step(q, acts[0]).value, acts[1..]);
    }
  }

  /** With the interrupt preempting the DPC at any point: what was delivered is a prefix of what
      was accepted, in order and without repeats; every ADB packet was accepted or counted as
      dropped; the ring never holds more than 63; and a packet waiting in the ring always has the
      DPC queued or still to test the ring again. */
  lemma EveryInterleavingIsFifo(acts: seq<Action>)
    requires Run(EMPTY, acts).Some?
    ensures var q := Run(EMPTY, acts).value;
            && q.delivered <= q.accepted
            && |q.accepted| - |q.delivered| <= |q.pending| <= RING - 1
            && |q.accepted| + q.dropped == q.received
            && (q.delivered != q.accepted ==> q.queued || !q.pc.Idle?)
  {
    RunKeepsInv(EMPTY, acts);
  }

  /** The slot in delivery keeps its bytes however many interrupts arrive meanwhile. */
  lemma {:induction false} HeldSlotIsStable(q: Queue, interrupts: seq<Action>)
    requires Inv(q) && q.pending != [] && forall i :: 0 <= i < |interrupts| ==> interrupts[i].Interrupt?
    ensures Run(q, interrupts).Some?
    ensures var t := Run(q, interrupts).value; q.pending <= t.pending && t.pc == q.pc && t.delivered == q.delivered
    decreases |interrupts|
  {
    if interrupts != [] {
      StepKeepsInv(q, interrupts[0]);
      var replies := interrupts[0].replies;
      OffersOnlyAppend(q, replies[..Min(|replies|, RING)]);
      HeldSlotIsStable(Step(q, interrupts[0]).value, interrupts[1..]);
    }
  }

  /** The DPC routine left alone from its loop test on. */
  function Drain(q: Queue): Queue
    requires q.pc.Testing?
    decreases |q.pending|
  {
    if q.pending == [] then q.(pc := Idle)
    else Drain(q.(delivered := q.delivered + [q.pending[0]], pending := q.pending[1..]))
  }

  /** Once the interrupts stop, one dispatch of the DPC hands over everything accepted. */
  lemma {:induction false} DrainDeliversAll(q: Queue)
    requires Inv(q) && q.pc.Testing?
    ensures Drain(q) == q.(pending := [], delivered := q.accepted, pc := Idle)
    decreases |q.pending|
  {
    if q.pending != [] {
      var next := q.(delivered := q.delivered + [q.pending[0]], pending := q.pending[1..]);
      assert next.delivered + next.pending == q.delivered + q.pending;
      DrainDeliversAll(next);
    }
  }

  // ---- the ring itself -------------------------------------------------------------------------

  /** (at + j) % RING. */
  function Slot(at: nat, j: nat): (slot: nat)
    requires at < RING && j < RING
    ensures slot < RING && slot == (at + j) % RING
  {
    if at + j < RING then at + j else at + j - RING
  }

  /** The static ring, its two indices and the DPC's state.  `queue` is the abstract queue. */
  class Ring {
    const data: array2<byte>
    const length: array<byte>
    var head: nat
    var tail: nat
    var dropped: nat
    var dpcQueued: bool
    var ready: bool
    var busy: bool
    ghost var queue: Queue

    ghost predicate Valid()
      reads this, data, length
    {
      && data.Length0 == RING && data.Length1 == MAX_REPLY && length.Length == RING
      && head < RING && tail < RING
      && Inv(queue)
      && Holds(queue)
    }

    /** The slots from head to tail are the packets waiting. */
    ghost predicate Holds(q: Queue)
      requires data.Length0 == RING && data.Length1 == MAX_REPLY && length.Length == RING
      requires head < RING && tail < RING
      reads this, data, length
    {
      && |q.pending| == (if head <= tail then tail - head else tail - head + RING)
      && q.dropped == dropped && q.queued == dpcQueued
      && forall j :: 0 <= j < |q.pending| ==> SlotIs(Slot(head, j), q.pending[j])
    }

    ghost predicate SlotIs(i: nat, p: Packet)
      requires data.Length0 == RING && data.Length1 == MAX_REPLY && length.Length == RING && i < RING
      reads data, length
    {
      && |p| == length[i]
      && |p| <= MAX_REPLY
      && forall k :: 0 <= k < |p| ==> data[i, k] == p[k]
    }

    constructor ()
      ensures Valid() && queue == EMPTY && fresh(data) && fresh(length) && !ready && !busy
    {
      data := new byte[RING, MAX_REPLY]((_, _) => 0);
      length := new byte[RING](_ => 0);
      head, tail, dropped, dpcQueued, ready, busy := 0, 0, 0, false, false, false;
      queue := EMPTY;
    }

    /** HalpCudaService.  `replies` are the packets Cuda presents, each as HalpCudaReadPacket
        returns it; before set-up, and while a request has the port, they are left to it. */
    method CudaService(replies: seq<Reply>)
      requires Valid()
      modifies this, data, length
      ensures Valid()
      ensures queue == if ready && !busy then Service(old(queue), replies) else old(queue)
      ensures head == old(head) && ready == old(ready) && busy == old(busy)
    {
      hide Offer;
      if !ready || busy {
        return;
      }
      var anyQueued := false;
      ghost var q := queue;
      var guard := 0;
      while guard < RING && guard < |replies|
        invariant 0 <= guard <= Min(|replies|, RING)
        invariant q == OfferAll(queue, replies[..guard])
        invariant head == old(head) && tail < RING && queue == old(queue) && ready && !busy
        invariant Holds(q)
        invariant anyQueued <==> |q.accepted| > |queue.accepted|
      {
        OfferNext(queue, replies, guard);
        busy := true;
        var reply := replies[guard];
        busy := false;
        var parked := AcceptReply(reply, q);
        anyQueued := anyQueued || parked;
        q := Offer(q, replies[guard]);
        guard := guard + 1;
      }
      assert q == OfferAll(queue, replies[..Min(|replies|, RING)]);
      StepKeepsInv(queue, Interrupt(replies));
      OffersOnlyAppend(queue, replies[..guard]);
      if anyQueued {
        dpcQueued := true;
      }
      queue := Service(queue, replies);
      assert Holds(queue);
    }

    /** The body of HalpCudaService's loop. */
    method AcceptReply(reply: Reply, ghost q: Queue) returns (parked: bool)
      requires data.Length0 == RING && data.Length1 == MAX_REPLY && length.Length == RING
      requires head < RING && tail < RING
      requires Holds(q)
      modifies this`tail, this`dropped, data, length
      ensures tail < RING && Holds(Offer(q, reply))
      ensures parked <==> Offer(q, reply).accepted != q.accepted
    {
      if |reply| < 3 || reply[0] != PKT_ADB {
        return false;
      }
      var next := (tail + 1) % RING;
      if next == head {
        dropped := dropped + 1;
        return false;
      }
      Park(reply);
      assert Slot(head, |q.pending|) == tail;
      forall j | 0 <= j < |q.pending|
        ensures SlotIs(Slot(head, j), q.pending[j])
      {
        assert old(SlotIs(Slot(head, j), q.pending[j]));
        assert Slot(head, j) != tail;
      }
      tail := next;
      return true;
    }

    /** Copy a reply, from its flags byte on, into the slot at the tail. */
    method Park(reply: Reply)
      requires data.Length0 == RING && data.Length1 == MAX_REPLY && length.Length == RING
      requires tail < RING && IsAdb(reply)
      modifies data, length
      ensures SlotIs(tail, reply[1..])
      ensures forall r :: 0 <= r < RING && r != tail ==> length[r] == old(length[r])
      ensures forall r, k :: 0 <= r < RING && 0 <= k < MAX_REPLY && r != tail ==> data[r, k] == old(data[r, k])
    {
      for i := 0 to |reply| - 1
        invariant forall k :: 0 <= k < i ==> data[tail, k] == reply[1 + k]
        invariant forall r :: 0 <= r < RING ==> length[r] == old(length[r])
        invariant forall r, k :: 0 <= r < RING && 0 <= k < MAX_REPLY && r != tail ==> data[r, k] == old(data[r, k])
      {
        data[tail, i] := reply[1 + i];
      }
      length[tail] := |reply| - 1;
    }

    /** The kernel takes the DPC off its queue and calls the routine. */
    method DispatchDpc()
      requires Valid() && dpcQueued && queue.pc.Idle?
      modifies this
      ensures Valid() && Step(old(queue), Dispatch) == Some(queue)
    {
      dpcQueued := false;
      queue := queue.(queued := false, pc := Testing);
    }

    /** The loop test of HalpAdbDpcRoutine. */
    method TestRing() returns (more: bool)
      requires Valid() && queue.pc.Testing?
      modifies this`queue
      ensures Valid() && Step(old(queue), Test) == Some(queue)
      ensures more <==> queue.pc.Delivering?
    {
      more := head != tail;
      queue := queue.(pc := if queue.pending == [] then Idle else Delivering);
    }

    /** The head slot handed to HalpAdbDeliver. */
    method DeliverHead() returns (packet: Packet)
      requires Valid() && queue.pc.Delivering?
      modifies this`queue
      ensures Valid() && Step(old(queue), Deliver) == Some(queue)
      ensures packet == old(queue).pending[0]
    {
      var i := head;
      assert SlotIs(Slot(head, 0), queue.pending[0]);
      packet := [];
      for k := 0 to length[i]
        invariant packet == queue.pending[0][..k]
      {
        packet := packet + [data[i, k]];
      }
      StepKeepsInv(queue, Deliver);
      queue := queue.(delivered := queue.delivered + [queue.pending[0]], pc := Advancing);
    }

    method AdvanceHead()
      requires Valid() && queue.pc.Advancing?
      modifies this`head, this`queue
      ensures Valid() && Step(old(queue), Advance) == Some(queue)
    {
      ghost var was := head;
      head := (head + 1) % RING;
      StepKeepsInv(queue, Advance);
      forall j | 0 <= j < |queue.pending| - 1
        ensures SlotIs(Slot(head, j), queue.pending[j + 1])
      {
        assert Slot(head, j) == Slot(was, j + 1);
      }
      queue := queue.(pending := queue.pending[1..], pc := Testing);
    }

    /** HalpAdbDpcRoutine with no interrupt arriving while it runs. */
    method AdbDpcRoutine()
      requires Valid() && queue.pc.Testing?
      modifies this`head, this`queue
      ensures Valid() && queue == Drain(old(queue))
      ensures queue.delivered == old(queue).accepted
    {
      DrainDeliversAll(queue);
      var more := TestRing();
      while more
        invariant Valid()
        invariant if more then queue.pc.Delivering? && Drain(queue.(pc := Testing)) == Drain(old(queue))
                  else queue == Drain(old(queue))
        decreases |queue.pending|, more
      {
        var packet := DeliverHead();
        AdvanceHead();
        more := TestRing();
      }
    }
  }
}
