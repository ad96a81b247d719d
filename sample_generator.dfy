/** The packet pipeline of `SampleGenerator`: a generation loop that advances
    a sample and pushes copies of it onto a bounded FIFO queue, and a
    transmission loop that pops packets, converts them and sends their first
    five words. The two threads are modelled as atomic steps that may be
    interleaved in any order: there is one producer and one consumer, each
    push and pop is done under the queue mutex, and a check made before a
    step (queue not full, queue not empty) cannot be invalidated by the other
    thread in the meantime. */
module Generator {
  import opened Uint
  import opened PacketLayout
  import opened PacketCodec

  /** `sendto` is given 20 bytes: the first five of the six converted words. */
  const PAYLOAD_WORDS: int := 5

  /** What became of a packet taken off the queue. */
  datatype Fate = Sent | SendFailed | Drained

  /** The words that leave the host for one packet. */
  function Payload(p: Packet): (w: seq<u32>)
    ensures |w| == PAYLOAD_WORDS
  {
    Encode(p)[..PAYLOAD_WORDS]
  }

  /** The payload omits word 5: within the documented widths, two packets
      have the same payload exactly when they agree on every field except
      MGC voltage and adjustable range scale. */
  lemma PayloadOmitsWord5(p: Packet, q: Packet)
    requires FitsWidths(p) && FitsWidths(q)
    ensures Payload(p) == Payload(q) <==>
      p.(mgcVoltage := 0, adjRangeScale := 0) == q.(mgcVoltage := 0, adjRangeScale := 0)
  {
    var p0 := p.(mgcVoltage := 0, adjRangeScale := 0);
    var q0 := q.(mgcVoltage := 0, adjRangeScale := 0);
    assert Payload(p0) == Payload(p) && Payload(q0) == Payload(q);
    if Payload(p) == Payload(q) {
      assert Encode(p0) == Payload(p0) + [0];
      assert Encode(q0) == Payload(q0) + [0];
      DecodeEncode(p0);
      DecodeEncode(q0);
    }
  }

  function Payloads(ps: seq<Packet>): (ws: seq<seq<u32>>)
    ensures |ws| == |ps|
  {
    seq(|ps|, i requires 0 <= i < |ps| => Payload(ps[i]))
  }

  lemma PayloadsAppend(ps: seq<Packet>, p: Packet)
    ensures Payloads(ps + [p]) == Payloads(ps) + [Payload(p)]
  {
  }

  /** The generation loop's back-off test `size() > queue_len - 1`, where the
      subtraction is done in `uint32_t`. */
  predicate QueueFull(size: nat, queueLen: u32)
  {
    size > (queueLen as int - 1) % TWO_TO_32
  }

  /** The most packets the generation loop lets the queue hold. */
  function Capacity(queueLen: u32): int
  {
    (queueLen as int - 1) % TWO_TO_32 + 1
  }

  /** The generator backs off exactly when the queue holds Capacity packets
      or more. The capacity is queue_len itself for the caller's range
      (queue_len >= 1), one more than the "queue_len - 1" of the test; for
      queue_len = 0 the subtraction wraps and the bound becomes 2^32. */
  lemma QueueFullAtCapacity(size: nat, queueLen: u32)
    ensures QueueFull(size, queueLen) <==> size >= Capacity(queueLen)
    ensures queueLen >= 1 ==> Capacity(queueLen) == queueLen as int
    ensures queueLen == 0 ==> Capacity(queueLen) == TWO_TO_32
  {
  }

  /** The fates recorded for n packets drained by `uninit`. */
  function Drains(n: nat): (fs: seq<Fate>)
    ensures |fs| == n
    ensures forall i :: 0 <= i < n ==> fs[i] == Drained
  {
    if n == 0 then [] else Drains(n - 1) + [Drained]
  }

  /** The packets of `taken` whose send succeeded, in order. */
  function Delivered(taken: seq<Packet>, fates: seq<Fate>): (d: seq<Packet>)
    requires |taken| == |fates|
    ensures |d| <= |taken|
    ensures forall i :: 0 <= i < |d| ==> d[i] in taken
    decreases |taken|
  {
    if taken == [] then []
    else
      var n := |taken| - 1;
      Delivered(taken[..n], fates[..n]) + (if fates[n] == Sent then [taken[n]] else [])
  }

  /** If every send succeeded and nothing was drained, every packet taken
      was delivered. */
  lemma {:induction false} DeliveredAllSent(taken: seq<Packet>, fates: seq<Fate>)
    requires |taken| == |fates|
    requires forall i :: 0 <= i < |fates| ==> fates[i] == Sent
    ensures Delivered(taken, fates) == taken
  {
    if taken != [] {
      var n := |taken| - 1;
      DeliveredAllSent(taken[..n], fates[..n]);
      assert taken == taken[..n] + [taken[n]];
    }
  }

  lemma DeliveredAppend(taken: seq<Packet>, fates: seq<Fate>, p: Packet, f: Fate)
    requires |taken| == |fates|
    ensures Delivered(taken + [p], fates + [f])
         == Delivered(taken, fates) + (if f == Sent then [p] else [])
  {
    assert (taken + [p])[..|taken|] == taken;
    assert (fates + [f])[..|fates|] == fates;
  }

  /** The transmission loop's buffer handling: a fresh six-word array is
      filled by the conversion and its first five words are what is sent. */
  method ConvertForSend(p: Packet) returns (payload: seq<u32>)
    ensures payload == Payload(p)
  {
    var trns := new u32[PACKET_WORDS];
    Convert(p, trns);
    payload := trns[..PAYLOAD_WORDS];
    assert payload == trns[..PACKET_WORDS][..PAYLOAD_WORDS];
  }

  /** The first n packets pushed by a run whose initial sample `Packet smpl`
      holds the stale PRI byte `stalePri` and which advances by the step
      count delta. */
  function Run(stalePri: u8, delta: u32, n: nat): (ps: seq<Packet>)
    ensures |ps| == n
  {
    seq(n, k requires 0 <= k < n => Iterate(DefaultPacket(stalePri), delta, k + 1))
  }

  /** The k-th packet of a run is its initial sample, stale PRI byte
      included, at position (k * delta) mod 2^18. */
  lemma RunPositionsOf(stalePri: u8, delta: u32, n: nat)
    ensures forall k :: 0 <= k < n ==>
      && Run(stalePri, delta, n)[k].antennaPosition as int == ((k + 1) * delta as int) % ROTATION_FULL
      && Run(stalePri, delta, n)[k] == DefaultPacket(stalePri).(antennaPosition := Run(stalePri, delta, n)[k].antennaPosition)
  {
    forall k | 0 <= k < n
      ensures Run(stalePri, delta, n)[k].antennaPosition as int == ((k + 1) * delta as int) % ROTATION_FULL
      ensures Run(stalePri, delta, n)[k] == DefaultPacket(stalePri).(antennaPosition := Run(stalePri, delta, n)[k].antennaPosition)
    {
      IteratePosition(DefaultPacket(stalePri), delta, k + 1);
    }
  }

  /** The stale PRI byte reaches the wire in every packet of a run: word 4
      of each payload is that byte placed at bit 14. */
  lemma RunWord4(stalePri: u8, delta: u32, n: nat)
    ensures forall k :: 0 <= k < n ==> Payload(Run(stalePri, delta, n)[k])[4] as int == stalePri as int * 0x4000
  {
    RunPositionsOf(stalePri, delta, n);
    forall k | 0 <= k < n
      ensures Payload(Run(stalePri, delta, n)[k])[4] as int == stalePri as int * 0x4000
    {
      MovedDefaultWord4(stalePri, Run(stalePri, delta, n)[k].antennaPosition);
    }
  }

  lemma MovedDefaultWord4(stalePri: u8, position: u32)
    ensures Payload(DefaultPacket(stalePri).(antennaPosition := position))[4] as int == stalePri as int * 0x4000
  {
    StalePriInWord4(stalePri);
    Word4IgnoresPosition(DefaultPacket(stalePri), position);
  }

  /** With a step count of 0 (a rotation rate or a period of 0), every pushed
      packet is the initial sample itself: the position never advances. */
  lemma StationaryRun(stalePri: u8, n: nat)
    ensures forall k :: 0 <= k < n ==> Run(stalePri, 0, n)[k] == DefaultPacket(stalePri)
  {
    RunPositionsOf(stalePri, 0, n);
    forall k | 0 <= k < n
      ensures Run(stalePri, 0, n)[k] == DefaultPacket(stalePri)
    {
      assert Run(stalePri, 0, n)[k].antennaPosition as int == ((k + 1) * 0) % ROTATION_FULL;
    }
  }

  /** Every packet is a default packet apart from its antenna position and
      its stale PRI byte. */
  predicate OnlyPositionVaries(ps: seq<Packet>)
  {
    forall i :: 0 <= i < |ps| ==>
      ps[i] == DefaultPacket(ps[i].priSelect).(antennaPosition := ps[i].antennaPosition)
  }

  /** Packets drained with the Drained fate add nothing to what was
      delivered. */
  lemma {:induction false} DrainedDeliversNothing(taken: seq<Packet>, fates: seq<Fate>, q: seq<Packet>)
    requires |taken| == |fates|
    ensures Delivered(taken + q, fates + Drains(|q|)) == Delivered(taken, fates)
    decreases |q|
  {
    if q == [] {
      assert taken + q == taken && fates + Drains(0) == fates;
    } else {
      var n := |q| - 1;
      assert |q[..n]| == n;
      DrainedDeliversNothing(taken, fates, q[..n]);
      DeliveredAppend(taken + q[..n], fates + Drains(n), q[n], Drained);
      assert taken + q == (taken + q[..n]) + [q[n]];
      assert fates + Drains(|q|) == (fates + Drains(n)) + [Drained];
    }
  }

  /** Moving the front of q[k..] to the end of q[..k]. */
  lemma DrainOne(q: seq<Packet>, k: nat)
    requires k < |q|
    ensures q[k..][0] == q[k] && q[k..][1..] == q[k + 1..]
    ensures q[..k + 1] == q[..k] + [q[k]]
  {
  }

  class SampleGenerator {
    /** `active_process`: gates both loops. */
    var active: bool
    /** `packet_queue`: copies of the generated sample, oldest first. */
    var queue: seq<Packet>
    /** The `queue_len` handed to the generation thread by `init`. */
    var queueLen: u32
    /** The step count `(uint32_t)(packet_rate * rotate_rate / ROTATION_STEP)`
        by which each generation step advances the sample. */
    var delta: u32
    /** The generation thread's local `Packet smpl`, kept between steps. */
    var smpl: Packet
    /** Every payload handed to `sendto` that was sent, in order. */
    var sent: seq<seq<u32>>

    /** Every packet ever pushed, in push order. */
    ghost var pushed: seq<Packet>
    /** Every packet ever removed from the queue, by transmission or by the
        drain in `uninit`, in removal order, and what became of each. */
    ghost var taken: seq<Packet>
    ghost var fates: seq<Fate>
    /** How many packets had been pushed when the current run started. */
    ghost var episodeStart: nat
    /** The indeterminate PRI byte of the current run's `Packet smpl`. */
    ghost var stalePri: u8

    ghost predicate Valid()
      reads this
    {
      QueueInv() && LogInv() && RunInv()
    }

    /** Backpressure: the queue never exceeds the generator's bound, and it
        is empty whenever the loops are stopped. */
    ghost predicate QueueInv()
      reads this`queue, this`queueLen, this`active
    {
      && |queue| <= Capacity(queueLen)
      && (!active ==> queue == [])
    }

    /** FIFO: what was pushed is what was removed, then what is still
        queued; what was sent is the payloads of the removed packets whose
        send succeeded. */
    ghost predicate LogInv()
      reads this`pushed, this`taken, this`queue, this`fates, this`sent
    {
      && pushed == taken + queue
      && |fates| == |taken|
      && sent == Payloads(Delivered(taken, fates))
    }

    /** The sample after k steps of the current run is k advances of the
        run's initial default packet, and so is the k-th packet the run
        pushed; no pushed packet differs from a default packet other than in
        antenna position and stale PRI byte. */
    ghost predicate RunInv()
      reads this`pushed, this`smpl, this`delta, this`episodeStart, this`stalePri
    {
      && episodeStart <= |pushed|
      && smpl == Iterate(DefaultPacket(stalePri), delta, |pushed| - episodeStart)
      && pushed[episodeStart..] == Run(stalePri, delta, |pushed| - episodeStart)
      && OnlyPositionVaries(pushed)
    }

    /** A new generator: inactive, empty queue, nothing sent. The socket set
        up here is not modelled; the sample only comes into being in
        `Init`. */
    constructor ()
      ensures Valid()
      ensures !active && queue == [] && sent == []
      ensures pushed == [] && taken == [] && fates == []
    {
      active := false;
      queue := [];
      queueLen := 0;
      delta := 0;
      smpl := DefaultPacket(0);
      sent := [];
      pushed := [];
      taken := [];
      fates := [];
      episodeStart := 0;
      stalePri := 0;
    }

    /** `init`: raise the flag and start both loops. The generation thread
        begins with a default `Packet`, whose PRI select is the indeterminate
        byte `pri` of its storage, and calls `setAntPos` on it with the
        rotation rate. The queue is left as it is (empty). */
    method Init(newQueueLen: u32, rotateRate: real, newDelta: u32, pri: u8)
      requires Valid() && !active
      modifies this
      ensures Valid() && active
      ensures queueLen == newQueueLen && delta == newDelta && stalePri == pri
      ensures smpl == DefaultPacket(pri) && smpl.priSelect == pri
      ensures queue == old(queue) && sent == old(sent)
      ensures pushed == old(pushed) && taken == old(taken) && fates == old(fates)
      ensures episodeStart == |pushed|
    {
      active := true;
      queueLen := newQueueLen;
      delta := newDelta;
      smpl := SetAntPos(DefaultPacket(pri), rotateRate);
      episodeStart := |pushed|;
      stalePri := pri;
    }

    /** One iteration of the generation loop. When the loop has stopped
        (flag down) or the queue is at its bound, nothing changes (the
        thread sleeps and retries). Otherwise the sample advances by `delta`
        and a copy of it is appended to the queue. */
    method GenerateStep() returns (pushedOne: bool)
      requires Valid()
      modifies this
      ensures Valid()
      ensures pushedOne == (old(active) && !QueueFull(|old(queue)|, queueLen))
      ensures active == old(active) && queueLen == old(queueLen) && delta == old(delta)
      ensures sent == old(sent) && taken == old(taken) && fates == old(fates)
      ensures episodeStart == old(episodeStart) && stalePri == old(stalePri)
      ensures pushedOne ==> && smpl == UpdateAntPos(old(smpl), delta)
                            && queue == old(queue) + [smpl]
                            && pushed == old(pushed) + [smpl]
      ensures !pushedOne ==> smpl == old(smpl) && queue == old(queue) && pushed == old(pushed)
    {
      if !active || QueueFull(|queue|, queueLen) {
        return false;
      }
      smpl := UpdateAntPos(smpl, delta);
      queue := queue + [smpl];
      pushed := pushed + [smpl];
      IteratePosition(DefaultPacket(stalePri), delta, |pushed| - episodeStart);
      return true;
    }

    /** One iteration of the transmission loop. When the loop has stopped or
        the queue is empty, nothing changes. Otherwise the front packet is
        removed and converted into six words, and the first five are sent;
        `sendOk` is the outcome of `sendto`. A failed send only loses the
        packet: it is not put back. */
    method TransmitStep(sendOk: bool) returns (tookOne: bool)
      requires Valid()
      modifies this
      ensures Valid()
      ensures tookOne == (old(active) && old(queue) != [])
      ensures active == old(active) && queueLen == old(queueLen) && delta == old(delta)
      ensures smpl == old(smpl) && pushed == old(pushed)
      ensures episodeStart == old(episodeStart) && stalePri == old(stalePri)
      ensures tookOne ==> && queue == old(queue)[1..]
                          && taken == old(taken) + [old(queue)[0]]
                          && fates == old(fates) + [if sendOk then Sent else SendFailed]
                          && sent == old(sent) + (if sendOk then [Payload(old(queue)[0])] else [])
      ensures !tookOne ==> queue == old(queue) && taken == old(taken)
                           && fates == old(fates) && sent == old(sent)
    {
      if !active || queue == [] {
        return false;
      }
      var front := queue[0];
      var payload := ConvertForSend(front);
      var fate := if sendOk then Sent else SendFailed;
      DeliveredAppend(taken, fates, front, fate);
      PayloadsAppend(Delivered(taken, fates), front);
      assert taken + queue == (taken + [front]) + queue[1..];
      queue, taken, fates := queue[1..], taken + [front], fates + [fate];
      if sendOk {
        sent := sent + [payload];
      }
      return true;
    }

    /** `uninit`: lower the flag, wait for both threads to finish the
        iteration they are in (modelled by the steps being atomic), then pop
        every packet left in the queue. Nothing more is sent. */
    method Uninit()
      requires Valid() && active
      modifies this
      ensures Valid()
      ensures !active && queue == []
      ensures taken == old(taken) + old(queue)
      ensures fates == old(fates) + Drains(|old(queue)|)
      ensures sent == old(sent) && pushed == old(pushed) && smpl == old(smpl)
      ensures queueLen == old(queueLen) && delta == old(delta)
      ensures episodeStart == old(episodeStart) && stalePri == old(stalePri)
    {
      active := false;
      DrainedDeliversNothing(taken, fates, queue);
      PopAll();
    }

    /** The drain loop of `uninit`: pop until the queue is empty, recording
        each popped packet as drained. */
    method PopAll()
      modifies this`queue, this`taken, this`fates
      ensures queue == []
      ensures taken == old(taken) + old(queue)
      ensures fates == old(fates) + Drains(|old(queue)|)
    {
      ghost var k := 0;
      while queue != []
        invariant k <= |old(queue)| && queue == old(queue)[k..]
        invariant taken == old(taken) + old(queue)[..k]
        invariant fates == old(fates) + Drains(k)
        decreases |queue|
      {
        DrainOne(old(queue), k);
        queue, taken, fates := queue[1..], taken + [queue[0]], fates + [Drained];
        k := k + 1;
      }
      assert old(queue)[..k] == old(queue);
    }

    /** With the caller's queue length of at least 1, the queue never holds
        more than queue_len packets. */
    lemma QueueBounded()
      requires Valid() && queueLen >= 1
      ensures |queue| <= queueLen as int
    {
      QueueFullAtCapacity(|queue|, queueLen);
    }

    /** The k-th packet pushed in the current run (k from 1) is the run's
        initial sample, stale PRI byte included, at position
        (k * delta) mod 2^18; in particular the packet number never
        advances. */
    lemma RunPositions()
      requires Valid()
      ensures forall i :: episodeStart <= i < |pushed| ==>
        && pushed[i].antennaPosition as int == ((i - episodeStart + 1) * delta as int) % ROTATION_FULL
        && pushed[i] == DefaultPacket(stalePri).(antennaPosition := pushed[i].antennaPosition)
    {
      var run := pushed[episodeStart..];
      RunPositionsOf(stalePri, delta, |run|);
      assert forall i :: episodeStart <= i < |pushed| ==> pushed[i] == run[i - episodeStart];
    }

    /** When every send has succeeded and nothing has been drained, the sent
        log is the payloads of the oldest pushes, in push order. */
    lemma SentInPushOrder()
      requires Valid()
      requires forall i :: 0 <= i < |fates| ==> fates[i] == Sent
      ensures |sent| <= |pushed|
      ensures sent == Payloads(pushed[..|sent|])
    {
      DeliveredAllSent(taken, fates);
      assert pushed[..|taken|] == taken;
    }
  }
}
