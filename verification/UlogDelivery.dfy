/**
 The streaming protocol as a state machine: a sender that blocks on each acknowledged payload and repeats it, a link
 that loses, repeats and delays payloads and acknowledgements, though not by half the sequence space, and the receiver.
 */
module UlogDelivery {
  import opened Sequences
  import opened UlogFormat
  import opened UlogReceiver
  import opened UlogReassembly
  import opened UlogRuns
  import Sender = UlogSender

  /** An acknowledgement on its way; only the number travels, the cause is the payload it answers. */
  datatype Ack = Ack(cause: nat, sequence: int)

  /**
   `next` is the payload the sender is at; `waiting` says it has been sent and needs an acknowledgement. The
   receiver is its state and the pieces it has handed on; the arrivals are the history.
   */
  datatype System = System(
    next: nat,
    waiting: bool,
    dataInFlight: set<nat>,
    acksInFlight: set<Ack>,
    receiver: State,
    handedOn: seq<Piece>,
    arrivals: seq<Arrival>)

  datatype Step =
    | Publish
    | Resend
    | LoseData(index: nat)
    | LoseAck(ack: Ack)
    | DeliverData(index: nat, stale: seq<byte>)
    | DeliverAck(ack: Ack)

  const START := System(0, false, {}, {}, INITIAL, [], [])

  /** A stream that starts with acknowledged payloads, as the logger's does. */
  ghost predicate Stream(ms: seq<seq<byte>>, ps: seq<Payload>) {
    && Honest(ms, ps)
    && Fits(ps)
    && (|ps| > 0 ==> ps[0].acked)
  }

  /** The link's promise: no payload older or newer than the last accepted one by half the space. */
  predicate FreshData(s: System, index: nat) {
    var acc := AcceptedOf(s.arrivals);
    acc != [] ==> -HALF < index - acc[|acc| - 1] < HALF
  }

  predicate Enabled(ps: seq<Payload>, s: System, step: Step) {
    match step
    case Publish => !s.waiting && s.next < |ps|
    case Resend => s.waiting
    case LoseData(i) => i in s.dataInFlight
    case LoseAck(a) => a in s.acksInFlight
    case DeliverData(i, _) => i in s.dataInFlight && i < |ps| && FreshData(s, i)
    case DeliverAck(a) => a in s.acksInFlight && -SEQUENCES < a.cause - s.next < SEQUENCES
  }

  /** The acknowledgements a receiver has sent since it had sent `before`. */
  function NewAcks(cause: nat, before: seq<int>, after: seq<int>): set<Ack> {
    set k | |before| <= k < |after| :: Ack(cause, after[k])
  }

  /** A message reaches the receiver, which reads it, hands on what it carries and processes it. */
  function Receive(s: System, m: Message, cause: nat): System {
    var (read, seen) := Read(s.receiver, m);
    var after := match OnMessage(s.receiver, m) case Ok(st) => st case Err(_) => seen;
    s.(receiver := after,
       handedOn := s.handedOn + PieceOf(read),
       acksInFlight := s.acksInFlight + NewAcks(cause, s.receiver.acksSent, after.acksSent))
  }

  function Apply(ps: seq<Payload>, s: System, step: Step): System
    requires Fits(ps) && Enabled(ps, s, step)
  {
    match step
    case Publish =>
      var sent := s.(dataInFlight := s.dataInFlight + {s.next});
      if ps[s.next].acked then sent.(waiting := true) else sent.(next := s.next + 1)
    case Resend => s.(dataInFlight := s.dataInFlight + {s.next})
    case LoseData(i) => s.(dataInFlight := s.dataInFlight - {i})
    case LoseAck(a) => s.(acksInFlight := s.acksInFlight - {a})
    case DeliverData(i, stale) =>
      Receive(s, Wire(ps, i, stale), i).(arrivals := s.arrivals + [Arrival(i, stale)])
    case DeliverAck(a) =>
      // what the sender compares are the 16-bit sequence numbers
      if s.waiting && a.sequence == s.next % SEQUENCES then s.(waiting := false, next := s.next + 1) else s
  }

  /** The systems that some sequence of enabled steps leads to. */
  ghost predicate Behaviour(ps: seq<Payload>, steps: seq<Step>, s: System)
    requires Fits(ps)
  {
    if steps == [] then s == START else
    var n := |steps| - 1;
    exists before ::
      Behaviour(ps, steps[..n], before) && Enabled(ps, before, steps[n]) && Apply(ps, before, steps[n]) == s
  }

  /** The sender has not passed payload i. */
  predicate Sent(s: System, i: nat) {
    i < s.next || (s.waiting && i == s.next)
  }

  /** What is in flight has been sent, what is acknowledged has been accepted, and nothing needed is missing. */
  predicate InStep(ps: seq<Payload>, s: System) {
    var acc := AcceptedOf(s.arrivals);
    && InWindow(ps, s.arrivals)
    && s.next <= |ps|
    && (s.waiting ==> s.next < |ps| && ps[s.next].acked)
    && (forall i :: i in s.dataInFlight ==> Sent(s, i))
    && (forall i :: i in acc ==> Sent(s, i))
    && (forall a :: a in s.acksInFlight ==> Answers(ps, acc, a))
    && (forall i :: 0 <= i < s.next && ps[i].acked ==> i in acc)
  }

  predicate Answers(ps: seq<Payload>, acc: seq<nat>, a: Ack) {
    a.cause < |ps| && ps[a.cause].acked && a.cause in acc && a.sequence == a.cause % SEQUENCES
  }

  /** The receiver is where its run on the arrivals has taken it, and has handed on what it then hands on. */
  ghost predicate Invariant(ps: seq<Payload>, s: System)
    requires Fits(ps)
  {
    && InStep(ps, s)
    && Run(ps, s.arrivals) == Ok(s.receiver)
    && s.handedOn == HandedOn(ps, s.arrivals)
  }

  lemma AcceptedGrows(arrivals: seq<Arrival>, a: Arrival)
    ensures var acc, acc2 := AcceptedOf(arrivals), AcceptedOf(arrivals + [a]);
      && acc2 == (if acc == [] || a.index > acc[|acc| - 1] then acc + [a.index] else acc)
      && (forall j :: j in acc ==> j in acc2)
      && (forall j :: j in acc2 ==> j in acc || j == a.index)
  {
    assert (arrivals + [a])[..|arrivals|] == arrivals;
    var acc, acc2 := AcceptedOf(arrivals), AcceptedOf(arrivals + [a]);
    assert acc <= acc2;
    assert forall j :: 0 <= j < |acc| ==> acc2[j] == acc[j];
  }

  /** A payload that needs an acknowledgement has been accepted once it has arrived. */
  lemma AckedIsAccepted(ps: seq<Payload>, s: System, i: nat)
    requires |ps| > 0 ==> ps[0].acked
    requires InStep(ps, s) && i in s.dataInFlight && i < |ps| && ps[i].acked
    ensures forall stale :: i in AcceptedOf(s.arrivals + [Arrival(i, stale)])
  {
    var acc := AcceptedOf(s.arrivals);
    forall stale ensures i in AcceptedOf(s.arrivals + [Arrival(i, stale)]) {
      AcceptedGrows(s.arrivals, Arrival(i, stale));
      if acc != [] && i <= acc[|acc| - 1] {
        assert acc[|acc| - 1] in acc;
      }
    }
  }

  /** The first payload to arrive is the first: it is acked, so the sender is not past it before. */
  lemma FirstArrives(ps: seq<Payload>, s: System, i: nat)
    requires |ps| > 0 ==> ps[0].acked
    requires InStep(ps, s) && i in s.dataInFlight && i < |ps|
    ensures AcceptedOf(s.arrivals) != [] || i == 0
  {
    if s.next > 0 {
      assert ps[0].acked;
    }
  }

  lemma WindowGrows(ps: seq<Payload>, s: System, i: nat, stale: seq<byte>)
    requires InWindow(ps, s.arrivals) && i < |ps| && FreshData(s, i)
    requires AcceptedOf(s.arrivals) != [] || i == 0
    ensures InWindow(ps, s.arrivals + [Arrival(i, stale)])
  {
    var arrivals := s.arrivals + [Arrival(i, stale)];
    assert arrivals[..|s.arrivals|] == s.arrivals && arrivals[|s.arrivals|] == Arrival(i, stale);
  }

  /** The receiver reads and processes what arrives, and acknowledges exactly what needs it. */
  lemma ReceiverSteps(ms: seq<seq<byte>>, ps: seq<Payload>, s: System, i: nat, stale: seq<byte>)
    requires Stream(ms, ps) && InWindow(ps, s.arrivals) && i < |ps|
    requires InWindow(ps, s.arrivals + [Arrival(i, stale)])
    requires Run(ps, s.arrivals) == Ok(s.receiver) && s.handedOn == HandedOn(ps, s.arrivals)
    ensures var arrivals := s.arrivals + [Arrival(i, stale)];
      var s2 := Receive(s, Wire(ps, i, stale), i);
      && Run(ps, arrivals) == Ok(s2.receiver)
      && s2.handedOn == HandedOn(ps, arrivals)
      && s2.receiver.acksSent == s.receiver.acksSent + (if ps[i].acked then [i % SEQUENCES] else [])
  {
    var arrivals := s.arrivals + [Arrival(i, stale)];
    assert arrivals[..|s.arrivals|] == s.arrivals && arrivals[|s.arrivals|] == Arrival(i, stale);
    ReassemblyExact(ms, ps, arrivals);
    HandedOnNext(ps, arrivals, s.receiver);
    if s.arrivals == [] {
      assert AcksFor(ps, []) == [];
    } else {
      ReassemblyExact(ms, ps, s.arrivals);
    }
  }

  lemma NewAcksAre(cause: nat, before: seq<int>, more: seq<int>)
    requires |more| <= 1
    ensures NewAcks(cause, before, before + more) == if more == [] then {} else {Ack(cause, more[0])}
  {
    var acks, after := NewAcks(cause, before, before + more), before + more;
    if more != [] {
      assert after[|before|] == more[0];
      assert Ack(cause, after[|before|]) in acks;
    }
  }

  lemma DeliverDataKeeps(ms: seq<seq<byte>>, ps: seq<Payload>, s: System, i: nat, stale: seq<byte>)
    requires Stream(ms, ps) && Invariant(ps, s) && Enabled(ps, s, DeliverData(i, stale))
    ensures Invariant(ps, Apply(ps, s, DeliverData(i, stale)))
  {
    FirstArrives(ps, s, i);
    WindowGrows(ps, s, i, stale);
    ReceiverSteps(ms, ps, s, i, stale);
    AcceptedGrows(s.arrivals, Arrival(i, stale));
    NewAcksAre(i, s.receiver.acksSent, if ps[i].acked then [i % SEQUENCES] else []);
    if ps[i].acked {
      AckedIsAccepted(ps, s, i);
    }
  }

  /** Two numbers less than a whole round apart that agree in 16 bits are the same. */
  lemma SameNumber(i: nat, j: nat)
    requires -SEQUENCES < i - j < SEQUENCES && i % SEQUENCES == j % SEQUENCES
    ensures i == j
  {
    var a, b := i / SEQUENCES, j / SEQUENCES;
    assert i - j == (a - b) * SEQUENCES;
  }

  lemma DeliverAckStays(ps: seq<Payload>, s: System, a: Ack)
    requires Fits(ps) && InStep(ps, s) && Enabled(ps, s, DeliverAck(a))
    ensures InStep(ps, Apply(ps, s, DeliverAck(a)))
  {
    if s.waiting && a.sequence == s.next % SEQUENCES {
      SameNumber(a.cause, s.next);
    }
  }

  lemma OthersStay(ps: seq<Payload>, s: System, step: Step)
    requires Fits(ps) && InStep(ps, s) && Enabled(ps, s, step) && !step.DeliverData? && !step.DeliverAck?
    ensures InStep(ps, Apply(ps, s, step))
  {
  }

  /** Only the arrival of a payload moves the receiver. */
  lemma ReceiverStays(ps: seq<Payload>, s: System, step: Step)
    requires Fits(ps) && Enabled(ps, s, step) && !step.DeliverData?
    ensures var s2 := Apply(ps, s, step);
      s2.receiver == s.receiver && s2.handedOn == s.handedOn && s2.arrivals == s.arrivals
  {
  }

  /** Every step of the sender, the link and the receiver keeps the invariant. */
  lemma StepKeeps(ms: seq<seq<byte>>, ps: seq<Payload>, s: System, step: Step)
    requires Stream(ms, ps) && Invariant(ps, s) && Enabled(ps, s, step)
    ensures Invariant(ps, Apply(ps, s, step))
  {
    if step.DeliverData? {
      DeliverDataKeeps(ms, ps, s, step.index, step.stale);
    } else {
      ReceiverStays(ps, s, step);
      if step.DeliverAck? {
        DeliverAckStays(ps, s, step.ack);
      } else {
        OthersStay(ps, s, step);
      }
    }
  }

  lemma {:induction false} BehaviourKeeps(ms: seq<seq<byte>>, ps: seq<Payload>, steps: seq<Step>, s: System)
    requires Stream(ms, ps) && Behaviour(ps, steps, s)
    ensures Invariant(ps, s)
  {
    if steps != [] {
      var n := |steps| - 1;
      var before :|
        Behaviour(ps, steps[..n], before) && Enabled(ps, before, steps[n]) && Apply(ps, before, steps[n]) == s;
      BehaviourKeeps(ms, ps, steps[..n], before);
      StepKeeps(ms, ps, before, steps[n]);
    }
  }

  /**
   In every behaviour the receiver has handed on some payloads in order and without repetition, each with the exact
   number lost in front of it, and every payload that needs an acknowledgement and that the sender has moved past
   is among them; none is handed on that the sender has not come to.
   */
  lemma DeliveredInOrderOnce(ms: seq<seq<byte>>, ps: seq<Payload>, steps: seq<Step>, s: System)
    returns (acc: seq<nat>)
    requires Stream(ms, ps) && Behaviour(ps, steps, s)
    ensures Accepted(ps, acc) && s.handedOn == PiecesOf(ps, acc)
    ensures acc == AcceptedOf(s.arrivals)
    ensures forall i, j :: 0 <= i < j < |acc| ==> acc[i] < acc[j]
    ensures s.next <= |ps| && forall i :: 0 <= i < s.next && ps[i].acked ==> i in acc
    ensures forall i :: i in acc ==> i <= s.next && i < |ps|
  {
    BehaviourKeeps(ms, ps, steps, s);
    HandedOnIsAccepted(ms, ps, s.arrivals);
    acc := AcceptedOf(s.arrivals);
  }

  /** In every behaviour the receiver's file is exact, and it has acknowledged exactly the arrivals that need it. */
  lemma FileAlwaysExact(ms: seq<seq<byte>>, ps: seq<Payload>, steps: seq<Step>, s: System)
    requires Stream(ms, ps) && Behaviour(ps, steps, s) && s.arrivals != []
    ensures var acc := AcceptedOf(s.arrivals);
      && InWindow(ps, s.arrivals) && Accepted(ps, acc)
      && Run(ps, s.arrivals) == Ok(s.receiver)
      && FileIsExact(ms, ps, acc, s.receiver)
      && s.receiver.acksSent == AcksFor(ps, s.arrivals)
  {
    BehaviourKeeps(ms, ps, steps, s);
    ReassemblyExact(ms, ps, s.arrivals);
  }

  /** The acknowledged header section is never lost: once the sender is past it, all of it has been received. */
  lemma HeaderSectionComplete(ms: seq<seq<byte>>, ps: seq<Payload>, steps: seq<Step>, s: System, h: nat)
    requires Stream(ms, ps) && Behaviour(ps, steps, s)
    requires 1 <= h <= s.next && h <= |ps| && forall i :: 0 <= i < h ==> ps[i].acked
    ensures var acc := AcceptedOf(s.arrivals);
      && Accepted(ps, acc)
      && ms[..Last(ms, Cut(ps, h))] <= Expected(ms, ps, acc)
  {
    BehaviourKeeps(ms, ps, steps, s);
    AcceptedOfIsAccepted(ps, s.arrivals);
    var acc := AcceptedOf(s.arrivals);
    IncreasingCovers(acc, h);
    AcceptedPrefixComplete(ms, ps, acc, h);
  }

  /**
   End to end, for whatever the logger's writer was asked to write as a log and however the link behaved: what was
   published is a stream as the protocol wants it, numbered modulo 2^16, and the receiver's file is exact for the
   payloads accepted.
   */
  lemma WriterToFile(w: Sender.LogWriterMavlink, steps: seq<Step>, s: System)
    requires w.Valid() && IsLog(w.messages) && Sender.StartsReliably(w.published)
    ensures var ps := Sender.Payloads(w.published);
      && Stream(w.messages, ps)
      && (forall i :: 0 <= i < |ps| ==> w.published[i].sequence == i % SEQUENCES)
      && (Behaviour(ps, steps, s) && s.arrivals != [] ==>
            && Accepted(ps, AcceptedOf(s.arrivals))
            && FileIsExact(w.messages, ps, AcceptedOf(s.arrivals), s.receiver))
  {
    var ps := Sender.Payloads(w.published);
    assert forall i :: 0 <= i < |ps| ==> HonestPayload(w.messages, ps, i);
    HonestFits(w.messages, ps);
    if Behaviour(ps, steps, s) && s.arrivals != [] {
      FileAlwaysExact(w.messages, ps, steps, s);
    }
  }

  /** And once the sender is past the header section, every message of it has been received. */
  lemma WriterHeaderComplete(w: Sender.LogWriterMavlink, header: seq<seq<byte>>, h: nat, steps: seq<Step>, s: System)
    requires w.Valid() && IsLog(w.messages) && header != []
    requires Sender.HeaderFirst(header, w.messages, w.published, h)
    requires Fits(Sender.Payloads(w.published)) && Behaviour(Sender.Payloads(w.published), steps, s) && h <= s.next
    ensures var ps := Sender.Payloads(w.published);
      Accepted(ps, AcceptedOf(s.arrivals)) && header <= Expected(w.messages, ps, AcceptedOf(s.arrivals))
  {
    var ms, ps := w.messages, Sender.Payloads(w.published);
    assert NonEmptyPieces(header) by {
      assert forall i :: 0 <= i < |header| ==> header[i] == ms[i];
    }
    Sender.HeaderIsSomething(header, ms, w.published, h);
    WriterToFile(w, steps, s);
    HeaderSectionComplete(ms, ps, steps, s, h);
    LastOfHeader(ms, header);
  }

  lemma LastOfHeader(ms: seq<seq<byte>>, header: seq<seq<byte>>)
    requires IsLog(ms) && header <= ms
    ensures ms[..Last(ms, |Flatten(header)|)] == header
  {
    StartOfPrefix(ms, header, |header|);
    FlattenLength(header);
    LastAtStart(ms, |header|);
  }

  lemma {:induction false} StartOfPrefix(ms: seq<seq<byte>>, header: seq<seq<byte>>, j: nat)
    requires header <= ms && j <= |header|
    ensures Start(ms, j) == Start(header, j)
  {
    if j > 0 {
      StartOfPrefix(ms, header, j - 1);
    }
  }

  lemma {:induction false} IncreasingCovers(acc: seq<nat>, h: nat)
    requires forall i, j :: 0 <= i < j < |acc| ==> acc[i] < acc[j]
    requires forall i :: 0 <= i < h ==> i in acc
    ensures h <= |acc| && forall j :: 0 <= j < h ==> acc[j] == j
  {
    if h > 0 {
      IncreasingCovers(acc, h - 1);
      assert h - 1 in acc;
      var j :| 0 <= j < |acc| && acc[j] == h - 1;
      IncreasingAtLeast(acc, j);
    }
  }

  lemma {:induction false} IncreasingAtLeast(acc: seq<nat>, j: nat)
    requires forall i, k :: 0 <= i < k < |acc| ==> acc[i] < acc[k]
    requires j < |acc|
    ensures acc[j] >= j
  {
    if j > 0 {
      IncreasingAtLeast(acc, j - 1);
    }
  }
}
