/**
 Whole runs of the receiver: whatever sequence of an honest sender's payloads arrives, lost, repeated or
 out of order within half the sequence space, the file is exact.
 */
module UlogRuns {
  import opened Sequences
  import opened UlogFormat
  import opened UlogReceiver
  import opened UlogReassembly

  /** The arrival of payload `index`; the bytes of the wire message beyond its length are arbitrary. */
  datatype Arrival = Arrival(index: nat, stale: seq<byte>)

  /** What a receiver with an unbounded counter would accept. */
  function AcceptedOf(arrivals: seq<Arrival>): seq<nat> {
    if arrivals == [] then [] else
    var acc := AcceptedOf(arrivals[..|arrivals| - 1]);
    var index := arrivals[|arrivals| - 1].index;
    if acc == [] || index > acc[|acc| - 1] then acc + [index] else acc
  }

  /** The first payload comes first, and no arrival is 2^15 or more away from the last one accepted. */
  predicate InWindow(ps: seq<Payload>, arrivals: seq<Arrival>) {
    arrivals == [] ||
    var n := |arrivals| - 1;
    var acc := AcceptedOf(arrivals[..n]);
    && InWindow(ps, arrivals[..n])
    && arrivals[n].index < |ps|
    && (acc == [] ==> arrivals[n].index == 0)
    && (acc != [] ==> -HALF < arrivals[n].index - acc[|acc| - 1] < HALF)
  }

  /** The main loop, fed with the arrivals one after the other. */
  ghost function Run(ps: seq<Payload>, arrivals: seq<Arrival>): Result<State, Error>
    requires Fits(ps) && InWindow(ps, arrivals)
  {
    if arrivals == [] then Ok(INITIAL) else
    var n := |arrivals| - 1;
    match Run(ps, arrivals[..n])
    case Err(e) => Err(e)
    case Ok(st) => OnMessage(st, Wire(ps, arrivals[n].index, arrivals[n].stale))
  }

  function AcksFor(ps: seq<Payload>, arrivals: seq<Arrival>): seq<int>
    requires InWindow(ps, arrivals)
  {
    if arrivals == [] then [] else
    var n := |arrivals| - 1;
    AcksFor(ps, arrivals[..n]) +
    (if ps[arrivals[n].index].acked then [arrivals[n].index % SEQUENCES] else [])
  }

  lemma {:induction false} AcceptedOfIsAccepted(ps: seq<Payload>, arrivals: seq<Arrival>)
    requires InWindow(ps, arrivals)
    ensures Accepted(ps, AcceptedOf(arrivals))
    ensures arrivals != [] ==> AcceptedOf(arrivals) != []
  {
    if arrivals != [] {
      AcceptedOfIsAccepted(ps, arrivals[..|arrivals| - 1]);
    }
  }

  /** Nothing arrives newer than what has been accepted, and everything accepted arrived. */
  lemma {:induction false} AcceptedOfContents(arrivals: seq<Arrival>)
    ensures var acc := AcceptedOf(arrivals);
      && (forall t :: t in acc ==> exists a :: a in arrivals && a.index == t)
      && (forall a :: a in arrivals ==> acc != [] && a.index <= acc[|acc| - 1])
  {
    if arrivals != [] {
      var n := |arrivals| - 1;
      AcceptedOfContents(arrivals[..n]);
      assert arrivals == arrivals[..n] + [arrivals[n]];
      assert forall a :: a in arrivals[..n] ==> a in arrivals;
    }
  }

  /** `read_message` on the message carrying payload i when payload `last` was the last one accepted. */
  lemma ReadArrival(ps: seq<Payload>, last: nat, i: nat, stale: seq<byte>, st: State)
    requires i < |ps| && |ps[i].data| <= PAYLOAD_CAPACITY && -HALF < i - last < HALF
    requires st.lastSequence == last % SEQUENCES
    ensures var acked := st.(acksSent := st.acksSent + (if ps[i].acked then [i % SEQUENCES] else []));
      Read(st, Wire(ps, i, stale)) ==
      if i <= last then (Ok(None), acked) else
      (Ok(Some(Piece(ps[i].data, ps[i].firstOffset, i - last - 1))),
       acked.(numDropouts := st.numDropouts + (i - last - 1), lastSequence := i % SEQUENCES,
              loggingStarted := st.loggingStarted || (!ps[i].acked && !st.gotHeaderSection),
              gotHeaderSection := st.gotHeaderSection || !ps[i].acked))
  {
    CheckSequenceRefines(last, i);
    var m := Wire(ps, i, stale);
    assert Take(m.data, m.length) == ps[i].data;
    assert st.acksSent + [] == st.acksSent;
  }

  /** The receiver once `read_message` has seen the first payload. */
  function AfterFirstRead(ps: seq<Payload>): State
    requires |ps| > 0
  {
    INITIAL.(acksSent := if ps[0].acked then [0] else [], lastSequence := 0,
             loggingStarted := !ps[0].acked, gotHeaderSection := !ps[0].acked)
  }

  lemma ReadFirstArrival(ps: seq<Payload>, stale: seq<byte>)
    requires |ps| > 0 && |ps[0].data| <= PAYLOAD_CAPACITY
    ensures Read(INITIAL, Wire(ps, 0, stale)) ==
      (Ok(Some(Piece(ps[0].data, ps[0].firstOffset, 0))), AfterFirstRead(ps))
  {
    var m := Wire(ps, 0, stale);
    assert Take(m.data, m.length) == ps[0].data;
    assert [] + [0] == [0];
    assert CheckSequence(-1, 0) == (true, 0);
  }

  lemma TracksNext(ms: seq<seq<byte>>, ps: seq<Payload>, acc: seq<nat>, k: nat, items: seq<Item>,
                   st: State, st1: State, i: nat)
    returns (k2: nat, items2: seq<Item>, st2: State)
    requires Honest(ms, ps) && Tracks(ms, ps, acc, k, items, st)
    requires acc[|acc| - 1] + 1 == i < |ps| && Noted(ps, acc, i, st, st1)
    ensures Process(st1, Piece(ps[i].data, ps[i].firstOffset, 0)) == Ok(st2)
    ensures st2.acksSent == st1.acksSent
    ensures Tracks(ms, ps, acc + [i], k2, items2, st2)
  {
    CutMonotone(ps, acc[|acc| - LastRun(acc)], i);
    k2 := StepConsecutive(ms, ps, RunStart(ps, acc), k, i, st1);
    st2 := AfterConsecutive(ms, st1, k, k2, Cut(ps, i + 1));
    items2 := items + Entries(ms[k..k2]);
    TracksConsecutive(ms, ps, acc, k, items, i, st, st1, k2);
  }

  lemma TracksLater(ms: seq<seq<byte>>, ps: seq<Payload>, acc: seq<nat>, k: nat, items: seq<Item>,
                    st: State, st1: State, i: nat)
    returns (k2: nat, items2: seq<Item>, st2: State)
    requires Honest(ms, ps) && Tracks(ms, ps, acc, k, items, st)
    requires acc[|acc| - 1] + 1 < i < |ps| && Noted(ps, acc, i, st, st1)
    ensures Process(st1, Piece(ps[i].data, ps[i].firstOffset, i - acc[|acc| - 1] - 1)) == Ok(st2)
    ensures st2.acksSent == st1.acksSent
    ensures Tracks(ms, ps, acc + [i], k2, items2, st2)
  {
    var last := acc[|acc| - 1];
    CutPositive(ms, ps, last + 1);
    k2 := StepAfterGap(ms, ps, last, k, i, st1);
    st2 := AfterGap(ms, st1, i - last - 1, k, Cut(ps, last + 1), Cut(ps, i), k2, Cut(ps, i + 1));
    items2 := TracksAfterGap(ms, ps, acc, k, items, i, st, st1, k2);
  }

  lemma CutPositive(ms: seq<seq<byte>>, ps: seq<Payload>, i: nat)
    requires Honest(ms, ps) && 1 <= i <= |ps|
    ensures 0 < Cut(ps, i)
  {
  }

  /** A newer arrival is processed and tracked. */
  lemma TracksNewer(ms: seq<seq<byte>>, ps: seq<Payload>, acc: seq<nat>, k: nat, items: seq<Item>,
                    st: State, st1: State, i: nat)
    returns (k2: nat, items2: seq<Item>, st2: State)
    requires Honest(ms, ps) && Tracks(ms, ps, acc, k, items, st)
    requires acc[|acc| - 1] < i < |ps| && Noted(ps, acc, i, st, st1)
    ensures Process(st1, Piece(ps[i].data, ps[i].firstOffset, i - acc[|acc| - 1] - 1)) == Ok(st2)
    ensures st2.acksSent == st1.acksSent
    ensures Tracks(ms, ps, acc + [i], k2, items2, st2)
  {
    if i == acc[|acc| - 1] + 1 {
      k2, items2, st2 := TracksNext(ms, ps, acc, k, items, st, st1, i);
    } else {
      k2, items2, st2 := TracksLater(ms, ps, acc, k, items, st, st1, i);
    }
  }

  lemma OnMessageProcesses(st: State, m: Message, p: Piece, st1: State, st2: State)
    requires Read(st, m) == (Ok(Some(p)), st1) && Process(st1, p) == Ok(st2)
    ensures OnMessage(st, m) == Ok(st2)
  {
  }

  lemma OnMessageIgnores(st: State, m: Message, st1: State)
    requires Read(st, m) == (Ok(None), st1)
    ensures OnMessage(st, m) == Ok(st1)
  {
  }

  /** An older or repeated arrival is only acknowledged. */
  lemma TracksOlderArrival(ms: seq<seq<byte>>, ps: seq<Payload>, acc: seq<nat>, k: nat, items: seq<Item>,
                           st: State, i: nat, stale: seq<byte>)
    returns (st2: State)
    requires Honest(ms, ps) && Tracks(ms, ps, acc, k, items, st)
    requires i < |ps| && |ps[i].data| <= PAYLOAD_CAPACITY && -HALF < i - acc[|acc| - 1] <= 0
    ensures OnMessage(st, Wire(ps, i, stale)) == Ok(st2)
    ensures st2.acksSent == st.acksSent + (if ps[i].acked then [i % SEQUENCES] else [])
    ensures Tracks(ms, ps, acc, k, items, st2)
  {
    ReadArrival(ps, acc[|acc| - 1], i, stale, st);
    st2 := st.(acksSent := st.acksSent + (if ps[i].acked then [i % SEQUENCES] else []));
    OnMessageIgnores(st, Wire(ps, i, stale), st2);
  }

  /** A newer arrival is tracked. */
  lemma TracksNewerArrival(ms: seq<seq<byte>>, ps: seq<Payload>, acc: seq<nat>, k: nat, items: seq<Item>,
                           st: State, i: nat, stale: seq<byte>)
    returns (k2: nat, items2: seq<Item>, st2: State)
    requires Honest(ms, ps) && Tracks(ms, ps, acc, k, items, st)
    requires i < |ps| && |ps[i].data| <= PAYLOAD_CAPACITY && 0 < i - acc[|acc| - 1] < HALF
    ensures OnMessage(st, Wire(ps, i, stale)) == Ok(st2)
    ensures st2.acksSent == st.acksSent + (if ps[i].acked then [i % SEQUENCES] else [])
    ensures Tracks(ms, ps, acc + [i], k2, items2, st2)
  {
    ReadArrival(ps, acc[|acc| - 1], i, stale, st);
    var (read, st1) := Read(st, Wire(ps, i, stale));
    k2, items2, st2 := TracksNewer(ms, ps, acc, k, items, st, st1, i);
    OnMessageProcesses(st, Wire(ps, i, stale), read.value.value, st1, st2);
  }

  lemma TracksFirst(ms: seq<seq<byte>>, ps: seq<Payload>, stale: seq<byte>)
    returns (k: nat, items: seq<Item>, st: State)
    requires Honest(ms, ps) && |ps| > 0 && |ps[0].data| <= PAYLOAD_CAPACITY
    ensures OnMessage(INITIAL, Wire(ps, 0, stale)) == Ok(st)
    ensures st.acksSent == if ps[0].acked then [0] else []
    ensures Tracks(ms, ps, [0], k, items, st)
  {
    ReadFirstArrival(ps, stale);
    var st1 := AfterFirstRead(ps);
    k, items := FirstPayload(ms, ps, st1);
    st := Process(st1, Piece(ps[0].data, ps[0].firstOffset, 0)).value;
    ProcessKeepsAcks(st1, Piece(ps[0].data, ps[0].firstOffset, 0));
    OnMessageProcesses(INITIAL, Wire(ps, 0, stale), Piece(ps[0].data, ps[0].firstOffset, 0), st1, st);
  }

  lemma ProcessKeepsAcks(st: State, p: Piece)
    ensures Process(st, p).Ok? ==> Process(st, p).value.acksSent == st.acksSent
  {
  }

  lemma {:induction false} TracksRun(ms: seq<seq<byte>>, ps: seq<Payload>, arrivals: seq<Arrival>)
    returns (k: nat, items: seq<Item>, st: State)
    requires Honest(ms, ps) && InWindow(ps, arrivals) && arrivals != []
    requires Fits(ps)
    ensures Run(ps, arrivals) == Ok(st) && st.acksSent == AcksFor(ps, arrivals)
    ensures Tracks(ms, ps, AcceptedOf(arrivals), k, items, st)
  {
    var n := |arrivals| - 1;
    var i, stale := arrivals[n].index, arrivals[n].stale;
    if n == 0 {
      assert arrivals[..0] == [] && i == 0;
      k, items, st := TracksFirst(ms, ps, stale);
      assert AcceptedOf(arrivals) == [0];
      assert AcksFor(ps, arrivals) == if ps[0].acked then [0] else [];
    } else {
      AcceptedOfIsAccepted(ps, arrivals[..n]);
      k, items, st := TracksRun(ms, ps, arrivals[..n]);
      var acc := AcceptedOf(arrivals[..n]);
      if i > acc[|acc| - 1] {
        k, items, st := TracksNewerArrival(ms, ps, acc, k, items, st, i, stale);
      } else {
        st := TracksOlderArrival(ms, ps, acc, k, items, st, i, stale);
      }
    }
  }

  /**
   What the file must be after the payloads acc: header, records and dropout reports where `FileItems` says, all of
   them whole; with the complete record still buffered its messages are those expected, and its dropouts the gaps.
   */
  ghost predicate FileIsExact(ms: seq<seq<byte>>, ps: seq<Payload>, acc: seq<nat>, st: State)
    requires Accepted(ps, acc)
  {
    var items := FileItems(ms, ps, acc);
    && st.file == Render(items)
    && SplitRecords(st.ulogMessage).0 == HeldAfter(ms, ps, acc)
    && Aligned(ms, items)
    && MessagesOf(items) + HeldAfter(ms, ps, acc) == Expected(ms, ps, acc)
    && DropoutsOf(items) == Gaps(ps, acc)
  }

  lemma TrackedIsExact(ms: seq<seq<byte>>, ps: seq<Payload>, acc: seq<nat>, k: nat, items: seq<Item>, st: State)
    requires IsLog(ms) && Tracks(ms, ps, acc, k, items, st)
    ensures FileIsExact(ms, ps, acc, st)
  {
    RunEndsExpected(ms, ps, acc, k, items);
    SplitPending(ms, k, RunEnd(ps, acc));
    HeldBackIsPending(ms, RunStart(ps, acc), Cut(ps, acc[|acc| - 1]), RunEnd(ps, acc));
  }

  /** Reassembly is exact for every arrival pattern inside the sequence window, and losses are counted exactly. */
  lemma ReassemblyExact(ms: seq<seq<byte>>, ps: seq<Payload>, arrivals: seq<Arrival>)
    requires Honest(ms, ps) && InWindow(ps, arrivals) && arrivals != []
    requires Fits(ps)
    ensures var acc := AcceptedOf(arrivals);
      && Accepted(ps, acc) && acc != []
      && Run(ps, arrivals).Ok?
      && var st := Run(ps, arrivals).value;
      && FileIsExact(ms, ps, acc, st)
      && st.numDropouts == (acc[|acc| - 1] - acc[0] + 1) - |acc|
      && st.acksSent == AcksFor(ps, arrivals)
  {
    var k, items, st := TracksRun(ms, ps, arrivals);
    AcceptedOfIsAccepted(ps, arrivals);
    TrackedIsExact(ms, ps, AcceptedOf(arrivals), k, items, st);
  }

  // ---------- what the receiver hands on ----------

  /** The pieces `read_message` hands on, one after the other, along a run. */
  ghost function HandedOn(ps: seq<Payload>, arrivals: seq<Arrival>): seq<Piece>
    requires Fits(ps) && InWindow(ps, arrivals)
  {
    if arrivals == [] then [] else
    var n := |arrivals| - 1;
    HandedOn(ps, arrivals[..n]) +
    match Run(ps, arrivals[..n])
    case Err(_) => []
    case Ok(st) => PieceOf(Read(st, Wire(ps, arrivals[n].index, arrivals[n].stale)).0)
  }

  function PieceOf(read: Result<Option<Piece>, Error>): seq<Piece> {
    if read.Ok? && read.value.Some? then [read.value.value] else []
  }

  /** Payload i, accepted after the payloads acc, with the number of payloads lost in front of it. */
  function PieceAfter(ps: seq<Payload>, acc: seq<nat>, i: nat): Piece
    requires i < |ps| && (acc != [] ==> acc[|acc| - 1] < i)
  {
    Piece(ps[i].data, ps[i].firstOffset, if acc == [] then 0 else i - acc[|acc| - 1] - 1)
  }

  /** The payloads acc as pieces. */
  function PiecesOf(ps: seq<Payload>, acc: seq<nat>): seq<Piece>
    requires forall i :: 0 <= i < |acc| ==> acc[i] < |ps|
    requires forall i, j :: 0 <= i < j < |acc| ==> acc[i] < acc[j]
  {
    if acc == [] then [] else
    var n := |acc| - 1;
    PiecesOf(ps, acc[..n]) + [PieceAfter(ps, acc[..n], acc[n])]
  }

  lemma PiecesSnoc(ps: seq<Payload>, acc: seq<nat>, i: nat)
    requires i < |ps| && (acc != [] ==> acc[|acc| - 1] < i)
    requires Accepted(ps, acc) && Accepted(ps, acc + [i])
    ensures PiecesOf(ps, acc + [i]) == PiecesOf(ps, acc) + [PieceAfter(ps, acc, i)]
  {
    assert (acc + [i])[..|acc|] == acc && (acc + [i])[|acc|] == i;
  }

  /** What is handed on for payload i when payload `last` was the last one accepted. */
  lemma PieceRead(ps: seq<Payload>, last: nat, i: nat, stale: seq<byte>, st: State)
    requires i < |ps| && |ps[i].data| <= PAYLOAD_CAPACITY && -HALF < i - last < HALF
    requires st.lastSequence == last % SEQUENCES
    ensures PieceOf(Read(st, Wire(ps, i, stale)).0)
         == if i <= last then [] else [Piece(ps[i].data, ps[i].firstOffset, i - last - 1)]
  {
    ReadArrival(ps, last, i, stale, st);
  }

  lemma HandedOnNext(ps: seq<Payload>, arrivals: seq<Arrival>, st: State)
    requires Fits(ps) && InWindow(ps, arrivals) && arrivals != []
    requires Run(ps, arrivals[..|arrivals| - 1]) == Ok(st)
    ensures var n := |arrivals| - 1;
      HandedOn(ps, arrivals)
      == HandedOn(ps, arrivals[..n]) + PieceOf(Read(st, Wire(ps, arrivals[n].index, arrivals[n].stale)).0)
  {
  }

  /**
   What the 16-bit receiver hands on is what an unbounded counter would accept, each payload once, in order, with
   the exact number lost in front of it.
   */
  lemma {:induction false} HandedOnIsAccepted(ms: seq<seq<byte>>, ps: seq<Payload>, arrivals: seq<Arrival>)
    requires Honest(ms, ps) && Fits(ps) && InWindow(ps, arrivals)
    ensures Accepted(ps, AcceptedOf(arrivals))
    ensures HandedOn(ps, arrivals) == PiecesOf(ps, AcceptedOf(arrivals))
  {
    AcceptedOfIsAccepted(ps, arrivals);
    if arrivals != [] {
      var n := |arrivals| - 1;
      var i, stale := arrivals[n].index, arrivals[n].stale;
      HandedOnIsAccepted(ms, ps, arrivals[..n]);
      var st := StateBefore(ms, ps, arrivals);
      HandedOnNext(ps, arrivals, st);
      PieceArrives(ps, AcceptedOf(arrivals[..n]), i, stale, st);
    }
  }

  /** The receiver in front of the last arrival. */
  lemma StateBefore(ms: seq<seq<byte>>, ps: seq<Payload>, arrivals: seq<Arrival>)
    returns (st: State)
    requires Honest(ms, ps) && Fits(ps) && InWindow(ps, arrivals) && arrivals != []
    ensures var before := arrivals[..|arrivals| - 1];
      && Run(ps, before) == Ok(st)
      && Accepted(ps, AcceptedOf(before))
      && Follows(ps, AcceptedOf(before), arrivals[|arrivals| - 1].index, st)
  {
    var n := |arrivals| - 1;
    AcceptedOfIsAccepted(ps, arrivals[..n]);
    if n == 0 {
      assert arrivals[..0] == [];
      st := INITIAL;
    } else {
      var k, items;
      k, items, st := TracksRun(ms, ps, arrivals[..n]);
    }
  }

  /** Payload i arrives, inside the window, at a receiver that has accepted the payloads acc. */
  predicate Follows(ps: seq<Payload>, acc: seq<nat>, i: nat, st: State) {
    && i < |ps|
    && if acc == [] then i == 0 && st == INITIAL
       else -HALF < i - acc[|acc| - 1] < HALF && st.lastSequence == acc[|acc| - 1] % SEQUENCES
  }

  lemma FirstPieceArrives(ps: seq<Payload>, stale: seq<byte>)
    requires |ps| > 0 && |ps[0].data| <= PAYLOAD_CAPACITY
    ensures PieceOf(Read(INITIAL, Wire(ps, 0, stale)).0) == [PieceAfter(ps, [], 0)]
  {
    ReadFirstArrival(ps, stale);
  }

  lemma PieceArrives(ps: seq<Payload>, acc: seq<nat>, i: nat, stale: seq<byte>, st: State)
    requires Fits(ps) && Accepted(ps, acc) && Follows(ps, acc, i, st)
    ensures var acc2 := if acc == [] || i > acc[|acc| - 1] then acc + [i] else acc;
      && Accepted(ps, acc2)
      && PiecesOf(ps, acc) + PieceOf(Read(st, Wire(ps, i, stale)).0) == PiecesOf(ps, acc2)
  {
    var piece := PieceOf(Read(st, Wire(ps, i, stale)).0);
    if acc != [] && i <= acc[|acc| - 1] {
      assert piece == [] by { PieceRead(ps, acc[|acc| - 1], i, stale, st); }
    } else {
      assert piece == [PieceAfter(ps, acc, i)] by {
        if acc == [] {
          FirstPieceArrives(ps, stale);
        } else {
          PieceRead(ps, acc[|acc| - 1], i, stale, st);
        }
      }
      AcceptedSnoc(ps, acc, i);
      PiecesSnoc(ps, acc, i);
    }
  }

  /** Read as ULog, the file splits into exactly its items: no record is torn or merged. */
  lemma FileIsRecordAligned(ms: seq<seq<byte>>, items: seq<Item>)
    requires IsLog(ms) && Aligned(ms, items)
    ensures |Render(items)| >= HEADER_LENGTH && Render(items)[..HEADER_LENGTH] == ms[0]
    ensures SplitRecords(Render(items)[HEADER_LENGTH..]) ==
            (seq(|items| - 1, j requires 0 <= j < |items| - 1 => Bytes(items[j + 1])), [])
  {
    var rest := items[1..];
    var records := seq(|rest|, j requires 0 <= j < |rest| => Bytes(rest[j]));
    assert items == [items[0]] + rest;
    RenderAppend([items[0]], rest);
    CollectOne(items[0], Bytes);
    RenderIsFlatten(rest);
    SplitRecordsComplete(records);
    assert Render(items)[HEADER_LENGTH..] == Flatten(records);
    assert records == seq(|items| - 1, j requires 0 <= j < |items| - 1 => Bytes(items[j + 1]));
  }

  lemma {:induction false} RenderIsFlatten(items: seq<Item>)
    ensures Render(items) == Flatten(seq(|items|, j requires 0 <= j < |items| => Bytes(items[j])))
  {
    var all := seq(|items|, j requires 0 <= j < |items| => Bytes(items[j]));
    if items != [] {
      var n := |items| - 1;
      RenderIsFlatten(items[..n]);
      var init := seq(n, j requires 0 <= j < n => Bytes(items[..n][j]));
      FlattenSnoc(init, Bytes(items[n]));
      assert all == init + [Bytes(items[n])];
    }
  }

  lemma FromTheStart(ms: seq<seq<byte>>, c: nat, d: nat)
    requires IsLog(ms) && c <= d
    ensures Last(ms, c) <= Last(ms, d) <= |ms|
    ensures WhollyInside(ms, 0, d, |ms|) == ms[..Last(ms, d)]
  {
    FirstUnique(ms, 0, 0);
    WhollyInsideAll(ms, 0, d);
    if Last(ms, d) < Last(ms, c) {
      StartMonotone(ms, Last(ms, d) + 1, Last(ms, c));
    }
  }

  /** If the first h payloads were all accepted, the messages wholly inside them are all there. */
  lemma {:induction false} AcceptedPrefixComplete(ms: seq<seq<byte>>, ps: seq<Payload>, acc: seq<nat>, h: nat)
    requires IsLog(ms) && Accepted(ps, acc) && 1 <= h <= |acc| && h <= |ps|
    requires forall j :: 0 <= j < h ==> acc[j] == j
    ensures ms[..Last(ms, Cut(ps, h))] <= Expected(ms, ps, acc)
    decreases |acc|
  {
    var n := |acc| - LastRun(acc);
    LastRunConsecutive(acc);
    if n == 0 {
      CutMonotone(ps, h, acc[|acc| - 1] + 1);
      FromTheStart(ms, Cut(ps, h), RunEnd(ps, acc));
      assert Expected(ms, ps, acc) == [] + WhollyInside(ms, 0, RunEnd(ps, acc), |ms|) by {
        assert acc[..n] == [] && Cut(ps, acc[n]) == 0;
      }
    } else {
      AcceptedPrefixComplete(ms, ps, acc[..n], h);
    }
  }

  /** The last run is consecutive, and it does not continue the one before. */
  lemma {:induction false} LastRunConsecutive(acc: seq<nat>)
    requires |acc| > 0
    ensures var n := |acc| - LastRun(acc);
      && (forall j :: n <= j < |acc| ==> acc[j] == acc[n] + (j - n))
      && (n > 0 ==> acc[n] != acc[n - 1] + 1)
  {
    var m := |acc| - 1;
    if |acc| > 1 && acc[m] == acc[m - 1] + 1 {
      LastRunConsecutive(acc[..m]);
    }
  }
}
