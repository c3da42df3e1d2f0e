/**
 The incremental MAVLink parser. `Receiver` is its state and the functions on it say what each call does, for
 any decoder of whole frames. `Scan` cuts a whole byte string into bad prefixes and frames without any state
 but the bytes left over; it is what the parser is measured against.
 */
module MavlinkParser {
  import opened Sequences
  import opened MavlinkCodec

  /** The length assumed while the length byte has not arrived. */
  const NO_LENGTH := 6

  type Decoder = seq<byte> -> Result<Received, Error>

  datatype Receiver = Receiver(
    robust: bool,
    listening: bool,
    buf: seq<byte>,
    expectedLength: nat,
    havePrefixError: bool,
    packetsReceived: nat,
    bytesReceived: nat,
    receiveErrors: nat,
    calledBack: seq<Received>)

  function Initial(robust: bool, listening: bool): Receiver {
    Receiver(robust, listening, [], NO_LENGTH, false, 0, 0, 0, [])
  }

  function BytesNeeded(st: Receiver): (r: int)
    ensures r >= 1
  {
    var ret := st.expectedLength - |st.buf|;
    if ret <= 0 then 1 else ret
  }

  function Notify(st: Receiver, m: Received): Receiver {
    if st.listening then st.(calledBack := st.calledBack + [m]) else st
  }

  /** The first byte is not the marker. */
  function OnBadPrefix(st: Receiver): (Result<Option<Received>, Error>, Receiver)
    requires |st.buf| >= 1
  {
    var popped := st.(buf := st.buf[1..]);
    if st.robust then
      var m := BadData(st.buf[..1], BadPrefix);
      (Ok(Some(m)), Notify(popped, m).(expectedLength := NO_LENGTH, receiveErrors := st.receiveErrors + 1))
    else if st.havePrefixError then (Ok(None), popped)
    else (Err(MavError(BadPrefix)), popped.(havePrefixError := true, receiveErrors := st.receiveErrors + 1))
  }

  /** A whole frame has been cut off the buffer and decoded. */
  function Settle(st: Receiver, frame: seq<byte>, decoded: Result<Received, Error>)
    : (Result<Option<Received>, Error>, Receiver)
  {
    match decoded
    case Ok(m) => (Ok(Some(m)), Notify(st.(packetsReceived := st.packetsReceived + 1), m))
    case Err(MavError(reason)) =>
      if st.robust then
        var m := BadData(frame, reason);
        (Ok(Some(m)), Notify(st.(receiveErrors := st.receiveErrors + 1), m))
      else (Err(MavError(reason)), st)
    case Err(IndexError) => (Err(IndexError), st)
  }

  /** Behind a marker the length is noted as soon as it is there. */
  function Sized(st: Receiver): Receiver {
    var clear := st.(havePrefixError := false);
    if |st.buf| >= 2 then clear.(expectedLength := st.buf[1] as int + OVERHEAD) else clear
  }

  /** A whole frame has arrived. */
  function OnFrame(decode: Decoder, st: Receiver): (Result<Option<Received>, Error>, Receiver)
    requires st.expectedLength <= |st.buf|
  {
    var n := st.expectedLength;
    Settle(st.(buf := st.buf[n..], expectedLength := NO_LENGTH), st.buf[..n], decode(st.buf[..n]))
  }

  /** `parse_char`: at most one message, or an error, for the bytes that have arrived. */
  function ParseChar(decode: Decoder, st: Receiver, c: seq<byte>): (Result<Option<Received>, Error>, Receiver) {
    var fed := st.(buf := st.buf + c, bytesReceived := st.bytesReceived + |c|);
    if |fed.buf| >= 1 && fed.buf[0] != MARKER then OnBadPrefix(fed)
    else
      var sized := Sized(fed);
      if OVERHEAD <= sized.expectedLength <= |sized.buf| then OnFrame(decode, sized) else (Ok(None), sized)
  }

  /** What holds of the parser between calls, in either mode and whatever it is fed. */
  predicate Inv(st: Receiver) {
    || st.expectedLength == NO_LENGTH
    || (|st.buf| >= 2 && st.buf[0] == MARKER && st.expectedLength == st.buf[1] as int + OVERHEAD)
  }

  lemma ParseCharKeepsInv(decode: Decoder, st: Receiver, c: seq<byte>)
    requires Inv(st)
    ensures Inv(ParseChar(decode, st, c).1)
  {
    var buf := st.buf + c;
    if |st.buf| >= 2 {
      assert buf[0] == st.buf[0] && buf[1] == st.buf[1];
    }
  }

  /** Whatever is reported or raised has left the buffer, so draining it ends. */
  lemma ParseCharConsumes(decode: Decoder, st: Receiver, c: seq<byte>)
    ensures var (r, after) := ParseChar(decode, st, c);
            && |after.buf| <= |st.buf| + |c|
            && (r.Err? || r.value.Some? ==> |after.buf| < |st.buf| + |c|)
  {
  }

  /** `parse_buffer`: drain the buffer. An error leaves the loop and loses the list collected so far. */
  function ParseBuffer(decode: Decoder, st: Receiver, s: seq<byte>): (Result<seq<Received>, Error>, Receiver)
    decreases |st.buf| + |s|
  {
    ParseCharConsumes(decode, st, s);
    var (r, after) := ParseChar(decode, st, s);
    match r
    case Err(e) => (Err(e), after)
    case Ok(None) => (Ok([]), after)
    case Ok(Some(m)) =>
      var (rest, drained) := ParseBuffer(decode, after, []);
      if rest.Ok? then (Ok([m] + rest.value), drained) else (rest, drained)
  }

  /** Messages collected so far, put in front of what is still to come. */
  function Collected(ms: seq<Received>, p: (Result<seq<Received>, Error>, Receiver))
    : (Result<seq<Received>, Error>, Receiver)
  {
    (if p.0.Ok? then Ok(ms + p.0.value) else p.0, p.1)
  }

  lemma CollectedTwice(a: seq<Received>, b: seq<Received>, p: (Result<seq<Received>, Error>, Receiver))
    ensures Collected(a, Collected(b, p)) == Collected(a + b, p)
    ensures Collected([], p) == p
  {
    if p.0.Ok? {
      ConcatAssociative(a, b, p.0.value);
      assert [] + p.0.value == p.0.value;
    }
  }

  lemma ParseBufferFirst(decode: Decoder, st: Receiver, s: seq<byte>, m: Received, next: Receiver)
    requires ParseChar(decode, st, s) == (Ok(Some(m)), next)
    ensures ParseBuffer(decode, st, s) == Collected([m], ParseBuffer(decode, next, []))
  {
  }

  /** One more turn of the draining loop. */
  lemma CollectOne(whole: (Result<seq<Received>, Error>, Receiver), ms: seq<Received>, decode: Decoder, st: Receiver,
                   s: seq<byte>, m: Received, next: Receiver)
    requires whole == Collected(ms, ParseBuffer(decode, st, s))
    requires ParseChar(decode, st, s) == (Ok(Some(m)), next)
    ensures |next.buf| < |st.buf| + |s|
    ensures whole == Collected(ms + [m], ParseBuffer(decode, next, []))
  {
    ParseCharConsumes(decode, st, s);
    ParseBufferFirst(decode, st, s, m, next);
    CollectedTwice(ms, [m], ParseBuffer(decode, next, []));
  }

  lemma CollectNone(whole: (Result<seq<Received>, Error>, Receiver), ms: seq<Received>, decode: Decoder, st: Receiver,
                    s: seq<byte>)
    requires whole == Collected(ms, ParseBuffer(decode, st, s))
    ensures var (r, next) := ParseChar(decode, st, s);
            && (r.Err? ==> whole == (Err(r.error), next))
            && (r == Ok(None) ==> whole == (Ok(ms), next))
  {
    assert ms + [] == ms;
  }

  /** How many bytes the first report about a byte string covers; none if more input is needed. */
  function Extent(bytes: seq<byte>): (n: nat)
    ensures n <= |bytes|
  {
    if bytes == [] then 0
    else if bytes[0] != MARKER then 1
    else if |bytes| < 2 || |bytes| < bytes[1] as int + OVERHEAD then 0
    else bytes[1] as int + OVERHEAD
  }

  /** The pieces of a byte string that are reported on, and the bytes left for later. */
  function Scan(bytes: seq<byte>): (r: (seq<seq<byte>>, seq<byte>))
    decreases |bytes|
  {
    var n := Extent(bytes);
    if n == 0 then ([], bytes)
    else
      var (more, rest) := Scan(bytes[n..]);
      ([bytes[..n]] + more, rest)
  }

  /** What a robust receiver says about one piece. */
  function Report(decode: Decoder, piece: seq<byte>): Received
    requires |piece| > 0
  {
    if piece[0] != MARKER then BadData(piece, BadPrefix)
    else
      match decode(piece)
      case Ok(m) => m
      case Err(MavError(reason)) => BadData(piece, reason)
      case Err(IndexError) => BadData(piece, CannotInstantiate)
  }

  predicate IsPacket(decode: Decoder, piece: seq<byte>)
    requires |piece| > 0
  {
    piece[0] == MARKER && decode(piece).Ok?
  }

  predicate NoneEmpty(pieces: seq<seq<byte>>) {
    forall p :: p in pieces ==> |p| > 0
  }

  function Reports(decode: Decoder, pieces: seq<seq<byte>>): (r: seq<Received>)
    requires NoneEmpty(pieces)
    ensures |r| == |pieces|
  {
    if pieces == [] then [] else [Report(decode, pieces[0])] + Reports(decode, pieces[1..])
  }

  function Packets(decode: Decoder, pieces: seq<seq<byte>>): (n: nat)
    requires NoneEmpty(pieces)
    ensures n <= |pieces|
  {
    if pieces == [] then 0
    else (if IsPacket(decode, pieces[0]) then 1 else 0) + Packets(decode, pieces[1..])
  }

  function LengthFor(buf: seq<byte>): nat {
    if |buf| < 2 then NO_LENGTH else buf[1] as int + OVERHEAD
  }

  /** The state of a robust receiver that was handed `count` bytes, reported on `pieces` and kept `rest`. */
  function Reported(decode: Decoder, st: Receiver, count: nat, pieces: seq<seq<byte>>, rest: seq<byte>): Receiver
    requires NoneEmpty(pieces)
  {
    Receiver(st.robust, st.listening, rest, LengthFor(rest), false,
             st.packetsReceived + Packets(decode, pieces),
             st.bytesReceived + count,
             st.receiveErrors + (|pieces| - Packets(decode, pieces)),
             if st.listening then st.calledBack + Reports(decode, pieces) else st.calledBack)
  }

  /** The state after one report: the buffer is shorter and the length byte has to be read again. */
  function ReportedOne(decode: Decoder, st: Receiver, count: nat, piece: seq<byte>, rest: seq<byte>): Receiver
    requires |piece| > 0
  {
    Receiver(st.robust, st.listening, rest, NO_LENGTH, piece[0] != MARKER && st.havePrefixError,
             st.packetsReceived + (if IsPacket(decode, piece) then 1 else 0),
             st.bytesReceived + count,
             st.receiveErrors + (if IsPacket(decode, piece) then 0 else 1),
             if st.listening then st.calledBack + [Report(decode, piece)] else st.calledBack)
  }

  /** Does the decoder answer this piece with a message or its own error? A bad prefix never reaches it. */
  predicate Answers(decode: Decoder, piece: seq<byte>) {
    |piece| > 0 && piece[0] == MARKER ==> decode(piece) != Err(IndexError)
  }

  /** No frame among these pieces makes the decoder fail with an index error. */
  predicate Clean(decode: Decoder, pieces: seq<seq<byte>>) {
    forall p :: p in pieces ==> Answers(decode, p)
  }

  lemma CleanConcat(decode: Decoder, a: seq<seq<byte>>, b: seq<seq<byte>>)
    ensures Clean(decode, a + b) <==> Clean(decode, a) && Clean(decode, b)
  {
    if Clean(decode, a + b) {
      forall p | p in a || p in b ensures Answers(decode, p) {
        assert p in a + b;
      }
    }
  }

  lemma ParseCharWaits(decode: Decoder, st: Receiver, c: seq<byte>)
    requires Inv(st) && Extent(st.buf + c) == 0
    ensures ParseChar(decode, st, c) == (Ok(None), Reported(decode, st, |c|, [], st.buf + c))
  {
    var buf := st.buf + c;
    if |st.buf| >= 2 {
      assert buf[0] == st.buf[0] && buf[1] == st.buf[1];
    }
    assert st.calledBack + [] == st.calledBack;
  }

  lemma ParseCharReports(decode: Decoder, st: Receiver, c: seq<byte>)
    requires st.robust && Extent(st.buf + c) > 0
    requires Answers(decode, (st.buf + c)[..Extent(st.buf + c)])
    ensures var buf := st.buf + c;
            var piece := buf[..Extent(buf)];
            ParseChar(decode, st, c) ==
            (Ok(Some(Report(decode, piece))), ReportedOne(decode, st, |c|, piece, buf[Extent(buf)..]))
  {
    var buf := st.buf + c;
    assert buf[..Extent(buf)][0] == buf[0];
  }

  lemma ParseCharCrashes(decode: Decoder, st: Receiver, c: seq<byte>)
    requires Extent(st.buf + c) > 0 && !Answers(decode, (st.buf + c)[..Extent(st.buf + c)])
    ensures ParseChar(decode, st, c).0 == Err(IndexError)
    ensures ParseBuffer(decode, st, c).0 == Err(IndexError)
  {
    var buf := st.buf + c;
    assert buf[..Extent(buf)][0] == buf[0];
  }

  lemma NoneEmptyCons(piece: seq<byte>, more: seq<seq<byte>>)
    requires |piece| > 0 && NoneEmpty(more)
    ensures NoneEmpty([piece] + more)
  {
  }

  /** Scanning stops only when more input is needed, and every piece has an extent. */
  lemma {:induction false} ScanPieces(bytes: seq<byte>)
    ensures NoneEmpty(Scan(bytes).0)
    ensures Extent(Scan(bytes).1) == 0
    decreases |bytes|
  {
    var n := Extent(bytes);
    if n == 0 {
    } else {
      ScanPieces(bytes[n..]);
      NoneEmptyCons(bytes[..n], Scan(bytes[n..]).0);
    }
  }

  lemma CutAtFront(bytes: seq<byte>, n: nat, more: seq<seq<byte>>, rest: seq<byte>)
    requires n <= |bytes| && Flatten(more) + rest == bytes[n..]
    ensures Flatten([bytes[..n]] + more) + rest == bytes
  {
  }

  /** Nothing is lost, invented or moved by the cutting. */
  lemma {:induction false} ScanConserves(bytes: seq<byte>)
    ensures Flatten(Scan(bytes).0) + Scan(bytes).1 == bytes
    decreases |bytes|
  {
    var n := Extent(bytes);
    if n == 0 {
      assert Flatten<byte>([]) + bytes == bytes;
    } else {
      ScanConserves(bytes[n..]);
      CutAtFront(bytes, n, Scan(bytes[n..]).0, Scan(bytes[n..]).1);
    }
  }

  lemma ReportedCons(decode: Decoder, st: Receiver, count: nat, piece: seq<byte>, rest: seq<byte>,
                     more: seq<seq<byte>>, last: seq<byte>)
    requires |piece| > 0 && NoneEmpty(more)
    ensures NoneEmpty([piece] + more)
    ensures Reported(decode, ReportedOne(decode, st, count, piece, rest), 0, more, last)
         == Reported(decode, st, count, [piece] + more, last)
  {
    assert ([piece] + more)[1..] == more;
    assert st.calledBack + [Report(decode, piece)] + Reports(decode, more)
        == st.calledBack + ([Report(decode, piece)] + Reports(decode, more));
  }

  /** One report in front of a drained rest. */
  lemma ParseBufferCons(decode: Decoder, st: Receiver, s: seq<byte>, piece: seq<byte>, rest: seq<byte>,
                        more: seq<seq<byte>>, last: seq<byte>)
    requires |piece| > 0 && NoneEmpty(more)
    requires ParseChar(decode, st, s) == (Ok(Some(Report(decode, piece))), ReportedOne(decode, st, |s|, piece, rest))
    requires var after := ReportedOne(decode, st, |s|, piece, rest);
             ParseBuffer(decode, after, []) == (Ok(Reports(decode, more)), Reported(decode, after, 0, more, last))
    ensures NoneEmpty([piece] + more)
    ensures ParseBuffer(decode, st, s)
         == (Ok(Reports(decode, [piece] + more)), Reported(decode, st, |s|, [piece] + more, last))
  {
    ReportedCons(decode, st, |s|, piece, rest, more, last);
    assert ([piece] + more)[1..] == more;
  }

  /** The draining loop is the scan: same reports, same bytes left, and the counters that go with them. */
  lemma {:induction false} ParseBufferIsScan(decode: Decoder, st: Receiver, s: seq<byte>)
    requires st.robust && Inv(st) && Clean(decode, Scan(st.buf + s).0)
    ensures var (pieces, rest) := Scan(st.buf + s);
            && NoneEmpty(pieces)
            && ParseBuffer(decode, st, s)
               == (Ok(Reports(decode, pieces)), Reported(decode, st, |s|, pieces, rest))
    decreases |st.buf| + |s|
  {
    var buf := st.buf + s;
    var n := Extent(buf);
    if n == 0 {
      ParseCharWaits(decode, st, s);
    } else {
      var piece := buf[..n];
      var (more, rest) := Scan(buf[n..]);
      CleanConcat(decode, [piece], more);
      assert piece in [piece] && buf[n..] + [] == buf[n..];
      ParseCharReports(decode, st, s);
      ParseBufferIsScan(decode, ReportedOne(decode, st, |s|, piece, buf[n..]), []);
      ParseBufferCons(decode, st, s, piece, buf[n..], more, rest);
    }
  }

  /** From every reachable state, robust mode answers an input with messages exactly if the input is clean. */
  lemma {:induction false} AnswersIffClean(decode: Decoder, st: Receiver, s: seq<byte>)
    requires st.robust && Inv(st)
    ensures ParseBuffer(decode, st, s).0.Ok? <==> Clean(decode, Scan(st.buf + s).0)
    decreases |st.buf| + |s|
  {
    var buf := st.buf + s;
    var n := Extent(buf);
    if n == 0 {
      ParseCharWaits(decode, st, s);
    } else {
      var piece, more := buf[..n], Scan(buf[n..]).0;
      CleanConcat(decode, [piece], more);
      assert piece in [piece] && buf[n..] + [] == buf[n..];
      if Answers(decode, piece) {
        ParseCharReports(decode, st, s);
        AnswersIffClean(decode, ReportedOne(decode, st, |s|, piece, buf[n..]), []);
      } else {
        ParseCharCrashes(decode, st, s);
      }
    }
  }

  lemma ExtentExtends(a: seq<byte>, b: seq<byte>)
    requires Extent(a) > 0
    ensures Extent(a + b) == Extent(a)
  {
  }

  /** Scanning can stop anywhere and go on later from the bytes left over. */
  lemma {:induction false} ScanResumes(a: seq<byte>, b: seq<byte>)
    ensures var (pieces, rest) := Scan(a);
            var (more, last) := Scan(rest + b);
            Scan(a + b) == (pieces + more, last)
    decreases |a|
  {
    var n := Extent(a);
    if n == 0 {
      var (more, last) := Scan(a + b);
      assert [] + more == more;
    } else {
      ExtentExtends(a, b);
      assert (a + b)[n..] == a[n..] + b;
      assert (a + b)[..n] == a[..n];
      ScanResumes(a[n..], b);
      var (pieces, rest) := Scan(a[n..]);
      ConcatAssociative([a[..n]], pieces, Scan(rest + b).0);
    }
  }

  lemma {:induction false} ReportsConcat(decode: Decoder, a: seq<seq<byte>>, b: seq<seq<byte>>)
    requires NoneEmpty(a) && NoneEmpty(b)
    ensures NoneEmpty(a + b)
    ensures Reports(decode, a + b) == Reports(decode, a) + Reports(decode, b)
    ensures Packets(decode, a + b) == Packets(decode, a) + Packets(decode, b)
    decreases |a|
  {
    if a == [] {
      assert a + b == b;
    } else {
      assert (a + b)[1..] == a[1..] + b;
      ReportsConcat(decode, a[1..], b);
    }
  }

  lemma ReportedTwice(decode: Decoder, st: Receiver, n1: nat, pieces: seq<seq<byte>>, rest: seq<byte>,
                      n2: nat, more: seq<seq<byte>>, last: seq<byte>)
    requires NoneEmpty(pieces) && NoneEmpty(more)
    ensures NoneEmpty(pieces + more)
    ensures Reported(decode, Reported(decode, st, n1, pieces, rest), n2, more, last)
         == Reported(decode, st, n1 + n2, pieces + more, last)
  {
    ReportsConcat(decode, pieces, more);
    ConcatAssociative(st.calledBack, Reports(decode, pieces), Reports(decode, more));
  }

  /** What draining a robust receiver comes to: the reports on the scan of all bytes at hand. */
  function Drain(decode: Decoder, st: Receiver, s: seq<byte>): (Result<seq<Received>, Error>, Receiver) {
    ScanPieces(st.buf + s);
    var (pieces, rest) := Scan(st.buf + s);
    (Ok(Reports(decode, pieces)), Reported(decode, st, |s|, pieces, rest))
  }

  lemma DrainKeepsInv(decode: Decoder, st: Receiver, s: seq<byte>)
    ensures Inv(Drain(decode, st, s).1) && Drain(decode, st, s).1.robust == st.robust
  {
    ScanPieces(st.buf + s);
  }

  lemma DrainTwice(decode: Decoder, st: Receiver, s1: seq<byte>, s2: seq<byte>)
    ensures var (r1, st1) := Drain(decode, st, s1);
            var (r2, st2) := Drain(decode, st1, s2);
            && r1.Ok? && r2.Ok?
            && Drain(decode, st, s1 + s2) == (Ok(r1.value + r2.value), st2)
  {
    ScanPieces(st.buf + s1);
    var (pieces, rest) := Scan(st.buf + s1);
    ScanPieces(rest + s2);
    var (more, last) := Scan(rest + s2);
    ConcatAssociative(st.buf, s1, s2);
    ScanResumes(st.buf + s1, s2);
    ReportedTwice(decode, st, |s1|, pieces, rest, |s2|, more, last);
    ReportsConcat(decode, pieces, more);
  }

  lemma ParseBufferIsDrain(decode: Decoder, st: Receiver, s: seq<byte>)
    requires st.robust && Inv(st) && Clean(decode, Scan(st.buf + s).0)
    ensures ParseBuffer(decode, st, s) == Drain(decode, st, s)
  {
    ParseBufferIsScan(decode, st, s);
  }

  /** A clean input is clean however it is cut. */
  lemma CleanInParts(decode: Decoder, buf: seq<byte>, s1: seq<byte>, s2: seq<byte>)
    ensures Clean(decode, Scan(buf + (s1 + s2)).0)
       <==> Clean(decode, Scan(buf + s1).0) && Clean(decode, Scan(Scan(buf + s1).1 + s2).0)
  {
    ConcatAssociative(buf, s1, s2);
    ScanResumes(buf + s1, s2);
    CleanConcat(decode, Scan(buf + s1).0, Scan(Scan(buf + s1).1 + s2).0);
  }

  /**
   Where a clean input is cut does not matter: from any reachable state of a robust receiver, two calls and one
   give the same messages and leave the same state, counters and callbacks included.
   */
  lemma ChunkIndependence(decode: Decoder, st: Receiver, s1: seq<byte>, s2: seq<byte>)
    requires st.robust && Inv(st) && Clean(decode, Scan(st.buf + (s1 + s2)).0)
    ensures var (r1, st1) := ParseBuffer(decode, st, s1);
            var (r2, st2) := ParseBuffer(decode, st1, s2);
            && r1.Ok? && r2.Ok?
            && ParseBuffer(decode, st, s1 + s2) == (Ok(r1.value + r2.value), st2)
  {
    CleanInParts(decode, st.buf, s1, s2);
    ParseBufferIsDrain(decode, st, s1);
    var st1 := Drain(decode, st, s1).1;
    DrainKeepsInv(decode, st, s1);
    ParseBufferIsDrain(decode, st1, s2);
    ParseBufferIsDrain(decode, st, s1 + s2);
    DrainTwice(decode, st, s1, s2);
  }
}
