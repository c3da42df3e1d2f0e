/**
 Whole runs of the MAVLink parser: conservation, reads of just the bytes needed, any number of chunks, and the
 round trip from a sender through a line that adds junk between frames.
 */
module MavlinkRuns {
  import opened Sequences
  import opened MavlinkCodec
  import opened MavlinkParser

  // ---------- Conservation ----------

  datatype Call = Char(bytes: seq<byte>) | Buffer(bytes: seq<byte>)

  /** One call of either kind; an error reports nothing. */
  function Perform(decode: Decoder, st: Receiver, call: Call): (seq<Received>, Receiver) {
    match call
    case Char(bytes) =>
      var (r, after) := ParseChar(decode, st, bytes);
      (if r.Ok? && r.value.Some? then [r.value.value] else [], after)
    case Buffer(bytes) =>
      var (r, after) := ParseBuffer(decode, st, bytes);
      (if r.Ok? then r.value else [], after)
  }

  function Run(decode: Decoder, st: Receiver, calls: seq<Call>): (seq<Received>, Receiver)
    decreases |calls|
  {
    if calls == [] then ([], st)
    else
      var (ms, next) := Perform(decode, st, calls[0]);
      var (more, last) := Run(decode, next, calls[1..]);
      (ms + more, last)
  }

  function Inputs(calls: seq<Call>): seq<byte> {
    if calls == [] then [] else calls[0].bytes + Inputs(calls[1..])
  }

  function RawBytes(ms: seq<Received>): seq<byte> {
    if ms == [] then [] else ms[0].Raw() + RawBytes(ms[1..])
  }

  lemma {:induction false} RawBytesConcat(a: seq<Received>, b: seq<Received>)
    ensures RawBytes(a + b) == RawBytes(a) + RawBytes(b)
  {
    if a == [] {
      assert a + b == b;
    } else {
      assert (a + b)[1..] == a[1..] + b;
      RawBytesConcat(a[1..], b);
      ConcatAssociative(a[0].Raw(), RawBytes(a[1..]), RawBytes(b));
    }
  }

  /** Every byte handed in is in the raw buffer of a reported message or still buffered, in order. */
  predicate Accounts(st: Receiver, input: seq<byte>, ms: seq<Received>, after: Receiver) {
    && RawBytes(ms) + after.buf == st.buf + input
    && after.packetsReceived + after.receiveErrors == st.packetsReceived + st.receiveErrors + |ms|
    && after.bytesReceived == st.bytesReceived + |input|
    && after.calledBack == (if st.listening then st.calledBack + ms else st.calledBack)
    && after.robust == st.robust && after.listening == st.listening
    && Inv(after)
  }

  lemma AccountsTransitive(a: Receiver, i1: seq<byte>, m1: seq<Received>, b: Receiver,
                           i2: seq<byte>, m2: seq<Received>, c: Receiver)
    requires Accounts(a, i1, m1, b) && Accounts(b, i2, m2, c)
    ensures Accounts(a, i1 + i2, m1 + m2, c)
  {
    RawBytesConcat(m1, m2);
    ConcatAssociative(RawBytes(m1), RawBytes(m2), c.buf);
    ConcatAssociative(RawBytes(m1), b.buf, i2);
    ConcatAssociative(a.buf, i1, i2);
    ConcatAssociative(a.calledBack, m1, m2);
  }

  /** A decoder that keeps, with each message, the frame it came from. */
  ghost predicate KeepsFrame(decode: Decoder) {
    forall frame :: decode(frame).Ok? ==> decode(frame).value.Raw() == frame
  }

  lemma {:induction false} ReportsKeepBytes(decode: Decoder, pieces: seq<seq<byte>>)
    requires KeepsFrame(decode) && NoneEmpty(pieces)
    ensures RawBytes(Reports(decode, pieces)) == Flatten(pieces)
  {
    if pieces == [] {
    } else {
      ReportsKeepBytes(decode, pieces[1..]);
      assert Reports(decode, pieces)[1..] == Reports(decode, pieces[1..]);
    }
  }

  lemma WaitAccounts(decode: Decoder, st: Receiver, c: seq<byte>)
    requires Inv(st) && Extent(st.buf + c) == 0
    ensures Accounts(st, c, [], Reported(decode, st, |c|, [], st.buf + c))
  {
    assert RawBytes([]) + (st.buf + c) == st.buf + c;
    assert st.calledBack + [] == st.calledBack;
  }

  lemma ReportAccounts(decode: Decoder, st: Receiver, c: seq<byte>, n: nat)
    requires 0 < n <= |st.buf + c| && KeepsFrame(decode)
    ensures var buf := st.buf + c;
            var m := Report(decode, buf[..n]);
            Accounts(st, c, [m], ReportedOne(decode, st, |c|, buf[..n], buf[n..]))
  {
  }

  /** After one call, what is still to be scanned is the rest of what was. */
  predicate Proceeds(decode: Decoder, before: seq<byte>, after: seq<byte>, later: seq<byte>) {
    Clean(decode, Scan(before + later).0) ==> Clean(decode, Scan(after + later).0)
  }

  lemma CharProceeds(decode: Decoder, buf: seq<byte>, later: seq<byte>)
    requires Extent(buf) > 0
    ensures Clean(decode, Scan(buf + later).0) ==> Answers(decode, buf[..Extent(buf)])
    ensures Proceeds(decode, buf, buf[Extent(buf)..], later)
  {
    var n := Extent(buf);
    ExtentExtends(buf, later);
    assert (buf + later)[..n] == buf[..n] && (buf + later)[n..] == buf[n..] + later;
    CleanConcat(decode, [buf[..n]], Scan(buf[n..] + later).0);
    assert buf[..n] in [buf[..n]];
  }

  lemma CharAccounts(decode: Decoder, st: Receiver, c: seq<byte>, later: seq<byte>)
    requires st.robust && Inv(st) && KeepsFrame(decode) && Clean(decode, Scan(st.buf + c + later).0)
    ensures var (ms, after) := Perform(decode, st, Char(c));
            Accounts(st, c, ms, after) && Clean(decode, Scan(after.buf + later).0)
  {
    if Extent(st.buf + c) == 0 {
      ParseCharWaits(decode, st, c);
      WaitAccounts(decode, st, c);
    } else {
      CharProceeds(decode, st.buf + c, later);
      ParseCharReports(decode, st, c);
      ReportAccounts(decode, st, c, Extent(st.buf + c));
    }
  }

  lemma ReportedAccounts(decode: Decoder, st: Receiver, s: seq<byte>, pieces: seq<seq<byte>>, rest: seq<byte>)
    requires KeepsFrame(decode) && NoneEmpty(pieces) && Extent(rest) == 0 && Flatten(pieces) + rest == st.buf + s
    ensures Accounts(st, s, Reports(decode, pieces), Reported(decode, st, |s|, pieces, rest))
  {
    ReportsKeepBytes(decode, pieces);
  }

  lemma BufferAccounts(decode: Decoder, st: Receiver, s: seq<byte>, later: seq<byte>)
    requires st.robust && Inv(st) && KeepsFrame(decode) && Clean(decode, Scan(st.buf + s + later).0)
    ensures var (ms, after) := Perform(decode, st, Buffer(s));
            Accounts(st, s, ms, after) && Clean(decode, Scan(after.buf + later).0)
  {
    var (pieces, rest) := Scan(st.buf + s);
    ScanResumes(st.buf + s, later);
    CleanConcat(decode, pieces, Scan(rest + later).0);
    ParseBufferIsScan(decode, st, s);
    ScanPieces(st.buf + s);
    ScanConserves(st.buf + s);
    ReportedAccounts(decode, st, s, pieces, rest);
  }

  /** Conservation, over every run of calls of either kind on a clean input. */
  lemma {:induction false} Conservation(decode: Decoder, st: Receiver, calls: seq<Call>)
    requires st.robust && Inv(st) && KeepsFrame(decode) && Clean(decode, Scan(st.buf + Inputs(calls)).0)
    ensures var (ms, after) := Run(decode, st, calls); Accounts(st, Inputs(calls), ms, after)
    decreases |calls|
  {
    if calls == [] {
      assert RawBytes([]) + st.buf == st.buf + [];
      assert st.calledBack + [] == st.calledBack;
    } else {
      var call, later := calls[0], Inputs(calls[1..]);
      var (ms, next) := Perform(decode, st, call);
      ConcatAssociative(st.buf, call.bytes, later);
      if call.Char? {
        CharAccounts(decode, st, call.bytes, later);
      } else {
        BufferAccounts(decode, st, call.bytes, later);
      }
      Conservation(decode, next, calls[1..]);
      var (more, last) := Run(decode, next, calls[1..]);
      AccountsTransitive(st, call.bytes, ms, next, later, more, last);
    }
  }

  /** No byte is invented, and none is lost only if all are accounted for. */
  predicate Bounded(st: Receiver, input: seq<byte>, ms: seq<Received>, after: Receiver) {
    && |RawBytes(ms)| + |after.buf| <= |st.buf| + |input|
    && (|RawBytes(ms)| + |after.buf| == |st.buf| + |input| ==> Accounts(st, input, ms, after))
    && after.robust == st.robust && Inv(after)
  }

  lemma BoundedTransitive(a: Receiver, i1: seq<byte>, m1: seq<Received>, b: Receiver,
                          i2: seq<byte>, m2: seq<Received>, c: Receiver)
    requires Bounded(a, i1, m1, b) && Bounded(b, i2, m2, c)
    ensures Bounded(a, i1 + i2, m1 + m2, c)
  {
    RawBytesConcat(m1, m2);
    if |RawBytes(m1)| + |b.buf| == |a.buf| + |i1| && |RawBytes(m2)| + |c.buf| == |b.buf| + |i2| {
      AccountsTransitive(a, i1, m1, b, i2, m2, c);
    }
  }

  /** A call that raises has taken bytes off the buffer, and leaves the parser as fit as before. */
  lemma {:induction false} ErrorsLose(decode: Decoder, st: Receiver, s: seq<byte>)
    requires Inv(st)
    ensures var (r, after) := ParseBuffer(decode, st, s);
            after.robust == st.robust && Inv(after) && (r.Err? ==> |after.buf| < |st.buf| + |s|)
    decreases |st.buf| + |s|
  {
    var (r, after) := ParseChar(decode, st, s);
    ParseCharKeepsInv(decode, st, s);
    ParseCharConsumes(decode, st, s);
    if r.Ok? && r.value.Some? {
      ErrorsLose(decode, after, []);
    }
  }

  lemma CharBounded(decode: Decoder, st: Receiver, c: seq<byte>)
    requires st.robust && Inv(st) && KeepsFrame(decode)
    ensures var (ms, after) := Perform(decode, st, Char(c)); Bounded(st, c, ms, after)
  {
    ParseCharKeepsInv(decode, st, c);
    ParseCharConsumes(decode, st, c);
    var n := Extent(st.buf + c);
    if n == 0 {
      ParseCharWaits(decode, st, c);
      WaitAccounts(decode, st, c);
    } else if Answers(decode, (st.buf + c)[..n]) {
      ParseCharReports(decode, st, c);
      ReportAccounts(decode, st, c, n);
    } else {
      ParseCharCrashes(decode, st, c);
    }
  }

  lemma BufferBounded(decode: Decoder, st: Receiver, s: seq<byte>)
    requires st.robust && Inv(st) && KeepsFrame(decode)
    ensures var (ms, after) := Perform(decode, st, Buffer(s)); Bounded(st, s, ms, after)
  {
    AnswersIffClean(decode, st, s);
    ErrorsLose(decode, st, s);
    if Clean(decode, Scan(st.buf + s).0) {
      assert st.buf + s + [] == st.buf + s;
      BufferAccounts(decode, st, s, []);
    }
  }

  /**
   On every input, clean or not: over every run of calls what is reported and what is buffered is never more than
   came in, and a call that raises an index error loses bytes; if none is missing, all are accounted for.
   */
  lemma {:induction false} NothingInvented(decode: Decoder, st: Receiver, calls: seq<Call>)
    requires st.robust && Inv(st) && KeepsFrame(decode)
    ensures var (ms, after) := Run(decode, st, calls); Bounded(st, Inputs(calls), ms, after)
    decreases |calls|
  {
    if calls == [] {
      assert RawBytes([]) + st.buf == st.buf + [];
      assert st.calledBack + [] == st.calledBack;
    } else {
      var call := calls[0];
      var (ms, next) := Perform(decode, st, call);
      if call.Char? {
        CharBounded(decode, st, call.bytes);
      } else {
        BufferBounded(decode, st, call.bytes);
      }
      NothingInvented(decode, next, calls[1..]);
      var (more, last) := Run(decode, next, calls[1..]);
      BoundedTransitive(st, call.bytes, ms, next, Inputs(calls[1..]), more, last);
    }
  }

  // ---------- Reading just the bytes needed ----------

  /** The buffer is shorter than the length being waited for. */
  predicate Tight(st: Receiver) {
    Inv(st) && |st.buf| < st.expectedLength
  }

  /** Every read returns at least one byte and no more than `bytes_needed` asked for. */
  predicate Disciplined(decode: Decoder, st: Receiver, chunks: seq<seq<byte>>)
    decreases |chunks|
  {
    chunks == [] ||
    (&& 1 <= |chunks[0]| <= BytesNeeded(st)
     && Disciplined(decode, ParseChar(decode, st, chunks[0]).1, chunks[1..]))
  }

  function After(decode: Decoder, st: Receiver, chunks: seq<seq<byte>>): Receiver
    decreases |chunks|
  {
    if chunks == [] then st else After(decode, ParseChar(decode, st, chunks[0]).1, chunks[1..])
  }

  /**
   One read, in either mode: never more than one frame is at hand, and when a whole one is, it is all there is,
   whether it is reported, rejected or raised on.
   */
  lemma NoOverRead(decode: Decoder, st: Receiver, c: seq<byte>)
    requires Tight(st) && 1 <= |c| <= BytesNeeded(st)
    ensures var (r, after) := ParseChar(decode, st, c);
            && Tight(after)
            && (Extent(st.buf + c) >= OVERHEAD ==>
                  && Extent(st.buf + c) == |st.buf + c|
                  && after.buf == []
                  && (r.Err? || r.value.Some?))
  {
    var buf := st.buf + c;
    ParseCharKeepsInv(decode, st, c);
    if |st.buf| >= 2 {
      assert buf[0] == st.buf[0] && buf[1] == st.buf[1];
    }
    assert buf[0] == if |st.buf| > 0 then st.buf[0] else c[0];
  }

  /** Over a whole run of such reads the buffer never holds more than the frame being waited for. */
  lemma {:induction false} NeverOverReads(decode: Decoder, st: Receiver, chunks: seq<seq<byte>>)
    requires Tight(st) && Disciplined(decode, st, chunks)
    ensures Tight(After(decode, st, chunks))
    decreases |chunks|
  {
    if chunks == [] {
    } else {
      NoOverRead(decode, st, chunks[0]);
      NeverOverReads(decode, ParseChar(decode, st, chunks[0]).1, chunks[1..]);
    }
  }

  // ---------- Any number of chunks ----------

  /** A run of calls to `parse_buffer`; an error ends it. */
  function Feed(decode: Decoder, st: Receiver, chunks: seq<seq<byte>>): (Result<seq<Received>, Error>, Receiver)
    decreases |chunks|
  {
    if chunks == [] then (Ok([]), st)
    else
      var (r, next) := ParseBuffer(decode, st, chunks[0]);
      if r.Err? then (r, next)
      else
        var (more, last) := Feed(decode, next, chunks[1..]);
        (if more.Ok? then Ok(r.value + more.value) else more, last)
  }

  /** Nothing can be reported without more input, and the length byte has been looked at. */
  predicate Drained(st: Receiver) {
    Extent(st.buf) == 0 && !st.havePrefixError && st.expectedLength == LengthFor(st.buf)
  }

  lemma DrainNothing(decode: Decoder, st: Receiver)
    requires Drained(st)
    ensures Drain(decode, st, []) == (Ok([]), st)
  {
    assert st.buf + [] == st.buf;
    assert st.calledBack + [] == st.calledBack;
  }

  lemma DrainDrains(decode: Decoder, st: Receiver, s: seq<byte>)
    ensures Drained(Drain(decode, st, s).1)
  {
    ScanPieces(st.buf + s);
  }

  /** Fed a clean input in any chunks, a drained robust receiver ends as if it had been fed everything at once. */
  lemma {:induction false} FeedIsDrain(decode: Decoder, st: Receiver, chunks: seq<seq<byte>>)
    requires st.robust && Drained(st) && Clean(decode, Scan(st.buf + Flatten(chunks)).0)
    ensures Feed(decode, st, chunks) == Drain(decode, st, Flatten(chunks))
    decreases |chunks|
  {
    if chunks == [] {
      DrainNothing(decode, st);
    } else {
      CleanInParts(decode, st.buf, chunks[0], Flatten(chunks[1..]));
      ParseBufferIsDrain(decode, st, chunks[0]);
      DrainDrains(decode, st, chunks[0]);
      DrainKeepsInv(decode, st, chunks[0]);
      FeedIsDrain(decode, Drain(decode, st, chunks[0]).1, chunks[1..]);
      DrainTwice(decode, st, chunks[0], Flatten(chunks[1..]));
    }
  }

  // ---------- Round trip ----------

  const SEQUENCE_MODULUS := 255

  datatype Sender = Sender(
    sequence: byte,
    srcSystem: byte,
    srcComponent: byte,
    file: seq<byte>,
    packetsSent: nat,
    bytesSent: nat)

  function FreshSender(srcSystem: byte, srcComponent: byte): Sender {
    Sender(0, srcSystem, srcComponent, [], 0, 0)
  }

  function Send(d: Dialect, s: Sender, m: Outgoing): Sender
    requires Sendable(d, m)
  {
    var frame := Pack(d, m, s.sequence, s.srcSystem, s.srcComponent);
    s.(file := s.file + frame,
       sequence := (s.sequence + 1) % SEQUENCE_MODULUS,
       packetsSent := s.packetsSent + 1,
       bytesSent := s.bytesSent + |frame|)
  }

  predicate AllSendable(d: Dialect, ms: seq<Outgoing>) {
    forall m :: m in ms ==> Sendable(d, m)
  }

  function SendAll(d: Dialect, s: Sender, ms: seq<Outgoing>): Sender
    requires AllSendable(d, ms)
    decreases |ms|
  {
    if ms == [] then s else SendAll(d, Send(d, s, ms[0]), ms[1..])
  }

  /** The frame of the `k`-th message a sender sends. */
  function Frame(d: Dialect, srcSystem: byte, srcComponent: byte, k: nat, m: Outgoing): (r: seq<byte>)
    requires Sendable(d, m)
  {
    Pack(d, m, k % SEQUENCE_MODULUS, srcSystem, srcComponent)
  }

  function Frames(d: Dialect, srcSystem: byte, srcComponent: byte, k: nat, ms: seq<Outgoing>)
    : (r: seq<seq<byte>>)
    requires AllSendable(d, ms)
    ensures |r| == |ms|
    decreases |ms|
  {
    if ms == [] then []
    else [Frame(d, srcSystem, srcComponent, k, ms[0])] + Frames(d, srcSystem, srcComponent, k + 1, ms[1..])
  }

  /** One message: its frame is written, and the sender has gone on to the next number. */
  lemma OneSent(d: Dialect, s: Sender, k: nat, m: Outgoing) returns (next: Sender, frame: seq<byte>)
    requires Sendable(d, m) && s.sequence == k % SEQUENCE_MODULUS
    ensures next == Send(d, s, m) && frame == Frame(d, s.srcSystem, s.srcComponent, k, m)
    ensures next.file == s.file + frame && next.sequence == (k + 1) % SEQUENCE_MODULUS
    ensures next.packetsSent == s.packetsSent + 1 && next.bytesSent == s.bytesSent + |frame|
    ensures next.srcSystem == s.srcSystem && next.srcComponent == s.srcComponent
  {
    next, frame := Send(d, s, m), Frame(d, s.srcSystem, s.srcComponent, k, m);
  }

  /** What a sender has written after any list of messages, and what it has counted. */
  lemma {:induction false} SenderWritesFrames(d: Dialect, s: Sender, k: nat, ms: seq<Outgoing>)
    requires AllSendable(d, ms) && s.sequence == k % SEQUENCE_MODULUS
    ensures var after := SendAll(d, s, ms);
            && after.file == s.file + Flatten(Frames(d, s.srcSystem, s.srcComponent, k, ms))
            && after.sequence == (k + |ms|) % SEQUENCE_MODULUS
            && after.packetsSent == s.packetsSent + |ms|
            && after.bytesSent - s.bytesSent == |after.file| - |s.file|
    decreases |ms|
  {
    if ms == [] {
      assert s.file + [] == s.file;
    } else {
      var next, frame := OneSent(d, s, k, ms[0]);
      SenderWritesFrames(d, next, k + 1, ms[1..]);
      var more := Frames(d, s.srcSystem, s.srcComponent, k + 1, ms[1..]);
      assert ([frame] + more)[1..] == more;
      ConcatAssociative(s.file, frame, Flatten(more));
    }
  }

  predicate NoMarker(junk: seq<byte>) {
    forall i :: 0 <= i < |junk| ==> junk[i] != MARKER
  }

  function Singles(junk: seq<byte>): (r: seq<seq<byte>>)
    ensures |r| == |junk|
    ensures NoneEmpty(r)
  {
    if junk == [] then [] else [junk[..1]] + Singles(junk[1..])
  }

  /** A marker-free stretch is cut into single bytes, whatever comes after it. */
  lemma {:induction false} ScanJunk(junk: seq<byte>, tail: seq<byte>)
    requires NoMarker(junk)
    ensures Scan(junk + tail) == (Singles(junk) + Scan(tail).0, Scan(tail).1)
    decreases |junk|
  {
    if junk == [] {
      assert junk + tail == tail;
      assert Singles(junk) + Scan(tail).0 == Scan(tail).0;
    } else {
      var bytes := junk + tail;
      assert bytes[0] == junk[0];
      assert bytes[1..] == junk[1..] + tail;
      assert bytes[..1] == junk[..1];
      ScanJunk(junk[1..], tail);
      ConcatAssociative([junk[..1]], Singles(junk[1..]), Scan(tail).0);
    }
  }

  /** A byte string that is exactly one frame, as far as its first two bytes tell. */
  predicate IsFrame(frame: seq<byte>) {
    |frame| >= OVERHEAD && frame[0] == MARKER && frame[1] as int + OVERHEAD == |frame|
  }

  lemma ScanFrame(frame: seq<byte>, tail: seq<byte>)
    requires IsFrame(frame)
    ensures Scan(frame + tail) == ([frame] + Scan(tail).0, Scan(tail).1)
  {
  }

  /** The longest frame, and the most that can be pending of one. */
  const LONGEST := 255 + OVERHEAD
  const RESYNC := LONGEST - 1

  /** What is pending is the beginning of a frame that is not all there. */
  lemma {:induction false} ScanLeavesPart(bytes: seq<byte>)
    ensures Extent(Scan(bytes).1) == 0
    decreases |bytes|
  {
    var n := Extent(bytes);
    if n > 0 {
      ScanLeavesPart(bytes[n..]);
    }
  }

  /** Marker-free bytes, as many as a frame can still be waiting for, end it. */
  lemma GapEndsFrame(part: seq<byte>, gap: seq<byte>)
    requires Extent(part) == 0 && NoMarker(gap) && |gap| >= RESYNC
    ensures Scan(part + gap).1 == []
  {
    if part == [] {
      assert part + gap == gap == gap + [];
      ScanJunk(gap, []);
    } else {
      var bytes := part + gap;
      assert bytes[0] == part[0] == MARKER;
      assert |part| >= 2 ==> bytes[1] == part[1];
      var n := Extent(bytes);
      assert |part| <= n && bytes[n..] == gap[n - |part|..];
      var left := gap[n - |part|..];
      assert left + [] == left;
      ScanJunk(left, []);
    }
  }

  /**
   Resynchronisation: whatever came before, markers included, behind as many marker-free bytes as a frame can be
   long less one the scanner finds the next frame and goes on behind it.
   */
  lemma ScanResynchronises(prefix: seq<byte>, gap: seq<byte>, frame: seq<byte>, tail: seq<byte>)
    requires NoMarker(gap) && |gap| >= RESYNC && IsFrame(frame)
    ensures Scan(prefix + gap).1 == []
    ensures Scan(prefix + gap + (frame + tail)) == (Scan(prefix + gap).0 + ([frame] + Scan(tail).0), Scan(tail).1)
  {
    ScanLeavesPart(prefix);
    GapEndsFrame(Scan(prefix).1, gap);
    ScanResumes(prefix, gap);
    ScanResumes(prefix + gap, frame + tail);
    assert [] + (frame + tail) == frame + tail;
    ScanFrame(frame, tail);
  }

  /** One byte less is not enough: a marker and a length of 255 swallow the first byte of the frame. */
  lemma ShorterGapSwallows(frame: seq<byte>, tail: seq<byte>)
    requires IsFrame(frame)
    ensures var gap := Repeat(255, RESYNC - 1);
            && NoMarker(gap)
            && Scan([MARKER] + gap + (frame + tail))
               == ([[MARKER] + gap + frame[..1]] + Scan(frame[1..] + tail).0, Scan(frame[1..] + tail).1)
  {
    var gap := Repeat(255, RESYNC - 1);
    var bytes := [MARKER] + gap + (frame + tail);
    assert bytes[0] == MARKER && bytes[1] == 255 && Extent(bytes) == LONGEST;
    assert bytes[..LONGEST] == [MARKER] + gap + frame[..1];
    assert bytes[LONGEST..] == frame[1..] + tail;
  }

  function Pieces(junk: seq<seq<byte>>, frames: seq<seq<byte>>): (r: seq<seq<byte>>)
    requires |junk| == |frames|
  {
    if frames == [] then [] else Singles(junk[0]) + ([frames[0]] + Pieces(junk[1..], frames[1..]))
  }

  predicate LineJunk(junk: seq<seq<byte>>) {
    forall i :: 0 <= i < |junk| ==> NoMarker(junk[i])
  }

  predicate AllFrames(frames: seq<seq<byte>>) {
    forall i :: 0 <= i < |frames| ==> IsFrame(frames[i])
  }

  /** The scanner finds back exactly the frames and the single junk bytes between them. */
  lemma {:induction false} ScanWeave(junk: seq<seq<byte>>, frames: seq<seq<byte>>, tail: seq<byte>)
    requires |junk| == |frames| && LineJunk(junk) && AllFrames(frames)
    ensures Scan(Weave(junk, frames) + tail) == (Pieces(junk, frames) + Scan(tail).0, Scan(tail).1)
    decreases |frames|
  {
    if frames == [] {
      assert Weave(junk, frames) + tail == tail;
      assert Pieces(junk, frames) + Scan(tail).0 == Scan(tail).0;
    } else {
      var more := Weave(junk[1..], frames[1..]);
      ScanWeave(junk[1..], frames[1..], tail);
      ScanFrame(frames[0], more + tail);
      ScanJunk(junk[0], frames[0] + (more + tail));
      ConcatAssociative(frames[0], more, tail);
      ConcatAssociative(junk[0], frames[0] + more, tail);
      WeaveRegroups(junk, frames, Scan(tail).0);
    }
  }

  lemma WeaveRegroups(junk: seq<seq<byte>>, frames: seq<seq<byte>>, tail: seq<seq<byte>>)
    requires |junk| == |frames| > 0
    ensures Singles(junk[0]) + ([frames[0]] + (Pieces(junk[1..], frames[1..]) + tail))
         == Pieces(junk, frames) + tail
  {
    var more := Pieces(junk[1..], frames[1..]);
    ConcatAssociative([frames[0]], more, tail);
    ConcatAssociative(Singles(junk[0]), [frames[0]] + more, tail);
  }

  /** One BAD_DATA message for every byte. */
  function BadBytes(junk: seq<byte>): (r: seq<Received>)
    ensures |r| == |junk|
  {
    if junk == [] then [] else [BadData(junk[..1], BadPrefix)] + BadBytes(junk[1..])
  }

  /** What the receiver should report: the junk byte by byte, and the messages as they were sent. */
  function Expected(d: Dialect, srcSystem: byte, srcComponent: byte, k: nat,
                    junk: seq<seq<byte>>, ms: seq<Outgoing>): (r: seq<Received>)
    requires |junk| == |ms| && AllSendable(d, ms)
    decreases |ms|
  {
    if ms == [] then []
    else BadBytes(junk[0])
         + ([AsReceived(d, ms[0], k % SEQUENCE_MODULUS, srcSystem, srcComponent)]
            + Expected(d, srcSystem, srcComponent, k + 1, junk[1..], ms[1..]))
  }

  function DecoderOf(d: Dialect): Decoder {
    msgbuf => Decode(d, msgbuf)
  }

  lemma {:induction false} ReportsSingles(decode: Decoder, junk: seq<byte>)
    requires NoMarker(junk)
    ensures Clean(decode, Singles(junk))
    ensures Reports(decode, Singles(junk)) == BadBytes(junk)
    ensures Packets(decode, Singles(junk)) == 0
    decreases |junk|
  {
    if junk == [] {
    } else {
      ReportsSingles(decode, junk[1..]);
      CleanConcat(decode, [junk[..1]], Singles(junk[1..]));
      assert Singles(junk)[1..] == Singles(junk[1..]);
    }
  }

  lemma ReportFrame(d: Dialect, srcSystem: byte, srcComponent: byte, k: nat, m: Outgoing)
    requires Sendable(d, m)
    ensures var frame := Frame(d, srcSystem, srcComponent, k, m);
            && IsFrame(frame)
            && IsPacket(DecoderOf(d), frame)
            && Report(DecoderOf(d), frame) == AsReceived(d, m, k % SEQUENCE_MODULUS, srcSystem, srcComponent)
  {
    DecodePacked(d, m, k % SEQUENCE_MODULUS, srcSystem, srcComponent);
  }

  lemma {:induction false} FramesAreFrames(d: Dialect, srcSystem: byte, srcComponent: byte, k: nat,
                                           ms: seq<Outgoing>)
    requires AllSendable(d, ms)
    ensures AllFrames(Frames(d, srcSystem, srcComponent, k, ms))
    decreases |ms|
  {
    if ms == [] {
    } else {
      ReportFrame(d, srcSystem, srcComponent, k, ms[0]);
      FramesAreFrames(d, srcSystem, srcComponent, k + 1, ms[1..]);
      var frames := Frames(d, srcSystem, srcComponent, k, ms);
      assert frames[1..] == Frames(d, srcSystem, srcComponent, k + 1, ms[1..]);
      assert forall i :: 1 <= i < |frames| ==> frames[i] == frames[1..][i - 1];
    }
  }

  lemma {:induction false} ReportsPieces(d: Dialect, srcSystem: byte, srcComponent: byte, k: nat,
                                         junk: seq<seq<byte>>, ms: seq<Outgoing>)
    requires |junk| == |ms| && AllSendable(d, ms) && LineJunk(junk)
    ensures var pieces := Pieces(junk, Frames(d, srcSystem, srcComponent, k, ms));
            && NoneEmpty(pieces)
            && Clean(DecoderOf(d), pieces)
            && Reports(DecoderOf(d), pieces) == Expected(d, srcSystem, srcComponent, k, junk, ms)
            && Packets(DecoderOf(d), pieces) == |ms|
    decreases |ms|
  {
    if ms == [] {
    } else {
      var decode := DecoderOf(d);
      var frame := Frame(d, srcSystem, srcComponent, k, ms[0]);
      var frames := Frames(d, srcSystem, srcComponent, k + 1, ms[1..]);
      var more := Pieces(junk[1..], frames);
      assert Frames(d, srcSystem, srcComponent, k, ms)[1..] == frames;
      ReportFrame(d, srcSystem, srcComponent, k, ms[0]);
      ReportsSingles(decode, junk[0]);
      ReportsPieces(d, srcSystem, srcComponent, k + 1, junk[1..], ms[1..]);
      assert ([frame] + more)[1..] == more;
      NoneEmptyCons(frame, more);
      CleanConcat(decode, [frame], more);
      CleanConcat(decode, Singles(junk[0]), [frame] + more);
      ReportsConcat(decode, Singles(junk[0]), [frame] + more);
    }
  }

  lemma SumOfJunk(d: Dialect, junk: seq<seq<byte>>, frames: seq<seq<byte>>)
    requires |junk| == |frames|
    ensures |Pieces(junk, frames)| == |Flatten(junk)| + |frames|
    decreases |frames|
  {
  }

  /** What the scanner makes of the line, and what is reported about it. */
  lemma LineReports(d: Dialect, srcSystem: byte, srcComponent: byte, ms: seq<Outgoing>,
                    junk: seq<seq<byte>>, trailing: seq<byte>)
    returns (pieces: seq<seq<byte>>)
    requires AllSendable(d, ms)
    requires |junk| == |ms| && LineJunk(junk) && NoMarker(trailing)
    ensures Scan(Weave(junk, Frames(d, srcSystem, srcComponent, 0, ms)) + trailing) == (pieces, [])
    ensures NoneEmpty(pieces) && Clean(DecoderOf(d), pieces)
    ensures Reports(DecoderOf(d), pieces)
         == Expected(d, srcSystem, srcComponent, 0, junk, ms) + BadBytes(trailing)
    ensures Packets(DecoderOf(d), pieces) == |ms|
    ensures |pieces| == |Flatten(junk)| + |trailing| + |ms|
  {
    var decode := DecoderOf(d);
    var frames := Frames(d, srcSystem, srcComponent, 0, ms);
    pieces := Pieces(junk, frames) + Singles(trailing);
    FramesAreFrames(d, srcSystem, srcComponent, 0, ms);
    ScanWeave(junk, frames, trailing);
    ScanJunk(trailing, []);
    assert trailing + [] == trailing && Scan([]) == ([], []);
    assert Singles(trailing) + [] == Singles(trailing);
    ReportsPieces(d, srcSystem, srcComponent, 0, junk, ms);
    ReportsSingles(decode, trailing);
    ReportsConcat(decode, Pieces(junk, frames), Singles(trailing));
    CleanConcat(decode, Pieces(junk, frames), Singles(trailing));
    SumOfJunk(d, junk, frames);
  }

  /**
   The round trip, for every table: whatever messages a fresh sender writes, whatever marker-free junk the line
   adds before, between and after the frames, and however what arrives is cut into chunks, a fresh robust receiver
   reports the messages in order with their sequence numbers counting modulo 255, one BAD_DATA for each junk byte,
   and nothing else; its counters agree and nothing is left over.
   */
  lemma RoundTrip(d: Dialect, srcSystem: byte, srcComponent: byte, ms: seq<Outgoing>,
                  junk: seq<seq<byte>>, trailing: seq<byte>, listening: bool, chunks: seq<seq<byte>>)
    requires AllSendable(d, ms)
    requires |junk| == |ms| && LineJunk(junk) && NoMarker(trailing)
    requires Flatten(chunks) == Weave(junk, Frames(d, srcSystem, srcComponent, 0, ms)) + trailing
    ensures SendAll(d, FreshSender(srcSystem, srcComponent), ms).file
         == Flatten(Frames(d, srcSystem, srcComponent, 0, ms))
    ensures var (r, st) := Feed(DecoderOf(d), Initial(true, listening), chunks);
            && r == Ok(Expected(d, srcSystem, srcComponent, 0, junk, ms) + BadBytes(trailing))
            && st.buf == []
            && st.packetsReceived == |ms|
            && st.receiveErrors == |Flatten(junk)| + |trailing|
  {
    SenderWritesFrames(d, FreshSender(srcSystem, srcComponent), 0, ms);
    var pieces := LineReports(d, srcSystem, srcComponent, ms, junk, trailing);
    assert [] + Flatten(chunks) == Flatten(chunks);
    FeedIsDrain(DecoderOf(d), Initial(true, listening), chunks);
  }

  /** The decoder of a dialect keeps the frame with each message. */
  lemma DecoderKeepsFrame(d: Dialect)
    ensures KeepsFrame(DecoderOf(d))
  {
  }

  /** With the decoder of a dialect, every run is bounded by what came in, and accounted for on clean input. */
  lemma DialectConserves(d: Dialect, st: Receiver, calls: seq<Call>)
    requires st.robust && Inv(st)
    ensures var (ms, after) := Run(DecoderOf(d), st, calls);
            && Bounded(st, Inputs(calls), ms, after)
            && (Clean(DecoderOf(d), Scan(st.buf + Inputs(calls)).0) ==> Accounts(st, Inputs(calls), ms, after))
  {
    DecoderKeepsFrame(d);
    NothingInvented(DecoderOf(d), st, calls);
    if Clean(DecoderOf(d), Scan(st.buf + Inputs(calls)).0) {
      Conservation(DecoderOf(d), st, calls);
    }
  }

  /** Is this an intact frame of a row with more fields than arguments? */
  predicate Poison(d: Dialect, piece: seq<byte>) {
    Intact(d, piece) && !IndexableRow(d.table[piece[5]])
  }

  /** From every reachable state, robust mode raises exactly on inputs with such a frame among their pieces. */
  lemma AnswersIffNoPoison(d: Dialect, st: Receiver, s: seq<byte>)
    requires st.robust && Inv(st)
    ensures ParseBuffer(DecoderOf(d), st, s).0.Ok? <==> forall p :: p in Scan(st.buf + s).0 ==> !Poison(d, p)
  {
    AnswersIffClean(DecoderOf(d), st, s);
    forall p ensures Answers(DecoderOf(d), p) <==> !Poison(d, p) {
      DecodeCrashes(d, p);
    }
  }

  /** A frame that names no row with more fields than arguments is answered. */
  lemma OtherRowsAreAnswered(d: Dialect, piece: seq<byte>)
    requires |piece| >= OVERHEAD && piece[5] in d.table ==> IndexableRow(d.table[piece[5]])
    ensures Answers(DecoderOf(d), piece)
  {
    DecodeCrashes(d, piece);
  }

  /** Does robust mode answer every input with messages? */
  ghost predicate RobustModeIsTotal(d: Dialect) {
    forall s :: ParseBuffer(DecoderOf(d), Initial(true, false), s).0.Ok?
  }

  lemma CrashingRow(d: Dialect, id: byte)
    requires id in d.table && Size(d.table[id].widths) < 256 && !IndexableRow(d.table[id])
    ensures var frame := ZeroFrame(d, id); Extent(frame) == |frame| > 0 && !Answers(DecoderOf(d), frame)
  {
    ZeroFrameIntact(d, id);
    DecodeCrashes(d, ZeroFrame(d, id));
  }

  /** It does exactly for tables without a row that has more fields than arguments. */
  lemma RobustModeIsTotalIff(d: Dialect)
    requires forall id :: id in d.table ==> Size(d.table[id].widths) < 256
    ensures RobustModeIsTotal(d) <==> NeverCrashes(d)
  {
    var decode, initial := DecoderOf(d), Initial(true, false);
    if NeverCrashes(d) {
      forall s ensures ParseBuffer(decode, initial, s).0.Ok? {
        forall p | p in Scan(initial.buf + s).0 ensures Answers(decode, p) {
          OtherRowsAreAnswered(d, p);
        }
        AnswersIffClean(decode, initial, s);
      }
    } else {
      var id :| id in d.table && !IndexableRow(d.table[id]);
      var frame := ZeroFrame(d, id);
      CrashingRow(d, id);
      assert initial.buf + frame == frame && frame[..|frame|] == frame;
      ParseCharCrashes(decode, initial, frame);
    }
  }
}
