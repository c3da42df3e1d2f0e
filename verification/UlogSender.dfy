/**
 The sender of the stream: the logger's MAVLink writer, which packs log messages back to back into a
 fixed buffer, notes where the first message in the buffer starts, and publishes the buffer when full.
 */
module UlogSender {
  import opened Sequences
  import opened UlogFormat
  import opened UlogReceiver
  import opened UlogReassembly

  /** What the writer publishes: the payload and the 16-bit number it carries. */
  datatype Published = Published(sequence: int, payload: Payload)

  const OK := 0
  const ACK_TIMEOUT := -2

  function Payloads(published: seq<Published>): seq<Payload> {
    seq(|published|, i requires 0 <= i < |published| => published[i].payload)
  }

  /** Where the next payload begins in the stream of messages. */
  function Position(published: seq<Published>): nat {
    Cut(Payloads(published), |published|)
  }

  /** Each payload is what an honest sender cuts from the messages, and is numbered by its index modulo 2^16. */
  ghost predicate HonestlyPublished(ms: seq<seq<byte>>, published: seq<Published>) {
    && (forall i :: 0 <= i < |published| ==> HonestPayload(ms, Payloads(published), i))
    && (forall i :: 0 <= i < |published| ==> published[i].sequence == i % SEQUENCES)
    && (published != [] && ms != [] && |ms[0]| >= HEADER_LENGTH ==> |published[0].payload.data| >= HEADER_LENGTH)
  }

  // ---------- the stream grows at its end only ----------

  lemma FirstExtends(ms: seq<seq<byte>>, m: seq<byte>, c: nat)
    requires c <= Start(ms, |ms|)
    ensures c <= Start(ms + [m], |ms + [m]|) && First(ms + [m], c) == First(ms, c)
    ensures Start(ms + [m], First(ms, c)) == Start(ms, First(ms, c))
  {
    var j := First(ms, c);
    StartExtends(ms, [m], j);
    if j > 0 {
      StartExtends(ms, [m], j - 1);
    }
    FirstUnique(ms + [m], c, j);
  }

  lemma OffsetExtends(ms: seq<seq<byte>>, m: seq<byte>, c: nat, d: nat)
    requires c <= d <= Start(ms, |ms|)
    ensures c <= Start(ms + [m], |ms + [m]|)
    ensures OffsetOf(ms + [m], c, d) == OffsetOf(ms, c, d)
  {
    FirstExtends(ms, m, c);
  }

  lemma HonestExtends(ms: seq<seq<byte>>, m: seq<byte>, ps: seq<Payload>, i: nat)
    requires i < |ps| && HonestPayload(ms, ps, i)
    ensures HonestPayload(ms + [m], ps, i)
  {
    FlattenSnoc(ms, m);
    FlattenLength(ms);
    OffsetExtends(ms, m, Cut(ps, i), Cut(ps, i + 1));
  }

  lemma {:induction false} CutExtends(ps: seq<Payload>, p: Payload, i: nat)
    requires i <= |ps|
    ensures Cut(ps + [p], i) == Cut(ps, i)
  {
    if i > 0 {
      CutExtends(ps, p, i - 1);
    }
  }

  /** Publishing another payload leaves the earlier ones what they were. */
  lemma HonestKept(ms: seq<seq<byte>>, ps: seq<Payload>, p: Payload, i: nat)
    requires i < |ps| && HonestPayload(ms, ps, i)
    ensures HonestPayload(ms, ps + [p], i)
  {
    CutExtends(ps, p, i);
    CutExtends(ps, p, i + 1);
  }

  /** Inside the last message no further message starts. */
  lemma OffsetWithinLast(ms: seq<seq<byte>>, c: nat, e: nat, d: nat)
    requires |ms| > 0 && c <= e && Start(ms, |ms| - 1) < e <= d <= Start(ms, |ms|)
    ensures OffsetOf(ms, c, e) == OffsetOf(ms, c, d)
    ensures Start(ms, |ms| - 1) < c ==> OffsetOf(ms, c, d) == NO_MESSAGE_STARTS
  {
    var f := First(ms, c);
    if Start(ms, |ms| - 1) < c {
      FirstUnique(ms, c, |ms|);
    } else {
      StartMonotone(ms, f, |ms|);
      if f < |ms| {
        StartMonotone(ms, f, |ms| - 1);
      }
    }
  }

  /** The offset to announce once a message is added behind the bytes [c, c + n) already in the buffer. */
  lemma OffsetWithNewMessage(ms: seq<seq<byte>>, m: seq<byte>, c: nat, n: nat)
    requires c + n == Start(ms, |ms|) && n < PAYLOAD_CAPACITY
    ensures c <= Start(ms + [m], |ms + [m]|)
    ensures OffsetOf(ms + [m], c, c + n + 1) ==
            if OffsetOf(ms, c, c + n) == NO_MESSAGE_STARTS then n else OffsetOf(ms, c, c + n)
  {
    FirstExtends(ms, m, c);
    StartMonotone(ms, First(ms, c), |ms|);
  }

  /** One more payload, cut where the stream stands, leaves the published payloads honest. */
  lemma HonestWithOneMore(ms: seq<seq<byte>>, ps: seq<Payload>, p: Payload)
    requires forall i :: 0 <= i < |ps| ==> HonestPayload(ms, ps, i)
    requires var c := Cut(ps, |ps|);
      && 0 < |p.data| <= PAYLOAD_CAPACITY && c + |p.data| <= |Flatten(ms)| == Start(ms, |ms|)
      && p.data == Flatten(ms)[c..c + |p.data|]
      && p.firstOffset == OffsetOf(ms, c, c + |p.data|)
    ensures Cut(ps + [p], |ps| + 1) == Cut(ps, |ps|) + |p.data|
    ensures forall i :: 0 <= i <= |ps| ==> HonestPayload(ms, ps + [p], i)
  {
    CutExtends(ps, p, |ps|);
    forall i | 0 <= i < |ps|
      ensures HonestPayload(ms, ps + [p], i)
    {
      HonestKept(ms, ps, p, i);
    }
  }

  /** The position up to which the offset must be known: one byte ahead while the last message has more bytes. */
  function Upcoming(ms: seq<seq<byte>>, at: nat): nat {
    if at < Start(ms, |ms|) then at + 1 else at
  }

  /**
   The writer is in the last of the messages ms, or at its end: the buffer holds the bytes since the last
   payload, and the offset is that of the first message to start in them.
   */
  ghost predicate Midway(ms: seq<seq<byte>>, published: seq<Published>, held: seq<byte>, offset: int) {
    var c := Position(published);
    && HonestlyPublished(ms, published) && NonEmptyPieces(ms) && ms != []
    && |held| <= PAYLOAD_CAPACITY && c + |held| <= |Flatten(ms)| == Start(ms, |ms|)
    && held == Flatten(ms)[c..c + |held|]
    && Start(ms, |ms| - 1) <= c + |held|
    && offset == OffsetOf(ms, c, Upcoming(ms, c + |held|))
  }

  /** Between messages: everything written is published or in the buffer. */
  ghost predicate Idle(ms: seq<seq<byte>>, published: seq<Published>, held: seq<byte>, offset: int) {
    || (ms == [] && published == [] && held == [] && offset == 0)
    || (Midway(ms, published, held, offset) && Position(published) + |held| == |Flatten(ms)|)
  }

  lemma MessageBegun(ms: seq<seq<byte>>, published: seq<Published>, held: seq<byte>, offset: int, m: seq<byte>)
    requires Idle(ms, published, held, offset) && |m| > 0 && |held| < PAYLOAD_CAPACITY
    ensures Midway(ms + [m], published, held, if offset == NO_MESSAGE_STARTS then |held| else offset)
    ensures var at := Position(published) + |held|;
      at + |m| == |Flatten(ms + [m])| && Flatten(ms + [m])[at..] == m
  {
    var ps := Payloads(published);
    FlattenSnoc(ms, m);
    FlattenLength(ms);
    FlattenLength(ms + [m]);
    StartExtends(ms, [m], |ms|);
    forall i | 0 <= i < |published|
      ensures HonestPayload(ms + [m], ps, i)
    {
      HonestExtends(ms, m, ps, i);
    }
    OffsetWithNewMessage(ms, m, Position(published), |held|);
  }

  lemma ChunkStored(ms: seq<seq<byte>>, published: seq<Published>, held: seq<byte>, offset: int, chunk: seq<byte>)
    requires Midway(ms, published, held, offset) && 0 < |chunk| && |held| + |chunk| <= PAYLOAD_CAPACITY
    requires var at := Position(published) + |held|;
      at + |chunk| <= |Flatten(ms)| && chunk == Flatten(ms)[at..at + |chunk|]
    ensures Midway(ms, published, held + chunk, offset)
    ensures Position(published) <= Start(ms, |ms|)
    ensures offset == OffsetOf(ms, Position(published), Position(published) + |held + chunk|)
  {
    var c, at := Position(published), Position(published) + |held|;
    OffsetWithinLast(ms, c, at + 1, at + |chunk|);
    OffsetWithinLast(ms, c, at + |chunk|, Upcoming(ms, at + |chunk|));
    SlicesJoin(Flatten(ms), c, at, at + |chunk|);
  }

  lemma PayloadsSnoc(published: seq<Published>, x: Published)
    ensures Payloads(published + [x]) == Payloads(published) + [x.payload]
  {
  }

  /** A payload with the bytes and offset that follow the published ones can be published. */
  lemma OneMorePublished(ms: seq<seq<byte>>, published: seq<Published>, x: Published)
    requires HonestlyPublished(ms, published) && ms != []
    requires var c, p := Position(published), x.payload;
      && 0 < |p.data| <= PAYLOAD_CAPACITY && c + |p.data| <= |Flatten(ms)| == Start(ms, |ms|)
      && p.data == Flatten(ms)[c..c + |p.data|]
      && p.firstOffset == OffsetOf(ms, c, c + |p.data|)
    requires Start(ms, |ms| - 1) < Position(published) + |x.payload.data|
    requires |ms| == 1 ==>
               || |x.payload.data| == PAYLOAD_CAPACITY
               || Position(published) + |x.payload.data| == |Flatten(ms)|
    requires x.sequence == |published| % SEQUENCES
    ensures HonestlyPublished(ms, published + [x])
    ensures Position(published + [x]) == Position(published) + |x.payload.data|
  {
    PayloadsSnoc(published, x);
    HonestWithOneMore(ms, Payloads(published), x.payload);
    if published == [] {
      if |ms| > 1 {
        StartMonotone(ms, 1, |ms| - 1);
      }
      assert |ms[0]| == Start(ms, 1);
    }
  }

  lemma NextNumber(n: nat)
    ensures (n % SEQUENCES + 1) % SEQUENCES == (n + 1) % SEQUENCES
  {
  }

  /** When nothing of the stream is in the buffer, no message starts there. */
  lemma EmptyBuffer(ms: seq<seq<byte>>, published: seq<Published>)
    requires HonestlyPublished(ms, published) && NonEmptyPieces(ms) && ms != []
    requires Start(ms, |ms| - 1) < Position(published) <= |Flatten(ms)| == Start(ms, |ms|)
    ensures Midway(ms, published, [], NO_MESSAGE_STARTS)
  {
  }

  lemma PayloadPublished(ms: seq<seq<byte>>, published: seq<Published>, held: seq<byte>, offset: byte, acked: bool)
    requires Midway(ms, published, held, offset) && |held| > 0 && Start(ms, |ms| - 1) < Position(published) + |held|
    requires |held| == PAYLOAD_CAPACITY || Position(published) + |held| == |Flatten(ms)|
    ensures var more := published + [Published(|published| % SEQUENCES, Payload(offset, held, acked))];
      Midway(ms, more, [], NO_MESSAGE_STARTS) && Position(more) == Position(published) + |held|
  {
    var c, d := Position(published), Position(published) + |held|;
    OffsetWithinLast(ms, c, d, Upcoming(ms, d));
    var x := Published(|published| % SEQUENCES, Payload(offset, held, acked));
    OneMorePublished(ms, published, x);
    EmptyBuffer(ms, published + [x]);
  }

  /** From number n on, the payloads published ask for an acknowledgement as `need` says. */
  predicate AskFrom(published: seq<Published>, n: nat, need: bool) {
    forall i :: n <= i < |published| ==> published[i].payload.acked == need
  }

  predicate StartsReliably(published: seq<Published>) {
    published != [] ==> published[0].payload.acked
  }

  /** The first h payloads published carry the messages of the header, each asking for an acknowledgement. */
  ghost predicate HeaderFirst(header: seq<seq<byte>>, ms: seq<seq<byte>>, published: seq<Published>, h: nat) {
    && header <= ms && h <= |published|
    && Cut(Payloads(published), h) == |Flatten(header)|
    && forall i :: 0 <= i < h ==> published[i].payload.acked
  }

  lemma {:induction false} CutOfPrefix(ps: seq<Payload>, more: seq<Payload>, i: nat)
    requires ps <= more && i <= |ps|
    ensures Cut(more, i) == Cut(ps, i)
  {
    if i > 0 {
      CutOfPrefix(ps, more, i - 1);
    }
  }

  /** Writing more behind it does not disturb the header. */
  lemma HeaderStays(header: seq<seq<byte>>, ms: seq<seq<byte>>, published: seq<Published>, h: nat,
                    ms2: seq<seq<byte>>, published2: seq<Published>)
    requires HeaderFirst(header, ms, published, h) && ms <= ms2 && published <= published2
    ensures HeaderFirst(header, ms2, published2, h)
  {
    CutOfPrefix(Payloads(published), Payloads(published2), h);
  }

  class LogWriterMavlink {
    const data: array<byte>
    var length: nat
    var sequence: int
    var firstMessageOffset: byte
    var needReliableTransfer: bool
    var isStarted: bool
    var published: seq<Published>
    /** Whether the acknowledgement of the n-th published payload comes before the sender gives up. */
    const ackInTime: nat -> bool
    /** The messages the writer was asked to write since the log was started. */
    ghost var messages: seq<seq<byte>>

    constructor (ackInTime: nat -> bool)
      ensures Valid() && fresh(data) && this.ackInTime == ackInTime
      ensures !isStarted && !needReliableTransfer && published == [] && messages == []
    {
      data := new byte[PAYLOAD_CAPACITY];
      length, sequence, firstMessageOffset := 0, 0, 0;
      needReliableTransfer, isStarted := false, false;
      this.ackInTime := ackInTime;
      published, messages := [], [];
    }

    ghost function Held(): seq<byte>
      requires length <= data.Length
      reads this`length, data
    {
      data[..length]
    }

    /** What is published is honest; while started, the buffer is idle and the number is the next one. */
    ghost predicate Valid()
      reads this, data
    {
      && data.Length == PAYLOAD_CAPACITY && length < PAYLOAD_CAPACITY
      && HonestlyPublished(messages, published)
      && (!isStarted ==> length == 0)
      && (isStarted ==> Idle(messages, published, Held(), firstMessageOffset) && sequence == |published| % SEQUENCES)
    }

    /** In the middle of a message. */
    ghost predicate Writing()
      reads this, data
    {
      && data.Length == PAYLOAD_CAPACITY && length < PAYLOAD_CAPACITY && isStarted
      && Midway(messages, published, Held(), firstMessageOffset) && sequence == |published| % SEQUENCES
    }

    method StartLog()
      requires Valid()
      modifies this`length, this`sequence, this`firstMessageOffset, this`isStarted, this`published, this`messages
      ensures Valid() && isStarted && messages == [] && published == []
    {
      sequence, length, firstMessageOffset := 0, 0, 0;
      isStarted := true;
      published, messages := [], [];
    }

    method StopLog()
      requires Valid()
      modifies this`length, this`isStarted
      ensures Valid() && !isStarted
    {
      length, isStarted := 0, false;
    }

    /** Publishes the buffer; with a reliable transfer it waits for the acknowledgement, or stops the log. */
    method PublishMessage() returns (r: int)
      requires length <= data.Length
      modifies this`published, this`sequence, this`length, this`firstMessageOffset, this`isStarted
      ensures published == old(published) + [Published(old(sequence),
                Payload(old(firstMessageOffset), old(Held()), needReliableTransfer))]
      ensures r == if needReliableTransfer && !ackInTime(|old(published)|) then ACK_TIMEOUT else OK
      ensures r == OK ==> isStarted == old(isStarted) && sequence == (old(sequence) + 1) % SEQUENCES
      ensures r == OK ==> firstMessageOffset == NO_MESSAGE_STARTS
      ensures r != OK ==> !isStarted
      ensures length == 0
    {
      published := published + [Published(sequence, Payload(firstMessageOffset, data[..length], needReliableTransfer))];
      if needReliableTransfer {
        if !ackInTime(|published| - 1) {
          length, isStarted := 0, false;
          return ACK_TIMEOUT;
        }
      }
      sequence := (sequence + 1) % SEQUENCES;
      length := 0;
      firstMessageOffset := 255;
      return OK;
    }

    method Append(chunk: seq<byte>)
      requires length + |chunk| <= data.Length
      modifies data, this`length
      ensures length == old(length) + |chunk|
      ensures Held() == old(Held()) + chunk
    {
      forall k | 0 <= k < |chunk| {
        data[length + k] := chunk[k];
      }
      length := length + |chunk|;
    }

    /** The bytes written to the stream but neither published nor in the buffer. */
    ghost function Remaining(): seq<byte>
      requires Position(published) + length <= |Flatten(messages)|
      reads this
    {
      Flatten(messages)[Position(published) + length..]
    }

    /** One round of the copy loop: move a chunk into the buffer, and publish the buffer if that fills it. */
    method StoreChunk(chunk: seq<byte>) returns (r: int)
      requires Writing() && 0 < |chunk| <= PAYLOAD_CAPACITY - length && chunk <= Remaining()
      modifies this`published, this`sequence, this`length, this`firstMessageOffset, this`isStarted, data
      ensures old(published) <= published && HonestlyPublished(messages, published)
      ensures r == OK ==> Writing() && Remaining() == old(Remaining())[|chunk|..]
      ensures AskFrom(published, |old(published)|, needReliableTransfer)
      ensures r != OK ==> r == ACK_TIMEOUT && !isStarted && length == 0
    {
      ghost var at := Position(published) + length;
      assert Flatten(messages)[at..at + |chunk|] == Remaining()[..|chunk|];
      assert Flatten(messages)[at + |chunk|..] == Remaining()[|chunk|..];
      ChunkStored(messages, published, Held(), firstMessageOffset, chunk);
      Append(chunk);
      r := OK;
      if length >= PAYLOAD_CAPACITY {
        r := PublishFull();
      }
    }

    method PublishFull() returns (r: int)
      requires data.Length == PAYLOAD_CAPACITY == length && isStarted && sequence == |published| % SEQUENCES
      requires Midway(messages, published, Held(), firstMessageOffset)
      requires Start(messages, |messages| - 1) < Position(published) + length
      modifies this`published, this`sequence, this`length, this`firstMessageOffset, this`isStarted
      ensures old(published) <= published && HonestlyPublished(messages, published)
      ensures r == OK ==> Writing() && Position(published) + length == old(Position(published) + length)
      ensures AskFrom(published, |old(published)|, needReliableTransfer)
      ensures r != OK ==> r == ACK_TIMEOUT && !isStarted && length == 0
    {
      ghost var more := published + [Published(sequence, Payload(firstMessageOffset, Held(), needReliableTransfer))];
      PayloadPublished(messages, published, Held(), firstMessageOffset, needReliableTransfer);
      NextNumber(|published|);
      r := PublishMessage();
      assert published == more && Held() == [];
    }

    /** Notes where a message starts if it is the first to start in the buffer. */
    method NoteMessage(ghost ptr: seq<byte>)
      requires Valid() && isStarted
      modifies this`firstMessageOffset, this`messages
      ensures firstMessageOffset
           == if old(firstMessageOffset) == NO_MESSAGE_STARTS then length else old(firstMessageOffset)
      ensures ptr == [] ==> messages == old(messages)
      ensures ptr != [] ==> Writing() && messages == old(messages) + [ptr] && Remaining() == ptr
    {
      if ptr != [] {
        MessageBegun(messages, published, Held(), firstMessageOffset, ptr);
        messages := messages + [ptr];
      }
      if firstMessageOffset == NO_MESSAGE_STARTS {
        firstMessageOffset := length;
      }
    }

    /** The copy loop. */
    method CopyMessage(ptr: seq<byte>) returns (r: int)
      requires Writing() && ptr == Remaining()
      modifies this`published, this`sequence, this`length, this`firstMessageOffset, this`isStarted, data
      ensures old(published) <= published && AskFrom(published, |old(published)|, needReliableTransfer)
      ensures Valid() && r == if isStarted then OK else ACK_TIMEOUT
    {
      var rest := ptr;
      while |rest| > 0
        invariant Writing() && rest == Remaining()
        invariant old(published) <= published && AskFrom(published, |old(published)|, needReliableTransfer)
        decreases |rest|
      {
        var sendLen := if PAYLOAD_CAPACITY - length < |rest| then PAYLOAD_CAPACITY - length else |rest|;
        var code := StoreChunk(rest[..sendLen]);
        if code != OK {
          return ACK_TIMEOUT;
        }
        rest := rest[sendLen..];
      }
      return OK;
    }

    /**
     Appends a message to the stream. An empty one adds nothing, but is noted all the same: if no message starts in
     the buffer, the offset then announces one that is not there.
     */
    method WriteMessage(ptr: seq<byte>) returns (r: int)
      requires Valid()
      modifies this`published, this`sequence, this`length, this`firstMessageOffset, this`isStarted, this`messages, data
      ensures old(published) <= published && AskFrom(published, |old(published)|, needReliableTransfer)
      ensures ptr != [] ==> Valid()
      ensures ptr == [] ==> (Valid() <==> !old(isStarted) || old(firstMessageOffset) != NO_MESSAGE_STARTS)
      ensures ptr == [] || !old(isStarted) ==>
                r == OK && isStarted == old(isStarted) && messages == old(messages) && published == old(published)
      ensures ptr != [] && old(isStarted) ==>
                messages == old(messages) + [ptr] && r == if isStarted then OK else ACK_TIMEOUT
    {
      if !isStarted {
        return OK;
      }
      NoteMessage(ptr);
      r := OK;
      if ptr != [] {
        r := CopyMessage(ptr);
      }
    }

    /** Leaving reliable mode publishes what is buffered, and stops the log if that is not acknowledged in time. */
    method SetNeedReliableTransfer(need: bool)
      requires Valid()
      modifies this`published, this`sequence, this`length, this`firstMessageOffset, this`isStarted
      modifies this`needReliableTransfer
      ensures Valid() && needReliableTransfer == need
      ensures if old(!need && needReliableTransfer && length > 0)
              then length == 0 && isStarted == (old(isStarted) && ackInTime(|old(published)|))
                   && published == old(published) + [Published(|old(published)| % SEQUENCES,
                                     Payload(old(firstMessageOffset), old(Held()), true))]
              else published == old(published) && isStarted == old(isStarted) && length == old(length)
    {
      if !need && needReliableTransfer {
        if length > 0 {
          FlushIsHonest();
          NextNumber(|published|);
          var _ := PublishMessage();
          assert Held() == [];
        }
      }
      needReliableTransfer := need;
    }

    /** A buffer that is not empty can be published between messages. */
    lemma FlushIsHonest()
      requires Valid() && length > 0
      ensures var more := published + [Published(sequence, Payload(firstMessageOffset, Held(), needReliableTransfer))];
        HonestlyPublished(messages, more) && Idle(messages, more, [], NO_MESSAGE_STARTS)
    {
      FlattenLength(messages);
      StartMonotone(messages, |messages| - 1, |messages|);
      PayloadPublished(messages, published, Held(), firstMessageOffset, needReliableTransfer);
    }
  }

  /** `start_log_mavlink`: the header section is written with reliable transfer, the rest is not. */
  method StartLogMavlink(w: LogWriterMavlink, header: seq<seq<byte>>)
    requires w.Valid() && NonEmptyPieces(header)
    modifies w, w.data
    ensures w.Valid() && AskFrom(w.published, 0, true) && !w.needReliableTransfer
    ensures w.isStarted ==> w.messages == header && HeaderFirst(header, w.messages, w.published, |w.published|)
  {
    w.StartLog();
    w.SetNeedReliableTransfer(true);
    assert header[..0] == [];
    for i := 0 to |header|
      invariant w.Valid() && w.needReliableTransfer && AskFrom(w.published, 0, true)
      invariant w.isStarted ==> w.messages == header[..i]
    {
      assert header[..i + 1] == header[..i] + [header[i]];
      var _ := w.WriteMessage(header[i]);
    }
    assert header[..|header|] == header;
    w.SetNeedReliableTransfer(false);
  }

  lemma HeaderIsSomething(header: seq<seq<byte>>, ms: seq<seq<byte>>, published: seq<Published>, h: nat)
    requires NonEmptyPieces(header) && header != [] && HeaderFirst(header, ms, published, h)
    ensures published != [] && StartsReliably(published)
  {
    assert |Flatten(header)| >= |header[0]| > 0;
    assert h > 0;
  }

  /** A whole session: after the header, data messages are appended without waiting. */
  method LogSession(w: LogWriterMavlink, header: seq<seq<byte>>, messages: seq<seq<byte>>)
    returns (ghost h: nat)
    requires w.Valid() && header != [] && NonEmptyPieces(header) && NonEmptyPieces(messages)
    modifies w, w.data
    ensures w.Valid() && StartsReliably(w.published)
    ensures w.isStarted ==> w.messages == header + messages && HeaderFirst(header, w.messages, w.published, h)
  {
    StartLogMavlink(w, header);
    h := |w.published|;
    assert header + messages[..0] == header;
    for i := 0 to |messages|
      invariant w.Valid() && StartsReliably(w.published)
      invariant w.isStarted ==>
                  w.messages == header + messages[..i] && HeaderFirst(header, w.messages, w.published, h)
    {
      ghost var ms, published := w.messages, w.published;
      assert header + messages[..i + 1] == header + messages[..i] + [messages[i]];
      var _ := w.WriteMessage(messages[i]);
      if w.isStarted {
        HeaderStays(header, ms, published, h, w.messages, w.published);
        HeaderIsSomething(header, w.messages, w.published, h);
      }
    }
    assert messages[..|messages|] == messages;
  }
}
