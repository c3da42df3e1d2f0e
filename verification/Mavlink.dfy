/** The protocol object itself: the sender and the parser, with the fields they update. */
module Mavlink {
  import opened Sequences
  import opened MavlinkCodec
  import opened MavlinkParser
  import opened MavlinkRuns

  class MAVLink {
    const dialect: Dialect
    const srcSystem: byte
    const srcComponent: byte
    var robustParsing: bool
    var hasCallback: bool
    var sequence: byte
    var file: seq<byte>
    var buf: seq<byte>
    var expectedLength: nat
    var havePrefixError: bool
    var totalPacketsSent: nat
    var totalBytesSent: nat
    var totalPacketsReceived: nat
    var totalBytesReceived: nat
    var totalReceiveErrors: nat
    var calledBack: seq<Received>

    ghost function Parser(): Receiver
      reads this
    {
      Receiver(robustParsing, hasCallback, buf, expectedLength, havePrefixError, totalPacketsReceived,
               totalBytesReceived, totalReceiveErrors, calledBack)
    }

    ghost function Writer(): Sender
      reads this
    {
      Sender(sequence, srcSystem, srcComponent, file, totalPacketsSent, totalBytesSent)
    }

    constructor (dialect: Dialect, srcSystem: byte, srcComponent: byte)
      ensures this.dialect == dialect
      ensures Parser() == Initial(false, false)
      ensures Writer() == FreshSender(srcSystem, srcComponent)
    {
      this.dialect, this.srcSystem, this.srcComponent := dialect, srcSystem, srcComponent;
      robustParsing, hasCallback, sequence, file := false, false, 0, [];
      buf, expectedLength, havePrefixError := [], NO_LENGTH, false;
      totalPacketsSent, totalBytesSent := 0, 0;
      totalPacketsReceived, totalBytesReceived, totalReceiveErrors := 0, 0, 0;
      calledBack := [];
    }

    method SendMessage(m: Outgoing)
      requires Sendable(dialect, m)
      modifies this`file, this`sequence, this`totalPacketsSent, this`totalBytesSent
      ensures Writer() == Send(dialect, old(Writer()), m)
    {
      var frame := Pack(dialect, m, sequence, srcSystem, srcComponent);
      file := file + frame;
      sequence := (sequence + 1) % SEQUENCE_MODULUS;
      totalPacketsSent := totalPacketsSent + 1;
      totalBytesSent := totalBytesSent + |frame|;
    }

    method CallBack(m: Received)
      modifies this`calledBack
      ensures Parser() == Notify(old(Parser()), m)
    {
      if hasCallback {
        calledBack := calledBack + [m];
      }
    }

    /** Check a frame, unpack its fields, and put them into constructor order in place. */
    method DecodeFrame(msgbuf: seq<byte>) returns (r: Result<Received, Error>)
      ensures r == Decode(dialect, msgbuf)
    {
      var n := |msgbuf|;
      if n < HEADER {
        return Err(MavError(HeaderTruncated));
      }
      if msgbuf[0] != MARKER {
        return Err(MavError(BadPrefix));
      }
      if msgbuf[1] as int != n - OVERHEAD {
        return Err(MavError(WrongLength));
      }
      var h := Header(msgbuf[1], msgbuf[2], msgbuf[3], msgbuf[4], msgbuf[5]);
      if h.msgId !in dialect.table {
        return Err(MavError(UnknownId));
      }
      var row := dialect.table[h.msgId];
      var crc := Word(msgbuf[n - 2], msgbuf[n - 1]);
      if crc != dialect.x25(msgbuf[1..n - 2], row.crcExtra) {
        return Err(MavError(BadCrc));
      }
      var payload := msgbuf[HEADER..n - 2];
      if |payload| != Size(row.widths) {
        return Err(MavError(BadPayload));
      }
      var t := Unpack(row.widths, payload);
      var tlist := t;
      for i := 0 to |t|
        invariant |tlist| == |t| && i <= |row.orderMap|
        invariant forall k :: 0 <= k < i ==> row.orderMap[k] < |t| && tlist[k] == t[row.orderMap[k]]
      {
        if i >= |row.orderMap| || row.orderMap[i] >= |t| {
          return Err(IndexError);
        }
        tlist := tlist[i := t[row.orderMap[i]]];
      }
      if |tlist| != |row.orderMap| {
        return Err(MavError(CannotInstantiate));
      }
      assert tlist == Reorder(t, row.orderMap);
      return Ok(Message(h, tlist, payload, crc, msgbuf));
    }

    method NextLength() returns (ret: int)
      ensures ret == BytesNeeded(Parser())
    {
      ret := expectedLength - |buf|;
      if ret <= 0 {
        ret := 1;
      }
    }

    method ParseBytes(c: seq<byte>) returns (r: Result<Option<Received>, Error>)
      modifies this
      ensures (r, Parser()) == ParseChar(DecoderOf(dialect), old(Parser()), c)
      ensures Writer() == old(Writer())
    {
      buf := buf + c;
      totalBytesReceived := totalBytesReceived + |c|;
      if |buf| >= 1 && buf[0] != MARKER {
        r := DropPrefix();
        return;
      }
      NoteLength();
      if expectedLength >= OVERHEAD && |buf| >= expectedLength {
        r := TakeFrame();
        return;
      }
      return Ok(None);
    }

    /** The part of `parse_char` for a first byte that is the marker. */
    method NoteLength()
      modifies this
      ensures Parser() == Sized(old(Parser())) && Writer() == old(Writer())
    {
      havePrefixError := false;
      if |buf| >= 2 {
        expectedLength := buf[1] as int + OVERHEAD;
      }
    }

    /** The part of `parse_char` for a frame that is all there. */
    method TakeFrame() returns (r: Result<Option<Received>, Error>)
      requires expectedLength <= |buf|
      modifies this
      ensures (r, Parser()) == OnFrame(DecoderOf(dialect), old(Parser()))
      ensures Writer() == old(Writer())
    {
      var mbuf := buf[..expectedLength];
      buf := buf[expectedLength..];
      expectedLength := NO_LENGTH;
      var decoded := DecodeFrame(mbuf);
      r := Conclude(mbuf, decoded);
    }

    /** The part of `parse_char` for a first byte that is not the marker. */
    method DropPrefix() returns (r: Result<Option<Received>, Error>)
      requires |buf| >= 1
      modifies this
      ensures (r, Parser()) == OnBadPrefix(old(Parser()))
      ensures Writer() == old(Writer())
    {
      var magic := buf[..1];
      buf := buf[1..];
      if robustParsing {
        var m := BadData(magic, BadPrefix);
        CallBack(m);
        expectedLength := NO_LENGTH;
        totalReceiveErrors := totalReceiveErrors + 1;
        return Ok(Some(m));
      }
      if havePrefixError {
        return Ok(None);
      }
      havePrefixError := true;
      totalReceiveErrors := totalReceiveErrors + 1;
      return Err(MavError(BadPrefix));
    }

    /** The part of `parse_char` after a frame has been decoded. */
    method Conclude(mbuf: seq<byte>, decoded: Result<Received, Error>) returns (r: Result<Option<Received>, Error>)
      modifies this
      ensures (r, Parser()) == Settle(old(Parser()), mbuf, decoded)
      ensures Writer() == old(Writer())
    {
      var m;
      match decoded {
        case Ok(message) =>
          m := message;
          totalPacketsReceived := totalPacketsReceived + 1;
        case Err(MavError(reason)) =>
          if !robustParsing {
            return Err(MavError(reason));
          }
          m := BadData(mbuf, reason);
          totalReceiveErrors := totalReceiveErrors + 1;
        case Err(IndexError) =>
          return Err(IndexError);
      }
      CallBack(m);
      return Ok(Some(m));
    }

    method ParseAll(s: seq<byte>) returns (r: Result<seq<Received>, Error>)
      modifies this
      ensures (r, Parser()) == ParseBuffer(DecoderOf(dialect), old(Parser()), s)
      ensures Writer() == old(Writer())
    {
      ghost var decode, st := DecoderOf(dialect), Parser();
      ghost var whole := ParseBuffer(decode, st, s);
      CollectedTwice([], [], whole);
      CollectNone(whole, [], decode, st, s);
      var m := ParseBytes(s);
      if m.Err? {
        return Err(m.error);
      }
      if m.value.None? {
        return Ok([]);
      }
      CollectOne(whole, [], decode, st, s, m.value.value, Parser());
      var ret := [m.value.value];
      st := Parser();
      while true
        invariant Writer() == old(Writer())
        invariant st == Parser() && whole == Collected(ret, ParseBuffer(decode, st, []))
        decreases |buf|
      {
        CollectNone(whole, ret, decode, st, []);
        m := ParseBytes([]);
        if m.Err? {
          return Err(m.error);
        }
        if m.value.None? {
          return Ok(ret);
        }
        CollectOne(whole, ret, decode, st, [], m.value.value, Parser());
        ret := ret + [m.value.value];
        st := Parser();
      }
    }
  }
}
