/**
 The ULog streaming receiver: sequence check, acknowledgement, and reassembly of records.
 `State` and the functions on it say what each step does to the receiver; the class performs the steps.
 */
module UlogReceiver {
  import opened Sequences
  import opened UlogFormat

  const SEQUENCES := 0x1_0000
  const HALF := 0x8000
  const CMD_LOGGING_START := 2510
  const MAX_REPORTED_DROPS := 25

  datatype Message =
    | CommandAck(command: int, result: int)
    | LoggingData(acked: bool, sequence: int, length: byte, firstOffset: byte, data: seq<byte>)

  datatype Error = LoggingStartFailed(result: int) | FirstMessageTooShort

  /** What `read_message` hands on: payload, offset of the first message in it, messages lost before it. */
  datatype Piece = Piece(data: seq<byte>, firstOffset: byte, drops: nat)

  datatype State = State(
    gotUlogHeader: bool,
    gotHeaderSection: bool,
    loggingStarted: bool,
    ulogMessage: seq<byte>,
    file: seq<byte>,
    lastSequence: int,
    numDropouts: nat,
    acksSent: seq<int>)

  const INITIAL := State(false, false, false, [], [], -1, 0, [])

  /** A ULog dropout message; the duration is a guess of 10 ms for each lost payload. */
  function DropoutRecord(drops: nat): (r: seq<byte>)
    ensures IsRecord(r)
  {
    [2, 0, 79, (if drops > MAX_REPORTED_DROPS then MAX_REPORTED_DROPS else drops) * 10, 0]
  }

  /** Is `sequence` newer than the last one accepted, and how many were lost in between? */
  function CheckSequence(last: int, sequence: int): (r: (bool, int)) {
    if last == -1 then (true, 0)
    else if sequence == last then (false, 0)
    else if sequence > last then
      if sequence - last > HALF then (false, 0) else (true, sequence - last - 1)
    else if last - sequence > HALF then (true, SEQUENCES - last - 1 + sequence)
    else (false, 0)
  }

  /** RFC 1982, section 3.2, with SERIAL_BITS = 16: s2 is greater than s1; undefined at distance 2^15. */
  predicate SerialGreater(s2: int, s1: int) {
    || (s1 < s2 && s2 - s1 < HALF)
    || (s1 > s2 && s1 - s2 > HALF)
  }

  predicate IsSequence(s: int) {
    0 <= s < SEQUENCES
  }

  predicate InRange(m: Message) {
    m.LoggingData? ==> IsSequence(m.sequence)
  }

  /** The comparison is that of RFC 1982, extended at the one distance the standard leaves open. */
  lemma CheckSequenceIsSerial(last: int, sequence: int)
    requires IsSequence(last) && IsSequence(sequence)
    ensures CheckSequence(last, sequence).0 <==>
            SerialGreater(sequence, last) || sequence - last == HALF
    ensures CheckSequence(last, sequence).0 ==>
            (last + CheckSequence(last, sequence).1 + 1) % SEQUENCES == sequence
  {
  }

  /** Seen through 16 bits, unbounded counters less than 2^15 apart compare as they do themselves. */
  lemma CheckSequenceRefines(last: nat, index: nat)
    requires -HALF < index - last < HALF
    ensures CheckSequence(last % SEQUENCES, index % SEQUENCES) ==
            if index > last then (true, index - last - 1) else (false, 0)
  {
  }

  /** The bound is tight: 2^15 steps ahead, whether the payload is accepted depends on where the count wraps. */
  lemma CheckSequenceAtHalf(last: nat)
    ensures CheckSequence(last % SEQUENCES, (last + HALF) % SEQUENCES).0 <==> last % SEQUENCES < HALF
    ensures CheckSequence((last + HALF) % SEQUENCES, last % SEQUENCES).0 <==> last % SEQUENCES >= HALF
  {
  }

  /** `read_message` on a message that has arrived. */
  function Read(st: State, m: Message): (Result<Option<Piece>, Error>, State) {
    match m
    case CommandAck(command, result) =>
      if command == CMD_LOGGING_START && !st.gotHeaderSection then
        if result == 0 then (Ok(None), st.(loggingStarted := true))
        else (Err(LoggingStartFailed(result)), st)
      else (Ok(None), st)
    case LoggingData(acked, sequence, length, firstOffset, data) =>
      var (newer, drops) := CheckSequence(st.lastSequence, sequence);
      var st1 := if acked then st.(acksSent := st.acksSent + [sequence]) else st;
      if !newer then (Ok(None), st1) else
      var st2 := if drops > 0 then st1.(numDropouts := st1.numDropouts + drops) else st1;
      var st3 := if !acked && !st2.gotHeaderSection
                 then st2.(loggingStarted := true, gotHeaderSection := true) else st2;
      (Ok(Some(Piece(Take(data, length), firstOffset, if drops > 0 then drops else 0))),
       st3.(lastSequence := sequence))
  }

  /** `write_ulog_messages`: writes the complete records at the front of data; the rest is returned. */
  function Write(st: State, data: seq<byte>): (State, seq<byte>) {
    var (records, rest) := SplitRecords(data);
    (st.(file := st.file + Flatten(records)), rest)
  }

  /** `process_streamed_ulog_data` once the file header has been taken off. */
  function ProcessBody(st: State, p: Piece): State {
    var st1 := if st.gotHeaderSection && p.drops > 0
               then st.(file := st.file + DropoutRecord(p.drops)) else st;
    if p.drops > 0 then
      var st2 := Write(st1, st1.ulogMessage).0.(ulogMessage := []);
      if p.firstOffset == NO_MESSAGE_STARTS then st2 else
      var (st3, rest) := Write(st2, Drop(p.data, p.firstOffset));
      st3.(ulogMessage := rest)
    else if p.firstOffset == NO_MESSAGE_STARTS && st1.ulogMessage != [] then
      st1.(ulogMessage := st1.ulogMessage + p.data)
    else
      var st2 := if st1.ulogMessage != []
                 then st1.(file := st1.file + (st1.ulogMessage + Take(p.data, p.firstOffset)), ulogMessage := [])
                 else st1;
      var (st3, rest) := Write(st2, Drop(p.data, p.firstOffset));
      st3.(ulogMessage := rest)
  }

  /** `process_streamed_ulog_data`. */
  function Process(st: State, p: Piece): Result<State, Error> {
    if st.gotUlogHeader then Ok(ProcessBody(st, p))
    else if |p.data| < HEADER_LENGTH then Err(FirstMessageTooShort)
    else Ok(ProcessBody(st.(gotUlogHeader := true, file := st.file + p.data[..HEADER_LENGTH]),
                        p.(data := p.data[HEADER_LENGTH..])))
  }

  /** One round of the main loop on a message that has arrived. */
  function OnMessage(st: State, m: Message): Result<State, Error> {
    match Read(st, m)
    case (Err(e), _) => Err(e)
    case (Ok(None), st1) => Ok(st1)
    case (Ok(Some(p)), st1) => Process(st1, p)
  }

  /** Records taken off the front, and what the rest splits into. */
  function Taken(records: seq<seq<byte>>, rest: seq<byte>): (seq<seq<byte>>, seq<byte>) {
    (records + SplitRecords(rest).0, SplitRecords(rest).1)
  }

  lemma TakeRecord(records: seq<seq<byte>>, rest: seq<byte>, n: nat)
    requires |rest| > 2 && n == ClaimedLength(rest) <= |rest|
    ensures Taken(records, rest) == Taken(records + [rest[..n]], rest[n..])
  {
    ConcatAssociative(records, [rest[..n]], SplitRecords(rest[n..]).0);
  }

  class MavlinkLogStreaming {
    var gotUlogHeader: bool
    var gotHeaderSection: bool
    var loggingStarted: bool
    var ulogMessage: seq<byte>
    var file: seq<byte>
    var lastSequence: int
    var numDropouts: nat
    var acksSent: seq<int>

    ghost function Now(): State
      reads this
    {
      State(gotUlogHeader, gotHeaderSection, loggingStarted, ulogMessage, file, lastSequence, numDropouts, acksSent)
    }

    constructor ()
      ensures Now() == INITIAL
    {
      gotUlogHeader, gotHeaderSection, loggingStarted := false, false, false;
      ulogMessage, file, lastSequence, numDropouts, acksSent := [], [], -1, 0, [];
    }

    method ReadMessage(m: Message) returns (r: Result<Option<Piece>, Error>)
      requires InRange(m) && (lastSequence == -1 || IsSequence(lastSequence))
      modifies this
      ensures (r, Now()) == Read(old(Now()), m)
      ensures lastSequence == -1 || IsSequence(lastSequence)
    {
      if m.CommandAck? {
        if m.command == CMD_LOGGING_START && !gotHeaderSection {
          if m.result == 0 {
            loggingStarted := true;
          } else {
            return Err(LoggingStartFailed(m.result));
          }
        }
        return Ok(None);
      }
      var (isNewer, numDrops) := CheckSequence(lastSequence, m.sequence);
      if m.acked {
        acksSent := acksSent + [m.sequence];
      }
      if isNewer {
        if numDrops > 0 {
          numDropouts := numDropouts + numDrops;
        }
        if !m.acked {
          if !gotHeaderSection {
            loggingStarted := true;
            gotHeaderSection := true;
          }
        }
        lastSequence := m.sequence;
        return Ok(Some(Piece(Take(m.data, m.length), m.firstOffset, numDrops)));
      }
      return Ok(None);
    }

    method WriteUlogMessages(data: seq<byte>) returns (rest: seq<byte>)
      modifies this
      ensures (Now(), rest) == Write(old(Now()), data)
    {
      rest := data;
      ghost var whole, records := SplitRecords(data), [];
      assert records + whole.0 == whole.0;
      while |rest| > 2
        invariant Now() == old(Now()).(file := old(file) + Flatten(records))
        invariant whole == Taken(records, rest)
        decreases |rest|
      {
        var messageLength := ClaimedLength(rest);
        if messageLength > |rest| {
          break;
        }
        file := file + rest[..messageLength];
        FlattenSnoc(records, rest[..messageLength]);
        TakeRecord(records, rest, messageLength);
        records := records + [rest[..messageLength]];
        rest := rest[messageLength..];
      }
      assert SplitRecords(rest) == ([], rest);
      assert records + [] == records;
    }

    method ProcessStreamedUlogData(p: Piece) returns (r: Result<(), Error>)
      modifies this
      ensures match Process(old(Now()), p)
              case Ok(st) => r == Ok(()) && Now() == st
              case Err(e) => r == Err(e) && Now() == old(Now())
    {
      var data, firstOffset := p.data, p.firstOffset;
      if !gotUlogHeader {
        if |data| < HEADER_LENGTH {
          return Err(FirstMessageTooShort);
        }
        file := file + data[..HEADER_LENGTH];
        data := data[HEADER_LENGTH..];
        gotUlogHeader := true;
      }
      if gotHeaderSection && p.drops > 0 {
        file := file + DropoutRecord(p.drops);
      }
      if p.drops > 0 {
        var _ := WriteUlogMessages(ulogMessage);
        ulogMessage := [];
        if firstOffset == NO_MESSAGE_STARTS {
          return Ok(());
        }
        data := Drop(data, firstOffset);
        firstOffset := 0;
      }
      if firstOffset == NO_MESSAGE_STARTS && |ulogMessage| > 0 {
        ulogMessage := ulogMessage + data;
        return Ok(());
      }
      if |ulogMessage| > 0 {
        file := file + (ulogMessage + Take(data, firstOffset));
        ulogMessage := [];
      }
      assert p.drops > 0 ==> Drop(data, firstOffset) == data;
      data := WriteUlogMessages(Drop(data, firstOffset));
      ulogMessage := data;
      return Ok(());
    }

    /** The body of the main loop: read one message and process what it carries. */
    method HandleMessage(m: Message) returns (r: Result<(), Error>)
      requires InRange(m) && (lastSequence == -1 || IsSequence(lastSequence))
      modifies this
      ensures lastSequence == -1 || IsSequence(lastSequence)
      ensures match OnMessage(old(Now()), m)
              case Ok(st) => r == Ok(()) && Now() == st
              case Err(e) => r == Err(e) && Now() == Read(old(Now()), m).1
    {
      var read := ReadMessage(m);
      match read
      case Err(e) => return Err(e);
      case Ok(None) => return Ok(());
      case Ok(Some(piece)) =>
        assert Read(old(Now()), m) == (Ok(Some(piece)), Now());
        r := ProcessStreamedUlogData(piece);
    }
  }
}
