/**
 Well-formed logs: what they look like as bytes, with or without junk between packets, and what the parser
 prints for them.
 */
module Sdlog2Log {
  import opened Sequences
  import opened BlockLoop
  import opened Sdlog2Format
  import opened Sdlog2Parser

  datatype Item = Format(typ: byte, descr: Descr) | Data(typ: byte, values: seq<Value>)

  type Descrs = map<byte, Descr>

  /** A description the parser can use: known kinds, the right length, and a label for every field. */
  predicate Usable(d: Descr) {
    && Supported(d.format)
    && d.length as int == HEADER_LEN + SizeOf(d.format)
    && |d.format| <= |d.labels|
  }

  predicate AllUsable(descrs: Descrs) {
    forall t :: t in descrs ==> Usable(descrs[t])
  }

  /** May this item follow what has been described so far? */
  predicate Fitting(descrs: Descrs, item: Item) {
    match item
    case Format(t, d) => Writable(d) && (t != TYPE_FORMAT ==> Usable(d))
    case Data(t, values) => t != TYPE_FORMAT && t in descrs && Fits(descrs[t].format, values)
  }

  function Declare(descrs: Descrs, item: Item): Descrs {
    if item.Format? && item.typ != TYPE_FORMAT then descrs[item.typ := item.descr] else descrs
  }

  /** Every type is described before its data, as often as the writer likes. */
  predicate WellFormed(descrs: Descrs, log: seq<Item>)
    decreases log
  {
    log == [] || (Fitting(descrs, log[0]) && WellFormed(Declare(descrs, log[0]), log[1..]))
  }

  function Encode(descrs: Descrs, item: Item): (r: seq<byte>)
    requires Fitting(descrs, item)
    ensures |r| >= HEADER_LEN && r[0] == HEAD1 && r[1] == HEAD2
  {
    match item
    case Format(t, d) => FormatPacket(t, d)
    case Data(t, values) => [HEAD1, HEAD2, t] + PackValues(values)
  }

  /** The packets of a log. */
  function Packets(descrs: Descrs, log: seq<Item>): (r: seq<seq<byte>>)
    requires WellFormed(descrs, log)
    ensures |r| == |log|
    decreases log
  {
    if log == [] then [] else [Encode(descrs, log[0])] + Packets(Declare(descrs, log[0]), log[1..])
  }

  /** What the parser does with one item of a log. */
  function OnItem(cfg: Config, st: State, item: Item): Effected
    requires Fitting(st.descrs, item)
  {
    match item
    case Format(t, d) => ParseMsgDescr(cfg, st, t, d)
    case Data(t, values) => OnData(cfg, st, st.descrs[t], PackValues(values))
  }

  lemma InitCsvKeepsDescrs(st: State, filter: seq<(Text, Fields)>)
    ensures AddAllColumns(st, filter).descrs == st.descrs
    ensures AddAllColumns(st, filter).labels == st.labels
    ensures AddAllColumns(st, filter).csvData == st.csvData
    ensures AddAllColumns(st, filter).csvUpdated == st.csvUpdated
    decreases filter
  {
  }

  /** Items of a well-formed log raise nothing, and only FORMAT messages change what is known. */
  lemma OnItemSucceeds(cfg: Config, st: State, item: Item)
    requires AllUsable(st.descrs) && Fitting(st.descrs, item)
    ensures var e := OnItem(cfg, st, item);
            && e.error == None
            && e.state.descrs == Declare(st.descrs, item)
            && AllUsable(e.state.descrs)
  {
    match item
    case Format(t, d) =>
    case Data(t, values) =>
      UnpackPacked(st.descrs[t].format, values);
      InitCsvKeepsDescrs(st.(msgFilter := EffectiveFilter(st)), EffectiveFilter(st));
  }

  /** What the parser prints for a log, and the state it ends in. */
  function Replay(cfg: Config, st: State, log: seq<Item>): (r: (seq<Output>, State))
    requires AllUsable(st.descrs) && WellFormed(st.descrs, log)
    decreases log
  {
    if log == [] then ([], st)
    else
      OnItemSucceeds(cfg, st, log[0]);
      var e := OnItem(cfg, st, log[0]);
      var (more, last) := Replay(cfg, e.state, log[1..]);
      (e.outputs + more, last)
  }

  // ---------- Bytes to items ----------

  /** The packet alone: one turn takes it. */
  lemma NextOnPacket(cfg: Config, st: State, at: nat, item: Item)
    requires AllUsable(st.descrs) && Fitting(st.descrs, item)
    ensures Next(cfg, st, at, Encode(st.descrs, item)) == Consume(|Encode(st.descrs, item)|, OnItem(cfg, st, item))
  {
    var packet := Encode(st.descrs, item);
    match item
    case Format(t, d) =>
      DescrInPacket(t, d);
      assert packet[..FORMAT_PACKET_LEN] == packet;
    case Data(t, values) =>
      UnpackPacked(st.descrs[t].format, values);
      assert packet[HEADER_LEN..|packet|] == PackValues(values);
  }

  /** At a packet of a well-formed log, one turn takes exactly that packet. */
  lemma NextIsOnItem(cfg: Config, st: State, at: nat, item: Item, tail: seq<byte>)
    requires AllUsable(st.descrs) && Fitting(st.descrs, item)
    ensures Next(cfg, st, at, Encode(st.descrs, item) + tail)
         == Consume(|Encode(st.descrs, item)|, OnItem(cfg, st, item))
  {
    NextOnPacket(cfg, st, at, item);
    NextExtends(cfg, st, at, Encode(st.descrs, item), tail);
  }

  /** A turn waits until the whole packet is there. */
  lemma NextNeedsAll(cfg: Config, st: State, at: nat, item: Item, n: nat)
    requires AllUsable(st.descrs) && Fitting(st.descrs, item) && n < |Encode(st.descrs, item)|
    ensures Next(cfg, st, at, Encode(st.descrs, item)[..n]).NeedMore?
  {
    if item.Data? {
      UnpackPacked(st.descrs[item.typ].format, item.values);
    }
  }

  predicate NoHeadPair(junk: seq<byte>) {
    forall i :: 0 <= i < |junk| - 1 ==> !(junk[i] == HEAD1 && junk[i + 1] == HEAD2)
  }

  /** Junk the parser skips: none at all, or with recovery switched on any without the pair A3 95. */
  predicate Skippable(cfg: Config, junk: seq<byte>) {
    junk == [] || (cfg.correctErrors && NoHeadPair(junk))
  }

  predicate AllSkippable(cfg: Config, junk: seq<seq<byte>>) {
    forall i :: 0 <= i < |junk| ==> Skippable(cfg, junk[i])
  }

  predicate SkipsOne(turn: LogTurn, st: State, at: nat, bytes: seq<byte>) {
    |bytes| > 0 && turn(st, at, bytes) == Consume(1, Effect([], st, None))
  }

  /** With recovery on, a turn at anything but a header skips one byte and does nothing else. */
  ghost predicate Recovers(turn: LogTurn) {
    forall st, at, bytes {:trigger SkipsOne(turn, st, at, bytes)} ::
      |bytes| >= HEADER_LEN && !(bytes[0] == HEAD1 && bytes[1] == HEAD2) ==> SkipsOne(turn, st, at, bytes)
  }

  lemma SkipOne(turn: LogTurn, st: State, at: nat, bytes: seq<byte>)
    requires SkipsOne(turn, st, at, bytes)
    ensures Drain(turn, st, at, bytes) == Drain(turn, st, at + 1, bytes[1..])
  {
  }

  lemma NoHeadPairTail(junk: seq<byte>)
    requires NoHeadPair(junk) && |junk| > 0
    ensures NoHeadPair(junk[1..])
  {
  }

  /** One byte of junk, and more behind it. */
  lemma SkipByte(turn: LogTurn, st: State, at: nat, junk: seq<byte>, part: seq<byte>)
    requires Recovers(turn) && NoHeadPair(junk) && junk != []
    requires (part == [] || part[0] == HEAD1) && |junk| + |part| >= HEADER_LEN
    ensures Drain(turn, st, at, junk + part) == Drain(turn, st, at + 1, junk[1..] + part)
  {
    var here := junk + part;
    assert here[0] == junk[0] && here[1] == (if |junk| > 1 then junk[1] else part[0]);
    assert SkipsOne(turn, st, at, here);
    SkipOne(turn, st, at, here);
    assert here[1..] == junk[1..] + part;
  }

  /** Skipping ends exactly at the packet, also when the junk ends in the first byte of a header. */
  lemma {:induction false} SkipJunk(turn: LogTurn, st: State, at: nat, junk: seq<byte>, bytes: seq<byte>)
    requires junk == [] || (Recovers(turn) && NoHeadPair(junk))
    requires |bytes| >= HEADER_LEN && bytes[0] == HEAD1
    ensures Drain(turn, st, at, junk + bytes) == Drain(turn, st, at + |junk|, bytes)
    decreases |junk|
  {
    if junk == [] {
      assert junk + bytes == bytes;
    } else {
      SkipByte(turn, st, at, junk, bytes);
      NoHeadPairTail(junk);
      SkipJunk(turn, st, at + 1, junk[1..], bytes);
    }
  }

  /** The last bytes of a file that are too few for a header. */
  function Stub(junk: seq<byte>): seq<byte> {
    if |junk| < HEADER_LEN then junk else junk[|junk| - HEADER_LEN + 1..]
  }

  lemma StubOfTail(junk: seq<byte>)
    requires |junk| >= HEADER_LEN
    ensures Stub(junk[1..]) == Stub(junk)
  {
  }

  ghost predicate WaitsForHeader(turn: LogTurn) {
    forall st, at, bytes {:trigger Waiting(turn, st, at, bytes)} ::
      |bytes| < HEADER_LEN ==> Waiting(turn, st, at, bytes)
  }

  lemma {:induction false} SkipTrailing(turn: LogTurn, st: State, at: nat, junk: seq<byte>)
    requires WaitsForHeader(turn)
    requires junk == [] || (Recovers(turn) && NoHeadPair(junk))
    ensures Drain(turn, st, at, junk) == EndOf(at, junk, junk, [], st)
    decreases |junk|
  {
    if |junk| < HEADER_LEN {
      assert Waiting(turn, st, at, junk);
    } else {
      SkipByte(turn, st, at, junk, []);
      assert junk + [] == junk && junk[1..] + [] == junk[1..];
      NoHeadPairTail(junk);
      SkipTrailing(turn, st, at + 1, junk[1..]);
      StubOfTail(junk);
    }
  }

  /** Where the loop ends on bytes followed by trailing junk. */
  function EndOf(at: nat, bytes: seq<byte>, trailing: seq<byte>, outputs: seq<Output>, last: State)
    : Progress<State, Output, Error>
    requires |trailing| <= |bytes|
  {
    Progress(outputs, last, at + |bytes| - |Stub(trailing)|, Stub(trailing), None)
  }

  /** At this packet the turn takes the packet, with this effect. */
  predicate Takes(turn: LogTurn, st: State, at: nat, packet: seq<byte>, tail: seq<byte>, e: Effected) {
    turn(st, at, packet + tail) == Consume(|packet|, e)
  }

  /** Junk, one packet, and whatever follows: the packet's effect, then the rest. */
  lemma DrainJunkAndOne(turn: LogTurn, st: State, at: nat, junk: seq<byte>, packet: seq<byte>, tail: seq<byte>,
                        e: Effected)
    requires junk == [] || (Recovers(turn) && NoHeadPair(junk))
    requires |packet| >= HEADER_LEN && packet[0] == HEAD1
    requires Takes(turn, st, at + |junk|, packet, tail, e) && e.error == None
    ensures Drain(turn, st, at, junk + (packet + tail))
         == After(e.outputs, Drain(turn, e.state, at + |junk| + |packet|, tail))
  {
    assert (packet + tail)[0] == packet[0];
    SkipJunk(turn, st, at, junk, packet + tail);
    assert (packet + tail)[|packet|..] == tail;
    DrainTakes(turn, st, at + |junk|, packet + tail, |packet|, e);
  }

  /** A turn that treats the packets of well-formed logs as it should, and the bytes between them. */
  ghost predicate ReadsLogs(cfg: Config, turn: LogTurn) {
    && (cfg.correctErrors ==> Recovers(turn))
    && WaitsForHeader(turn)
    && (forall st: State, at, item, tail {:trigger TakesItem(cfg, turn, st, at, item, tail)} ::
          AllUsable(st.descrs) && Fitting(st.descrs, item) ==> TakesItem(cfg, turn, st, at, item, tail))
    && (forall st: State, at, item, n: nat {:trigger WaitsForItem(turn, st, at, item, n)} ::
          AllUsable(st.descrs) && Fitting(st.descrs, item) && n < |Encode(st.descrs, item)| ==>
            WaitsForItem(turn, st, at, item, n))
  }

  predicate TakesItem(cfg: Config, turn: LogTurn, st: State, at: nat, item: Item, tail: seq<byte>)
    requires Fitting(st.descrs, item)
  {
    Takes(turn, st, at, Encode(st.descrs, item), tail, OnItem(cfg, st, item))
  }

  predicate WaitsForItem(turn: LogTurn, st: State, at: nat, item: Item, n: nat)
    requires Fitting(st.descrs, item) && n < |Encode(st.descrs, item)|
  {
    Waiting(turn, st, at, Encode(st.descrs, item)[..n])
  }

  lemma TurnReadsLogs(cfg: Config)
    ensures ReadsLogs(cfg, TurnOf(cfg))
  {
    forall st: State, at: nat, item, tail: seq<byte> | AllUsable(st.descrs) && Fitting(st.descrs, item)
      ensures TakesItem(cfg, TurnOf(cfg), st, at, item, tail)
    {
      NextIsOnItem(cfg, st, at, item, tail);
    }
    forall st: State, at: nat, item, n: nat | AllUsable(st.descrs) && Fitting(st.descrs, item)
                                              && n < |Encode(st.descrs, item)|
      ensures WaitsForItem(TurnOf(cfg), st, at, item, n)
    {
      NextNeedsAll(cfg, st, at, item, n);
    }
  }

  /** Junk, a packet, and what a turn does when it takes the packet. */
  datatype Move = Move(junk: seq<byte>, packet: seq<byte>, effect: Effected)

  ghost predicate IsMove(turn: LogTurn, st: State, m: Move) {
    && (m.junk == [] || (Recovers(turn) && NoHeadPair(m.junk)))
    && |m.packet| >= HEADER_LEN && m.packet[0] == HEAD1 && m.effect.error == None
    && forall at, tail {:trigger Takes(turn, st, at, m.packet, tail, m.effect)} ::
         Takes(turn, st, at, m.packet, tail, m.effect)
  }

  ghost predicate AreMoves(turn: LogTurn, st: State, moves: seq<Move>)
    decreases |moves|
  {
    moves == [] || (IsMove(turn, st, moves[0]) && AreMoves(turn, moves[0].effect.state, moves[1..]))
  }

  function BytesOf(moves: seq<Move>): seq<byte> {
    if moves == [] then [] else moves[0].junk + (moves[0].packet + BytesOf(moves[1..]))
  }

  function OutputsOf(moves: seq<Move>): seq<Output> {
    if moves == [] then [] else moves[0].effect.outputs + OutputsOf(moves[1..])
  }

  function StateAfter(st: State, moves: seq<Move>): State
    decreases |moves|
  {
    if moves == [] then st else StateAfter(moves[0].effect.state, moves[1..])
  }

  lemma ConcatFirst(junk: seq<byte>, packet: seq<byte>, later: seq<byte>, rest: seq<byte>)
    ensures junk + (packet + later) + rest == junk + (packet + (later + rest))
  {
  }

  /** If the later moves are made as they should, so they are with one more in front. */
  lemma MoveFirst(turn: LogTurn, st: State, at: nat, m: Move, tail: seq<byte>, more: seq<Output>,
                  end: Progress<State, Output, Error>)
    requires IsMove(turn, st, m)
    requires Drain(turn, m.effect.state, at + |m.junk| + |m.packet|, tail) == After(more, end)
    ensures Drain(turn, st, at, m.junk + (m.packet + tail)) == After(m.effect.outputs + more, end)
  {
    assert Takes(turn, st, at + |m.junk|, m.packet, tail, m.effect);
    DrainJunkAndOne(turn, st, at, m.junk, m.packet, tail, m.effect);
    AfterTwice(m.effect.outputs, more, end);
  }

  /** The loop makes the moves one after the other, and goes on with what follows. */
  lemma {:induction false} DrainMoves(turn: LogTurn, st: State, at: nat, moves: seq<Move>, rest: seq<byte>)
    requires AreMoves(turn, st, moves)
    ensures Drain(turn, st, at, BytesOf(moves) + rest)
         == After(OutputsOf(moves), Drain(turn, StateAfter(st, moves), at + |BytesOf(moves)|, rest))
    decreases |moves|
  {
    if moves == [] {
      assert [] + rest == rest;
      AfterNothing(Drain(turn, st, at, rest));
    } else {
      var m, later := moves[0], moves[1..];
      var end := Drain(turn, StateAfter(st, moves), at + |BytesOf(moves)|, rest);
      DrainMoves(turn, m.effect.state, at + |m.junk| + |m.packet|, later, rest);
      MoveFirst(turn, st, at, m, BytesOf(later) + rest, OutputsOf(later), end);
      ConcatFirst(m.junk, m.packet, BytesOf(later), rest);
    }
  }

  /** One item of a log is a move. */
  lemma ItemIsMove(cfg: Config, turn: LogTurn, st: State, junk: seq<byte>, item: Item) returns (m: Move)
    requires ReadsLogs(cfg, turn) && Skippable(cfg, junk)
    requires AllUsable(st.descrs) && Fitting(st.descrs, item)
    ensures m == Move(junk, Encode(st.descrs, item), OnItem(cfg, st, item)) && IsMove(turn, st, m)
  {
    OnItemSucceeds(cfg, st, item);
    m := Move(junk, Encode(st.descrs, item), OnItem(cfg, st, item));
    forall at, tail ensures Takes(turn, st, at, m.packet, tail, m.effect) {
      assert TakesItem(cfg, turn, st, at, item, tail);
    }
  }

  /** The bytes of a log, junk or not, are moves that do what the items say. */
  lemma {:induction false} LogIsMoves(cfg: Config, turn: LogTurn, st: State, junk: seq<seq<byte>>, log: seq<Item>)
    returns (moves: seq<Move>)
    requires ReadsLogs(cfg, turn)
    requires AllUsable(st.descrs) && WellFormed(st.descrs, log) && |junk| == |log|
    requires AllSkippable(cfg, junk)
    ensures AreMoves(turn, st, moves) && BytesOf(moves) == Weave(junk, Packets(st.descrs, log))
    ensures Replay(cfg, st, log) == (OutputsOf(moves), StateAfter(st, moves))
    decreases log
  {
    if log == [] {
      moves := [];
    } else {
      var m := ItemIsMove(cfg, turn, st, junk[0], log[0]);
      OnItemSucceeds(cfg, st, log[0]);
      var later := LogIsMoves(cfg, turn, m.effect.state, junk[1..], log[1..]);
      moves := [m] + later;
      assert moves[1..] == later;
      assert Packets(st.descrs, log)[1..] == Packets(m.effect.state.descrs, log[1..]);
    }
  }

  /** On the bytes of a log, junk or not, the loop does what the items say, and goes on with what follows. */
  lemma DrainIsReplay(cfg: Config, turn: LogTurn, st: State, at: nat, junk: seq<seq<byte>>, log: seq<Item>,
                      rest: seq<byte>)
    requires ReadsLogs(cfg, turn)
    requires AllUsable(st.descrs) && WellFormed(st.descrs, log) && |junk| == |log|
    requires AllSkippable(cfg, junk)
    ensures var (outputs, last) := Replay(cfg, st, log);
            var woven := Weave(junk, Packets(st.descrs, log));
            Drain(turn, st, at, woven + rest) == After(outputs, Drain(turn, last, at + |woven|, rest))
  {
    var moves := LogIsMoves(cfg, turn, st, junk, log);
    DrainMoves(turn, st, at, moves, rest);
  }

  // ---------- The log as far as it was read ----------

  /** How many packets are complete within the first `n` bytes of a file. */
  function Complete(junk: seq<seq<byte>>, packets: seq<seq<byte>>, n: nat): (k: nat)
    requires |junk| == |packets|
    ensures k <= |packets|
  {
    if packets == [] then 0
    else
      var size := |junk[0]| + |packets[0]|;
      if n < size then 0 else 1 + Complete(junk[1..], packets[1..], n - size)
  }

  /** What of a file cut off behind `n` bytes is left behind its complete packets. */
  function CutOff(junk: seq<seq<byte>>, packets: seq<seq<byte>>, trailing: seq<byte>, n: nat): seq<byte>
    requires |junk| == |packets|
  {
    if packets == [] then Take(trailing, n)
    else
      var size := |junk[0]| + |packets[0]|;
      if n < size then (junk[0] + packets[0])[..n] else CutOff(junk[1..], packets[1..], trailing, n - size)
  }

  /** What is left is less than the next junk and packet, or part of the trailing junk. */
  lemma {:induction false} CutOffIsShort(junk: seq<seq<byte>>, packets: seq<seq<byte>>, trailing: seq<byte>, n: nat)
    requires |junk| == |packets|
    ensures var k := Complete(junk, packets, n);
            var left := CutOff(junk, packets, trailing, n);
            if k < |packets| then |left| < |junk[k]| + |packets[k]| && left == (junk[k] + packets[k])[..|left|]
            else |left| <= |trailing| && left == trailing[..|left|]
    decreases |packets|
  {
    if packets != [] && n >= |junk[0]| + |packets[0]| {
      CutOffIsShort(junk[1..], packets[1..], trailing, n - |junk[0]| - |packets[0]|);
    }
  }

  /** The first `n` bytes of a file that begins with junk and a packet. */
  lemma PrefixSplits(junk: seq<byte>, packet: seq<byte>, tail: seq<byte>, n: nat)
    requires n <= |junk| + |packet| + |tail|
    ensures n < |junk| + |packet| ==> (junk + (packet + tail))[..n] == (junk + packet)[..n]
    ensures n >= |junk| + |packet| ==>
              (junk + (packet + tail))[..n] == junk + (packet + tail[..n - |junk| - |packet|])
  {
  }

  /** A file that is cut off anywhere: its complete packets, and what is left. */
  lemma {:induction false} CutSplits(junk: seq<seq<byte>>, packets: seq<seq<byte>>, trailing: seq<byte>, n: nat,
                                     k: nat)
    requires |junk| == |packets| && k == Complete(junk, packets, n)
    requires n <= |Weave(junk, packets) + trailing|
    ensures (Weave(junk, packets) + trailing)[..n]
         == Weave(junk[..k], packets[..k]) + CutOff(junk, packets, trailing, n)
    decreases |packets|
  {
    if packets == [] {
      assert Weave(junk, packets) + trailing == trailing;
    } else {
      var later := Weave(junk[1..], packets[1..]);
      ConcatFirst(junk[0], packets[0], later, trailing);
      PrefixSplits(junk[0], packets[0], later + trailing, n);
      if k > 0 {
        CutSplits(junk[1..], packets[1..], trailing, n - |junk[0]| - |packets[0]|, k - 1);
        assert packets[..k][1..] == packets[1..][..k - 1] && junk[..k][1..] == junk[1..][..k - 1];
        ConcatFirst(junk[0], packets[0], Weave(junk[..k][1..], packets[..k][1..]), CutOff(junk, packets, trailing, n));
      }
    }
  }

  /** The descriptions after a log. */
  function Described(descrs: Descrs, log: seq<Item>): Descrs
    decreases log
  {
    if log == [] then descrs else Described(Declare(descrs, log[0]), log[1..])
  }

  /** The packets of a log up to any item, and the next one. */
  lemma {:induction false} PacketsUpTo(descrs: Descrs, log: seq<Item>, k: nat)
    requires WellFormed(descrs, log) && k <= |log|
    ensures WellFormed(descrs, log[..k]) && Packets(descrs, log[..k]) == Packets(descrs, log)[..k]
    ensures k < |log| ==> var now := Described(descrs, log[..k]);
                          Fitting(now, log[k]) && Packets(descrs, log)[k] == Encode(now, log[k])
    decreases log
  {
    if k > 0 {
      PacketsUpTo(Declare(descrs, log[0]), log[1..], k - 1);
      assert log[..k][1..] == log[1..][..k - 1];
    }
  }

  lemma {:induction false} ReplayDescribes(cfg: Config, st: State, log: seq<Item>)
    requires AllUsable(st.descrs) && WellFormed(st.descrs, log)
    ensures Replay(cfg, st, log).1.descrs == Described(st.descrs, log) && AllUsable(Described(st.descrs, log))
    decreases log
  {
    if log != [] {
      OnItemSucceeds(cfg, st, log[0]);
      ReplayDescribes(cfg, OnItem(cfg, st, log[0]).state, log[1..]);
    }
  }

  /** The loop has done nothing but skip bytes. */
  predicate Idle<S(==), O(==), E>(p: Progress<S, O, E>, st: S) {
    p.outputs == [] && p.state == st && p.error.None?
  }

  /** Junk, and then a piece too short for a turn: nothing happens. */
  lemma {:induction false} DrainStalls(turn: LogTurn, st: State, at: nat, junk: seq<byte>, part: seq<byte>)
    requires junk == [] || (Recovers(turn) && NoHeadPair(junk))
    requires WaitsForHeader(turn)
    requires (part == [] || part[0] == HEAD1) && Waiting(turn, st, at + |junk|, part)
    ensures Idle(Drain(turn, st, at, junk + part), st)
    decreases |junk|
  {
    if junk == [] {
      assert junk + part == part;
    } else if |junk| + |part| < HEADER_LEN {
      assert Waiting(turn, st, at, junk + part);
    } else {
      SkipByte(turn, st, at, junk, part);
      NoHeadPairTail(junk);
      DrainStalls(turn, st, at + 1, junk[1..], part);
    }
  }

  /** Less than junk and one packet: nothing happens. */
  lemma DrainTooShort(turn: LogTurn, st: State, at: nat, junk: seq<byte>, packet: seq<byte>, n: nat)
    requires junk == [] || (Recovers(turn) && NoHeadPair(junk))
    requires WaitsForHeader(turn) && packet != [] && packet[0] == HEAD1
    requires forall k: nat {:trigger packet[..k]} | k < |packet| :: Waiting(turn, st, at + |junk|, packet[..k])
    requires n < |junk| + |packet|
    ensures Idle(Drain(turn, st, at, (junk + packet)[..n]), st)
  {
    if n <= |junk| {
      assert (junk + packet)[..n] == junk[..n] + [];
      DrainStalls(turn, st, at, junk[..n], []);
    } else {
      var k := n - |junk|;
      assert (junk + packet)[..n] == junk + packet[..k];
      DrainStalls(turn, st, at, junk, packet[..k]);
    }
  }

  /** In front of a packet that is cut off, the parser waits for the rest of it. */
  lemma ItemTooShort(cfg: Config, turn: LogTurn, st: State, at: nat, junk: seq<byte>, item: Item, n: nat)
    requires ReadsLogs(cfg, turn) && Skippable(cfg, junk)
    requires AllUsable(st.descrs) && Fitting(st.descrs, item)
    requires n < |junk| + |Encode(st.descrs, item)|
    ensures Idle(Drain(turn, st, at, (junk + Encode(st.descrs, item))[..n]), st)
  {
    var packet := Encode(st.descrs, item);
    forall m: nat | m < |packet| ensures Waiting(turn, st, at + |junk|, packet[..m]) {
      assert WaitsForItem(turn, st, at + |junk|, item, m);
    }
    DrainTooShort(turn, st, at, junk, packet, n);
  }

  /** Part of the trailing junk does nothing either. */
  lemma TrailingTooShort(cfg: Config, turn: LogTurn, st: State, at: nat, trailing: seq<byte>, n: nat)
    requires ReadsLogs(cfg, turn) && Skippable(cfg, trailing) && n <= |trailing|
    ensures Idle(Drain(turn, st, at, trailing[..n]), st)
  {
    assert trailing[..n] + [] == trailing[..n];
    assert Waiting(turn, st, at + n, []);
    DrainStalls(turn, st, at, trailing[..n], []);
  }

  /** What the loop did is what the replay of these items does. */
  predicate Replayed(cfg: Config, st: State, items: seq<Item>, p: Progress<State, Output, Error>)
    requires AllUsable(st.descrs) && WellFormed(st.descrs, items)
  {
    p.error.None? && (p.outputs, p.state) == Replay(cfg, st, items)
  }

  /** Complete items, and then bytes on which nothing happens. */
  lemma ReplayThenIdle(cfg: Config, turn: LogTurn, st: State, at: nat, junk: seq<seq<byte>>, items: seq<Item>,
                       woven: seq<byte>, rest: seq<byte>, last: State)
    requires ReadsLogs(cfg, turn)
    requires AllUsable(st.descrs) && WellFormed(st.descrs, items) && |junk| == |items|
    requires AllSkippable(cfg, junk) && last == Replay(cfg, st, items).1
    requires woven == Weave(junk, Packets(st.descrs, items))
    requires Idle(Drain(turn, last, at + |woven|, rest), last)
    ensures Replayed(cfg, st, items, Drain(turn, st, at, woven + rest))
  {
    DrainIsReplay(cfg, turn, st, at, junk, items, rest);
    var outputs := Replay(cfg, st, items).0;
    assert outputs + [] == outputs;
  }

  /** Behind the complete items, nothing happens on what is left. */
  lemma CutOffIsIdle(cfg: Config, turn: LogTurn, st: State, at: nat, junk: seq<seq<byte>>, log: seq<Item>,
                     trailing: seq<byte>, n: nat, packets: seq<seq<byte>>, k: nat, last: State)
    requires ReadsLogs(cfg, turn)
    requires AllUsable(st.descrs) && WellFormed(st.descrs, log) && |junk| == |log|
    requires AllSkippable(cfg, junk) && Skippable(cfg, trailing)
    requires packets == Packets(st.descrs, log) && k == Complete(junk, packets, n)
    requires WellFormed(st.descrs, log[..k]) && last == Replay(cfg, st, log[..k]).1
    ensures Idle(Drain(turn, last, at, CutOff(junk, packets, trailing, n)), last)
  {
    var left := CutOff(junk, packets, trailing, n);
    CutOffIsShort(junk, packets, trailing, n);
    PacketsUpTo(st.descrs, log, k);
    ReplayDescribes(cfg, st, log[..k]);
    if k < |log| {
      ItemTooShort(cfg, turn, last, at, junk[k], log[k], |left|);
    } else {
      TrailingTooShort(cfg, turn, last, at, trailing, |left|);
    }
  }

  /** The complete items of a file that is cut off, and what is left of it. */
  lemma DrainItems(cfg: Config, turn: LogTurn, st: State, at: nat, junk: seq<seq<byte>>, log: seq<Item>,
                   trailing: seq<byte>, n: nat, packets: seq<seq<byte>>, items: seq<Item>)
    requires ReadsLogs(cfg, turn)
    requires AllUsable(st.descrs) && WellFormed(st.descrs, log) && |junk| == |log|
    requires AllSkippable(cfg, junk) && Skippable(cfg, trailing)
    requires packets == Packets(st.descrs, log)
    requires items == log[..Complete(junk, packets, n)] && WellFormed(st.descrs, items)
    ensures var bytes := Weave(junk[..|items|], packets[..|items|]) + CutOff(junk, packets, trailing, n);
            Replayed(cfg, st, items, Drain(turn, st, at, bytes))
  {
    var k := |items|;
    var last := Replay(cfg, st, items).1;
    PacketsUpTo(st.descrs, log, k);
    var woven := Weave(junk[..k], packets[..k]);
    CutOffIsIdle(cfg, turn, st, at + |woven|, junk, log, trailing, n, packets, k, last);
    ReplayThenIdle(cfg, turn, st, at, junk[..k], items, woven, CutOff(junk, packets, trailing, n), last);
  }

  /** On a file that is cut off anywhere, the loop does what the complete items say. */
  lemma DrainPrefix(cfg: Config, turn: LogTurn, st: State, at: nat, junk: seq<seq<byte>>, log: seq<Item>,
                    trailing: seq<byte>, n: nat, packets: seq<seq<byte>>, items: seq<Item>)
    requires ReadsLogs(cfg, turn)
    requires AllUsable(st.descrs) && WellFormed(st.descrs, log) && |junk| == |log|
    requires AllSkippable(cfg, junk) && Skippable(cfg, trailing)
    requires packets == Packets(st.descrs, log) && n <= |Weave(junk, packets) + trailing|
    requires items == log[..Complete(junk, packets, n)] && WellFormed(st.descrs, items)
    ensures Replayed(cfg, st, items, Drain(turn, st, at, (Weave(junk, packets) + trailing)[..n]))
  {
    CutSplits(junk, packets, trailing, n, |items|);
    DrainItems(cfg, turn, st, at, junk, log, trailing, n, packets, items);
  }

  /** On a whole log, nothing but a stub of trailing junk is left. */
  lemma DrainLog(cfg: Config, turn: LogTurn, st: State, at: nat, junk: seq<seq<byte>>, log: seq<Item>,
                 trailing: seq<byte>)
    requires ReadsLogs(cfg, turn)
    requires AllUsable(st.descrs) && WellFormed(st.descrs, log) && |junk| == |log|
    requires AllSkippable(cfg, junk) && Skippable(cfg, trailing)
    ensures var (outputs, last) := Replay(cfg, st, log);
            var file := Weave(junk, Packets(st.descrs, log)) + trailing;
            Drain(turn, st, at, file) == EndOf(at, file, trailing, outputs, last)
  {
    var (outputs, last) := Replay(cfg, st, log);
    DrainIsReplay(cfg, turn, st, at, junk, log, trailing);
    SkipTrailing(turn, last, at + |Weave(junk, Packets(st.descrs, log))|, trailing);
    assert outputs + [] == outputs;
  }

  /**
   The whole tool on a well-formed log: whatever the block size, and with recovery on whatever junk without the
   pair A3 95 lies between the packets, it raises nothing, leaves nothing but a stub of trailing junk, and ends
   knowing what the log says; it prints all the log says in order, and unless rows are grouped by time nothing
   else.
   */
  lemma LogRoundTrip(cfg: Config, filter: seq<(Text, Fields)>, junk: seq<seq<byte>>, log: seq<Item>,
                     trailing: seq<byte>, blocks: seq<seq<byte>>)
    requires WellFormed(map[], log) && |junk| == |log|
    requires AllSkippable(cfg, junk) && Skippable(cfg, trailing)
    requires Flatten(blocks) == Weave(junk, Packets(map[], log)) + trailing
    ensures var p := Feed(TurnOf(cfg), EndBlockOf(cfg), Reset(cfg, filter), 0, [], blocks);
            var (outputs, last) := Replay(cfg, Reset(cfg, filter), log);
            && p.error == None
            && p.state == last
            && p.rest == Stub(trailing)
            && Subsequence(outputs, p.outputs)
            && (cfg.debugOut || cfg.timeMsg == None ==> p.outputs == outputs)
  {
    var st := Reset(cfg, filter);
    TurnsAreLocal(cfg);
    FeedIsDrain(TurnOf(cfg), EndBlockOf(cfg), st, 0, [], blocks);
    FeedKeepsOutputs(TurnOf(cfg), EndBlockOf(cfg), st, 0, [], blocks);
    assert [] + Flatten(blocks) == Flatten(blocks);
    TurnReadsLogs(cfg);
    DrainLog(cfg, TurnOf(cfg), st, 0, junk, log, trailing);
  }

  // ---------- What the blocks print ----------

  /** How many items are complete at the end of each block, when `done` bytes precede the blocks. */
  function Arrived(junk: seq<seq<byte>>, packets: seq<seq<byte>>, done: nat, blocks: seq<seq<byte>>): (r: seq<nat>)
    requires |junk| == |packets|
    ensures |r| == |blocks| && forall i :: 0 <= i < |r| ==> r[i] <= |packets|
    decreases |blocks|
  {
    if blocks == [] then []
    else
      var now := done + |blocks[0]|;
      [Complete(junk, packets, now)] + Arrived(junk, packets, now, blocks[1..])
  }

  /** The first `k` items of a log, replayed. */
  function ReplayUpTo(cfg: Config, st: State, log: seq<Item>, k: nat): (seq<Output>, State)
    requires AllUsable(st.descrs) && WellFormed(st.descrs, log) && k <= |log|
  {
    PacketsUpTo(st.descrs, log, k);
    Replay(cfg, st, log[..k])
  }

  /** What is printed when `counts` items are complete at the ends of the blocks, and `before` items before them. */
  function ReplayInBlocks(cfg: Config, st: State, log: seq<Item>, before: nat, counts: seq<nat>): seq<Output>
    requires AllUsable(st.descrs) && WellFormed(st.descrs, log) && before <= |log|
    requires forall i :: 0 <= i < |counts| ==> counts[i] <= |log|
    decreases |counts|
  {
    if counts == [] then []
    else
      var (now, last) := ReplayUpTo(cfg, st, log, counts[0]);
      Drop(now, |ReplayUpTo(cfg, st, log, before).0|) + EndBlock(cfg, last)
      + ReplayInBlocks(cfg, st, log, counts[0], counts[1..])
  }

  /** On the first `n` bytes of the file the inner loop does what the first `k` items say. */
  predicate DoneUpTo(cfg: Config, turn: LogTurn, st: State, log: seq<Item>, file: seq<byte>, n: nat, k: nat)
    requires AllUsable(st.descrs) && WellFormed(st.descrs, log) && k <= |log| && n <= |file|
  {
    var p := Drain(turn, st, 0, file[..n]);
    p.error.None? && (p.outputs, p.state) == ReplayUpTo(cfg, st, log, k)
  }

  lemma DrainUpTo(cfg: Config, turn: LogTurn, st: State, junk: seq<seq<byte>>, log: seq<Item>, trailing: seq<byte>,
                  file: seq<byte>, packets: seq<seq<byte>>, n: nat)
    requires ReadsLogs(cfg, turn)
    requires AllUsable(st.descrs) && WellFormed(st.descrs, log) && |junk| == |log|
    requires AllSkippable(cfg, junk) && Skippable(cfg, trailing)
    requires packets == Packets(st.descrs, log) && file == Weave(junk, packets) + trailing && n <= |file|
    ensures DoneUpTo(cfg, turn, st, log, file, n, Complete(junk, packets, n))
  {
    var k := Complete(junk, packets, n);
    PacketsUpTo(st.descrs, log, k);
    DrainPrefix(cfg, turn, st, 0, junk, log, trailing, n, packets, log[..k]);
  }

  /** One block more of the file. */
  lemma PrefixGrows(file: seq<byte>, n: nat, block: seq<byte>, later: seq<byte>)
    requires n <= |file| && file[..n] + (block + later) <= file
    ensures n + |block| <= |file| && file[..n] + block == file[..n + |block|]
    ensures file[..n + |block|] + later <= file
  {
    ConcatAssociative(file[..n], block, later);
  }

  /** If the later blocks print what the replay says, so they do with one more in front. */
  lemma BlockIsReplayed(cfg: Config, turn: LogTurn, end: State -> seq<Output>, st: State, log: seq<Item>,
                        file: seq<byte>, done: nat, now: nat, j: nat, k: nat, blocks: seq<seq<byte>>,
                        counts: seq<nat>)
    requires forall s {:trigger EndBlock(cfg, s)} :: end(s) == EndBlock(cfg, s)
    requires AllUsable(st.descrs) && WellFormed(st.descrs, log) && j <= |log| && k <= |log|
    requires done <= |file| && now <= |file| && blocks != [] && file[..done] + blocks[0] == file[..now]
    requires DoneUpTo(cfg, turn, st, log, file, done, j) && DoneUpTo(cfg, turn, st, log, file, now, k)
    requires counts != [] && counts[0] == k && forall i :: 0 <= i < |counts| ==> counts[i] <= |log|
    requires Interleaved(turn, end, st, 0, file[..now], blocks[1..]) == ReplayInBlocks(cfg, st, log, k, counts[1..])
    ensures Interleaved(turn, end, st, 0, file[..done], blocks) == ReplayInBlocks(cfg, st, log, j, counts)
  {
  }

  /** At the end of a block as many items are done as have arrived. */
  lemma NextArrived(junk: seq<seq<byte>>, packets: seq<seq<byte>>, file: seq<byte>, done: nat,
                    blocks: seq<seq<byte>>, counts: seq<nat>)
    returns (now: nat, k: nat)
    requires |junk| == |packets| && blocks != [] && counts == Arrived(junk, packets, done, blocks)
    requires done <= |file| && file[..done] + Flatten(blocks) <= file
    ensures now <= |file| && file[..done] + blocks[0] == file[..now]
    ensures file[..now] + Flatten(blocks[1..]) <= file
    ensures k == Complete(junk, packets, now) == counts[0]
    ensures counts[1..] == Arrived(junk, packets, now, blocks[1..])
  {
    now := done + |blocks[0]|;
    k := Complete(junk, packets, now);
    PrefixGrows(file, done, blocks[0], Flatten(blocks[1..]));
  }

  lemma {:induction false} InterleavedIsReplay(cfg: Config, turn: LogTurn, end: State -> seq<Output>, st: State,
                                               junk: seq<seq<byte>>, packets: seq<seq<byte>>, log: seq<Item>,
                                               file: seq<byte>, done: nat, j: nat, blocks: seq<seq<byte>>,
                                               counts: seq<nat>)
    requires forall s {:trigger EndBlock(cfg, s)} :: end(s) == EndBlock(cfg, s)
    requires AllUsable(st.descrs) && WellFormed(st.descrs, log) && |junk| == |packets| == |log|
    requires forall n: nat {:trigger Complete(junk, packets, n)} | n <= |file| ::
               DoneUpTo(cfg, turn, st, log, file, n, Complete(junk, packets, n))
    requires done <= |file| && file[..done] + Flatten(blocks) <= file
    requires j == Complete(junk, packets, done) && counts == Arrived(junk, packets, done, blocks)
    ensures Interleaved(turn, end, st, 0, file[..done], blocks) == ReplayInBlocks(cfg, st, log, j, counts)
    decreases |blocks|
  {
    if blocks != [] {
      var now, k := NextArrived(junk, packets, file, done, blocks, counts);
      assert DoneUpTo(cfg, turn, st, log, file, done, j) && DoneUpTo(cfg, turn, st, log, file, now, k);
      InterleavedIsReplay(cfg, turn, end, st, junk, packets, log, file, now, k, blocks[1..], counts[1..]);
      BlockIsReplayed(cfg, turn, end, st, log, file, done, now, j, k, blocks, counts);
    }
  }

  lemma NothingComplete(descrs: Descrs, junk: seq<seq<byte>>, log: seq<Item>)
    requires WellFormed(descrs, log) && |junk| == |log|
    ensures Complete(junk, Packets(descrs, log), 0) == 0
  {
  }

  lemma FeedIsReplay(cfg: Config, turn: LogTurn, end: State -> seq<Output>, st: State, junk: seq<seq<byte>>,
                     log: seq<Item>, trailing: seq<byte>, packets: seq<seq<byte>>, blocks: seq<seq<byte>>)
    requires TakesBytes(turn) && IgnoresTail(turn)
    requires ReadsLogs(cfg, turn) && forall s {:trigger EndBlock(cfg, s)} :: end(s) == EndBlock(cfg, s)
    requires AllUsable(st.descrs) && WellFormed(st.descrs, log) && |junk| == |log|
    requires AllSkippable(cfg, junk) && Skippable(cfg, trailing)
    requires packets == Packets(st.descrs, log) && Flatten(blocks) <= Weave(junk, packets) + trailing
    ensures var p := Feed(turn, end, st, 0, [], blocks);
            p.error == None && p.outputs == ReplayInBlocks(cfg, st, log, 0, Arrived(junk, packets, 0, blocks))
  {
    var file, all := Weave(junk, packets) + trailing, Flatten(blocks);
    assert [] + all == all && file[..0] == [] && file[..|all|] == all;
    assert Waiting(turn, st, 0, []);
    forall n: nat | n <= |file| ensures DoneUpTo(cfg, turn, st, log, file, n, Complete(junk, packets, n)) {
      DrainUpTo(cfg, turn, st, junk, log, trailing, file, packets, n);
    }
    assert DoneUpTo(cfg, turn, st, log, file, |all|, Complete(junk, packets, |all|));
    FeedIsDrain(turn, end, st, 0, [], blocks);
    FeedIsInterleaved(turn, end, st, 0, [], blocks, Drain(turn, st, 0, []));
    NothingComplete(st.descrs, junk, log);
    InterleavedIsReplay(cfg, turn, end, st, junk, packets, log, file, 0, 0, blocks, Arrived(junk, packets, 0, blocks));
  }

  /**
   What the tool prints, block by block, for every configuration, every cutting into blocks, and also when the
   file ends in the middle of a packet: each block adds what its complete messages say, and then, if rows are
   grouped by time and updates are open, the row of the moment.
   */
  lemma LogInBlocks(cfg: Config, filter: seq<(Text, Fields)>, junk: seq<seq<byte>>, log: seq<Item>,
                    trailing: seq<byte>, blocks: seq<seq<byte>>)
    requires WellFormed(map[], log) && |junk| == |log|
    requires AllSkippable(cfg, junk) && Skippable(cfg, trailing)
    requires Flatten(blocks) <= Weave(junk, Packets(map[], log)) + trailing
    ensures var st, packets := Reset(cfg, filter), Packets(map[], log);
            var p := Feed(TurnOf(cfg), EndBlockOf(cfg), st, 0, [], blocks);
            && p.error == None
            && p.outputs == ReplayInBlocks(cfg, st, log, 0, Arrived(junk, packets, 0, blocks))
  {
    TurnsAreLocal(cfg);
    TurnReadsLogs(cfg);
    var st := Reset(cfg, filter);
    FeedIsReplay(cfg, TurnOf(cfg), EndBlockOf(cfg), st, junk, log, trailing, Packets(map[], log), blocks);
  }

  // ---------- Debug output ----------

  /** The fields of a message that a filter shows; without a filter all of them. */
  function FieldsShown(filterMap: map<Text, Fields>, name: Text): Option<Fields> {
    if filterMap == map[] then Some(All) else if name in filterMap then Some(filterMap[name]) else None
  }

  /** The line for one message that the filter shows, with the fields it shows. */
  function Line(filterMap: map<Text, Fields>, descrs: Descrs, item: Item): seq<Output>
    requires Fitting(descrs, item)
  {
    match item
    case Format(t, d) => if t == TYPE_FORMAT || FieldsShown(filterMap, d.name).None? then [] else [FormatLine(t, d)]
    case Data(t, values) =>
      var d := descrs[t];
      match FieldsShown(filterMap, d.name)
      case None => []
      case Some(fields) => [MsgLine(d.name, Selected(fields, Labelled(d.labels, values)))]
  }

  /** The listing of a log: one line for every FORMAT message and every data message shown. */
  function Listing(filterMap: map<Text, Fields>, descrs: Descrs, log: seq<Item>): (r: seq<Output>)
    requires WellFormed(descrs, log)
    decreases log
  {
    if log == [] then []
    else Line(filterMap, descrs, log[0]) + Listing(filterMap, Declare(descrs, log[0]), log[1..])
  }

  /** The fields selected are those asked for, in their order. */
  lemma {:induction false} SelectedIs(fields: Fields, pairs: seq<(Text, Value)>)
    ensures Subsequence(Selected(fields, pairs), pairs)
    ensures forall p :: p in Selected(fields, pairs) <==> p in pairs && (fields == All || InFields(p.0, fields))
    ensures fields == All ==> Selected(fields, pairs) == pairs
  {
    if pairs == [] {
    } else {
      var tail := Selected(fields, pairs[1..]);
      SelectedIs(fields, pairs[1..]);
      assert pairs == [pairs[0]] + pairs[1..];
      var shown := fields == All || InFields(pairs[0].0, fields);
      assert Selected(fields, pairs) == if shown then [pairs[0]] + tail else tail;
    }
  }

  lemma DebugListsItem(cfg: Config, st: State, item: Item)
    requires cfg.debugOut
    requires AllUsable(st.descrs) && Fitting(st.descrs, item)
    ensures OnItem(cfg, st, item).outputs == Line(st.filterMap, st.descrs, item)
    ensures OnItem(cfg, st, item).state.filterMap == st.filterMap
  {
    if item.Data? {
      UnpackPacked(st.descrs[item.typ].format, item.values);
    }
  }

  /** The debug output lists every message of the log that the filter shows, with the fields it shows. */
  lemma {:induction false} DebugListsLog(cfg: Config, st: State, log: seq<Item>)
    requires cfg.debugOut
    requires AllUsable(st.descrs) && WellFormed(st.descrs, log)
    ensures Replay(cfg, st, log).0 == Listing(st.filterMap, st.descrs, log)
    decreases log
  {
    if log == [] {
    } else {
      OnItemSucceeds(cfg, st, log[0]);
      DebugListsItem(cfg, st, log[0]);
      DebugListsLog(cfg, OnItem(cfg, st, log[0]).state, log[1..]);
    }
  }

  /** The debug output of the whole tool, under any filter, for every cutting into blocks and every skippable junk. */
  lemma DebugOfLog(cfg: Config, filter: seq<(Text, Fields)>, junk: seq<seq<byte>>, log: seq<Item>,
                   trailing: seq<byte>, blocks: seq<seq<byte>>)
    requires cfg.debugOut
    requires WellFormed(map[], log) && |junk| == |log|
    requires AllSkippable(cfg, junk) && Skippable(cfg, trailing)
    requires Flatten(blocks) == Weave(junk, Packets(map[], log)) + trailing
    ensures var p := Feed(TurnOf(cfg), EndBlockOf(cfg), Reset(cfg, filter), 0, [], blocks);
            p.error == None && p.outputs == Listing(FilterMap(filter), map[], log)
  {
    LogRoundTrip(cfg, filter, junk, log, trailing, blocks);
    DebugListsLog(cfg, Reset(cfg, filter), log);
  }
}
