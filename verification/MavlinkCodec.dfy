/**
 MAVLink 1.0 frames: a six-byte header, the payload fields in wire order, and a checksum.
 Field values are kept as the bytes they occupy; the X.25 checksum is a parameter, as is the message table.
 */
module MavlinkCodec {
  import opened Sequences

  const MARKER: byte := 254
  const HEADER := 6
  /** Bytes of a frame that are not payload. */
  const OVERHEAD := 8

  type word16 = x: int | 0 <= x < 0x1_0000

  /**
   A row of the message table: the width of every field on the wire, for every constructor argument the
   wire position it is read from, and the extra byte fed to the checksum.
   */
  datatype Row = Row(widths: seq<nat>, orderMap: seq<nat>, crcExtra: byte)

  datatype Dialect = Dialect(table: map<byte, Row>, x25: (seq<byte>, byte) -> word16)

  datatype Header = Header(mlen: byte, sequence: byte, srcSystem: byte, srcComponent: byte, msgId: byte)

  datatype Reason =
    | BadPrefix | HeaderTruncated | WrongLength | UnknownId | BadCrc | BadPayload | CannotInstantiate

  /** `MavError` is the parser's own error; `IndexError` escapes from the reordering of the fields. */
  datatype Error = MavError(reason: Reason) | IndexError

  datatype Received =
    | Message(header: Header, values: seq<seq<byte>>, payload: seq<byte>, crc: word16, msgbuf: seq<byte>)
    | BadData(data: seq<byte>, reason: Reason)
  {
    function Raw(): seq<byte> {
      if Message? then msgbuf else data
    }
  }

  /** The size of a payload whose fields have these widths. */
  function Size(widths: seq<nat>): nat {
    if widths == [] then 0 else widths[0] + Size(widths[1..])
  }

  /** The fields of a payload, in wire order. */
  function Unpack(widths: seq<nat>, payload: seq<byte>): (r: seq<seq<byte>>)
    requires |payload| == Size(widths)
    ensures Fits(widths, r)
    ensures Flatten(r) == payload
    decreases widths
  {
    if widths == [] then []
    else [payload[..widths[0]]] + Unpack(widths[1..], payload[widths[0]..])
  }

  /** Every value has the width of its field. */
  predicate Fits(widths: seq<nat>, values: seq<seq<byte>>) {
    && |values| == |widths|
    && forall i :: 0 <= i < |values| ==> |values[i]| == widths[i]
  }

  lemma {:induction false} PackedSize(widths: seq<nat>, values: seq<seq<byte>>)
    requires Fits(widths, values)
    ensures |Flatten(values)| == Size(widths)
  {
    if values != [] {
      PackedSize(widths[1..], values[1..]);
    }
  }

  /** Unpacking undoes packing. */
  lemma {:induction false} UnpackPacked(widths: seq<nat>, values: seq<seq<byte>>)
    requires Fits(widths, values)
    ensures |Flatten(values)| == Size(widths)
    ensures Unpack(widths, Flatten(values)) == values
    decreases widths
  {
    PackedSize(widths, values);
    if values == [] {
    } else {
      UnpackPacked(widths[1..], values[1..]);
      assert Flatten(values)[..widths[0]] == values[0];
      assert Flatten(values)[widths[0]..] == Flatten(values[1..]);
      assert values == [values[0]] + values[1..];
    }
  }

  /** Can the reordering loop run over `n` fields without leaving either list? */
  predicate Indexable(orderMap: seq<nat>, n: nat) {
    n <= |orderMap| && forall i :: 0 <= i < n ==> orderMap[i] < n
  }

  predicate IsPermutation(orderMap: seq<nat>, n: nat) {
    && |orderMap| == n
    && (forall i :: 0 <= i < n ==> orderMap[i] < n)
    && (forall i, j :: 0 <= i < j < n ==> orderMap[i] != orderMap[j])
    && (forall j :: 0 <= j < n ==> j in orderMap)
  }

  /** Constructor arguments from wire fields: argument `i` is field `orderMap[i]`. */
  function Reorder<T>(t: seq<T>, orderMap: seq<nat>): (r: seq<T>)
    requires Indexable(orderMap, |t|)
  {
    seq(|t|, i requires 0 <= i < |t| => t[orderMap[i]])
  }

  function IndexOf(s: seq<nat>, x: nat): (i: nat)
    requires x in s
    ensures i < |s| && s[i] == x
  {
    if s[0] == x then 0 else 1 + IndexOf(s[1..], x)
  }

  /** Wire fields from constructor arguments, as the generated `pack` methods list them. */
  function WireOrder<T>(arguments: seq<T>, orderMap: seq<nat>): (r: seq<T>)
    requires IsPermutation(orderMap, |arguments|)
    ensures |r| == |arguments|
  {
    seq(|arguments|, j requires 0 <= j < |arguments| => arguments[IndexOf(orderMap, j)])
  }

  /** The two orders are inverse to each other, both ways round. */
  lemma ReorderInverts<T>(arguments: seq<T>, orderMap: seq<nat>)
    requires IsPermutation(orderMap, |arguments|)
    ensures Reorder(WireOrder(arguments, orderMap), orderMap) == arguments
    ensures WireOrder(Reorder(arguments, orderMap), orderMap) == arguments
  {
  }

  /** Every row names each of its wire fields exactly once, and its payload fits the length byte. */
  predicate WellFormedRow(row: Row) {
    IsPermutation(row.orderMap, |row.widths|) && Size(row.widths) < 256
  }

  predicate IndexableRow(row: Row) {
    Indexable(row.orderMap, |row.widths|)
  }

  predicate NeverCrashes(d: Dialect) {
    forall id :: id in d.table ==> IndexableRow(d.table[id])
  }

  function LittleEndian(x: word16): seq<byte> {
    [x % 256, x / 256]
  }

  function Word(low: byte, high: byte): word16 {
    low as int + high as int * 256
  }

  /** The bytes of a packed header. */
  function PackHeader(h: Header): (r: seq<byte>)
    ensures |r| == HEADER
  {
    [MARKER, h.mlen, h.sequence, h.srcSystem, h.srcComponent, h.msgId]
  }

  /** Header, payload and checksum put together. */
  function Seal(x25: (seq<byte>, byte) -> word16, crcExtra: byte, h: Header, payload: seq<byte>): seq<byte> {
    var body := PackHeader(h) + payload;
    body + LittleEndian(x25(body[1..], crcExtra))
  }

  /** A message as its sender makes it: an identifier and the constructor arguments. */
  datatype Outgoing = Outgoing(msgId: byte, values: seq<seq<byte>>)

  predicate Sendable(d: Dialect, m: Outgoing) {
    && m.msgId in d.table
    && var row := d.table[m.msgId];
    && WellFormedRow(row)
    && |m.values| == |row.widths|
    && Fits(row.widths, WireOrder(m.values, row.orderMap))
  }

  function PayloadOf(d: Dialect, m: Outgoing): (r: seq<byte>)
    requires Sendable(d, m)
    ensures |r| < 256
  {
    var row := d.table[m.msgId];
    PackedSize(row.widths, WireOrder(m.values, row.orderMap));
    Flatten(WireOrder(m.values, row.orderMap))
  }

  function HeaderOf(d: Dialect, m: Outgoing, sequence: byte, srcSystem: byte, srcComponent: byte): Header
    requires Sendable(d, m)
  {
    Header(|PayloadOf(d, m)|, sequence, srcSystem, srcComponent, m.msgId)
  }

  /** `MAVLink_message.pack`. */
  function Pack(d: Dialect, m: Outgoing, sequence: byte, srcSystem: byte, srcComponent: byte): (r: seq<byte>)
    requires Sendable(d, m)
    ensures |r| == |PayloadOf(d, m)| + OVERHEAD
    ensures r[0] == MARKER && r[1] as int == |PayloadOf(d, m)|
  {
    Seal(d.x25, d.table[m.msgId].crcExtra,
         HeaderOf(d, m, sequence, srcSystem, srcComponent), PayloadOf(d, m))
  }

  /** `decode`: the checks in the order the parser makes them. */
  function Decode(d: Dialect, msgbuf: seq<byte>): (r: Result<Received, Error>)
  {
    var n := |msgbuf|;
    if n < HEADER then Err(MavError(HeaderTruncated))
    else if msgbuf[0] != MARKER then Err(MavError(BadPrefix))
    else if msgbuf[1] as int != n - OVERHEAD then Err(MavError(WrongLength))
    else
      var h := Header(msgbuf[1], msgbuf[2], msgbuf[3], msgbuf[4], msgbuf[5]);
      if h.msgId !in d.table then Err(MavError(UnknownId))
      else
        var row := d.table[h.msgId];
        var crc := Word(msgbuf[n - 2], msgbuf[n - 1]);
        var payload := msgbuf[HEADER..n - 2];
        if crc != d.x25(msgbuf[1..n - 2], row.crcExtra) then Err(MavError(BadCrc))
        else if |payload| != Size(row.widths) then Err(MavError(BadPayload))
        else
          var t := Unpack(row.widths, payload);
          if !Indexable(row.orderMap, |t|) then Err(IndexError)
          else if |t| != |row.orderMap| then Err(MavError(CannotInstantiate))
          else Ok(Message(h, Reorder(t, row.orderMap), payload, crc, msgbuf))
  }

  lemma LittleEndianOfWord(low: byte, high: byte)
    ensures LittleEndian(Word(low, high)) == [low, high]
  {
  }

  /** What a receiver makes of a frame its peer packed. */
  function AsReceived(d: Dialect, m: Outgoing, sequence: byte, srcSystem: byte, srcComponent: byte): Received
    requires Sendable(d, m)
  {
    var h := HeaderOf(d, m, sequence, srcSystem, srcComponent);
    Message(h, m.values, PayloadOf(d, m),
            d.x25((PackHeader(h) + PayloadOf(d, m))[1..], d.table[m.msgId].crcExtra),
            Pack(d, m, sequence, srcSystem, srcComponent))
  }

  lemma SealLayout(x25: (seq<byte>, byte) -> word16, crcExtra: byte, h: Header, payload: seq<byte>)
    ensures var frame := Seal(x25, crcExtra, h, payload);
            var n := |frame|;
            && n == |payload| + OVERHEAD
            && frame[..HEADER] == PackHeader(h)
            && frame[HEADER..n - 2] == payload
            && frame[1..n - 2] == (PackHeader(h) + payload)[1..]
            && Word(frame[n - 2], frame[n - 1]) == x25((PackHeader(h) + payload)[1..], crcExtra)
  {
  }

  /** Decoding a packed message gives back its arguments, in constructor order, and its header. */
  lemma DecodePacked(d: Dialect, m: Outgoing, sequence: byte, srcSystem: byte, srcComponent: byte)
    requires Sendable(d, m)
    ensures Decode(d, Pack(d, m, sequence, srcSystem, srcComponent))
         == Ok(AsReceived(d, m, sequence, srcSystem, srcComponent))
  {
    var h := HeaderOf(d, m, sequence, srcSystem, srcComponent);
    var row := d.table[m.msgId];
    SealLayout(d.x25, row.crcExtra, h, PayloadOf(d, m));
    var frame := Pack(d, m, sequence, srcSystem, srcComponent);
    assert frame[..HEADER] == PackHeader(h);
    assert forall i :: 0 <= i < HEADER ==> frame[i] == frame[..HEADER][i];
    UnpackPacked(row.widths, WireOrder(m.values, row.orderMap));
    ReorderInverts(m.values, row.orderMap);
  }

  /** The other way round: whatever decodes was packed from the values it decodes to. */
  lemma PackDecoded(d: Dialect, msgbuf: seq<byte>)
    requires Decode(d, msgbuf).Ok?
    requires var id := Decode(d, msgbuf).value.header.msgId; id in d.table && WellFormedRow(d.table[id])
    ensures var m := Decode(d, msgbuf).value;
            var out := Outgoing(m.header.msgId, m.values);
            && Sendable(d, out)
            && Pack(d, out, m.header.sequence, m.header.srcSystem, m.header.srcComponent) == msgbuf
  {
    var m := Decode(d, msgbuf).value;
    var row := d.table[m.header.msgId];
    var n := |msgbuf|;
    ReorderInverts(Unpack(row.widths, m.payload), row.orderMap);
    LittleEndianOfWord(msgbuf[n - 2], msgbuf[n - 1]);
    assert PackHeader(m.header) + m.payload == msgbuf[..n - 2];
    assert msgbuf[..n - 2][1..] == msgbuf[1..n - 2];
    assert msgbuf == msgbuf[..n - 2] + [msgbuf[n - 2], msgbuf[n - 1]];
  }

  /** A frame of a known message whose length and checksum are right reaches the unpacking of its fields. */
  predicate Intact(d: Dialect, msgbuf: seq<byte>) {
    && |msgbuf| >= OVERHEAD
    && msgbuf[0] == MARKER
    && msgbuf[1] as int == |msgbuf| - OVERHEAD
    && msgbuf[5] in d.table
    && Word(msgbuf[|msgbuf| - 2], msgbuf[|msgbuf| - 1])
       == d.x25(msgbuf[1..|msgbuf| - 2], d.table[msgbuf[5]].crcExtra)
    && |msgbuf| - OVERHEAD == Size(d.table[msgbuf[5]].widths)
  }

  /** Exactly which frames make the decoder fail with something other than its own error. */
  lemma DecodeCrashes(d: Dialect, msgbuf: seq<byte>)
    ensures Decode(d, msgbuf) == Err(IndexError)
       <==> Intact(d, msgbuf) && !IndexableRow(d.table[msgbuf[5]])
  {
  }

  /** An intact all-zero frame for a row of the table. */
  function ZeroFrame(d: Dialect, id: byte): seq<byte>
    requires id in d.table && Size(d.table[id].widths) < 256
  {
    var n := Size(d.table[id].widths);
    Seal(d.x25, d.table[id].crcExtra, Header(n, 0, 0, 0, id), seq(n, _ => 0))
  }

  lemma ZeroFrameIntact(d: Dialect, id: byte)
    requires id in d.table && Size(d.table[id].widths) < 256
    ensures Intact(d, ZeroFrame(d, id)) && ZeroFrame(d, id)[5] == id
  {
  }

  ghost predicate DecodesOrRejects(d: Dialect) {
    forall msgbuf :: Decode(d, msgbuf) != Err(IndexError)
  }

  /** The decoder keeps to its own error exactly when no row of the table has more fields than arguments. */
  lemma DecodesOrRejectsIff(d: Dialect)
    requires forall id :: id in d.table ==> Size(d.table[id].widths) < 256
    ensures DecodesOrRejects(d) <==> NeverCrashes(d)
  {
    if NeverCrashes(d) {
      forall msgbuf ensures Decode(d, msgbuf) != Err(IndexError) {
        DecodeCrashes(d, msgbuf);
      }
    } else {
      var id :| id in d.table && !IndexableRow(d.table[id]);
      ZeroFrameIntact(d, id);
      DecodeCrashes(d, ZeroFrame(d, id));
    }
  }

  /** Rows of the table generated from `common.xml`. */
  const HEARTBEAT := Row([4, 1, 1, 1, 1, 1], [1, 2, 3, 0, 4, 5], 50)
  const DEBUG := Row([4, 4, 1], [0, 2, 1], 46)
  const SET_QUAD_SWARM_ROLL_PITCH_YAW_THRUST := Row(seq(16, _ => 2) + [1, 1], [4, 5, 0, 1, 2, 3], 240)
  const SET_QUAD_SWARM_ROLL_PITCH_YAW_THRUST_ID: byte := 61

  lemma HeartbeatWellFormed()
    ensures WellFormedRow(HEARTBEAT)
  {
  }

  lemma DebugWellFormed()
    ensures WellFormedRow(DEBUG)
  {
  }

  lemma {:induction false} SizeOfRun(w: nat, k: nat, rest: seq<nat>)
    ensures Size(seq(k, _ => w) + rest) == k * w + Size(rest)
  {
    if k == 0 {
      assert seq(0, _ => w) + rest == rest;
    } else {
      var run := seq(k, _ => w) + rest;
      SizeOfRun(w, k - 1, rest);
      assert run[1..] == seq(k - 1, _ => w) + rest;
      assert k * w == w + (k - 1) * w;
    }
  }

  /** The swarm row unpacks to eighteen values but maps six, so an intact frame for it cannot be decoded. */
  lemma SwarmRowCrashes(d: Dialect) returns (frame: seq<byte>)
    requires SET_QUAD_SWARM_ROLL_PITCH_YAW_THRUST_ID in d.table
    requires d.table[SET_QUAD_SWARM_ROLL_PITCH_YAW_THRUST_ID] == SET_QUAD_SWARM_ROLL_PITCH_YAW_THRUST
    ensures Intact(d, frame) && Decode(d, frame) == Err(IndexError)
  {
    SizeOfRun(2, 16, [1, 1]);
    assert Size([1, 1]) == 2;
    frame := ZeroFrame(d, SET_QUAD_SWARM_ROLL_PITCH_YAW_THRUST_ID);
    ZeroFrameIntact(d, SET_QUAD_SWARM_ROLL_PITCH_YAW_THRUST_ID);
    DecodeCrashes(d, frame);
  }
}
