/**
 The sdlog2 log format: packets that begin with A3 95 and a type. Packets of type 80 hex describe the others:
 their length, name, field kinds and field labels.
 */
module Sdlog2Format {
  import opened Sequences

  const HEAD1: byte := 0xA3
  const HEAD2: byte := 0x95
  const TYPE_FORMAT: byte := 0x80
  const HEADER_LEN := 3
  const FORMAT_PACKET_LEN := 89
  const NAME_LEN := 4
  const FORMAT_LEN := 16
  const LABELS_LEN := 64
  const COMMA: byte := 44
  const UNDERSCORE: byte := 95

  type Text = seq<byte>

  /** A field value: its kind and the bytes it was unpacked from. */
  datatype Value = Value(kind: byte, raw: seq<byte>)

  datatype Descr = Descr(length: byte, name: Text, format: Text, labels: seq<Text>)

  /** The width of a field of this kind, for the kinds the parser knows. */
  function WidthOf(kind: byte): Option<nat> {
    var c := kind as char;
    if c in "bBM" then Some(1)
    else if c in "hHcC" then Some(2)
    else if c in "iIfneEL" then Some(4)
    else if c in "dqQ" then Some(8)
    else if c == 'N' then Some(16)
    else if c == 'Z' then Some(64)
    else None
  }

  predicate Supported(format: Text) {
    forall i :: 0 <= i < |format| ==> WidthOf(format[i]).Some?
  }

  /** The number of bytes a structure with this format takes. */
  function SizeOf(format: Text): nat
    requires Supported(format)
  {
    if format == [] then 0 else WidthOf(format[0]).value + SizeOf(format[1..])
  }

  function Unpack(format: Text, body: seq<byte>): (r: seq<Value>)
    requires Supported(format) && |body| == SizeOf(format)
    ensures |r| == |format|
    decreases format
  {
    if format == [] then []
    else
      var w := WidthOf(format[0]).value;
      [Value(format[0], body[..w])] + Unpack(format[1..], body[w..])
  }

  /** Values of the kinds and widths the format asks for. */
  predicate Fits(format: Text, values: seq<Value>) {
    && |values| == |format|
    && forall i :: 0 <= i < |values| ==>
         values[i].kind == format[i] && WidthOf(format[i]) == Some(|values[i].raw|)
  }

  function PackValues(values: seq<Value>): seq<byte> {
    if values == [] then [] else values[0].raw + PackValues(values[1..])
  }

  /** Unpacking gives back the values that were packed. */
  lemma {:induction false} UnpackPacked(format: Text, values: seq<Value>)
    requires Fits(format, values)
    ensures Supported(format) && |PackValues(values)| == SizeOf(format)
    ensures Unpack(format, PackValues(values)) == values
    decreases format
  {
    if format == [] {
    } else {
      UnpackPacked(format[1..], values[1..]);
      var body := PackValues(values);
      assert body[..|values[0].raw|] == values[0].raw;
      assert body[|values[0].raw|..] == PackValues(values[1..]);
      assert values == [values[0]] + values[1..];
    }
  }

  /** The part of a fixed-width text field before its first NUL. */
  function CString(s: seq<byte>): (r: Text) {
    if s == [] || s[0] == 0 then [] else [s[0]] + CString(s[1..])
  }

  /** A text in a field of `n` bytes. */
  function Pad(s: Text, n: nat): (r: seq<byte>)
    requires |s| <= n
    ensures |r| == n
  {
    s + Repeat(0, n - |s|)
  }

  predicate NoByte(s: Text, b: byte) {
    forall i :: 0 <= i < |s| ==> s[i] != b
  }

  lemma {:induction false} CStringOfPadded(s: Text, n: nat)
    requires |s| <= n && NoByte(s, 0)
    ensures CString(Pad(s, n)) == s
    decreases s
  {
    if s == [] {
      if n > 0 {
        assert Pad(s, n)[0] == 0;
      }
    } else {
      CStringOfPadded(s[1..], n - 1);
      assert Pad(s, n)[1..] == Pad(s[1..], n - 1);
      assert Pad(s, n)[0] == s[0];
    }
  }

  /** `text.split(",")`: one more piece than there are commas. */
  function Split(text: Text): (r: seq<Text>)
    ensures |r| > 0
  {
    if text == [] then [[]]
    else if text[0] == COMMA then [[]] + Split(text[1..])
    else
      var rest := Split(text[1..]);
      [[text[0]] + rest[0]] + rest[1..]
  }

  function Join(labels: seq<Text>): Text
    requires |labels| > 0
  {
    if |labels| == 1 then labels[0] else labels[0] + [COMMA] + Join(labels[1..])
  }

  predicate NoneHas(labels: seq<Text>, b: byte) {
    forall i :: 0 <= i < |labels| ==> NoByte(labels[i], b)
  }

  /** A comma-free text in front of a comma is the first piece. */
  lemma {:induction false} SplitAtComma(piece: Text, rest: Text)
    requires NoByte(piece, COMMA)
    ensures Split(piece + [COMMA] + rest) == [piece] + Split(rest)
    decreases piece
  {
    var text := piece + [COMMA] + rest;
    if piece == [] {
      assert text[1..] == rest;
    } else {
      assert text[1..] == piece[1..] + [COMMA] + rest;
      SplitAtComma(piece[1..], rest);
      assert [piece[0]] + piece[1..] == piece;
    }
  }

  lemma {:induction false} SplitWhole(piece: Text)
    requires NoByte(piece, COMMA)
    ensures Split(piece) == [piece]
    decreases piece
  {
    if piece == [] {
    } else {
      SplitWhole(piece[1..]);
      assert [piece[0]] + piece[1..] == piece;
    }
  }

  /** Splitting at commas undoes joining with them. */
  lemma {:induction false} SplitJoin(labels: seq<Text>)
    requires |labels| > 0 && NoneHas(labels, COMMA)
    ensures Split(Join(labels)) == labels
    decreases labels
  {
    if |labels| == 1 {
      SplitWhole(labels[0]);
    } else {
      SplitAtComma(labels[0], Join(labels[1..]));
      SplitJoin(labels[1..]);
    }
  }

  lemma {:induction false} JoinHasNoZero(labels: seq<Text>)
    requires |labels| > 0 && NoneHas(labels, 0)
    ensures NoByte(Join(labels), 0)
    decreases labels
  {
    if |labels| > 1 {
      JoinHasNoZero(labels[1..]);
    }
  }

  /** The description in a FORMAT packet, and the type it describes. */
  function DescrIn(packet: seq<byte>): (byte, Descr)
    requires |packet| == FORMAT_PACKET_LEN
  {
    (packet[3], Descr(packet[4], CString(packet[5..9]), CString(packet[9..25]), Split(CString(packet[25..89]))))
  }

  /** Can this description be written into a FORMAT packet? */
  predicate Writable(d: Descr) {
    && |d.name| <= NAME_LEN && NoByte(d.name, 0)
    && |d.format| <= FORMAT_LEN && NoByte(d.format, 0)
    && |d.labels| > 0 && NoneHas(d.labels, COMMA) && NoneHas(d.labels, 0)
    && |Join(d.labels)| <= LABELS_LEN
  }

  function FormatPacket(t: byte, d: Descr): (r: seq<byte>)
    requires Writable(d)
    ensures |r| == FORMAT_PACKET_LEN
  {
    [HEAD1, HEAD2, TYPE_FORMAT, t, d.length]
    + Pad(d.name, NAME_LEN) + Pad(d.format, FORMAT_LEN) + Pad(Join(d.labels), LABELS_LEN)
  }

  /** Reading a FORMAT packet gives back the description that was written. */
  lemma DescrInPacket(t: byte, d: Descr)
    requires Writable(d)
    ensures DescrIn(FormatPacket(t, d)) == (t, d)
  {
    var packet := FormatPacket(t, d);
    assert packet[5..9] == Pad(d.name, NAME_LEN);
    assert packet[9..25] == Pad(d.format, FORMAT_LEN);
    assert packet[25..89] == Pad(Join(d.labels), LABELS_LEN);
    CStringOfPadded(d.name, NAME_LEN);
    CStringOfPadded(d.format, FORMAT_LEN);
    JoinHasNoZero(d.labels);
    CStringOfPadded(Join(d.labels), LABELS_LEN);
    SplitJoin(d.labels);
  }
}
