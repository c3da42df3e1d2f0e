/**
 The sdlog2 parser. `State` is what the parser knows between messages and the functions on it say what one
 message does; `Drain` is the inner loop over the bytes at hand and `Feed` the outer loop over file blocks.
 A CSV column without a value is absent from `csvData`.
 */
module Sdlog2Parser {
  import opened Sequences
  import opened BlockLoop
  import opened Sdlog2Format

  /** The fields of a message to show: `"*"`, or the labels listed. */
  datatype Fields = All | Only(labels: seq<Text>)

  datatype Config = Config(timeMsg: Option<Text>, debugOut: bool, correctErrors: bool)

  datatype State = State(
    descrs: map<byte, Descr>,
    labels: map<Text, seq<Text>>,
    names: seq<Text>,
    msgFilter: seq<(Text, Fields)>,
    filterMap: map<Text, Fields>,
    columns: seq<Text>,
    csvData: map<Text, Value>,
    csvUpdated: bool,
    firstDataMsg: bool)

  datatype Output =
    | FormatLine(typ: byte, descr: Descr)
    | MsgLine(name: Text, shown: seq<(Text, Value)>)
    | HeaderRow(columns: seq<Text>)
    | Row(cells: seq<Option<Value>>)

  /** The exceptions of the original, and the descriptor length on which it loops for ever. */
  datatype Error =
    | InvalidHeader(at: nat) | UnknownType(typ: byte) | UnsupportedFormat(typ: byte)
    | StructError | LabelIndexError | Endless

  type Effected = Effect<State, Output, Error>

  type LogTurn = Turn<State, Output, Error>

  function FullLabel(name: Text, field: Text): Text {
    name + [UNDERSCORE] + field
  }

  /** The state after `reset` and the preparation of the filter for debug output. */
  function Reset(cfg: Config, msgFilter: seq<(Text, Fields)>): State {
    State(map[], map[], [], msgFilter, if cfg.debugOut then FilterMap(msgFilter) else map[], [], map[], false, true)
  }

  function FilterMap(msgFilter: seq<(Text, Fields)>): map<Text, Fields> {
    if msgFilter == [] then map[]
    else
      var last := msgFilter[|msgFilter| - 1];
      FilterMap(msgFilter[..|msgFilter| - 1])[last.0 := last.1]
  }

  /** In the map every message has the fields of its last entry in the filter. */
  lemma {:induction false} FilterMapIsLast(msgFilter: seq<(Text, Fields)>, name: Text, fields: Fields)
    ensures name in FilterMap(msgFilter) && FilterMap(msgFilter)[name] == fields
       <==> exists i :: && 0 <= i < |msgFilter| && msgFilter[i] == (name, fields)
                        && forall j :: i < j < |msgFilter| ==> msgFilter[j].0 != name
    decreases |msgFilter|
  {
    if msgFilter != [] {
      var n := |msgFilter| - 1;
      FilterMapIsLast(msgFilter[..n], name, fields);
      if msgFilter[n].0 == name {
        assert msgFilter[n] == (name, msgFilter[n].1);
      } else {
        assert forall i :: 0 <= i < n ==> msgFilter[..n][i] == msgFilter[i];
      }
    }
  }

  /** Which fields of a message are shown; an empty map shows everything. */
  function FilterMsg(st: State, name: Text): Option<Fields> {
    if |st.filterMap| == 0 then Some(All)
    else if name in st.filterMap then Some(st.filterMap[name])
    else None
  }

  /** `field in show_fields`, which on the text `"*"` is a substring test. */
  predicate InFields(field: Text, fields: Fields) {
    match fields
    case All => field == [] || field == ['*' as int]
    case Only(labels) => field in labels
  }

  // ---------- CSV ----------

  function ColumnsOf(name: Text, labels: seq<Text>): (r: seq<Text>)
    ensures |r| == |labels|
  {
    seq(|labels|, i requires 0 <= i < |labels| => FullLabel(name, labels[i]))
  }

  function Expand(st: State, entry: (Text, Fields)): seq<Text> {
    match entry.1
    case Only(labels) => labels
    case All => if entry.0 in st.labels then st.labels[entry.0] else []
  }

  function AddColumns(st: State, entry: (Text, Fields)): State {
    var fields := Expand(st, entry);
    st.(filterMap := st.filterMap[entry.0 := Only(fields)], columns := st.columns + ColumnsOf(entry.0, fields))
  }

  function AddAllColumns(st: State, filter: seq<(Text, Fields)>): State
    decreases filter
  {
    if filter == [] then st else AddAllColumns(AddColumns(st, filter[0]), filter[1..])
  }

  function Everything(names: seq<Text>): (r: seq<(Text, Fields)>)
    ensures |r| == |names|
  {
    seq(|names|, i requires 0 <= i < |names| => (names[i], All))
  }

  /** The filter that is in force at the first data message: the one given, or all messages known by then. */
  function EffectiveFilter(st: State): seq<(Text, Fields)> {
    if st.msgFilter == [] then Everything(st.names) else st.msgFilter
  }

  /** `__initCSV`. */
  function InitCsv(st: State): State {
    AddAllColumns(st.(msgFilter := EffectiveFilter(st)), EffectiveFilter(st))
  }

  function Cell(csvData: map<Text, Value>, column: Text): Option<Value> {
    if column in csvData then Some(csvData[column]) else None
  }

  function Cells(columns: seq<Text>, csvData: map<Text, Value>): (r: seq<Option<Value>>)
    ensures |r| == |columns|
  {
    seq(|columns|, i requires 0 <= i < |columns| => Cell(csvData, columns[i]))
  }

  function CurrentRow(st: State): Output {
    Row(Cells(st.columns, st.csvData))
  }

  // ---------- One message ----------

  /** `__parseMsgDescr`. */
  function ParseMsgDescr(cfg: Config, st: State, t: byte, d: Descr): Effected {
    if t == TYPE_FORMAT then Effect([], st, None)
    else if !Supported(d.format) then Effect([], st, Some(UnsupportedFormat(t)))
    else
      var known := st.(descrs := st.descrs[t := d], labels := st.labels[d.name := d.labels],
                       names := st.names + [d.name]);
      Effect(if cfg.debugOut && FilterMsg(known, d.name).Some? then [FormatLine(t, d)] else [], known, None)
  }

  /** The labelled values of a message, as far as there are labels. */
  function Labelled(labels: seq<Text>, data: seq<Value>): (r: seq<(Text, Value)>)
    ensures |r| == if |data| <= |labels| then |data| else |labels|
    ensures forall i :: 0 <= i < |r| ==> r[i] == (labels[i], data[i])
  {
    if labels == [] || data == [] then []
    else [(labels[0], data[0])] + Labelled(labels[1..], data[1..])
  }

  function Selected(fields: Fields, pairs: seq<(Text, Value)>): (r: seq<(Text, Value)>) {
    if pairs == [] then []
    else (if fields == All || InFields(pairs[0].0, fields) then [pairs[0]] else []) + Selected(fields, pairs[1..])
  }

  /** Store the shown fields of a message as the current values of their columns. */
  function Store(csvData: map<Text, Value>, name: Text, fields: Fields, pairs: seq<(Text, Value)>): map<Text, Value>
    decreases pairs
  {
    if pairs == [] then csvData
    else
      var (field, value) := pairs[0];
      Store(if InFields(field, fields) then csvData[FullLabel(name, field) := value] else csvData,
            name, fields, pairs[1..])
  }

  predicate AnyShown(fields: Fields, pairs: seq<(Text, Value)>) {
    exists i :: 0 <= i < |pairs| && InFields(pairs[i].0, fields)
  }

  /** A message of the time type first prints the row collected since the last one. */
  function TimeRow(cfg: Config, st: State, name: Text): (seq<Output>, State) {
    if !cfg.debugOut && cfg.timeMsg == Some(name) && st.csvUpdated
    then ([CurrentRow(st)], st.(csvUpdated := false))
    else ([], st)
  }

  /** The unpacked fields of a message that is shown. */
  function ShowMsg(cfg: Config, st: State, d: Descr, fields: Fields, data: seq<Value>): Effected {
    var pairs := Labelled(d.labels, data);
    if cfg.debugOut then
      if |data| > |d.labels| then Effect([], st, Some(LabelIndexError))
      else Effect([MsgLine(d.name, Selected(fields, pairs))], st, None)
    else
      var updated := cfg.timeMsg.Some? && cfg.timeMsg != Some(d.name) && AnyShown(fields, pairs);
      var stored := st.(csvData := Store(st.csvData, d.name, fields, pairs), csvUpdated := st.csvUpdated || updated);
      if |data| > |d.labels| then Effect([], stored, Some(LabelIndexError))
      else Effect(if cfg.timeMsg == None then [CurrentRow(stored)] else [], stored, None)
  }

  /** `__parseMsg`. */
  function ParseMsg(cfg: Config, st: State, d: Descr, body: seq<byte>): Effected {
    var (rows, ready) := TimeRow(cfg, st, d.name);
    match FilterMsg(ready, d.name)
    case None => Effect(rows, ready, None)
    case Some(fields) =>
      if !Supported(d.format) || |body| != SizeOf(d.format) then Effect(rows, ready, Some(StructError))
      else
        var e := ShowMsg(cfg, ready, d, fields, Unpack(d.format, body));
        e.(outputs := rows + e.outputs)
  }

  /** A data message: the first one fixes the CSV columns. */
  function OnData(cfg: Config, st: State, d: Descr, body: seq<byte>): Effected {
    if st.firstDataMsg && !cfg.debugOut then
      var ready := InitCsv(st).(firstDataMsg := false);
      var e := ParseMsg(cfg, ready, d, body);
      e.(outputs := [HeaderRow(ready.columns)] + e.outputs)
    else ParseMsg(cfg, st.(firstDataMsg := false), d, body)
  }

  lemma FormatsTakeBytes(format: Text)
    requires Supported(format)
    ensures SizeOf(format) == 0 <==> format == []
  {
  }

  /** A message without a body raises nothing exactly if it has no fields or is not shown. */
  lemma EmptyBody(cfg: Config, st: State, d: Descr)
    ensures var ready := if st.firstDataMsg && !cfg.debugOut then InitCsv(st) else st;
            OnData(cfg, st, d, []).error == None <==> d.format == [] || FilterMsg(ready, d.name).None?
  {
    if Supported(d.format) {
      FormatsTakeBytes(d.format);
    }
  }

  // ---------- The loops ----------

  /** One turn of the inner loop on the bytes left; `at` is how many bytes of the file precede them. */
  function Next(cfg: Config, st: State, at: nat, bytes: seq<byte>): Step<State, Output, Error> {
    if |bytes| < HEADER_LEN then NeedMore
    else if bytes[0] != HEAD1 || bytes[1] != HEAD2 then
      Consume(1, Effect([], st, if cfg.correctErrors then None else Some(InvalidHeader(at))))
    else if bytes[2] == TYPE_FORMAT then
      if |bytes| < FORMAT_PACKET_LEN then NeedMore
      else
        var (t, d) := DescrIn(bytes[..FORMAT_PACKET_LEN]);
        Consume(FORMAT_PACKET_LEN, ParseMsgDescr(cfg, st, t, d))
    else if bytes[2] !in st.descrs then Consume(1, Effect([], st, Some(UnknownType(bytes[2]))))
    else
      var d := st.descrs[bytes[2]];
      if |bytes| < d.length then NeedMore
      else
        var e := OnData(cfg, st, d, if d.length < HEADER_LEN then [] else bytes[HEADER_LEN..d.length]);
        if d.length == 0 && e.error == None then Consume(1, e.(error := Some(Endless))) else Consume(d.length, e)
  }

  /** Is this a data message whose descriptor gives it no length, and that nothing else stops? */
  predicate NoProgress(cfg: Config, st: State, bytes: seq<byte>) {
    && |bytes| >= HEADER_LEN && bytes[0] == HEAD1 && bytes[1] == HEAD2
    && bytes[2] != TYPE_FORMAT && bytes[2] in st.descrs
    && var d := st.descrs[bytes[2]];
       var ready := if st.firstDataMsg && !cfg.debugOut then InitCsv(st) else st;
       d.length == 0 && (d.format == [] || FilterMsg(ready, d.name).None?)
  }

  /** The original loops for ever exactly here: on a length of zero, with nothing to unpack or nothing to show. */
  lemma EndlessIff(cfg: Config, st: State, at: nat, bytes: seq<byte>)
    ensures Next(cfg, st, at, bytes).Consume? && Next(cfg, st, at, bytes).effect.error == Some(Endless)
       <==> NoProgress(cfg, st, bytes)
  {
    if |bytes| >= HEADER_LEN && bytes[0] == HEAD1 && bytes[1] == HEAD2 && bytes[2] != TYPE_FORMAT
       && bytes[2] in st.descrs {
      EmptyBody(cfg, st, st.descrs[bytes[2]]);
    }
  }

  /** What the outer loop prints at the end of a block when rows are grouped by time. */
  function EndBlock(cfg: Config, st: State): seq<Output> {
    if !cfg.debugOut && cfg.timeMsg.Some? && st.csvUpdated then [CurrentRow(st)] else []
  }

  function TurnOf(cfg: Config): LogTurn {
    (st: State, at: nat, bytes: seq<byte>) => Next(cfg, st, at, bytes)
  }

  function EndBlockOf(cfg: Config): State -> seq<Output> {
    (st: State) => EndBlock(cfg, st)
  }

  /** What a turn does depends only on the bytes it needed to see. */
  lemma NextExtends(cfg: Config, st: State, at: nat, a: seq<byte>, b: seq<byte>)
    requires Next(cfg, st, at, a).Consume?
    ensures Next(cfg, st, at, a + b) == Next(cfg, st, at, a)
  {
    assert (a + b)[0] == a[0] && (a + b)[1] == a[1] && (a + b)[2] == a[2];
    if a[0] == HEAD1 && a[1] == HEAD2 {
      if a[2] == TYPE_FORMAT {
        assert (a + b)[..FORMAT_PACKET_LEN] == a[..FORMAT_PACKET_LEN];
      } else if a[2] in st.descrs {
        var n := st.descrs[a[2]].length;
        if n >= HEADER_LEN {
          assert (a + b)[HEADER_LEN..n] == a[HEADER_LEN..n];
        }
      }
    }
  }

  lemma TurnsAreLocal(cfg: Config)
    ensures TakesBytes(TurnOf(cfg)) && IgnoresTail(TurnOf(cfg))
  {
    var turn := TurnOf(cfg);
    forall st, at, a, b | turn(st, at, a).Consume? ensures turn(st, at, a + b) == turn(st, at, a) {
      NextExtends(cfg, st, at, a, b);
    }
    forall st, at, bytes ensures Advances(turn(st, at, bytes), |bytes|) {
      NextTakes(cfg, st, at, bytes);
    }
  }

  lemma NextTakes(cfg: Config, st: State, at: nat, bytes: seq<byte>)
    ensures Advances(Next(cfg, st, at, bytes), |bytes|)
  {
  }
}
