/**
 The CSV table of an sdlog2 log: the columns fixed at the first data message, and rows that show, for every
 column, the last value it was given in the history so far.
 */
module Sdlog2Csv {
  import opened Sequences
  import opened BlockLoop
  import opened Sdlog2Format
  import opened Sdlog2Parser
  import opened Sdlog2Log

  /** Values given to full labels, oldest first. */
  type History = seq<(Text, Value)>

  /** The last value given to a column, if there is one. */
  function LastOf(history: History, column: Text): Option<Value> {
    if history == [] then None
    else
      var last := history[|history| - 1];
      if last.0 == column then Some(last.1) else LastOf(history[..|history| - 1], column)
  }

  /** A value is the last one exactly when it occurs and nothing is given to the column after it. */
  lemma {:induction false} LastOfIsLast(history: History, column: Text, value: Value)
    ensures LastOf(history, column) == Some(value)
       <==> exists i :: && 0 <= i < |history| && history[i] == (column, value)
                        && forall j :: i < j < |history| ==> history[j].0 != column
  {
    if history != [] {
      var n := |history| - 1;
      LastOfIsLast(history[..n], column, value);
      if history[n].0 == column {
        assert history[n] == (column, history[n].1);
      } else {
        assert forall i :: 0 <= i < n ==> history[..n][i] == history[i];
      }
    }
  }

  lemma {:induction false} LastOfAppend(history: History, more: History, column: Text)
    ensures LastOf(history + more, column)
         == if LastOf(more, column).Some? then LastOf(more, column) else LastOf(history, column)
    decreases |more|
  {
    if more == [] {
      assert history + more == history;
    } else {
      var n := |more| - 1;
      LastOfAppend(history, more[..n], column);
      assert (history + more)[..|history| + n] == history + more[..n];
    }
  }

  /** What a shown message adds to the history. */
  function Given(name: Text, fields: Fields, pairs: seq<(Text, Value)>): History {
    if pairs == [] then []
    else
      (if InFields(pairs[0].0, fields) then [(FullLabel(name, pairs[0].0), pairs[0].1)] else [])
      + Given(name, fields, pairs[1..])
  }

  /** The table of current values remembers exactly the last value of every column. */
  ghost predicate Remembers(csvData: map<Text, Value>, history: History) {
    forall column :: Cell(csvData, column) == LastOf(history, column)
  }

  lemma RememberOne(csvData: map<Text, Value>, history: History, column: Text, value: Value)
    requires Remembers(csvData, history)
    ensures Remembers(csvData[column := value], history + [(column, value)])
  {
    forall c ensures Cell(csvData[column := value], c) == LastOf(history + [(column, value)], c) {
      assert (history + [(column, value)])[..|history|] == history;
      assert Cell(csvData, c) == LastOf(history, c);
    }
  }

  lemma {:induction false} StoreRemembers(csvData: map<Text, Value>, history: History, name: Text, fields: Fields,
                                          pairs: seq<(Text, Value)>)
    requires Remembers(csvData, history)
    ensures Remembers(Store(csvData, name, fields, pairs), history + Given(name, fields, pairs))
    decreases pairs
  {
    if pairs == [] {
      assert history + [] == history;
    } else if InFields(pairs[0].0, fields) {
      var column, value := FullLabel(name, pairs[0].0), pairs[0].1;
      RememberOne(csvData, history, column, value);
      StoreRemembers(csvData[column := value], history + [(column, value)], name, fields, pairs[1..]);
      ConcatAssociative(history, [(column, value)], Given(name, fields, pairs[1..]));
    } else {
      StoreRemembers(csvData, history, name, fields, pairs[1..]);
      assert [] + Given(name, fields, pairs[1..]) == Given(name, fields, pairs[1..]);
    }
  }

  /** The row the history calls for: one cell for each column. */
  function RowOf(columns: seq<Text>, history: History): Output {
    Row(seq(|columns|, i requires 0 <= i < |columns| => LastOf(history, columns[i])))
  }

  lemma RowsAgree(st: State, history: History)
    requires Remembers(st.csvData, history)
    ensures CurrentRow(st) == RowOf(st.columns, history)
  {
  }

  /** The shown messages fix what is shown of later ones; `filterMap` and `columns` never change again. */
  function Rows(filterMap: map<Text, Fields>, columns: seq<Text>, descrs: Descrs, history: History, log: seq<Item>)
    : (r: seq<Output>)
    requires WellFormed(descrs, log)
    decreases log
  {
    if log == [] then []
    else
      var later := Declare(descrs, log[0]);
      match log[0]
      case Format(t, d) => Rows(filterMap, columns, later, history, log[1..])
      case Data(t, values) =>
        var d := descrs[t];
        if d.name !in filterMap then Rows(filterMap, columns, later, history, log[1..])
        else
          var now := history + Given(d.name, filterMap[d.name], Labelled(d.labels, values));
          [RowOf(columns, now)] + Rows(filterMap, columns, later, now, log[1..])
  }

  /** The configuration in which every shown message prints a row. */
  predicate RowPerMessage(cfg: Config) {
    !cfg.debugOut && cfg.timeMsg == None
  }

  /** One data message: a row if the message is shown, nothing otherwise. */
  lemma DataMessage(cfg: Config, st: State, t: byte, values: seq<Value>, history: History)
    requires RowPerMessage(cfg) && st.filterMap != map[]
    requires AllUsable(st.descrs) && Fitting(st.descrs, Data(t, values))
    requires Remembers(st.csvData, history)
    ensures var d := st.descrs[t];
            var e := ParseMsg(cfg, st, d, PackValues(values));
            && e.error == None
            && e.state == st.(csvData := e.state.csvData)
            && (d.name !in st.filterMap ==> e.outputs == [] && e.state == st)
            && (d.name in st.filterMap ==>
                  var now := history + Given(d.name, st.filterMap[d.name], Labelled(d.labels, values));
                  && e.outputs == [RowOf(st.columns, now)]
                  && Remembers(e.state.csvData, now))
  {
    var d := st.descrs[t];
    UnpackPacked(d.format, values);
    assert |st.filterMap| > 0;
    if d.name in st.filterMap {
      var fields := st.filterMap[d.name];
      var pairs := Labelled(d.labels, values);
      var now := history + Given(d.name, fields, pairs);
      StoreRemembers(st.csvData, history, d.name, fields, pairs);
      RowsAgree(st.(csvData := Store(st.csvData, d.name, fields, pairs)), now);
    }
  }

  /** After the first data message the table refines the history. */
  lemma {:induction false} RowsFollowHistory(cfg: Config, st: State, log: seq<Item>, history: History)
    requires RowPerMessage(cfg) && !st.firstDataMsg && st.filterMap != map[]
    requires AllUsable(st.descrs) && WellFormed(st.descrs, log)
    requires Remembers(st.csvData, history)
    ensures Replay(cfg, st, log).0 == Rows(st.filterMap, st.columns, st.descrs, history, log)
    decreases log
  {
    if log == [] {
    } else {
      OnItemSucceeds(cfg, st, log[0]);
      var e := OnItem(cfg, st, log[0]);
      match log[0] {
        case Format(t, d) =>
          RowsFollowHistory(cfg, e.state, log[1..], history);
        case Data(t, values) =>
          DataMessage(cfg, st, t, values, history);
          var d := st.descrs[t];
          assert st.(firstDataMsg := false) == st;
          if d.name in st.filterMap {
            RowsFollowHistory(cfg, e.state, log[1..],
                              history + Given(d.name, st.filterMap[d.name], Labelled(d.labels, values)));
          } else {
            RowsFollowHistory(cfg, e.state, log[1..], history);
          }
      }
    }
  }

  // ---------- Rows grouped by time ----------

  /** The configuration that prints a row when a message of the time type closes a group of updates. */
  predicate RowPerTime(cfg: Config) {
    !cfg.debugOut && cfg.timeMsg.Some?
  }

  /** Does a message change a column, other than by being of the time type itself? */
  predicate Updates(time: Text, name: Text, given: History) {
    name != time && given != []
  }

  /** What a message adds to the history under this filter. */
  function GivenBy(filterMap: map<Text, Fields>, d: Descr, values: seq<Value>): History {
    if d.name in filterMap then Given(d.name, filterMap[d.name], Labelled(d.labels, values)) else []
  }

  /** The history so far, and whether an update still waits to be printed. */
  datatype Group = Group(history: History, open: bool)

  function Grown(time: Text, filterMap: map<Text, Fields>, g: Group, d: Descr, values: seq<Value>): Group {
    var given := GivenBy(filterMap, d, values);
    Group(g.history + given, (g.open && d.name != time) || Updates(time, d.name, given))
  }

  /** The row of the moment, if an update waits for it. */
  function OpenRow(columns: seq<Text>, g: Group): seq<Output> {
    if g.open then [RowOf(columns, g.history)] else []
  }

  /** The rows of a log grouped by time: before every time message that follows an update, the history so far. */
  function TimedRows(time: Text, filterMap: map<Text, Fields>, columns: seq<Text>, descrs: Descrs, g: Group,
                     log: seq<Item>): (r: seq<Output>)
    requires WellFormed(descrs, log)
    decreases log
  {
    if log == [] then []
    else
      var later := Declare(descrs, log[0]);
      match log[0]
      case Format(t, d) => TimedRows(time, filterMap, columns, later, g, log[1..])
      case Data(t, values) =>
        var d := descrs[t];
        (if d.name == time then OpenRow(columns, g) else [])
        + TimedRows(time, filterMap, columns, later, Grown(time, filterMap, g, d, values), log[1..])
  }

  function GroupAfter(time: Text, filterMap: map<Text, Fields>, descrs: Descrs, g: Group, log: seq<Item>): Group
    requires WellFormed(descrs, log)
    decreases log
  {
    if log == [] then g
    else
      var later := Declare(descrs, log[0]);
      match log[0]
      case Format(t, d) => GroupAfter(time, filterMap, later, g, log[1..])
      case Data(t, values) =>
        GroupAfter(time, filterMap, later, Grown(time, filterMap, g, descrs[t], values), log[1..])
  }

  lemma {:induction false} ShownIsGiven(name: Text, fields: Fields, pairs: seq<(Text, Value)>)
    ensures AnyShown(fields, pairs) <==> Given(name, fields, pairs) != []
    decreases pairs
  {
    if pairs == [] {
    } else {
      ShownIsGiven(name, fields, pairs[1..]);
      if AnyShown(fields, pairs[1..]) {
        var i :| 0 <= i < |pairs| - 1 && InFields(pairs[1..][i].0, fields);
        assert pairs[i + 1] == pairs[1..][i];
      }
      if AnyShown(fields, pairs) && !InFields(pairs[0].0, fields) {
        var i :| 0 <= i < |pairs| && InFields(pairs[i].0, fields);
        assert pairs[1..][i - 1] == pairs[i];
      }
    }
  }

  /** The parser's table and its flag stand for this group. */
  ghost predicate Stands(st: State, g: Group) {
    Remembers(st.csvData, g.history) && st.csvUpdated == g.open
  }

  /** One data message in this configuration. */
  lemma TimedMessage(cfg: Config, st: State, t: byte, values: seq<Value>, g: Group)
    requires RowPerTime(cfg) && st.filterMap != map[]
    requires AllUsable(st.descrs) && Fitting(st.descrs, Data(t, values))
    requires Stands(st, g)
    ensures var d := st.descrs[t];
            var e := ParseMsg(cfg, st, d, PackValues(values));
            && e.error == None
            && e.outputs == (if d.name == cfg.timeMsg.value then OpenRow(st.columns, g) else [])
            && e.state == st.(csvData := e.state.csvData, csvUpdated := e.state.csvUpdated)
            && Stands(e.state, Grown(cfg.timeMsg.value, st.filterMap, g, d, values))
  {
    var d := st.descrs[t];
    UnpackPacked(d.format, values);
    RowsAgree(st, g.history);
    assert |st.filterMap| > 0;
    if d.name in st.filterMap {
      var fields := st.filterMap[d.name];
      var pairs := Labelled(d.labels, values);
      StoreRemembers(st.csvData, g.history, d.name, fields, pairs);
      ShownIsGiven(d.name, fields, pairs);
    } else {
      assert g.history + [] == g.history;
    }
  }

  /** Grouped by time too, the table refines the history, and so does what the end of a block prints. */
  lemma {:induction false} TimedRowsFollowHistory(cfg: Config, st: State, log: seq<Item>, g: Group)
    requires RowPerTime(cfg) && !st.firstDataMsg && st.filterMap != map[]
    requires AllUsable(st.descrs) && WellFormed(st.descrs, log)
    requires Stands(st, g)
    ensures Replay(cfg, st, log).0 == TimedRows(cfg.timeMsg.value, st.filterMap, st.columns, st.descrs, g, log)
    ensures EndBlock(cfg, Replay(cfg, st, log).1)
         == OpenRow(st.columns, GroupAfter(cfg.timeMsg.value, st.filterMap, st.descrs, g, log))
    decreases log
  {
    if log == [] {
      RowsAgree(st, g.history);
    } else {
      OnItemSucceeds(cfg, st, log[0]);
      var e := OnItem(cfg, st, log[0]);
      match log[0] {
        case Format(t, d) =>
          TimedRowsFollowHistory(cfg, e.state, log[1..], g);
        case Data(t, values) =>
          TimedMessage(cfg, st, t, values, g);
          assert st.(firstDataMsg := false) == st;
          TimedRowsFollowHistory(cfg, e.state, log[1..],
                                 Grown(cfg.timeMsg.value, st.filterMap, g, st.descrs[t], values));
      }
    }
  }

  // ---------- The whole table ----------

  type Labels = map<Text, seq<Text>>

  function ShownFields(labels: Labels, entry: (Text, Fields)): seq<Text> {
    match entry.1
    case Only(chosen) => chosen
    case All => if entry.0 in labels then labels[entry.0] else []
  }

  /** The columns a filter asks for, message by message, each named after its message. */
  function ColumnsFor(labels: Labels, filter: seq<(Text, Fields)>): seq<Text>
    decreases filter
  {
    if filter == [] then []
    else ColumnsOf(filter[0].0, ShownFields(labels, filter[0])) + ColumnsFor(labels, filter[1..])
  }

  /** The fields a filter shows of each message; a later entry for the same message replaces an earlier one. */
  function ShownBy(labels: Labels, filter: seq<(Text, Fields)>): map<Text, Fields>
    decreases filter
  {
    if filter == [] then map[]
    else map[filter[0].0 := Only(ShownFields(labels, filter[0]))] + ShownBy(labels, filter[1..])
  }

  lemma MergeOne(m: map<Text, Fields>, name: Text, fields: Fields, more: map<Text, Fields>)
    ensures m[name := fields] + more == m + (map[name := fields] + more)
  {
  }

  lemma {:induction false} AddAllColumnsIs(st: State, filter: seq<(Text, Fields)>)
    ensures AddAllColumns(st, filter)
         == st.(columns := st.columns + ColumnsFor(st.labels, filter),
                filterMap := st.filterMap + ShownBy(st.labels, filter))
    decreases filter
  {
    if filter == [] {
      assert st.columns + [] == st.columns;
      assert st.filterMap + map[] == st.filterMap;
    } else {
      var next := AddColumns(st, filter[0]);
      var fields := ShownFields(st.labels, filter[0]);
      AddAllColumnsIs(next, filter[1..]);
      ConcatAssociative(st.columns, ColumnsOf(filter[0].0, fields), ColumnsFor(st.labels, filter[1..]));
      MergeOne(st.filterMap, filter[0].0, Only(fields), ShownBy(st.labels, filter[1..]));
    }
  }

  function FilterInForce(filter: seq<(Text, Fields)>, names: seq<Text>): seq<(Text, Fields)> {
    if filter == [] then Everything(names) else filter
  }

  /** The rows of a table, and the row that the end of a block would add. */
  datatype Csv = Csv(rows: seq<Output>, open: seq<Output>)

  /**
   The table of a log: nothing until the first data message, then a header with the columns that can be known
   by then, then the rows: one for every message shown, or grouped by time.
   */
  function Table(timeMsg: Option<Text>, filter: seq<(Text, Fields)>, descrs: Descrs, labels: Labels,
                 names: seq<Text>, log: seq<Item>): Csv
    requires WellFormed(descrs, log)
    decreases log
  {
    if log == [] then Csv([], [])
    else
      match log[0]
      case Format(t, d) =>
        if t == TYPE_FORMAT then Table(timeMsg, filter, descrs, labels, names, log[1..])
        else Table(timeMsg, filter, descrs[t := d], labels[d.name := d.labels], names + [d.name], log[1..])
      case Data(_, _) =>
        var inForce := FilterInForce(filter, names);
        var columns, shown := ColumnsFor(labels, inForce), ShownBy(labels, inForce);
        if timeMsg.None? then Csv([HeaderRow(columns)] + Rows(shown, columns, descrs, [], log), [])
        else
          var time, start := timeMsg.value, Group([], false);
          Csv([HeaderRow(columns)] + TimedRows(time, shown, columns, descrs, start, log),
              OpenRow(columns, GroupAfter(time, shown, descrs, start, log)))
  }

  lemma ShownByIsNotEmpty(labels: Labels, filter: seq<(Text, Fields)>)
    requires filter != []
    ensures ShownBy(labels, filter) != map[]
  {
    assert filter[0].0 in ShownBy(labels, filter);
  }

  /** The first data message prints the header and goes on as if the columns had always been there. */
  lemma FirstDataMessage(cfg: Config, st: State, log: seq<Item>, ready: State)
    requires !cfg.debugOut && st.firstDataMsg
    requires AllUsable(st.descrs) && WellFormed(st.descrs, log) && log != [] && log[0].Data?
    requires ready == InitCsv(st).(firstDataMsg := false) && ready.descrs == st.descrs
    ensures Replay(cfg, st, log).0 == [HeaderRow(ready.columns)] + Replay(cfg, ready, log).0
    ensures Replay(cfg, st, log).1 == Replay(cfg, ready, log).1
  {
    var d := st.descrs[log[0].typ];
    var body := PackValues(log[0].values);
    OnItemSucceeds(cfg, st, log[0]);
    OnItemSucceeds(cfg, ready, log[0]);
    assert ready.(firstDataMsg := false) == ready;
    var e := ParseMsg(cfg, ready, d, body);
    assert OnItem(cfg, ready, log[0]) == e;
    assert OnItem(cfg, st, log[0]) == e.(outputs := [HeaderRow(ready.columns)] + e.outputs);
    ConcatAssociative([HeaderRow(ready.columns)], e.outputs, Replay(cfg, e.state, log[1..]).0);
  }

  predicate Blank(st: State) {
    && st.firstDataMsg && st.filterMap == map[] && st.columns == [] && st.csvData == map[] && !st.csvUpdated
    && (st.names == [] ==> st.descrs == map[])
  }

  lemma FirstColumns(st: State) returns (ready: State)
    requires Blank(st) && st.names != []
    ensures var inForce := FilterInForce(st.msgFilter, st.names);
            && ready == InitCsv(st).(firstDataMsg := false)
            && ready.columns == ColumnsFor(st.labels, inForce)
            && ready.filterMap == ShownBy(st.labels, inForce) != map[]
            && ready.descrs == st.descrs
            && ready.csvData == map[] && !ready.csvUpdated
  {
    var inForce := FilterInForce(st.msgFilter, st.names);
    ready := InitCsv(st).(firstDataMsg := false);
    AddAllColumnsIs(st.(msgFilter := inForce), inForce);
    assert [] + ColumnsFor(st.labels, inForce) == ColumnsFor(st.labels, inForce);
    assert map[] + ShownBy(st.labels, inForce) == ShownBy(st.labels, inForce);
    ShownByIsNotEmpty(st.labels, inForce);
  }

  /** A fresh parser prints the table of the log, and at the end of a block the row that is open. */
  lemma {:induction false} ReplayIsTable(cfg: Config, st: State, log: seq<Item>)
    requires !cfg.debugOut && Blank(st)
    requires AllUsable(st.descrs) && WellFormed(st.descrs, log)
    ensures var (outputs, last) := Replay(cfg, st, log);
            Csv(outputs, EndBlock(cfg, last)) == Table(cfg.timeMsg, st.msgFilter, st.descrs, st.labels, st.names, log)
    decreases log
  {
    if log == [] {
    } else if log[0].Format? {
      OnItemSucceeds(cfg, st, log[0]);
      ReplayIsTable(cfg, OnItem(cfg, st, log[0]).state, log[1..]);
    } else {
      assert log[0].typ in st.descrs;
      var ready := FirstColumns(st);
      FirstDataMessage(cfg, st, log, ready);
      if cfg.timeMsg.Some? {
        TimedRowsFollowHistory(cfg, ready, log, Group([], false));
      } else {
        RowsFollowHistory(cfg, ready, log, []);
      }
    }
  }

  /** The table of the first `k` items of a log. */
  function TableUpTo(timeMsg: Option<Text>, filter: seq<(Text, Fields)>, log: seq<Item>, k: nat): Csv
    requires WellFormed(map[], log) && k <= |log|
  {
    PacketsUpTo(map[], log, k);
    Table(timeMsg, filter, map[], map[], [], log[..k])
  }

  /**
   The table printed block by block, when `counts` items are complete at the ends of the blocks and `before`
   items before them: the rows that are new, and then the row that is open.
   */
  function TableInBlocks(timeMsg: Option<Text>, filter: seq<(Text, Fields)>, log: seq<Item>, before: nat,
                         counts: seq<nat>): seq<Output>
    requires WellFormed(map[], log) && before <= |log|
    requires forall i :: 0 <= i < |counts| ==> counts[i] <= |log|
    decreases |counts|
  {
    if counts == [] then []
    else
      var now := TableUpTo(timeMsg, filter, log, counts[0]);
      Drop(now.rows, |TableUpTo(timeMsg, filter, log, before).rows|) + now.open
      + TableInBlocks(timeMsg, filter, log, counts[0], counts[1..])
  }

  lemma ReplayUpToIsTable(cfg: Config, filter: seq<(Text, Fields)>, log: seq<Item>, k: nat)
    requires !cfg.debugOut && WellFormed(map[], log) && k <= |log|
    ensures var (outputs, last) := ReplayUpTo(cfg, Reset(cfg, filter), log, k);
            Csv(outputs, EndBlock(cfg, last)) == TableUpTo(cfg.timeMsg, filter, log, k)
  {
    PacketsUpTo(map[], log, k);
    ReplayIsTable(cfg, Reset(cfg, filter), log[..k]);
  }

  lemma {:induction false} ReplayInBlocksIsTable(cfg: Config, filter: seq<(Text, Fields)>, log: seq<Item>,
                                                 before: nat, counts: seq<nat>)
    requires !cfg.debugOut && WellFormed(map[], log) && before <= |log|
    requires forall i :: 0 <= i < |counts| ==> counts[i] <= |log|
    ensures ReplayInBlocks(cfg, Reset(cfg, filter), log, before, counts)
         == TableInBlocks(cfg.timeMsg, filter, log, before, counts)
    decreases |counts|
  {
    if counts != [] {
      ReplayUpToIsTable(cfg, filter, log, before);
      ReplayUpToIsTable(cfg, filter, log, counts[0]);
      ReplayInBlocksIsTable(cfg, filter, log, counts[0], counts[1..]);
    }
  }

  /**
   The CSV tool as a whole: for every well-formed log, every cutting into blocks, and with recovery on every
   junk without the pair A3 95 between packets, it prints the table of the log; grouped by time it also prints,
   at the end of each block, the row that is open. A file that ends in the middle of a packet is read up to it.
   */
  lemma CsvInBlocks(cfg: Config, filter: seq<(Text, Fields)>, junk: seq<seq<byte>>, log: seq<Item>,
                    trailing: seq<byte>, blocks: seq<seq<byte>>)
    requires !cfg.debugOut
    requires WellFormed(map[], log) && |junk| == |log|
    requires AllSkippable(cfg, junk) && Skippable(cfg, trailing)
    requires Flatten(blocks) <= Weave(junk, Packets(map[], log)) + trailing
    ensures var p := Feed(TurnOf(cfg), EndBlockOf(cfg), Reset(cfg, filter), 0, [], blocks);
            var counts := Arrived(junk, Packets(map[], log), 0, blocks);
            p.error == None && p.outputs == TableInBlocks(cfg.timeMsg, filter, log, 0, counts)
  {
    LogInBlocks(cfg, filter, junk, log, trailing, blocks);
    ReplayInBlocksIsTable(cfg, filter, log, 0, Arrived(junk, Packets(map[], log), 0, blocks));
  }

  /** The table of a whole log is all there and in order, and unless rows are grouped by time nothing else is. */
  lemma CsvOfLog(cfg: Config, filter: seq<(Text, Fields)>, junk: seq<seq<byte>>, log: seq<Item>,
                 trailing: seq<byte>, blocks: seq<seq<byte>>)
    requires !cfg.debugOut
    requires WellFormed(map[], log) && |junk| == |log|
    requires AllSkippable(cfg, junk) && Skippable(cfg, trailing)
    requires Flatten(blocks) == Weave(junk, Packets(map[], log)) + trailing
    ensures var p := Feed(TurnOf(cfg), EndBlockOf(cfg), Reset(cfg, filter), 0, [], blocks);
            var table := Table(cfg.timeMsg, filter, map[], map[], [], log).rows;
            && p.error == None
            && (cfg.timeMsg == None ==> p.outputs == table)
            && Subsequence(table, p.outputs)
  {
    LogRoundTrip(cfg, filter, junk, log, trailing, blocks);
    ReplayIsTable(cfg, Reset(cfg, filter), log);
  }

  // ---------- Does the block size matter? ----------

  /** What the tool prints for a file read in blocks of this size. */
  function Dump(cfg: Config, filter: seq<(Text, Fields)>, file: seq<byte>, blockSize: nat): seq<Output>
    requires blockSize > 0
  {
    Feed(TurnOf(cfg), EndBlockOf(cfg), Reset(cfg, filter), 0, [], Blocks(file, blockSize)).outputs
  }

  /** A name that is not the one of the time messages. */
  function OtherName(time: Text): (name: Text)
    ensures name != time && |name| == 1 && name[0] != 0
  {
    if time == ['A' as int] then ['B' as int] else ['A' as int]
  }

  /** A log of one FORMAT message and two data messages of one byte each. */
  function ThreeMessages(name: Text): seq<Item> {
    var value := Value('b' as int, [0]);
    [Format(1, Descr(4, name, ['b' as int], [['x' as int]])), Data(1, [value]), Data(1, [value])]
  }

  const NO_JUNK: seq<seq<byte>> := [[], [], []]

  lemma ThreeMessagesWellFormed(name: Text)
    requires |name| == 1 && name[0] != 0
    ensures WellFormed(map[], ThreeMessages(name))
    ensures var packets := Packets(map[], ThreeMessages(name));
            |packets| == 3 && |packets[0]| == FORMAT_PACKET_LEN && |packets[1]| == |packets[2]| == 4
  {
    var log := ThreeMessages(name);
    var d, values := log[0].descr, log[1].values;
    assert Writable(d) && Usable(d);
    assert Fits(d.format, values);
    var known := map[1 as byte := d];
    assert Declare(map[], log[0]) == known && Declare(known, log[1]) == known;
    assert WellFormed(known, log[2..]) && WellFormed(known, log[1..][1..]);
    assert WellFormed(known, log[1..]);
    assert PackValues(values) == [0];
    assert Packets(known, log[1..])[1..] == Packets(known, log[2..]);
  }

  /** Data messages that all update a column, none of them of the time type, print nothing and leave a row open. */
  lemma {:induction false} OnlyUpdates(time: Text, shown: map<Text, Fields>, columns: seq<Text>, descrs: Descrs,
                                       g: Group, log: seq<Item>)
    requires WellFormed(descrs, log) && (g.open || log != [])
    requires forall i :: 0 <= i < |log| ==>
               && log[i].Data? && log[i].typ in descrs && descrs[log[i].typ].name != time
               && GivenBy(shown, descrs[log[i].typ], log[i].values) != []
    ensures TimedRows(time, shown, columns, descrs, g, log) == []
    ensures GroupAfter(time, shown, descrs, g, log).open
    decreases log
  {
    if log != [] {
      OnlyUpdates(time, shown, columns, descrs, Grown(time, shown, g, descrs[log[0].typ], log[0].values), log[1..]);
    }
  }

  /** After the first data message one header is printed and one row is open, and so after the second. */
  lemma ThreeMessagesTable(time: Text, name: Text, k: nat)
    requires name != time && 2 <= k <= 3
    requires WellFormed(map[], ThreeMessages(name))
    ensures var table := TableUpTo(Some(time), [], ThreeMessages(name), k);
            |table.rows| == 1 && |table.open| == 1
  {
    var log := ThreeMessages(name);
    var d, values := log[0].descr, log[1].values;
    var labels: seq<Text> := d.labels;
    PacketsUpTo(map[], log, k);
    var descrs, data := map[1 as byte := d], log[..k][1..];
    var inForce := FilterInForce([], [name]);
    assert inForce == [(name, All)];
    var known := map[name := labels];
    var shown, columns := ShownBy(known, inForce), ColumnsFor(known, inForce);
    assert shown == map[name := Only(labels)] by {
      assert inForce[1..] == [] && ShownFields(known, inForce[0]) == labels;
      assert ShownBy(known, []) == map[];
    }
    assert GivenBy(shown, d, values) != [] by {
      assert Labelled(labels, values)[0] == (labels[0], values[0]);
    }
    OnlyUpdates(time, shown, columns, descrs, Group([], false), data);
    var none: Descrs, noLabels: Labels, noNames: seq<Text> := map[], map[], [];
    assert none[1 := d] == descrs && noLabels[name := labels] == known && noNames + [name] == [name];
    assert TableUpTo(Some(time), [], log, k) == Table(Some(time), [], descrs, known, [name], data);
  }

  /** Printed at once, such a log gives the header and one row; interrupted after two messages, one row more. */
  lemma RowsInBlocks(time: Text, name: Text, log: seq<Item>)
    requires name != time && log == ThreeMessages(name) && WellFormed(map[], log)
    ensures |TableInBlocks(Some(time), [], log, 0, [3])| == 2
    ensures |TableInBlocks(Some(time), [], log, 0, [2, 3])| == 3
  {
    ThreeMessagesTable(time, name, 2);
    ThreeMessagesTable(time, name, 3);
    assert TableUpTo(Some(time), [], log, 0) == Csv([], []);
    assert |TableInBlocks(Some(time), [], log, 2, [3])| == 1;
    assert [2, 3][1..] == [3] && [3][1..] == [];
  }

  /** Three packets without junk, and where they end. */
  lemma WeaveThree(packets: seq<seq<byte>>)
    requires |packets| == 3
    requires |packets[0]| == FORMAT_PACKET_LEN && |packets[1]| == |packets[2]| == 4
    ensures |Weave(NO_JUNK, packets)| == 97
    ensures Complete(NO_JUNK, packets, 95) == 2 && Complete(NO_JUNK, packets, 97) == 3
  {
    var later, last := NO_JUNK[1..], NO_JUNK[1..][1..];
    var two, one := packets[1..], packets[1..][1..];
    assert |Weave(last[1..], one[1..])| == 0 && |Weave(last, one)| == 4 && |Weave(later, two)| == 8;
    assert Complete(last, one, 2) == 0 && Complete(last[1..], one[1..], 0) == 0 && Complete(last, one, 4) == 1;
    assert Complete(later, two, 6) == 1 && Complete(later, two, 8) == 2;
  }

  lemma FewBlocks(file: seq<byte>, n: nat)
    requires 0 < n && 0 < |file| <= 2 * n
    ensures Blocks(file, n) == if |file| <= n then [file] else [file[..n], file[n..]]
  {
    assert Blocks([], n) == [];
    if |file| <= n {
      assert Take(file, n) == file && Drop(file, n) == [];
    } else {
      var last := file[n..];
      assert Take(last, n) == last && Drop(last, n) == [];
      assert Blocks(last, n) == [last];
    }
  }

  /** How many of the three messages are complete at the ends of these blocks. */
  lemma ArrivedOfThree(packets: seq<seq<byte>>, file: seq<byte>)
    requires |packets| == 3 && |file| == 97
    requires |packets[0]| == FORMAT_PACKET_LEN && |packets[1]| == |packets[2]| == 4
    ensures Arrived(NO_JUNK, packets, 0, [file]) == [3]
    ensures Arrived(NO_JUNK, packets, 0, [file[..95], file[95..]]) == [2, 3]
    ensures Flatten([file]) == file && Flatten([file[..95], file[95..]]) == file
  {
    WeaveThree(packets);
    var a, b := file[..95], file[95..];
    assert [a, b][1..] == [b];
    assert Flatten([b]) == b && a + b == file;
    assert Arrived(NO_JUNK, packets, 95, [b]) == [3];
  }

  /** All 97 bytes of such a log in one block: the header and one row. */
  lemma OneBlock(cfg: Config, name: Text)
    requires !cfg.debugOut && cfg.timeMsg.Some? && name != cfg.timeMsg.value
    requires |name| == 1 && name[0] != 0 && WellFormed(map[], ThreeMessages(name))
    ensures |Dump(cfg, [], Weave(NO_JUNK, Packets(map[], ThreeMessages(name))), 97)| == 2
  {
    var log := ThreeMessages(name);
    var packets := Packets(map[], log);
    var file := Weave(NO_JUNK, packets);
    ThreeMessagesWellFormed(name);
    WeaveThree(packets);
    FewBlocks(file, 97);
    ArrivedOfThree(packets, file);
    assert file + [] == file;
    CsvInBlocks(cfg, [], NO_JUNK, log, [], [file]);
    RowsInBlocks(cfg.timeMsg.value, name, log);
  }

  /** Read in blocks of 95 bytes it ends the first of them within the last message: the header and two rows. */
  lemma TwoBlocks(cfg: Config, name: Text)
    requires !cfg.debugOut && cfg.timeMsg.Some? && name != cfg.timeMsg.value
    requires |name| == 1 && name[0] != 0 && WellFormed(map[], ThreeMessages(name))
    ensures |Dump(cfg, [], Weave(NO_JUNK, Packets(map[], ThreeMessages(name))), 95)| == 3
  {
    var log := ThreeMessages(name);
    var packets := Packets(map[], log);
    var file := Weave(NO_JUNK, packets);
    ThreeMessagesWellFormed(name);
    WeaveThree(packets);
    FewBlocks(file, 95);
    var blocks := [file[..95], file[95..]];
    ArrivedOfThree(packets, file);
    assert file + [] == file;
    CsvInBlocks(cfg, [], NO_JUNK, log, [], blocks);
    RowsInBlocks(cfg.timeMsg.value, name, log);
  }

  /** What is printed is the same for every block size, filter and file, exactly when rows are not grouped by time. */
  lemma BlockSizeMattersIff(cfg: Config)
    ensures (forall filter, file, m: nat, n: nat {:trigger Dump(cfg, filter, file, m), Dump(cfg, filter, file, n)} |
               m > 0 && n > 0 :: Dump(cfg, filter, file, m) == Dump(cfg, filter, file, n))
       <==> cfg.debugOut || cfg.timeMsg == None
  {
    if cfg.debugOut || cfg.timeMsg == None {
      forall filter, file, n: nat | n > 0
        ensures Dump(cfg, filter, file, n) == Drain(TurnOf(cfg), Reset(cfg, filter), 0, file).outputs
      {
        TurnsAreLocal(cfg);
        FeedIsDrain(TurnOf(cfg), EndBlockOf(cfg), Reset(cfg, filter), 0, [], Blocks(file, n));
        assert [] + file == file;
      }
    } else {
      var name := OtherName(cfg.timeMsg.value);
      ThreeMessagesWellFormed(name);
      OneBlock(cfg, name);
      TwoBlocks(cfg, name);
    }
  }

  // ---------- Does the file before matter? ----------

  /** The filter a run leaves to the next one with the same parser. */
  function FilterAfter(cfg: Config, filter: seq<(Text, Fields)>, file: seq<byte>, blockSize: nat)
    : seq<(Text, Fields)>
    requires blockSize > 0
  {
    Feed(TurnOf(cfg), EndBlockOf(cfg), Reset(cfg, filter), 0, [], Blocks(file, blockSize)).state.msgFilter
  }

  lemma ParseMsgKeepsFilter(cfg: Config, st: State, d: Descr, body: seq<byte>)
    ensures var next := ParseMsg(cfg, st, d, body).state;
            next.msgFilter == st.msgFilter && next.firstDataMsg == st.firstDataMsg
  {
  }

  /** The first data message fills in a filter that is missing. */
  lemma OnDataFillsFilter(cfg: Config, st: State, d: Descr, body: seq<byte>)
    ensures var next := OnData(cfg, st, d, body).state;
            && !next.firstDataMsg
            && next.msgFilter == if st.firstDataMsg && !cfg.debugOut then EffectiveFilter(st) else st.msgFilter
  {
    if st.firstDataMsg && !cfg.debugOut {
      AddAllColumnsIs(st.(msgFilter := EffectiveFilter(st)), EffectiveFilter(st));
      ParseMsgKeepsFilter(cfg, InitCsv(st).(firstDataMsg := false), d, body);
    } else {
      ParseMsgKeepsFilter(cfg, st.(firstDataMsg := false), d, body);
    }
  }

  /** A filter that was given, or that debug output does not need, is never filled in. */
  lemma NextKeepsFilter(cfg: Config, st: State, at: nat, bytes: seq<byte>)
    requires cfg.debugOut || st.msgFilter != []
    requires Next(cfg, st, at, bytes).Consume?
    ensures Next(cfg, st, at, bytes).effect.state.msgFilter == st.msgFilter
  {
    if bytes[0] == HEAD1 && bytes[1] == HEAD2 && bytes[2] != TYPE_FORMAT && bytes[2] in st.descrs {
      var d := st.descrs[bytes[2]];
      OnDataFillsFilter(cfg, st, d, if d.length < HEADER_LEN then [] else bytes[HEADER_LEN..d.length]);
    }
  }

  lemma FilterStays(cfg: Config, filter: seq<(Text, Fields)>, file: seq<byte>, n: nat)
    requires (cfg.debugOut || filter != []) && n > 0
    ensures FilterAfter(cfg, filter, file, n) == filter
  {
    var turn, kept := TurnOf(cfg), (st: State) => st.msgFilter == filter;
    forall st: State, at: nat, bytes | kept(st) && turn(st, at, bytes).Consume?
      ensures kept(turn(st, at, bytes).effect.state)
    {
      NextKeepsFilter(cfg, st, at, bytes);
    }
    FeedKeeps(turn, EndBlockOf(cfg), kept, Reset(cfg, filter), 0, [], Blocks(file, n));
  }

  /** The filter a log leaves: the one given, or every message described before the first data message. */
  function FilterLeft(filter: seq<(Text, Fields)>, names: seq<Text>, log: seq<Item>): seq<(Text, Fields)>
    decreases log
  {
    if log == [] then filter
    else
      match log[0]
      case Format(t, d) => FilterLeft(filter, if t == TYPE_FORMAT then names else names + [d.name], log[1..])
      case Data(_, _) => FilterInForce(filter, names)
  }

  /** After the first data message the filter stays. */
  lemma {:induction false} ReplayKeepsFilter(cfg: Config, st: State, log: seq<Item>)
    requires !st.firstDataMsg
    requires AllUsable(st.descrs) && WellFormed(st.descrs, log)
    ensures Replay(cfg, st, log).1.msgFilter == st.msgFilter
    decreases log
  {
    if log != [] {
      OnItemSucceeds(cfg, st, log[0]);
      if log[0].Data? {
        OnDataFillsFilter(cfg, st, st.descrs[log[0].typ], PackValues(log[0].values));
      }
      ReplayKeepsFilter(cfg, OnItem(cfg, st, log[0]).state, log[1..]);
    }
  }

  lemma {:induction false} ReplayLeavesFilter(cfg: Config, st: State, log: seq<Item>)
    requires !cfg.debugOut && st.firstDataMsg
    requires AllUsable(st.descrs) && WellFormed(st.descrs, log)
    ensures Replay(cfg, st, log).1.msgFilter == FilterLeft(st.msgFilter, st.names, log)
    decreases log
  {
    if log != [] {
      OnItemSucceeds(cfg, st, log[0]);
      var next := OnItem(cfg, st, log[0]).state;
      if log[0].Format? {
        ReplayLeavesFilter(cfg, next, log[1..]);
      } else {
        OnDataFillsFilter(cfg, st, st.descrs[log[0].typ], PackValues(log[0].values));
        ReplayKeepsFilter(cfg, next, log[1..]);
      }
    }
  }

  /** What a well-formed log leaves as the filter, however it is cut into blocks. */
  lemma LogLeavesFilter(cfg: Config, filter: seq<(Text, Fields)>, log: seq<Item>, junk: seq<seq<byte>>, file: seq<byte>,
                        n: nat)
    requires !cfg.debugOut && n > 0
    requires WellFormed(map[], log) && |junk| == |log| && AllSkippable(cfg, junk)
    requires file == Weave(junk, Packets(map[], log))
    ensures FilterAfter(cfg, filter, file, n) == FilterLeft(filter, [], log)
  {
    assert file + [] == file;
    LogRoundTrip(cfg, filter, junk, log, [], Blocks(file, n));
    ReplayLeavesFilter(cfg, Reset(cfg, filter), log);
  }

  /** The columns of a file of the three messages. */
  function ColumnsOfThree(name: Text, filter: seq<(Text, Fields)>): seq<Text> {
    ColumnsFor(map[name := [['x' as int]]], FilterInForce(filter, [name]))
  }

  /** Such a file begins its table with these columns. */
  lemma HeaderOfThree(cfg: Config, filter: seq<(Text, Fields)>, name: Text)
    requires !cfg.debugOut && |name| == 1 && name[0] != 0 && WellFormed(map[], ThreeMessages(name))
    ensures var file := Weave(NO_JUNK, Packets(map[], ThreeMessages(name)));
            Dump(cfg, filter, file, 97) != []
            && Dump(cfg, filter, file, 97)[0] == HeaderRow(ColumnsOfThree(name, filter))
  {
    var log := ThreeMessages(name);
    var packets := Packets(map[], log);
    var file := Weave(NO_JUNK, packets);
    ThreeMessagesWellFormed(name);
    WeaveThree(packets);
    FewBlocks(file, 97);
    ArrivedOfThree(packets, file);
    assert file + [] == file;
    CsvInBlocks(cfg, filter, NO_JUNK, log, [], [file]);
    TableOfThree(cfg.timeMsg, filter, name, log);
  }

  lemma TableOfThree(timeMsg: Option<Text>, filter: seq<(Text, Fields)>, name: Text, log: seq<Item>)
    requires log == ThreeMessages(name) && WellFormed(map[], log)
    ensures var rows := TableInBlocks(timeMsg, filter, log, 0, [3]);
            rows != [] && rows[0] == HeaderRow(ColumnsOfThree(name, filter))
  {
    var d := log[0].descr;
    var none: Descrs, noLabels: Labels, noNames: seq<Text> := map[], map[], [];
    assert noLabels[name := d.labels] == map[name := d.labels] && noNames + [name] == [name];
    assert log[..3] == log && log[1..][0].Data?;
    assert TableUpTo(timeMsg, filter, log, 0) == Csv([], []);
    var table := TableUpTo(timeMsg, filter, log, 3);
    assert table == Table(timeMsg, filter, none[1 := d], map[name := d.labels], [name], log[1..]);
    assert table.rows[0] == HeaderRow(ColumnsOfThree(name, filter));
    assert Drop(table.rows, 0) == table.rows;
  }

  lemma ColumnsDiffer(a: Text, b: Text)
    requires a != b
    ensures |ColumnsOfThree(b, [(a, All)])| == 0 && |ColumnsOfThree(b, [])| == 1
  {
    var labels := map[b := [['x' as int]]];
    var left, inForce := [(a, All)], FilterInForce([], [b]);
    assert inForce == [(b, All)] && left[1..] == [] && inForce[1..] == [];
    assert a !in labels && ShownFields(labels, left[0]) == [] && ColumnsOf(a, []) == [];
    assert ColumnsFor(labels, left) == [];
    assert |ShownFields(labels, inForce[0])| == 1 && |ColumnsFor(labels, inForce)| == 1;
  }

  /** After a file of messages of one name, a file of messages of another has no columns left. */
  lemma SecondRunDiffers(cfg: Config, a: Text, b: Text)
    requires !cfg.debugOut && a != b && |a| == |b| == 1 && a[0] != 0 && b[0] != 0
    ensures WellFormed(map[], ThreeMessages(a)) && WellFormed(map[], ThreeMessages(b))
    ensures var first := Weave(NO_JUNK, Packets(map[], ThreeMessages(a)));
            var second := Weave(NO_JUNK, Packets(map[], ThreeMessages(b)));
            Dump(cfg, FilterAfter(cfg, [], first, 97), second, 97) != Dump(cfg, [], second, 97)
  {
    ThreeMessagesWellFormed(a);
    ThreeMessagesWellFormed(b);
    var first := Weave(NO_JUNK, Packets(map[], ThreeMessages(a)));
    LogLeavesFilter(cfg, [], ThreeMessages(a), NO_JUNK, first, 97);
    var left := FilterLeft([], [], ThreeMessages(a));
    assert left == [(a, All)];
    HeaderOfThree(cfg, left, b);
    HeaderOfThree(cfg, [], b);
    ColumnsDiffer(a, b);
    var second := Weave(NO_JUNK, Packets(map[], ThreeMessages(b)));
    assert ColumnsOfThree(b, left) != ColumnsOfThree(b, []);
    assert Dump(cfg, left, second, 97)[0] != Dump(cfg, [], second, 97)[0];
  }

  /**
   A run prints what a fresh parser would, whatever file the parser has dumped before, exactly if output is for
   debugging or a filter was given: an empty filter is filled in by the first file and decides the columns of the
   second.
   */
  lemma FilterOutlivesRunIff(cfg: Config, filter: seq<(Text, Fields)>)
    ensures (forall first, second, n: nat {:trigger Dump(cfg, FilterAfter(cfg, filter, first, n), second, n)} |
               n > 0 :: Dump(cfg, FilterAfter(cfg, filter, first, n), second, n) == Dump(cfg, filter, second, n))
       <==> cfg.debugOut || filter != []
  {
    if cfg.debugOut || filter != [] {
      forall first, second, n: nat | n > 0
        ensures Dump(cfg, FilterAfter(cfg, filter, first, n), second, n) == Dump(cfg, filter, second, n)
      {
        FilterStays(cfg, filter, first, n);
      }
    } else {
      SecondRunDiffers(cfg, ['A' as int], ['B' as int]);
    }
  }
}
