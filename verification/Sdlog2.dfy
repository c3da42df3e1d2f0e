/** The sdlog2 dump tool itself: the parser object with the fields its methods update. */
module Sdlog2 {
  import opened Sequences
  import opened BlockLoop
  import opened Sdlog2Format
  import opened Sdlog2Parser

  /** Is this the turn of the parser's inner loop? */
  ghost predicate Follows(cfg: Config, turn: LogTurn) {
    forall st, at, bytes {:trigger Next(cfg, st, at, bytes)} :: turn(st, at, bytes) == Next(cfg, st, at, bytes)
  }

  class SDLog2Parser {
    const cfg: Config
    const blockSize: nat
    var msgDescrs: map<byte, Descr>
    var msgLabels: map<Text, seq<Text>>
    var msgNames: seq<Text>
    var msgFilter: seq<(Text, Fields)>
    var msgFilterMap: map<Text, Fields>
    var buffer: seq<byte>
    var ptr: nat
    var csvColumns: seq<Text>
    var csvData: map<Text, Value>
    var csvUpdated: bool
    var printed: seq<Output>

    ghost function Now(firstDataMsg: bool): State
      reads this
    {
      State(msgDescrs, msgLabels, msgNames, msgFilter, msgFilterMap, csvColumns, csvData, csvUpdated, firstDataMsg)
    }

    constructor (cfg: Config, blockSize: nat, msgFilter: seq<(Text, Fields)>)
      requires blockSize > 0
      ensures this.cfg == cfg && this.blockSize == blockSize && this.msgFilter == msgFilter && printed == []
    {
      this.cfg, this.blockSize, this.msgFilter, printed := cfg, blockSize, msgFilter, [];
      msgDescrs, msgLabels, msgNames, msgFilterMap := map[], map[], [], map[];
      buffer, ptr, csvColumns, csvData, csvUpdated := [], 0, [], map[], false;
    }

    method ResetState()
      modifies this
      ensures Now(true) == Reset(cfg, old(msgFilter)).(filterMap := map[])
      ensures buffer == [] && ptr == 0 && printed == old(printed)
    {
      msgDescrs, msgLabels, msgNames := map[], map[], [];
      buffer, ptr, csvColumns, csvData, csvUpdated := [], 0, [], map[], false;
      msgFilterMap := map[];
    }

    /** For debug output the filter is taken as it was given. */
    method InitFilterMap()
      requires msgFilterMap == map[]
      modifies this`msgFilterMap
      ensures msgFilterMap == FilterMap(msgFilter)
    {
      var filter := msgFilter;
      for i := 0 to |filter|
        invariant msgFilterMap == FilterMap(filter[..i])
      {
        assert filter[..i + 1][..i] == filter[..i];
        msgFilterMap := msgFilterMap[filter[i].0 := filter[i].1];
      }
      assert filter[..|filter|] == filter;
    }

    /** Without a filter, ask for all fields of all messages known. */
    method DefaultFilter()
      modifies this`msgFilter
      ensures msgFilter == EffectiveFilter(old(Now(true)))
    {
      if msgFilter == [] {
        var names := msgNames;
        for i := 0 to |names|
          invariant msgFilter == Everything(names)[..i]
        {
          msgFilter := msgFilter + [(names[i], All)];
        }
        assert Everything(names)[..|names|] == Everything(names);
      }
    }

    method InitCSV()
      modifies this
      ensures Now(true) == InitCsv(old(Now(true)))
      ensures printed == old(printed) + [HeaderRow(csvColumns)]
      ensures buffer == old(buffer) && ptr == old(ptr)
    {
      DefaultFilter();
      ghost var start := Now(true);
      var filter := msgFilter;
      assert filter[0..] == filter;
      for i := 0 to |filter|
        invariant AddAllColumns(Now(true), filter[i..]) == AddAllColumns(start, filter)
        invariant buffer == old(buffer) && ptr == old(ptr) && printed == old(printed)
      {
        AddColumnsOf(filter[i].0, filter[i].1);
        assert filter[i..][0] == filter[i] && filter[i..][1..] == filter[i + 1..];
      }
      printed := printed + [HeaderRow(csvColumns)];
    }

    method AddColumnsOf(name: Text, showFields: Fields)
      modifies this`msgFilterMap, this`csvColumns
      ensures Now(true) == AddColumns(old(Now(true)), (name, showFields))
    {
      var fields := match showFields
        case Only(labels) => labels
        case All => if name in msgLabels then msgLabels[name] else [];
      msgFilterMap := msgFilterMap[name := Only(fields)];
      csvColumns := csvColumns + ColumnsOf(name, fields);
    }

    method PrintCSVRow()
      modifies this`printed
      ensures printed == old(printed) + [Row(Cells(csvColumns, csvData))]
    {
      var s, columns := [], csvColumns;
      for i := 0 to |columns|
        invariant s == Cells(columns, csvData)[..i]
      {
        s := s + [Cell(csvData, columns[i])];
      }
      assert Cells(columns, csvData)[..|columns|] == Cells(columns, csvData);
      printed := printed + [Row(s)];
    }

    method ParseMsgDescr(ghost first: bool) returns (error: Option<Error>)
      requires |buffer| - ptr >= FORMAT_PACKET_LEN
      modifies this
      ensures var (t, d) := DescrIn(old(buffer[ptr..ptr + FORMAT_PACKET_LEN]));
              var e := Sdlog2Parser.ParseMsgDescr(cfg, old(Now(first)), t, d);
              && error == e.error && Now(first) == e.state && printed == old(printed) + e.outputs
      ensures buffer == old(buffer) && (error == None ==> ptr == old(ptr) + FORMAT_PACKET_LEN)
    {
      var (t, d) := DescrIn(buffer[ptr..ptr + FORMAT_PACKET_LEN]);
      assert printed + [] == printed;
      if t != TYPE_FORMAT {
        for i := 0 to |d.format|
          invariant forall k :: 0 <= k < i ==> WidthOf(d.format[k]).Some?
        {
          if WidthOf(d.format[i]) == None {
            return Some(UnsupportedFormat(t));
          }
        }
        msgDescrs := msgDescrs[t := d];
        msgLabels := msgLabels[d.name := d.labels];
        msgNames := msgNames + [d.name];
        if cfg.debugOut {
          var shown := FilterMsg(d.name, first);
          if shown != None {
            printed := printed + [FormatLine(t, d)];
          }
        }
      }
      ptr := ptr + FORMAT_PACKET_LEN;
      return None;
    }

    method FilterMsg(name: Text, ghost first: bool) returns (showFields: Option<Fields>)
      ensures showFields == Sdlog2Parser.FilterMsg(Now(first), name)
    {
      showFields := Some(All);
      if |msgFilterMap| > 0 {
        showFields := if name in msgFilterMap then Some(msgFilterMap[name]) else None;
      }
    }

    /** Debug output of one message. */
    method PrintFields(d: Descr, fields: Fields, data: seq<Value>, ghost first: bool) returns (error: Option<Error>)
      requires cfg.debugOut
      modifies this`printed
      ensures var e := ShowMsg(cfg, old(Now(first)), d, fields, data);
              error == e.error && Now(first) == e.state && printed == old(printed) + e.outputs
    {
      ghost var pairs := Labelled(d.labels, data);
      var s := [];
      assert pairs[0..] == pairs;
      for i := 0 to |data|
        invariant i <= |pairs|
        invariant s + Selected(fields, pairs[i..]) == Selected(fields, pairs)
        invariant printed == old(printed)
      {
        if i >= |d.labels| {
          assert printed + [] == printed;
          return Some(LabelIndexError);
        }
        var field := d.labels[i];
        SelectedFirst(fields, pairs, i, s);
        if fields == All || InFields(field, fields) {
          s := s + [(field, data[i])];
        }
      }
      assert pairs[|data|..] == [] && s + [] == s;
      printed := printed + [MsgLine(d.name, s)];
      return None;
    }

    /** Update the current values from one message, and print them unless rows are grouped by time. */
    method UpdateFields(d: Descr, fields: Fields, data: seq<Value>, ghost first: bool) returns (error: Option<Error>)
      requires !cfg.debugOut
      modifies this`csvData, this`csvUpdated, this`printed
      ensures var e := ShowMsg(cfg, old(Now(first)), d, fields, data);
              error == e.error && Now(first) == e.state && printed == old(printed) + e.outputs
    {
      ghost var pairs := Labelled(d.labels, data);
      ghost var start := csvData;
      assert pairs[0..] == pairs;
      for i := 0 to |data|
        invariant i <= |pairs|
        invariant Store(csvData, d.name, fields, pairs[i..]) == Store(start, d.name, fields, pairs)
        invariant csvUpdated == (old(csvUpdated) || (cfg.timeMsg.Some? && cfg.timeMsg != Some(d.name)
                                                     && AnyShown(fields, pairs[..i])))
        invariant printed == old(printed)
      {
        if i >= |d.labels| {
          assert pairs[..i] == pairs && printed + [] == printed;
          return Some(LabelIndexError);
        }
        var field := d.labels[i];
        AnyShownGrows(fields, pairs, i);
        assert pairs[i..][1..] == pairs[i + 1..];
        if InFields(field, fields) {
          csvData := csvData[FullLabel(d.name, field) := data[i]];
          if cfg.timeMsg.Some? && cfg.timeMsg != Some(d.name) {
            csvUpdated := true;
          }
        }
      }
      assert pairs[..|data|] == pairs && printed + [] == printed;
      if cfg.timeMsg == None {
        PrintCSVRow();
      }
      return None;
    }

    method ParseMsg(d: Descr, body: seq<byte>, ghost first: bool) returns (error: Option<Error>)
      modifies this`csvData, this`csvUpdated, this`printed
      ensures var e := Sdlog2Parser.ParseMsg(cfg, old(Now(first)), d, body);
              error == e.error && Now(first) == e.state && printed == old(printed) + e.outputs
    {
      assert printed + [] == printed;
      if !cfg.debugOut && cfg.timeMsg == Some(d.name) && csvUpdated {
        PrintCSVRow();
        csvUpdated := false;
      }
      ghost var rows := TimeRow(cfg, old(Now(first)), d.name);
      assert Now(first) == rows.1 && printed == old(printed) + rows.0;
      var showFields := FilterMsg(d.name, first);
      if showFields == None {
        return None;
      }
      if !Supported(d.format) || |body| != SizeOf(d.format) {
        return Some(StructError);
      }
      var data := Unpack(d.format, body);
      ghost var e := ShowMsg(cfg, rows.1, d, showFields.value, data);
      if cfg.debugOut {
        error := PrintFields(d, showFields.value, data, first);
      } else {
        error := UpdateFields(d, showFields.value, data, first);
      }
      ConcatAssociative(old(printed), rows.0, e.outputs);
    }

    /** A data message, with the column set-up before the first one. */
    method DataMessage(d: Descr, body: seq<byte>, firstDataMsg: bool) returns (error: Option<Error>)
      modifies this
      ensures var e := OnData(cfg, old(Now(firstDataMsg)), d, body);
              error == e.error && Now(false) == e.state && printed == old(printed) + e.outputs
      ensures buffer == old(buffer) && ptr == old(ptr)
    {
      ghost var before := Now(firstDataMsg);
      ghost var header: seq<Output> := [];
      if firstDataMsg && !cfg.debugOut {
        assert Now(true) == before;
        InitCSV();
        header := [HeaderRow(csvColumns)];
      }
      ghost var ready := Now(false);
      assert printed == old(printed) + header;
      error := ParseMsg(d, body, false);
      ghost var e := Sdlog2Parser.ParseMsg(cfg, ready, d, body);
      ConcatAssociative(old(printed), header, e.outputs);
      assert [] + e.outputs == e.outputs;
    }

    /** One turn of the inner loop. */
    method Turn(ghost turn: LogTurn, bytesRead: nat, firstDataMsg: bool)
      returns (waits: bool, error: Option<Error>, first: bool, ghost step: Step<State, Output, Error>)
      requires ptr <= |buffer| && Follows(cfg, turn)
      modifies this
      ensures step == turn(old(Now(firstDataMsg)), bytesRead + old(ptr), old(buffer[ptr..]))
      ensures buffer == old(buffer)
      ensures waits <==> step.NeedMore?
      ensures waits ==> error == None && ptr == old(ptr) && printed == old(printed)
                        && first == firstDataMsg && Now(first) == old(Now(firstDataMsg))
      ensures !waits ==> error == step.effect.error && printed == old(printed) + step.effect.outputs
                         && Now(first) == step.effect.state
      ensures !waits && error == None ==> old(ptr) < ptr == old(ptr) + step.length <= |buffer|
    {
      ghost var bytes := buffer[ptr..];
      step := Next(cfg, Now(firstDataMsg), bytesRead + ptr, bytes);
      NextTakes(cfg, Now(firstDataMsg), bytesRead + ptr, bytes);
      waits, error, first := false, None, firstDataMsg;
      assert printed + [] == printed;
      if |buffer| - ptr < HEADER_LEN {
        waits := true;
        return;
      }
      var head1, head2, msgType := buffer[ptr], buffer[ptr + 1], buffer[ptr + 2];
      assert bytes[0] == head1 && bytes[1] == head2 && bytes[2] == msgType;
      if head1 != HEAD1 || head2 != HEAD2 {
        if cfg.correctErrors {
          ptr := ptr + 1;
        } else {
          error := Some(InvalidHeader(bytesRead + ptr));
        }
      } else if msgType == TYPE_FORMAT {
        if |buffer| - ptr < FORMAT_PACKET_LEN {
          waits := true;
          return;
        }
        assert bytes[..FORMAT_PACKET_LEN] == buffer[ptr..ptr + FORMAT_PACKET_LEN];
        error := ParseMsgDescr(firstDataMsg);
      } else if msgType !in msgDescrs {
        error := Some(UnknownType(msgType));
      } else {
        var d := msgDescrs[msgType];
        if |buffer| - ptr < d.length {
          waits := true;
          return;
        }
        var body := if d.length < HEADER_LEN then [] else buffer[ptr + HEADER_LEN..ptr + d.length];
        assert d.length >= HEADER_LEN ==> body == bytes[HEADER_LEN..d.length];
        error := DataMessage(d, body, firstDataMsg);
        first := false;
        if error == None && d.length == 0 {
          error := Some(Endless);
        } else {
          ptr := ptr + d.length;
        }
      }
    }

    /** The inner loop on the bytes at hand. */
    method DrainBuffer(ghost turn: LogTurn, bytesRead: nat, firstDataMsg: bool)
      returns (error: Option<Error>, first: bool)
      requires ptr <= |buffer| && Follows(cfg, turn)
      modifies this
      ensures buffer == old(buffer) && (error == None ==> ptr <= |buffer|)
      ensures var p := Drain(turn, old(Now(firstDataMsg)), bytesRead + old(ptr), old(buffer[ptr..]));
              && error == p.error && Now(first) == p.state && printed == old(printed) + p.outputs
              && (error == None ==> buffer[ptr..] == p.rest && bytesRead + ptr == p.at)
    {
      ghost var st, at: nat, rest := Now(firstDataMsg), bytesRead + ptr, buffer[ptr..];
      ghost var whole := Drain(turn, st, at, rest);
      ghost var done: seq<Output> := [];
      assert printed + [] == printed;
      AfterNothing(whole);
      first, error := firstDataMsg, None;
      while true
        invariant ptr <= |buffer| && buffer == old(buffer) && error == None
        invariant printed == old(printed) + done
        invariant st == Now(first) && at == bytesRead + ptr && rest == buffer[ptr..]
        invariant whole == After(done, Drain(turn, st, at, rest))
        decreases |buffer| - ptr
      {
        var waits, failed, now, step := Turn(turn, bytesRead, first);
        first := now;
        if waits {
          AfterWaits(whole, done, turn, st, at, rest);
          return;
        }
        ConcatAssociative(old(printed), done, step.effect.outputs);
        if failed != None {
          AfterFails(whole, done, turn, st, at, rest, step);
          error := failed;
          return;
        }
        ghost var st', at': nat, rest' := Now(first), bytesRead + ptr, buffer[ptr..];
        AfterTurn(whole, done, turn, st, at, rest, step, st', at', rest');
        done, st, at, rest := done + step.effect.outputs, st', at', rest';
      }
    }

    /** Grouped by time, a block that leaves updates behind prints them. */
    method FinishBlock(ghost first: bool)
      modifies this`printed
      ensures printed == old(printed) + EndBlock(cfg, Now(first))
    {
      assert printed + [] == printed;
      if !cfg.debugOut && cfg.timeMsg.Some? && csvUpdated {
        PrintCSVRow();
      }
    }

    /** The outer loop: refill the buffer block by block, and drain it. */
    method ReadBlocks(ghost turn: LogTurn, ghost end: State -> seq<Output>, file: seq<byte>)
      returns (error: Option<Error>, ghost p: Progress<State, Output, Error>)
      requires blockSize > 0 && Follows(cfg, turn) && buffer == [] && ptr == 0
      requires forall st :: end(st) == EndBlock(cfg, st)
      modifies this
      ensures p == Feed(turn, end, old(Now(true)), 0, [], Blocks(file, blockSize))
      ensures error == p.error && printed == old(printed) + p.outputs && msgFilter == p.state.msgFilter
    {
      ghost var st, at: nat, rest, blocks := Now(true), 0, [], Blocks(file, blockSize);
      p := Feed(turn, end, st, at, rest, blocks);
      ghost var done: seq<Output> := [];
      assert printed + [] == printed;
      AfterNothing(p);
      var first, pending := true, file;
      var bytesRead: nat := 0;
      while true
        invariant ptr <= |buffer|
        invariant printed == old(printed) + done
        invariant st == Now(first) && at == bytesRead && rest == buffer[ptr..]
        invariant blocks == Blocks(pending, blockSize)
        invariant p == After(done, Feed(turn, end, st, at, rest, blocks))
        decreases |pending|
      {
        var chunk := Take(pending, blockSize);
        if |chunk| == 0 {
          assert done + [] == done;
          return None, p;
        }
        pending := Drop(pending, blockSize);
        buffer := buffer[ptr..] + chunk;
        ptr := 0;
        assert buffer[ptr..] == rest + chunk;
        ghost var q := Drain(turn, st, at, rest + chunk);
        error, first := DrainBuffer(turn, bytesRead, first);
        if error != None {
          FeedFails(p, done, turn, end, st, at, rest, blocks, q);
          ConcatAssociative(old(printed), done, q.outputs);
          return;
        }
        bytesRead := bytesRead + ptr;
        FinishBlock(first);
        ghost var more := q.outputs + end(q.state);
        ConcatAssociative(old(printed) + done, q.outputs, end(q.state));
        ConcatAssociative(old(printed), done, more);
        ghost var st', at': nat, rest', blocks' := Now(first), bytesRead, buffer[ptr..], Blocks(pending, blockSize);
        FeedGoesOn(p, done, turn, end, st, at, rest, blocks, q, st', at', rest', blocks');
        done, st, at, rest, blocks := done + more, st', at', rest', blocks';
      }
    }

    /** `process`: dump one file. */
    method Process(file: seq<byte>) returns (error: Option<Error>)
      requires blockSize > 0
      modifies this
      ensures var p := Feed(TurnOf(cfg), EndBlockOf(cfg), Reset(cfg, old(msgFilter)), 0, [], Blocks(file, blockSize));
              error == p.error && printed == old(printed) + p.outputs && msgFilter == p.state.msgFilter
    {
      ResetState();
      if cfg.debugOut {
        InitFilterMap();
      }
      ghost var p;
      error, p := ReadBlocks(TurnOf(cfg), EndBlockOf(cfg), file);
    }
  }

  lemma SelectedFirst(fields: Fields, pairs: seq<(Text, Value)>, i: nat, s: seq<(Text, Value)>)
    requires i < |pairs|
    ensures s + Selected(fields, pairs[i..])
         == (if fields == All || InFields(pairs[i].0, fields) then s + [pairs[i]] else s)
            + Selected(fields, pairs[i + 1..])
  {
  }

  lemma AnyShownGrows(fields: Fields, pairs: seq<(Text, Value)>, i: nat)
    requires i < |pairs|
    ensures AnyShown(fields, pairs[..i + 1]) <==> AnyShown(fields, pairs[..i]) || InFields(pairs[i].0, fields)
  {
  }
}
