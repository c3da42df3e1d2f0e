/**
 What the receiver's file holds after any subset of an honest sender's payloads has been accepted: exactly the
 log messages that lie wholly inside a run of consecutive payloads, each one whole, with dropout records between
 them.

 `FileItems` gives the file in closed form, `Tracks` is the invariant between payloads, and the lemmas at the end
 show that a payload keeps it, whether it follows the last one or comes after a gap.
 */
module UlogReassembly {
  import opened Sequences
  import opened UlogFormat
  import opened UlogReceiver

  /** One published payload, by its true content; its sequence number is its index modulo 2^16. */
  datatype Payload = Payload(firstOffset: byte, data: seq<byte>, acked: bool)

  /** The position in the log at which payload i begins. */
  function Cut(ps: seq<Payload>, i: nat): nat
    requires i <= |ps|
  {
    if i == 0 then 0 else Cut(ps, i - 1) + |ps[i - 1].data|
  }

  /** The sender cut the log ms into the payloads ps: consecutive, non-empty, with truthful offsets. */
  predicate HonestPayload(ms: seq<seq<byte>>, ps: seq<Payload>, i: nat)
    requires i < |ps|
  {
    && 0 < |ps[i].data| <= PAYLOAD_CAPACITY
    && Cut(ps, i + 1) <= |Flatten(ms)|
    && ps[i].data == Flatten(ms)[Cut(ps, i)..Cut(ps, i + 1)]
    && Cut(ps, i) <= Start(ms, |ms|)
    && ps[i].firstOffset == OffsetOf(ms, Cut(ps, i), Cut(ps, i + 1))
  }

  ghost predicate Honest(ms: seq<seq<byte>>, ps: seq<Payload>) {
    && IsLog(ms)
    && (forall i :: 0 <= i < |ps| ==> HonestPayload(ms, ps, i))
    && (|ps| > 0 ==> |ps[0].data| >= HEADER_LENGTH)
  }

  /** Every payload fits the buffer it travels in. */
  predicate Fits(ps: seq<Payload>) {
    forall i :: 0 <= i < |ps| ==> |ps[i].data| <= PAYLOAD_CAPACITY
  }

  lemma HonestFits(ms: seq<seq<byte>>, ps: seq<Payload>)
    requires forall i :: 0 <= i < |ps| ==> HonestPayload(ms, ps, i)
    ensures Fits(ps)
  {
    forall i | 0 <= i < |ps|
      ensures |ps[i].data| <= PAYLOAD_CAPACITY
    {
      assert HonestPayload(ms, ps, i);
    }
  }

  /** The message that carries payload i over the link; bytes beyond the length are arbitrary. */
  function Wire(ps: seq<Payload>, i: nat, stale: seq<byte>): (m: Message)
    requires i < |ps| && |ps[i].data| <= PAYLOAD_CAPACITY
    ensures InRange(m)
  {
    LoggingData(ps[i].acked, i % SEQUENCES, |ps[i].data|, ps[i].firstOffset, ps[i].data + stale)
  }

  // ---------- what the file should hold ----------

  /** The pieces of the log, in order, that lie wholly inside positions [c, d). */
  function WhollyInside(ms: seq<seq<byte>>, c: nat, d: nat, n: nat): seq<seq<byte>>
    requires n <= |ms|
  {
    if n == 0 then [] else
    WhollyInside(ms, c, d, n - 1) + (if c <= Start(ms, n - 1) && Start(ms, n) <= d then [ms[n - 1]] else [])
  }

  /** Payload indices that were accepted: increasing, and starting with the first payload. */
  ghost predicate Accepted(ps: seq<Payload>, acc: seq<nat>) {
    && (forall i :: 0 <= i < |acc| ==> acc[i] < |ps|)
    && (forall i, j :: 0 <= i < j < |acc| ==> acc[i] < acc[j])
    && (|acc| > 0 ==> acc[0] == 0)
  }

  /** The length of the run of consecutive indices that ends acc. */
  function LastRun(acc: seq<nat>): (n: nat)
    requires |acc| > 0
    ensures 0 < n <= |acc|
  {
    if |acc| > 1 && acc[|acc| - 1] == acc[|acc| - 2] + 1 then LastRun(acc[..|acc| - 1]) + 1 else 1
  }

  /** For each maximal run of consecutively accepted payloads, the messages wholly inside it. */
  function Expected(ms: seq<seq<byte>>, ps: seq<Payload>, acc: seq<nat>): seq<seq<byte>>
    requires forall i :: 0 <= i < |acc| ==> acc[i] < |ps|
  {
    if acc == [] then [] else
    var n := |acc| - LastRun(acc);
    Expected(ms, ps, acc[..n]) +
    WhollyInside(ms, Cut(ps, acc[n]), Cut(ps, acc[|acc| - 1] + 1), |ms|)
  }

  /** The lengths of the gaps, in order, that were noticed after the first unacknowledged payload. */
  function Gaps(ps: seq<Payload>, acc: seq<nat>): seq<nat>
    requires forall i :: 0 <= i < |acc| ==> acc[i] < |ps|
    requires forall i, j :: 0 <= i < j < |acc| ==> acc[i] < acc[j]
  {
    if |acc| <= 1 then [] else
    var n := |acc| - 1;
    var gap := acc[n] - acc[n - 1] - 1;
    Gaps(ps, acc[..n]) + (if gap > 0 && SomeUnacked(ps, acc) then [gap] else [])
  }

  predicate SomeUnacked(ps: seq<Payload>, acc: seq<nat>)
    requires forall i :: 0 <= i < |acc| ==> acc[i] < |ps|
  {
    exists i :: 0 <= i < |acc| && !ps[acc[i]].acked
  }

  /** What the file is made of. */
  datatype Item = Entry(message: seq<byte>) | Dropout(drops: nat)

  function Bytes(item: Item): seq<byte> {
    match item
    case Entry(m) => m
    case Dropout(drops) => DropoutRecord(drops)
  }

  function Entries(ms: seq<seq<byte>>): seq<Item> {
    seq(|ms|, i requires 0 <= i < |ms| => Entry(ms[i]))
  }

  function Collect<T>(items: seq<Item>, part: Item -> seq<T>): seq<T> {
    if items == [] then [] else Collect(items[..|items| - 1], part) + part(items[|items| - 1])
  }

  function Render(items: seq<Item>): seq<byte> {
    Collect(items, Bytes)
  }

  function MessageOf(item: Item): seq<seq<byte>> {
    if item.Entry? then [item.message] else []
  }

  function DropoutOf(item: Item): seq<nat> {
    if item.Dropout? then [item.drops] else []
  }

  /** The log messages among the items, in order. */
  function MessagesOf(items: seq<Item>): seq<seq<byte>> {
    Collect(items, MessageOf)
  }

  /** The gaps reported among the items, in order. */
  function DropoutsOf(items: seq<Item>): seq<nat> {
    Collect(items, DropoutOf)
  }

  /** The dropout report for a gap, as items. */
  function GapReport(reported: bool, drops: nat): (r: seq<Item>) {
    if reported then [Dropout(drops)] else []
  }

  /** Where the message before number l starts. */
  function StartOfPrevious(ms: seq<seq<byte>>, l: nat): nat
    requires l <= |ms|
  {
    if l == 0 then 0 else Start(ms, l - 1)
  }

  /**
   A run begun at c0 whose last payload covers [b, d): a message that ends with that payload, but began in the run
   before it, is complete and still buffered; no message starts in the payload to push it out.
   */
  predicate Buffered(ms: seq<seq<byte>>, c0: nat, b: nat, d: nat) {
    var l := Last(ms, d);
    LastIsBuffered(l, StartOfPrevious(ms, l), Start(ms, l), c0, b, d)
  }

  predicate LastIsBuffered(l: nat, start: nat, end: nat, c0: nat, b: nat, d: nat) {
    l > 0 && end == d && c0 <= start < b
  }

  function HeldBack(ms: seq<seq<byte>>, c0: nat, b: nat, d: nat): seq<seq<byte>> {
    if Buffered(ms, c0, b, d) then [ms[Last(ms, d) - 1]] else []
  }

  /** How far the file goes then: not as far as the buffered message. */
  function WrittenEnd(ms: seq<seq<byte>>, c0: nat, b: nat, d: nat): nat {
    if Buffered(ms, c0, b, d) then StartOfPrevious(ms, Last(ms, d)) else d
  }

  function WrittenCount(ms: seq<seq<byte>>, c0: nat, b: nat, d: nat): (n: nat)
    ensures n <= |ms|
  {
    if Buffered(ms, c0, b, d) then Last(ms, d) - 1 else Last(ms, d)
  }

  /** The messages of such a run that are in the file. */
  function Written(ms: seq<seq<byte>>, c0: nat, b: nat, d: nat): seq<seq<byte>> {
    WhollyInside(ms, c0, WrittenEnd(ms, c0, b, d), |ms|)
  }

  /** The complete record buffered after the payloads acc, if any. */
  function HeldAfter(ms: seq<seq<byte>>, ps: seq<Payload>, acc: seq<nat>): seq<seq<byte>>
    requires forall i :: 0 <= i < |acc| ==> acc[i] < |ps|
  {
    if acc == [] then [] else HeldBack(ms, RunStart(ps, acc), Cut(ps, acc[|acc| - 1]), RunEnd(ps, acc))
  }

  /**
   What the file is made of after the payloads acc: run by run the messages wholly inside it, and between runs the
   dropout report, in front of the record that was still buffered when the gap was noticed.
   */
  function FileItems(ms: seq<seq<byte>>, ps: seq<Payload>, acc: seq<nat>): seq<Item>
    requires forall i :: 0 <= i < |acc| ==> acc[i] < |ps|
    requires forall i, j :: 0 <= i < j < |acc| ==> acc[i] < acc[j]
    decreases |acc|
  {
    if acc == [] then [] else
    BeforeRun(ms, ps, acc)
    + Entries(Written(ms, RunStart(ps, acc), Cut(ps, acc[|acc| - 1]), RunEnd(ps, acc)))
  }

  function BeforeRun(ms: seq<seq<byte>>, ps: seq<Payload>, acc: seq<nat>): seq<Item>
    requires acc != [] && forall i :: 0 <= i < |acc| ==> acc[i] < |ps|
    requires forall i, j :: 0 <= i < j < |acc| ==> acc[i] < acc[j]
    decreases |acc|, 0
  {
    var n := |acc| - LastRun(acc);
    if n == 0 then [] else
    FileItems(ms, ps, acc[..n])
    + GapReport(SomeUnacked(ps, acc[..n + 1]), acc[n] - acc[n - 1] - 1)
    + Entries(HeldAfter(ms, ps, acc[..n]))
  }

  /** The number of messages written once payload [b, d) of a run begun at c0 is in, or where the run begins. */
  function Reached(ms: seq<seq<byte>>, c0: nat, b: nat, d: nat): (k: nat)
    requires c0 <= Start(ms, |ms|)
    ensures First(ms, c0) <= k <= |ms|
  {
    Larger(First(ms, c0), WrittenCount(ms, c0, b, d))
  }

  function Larger(f: nat, l: nat): nat {
    if l < f then f else l
  }

  /** The part of message k onwards that has arrived once the log is known up to pos. */
  function Pending(ms: seq<seq<byte>>, k: nat, pos: nat): seq<byte>
    requires k <= |ms| && pos <= |Flatten(ms)|
  {
    if Start(ms, k) <= pos then Flatten(ms)[Start(ms, k)..pos] else []
  }

  /** Message k is the next to be written: it is the one in progress at pos, or the first to start after pos. */
  predicate Cursor(ms: seq<seq<byte>>, k: nat, pos: nat) {
    && 1 <= k <= |ms|
    && Start(ms, k - 1) < pos
    && (k < |ms| ==> pos <= Start(ms, k + 1))
  }

  lemma CursorAtLast(ms: seq<seq<byte>>, d: nat)
    requires IsLog(ms) && Start(ms, 1) <= d
    ensures Cursor(ms, Last(ms, d), d)
  {
  }

  lemma CursorAtFirst(ms: seq<seq<byte>>, c: nat, d: nat)
    requires IsLog(ms) && 0 < c < d <= Start(ms, |ms|) && d <= Start(ms, First(ms, c))
    ensures Cursor(ms, First(ms, c), d) && First(ms, d) == First(ms, c)
  {
    var f := First(ms, c);
    FirstUnique(ms, d, f);
    if f < |ms| {
      StartMonotone(ms, f, f + 1);
    }
  }

  /** The bytes from a message start in a payload split into the messages that end in it. */
  lemma Resume(ms: seq<seq<byte>>, c: nat, d: nat, f: nat)
    requires IsLog(ms) && 1 <= f <= |ms| && c <= Start(ms, f) < d <= |Flatten(ms)|
    ensures f <= Last(ms, d)
    ensures SplitRecords(Drop(Flatten(ms)[c..d], Start(ms, f) - c)) ==
            (ms[f..Last(ms, d)], Pending(ms, Last(ms, d), d))
  {
    var s := Flatten(ms);
    assert Drop(s[c..d], Start(ms, f) - c) == s[Start(ms, f)..d];
    SplitStream(ms, f, d);
  }

  /** What is pending splits into the message that happens to be complete, if any. */
  lemma SplitPending(ms: seq<seq<byte>>, k: nat, pos: nat)
    requires IsLog(ms) && Cursor(ms, k, pos) && pos <= |Flatten(ms)|
    ensures SplitRecords(Pending(ms, k, pos)).0 ==
            if k <= Last(ms, pos) then ms[k..Last(ms, pos)] else []
  {
    if Start(ms, k) <= pos {
      SplitStream(ms, k, pos);
    } else {
      LastUnique(ms, pos, k - 1);
    }
  }

  /** The message in progress is completed by the bytes before the first start in the next payload. */
  lemma FinishPending(ms: seq<seq<byte>>, k: nat, c: nat, d: nat)
    requires IsLog(ms) && Cursor(ms, k, c) && c <= d <= |Flatten(ms)| && c <= Start(ms, |ms|)
    requires Start(ms, k) < c && Start(ms, First(ms, c)) < d
    ensures k < |ms| && First(ms, c) == k + 1
    ensures Pending(ms, k, c) + Take(Flatten(ms)[c..d], Start(ms, k + 1) - c) == ms[k]
  {
    FirstUnique(ms, c, k + 1);
    PieceAt(ms, k);
    var s := Flatten(ms);
    assert Take(s[c..d], Start(ms, k + 1) - c) == s[c..Start(ms, k + 1)];
    assert s[Start(ms, k)..c] + s[c..Start(ms, k + 1)] == s[Start(ms, k)..Start(ms, k + 1)];
  }

  /** Which messages lie wholly inside a stretch of the log. */
  lemma {:induction false} WhollyInsideIsSlice(ms: seq<seq<byte>>, c: nat, d: nat, n: nat)
    requires IsLog(ms) && n <= |ms| && c <= Start(ms, |ms|)
    ensures WhollyInside(ms, c, d, n) ==
            var l := if Last(ms, d) < n then Last(ms, d) else n;
            if First(ms, c) <= l then ms[First(ms, c)..l] else []
  {
    if n > 0 {
      WhollyInsideIsSlice(ms, c, d, n - 1);
      MessageInside(ms, c, d, n - 1);
      var f := First(ms, c);
      if f <= n - 1 < Last(ms, d) {
        SliceSnoc(ms, f, n - 1);
      }
    }
  }

  lemma MessageInside(ms: seq<seq<byte>>, c: nat, d: nat, j: nat)
    requires IsLog(ms) && j < |ms| && c <= Start(ms, |ms|)
    ensures (c <= Start(ms, j) && Start(ms, j + 1) <= d) <==> First(ms, c) <= j < Last(ms, d)
  {
    var f, l := First(ms, c), Last(ms, d);
    if f <= j {
      StartMonotone(ms, f, j);
    } else {
      StartMonotone(ms, j, f - 1);
    }
    if j < l {
      StartMonotone(ms, j + 1, l);
    } else {
      StartMonotone(ms, l + 1, j + 1);
    }
  }

  // ---------- rendering ----------

  lemma {:induction false} CollectAppend<T>(items: seq<Item>, more: seq<Item>, part: Item -> seq<T>)
    ensures Collect(items + more, part) == Collect(items, part) + Collect(more, part)
  {
    if more == [] {
      assert items + more == items;
    } else {
      var n := |more| - 1;
      CollectAppend(items, more[..n], part);
      assert (items + more)[..|items| + n] == items + more[..n];
      assert (items + more)[|items| + n] == more[n];
      ConcatAssociative(Collect(items, part), Collect(more[..n], part), part(more[n]));
    }
  }

  lemma RenderAppend(items: seq<Item>, more: seq<Item>)
    ensures Render(items + more) == Render(items) + Render(more)
    ensures MessagesOf(items + more) == MessagesOf(items) + MessagesOf(more)
    ensures DropoutsOf(items + more) == DropoutsOf(items) + DropoutsOf(more)
  {
    CollectAppend(items, more, Bytes);
    CollectAppend(items, more, MessageOf);
    CollectAppend(items, more, DropoutOf);
  }

  lemma {:induction false} RenderEntries(ms: seq<seq<byte>>)
    ensures Render(Entries(ms)) == Flatten(ms)
    ensures MessagesOf(Entries(ms)) == ms
    ensures DropoutsOf(Entries(ms)) == []
  {
    if ms != [] {
      var n := |ms| - 1;
      RenderEntries(ms[..n]);
      assert Entries(ms)[..n] == Entries(ms[..n]);
      FlattenSnoc(ms[..n], ms[n]);
      assert ms == ms[..n] + [ms[n]];
    }
  }

  // ---------- the invariant of the receiver ----------

  /** With the run begun at c and the log known up to pos, k is the next message to write. */
  predicate Place(ms: seq<seq<byte>>, c: nat, pos: nat, k: nat) {
    && pos <= |Flatten(ms)| && c <= Start(ms, |ms|)
    && Cursor(ms, k, pos)
    && First(ms, c) <= k
    && (pos < Start(ms, k) ==> k == First(ms, c))
  }

  /** The receiver's flags and counters after the payloads acc. */
  ghost predicate Counts(ps: seq<Payload>, acc: seq<nat>, st: State)
    requires Accepted(ps, acc) && |acc| > 0
  {
    && st.gotUlogHeader
    && (st.gotHeaderSection <==> SomeUnacked(ps, acc))
    && st.lastSequence == acc[|acc| - 1] % SEQUENCES
    && st.numDropouts == acc[|acc| - 1] + 1 - |acc|
  }

  function RunStart(ps: seq<Payload>, acc: seq<nat>): nat
    requires |acc| > 0 && forall i :: 0 <= i < |acc| ==> acc[i] < |ps|
  {
    Cut(ps, acc[|acc| - LastRun(acc)])
  }

  function RunEnd(ps: seq<Payload>, acc: seq<nat>): nat
    requires |acc| > 0 && forall i :: 0 <= i < |acc| ==> acc[i] < |ps|
  {
    Cut(ps, acc[|acc| - 1] + 1)
  }

  function EarlierRuns(ms: seq<seq<byte>>, ps: seq<Payload>, acc: seq<nat>): seq<seq<byte>>
    requires |acc| > 0 && forall i :: 0 <= i < |acc| ==> acc[i] < |ps|
  {
    Expected(ms, ps, acc[..|acc| - LastRun(acc)])
  }

  /** The items are the file header and then whole records. */
  predicate Aligned(ms: seq<seq<byte>>, items: seq<Item>) {
    && |ms| > 0 && |items| > 0 && items[0] == Entry(ms[0])
    && forall j :: 1 <= j < |items| ==> IsRecord(Bytes(items[j]))
  }

  lemma AlignedMore(ms: seq<seq<byte>>, items: seq<Item>, k: nat, k2: nat)
    requires IsLog(ms) && Aligned(ms, items) && 1 <= k <= k2 <= |ms|
    ensures Aligned(ms, items + Entries(ms[k..k2]))
  {
  }

  /** The file's items after the payloads acc, when k is the next message to write. */
  ghost predicate Holds(ms: seq<seq<byte>>, ps: seq<Payload>, acc: seq<nat>, k: nat, items: seq<Item>)
    requires Accepted(ps, acc) && |acc| > 0 && Place(ms, RunStart(ps, acc), RunEnd(ps, acc), k)
  {
    && MessagesOf(items) == EarlierRuns(ms, ps, acc) + ms[First(ms, RunStart(ps, acc))..k]
    && DropoutsOf(items) == Gaps(ps, acc)
    && Aligned(ms, items)
  }

  /** The state after the payloads acc, when k is the next message to write and items are in the file. */
  ghost predicate Tracks(ms: seq<seq<byte>>, ps: seq<Payload>, acc: seq<nat>, k: nat, items: seq<Item>, st: State)
  {
    && Accepted(ps, acc) && |acc| > 0
    && Place(ms, RunStart(ps, acc), RunEnd(ps, acc), k)
    && Counts(ps, acc, st)
    && Holds(ms, ps, acc, k, items)
    && st.ulogMessage == Pending(ms, k, RunEnd(ps, acc))
    && st.file == Render(items)
    && k == Reached(ms, RunStart(ps, acc), Cut(ps, acc[|acc| - 1]), RunEnd(ps, acc))
    && items == FileItems(ms, ps, acc)
  }

  lemma CutMonotone(ps: seq<Payload>, i: nat, j: nat)
    requires i <= j <= |ps|
    ensures Cut(ps, i) <= Cut(ps, j)
    decreases j
  {
  }

  /** What a receiver that knows no header does with a payload whose messages start at once. */
  lemma FirstPayloadProcessed(ms: seq<seq<byte>>, d: nat, st: State)
    requires IsLog(ms) && HEADER_LENGTH <= d <= |Flatten(ms)|
    requires !st.gotUlogHeader && st.ulogMessage == [] && st.file == []
    ensures Process(st, Piece(Flatten(ms)[..d], 0, 0)) ==
            Ok(st.(gotUlogHeader := true, file := Flatten(ms[..Last(ms, d)]),
                   ulogMessage := Pending(ms, Last(ms, d), d)))
  {
    var s := Flatten(ms);
    PieceAt(ms, 0);
    assert Start(ms, 1) == HEADER_LENGTH;
    SplitStream(ms, 1, d);
    assert s[..d][..HEADER_LENGTH] == ms[0];
    assert s[..d][HEADER_LENGTH..] == s[HEADER_LENGTH..d];
    assert Drop(s[HEADER_LENGTH..d], 0) == s[HEADER_LENGTH..d];
    var k := Last(ms, d);
    assert ms[..k] == [ms[0]] + ms[1..k];
    assert Flatten(ms[..k]) == ms[0] + Flatten(ms[1..k]);
    assert st.file + ms[0] == ms[0];
    assert Process(st, Piece(s[..d], 0, 0)).value ==
           ProcessBody(st.(gotUlogHeader := true, file := ms[0]), Piece(s[HEADER_LENGTH..d], 0, 0));
  }

  lemma FirstPayload(ms: seq<seq<byte>>, ps: seq<Payload>, st: State)
    returns (k: nat, items: seq<Item>)
    requires Honest(ms, ps) && |ps| > 0
    requires !st.gotUlogHeader && st.file == [] && st.ulogMessage == [] && st.numDropouts == 0 && st.lastSequence == 0
    requires st.gotHeaderSection <==> !ps[0].acked
    ensures var r := Process(st, Piece(ps[0].data, ps[0].firstOffset, 0));
            r.Ok? && Tracks(ms, ps, [0], k, items, r.value)
  {
    assert HonestPayload(ms, ps, 0);
    var d := Cut(ps, 1);
    assert Cut(ps, 0) == 0 && d == |ps[0].data|;
    FirstUnique(ms, 0, 0);
    assert ps[0].firstOffset == 0;
    FirstPayloadProcessed(ms, d, st);
    k := Last(ms, d);
    items := Entries(ms[..k]);
    RenderEntries(ms[..k]);
    assert Start(ms, 1) == HEADER_LENGTH;
    CursorAtLast(ms, d);
    var acc: seq<nat> := [0];
    assert LastRun(acc) == 1 && acc[..0] == [];
    assert SomeUnacked(ps, acc) <==> !ps[acc[0]].acked;
    assert EarlierRuns(ms, ps, acc) + ms[0..k] == ms[..k];
    FirstItems(ms, ps, k);
  }

  lemma FirstItems(ms: seq<seq<byte>>, ps: seq<Payload>, k: nat)
    requires IsLog(ms) && |ps| > 0 && 0 < Cut(ps, 1) && k == Last(ms, Cut(ps, 1))
    ensures k == Reached(ms, 0, 0, Cut(ps, 1))
    ensures FileItems(ms, ps, [0]) == Entries(ms[..k])
  {
    var d := Cut(ps, 1);
    assert k == Reached(ms, 0, 0, d) && Written(ms, 0, 0, d) == ms[..k] by {
      FirstUnique(ms, 0, 0);
      ReachedByStart(ms, 0, 0, d);
      WrittenIsSlice(ms, 0, 0, d);
    }
    FirstRun(ms, ps);
  }

  lemma FirstRun(ms: seq<seq<byte>>, ps: seq<Payload>)
    requires |ps| > 0
    ensures FileItems(ms, ps, [0]) == Entries(Written(ms, 0, 0, Cut(ps, 1)))
  {
    var acc: seq<nat> := [0];
    assert LastRun(acc) == 1 && Cut(ps, 0) == 0;
    assert BeforeRun(ms, ps, acc) == [];
    assert [] + Entries(Written(ms, 0, 0, Cut(ps, 1))) == Entries(Written(ms, 0, 0, Cut(ps, 1)));
  }

  /** The payload covering positions [c, d) of the log, as `read_message` hands it on. */
  predicate Covers(ms: seq<seq<byte>>, c: nat, d: nat, p: Piece) {
    && IsLog(ms)
    && Start(ms, 1) <= d && 0 < c < d <= c + PAYLOAD_CAPACITY
    && d <= |Flatten(ms)| && d <= Start(ms, |ms|)
    && p.data == Flatten(ms)[c..d]
    && p.firstOffset == OffsetOf(ms, c, d)
  }

  /** A payload in which a message starts splits, from there, into the messages that end in it. */
  lemma RecordsStarting(ms: seq<seq<byte>>, c: nat, d: nat, p: Piece, f: nat)
    requires Covers(ms, c, d, p) && f == First(ms, c) && Start(ms, f) < d
    ensures f > 0 && f <= Last(ms, d) && p.firstOffset != NO_MESSAGE_STARTS
    ensures SplitRecords(Drop(p.data, p.firstOffset)) == (ms[f..Last(ms, d)], Pending(ms, Last(ms, d), d))
  {
    Resume(ms, c, d, f);
  }

  /** The next message to write after a payload [c, d), when it was message k before. */
  function NextCursor(ms: seq<seq<byte>>, k: nat, c: nat, d: nat): nat
    requires c <= Start(ms, |ms|)
  {
    if Start(ms, First(ms, c)) < d then Last(ms, d) else k
  }

  lemma NextCursorFits(ms: seq<seq<byte>>, k: nat, c: nat, d: nat, p: Piece)
    requires Covers(ms, c, d, p) && Cursor(ms, k, c)
    ensures var k2 := NextCursor(ms, k, c, d);
      && k <= k2 && Cursor(ms, k2, d)
      && (d < Start(ms, k2) ==> k2 == k && c <= Start(ms, k))
  {
    if c <= Start(ms, k) {
      FirstUnique(ms, c, k);
    } else if k < |ms| {
      FirstUnique(ms, c, k + 1);
    }
    if Start(ms, First(ms, c)) < d {
      RecordsStarting(ms, c, d, p, First(ms, c));
      CursorAtLast(ms, d);
    }
  }

  /** `process_streamed_ulog_data` when no message is in progress. */
  lemma BodyResumes(st: State, p: Piece, records: seq<seq<byte>>, rest: seq<byte>)
    requires p.drops == 0 && st.ulogMessage == []
    requires SplitRecords(Drop(p.data, p.firstOffset)) == (records, rest)
    ensures ProcessBody(st, p) == st.(file := st.file + Flatten(records), ulogMessage := rest)
  {
  }

  lemma ConsecutiveAtBoundary(ms: seq<seq<byte>>, k: nat, c: nat, d: nat, st: State, p: Piece)
    requires Covers(ms, c, d, p) && p.drops == 0 && Cursor(ms, k, c)
    requires st.ulogMessage == [] && c <= Start(ms, k)
    ensures var k2 := NextCursor(ms, k, c, d);
      k <= k2 && ProcessBody(st, p) ==
                 st.(file := st.file + Flatten(ms[k..k2]), ulogMessage := Pending(ms, k2, d))
  {
    FirstUnique(ms, c, k);
    if Start(ms, k) < d {
      RecordsStarting(ms, c, d, p, k);
      BodyResumes(st, p, ms[k..Last(ms, d)], Pending(ms, Last(ms, d), d));
    } else {
      assert Pending(ms, k, d) == [];
      BodyResumes(st, p, [], []);
      assert ms[k..k] == [];
    }
  }

  /** `process_streamed_ulog_data` when a message is in progress and another starts in the payload. */
  lemma BodyFinishes(st: State, p: Piece, whole: seq<byte>, records: seq<seq<byte>>, rest: seq<byte>)
    requires p.drops == 0 && p.firstOffset != NO_MESSAGE_STARTS && st.ulogMessage != []
    requires st.ulogMessage + Take(p.data, p.firstOffset) == whole
    requires SplitRecords(Drop(p.data, p.firstOffset)) == (records, rest)
    ensures ProcessBody(st, p) == st.(file := st.file + Flatten([whole] + records), ulogMessage := rest)
  {
  }

  /** `process_streamed_ulog_data` when a message is in progress and goes on beyond the payload. */
  lemma BodyExtends(st: State, p: Piece)
    requires p.drops == 0 && p.firstOffset == NO_MESSAGE_STARTS && st.ulogMessage != []
    ensures ProcessBody(st, p) == st.(file := st.file + Flatten([]), ulogMessage := st.ulogMessage + p.data)
  {
  }

  lemma ConsecutiveFinishing(ms: seq<seq<byte>>, k: nat, c: nat, d: nat, st: State, p: Piece)
    requires Covers(ms, c, d, p) && p.drops == 0 && Cursor(ms, k, c)
    requires st.ulogMessage == Pending(ms, k, c) && Start(ms, k) < c && Start(ms, First(ms, c)) < d
    ensures k <= Last(ms, d)
    ensures ProcessBody(st, p) ==
      st.(file := st.file + Flatten(ms[k..Last(ms, d)]), ulogMessage := Pending(ms, Last(ms, d), d))
  {
    FinishPending(ms, k, c, d);
    RecordsStarting(ms, c, d, p, k + 1);
    var l := Last(ms, d);
    BodyFinishes(st, p, ms[k], ms[k + 1..l], Pending(ms, l, d));
    SliceCons(ms, k, l);
  }

  lemma ConsecutiveExtending(ms: seq<seq<byte>>, k: nat, c: nat, d: nat, st: State, p: Piece)
    requires Covers(ms, c, d, p) && p.drops == 0 && Cursor(ms, k, c)
    requires st.ulogMessage == Pending(ms, k, c) && Start(ms, k) < c && d <= Start(ms, First(ms, c))
    ensures ProcessBody(st, p) == st.(file := st.file + Flatten(ms[k..k]), ulogMessage := Pending(ms, k, d))
  {
    SlicesJoin(Flatten(ms), Start(ms, k), c, d);
    BodyExtends(st, p);
    assert ms[k..k] == [];
  }

  /** A payload that follows the last accepted one: its messages continue where the last one stopped. */
  lemma ConsecutiveProcessed(ms: seq<seq<byte>>, k: nat, c: nat, d: nat, st: State, p: Piece)
    requires Covers(ms, c, d, p) && p.drops == 0 && Cursor(ms, k, c)
    requires st.gotUlogHeader && st.ulogMessage == Pending(ms, k, c)
    ensures var k2 := NextCursor(ms, k, c, d);
      && k <= k2 <= |ms|
      && Process(st, p) == Ok(st.(file := st.file + Flatten(ms[k..k2]), ulogMessage := Pending(ms, k2, d)))
  {
    NextCursorFits(ms, k, c, d, p);
    if c <= Start(ms, k) {
      ConsecutiveAtBoundary(ms, k, c, d, st, p);
    } else if Start(ms, First(ms, c)) < d {
      ConsecutiveFinishing(ms, k, c, d, st, p);
    } else {
      ConsecutiveExtending(ms, k, c, d, st, p);
    }
  }

  /** The message pending at pos, if it is complete. */
  function CompletePending(ms: seq<seq<byte>>, k: nat, pos: nat): seq<seq<byte>>
    requires k <= |ms|
  {
    if k <= Last(ms, pos) then ms[k..Last(ms, pos)] else []
  }

  function GapBytes(st: State, drops: nat): seq<byte> {
    if st.gotHeaderSection then DropoutRecord(drops) else []
  }

  /** `process_streamed_ulog_data` after a gap. */
  lemma BodyAfterGap(st: State, p: Piece, complete: seq<seq<byte>>, records: seq<seq<byte>>, rest: seq<byte>)
    requires p.drops > 0
    requires SplitRecords(st.ulogMessage).0 == complete
    requires if p.firstOffset == NO_MESSAGE_STARTS then records == [] && rest == []
             else SplitRecords(Drop(p.data, p.firstOffset)) == (records, rest)
    ensures ProcessBody(st, p) ==
      st.(file := st.file + GapBytes(st, p.drops) + Flatten(complete) + Flatten(records), ulogMessage := rest)
  {
    assert st.file + [] == st.file;
    var written := st.file + GapBytes(st, p.drops) + Flatten(complete);
    assert written + [] == written;
  }

  /** A payload after a gap: what is pending is given up unless complete, and reading starts afresh. */
  lemma AfterGapProcessed(ms: seq<seq<byte>>, k: nat, pos: nat, c: nat, d: nat, st: State, p: Piece)
    requires Covers(ms, c, d, p) && p.drops > 0 && Cursor(ms, k, pos) && 0 < pos <= c
    requires st.gotUlogHeader && st.ulogMessage == Pending(ms, k, pos)
    ensures var f := First(ms, c);
      var k2 := NextCursor(ms, f, c, d);
      && f <= k2 && Cursor(ms, k2, d) && (d < Start(ms, k2) ==> k2 == f)
      && Process(st, p) ==
         Ok(st.(file := st.file + GapBytes(st, p.drops) + Flatten(CompletePending(ms, k, pos)) + Flatten(ms[f..k2]),
                ulogMessage := Pending(ms, k2, d)))
  {
    var f := First(ms, c);
    SplitPending(ms, k, pos);
    if Start(ms, f) < d {
      RecordsStarting(ms, c, d, p, f);
      CursorAtLast(ms, d);
      var l := Last(ms, d);
      BodyAfterGap(st, p, CompletePending(ms, k, pos), ms[f..l], Pending(ms, l, d));
    } else {
      CursorAtFirst(ms, c, d);
      assert Pending(ms, f, d) == [] && ms[f..f] == [];
      BodyAfterGap(st, p, CompletePending(ms, k, pos), [], []);
    }
  }

  // ---------- one accepted payload ----------

  lemma PayloadCovers(ms: seq<seq<byte>>, ps: seq<Payload>, i: nat, drops: nat)
    requires Honest(ms, ps) && 1 <= i < |ps|
    ensures Covers(ms, Cut(ps, i), Cut(ps, i + 1), Piece(ps[i].data, ps[i].firstOffset, drops))
  {
    assert HonestPayload(ms, ps, i);
    FlattenLength(ms);
    CutMonotone(ps, 1, i);
    assert Cut(ps, 1) == Cut(ps, 0) + |ps[0].data|;
    assert Start(ms, 1) == Start(ms, 0) + |ms[0]|;
  }

  /** The bookkeeping of `read_message` for payload i after the payloads acc. */
  predicate Noted(ps: seq<Payload>, acc: seq<nat>, i: nat, st: State, st1: State)
    requires |acc| > 0 && i < |ps| && (forall j :: 0 <= j < |acc| ==> acc[j] < |ps|)
    requires acc[|acc| - 1] < i
  {
    && st1.gotUlogHeader == st.gotUlogHeader && st1.file == st.file && st1.ulogMessage == st.ulogMessage
    && (st1.gotHeaderSection <==> st.gotHeaderSection || !ps[i].acked)
    && st1.lastSequence == i % SEQUENCES
    && st1.numDropouts == st.numDropouts + (i - acc[|acc| - 1] - 1)
  }

  lemma SomeUnackedSnoc(ps: seq<Payload>, acc: seq<nat>, i: nat)
    requires i < |ps| && (forall j :: 0 <= j < |acc| ==> acc[j] < |ps|)
    ensures SomeUnacked(ps, acc + [i]) <==> SomeUnacked(ps, acc) || !ps[i].acked
  {
    var acc2 := acc + [i];
    assert acc2[|acc|] == i;
    assert forall j :: 0 <= j < |acc| ==> acc2[j] == acc[j];
  }

  lemma AcceptedSnoc(ps: seq<Payload>, acc: seq<nat>, i: nat)
    requires Accepted(ps, acc) && i < |ps| && (if acc == [] then i == 0 else acc[|acc| - 1] < i)
    ensures Accepted(ps, acc + [i])
  {
  }

  lemma GapsSnoc(ps: seq<Payload>, acc: seq<nat>, i: nat)
    requires Accepted(ps, acc) && |acc| > 0 && acc[|acc| - 1] < i && Accepted(ps, acc + [i])
    ensures var gap := i - acc[|acc| - 1] - 1;
            Gaps(ps, acc + [i])
            == Gaps(ps, acc) + (if gap > 0 && SomeUnacked(ps, acc + [i]) then [gap] else [])
  {
    assert (acc + [i])[..|acc|] == acc;
  }

  lemma CountsSnoc(ps: seq<Payload>, acc: seq<nat>, i: nat, st: State, st1: State)
    requires Accepted(ps, acc) && |acc| > 0 && Counts(ps, acc, st)
    requires acc[|acc| - 1] < i < |ps| && Noted(ps, acc, i, st, st1)
    ensures Accepted(ps, acc + [i]) && Counts(ps, acc + [i], st1)
    ensures var gap := i - acc[|acc| - 1] - 1;
            Gaps(ps, acc + [i]) == Gaps(ps, acc) + (if gap > 0 && st1.gotHeaderSection then [gap] else [])
  {
    AcceptedSnoc(ps, acc, i);
    SomeUnackedSnoc(ps, acc, i);
    GapsSnoc(ps, acc, i);
  }

  lemma RunSnoc(ms: seq<seq<byte>>, ps: seq<Payload>, acc: seq<nat>, i: nat)
    requires Accepted(ps, acc) && |acc| > 0 && acc[|acc| - 1] < i < |ps|
    ensures Accepted(ps, acc + [i]) && RunEnd(ps, acc + [i]) == Cut(ps, i + 1)
    ensures if i == acc[|acc| - 1] + 1 then
              && RunStart(ps, acc + [i]) == RunStart(ps, acc)
              && EarlierRuns(ms, ps, acc + [i]) == EarlierRuns(ms, ps, acc)
            else
              && RunStart(ps, acc + [i]) == Cut(ps, i)
              && EarlierRuns(ms, ps, acc + [i]) == Expected(ms, ps, acc)
  {
    var acc2 := acc + [i];
    var n := |acc| - LastRun(acc);
    assert acc2[..|acc|] == acc && acc2[..n] == acc[..n];
    assert LastRun(acc2) == if i == acc[|acc| - 1] + 1 then LastRun(acc) + 1 else 1;
  }

  lemma WhollyInsideAll(ms: seq<seq<byte>>, c: nat, d: nat)
    requires IsLog(ms) && c <= Start(ms, |ms|)
    ensures WhollyInside(ms, c, d, |ms|) ==
            if First(ms, c) <= Last(ms, d) then ms[First(ms, c)..Last(ms, d)] else []
  {
    WhollyInsideIsSlice(ms, c, d, |ms|);
  }

  lemma RunEndsSlice(ms: seq<seq<byte>>, c: nat, pos: nat, k: nat)
    requires IsLog(ms) && Place(ms, c, pos, k)
    ensures ms[First(ms, c)..k] + CompletePending(ms, k, pos) ==
            if First(ms, c) <= Last(ms, pos) then ms[First(ms, c)..Last(ms, pos)] else []
  {
    var f, l := First(ms, c), Last(ms, pos);
    if pos < Start(ms, k) {
      LastUnique(ms, pos, k - 1);
    } else {
      assert k <= l by { SplitStream(ms, k, pos); }
      SlicesJoin(ms, f, k, l);
    }
  }

  /** When nothing more of a run arrives, its messages are those written and the complete one pending. */
  lemma RunEnds(ms: seq<seq<byte>>, c: nat, pos: nat, k: nat)
    requires IsLog(ms) && Place(ms, c, pos, k)
    ensures ms[First(ms, c)..k] + CompletePending(ms, k, pos) == WhollyInside(ms, c, pos, |ms|)
  {
    RunEndsSlice(ms, c, pos, k);
    WhollyInsideAll(ms, c, pos);
  }

  lemma RunEndsExpected(ms: seq<seq<byte>>, ps: seq<Payload>, acc: seq<nat>, k: nat, items: seq<Item>)
    requires IsLog(ms) && Accepted(ps, acc) && |acc| > 0 && Place(ms, RunStart(ps, acc), RunEnd(ps, acc), k)
    requires Holds(ms, ps, acc, k, items)
    ensures MessagesOf(items) + CompletePending(ms, k, RunEnd(ps, acc)) == Expected(ms, ps, acc)
  {
    var c, pos := RunStart(ps, acc), RunEnd(ps, acc);
    RunEnds(ms, c, pos, k);
    ConcatAssociative(EarlierRuns(ms, ps, acc), ms[First(ms, c)..k], CompletePending(ms, k, pos));
  }

  /** The messages from the first one that starts in a stretch to the last one that ends in it, as a slice. */
  lemma InsideIsSlice(ms: seq<seq<byte>>, c0: nat, e: nat, l: nat)
    requires IsLog(ms) && c0 <= Start(ms, |ms|) && l == Last(ms, e)
    ensures WhollyInside(ms, c0, e, |ms|) == ms[First(ms, c0)..Larger(First(ms, c0), l)]
  {
    WhollyInsideAll(ms, c0, e);
  }

  lemma LastOfPrevious(ms: seq<seq<byte>>, l: nat)
    requires IsLog(ms) && 0 < l <= |ms|
    ensures Last(ms, Start(ms, l - 1)) == l - 1
  {
    LastUnique(ms, Start(ms, l - 1), l - 1);
  }

  lemma WrittenIs(ms: seq<seq<byte>>, c0: nat, b: nat, d: nat)
    requires IsLog(ms)
    ensures Last(ms, WrittenEnd(ms, c0, b, d)) == WrittenCount(ms, c0, b, d)
  {
    if Buffered(ms, c0, b, d) {
      LastOfPrevious(ms, Last(ms, d));
    }
  }

  /** In terms of the next message to write, the written messages of a run. */
  lemma WrittenIsSlice(ms: seq<seq<byte>>, c0: nat, b: nat, d: nat)
    requires IsLog(ms) && c0 <= Start(ms, |ms|)
    ensures Written(ms, c0, b, d) == ms[First(ms, c0)..Reached(ms, c0, b, d)]
  {
    WrittenIs(ms, c0, b, d);
    InsideIsSlice(ms, c0, WrittenEnd(ms, c0, b, d), WrittenCount(ms, c0, b, d));
  }

  lemma BufferedIsInRun(ms: seq<seq<byte>>, c0: nat, l: nat, b: nat, d: nat)
    requires IsLog(ms) && c0 <= Start(ms, |ms|) && l <= |ms|
    requires LastIsBuffered(l, StartOfPrevious(ms, l), Start(ms, l), c0, b, d)
    ensures First(ms, c0) <= l - 1
  {
    FirstBefore(ms, c0, l - 1);
  }

  lemma SliceFromLarger(ms: seq<seq<byte>>, f: nat, l: nat)
    requires f <= |ms| && l <= |ms|
    ensures (if Larger(f, l) <= l then ms[Larger(f, l)..l] else []) == []
    ensures l > 0 && f <= l - 1 ==> ms[Larger(f, l - 1)..l] == [ms[l - 1]]
  {
  }

  /** And the buffered one. */
  lemma HeldBackIsPending(ms: seq<seq<byte>>, c0: nat, b: nat, d: nat)
    requires IsLog(ms) && c0 <= Start(ms, |ms|)
    ensures CompletePending(ms, Reached(ms, c0, b, d), d) == HeldBack(ms, c0, b, d)
  {
    var f, l := First(ms, c0), Last(ms, d);
    if Buffered(ms, c0, b, d) {
      BufferedIsInRun(ms, c0, l, b, d);
    }
    SliceFromLarger(ms, f, l);
  }

  lemma FirstBefore(ms: seq<seq<byte>>, c: nat, j: nat)
    requires IsLog(ms) && c <= Start(ms, |ms|) && j <= |ms| && c <= Start(ms, j)
    ensures First(ms, c) <= j
  {
    if j < First(ms, c) {
      StartMonotone(ms, j, First(ms, c) - 1);
    }
  }

  lemma LastBehind(ms: seq<seq<byte>>, d: nat, j: nat)
    requires IsLog(ms) && j <= |ms| && Start(ms, j) <= d
    ensures j <= Last(ms, d)
  {
    var l := Last(ms, d);
    var next := l + 1;
    if l < j {
      StartMonotone(ms, next, j);
    }
  }

  lemma StartBefore(ms: seq<seq<byte>>, f: nat, l: nat)
    requires f < l <= |ms|
    ensures Start(ms, f) <= StartOfPrevious(ms, l)
  {
    StartMonotone(ms, f, l - 1);
  }

  /** If a message starts in the payload, all that have ended are written. */
  lemma ReachedByStart(ms: seq<seq<byte>>, c0: nat, c: nat, d: nat)
    requires IsLog(ms) && c0 <= c <= Start(ms, |ms|) && Start(ms, First(ms, c)) < d
    ensures Reached(ms, c0, c, d) == Last(ms, d)
  {
    var f, l := First(ms, c), Last(ms, d);
    LastBehind(ms, d, f);
    FirstBefore(ms, c0, f);
    if f < l {
      StartBefore(ms, f, l);
    }
    NotBuffered(f, l, Start(ms, f), StartOfPrevious(ms, l), Start(ms, l), c0, c, d);
  }

  lemma NotBuffered(f: nat, l: nat, first: nat, start: nat, end: nat, c0: nat, c: nat, d: nat)
    requires c <= first < d && (f < l ==> first <= start) && (f == l ==> end == first) && f <= l
    ensures !LastIsBuffered(l, start, end, c0, c, d)
  {
  }

  /** If none does and the run waits for its first message, it still does. */
  lemma ReachedWaiting(ms: seq<seq<byte>>, c0: nat, c: nat, d: nat)
    requires IsLog(ms) && c0 <= c < d && c0 <= Start(ms, |ms|) && d <= Start(ms, First(ms, c0))
    ensures Reached(ms, c0, c, d) == First(ms, c0)
  {
    var f := First(ms, c0);
    if d < Start(ms, f) {
      LastUnique(ms, d, f - 1);
    } else {
      LastAtStart(ms, f);
    }
  }

  lemma LastAtStart(ms: seq<seq<byte>>, f: nat)
    requires IsLog(ms) && f <= |ms|
    ensures Last(ms, Start(ms, f)) == f
  {
    LastUnique(ms, Start(ms, f), f);
  }

  /** If none does and message k is in progress, it stays the next to write. */
  lemma ReachedGrowing(ms: seq<seq<byte>>, c0: nat, k: nat, c: nat, d: nat)
    requires IsLog(ms) && c0 <= c < d && c0 <= Start(ms, |ms|) && First(ms, c0) <= k < |ms|
    requires Start(ms, k) < c && d <= Start(ms, k + 1)
    ensures Reached(ms, c0, c, d) == k
  {
    StartMonotone(ms, First(ms, c0), k);
    if Start(ms, k + 1) == d {
      LastAtStart(ms, k + 1);
    } else {
      LastUnique(ms, d, k);
    }
  }

  /** The next message to write is the one the closed form says. */
  lemma NextIsReached(ms: seq<seq<byte>>, c0: nat, k: nat, c: nat, d: nat, p: Piece)
    requires Covers(ms, c, d, p) && Place(ms, c0, c, k) && c0 <= c
    ensures NextCursor(ms, k, c, d) == Reached(ms, c0, c, d)
  {
    if Start(ms, First(ms, c)) < d {
      ReachedByStart(ms, c0, c, d);
    } else if c <= Start(ms, k) {
      FirstUnique(ms, c, k);
      ReachedWaiting(ms, c0, c, d);
    } else {
      if k < |ms| {
        FirstUnique(ms, c, k + 1);
      }
      ReachedGrowing(ms, c0, k, c, d);
    }
  }

  lemma NextAfterGapIsReached(ms: seq<seq<byte>>, c: nat, d: nat, p: Piece)
    requires Covers(ms, c, d, p)
    ensures NextCursor(ms, First(ms, c), c, d) == Reached(ms, c, c, d)
  {
    if Start(ms, First(ms, c)) < d {
      ReachedByStart(ms, c, c, d);
    } else {
      ReachedWaiting(ms, c, c, d);
    }
  }

  lemma EntriesAppended(items: seq<Item>, more: seq<seq<byte>>)
    ensures Render(items + Entries(more)) == Render(items) + Flatten(more)
    ensures MessagesOf(items + Entries(more)) == MessagesOf(items) + more
    ensures DropoutsOf(items + Entries(more)) == DropoutsOf(items)
  {
    RenderAppend(items, Entries(more));
    RenderEntries(more);
    assert DropoutsOf(items) + [] == DropoutsOf(items);
  }

  /** A consecutive payload adds messages to the current run. */
  lemma HoldsConsecutive(ms: seq<seq<byte>>, ps: seq<Payload>, acc: seq<nat>, k: nat, items: seq<Item>,
                         i: nat, k2: nat)
    requires IsLog(ms) && Accepted(ps, acc) && |acc| > 0 && acc[|acc| - 1] + 1 == i < |ps|
    requires Place(ms, RunStart(ps, acc), RunEnd(ps, acc), k) && Holds(ms, ps, acc, k, items)
    requires k <= k2 && Place(ms, RunStart(ps, acc), Cut(ps, i + 1), k2)
    requires Gaps(ps, acc + [i]) == Gaps(ps, acc)
    ensures Accepted(ps, acc + [i]) && Place(ms, RunStart(ps, acc + [i]), RunEnd(ps, acc + [i]), k2)
    ensures Holds(ms, ps, acc + [i], k2, items + Entries(ms[k..k2]))
    ensures Render(items + Entries(ms[k..k2])) == Render(items) + Flatten(ms[k..k2])
  {
    RunSnoc(ms, ps, acc, i);
    EntriesAppended(items, ms[k..k2]);
    AlignedMore(ms, items, k, k2);
    var prior, f := EarlierRuns(ms, ps, acc), First(ms, RunStart(ps, acc));
    SlicesJoin(ms, f, k, k2);
    ConcatAssociative(prior, ms[f..k], ms[k..k2]);
  }

  /** The state after messages k up to k2 have been written and the log is known up to d. */
  function AfterConsecutive(ms: seq<seq<byte>>, st: State, k: nat, k2: nat, d: nat): State
    requires k <= k2 <= |ms| && d <= |Flatten(ms)|
  {
    st.(file := st.file + Flatten(ms[k..k2]), ulogMessage := Pending(ms, k2, d))
  }

  /** The state after a gap from pos to c, when messages up to k2 have been written and the log is known up to d. */
  function AfterGap(ms: seq<seq<byte>>, st: State, drops: nat, k: nat, pos: nat, c: nat, k2: nat, d: nat): State
    requires k <= |ms| && c <= Start(ms, |ms|) && First(ms, c) <= k2 <= |ms| && d <= |Flatten(ms)|
  {
    st.(file := st.file + GapBytes(st, drops) + Flatten(CompletePending(ms, k, pos)) + Flatten(ms[First(ms, c)..k2]),
        ulogMessage := Pending(ms, k2, d))
  }

  lemma StepConsecutive(ms: seq<seq<byte>>, ps: seq<Payload>, c0: nat, k: nat, i: nat, st: State)
    returns (k2: nat)
    requires Honest(ms, ps) && 1 <= i < |ps| && Place(ms, c0, Cut(ps, i), k) && c0 <= Cut(ps, i)
    requires st.gotUlogHeader && st.ulogMessage == Pending(ms, k, Cut(ps, i))
    ensures k <= k2 && Place(ms, c0, Cut(ps, i + 1), k2)
    ensures k2 == Reached(ms, c0, Cut(ps, i), Cut(ps, i + 1))
    ensures Process(st, Piece(ps[i].data, ps[i].firstOffset, 0)) ==
            Ok(AfterConsecutive(ms, st, k, k2, Cut(ps, i + 1)))
  {
    var c, d := Cut(ps, i), Cut(ps, i + 1);
    var p := Piece(ps[i].data, ps[i].firstOffset, 0);
    PayloadCovers(ms, ps, i, 0);
    k2 := NextCursor(ms, k, c, d);
    NextCursorFits(ms, k, c, d, p);
    NextIsReached(ms, c0, k, c, d, p);
    ConsecutiveProcessed(ms, k, c, d, st, p);
  }

  lemma BeforeRunStays(ms: seq<seq<byte>>, ps: seq<Payload>, acc: seq<nat>, i: nat)
    requires Accepted(ps, acc) && |acc| > 0 && acc[|acc| - 1] + 1 == i < |ps|
    ensures Accepted(ps, acc + [i]) && BeforeRun(ms, ps, acc + [i]) == BeforeRun(ms, ps, acc)
  {
    AcceptedSnoc(ps, acc, i);
    LongerRun(acc, i);
    var n := |acc| - LastRun(acc);
    assert (acc + [i])[..n] == acc[..n] && (acc + [i])[..n + 1] == acc[..n + 1];
  }

  lemma LongerRun(acc: seq<nat>, i: nat)
    requires |acc| > 0 && acc[|acc| - 1] + 1 == i
    ensures LastRun(acc + [i]) == LastRun(acc) + 1
  {
    assert (acc + [i])[..|acc|] == acc;
  }

  lemma WrittenGrows(ms: seq<seq<byte>>, c0: nat, b: nat, d: nat, b2: nat, d2: nat, k: nat, k2: nat)
    requires IsLog(ms) && c0 <= Start(ms, |ms|)
    requires k == Reached(ms, c0, b, d) && k <= k2 == Reached(ms, c0, b2, d2)
    ensures Entries(Written(ms, c0, b2, d2)) == Entries(Written(ms, c0, b, d)) + Entries(ms[k..k2])
  {
    WrittenIsSlice(ms, c0, b, d);
    WrittenIsSlice(ms, c0, b2, d2);
    EntriesOfSlices(ms, First(ms, c0), k, k2);
  }

  lemma EntriesOfSlices(ms: seq<seq<byte>>, f: nat, k: nat, k2: nat)
    requires f <= k <= k2 <= |ms|
    ensures Entries(ms[f..k2]) == Entries(ms[f..k]) + Entries(ms[k..k2])
  {
  }

  /** A consecutive payload adds the messages it completes, and nothing else. */
  lemma ItemsConsecutive(ms: seq<seq<byte>>, ps: seq<Payload>, acc: seq<nat>, i: nat, k: nat, k2: nat)
    requires IsLog(ms) && Accepted(ps, acc) && |acc| > 0 && acc[|acc| - 1] + 1 == i < |ps|
    requires RunStart(ps, acc) <= Start(ms, |ms|)
    requires k == Reached(ms, RunStart(ps, acc), Cut(ps, acc[|acc| - 1]), RunEnd(ps, acc))
    requires k <= k2 == Reached(ms, RunStart(ps, acc), Cut(ps, i), Cut(ps, i + 1))
    ensures Accepted(ps, acc + [i])
    ensures FileItems(ms, ps, acc + [i]) == FileItems(ms, ps, acc) + Entries(ms[k..k2])
  {
    var c0, b, d := RunStart(ps, acc), Cut(ps, acc[|acc| - 1]), RunEnd(ps, acc);
    RunSnoc(ms, ps, acc, i);
    BeforeRunStays(ms, ps, acc, i);
    WrittenGrows(ms, c0, b, d, Cut(ps, i), Cut(ps, i + 1), k, k2);
    ConcatAssociative(BeforeRun(ms, ps, acc), Entries(Written(ms, c0, b, d)), Entries(ms[k..k2]));
  }

  lemma TracksConsecutive(ms: seq<seq<byte>>, ps: seq<Payload>, acc: seq<nat>, k: nat, items: seq<Item>,
                          i: nat, st: State, st1: State, k2: nat)
    requires IsLog(ms) && Tracks(ms, ps, acc, k, items, st)
    requires i < |ps| && i == acc[|acc| - 1] + 1 && Noted(ps, acc, i, st, st1)
    requires k <= k2 && Place(ms, RunStart(ps, acc), Cut(ps, i + 1), k2)
    requires k2 == Reached(ms, RunStart(ps, acc), Cut(ps, i), Cut(ps, i + 1))
    ensures Tracks(ms, ps, acc + [i], k2, items + Entries(ms[k..k2]),
                   AfterConsecutive(ms, st1, k, k2, Cut(ps, i + 1)))
  {
    CountsSnoc(ps, acc, i, st, st1);
    HoldsConsecutive(ms, ps, acc, k, items, i, k2);
    ItemsConsecutive(ms, ps, acc, i, k, k2);
    RunSnoc(ms, ps, acc, i);
  }

  lemma CollectOne<T>(x: Item, part: Item -> seq<T>)
    ensures Collect([x], part) == part(x)
  {
  }

  lemma GapItems(items: seq<Item>, reported: bool, drops: nat, complete: seq<seq<byte>>, next: seq<seq<byte>>)
    ensures var items2 := items + GapReport(reported, drops) + Entries(complete) + Entries(next);
      && Render(items2) == Render(items) + (if reported then DropoutRecord(drops) else [])
                           + Flatten(complete) + Flatten(next)
      && MessagesOf(items2) == MessagesOf(items) + complete + next
      && DropoutsOf(items2) == DropoutsOf(items) + (if reported then [drops] else [])
  {
    var gap := GapReport(reported, drops);
    if reported {
      CollectOne(Dropout(drops), Bytes);
      CollectOne(Dropout(drops), MessageOf);
      CollectOne(Dropout(drops), DropoutOf);
    }
    RenderAppend(items, gap);
    RenderAppend(items + gap, Entries(complete));
    RenderAppend(items + gap + Entries(complete), Entries(next));
    RenderEntries(complete);
    RenderEntries(next);
    assert MessagesOf(items) + [] == MessagesOf(items);
  }

  /** A payload after a gap ends the current run and begins another. */
  lemma HoldsAfterGap(ms: seq<seq<byte>>, ps: seq<Payload>, acc: seq<nat>, k: nat, items: seq<Item>,
                      i: nat, k2: nat, reported: bool)
    returns (items2: seq<Item>)
    requires IsLog(ms) && Accepted(ps, acc) && |acc| > 0 && acc[|acc| - 1] + 1 < i < |ps| && 0 < Cut(ps, i)
    requires Place(ms, RunStart(ps, acc), RunEnd(ps, acc), k) && Holds(ms, ps, acc, k, items)
    requires Place(ms, Cut(ps, i), Cut(ps, i + 1), k2)
    requires Gaps(ps, acc + [i]) == Gaps(ps, acc) + (if reported then [i - acc[|acc| - 1] - 1] else [])
    ensures Accepted(ps, acc + [i]) && Place(ms, RunStart(ps, acc + [i]), RunEnd(ps, acc + [i]), k2)
    ensures Holds(ms, ps, acc + [i], k2, items2)
    ensures items2 == items + GapReport(reported, i - acc[|acc| - 1] - 1)
                      + Entries(CompletePending(ms, k, RunEnd(ps, acc))) + Entries(ms[First(ms, Cut(ps, i))..k2])
    ensures Render(items2) ==
            Render(items) + (if reported then DropoutRecord(i - acc[|acc| - 1] - 1) else [])
            + Flatten(CompletePending(ms, k, RunEnd(ps, acc))) + Flatten(ms[First(ms, Cut(ps, i))..k2])
  {
    var drops := i - acc[|acc| - 1] - 1;
    var complete, next := CompletePending(ms, k, RunEnd(ps, acc)), ms[First(ms, Cut(ps, i))..k2];
    RunSnoc(ms, ps, acc, i);
    RunEndsExpected(ms, ps, acc, k, items);
    GapItems(items, reported, drops, complete, next);
    items2 := items + GapReport(reported, drops) + Entries(complete) + Entries(next);
    AlignedAfterGap(ms, ps, acc, k, items, i, k2, reported);
  }

  lemma AlignedAfterGap(ms: seq<seq<byte>>, ps: seq<Payload>, acc: seq<nat>, k: nat, items: seq<Item>,
                        i: nat, k2: nat, reported: bool)
    requires IsLog(ms) && Aligned(ms, items) && acc != [] && acc[|acc| - 1] + 1 < i < |ps| && 0 < Cut(ps, i)
    requires forall j :: 0 <= j < |acc| ==> acc[j] < |ps|
    requires Place(ms, RunStart(ps, acc), RunEnd(ps, acc), k) && Place(ms, Cut(ps, i), Cut(ps, i + 1), k2)
    ensures Aligned(ms, items + GapReport(reported, i - acc[|acc| - 1] - 1)
                        + Entries(CompletePending(ms, k, RunEnd(ps, acc)))
                        + Entries(ms[First(ms, Cut(ps, i))..k2]))
  {
    var items1 := items + GapReport(reported, i - acc[|acc| - 1] - 1);
    assert Aligned(ms, items1);
    var l := Last(ms, RunEnd(ps, acc));
    if k <= l {
      AlignedMore(ms, items1, k, l);
    } else {
      assert items1 + Entries([]) == items1;
    }
    AlignedMore(ms, items1 + Entries(CompletePending(ms, k, RunEnd(ps, acc))), First(ms, Cut(ps, i)), k2);
  }

  lemma StepAfterGap(ms: seq<seq<byte>>, ps: seq<Payload>, last: nat, k: nat, i: nat, st: State)
    returns (k2: nat)
    requires Honest(ms, ps) && last + 1 < i < |ps|
    requires Cursor(ms, k, Cut(ps, last + 1)) && 0 < Cut(ps, last + 1) <= |Flatten(ms)|
    requires st.gotUlogHeader && st.ulogMessage == Pending(ms, k, Cut(ps, last + 1))
    ensures 0 < Cut(ps, i) && Place(ms, Cut(ps, i), Cut(ps, i + 1), k2)
    ensures k2 == Reached(ms, Cut(ps, i), Cut(ps, i), Cut(ps, i + 1))
    ensures Process(st, Piece(ps[i].data, ps[i].firstOffset, i - last - 1)) ==
            Ok(AfterGap(ms, st, i - last - 1, k, Cut(ps, last + 1), Cut(ps, i), k2, Cut(ps, i + 1)))
  {
    var c, d := Cut(ps, i), Cut(ps, i + 1);
    PayloadCovers(ms, ps, i, i - last - 1);
    CutMonotone(ps, last + 1, i);
    k2 := NextCursor(ms, First(ms, c), c, d);
    NextAfterGapIsReached(ms, c, d, Piece(ps[i].data, ps[i].firstOffset, i - last - 1));
    AfterGapProcessed(ms, k, Cut(ps, last + 1), c, d, st, Piece(ps[i].data, ps[i].firstOffset, i - last - 1));
  }

  /** A payload after a gap adds the dropout report, the record still buffered, and the messages it completes. */
  lemma ItemsAfterGap(ms: seq<seq<byte>>, ps: seq<Payload>, acc: seq<nat>, i: nat, k: nat, k2: nat)
    requires IsLog(ms) && Accepted(ps, acc) && |acc| > 0 && acc[|acc| - 1] + 1 < i < |ps|
    requires RunStart(ps, acc) <= Start(ms, |ms|) && Cut(ps, i) <= Start(ms, |ms|)
    requires k == Reached(ms, RunStart(ps, acc), Cut(ps, acc[|acc| - 1]), RunEnd(ps, acc))
    requires k2 == Reached(ms, Cut(ps, i), Cut(ps, i), Cut(ps, i + 1))
    ensures Accepted(ps, acc + [i])
    ensures FileItems(ms, ps, acc + [i])
         == FileItems(ms, ps, acc) + GapReport(SomeUnacked(ps, acc + [i]), i - acc[|acc| - 1] - 1)
            + Entries(CompletePending(ms, k, RunEnd(ps, acc))) + Entries(ms[First(ms, Cut(ps, i))..k2])
  {
    var acc2, n := acc + [i], |acc|;
    RunSnoc(ms, ps, acc, i);
    assert LastRun(acc2) == 1 && acc2[..n] == acc && acc2[..n + 1] == acc2;
    HeldBackIsPending(ms, RunStart(ps, acc), Cut(ps, acc[n - 1]), RunEnd(ps, acc));
    WrittenIsSlice(ms, Cut(ps, i), Cut(ps, i), Cut(ps, i + 1));
  }

  lemma TracksAfterGap(ms: seq<seq<byte>>, ps: seq<Payload>, acc: seq<nat>, k: nat, items: seq<Item>,
                       i: nat, st: State, st1: State, k2: nat)
    returns (items2: seq<Item>)
    requires IsLog(ms) && Tracks(ms, ps, acc, k, items, st)
    requires acc[|acc| - 1] + 1 < i < |ps| && Noted(ps, acc, i, st, st1)
    requires 0 < Cut(ps, i) && Place(ms, Cut(ps, i), Cut(ps, i + 1), k2)
    requires k2 == Reached(ms, Cut(ps, i), Cut(ps, i), Cut(ps, i + 1))
    ensures Tracks(ms, ps, acc + [i], k2, items2,
                   AfterGap(ms, st1, i - acc[|acc| - 1] - 1, k, Cut(ps, acc[|acc| - 1] + 1),
                            Cut(ps, i), k2, Cut(ps, i + 1)))
  {
    CountsSnoc(ps, acc, i, st, st1);
    items2 := HoldsAfterGap(ms, ps, acc, k, items, i, k2, st1.gotHeaderSection);
    ItemsAfterGap(ms, ps, acc, i, k, k2);
    RunSnoc(ms, ps, acc, i);
  }
}
