/**
 The ULog byte format as far as streaming needs it: a 16-byte file header followed by length-prefixed
 messages, and how a stream of such messages is cut into payloads.
 */
module UlogFormat {
  import opened Sequences

  const HEADER_LENGTH := 16
  const NO_MESSAGE_STARTS: byte := 255
  const PAYLOAD_CAPACITY := 249

  /** The length a message claims: two little-endian bytes that do not count the 3-byte message header. */
  function ClaimedLength(data: seq<byte>): nat
    requires |data| > 2
  {
    data[0] as int + data[1] as int * 256 + 3
  }

  /** A complete ULog message. */
  predicate IsRecord(r: seq<byte>) {
    |r| > 2 && |r| == ClaimedLength(r)
  }

  /** A log: the file header, then messages. */
  predicate IsLog(ms: seq<seq<byte>>) {
    && |ms| >= 1
    && |ms[0]| == HEADER_LENGTH
    && forall i :: 1 <= i < |ms| ==> IsRecord(ms[i])
  }

  predicate NonEmptyPieces(ms: seq<seq<byte>>) {
    forall i :: 0 <= i < |ms| ==> |ms[i]| > 0
  }

  /** Where piece number j starts in the concatenation. */
  function Start(ms: seq<seq<byte>>, j: nat): nat
    requires j <= |ms|
  {
    if j == 0 then 0 else Start(ms, j - 1) + |ms[j - 1]|
  }

  /** The first piece that starts at or after position c. */
  function First(ms: seq<seq<byte>>, c: nat): (j: nat)
    requires c <= Start(ms, |ms|)
    ensures j <= |ms| && c <= Start(ms, j)
    ensures j > 0 ==> Start(ms, j - 1) < c
  {
    FirstUpTo(ms, c, |ms|)
  }

  function FirstUpTo(ms: seq<seq<byte>>, c: nat, n: nat): (j: nat)
    requires n <= |ms| && c <= Start(ms, n)
    ensures j <= n && c <= Start(ms, j)
    ensures j > 0 ==> Start(ms, j - 1) < c
  {
    if n == 0 || Start(ms, n - 1) < c then n else FirstUpTo(ms, c, n - 1)
  }

  /** The number of pieces that end at or before position d, counting from the front. */
  function Last(ms: seq<seq<byte>>, d: nat): (j: nat)
    ensures j <= |ms| && Start(ms, j) <= d
    ensures j < |ms| ==> d < Start(ms, j + 1)
  {
    LastUpTo(ms, d, |ms|)
  }

  function LastUpTo(ms: seq<seq<byte>>, d: nat, n: nat): (j: nat)
    requires n <= |ms|
    requires n < |ms| ==> d < Start(ms, n + 1)
    ensures j <= n && Start(ms, j) <= d
    ensures j < |ms| ==> d < Start(ms, j + 1)
  {
    if n == 0 || Start(ms, n) <= d then n else LastUpTo(ms, d, n - 1)
  }

  /** The offset a payload covering positions [c, d) must carry. */
  function OffsetOf(ms: seq<seq<byte>>, c: nat, d: nat): int
    requires c <= Start(ms, |ms|)
  {
    var j := First(ms, c);
    if Start(ms, j) < d then Start(ms, j) - c else NO_MESSAGE_STARTS
  }

  /** Splits data into the complete records at its front and the rest. */
  function SplitRecords(data: seq<byte>): (r: (seq<seq<byte>>, seq<byte>))
  {
    if |data| <= 2 then ([], data) else
    var n := ClaimedLength(data);
    if n > |data| then ([], data) else
    var (records, rest) := SplitRecords(data[n..]);
    ([data[..n]] + records, rest)
  }

  /** Splitting loses nothing, yields only complete records, and leaves less than one record. */
  lemma {:induction false} SplitRecordsSound(data: seq<byte>)
    ensures var (records, rest) := SplitRecords(data);
      && Flatten(records) + rest == data
      && (forall i :: 0 <= i < |records| ==> IsRecord(records[i]))
      && (|rest| <= 2 || ClaimedLength(rest) > |rest|)
  {
    if |data| > 2 {
      var n := ClaimedLength(data);
      if n <= |data| {
        SplitRecordsSound(data[n..]);
        var (records, rest) := SplitRecords(data[n..]);
        assert ([data[..n]] + records)[1..] == records;
        assert data == data[..n] + (Flatten(records) + rest);
      }
    }
  }

  /** Complete records are found again, each one whole. */
  lemma {:induction false} SplitRecordsComplete(records: seq<seq<byte>>)
    requires forall i :: 0 <= i < |records| ==> IsRecord(records[i])
    ensures SplitRecords(Flatten(records)) == (records, [])
  {
    if records != [] {
      SplitRecordsComplete(records[1..]);
      var data := Flatten(records);
      var n := |records[0]|;
      assert data[..n] == records[0] && data[n..] == Flatten(records[1..]);
      assert records == [records[0]] + records[1..];
    }
  }

  lemma {:induction false} StartMonotone(ms: seq<seq<byte>>, i: nat, j: nat)
    requires i <= j <= |ms|
    ensures Start(ms, i) <= Start(ms, j)
    ensures i < j && NonEmptyPieces(ms) ==> Start(ms, i) < Start(ms, j)
    decreases j
  {
    if i < j {
      StartMonotone(ms, i, j - 1);
    }
  }

  lemma {:induction false} StartExtends(ms: seq<seq<byte>>, more: seq<seq<byte>>, j: nat)
    requires j <= |ms|
    ensures Start(ms + more, j) == Start(ms, j)
  {
    if j > 0 {
      StartExtends(ms, more, j - 1);
      assert (ms + more)[j - 1] == ms[j - 1];
    }
  }

  lemma {:induction false} StartTail(ms: seq<seq<byte>>, j: nat)
    requires 0 < j <= |ms|
    ensures Start(ms, j) == |ms[0]| + Start(ms[1..], j - 1)
  {
    if j > 1 {
      StartTail(ms, j - 1);
    }
  }

  lemma {:induction false} FlattenLength(ms: seq<seq<byte>>)
    ensures |Flatten(ms)| == Start(ms, |ms|)
  {
    if ms != [] {
      FlattenLength(ms[1..]);
      StartTail(ms, |ms|);
    }
  }

  lemma SliceOfConcat<T>(x: seq<T>, y: seq<T>, a: nat, b: nat)
    requires a <= b <= |y|
    ensures (x + y)[|x| + a..|x| + b] == y[a..b]
  {
  }

  /** Piece j lies between its start and the next one's. */
  lemma {:induction false} PieceAt(ms: seq<seq<byte>>, j: nat)
    requires j < |ms|
    ensures Start(ms, j) <= Start(ms, j + 1) <= |Flatten(ms)|
    ensures Flatten(ms)[Start(ms, j)..Start(ms, j + 1)] == ms[j]
  {
    FlattenLength(ms);
    StartMonotone(ms, j + 1, |ms|);
    if j > 0 {
      PieceAt(ms[1..], j - 1);
      StartTail(ms, j);
      StartTail(ms, j + 1);
      var a, b := Start(ms[1..], j - 1), Start(ms[1..], j);
      SliceOfConcat(ms[0], Flatten(ms[1..]), a, b);
    }
  }

  /** First and Last are determined by what surrounds them. */
  lemma FirstUnique(ms: seq<seq<byte>>, c: nat, j: nat)
    requires j <= |ms| && c <= Start(ms, j)
    requires j > 0 ==> Start(ms, j - 1) < c
    ensures c <= Start(ms, |ms|) && First(ms, c) == j
  {
    StartMonotone(ms, j, |ms|);
    var f := First(ms, c);
    if f < j {
      StartMonotone(ms, f, j - 1);
    } else if j < f {
      StartMonotone(ms, j, f - 1);
    }
  }

  lemma LastUnique(ms: seq<seq<byte>>, d: nat, j: nat)
    requires j <= |ms| && Start(ms, j) <= d
    requires j < |ms| ==> d < Start(ms, j + 1)
    ensures Last(ms, d) == j
  {
    var l := Last(ms, d);
    if l < j {
      StartMonotone(ms, l + 1, j);
    } else if j < l {
      StartMonotone(ms, j + 1, l);
    }
  }

  /** Splitting a stretch of a log that begins at a message gives the messages that end within it. */
  lemma {:induction false} SplitStream(ms: seq<seq<byte>>, k: nat, d: nat)
    requires IsLog(ms)
    requires 1 <= k <= |ms| && Start(ms, k) <= d <= |Flatten(ms)|
    ensures k <= Last(ms, d)
    ensures SplitRecords(Flatten(ms)[Start(ms, k)..d]) ==
            (ms[k..Last(ms, d)], Flatten(ms)[Start(ms, Last(ms, d))..d])
    decreases |ms| - k
  {
    var s := Flatten(ms);
    var data := s[Start(ms, k)..d];
    FlattenLength(ms);
    if k < |ms| {
      PieceAt(ms, k);
      assert Start(ms, k + 1) == Start(ms, k) + |ms[k]|;
      assert forall i :: 0 <= i < |ms[k]| && i < |data| ==> data[i] == s[Start(ms, k)..Start(ms, k + 1)][i];
      if Start(ms, k + 1) <= d {
        SplitStream(ms, k + 1, d);
        assert data[..|ms[k]|] == ms[k];
        assert data[|ms[k]|..] == s[Start(ms, k + 1)..d];
        SliceCons(ms, k, Last(ms, d));
      } else {
        LastUnique(ms, d, k);
      }
    } else {
      LastUnique(ms, d, k);
      assert data == [] && ms[k..k] == [];
    }
  }
}
