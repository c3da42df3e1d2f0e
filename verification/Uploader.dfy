/**
 The firmware uploader against a bootloader whose flash may store something else than it is sent, and whose
 replies may fail: what is known about the flash when an upload succeeds.
 */
module Uploader {
  import opened Sequences
  import opened Crc32

  const PROG_MULTI_MAX := 252
  const READ_MULTI_MAX := 252

  const INSYNC: bv8 := 0x12
  const OK: bv8 := 0x10
  const FAILED: bv8 := 0x11
  const INVALID: bv8 := 0x13
  const BAD_SILICON_REV: bv8 := 0x14

  datatype Error =
    | Timeout | ShortRead | NotInSync | InvalidOperation | OperationFailed | UnexpectedReply | EraseTimeout | BadSilicon
    | WrongBoard | ImageTooLarge | VerificationFailed | ProgramCrcFailed

  // ---------- the firmware image ----------

  function Fill(n: nat): (r: seq<bv8>)
    ensures |r| == n
  {
    seq(n, _ => 0xff)
  }

  /** The image as it is uploaded: filled up with 0xff to a multiple of four bytes. */
  function Padded(raw: seq<bv8>): seq<bv8> {
    raw + Fill((4 - |raw| % 4) % 4)
  }

  /** How often the loop of `crc` runs for an image of n bytes. */
  function PadBlocks(n: nat, padlen: int): nat {
    if padlen - 1 <= n then 0 else (padlen - 1 - n + 3) / 4
  }

  /** `crc` covers exactly padlen bytes when the gap is a whole number of words, and only then. */
  lemma PadBlocksExact(n: nat, padlen: nat)
    ensures n + 4 * PadBlocks(n, padlen) == padlen <==> n <= padlen && (padlen - n) % 4 == 0
  {
  }

  class Firmware {
    const boardId: int
    const imageSize: int
    var image: seq<bv8>

    constructor (boardId: int, imageSize: int, raw: seq<bv8>)
      ensures this.boardId == boardId && this.imageSize == imageSize && image == Padded(raw)
    {
      this.boardId, this.imageSize, this.image := boardId, imageSize, raw;
      new;
      while |image| % 4 != 0
        invariant |raw| <= |image| <= |raw| + (4 - |raw| % 4) % 4
        invariant image == raw + Fill(|image| - |raw|)
        decreases |raw| + 4 - |image|
      {
        image := image + [0xff];
      }
    }

    method Crc32Of(bytes: seq<bv8>, start: Word32) returns (state: Word32)
      ensures state == CrcBytes(bytes, start)
    {
      state := start;
      for i := 0 to |bytes|
        invariant CrcBytes(bytes[i..], state) == CrcBytes(bytes, start)
      {
        var index := Add(state, FromByte(bytes[i])).b0;
        state := Add(CrcTab(index), DownByte(state));
        assert bytes[i..][1..] == bytes[i + 1..];
      }
    }

    /** The checksum of the image and whole words of 0xff behind it, as far as the loop goes. */
    method Crc(padlen: int) returns (state: Word32)
      ensures state == CrcBytes(image + Fill(4 * PadBlocks(|image|, padlen)), ZERO)
    {
      state := Crc32Of(image, ZERO);
      var i := |image|;
      ghost var n := 0;
      assert image + Fill(0) == image;
      while i < padlen - 1
        invariant i == |image| + 4 * n && n <= PadBlocks(|image|, padlen)
        invariant i >= padlen - 1 ==> n == PadBlocks(|image|, padlen)
        invariant state == CrcBytes(image + Fill(4 * n), ZERO)
        decreases padlen - i
      {
        CrcBytesConcat(image + Fill(4 * n), Fill(4), ZERO);
        assert image + Fill(4 * (n + 1)) == image + Fill(4 * n) + Fill(4);
        state := Crc32Of(Fill(4), state);
        i, n := i + 4, n + 1;
      }
    }
  }

  // ---------- the bootloader at the other end ----------

  /** The flash with these bytes at this place. */
  function Put(flash: seq<bv8>, at: nat, data: seq<bv8>): (r: seq<bv8>)
    requires at + |data| <= |flash|
    ensures |r| == |flash|
  {
    flash[..at] + data + flash[at + |data|..]
  }

  /**
   The bootloader: its flash, the address pointer, and how many commands it has had. What it writes when
   told to program, what an erase leaves, and every byte that arrives from it, read-back data and reported
   checksums included, are up to the hardware and the line.
   */
  datatype Bootloader = Bootloader(
    flash: seq<bv8>,
    address: nat,
    commands: nat,
    booted: bool,
    erased: seq<bv8>,
    stored: (nat, seq<bv8>) -> seq<bv8>,
    readBack: (nat, seq<bv8>) -> seq<bv8>,
    crcReport: (nat, Word32) -> seq<bv8>,
    reply: nat -> seq<bv8>)
  {
    function Count(): Bootloader {
      this.(commands := commands + 1)
    }

    /** CHIP_ERASE. */
    function Erase(): Bootloader {
      this.(flash := if |erased| == |flash| then erased else Fill(|flash|), address := 0, commands := commands + 1)
    }

    /** PROG_MULTI: nothing is written beyond the end of the flash. */
    function Program(data: seq<bv8>): Bootloader {
      var written := stored(commands, data);
      if address + |data| <= |flash| && |written| == |data| then
        this.(flash := Put(flash, address, written), address := address + |data|, commands := commands + 1)
      else Count()
    }

    /** CHIP_VERIFY: reading starts again at the beginning. */
    function Rewind(): Bootloader {
      this.(address := 0, commands := commands + 1)
    }

    /** READ_MULTI: the pointer moves over the bytes there, and something arrives. */
    function Read(n: nat): (seq<bv8>, Bootloader) {
      var bytes := Take(Drop(flash, address), n);
      (readBack(commands, bytes), this.(address := address + |bytes|, commands := commands + 1))
    }

    /** GET_CRC: what arrives for the checksum of the flash. */
    function ReportCrc(): seq<bv8> {
      crcReport(commands, CrcBytes(flash, ZERO))
    }

    /** Data that is read back, and the checksum, arrive as they are. */
    ghost predicate ReadsTrue() {
      && (forall n, data :: readBack(n, data) == data)
      && (forall n, crc :: crcReport(n, crc) == LittleEndian(crc))
    }

    /** Replies come as they should, and the flash stores what it is told. */
    ghost predicate Faultless() {
      && erased == Fill(|flash|)
      && ReadsTrue()
      && (forall n, data :: stored(n, data) == data)
      && (forall n :: reply(n) == [INSYNC, OK])
    }
  }

  function LittleEndian(w: Word32): seq<bv8> {
    [w.b0, w.b1, w.b2, w.b3]
  }

  /** `__recv_int`: four bytes, lowest first. */
  function RecvInt(bytes: seq<bv8>): Result<Word32, Error> {
    if |bytes| < 1 then Err(Timeout)
    else if |bytes| != 4 then Err(ShortRead)
    else Ok(W(bytes[3], bytes[2], bytes[1], bytes[0]))
  }

  /** `__getSync` on the bytes that arrive. */
  function GetSync(reply: seq<bv8>): Result<(), Error> {
    if |reply| < 1 then Err(Timeout)
    else if reply[0] != INSYNC then Err(NotInSync)
    else if |reply| < 2 then Err(Timeout)
    else if reply[1] == INVALID then Err(InvalidOperation)
    else if reply[1] == FAILED then Err(OperationFailed)
    else if reply[1] != OK then Err(UnexpectedReply)
    else Ok(())
  }

  /** `__trySync`: not in sync yet, in sync, or an error that stops the upload. */
  function TrySync(reply: seq<bv8>): Result<bool, Error> {
    if |reply| < 1 || reply[0] != INSYNC || |reply| < 2 then Ok(false)
    else if reply[1] == BAD_SILICON_REV then Err(BadSilicon)
    else Ok(reply[1] == OK)
  }

  // ---------- the steps of an upload, on the bootloader's state ----------

  /** `__split_len`. */
  function SplitLen(s: seq<bv8>, n: nat): seq<seq<bv8>>
    requires n > 0
    decreases |s|
  {
    if s == [] then [] else [Take(s, n)] + SplitLen(Drop(s, n), n)
  }

  predicate AllPieces(pieces: seq<seq<bv8>>, n: nat) {
    forall i :: 0 <= i < |pieces| ==> 0 < |pieces[i]| <= n
  }

  predicate Words(n: nat) {
    n % 4 == 0
  }

  /** Padding makes a whole number of words, and leaves one alone. */
  lemma PaddedWords(raw: seq<bv8>)
    ensures Words(|Padded(raw)|)
    ensures Words(|raw|) ==> Padded(raw) == raw
  {
    if Words(|raw|) {
      assert raw + Fill(0) == raw;
    }
  }

  predicate WholeWords(pieces: seq<seq<bv8>>) {
    forall i :: 0 <= i < |pieces| ==> Words(|pieces[i]|)
  }

  lemma TakeDrop(s: seq<bv8>, n: nat)
    ensures Take(s, n) + Drop(s, n) == s
    ensures |Take(s, n)| == if n <= |s| then n else |s|
    ensures |Drop(s, n)| == if n <= |s| then |s| - n else 0
  {
  }

  /** The pieces are the sequence, cut into non-empty parts of at most n bytes. */
  lemma {:induction false} SplitLenPieces(s: seq<bv8>, n: nat)
    requires n > 0
    ensures Flatten(SplitLen(s, n)) == s
    ensures AllPieces(SplitLen(s, n), n)
    decreases |s|
  {
    if s != [] {
      var rest := SplitLen(Drop(s, n), n);
      TakeDrop(s, n);
      SplitLenPieces(Drop(s, n), n);
      FlattenCons(Take(s, n), rest);
      assert forall i :: 0 <= i < |[Take(s, n)] + rest| ==>
          0 < |([Take(s, n)] + rest)[i]| <= n;
    }
  }

  lemma WordsLeft(a: nat, n: nat)
    requires Words(a) && Words(n) && n <= a
    ensures Words(a - n)
  {
  }

  /** An image of whole words is cut into whole words. */
  lemma {:induction false} SplitLenWholeWords(s: seq<bv8>, n: nat)
    requires n > 0 && Words(n) && Words(|s|)
    ensures WholeWords(SplitLen(s, n))
    decreases |s|
  {
    if s != [] {
      TakeDrop(s, n);
      if n <= |s| {
        WordsLeft(|s|, n);
      }
      SplitLenWholeWords(Drop(s, n), n);
    }
  }

  /** So every piece of a padded image, sent with PROG_MULTI, is one or more words, of at most 252 bytes. */
  lemma ProgrammedPieces(raw: seq<bv8>)
    ensures var pieces := SplitLen(Padded(raw), PROG_MULTI_MAX);
      Flatten(pieces) == Padded(raw) && AllPieces(pieces, 252) && WholeWords(pieces)
  {
    SplitLenPieces(Padded(raw), PROG_MULTI_MAX);
    SplitLenWholeWords(Padded(raw), PROG_MULTI_MAX);
  }

  lemma FlattenCons(x: seq<bv8>, rest: seq<seq<bv8>>)
    ensures Flatten([x] + rest) == x + Flatten(rest)
  {
  }

  function EraseDone(replies: seq<seq<bv8>>): Result<(), Error> {
    if replies == [] then Err(EraseTimeout) else
    match TrySync(replies[0])
    case Err(e) => Err(e)
    case Ok(true) => Ok(())
    case Ok(false) => EraseDone(replies[1..])
  }

  function ProgramGroups(bl: Bootloader, groups: seq<seq<bv8>>): (Result<(), Error>, Bootloader)
    decreases groups
  {
    if groups == [] then (Ok(()), bl) else
    match GetSync(bl.reply(bl.commands))
    case Err(e) => (Err(e), bl.Program(groups[0]))
    case Ok(_) => ProgramGroups(bl.Program(groups[0]), groups[1..])
  }

  /** `__verify_multi`: what is read must be what is expected, then the reply must be in sync. */
  function VerifyGroups(bl: Bootloader, groups: seq<seq<bv8>>): (Result<(), Error>, Bootloader)
    decreases groups
  {
    if groups == [] then (Ok(()), bl) else
    var (programmed, bl1) := bl.Read(|groups[0]|);
    if |programmed| < 1 then (Err(Timeout), bl1)
    else if programmed != groups[0] then (Err(VerificationFailed), bl1)
    else match GetSync(bl.reply(bl.commands))
         case Err(e) => (Err(e), bl1)
         case Ok(_) => VerifyGroups(bl1, groups[1..])
  }

  function VerifyV2(bl: Bootloader, image: seq<bv8>): (Result<(), Error>, Bootloader) {
    match GetSync(bl.reply(bl.commands))
    case Err(e) => (Err(e), bl.Rewind())
    case Ok(_) => VerifyGroups(bl.Rewind(), SplitLen(image, READ_MULTI_MAX))
  }

  /** What is made of a reported checksum and the reply behind it. */
  function CompareCrc(reported: seq<bv8>, reply: seq<bv8>, expected: Word32): Result<(), Error> {
    match RecvInt(reported)
    case Err(e) => Err(e)
    case Ok(crc) =>
      match GetSync(reply)
      case Err(e) => Err(e)
      case Ok(_) => if crc != expected then Err(ProgramCrcFailed) else Ok(())
  }

  function VerifyV3(bl: Bootloader, image: seq<bv8>, maxsize: int): (Result<(), Error>, Bootloader) {
    (CompareCrc(bl.ReportCrc(), bl.reply(bl.commands),
                CrcBytes(image + Fill(4 * PadBlocks(|image|, maxsize)), ZERO)),
     bl.Count())
  }

  function Reboot(bl: Bootloader, rev: int): (Result<(), Error>, Bootloader) {
    (if rev >= 3 then GetSync(bl.reply(bl.commands)) else Ok(()), bl.Count().(booted := true))
  }

  /** Everything after the checks at the start of `upload`. */
  function Flash(bl: Bootloader, image: seq<bv8>, maxsize: int, rev: int, polls: seq<seq<bv8>>)
    : (Result<(), Error>, Bootloader)
  {
    match EraseDone(polls)
    case Err(e) => (Err(e), bl.Erase())
    case Ok(_) =>
      var (programmed, bl1) := ProgramGroups(bl.Erase(), SplitLen(image, PROG_MULTI_MAX));
      if programmed.Err? then (programmed, bl1) else
      var (verified, bl2) := if rev == 2 then VerifyV2(bl1, image) else VerifyV3(bl1, image, maxsize);
      if verified.Err? then (verified, bl2) else
      Reboot(bl2, rev)
  }

  // ---------- the uploader ----------

  class UploaderTool {
    var port: Bootloader
    var blRev: int
    var boardType: int
    var fwMaxsize: int
    const force: bool

    constructor (port: Bootloader, blRev: int, boardType: int, fwMaxsize: int, force: bool)
      ensures this.port == port && this.blRev == blRev && this.boardType == boardType
      ensures this.fwMaxsize == fwMaxsize && this.force == force
    {
      this.port, this.blRev, this.boardType, this.fwMaxsize := port, blRev, boardType, fwMaxsize;
      this.force := force;
    }

    /** `__erase`; polls are what is read from the line until the deadline. */
    method Erase(polls: seq<seq<bv8>>) returns (r: Result<(), Error>)
      modifies this`port
      ensures port == old(port).Erase() && r == EraseDone(polls)
    {
      port := port.Erase();
      for i := 0 to |polls|
        invariant EraseDone(polls) == EraseDone(polls[i..])
      {
        assert polls[i..][1..] == polls[i + 1..];
        var synced := TrySync(polls[i]);
        if synced.Err? {
          return Err(synced.error);
        }
        if synced.value {
          return Ok(());
        }
      }
      return Err(EraseTimeout);
    }

    method ProgramMulti(data: seq<bv8>) returns (r: Result<(), Error>)
      modifies this`port
      ensures r == GetSync(old(port).reply(old(port).commands)) && port == old(port).Program(data)
    {
      r := GetSync(port.reply(port.commands));
      port := port.Program(data);
    }

    method Program(image: seq<bv8>) returns (r: Result<(), Error>)
      modifies this`port
      ensures (r, port) == ProgramGroups(old(port), SplitLen(image, PROG_MULTI_MAX))
    {
      var groups := SplitLen(image, PROG_MULTI_MAX);
      for i := 0 to |groups|
        invariant ProgramGroups(port, groups[i..]) == ProgramGroups(old(port), groups)
      {
        assert groups[i..][1..] == groups[i + 1..];
        var sent := ProgramMulti(groups[i]);
        if sent.Err? {
          return sent;
        }
      }
      return Ok(());
    }

    method VerifyMulti(data: seq<bv8>) returns (r: Result<bool, Error>)
      modifies this`port
      ensures var (bytes, bl) := old(port).Read(|data|);
        && port == bl
        && r == if |bytes| < 1 then Err(Timeout)
                else if bytes != data then Ok(false)
                else match GetSync(old(port).reply(old(port).commands)) case Err(e) => Err(e) case Ok(_) => Ok(true)
    {
      var reply := port.reply(port.commands);
      var (programmed, bl) := port.Read(|data|);
      port := bl;
      if |programmed| < 1 {
        return Err(Timeout);
      }
      if programmed != data {
        return Ok(false);
      }
      var synced := GetSync(reply);
      if synced.Err? {
        return Err(synced.error);
      }
      return Ok(true);
    }

    method VerifyRev2(image: seq<bv8>) returns (r: Result<(), Error>)
      modifies this`port
      ensures (r, port) == VerifyV2(old(port), image)
    {
      var synced := GetSync(port.reply(port.commands));
      port := port.Rewind();
      if synced.Err? {
        return synced;
      }
      ghost var start := port;
      var groups := SplitLen(image, READ_MULTI_MAX);
      for i := 0 to |groups|
        invariant VerifyGroups(port, groups[i..]) == VerifyGroups(start, groups)
      {
        assert groups[i..][1..] == groups[i + 1..];
        var same := VerifyMulti(groups[i]);
        if same.Err? {
          return Err(same.error);
        }
        if !same.value {
          return Err(VerificationFailed);
        }
      }
      return Ok(());
    }

    method VerifyRev3(fw: Firmware) returns (r: Result<(), Error>)
      modifies this`port
      ensures (r, port) == VerifyV3(old(port), fw.image, fwMaxsize)
    {
      var expectCrc := fw.Crc(fwMaxsize);
      var reportCrc := RecvInt(port.ReportCrc());
      var reply := port.reply(port.commands);
      port := port.Count();
      if reportCrc.Err? {
        return Err(reportCrc.error);
      }
      var synced := GetSync(reply);
      if synced.Err? {
        return synced;
      }
      if reportCrc.value != expectCrc {
        return Err(ProgramCrcFailed);
      }
      return Ok(());
    }

    method RebootBoard() returns (r: Result<(), Error>)
      modifies this`port
      ensures (r, port) == Reboot(old(port), blRev)
    {
      var reply := port.reply(port.commands);
      port := port.Count().(booted := true);
      if blRev >= 3 {
        return GetSync(reply);
      }
      return Ok(());
    }

    /** `upload`. */
    method Upload(fw: Firmware, polls: seq<seq<bv8>>) returns (r: Result<(), Error>)
      modifies this`port
      ensures (r, port) ==
        if boardType != fw.boardId && !force then (Err(WrongBoard), old(port))
        else if fwMaxsize < fw.imageSize then (Err(ImageTooLarge), old(port))
        else Flash(old(port), fw.image, fwMaxsize, blRev, polls)
    {
      if boardType != fw.boardId {
        if !force {
          return Err(WrongBoard);
        }
      }
      if fwMaxsize < fw.imageSize {
        return Err(ImageTooLarge);
      }
      r := Erase(polls);
      if r.Err? {
        return;
      }
      r := Program(fw.image);
      if r.Err? {
        return;
      }
      if blRev == 2 {
        r := VerifyRev2(fw.image);
      } else {
        r := VerifyRev3(fw);
      }
      if r.Err? {
        return;
      }
      r := RebootBoard();
    }
  }

  // ---------- what a successful upload guarantees ----------

  /** Programming, whatever is stored, changes neither the size of the flash nor anything fixed about the board. */
  lemma {:induction false} ProgramKeepsSize(bl: Bootloader, groups: seq<seq<bv8>>)
    ensures var bl1 := ProgramGroups(bl, groups).1;
      |bl1.flash| == |bl.flash| && (bl.ReadsTrue() ==> bl1.ReadsTrue())
    decreases groups
  {
    if groups != [] {
      ProgramKeepsSize(bl.Program(groups[0]), groups[1..]);
    }
  }

  /** Verification succeeds only on a flash that holds the groups from the pointer on, and changes nothing. */
  lemma {:induction false} VerifyGroupsSound(bl: Bootloader, groups: seq<seq<bv8>>)
    requires bl.ReadsTrue() && VerifyGroups(bl, groups).0.Ok? && bl.address <= |bl.flash|
    ensures bl.address + |Flatten(groups)| <= |bl.flash|
    ensures bl.flash[bl.address..bl.address + |Flatten(groups)|] == Flatten(groups)
    ensures VerifyGroups(bl, groups).1.flash == bl.flash
    decreases groups
  {
    if groups != [] {
      var (programmed, bl1) := bl.Read(|groups[0]|);
      VerifyGroupsSound(bl1, groups[1..]);
      assert |programmed| == |groups[0]|;
      SlicesJoin(bl.flash, bl.address, bl1.address, bl.address + |Flatten(groups)|);
    }
  }

  /**
   Protocol revision 2: an upload that gets as far as the reboot leaves the padded image at the start of the
   flash, whatever was stored while programming and whatever else was answered.
   */
  lemma Rev2UploadIsExact(bl: Bootloader, image: seq<bv8>, maxsize: int, polls: seq<seq<bv8>>)
    requires bl.ReadsTrue() && Flash(bl, image, maxsize, 2, polls).0.Ok?
    ensures var flash := Flash(bl, image, maxsize, 2, polls).1.flash;
      |flash| == |bl.flash| && image <= flash
  {
    var bl1 := ProgramGroups(bl.Erase(), SplitLen(image, PROG_MULTI_MAX)).1;
    ProgramKeepsSize(bl.Erase(), SplitLen(image, PROG_MULTI_MAX));
    SplitLenPieces(image, READ_MULTI_MAX);
    VerifyGroupsSound(bl1.Rewind(), SplitLen(image, READ_MULTI_MAX));
  }

  /** The flash of a given size that holds the image and is blank behind it. */
  function Expected(image: seq<bv8>, size: nat): seq<bv8>
    requires |image| <= size
  {
    image + Fill(size - |image|)
  }

  /** A successful comparison of checksums, whatever was programmed. */
  lemma Rev3ChecksumAgrees(bl: Bootloader, image: seq<bv8>, maxsize: int, rev: int, polls: seq<seq<bv8>>)
    requires rev != 2 && bl.ReadsTrue() && Flash(bl, image, maxsize, rev, polls).0.Ok?
    ensures var flash := Flash(bl, image, maxsize, rev, polls).1.flash;
      && |flash| == |bl.flash|
      && CrcBytes(flash, ZERO) == CrcBytes(image + Fill(4 * PadBlocks(|image|, maxsize)), ZERO)
  {
    var groups := SplitLen(image, PROG_MULTI_MAX);
    ProgramKeepsSize(bl.Erase(), groups);
    assert Flash(bl, image, maxsize, rev, polls).1.flash == ProgramGroups(bl.Erase(), groups).1.flash;
  }

  /** Where the padding ends with the flash, it makes the expected contents. */
  lemma PaddingMeetsEnd(image: seq<bv8>, size: nat)
    requires |image| <= size && (size - |image|) % 4 == 0
    ensures image + Fill(4 * PadBlocks(|image|, size)) == Expected(image, size)
  {
    PadBlocksExact(|image|, size);
  }

  /** Equal checksums show every burst. */
  lemma NoBurst(flash: seq<bv8>, expected: seq<bv8>, k: nat, l: nat)
    requires CrcBytes(flash, ZERO) == CrcBytes(expected, ZERO)
    requires DifferWithin(flash, expected, k, l) && l - k <= 32
    ensures flash == expected
  {
    if flash != expected {
      BurstChangesCrc(flash, expected, k, l, ZERO);
    }
  }

  /**
   Protocol revisions 3 to 5: an upload that succeeds leaves a flash with the checksum of the image and whole words
   of padding. If those end with the flash, any difference from the expected contents spans more than 32 bits.
   */
  lemma Rev3UploadHasNoBurst(bl: Bootloader, image: seq<bv8>, maxsize: int, rev: int, polls: seq<seq<bv8>>,
                             k: nat, l: nat)
    requires rev != 2 && bl.ReadsTrue() && Flash(bl, image, maxsize, rev, polls).0.Ok?
    ensures var flash := Flash(bl, image, maxsize, rev, polls).1.flash;
      && |flash| == |bl.flash|
      && CrcBytes(flash, ZERO) == CrcBytes(image + Fill(4 * PadBlocks(|image|, maxsize)), ZERO)
      && (|image| <= |flash| == maxsize && (maxsize - |image|) % 4 == 0 ==>
            && CrcBytes(flash, ZERO) == CrcBytes(Expected(image, maxsize), ZERO)
            && (DifferWithin(flash, Expected(image, maxsize), k, l) && l - k <= 32 ==>
                  flash == Expected(image, maxsize)))
  {
    Rev3ChecksumAgrees(bl, image, maxsize, rev, polls);
    var flash := Flash(bl, image, maxsize, rev, polls).1.flash;
    if |image| <= |flash| == maxsize && (maxsize - |image|) % 4 == 0 {
      PaddingMeetsEnd(image, maxsize);
      if DifferWithin(flash, Expected(image, maxsize), k, l) && l - k <= 32 {
        NoBurst(flash, Expected(image, maxsize), k, l);
      }
    }
  }

  lemma PutNothing(flash: seq<bv8>, at: nat)
    requires at <= |flash|
    ensures Put(flash, at, []) == flash
  {
  }

  /** Putting `g` into the flash and then `rest` behind it comes to putting both there. */
  lemma PutTwice(flash: seq<bv8>, at: nat, g: seq<bv8>, rest: seq<bv8>)
    requires at + |g| + |rest| <= |flash|
    ensures Put(Put(flash, at, g), at + |g|, rest) == Put(flash, at, g + rest)
  {
  }

  /** Without faults, one group goes where the pointer is, and the reply is in sync. */
  lemma FaultlessGroup(bl: Bootloader, g: seq<bv8>) returns (bl1: Bootloader)
    requires bl.Faultless() && bl.address + |g| <= |bl.flash|
    ensures bl1 == bl.Program(g) && bl1.Faultless() && GetSync(bl.reply(bl.commands)).Ok?
    ensures bl1.flash == Put(bl.flash, bl.address, g) && bl1.address == bl.address + |g|
  {
    bl1 := bl.Program(g);
  }

  /** Without faults, programming puts the groups where the pointer is. */
  lemma {:induction false} FaultlessProgram(bl: Bootloader, groups: seq<seq<bv8>>)
    requires bl.Faultless() && bl.address + |Flatten(groups)| <= |bl.flash|
    ensures var (r, bl1) := ProgramGroups(bl, groups);
      r.Ok? && bl1.Faultless() && bl1.flash == Put(bl.flash, bl.address, Flatten(groups))
    decreases groups
  {
    if groups == [] {
      PutNothing(bl.flash, bl.address);
    } else {
      var bl1 := FaultlessGroup(bl, groups[0]);
      FaultlessProgram(bl1, groups[1..]);
      PutTwice(bl.flash, bl.address, groups[0], Flatten(groups[1..]));
    }
  }

  lemma {:induction false} FaultlessVerify(bl: Bootloader, groups: seq<seq<bv8>>)
    requires bl.Faultless() && AllPieces(groups, READ_MULTI_MAX)
    requires bl.address + |Flatten(groups)| <= |bl.flash|
    requires bl.flash[bl.address..bl.address + |Flatten(groups)|] == Flatten(groups)
    ensures VerifyGroups(bl, groups).0.Ok? && VerifyGroups(bl, groups).1.flash == bl.flash
    ensures VerifyGroups(bl, groups).1.Faultless()
    decreases groups
  {
    if groups != [] {
      var g, rest := groups[0], Flatten(groups[1..]);
      var all := bl.flash[bl.address..bl.address + |g + rest|];
      var (programmed, bl1) := bl.Read(|g|);
      assert Take(Drop(bl.flash, bl.address), |g|) == all[..|g|];
      assert bl1.flash[bl1.address..bl1.address + |rest|] == all[|g|..];
      FaultlessVerify(bl1, groups[1..]);
    }
  }

  lemma BlankBehind(image: seq<bv8>, flash: seq<bv8>)
    requires flash == Fill(|flash|) && |image| <= |flash|
    ensures flash[..0] + image + flash[0 + |image|..] == Expected(image, |flash|)
  {
  }

  lemma FaultlessFlash(bl: Bootloader, image: seq<bv8>)
    requires bl.Faultless() && |image| <= |bl.flash|
    ensures var (r, bl1) := ProgramGroups(bl.Erase(), SplitLen(image, PROG_MULTI_MAX));
      r.Ok? && bl1.Faultless() && bl1.flash == Expected(image, |bl.flash|)
  {
    var bl0, groups := bl.Erase(), SplitLen(image, PROG_MULTI_MAX);
    SplitLenPieces(image, PROG_MULTI_MAX);
    FaultlessProgram(bl0, groups);
    BlankBehind(image, bl0.flash);
  }

  lemma FaultlessVerifyV2(bl: Bootloader, image: seq<bv8>)
    requires bl.Faultless() && image <= bl.flash
    ensures var (r, bl1) := VerifyV2(bl, image); r.Ok? && bl1.flash == bl.flash && bl1.Faultless()
  {
    SplitLenPieces(image, READ_MULTI_MAX);
    assert bl.Rewind().flash[0..|image|] == image;
    FaultlessVerify(bl.Rewind(), SplitLen(image, READ_MULTI_MAX));
  }

  /** Without faults the comparison of checksums decides. */
  lemma FaultlessVerifyV3(bl: Bootloader, image: seq<bv8>, maxsize: int)
    requires bl.Faultless()
    ensures var same := CrcBytes(bl.flash, ZERO) == CrcBytes(image + Fill(4 * PadBlocks(|image|, maxsize)), ZERO);
      VerifyV3(bl, image, maxsize) == (if same then Ok(()) else Err(ProgramCrcFailed), bl.Count())
  {
    TrueReport(CrcBytes(bl.flash, ZERO), CrcBytes(image + Fill(4 * PadBlocks(|image|, maxsize)), ZERO));
  }

  lemma TrueReport(crc: Word32, expected: Word32)
    ensures CompareCrc(LittleEndian(crc), [INSYNC, OK], expected)
         == if crc == expected then Ok(()) else Err(ProgramCrcFailed)
  {
  }

  /**
   Without faults, every padded image that fits is uploaded and the flash is the expected one: on revision 2
   always, later if the flash is a whole number of words.
   */
  lemma FaultlessUploadSucceeds(bl: Bootloader, raw: seq<bv8>, rev: int, polls: seq<seq<bv8>>)
    requires bl.Faultless() && |Padded(raw)| <= |bl.flash| && EraseDone(polls).Ok?
    requires rev == 2 || |bl.flash| % 4 == 0
    ensures var (r, bl1) := Flash(bl, Padded(raw), |bl.flash|, rev, polls);
      r.Ok? && bl1.booted && bl1.flash == Expected(Padded(raw), |bl.flash|)
  {
    var image := Padded(raw);
    FaultlessFlash(bl, image);
    var bl1 := ProgramGroups(bl.Erase(), SplitLen(image, PROG_MULTI_MAX)).1;
    if rev == 2 {
      FaultlessVerifyV2(bl1, image);
    } else {
      PaddedWords(raw);
      WordsLeft(|bl.flash|, |image|);
      PadBlocksExact(|image|, |bl.flash|);
      FaultlessVerifyV3(bl1, image, |bl.flash|);
    }
  }

  const NUL: bv8 := 0

  /** Leading zero bytes leave the checksum alone: it starts at zero. */
  lemma {:induction false} LeadingZeros(n: nat, rest: seq<bv8>)
    ensures CrcBytes(Repeat(NUL, n) + rest, ZERO) == CrcBytes(rest, ZERO)
  {
    if n == 0 {
      assert Repeat(NUL, 0) + rest == rest;
    } else {
      assert (Repeat(NUL, n) + rest)[1..] == Repeat(NUL, n - 1) + rest;
      GeneratorZero();
      LeadingZeros(n - 1, rest);
    }
  }

  /** Up to four bytes of ff in different numbers have different checksums. */
  lemma FillsDiffer(a: nat, b: nat)
    requires a < b <= 4
    ensures CrcBytes(Fill(a), ZERO) != CrcBytes(Fill(b), ZERO)
  {
    var x, y := Repeat(NUL, b - a) + Fill(a), Fill(b);
    LeadingZeros(b - a, Fill(a));
    assert x[0] != y[0];
    FourByteErrorChangesCrc([], x, y, [], ZERO);
    assert [] + x + [] == x && [] + y + [] == y;
  }

  /** The largest image of whole words that fits. */
  function Largest(n: nat): (r: nat)
    ensures r <= n < r + 4 && r % 4 == 0
  {
    n - n % 4
  }

  /** On a flash that is no whole number of words the checksum asked for is not that of the expected contents. */
  lemma UnalignedChecksum(n: nat)
    requires n % 4 != 0
    ensures var k := Largest(n);
      CrcBytes(Expected(Repeat(NUL, k), n), ZERO) != CrcBytes(Repeat(NUL, k) + Fill(4 * PadBlocks(k, n)), ZERO)
  {
    var k := Largest(n);
    var covered := 4 * PadBlocks(k, n);
    assert covered == if n % 4 == 1 then 0 else 4;
    LeadingZeros(k, Fill(n - k));
    LeadingZeros(k, Fill(covered));
    if covered == 0 {
      FillsDiffer(0, n - k);
    } else {
      FillsDiffer(n - k, 4);
    }
  }

  /** There an image of zeros is rejected on every board without faults, though it is on the flash. */
  lemma UnalignedFlashRejected(bl: Bootloader, polls: seq<seq<bv8>>, rev: int)
    requires bl.Faultless() && |bl.flash| % 4 != 0 && EraseDone(polls).Ok? && rev != 2
    ensures var zeros := Repeat(NUL, Largest(|bl.flash|));
      var (r, bl1) := Flash(bl, zeros, |bl.flash|, rev, polls);
      && Padded(zeros) == zeros
      && r == Err(ProgramCrcFailed) && bl1.flash == Expected(zeros, |bl.flash|)
  {
    var zeros := Repeat(NUL, Largest(|bl.flash|));
    PaddedWords(zeros);
    FaultlessFlash(bl, zeros);
    UnalignedChecksum(|bl.flash|);
    var bl1 := ProgramGroups(bl.Erase(), SplitLen(zeros, PROG_MULTI_MAX)).1;
    FaultlessVerifyV3(bl1, zeros, |bl.flash|);
  }

  /** Does every padded image that fits upload on every board without faults and with n bytes of flash? */
  ghost predicate EveryImageUploads(n: nat, rev: int) {
    forall bl: Bootloader, raw, polls ::
      bl.Faultless() && |bl.flash| == n && |Padded(raw)| <= n && EraseDone(polls).Ok? ==>
        Flash(bl, Padded(raw), n, rev, polls).0.Ok?
  }

  function FaultlessBoard(n: nat): (bl: Bootloader)
    ensures bl.Faultless() && |bl.flash| == n
  {
    Bootloader(Fill(n), 0, 0, false, Fill(n), (_, data) => data, (_, data) => data,
               (_, crc) => LittleEndian(crc), _ => [INSYNC, OK])
  }

  /** Exactly when uploads can be relied on: on revision 2 always, later for flash sizes of whole words. */
  lemma EveryImageUploadsIff(n: nat, rev: int)
    ensures EveryImageUploads(n, rev) <==> rev == 2 || n % 4 == 0
  {
    if rev == 2 || n % 4 == 0 {
      forall bl: Bootloader, raw, polls
        | bl.Faultless() && |bl.flash| == n && |Padded(raw)| <= n && EraseDone(polls).Ok?
        ensures Flash(bl, Padded(raw), n, rev, polls).0.Ok?
      {
        FaultlessUploadSucceeds(bl, raw, rev, polls);
      }
    } else {
      var bl, polls := FaultlessBoard(n), [[INSYNC, OK]];
      assert EraseDone(polls).Ok?;
      UnalignedFlashRejected(bl, polls, rev);
    }
  }
}
