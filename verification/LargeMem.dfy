/** The large-memory engine of UsbRomDrv.cpp: a header that announces the transfer, then bulk
    transfers that may come up short or empty, with bounded retries. */
module LargeMem {
  import opened Bytes
  import opened Checksum
  import opened Link

  // ---- the header ----

  /** IOCTL_DO_LARGE_MEM_Handler: the block length put into wValue ... */
  function BlockLength(bulkSize: U16): (v: U16)
    ensures 0 < v <= 4096
  {
    if bulkSize == 0 || bulkSize > 4096 then 4096 else bulkSize
  }

  /** ... and the number of blocks put into wIndex, computed in 32 bits and cut to 16. */
  function BlockCount(len: U32, blockLength: U16): U16
    requires 0 < blockLength
  {
    (len + blockLength - 1) % WORD / blockLength % 0x1_0000
  }

  function Header(request: int, address: U32, size: U32, cksum: U32, seqNum: U32, bulkSize: U32): Request {
    var v := BlockLength(bulkSize % 0x1_0000);
    ControlOut(request, v, BlockCount(size, v), Le32(address) + Le32(size) + Le32(cksum) + Le32(seqNum))
  }

  lemma LowHalf(w: U32)
    ensures LeValue(Le32(w)[0..2]) == w % 0x1_0000
  {
    hide LeValue;
    var r1 := w / 0x100;
    var r2 := r1 / 0x100;
    var low := w % 0x100 + 0x100 * (r1 % 0x100);
    assert w == 0x1_0000 * r2 + low && 0 <= low < 0x1_0000;
    assert w % 0x1_0000 == low;
    assert Le32(w)[0..2] == [w % 0x100, r1 % 0x100];
    LeValue2(w % 0x100, r1 % 0x100);
  }

  /** The request the handler makes of a command block: the length at offset 4, the block size
      at offset 64 if the block goes on that far, and the first 16 bytes as data. */
  function Parsed(inBuf: seq<Byte>, doRead: bool): Request
    requires |inBuf| == 16 || |inBuf| >= 66
  {
    var v := BlockLength(if |inBuf| == 16 then 0 else LeValue(inBuf[64..66]) % 0x1_0000);
    ControlOut(if doRead then AM_REQ_RD_LARGE_MEM else AM_REQ_WR_LARGE_MEM, v, BlockCount(Word(inBuf, 4), v), inBuf[..16])
  }

  /** The 128-byte command block RWLargeMemCMD fills in. */
  function CommandBlock(address: U32, size: U32, bulkSize: U32, cksum: U32, seqNum: U32): (buf: seq<Byte>)
    ensures |buf| == 128
  {
    (Le32(address) + Le32(size) + Le32(cksum) + Le32(seqNum)) + Zeros(48) + Le32(bulkSize) + Zeros(60)
  }

  /** What the handler reads back from the block is what was put in. */
  lemma CommandBlockParses(address: U32, size: U32, bulkSize: U32, cksum: U32, seqNum: U32, doRead: bool)
    ensures Parsed(CommandBlock(address, size, bulkSize, cksum, seqNum), doRead) ==
            Header(if doRead then AM_REQ_RD_LARGE_MEM else AM_REQ_WR_LARGE_MEM, address, size, cksum, seqNum, bulkSize)
  {
    hide LeValue, Le32, BlockCount, BlockLength;
    var buf := CommandBlock(address, size, bulkSize, cksum, seqNum);
    assert buf[..16] == Le32(address) + Le32(size) + Le32(cksum) + Le32(seqNum);
    assert buf[4..8] == Le32(size);
    assert buf[64..66] == Le32(bulkSize)[0..2];
    Le32RoundTrip(size);
    LowHalf(bulkSize);
  }

  /** The handler's request in numbers: the block size is 4096 unless the block gives one up to
      that. */
  lemma ParsedInNumbers(inBuf: seq<Byte>, doRead: bool)
    requires |inBuf| == 16 || |inBuf| >= 66
    ensures var req := Parsed(inBuf, doRead);
            && req.ControlOut? && req.request == (if doRead then 0x12 else 0x11) && req.data == inBuf[..16]
            && (|inBuf| == 16 ==> req.value == 0x1000)
            && (|inBuf| >= 66 ==>
                  var size := inBuf[64] as int + 0x100 * inBuf[65] as int;
                  req.value == if 0 < size <= 0x1000 then size else 0x1000)
  {
    hide LeValue, BlockCount, Word;
    if |inBuf| >= 66 {
      LeValue2(inBuf[64], inBuf[65]);
      assert inBuf[64..66] == [inBuf[64], inBuf[65]];
    }
  }

  /** IOCTL_DO_LARGE_MEM_Handler; a block of more than 16 bytes is read up to byte 66. */
  method IoctlDoLargeMem(dev: Device, inBuf: seq<Byte>, doRead: bool) returns (ok: bool)
    requires dev.Valid() && (|inBuf| <= 16 || |inBuf| >= 66)
    modifies dev
    ensures dev.Valid()
    ensures |inBuf| < 16 ==> !ok && dev.requests == old(dev.requests) && dev.state == old(dev.state)
    ensures |inBuf| >= 16 ==>
              var req, reply := Parsed(inBuf, doRead), ReplyAt(dev.script, |old(dev.requests)|);
              && dev.requests == old(dev.requests) + [req] && dev.state == After(old(dev.state), req, reply)
              && ok == (Result(req, reply) >= 0)
  {
    hide After, Result, BlockCount, Word, LeValue;
    if |inBuf| < 16 {
      return false;
    }
    var bulkSize: U16 := 0;
    if |inBuf| > 16 {
      LeValueBound2(inBuf[64..66]);
      bulkSize := LeValue(inBuf[64..66]);
    }
    if bulkSize == 0 || bulkSize > 4096 {
      bulkSize := 4096;
    }
    var len := Word(inBuf, 4);
    var cnt := BlockCount(len, bulkSize);
    var r, _ := dev.Transfer(
      ControlOut(if doRead then AM_REQ_RD_LARGE_MEM else AM_REQ_WR_LARGE_MEM, bulkSize, cnt, inBuf[..16]));
    ok := r >= 0;
  }

  /** RWLargeMemCMD */
  method RWLargeMemCMD(dev: Device, address: U32, size: U32, bulkSize: U32, cksum: U32, seqNum: U32, doRead: bool) returns (ok: bool)
    requires dev.Valid()
    modifies dev
    ensures dev.Valid()
    ensures var req := Header(if doRead then AM_REQ_RD_LARGE_MEM else AM_REQ_WR_LARGE_MEM, address, size, cksum, seqNum, bulkSize);
            var reply := ReplyAt(dev.script, |old(dev.requests)|);
            && dev.requests == old(dev.requests) + [req] && dev.state == After(old(dev.state), req, reply)
            && ok == (Result(req, reply) >= 0)
  {
    hide After, Result, Header, Parsed, CommandBlock;
    var buf := CommandBlock(address, size, bulkSize, cksum, seqNum);
    CommandBlockParses(address, size, bulkSize, cksum, seqNum, doRead);
    ok := IoctlDoLargeMem(dev, buf, doRead);
  }

  // ---- one call ----

  /** How far one large-memory call got: how many headers it sent, and how many bulk transfers
      after them. */
  datatype Call = Call(headers: nat, bulks: nat)

  /** What a bulk transfer of size bytes reports. */
  function BulkResult(size: nat, reply: Reply): int {
    Result(BulkIn(size), reply)
  }

  /** The offset reached after j bulk transfers of at most chunk bytes each, when the replies
      from number start on answer them: each moves what its reply lets through. */
  function Progress(script: seq<Reply>, start: nat, n: nat, chunk: nat, j: nat): (offset: nat)
    ensures offset <= n
    decreases j, 0
  {
    if j == 0 then 0
    else
      var moved := ResultOf(script, start, n, chunk, j - 1);
      Progress(script, start, n, chunk, j - 1) + if moved >= 0 then moved else 0
  }

  /** What bulk transfer number j reports. */
  function ResultOf(script: seq<Reply>, start: nat, n: nat, chunk: nat, j: nat): (r: int)
    ensures r <= n - Progress(script, start, n, chunk, j)
    decreases j, 1
  {
    BulkResult(Min(n - Progress(script, start, n, chunk, j), chunk), ReplyAt(script, start + j))
  }

  /** How many of the last bulk transfers in a row reported no bytes. */
  function Retries(script: seq<Reply>, start: nat, n: nat, chunk: nat, j: nat): nat {
    if j == 0 || ResultOf(script, start, n, chunk, j - 1) != 0 then 0 else Retries(script, start, n, chunk, j - 1) + 1
  }

  /** After j bulk transfers there is another: bytes are left, the last one did not fail, and at
      most five in a row were empty. */
  predicate GoesOn(script: seq<Reply>, start: nat, n: nat, chunk: nat, j: nat) {
    && Progress(script, start, n, chunk, j) < n
    && (j == 0 || ResultOf(script, start, n, chunk, j - 1) >= 0)
    && Retries(script, start, n, chunk, j) <= 5
  }

  /** The first count bulk transfers each had cause to be made. */
  ghost predicate AllGoOn(script: seq<Reply>, start: nat, n: nat, chunk: nat, count: nat) {
    forall j {:trigger GoesOn(script, start, n, chunk, j)} :: 0 <= j < count ==> GoesOn(script, start, n, chunk, j)
  }

  /** Of the headers tried from number start on, all but the last were refused, and the last one
      too unless it was accepted. */
  ghost predicate HeadersTried(script: seq<Reply>, start: nat, hdr: Request, tried: nat, accepted: bool) {
    && (forall j :: start <= j < start + tried - 1 ==> Result(hdr, ReplyAt(script, j)) < 0)
    && (accepted ==> tried > 0)
    && (tried > 0 ==> (Result(hdr, ReplyAt(script, start + tried - 1)) >= 0 <==> accepted))
  }

  /** The call made exactly these transfers: headers until one was accepted, at most four, then
      bulk transfers for as long as it goes on. */
  ghost predicate CallRan(script: seq<Reply>, i: nat, hdr: Request, n: nat, chunk: nat, c: Call) {
    if c.bulks == 0 then
      HeadersTried(script, i, hdr, c.headers, false) && c.headers == if n == 0 then 0 else 4
    else
      && c.headers <= 4 && HeadersTried(script, i, hdr, c.headers, true)
      && AllGoOn(script, i + c.headers, n, chunk, c.bulks)
      && !GoesOn(script, i + c.headers, n, chunk, c.bulks)
  }

  /** The number of bytes the call reports. */
  function CallSize(script: seq<Reply>, i: nat, n: nat, chunk: nat, c: Call): (size: nat)
    ensures size <= n
  {
    Progress(script, i + c.headers, n, chunk, c.bulks)
  }

  /** The replies decide what a call does. */
  lemma CallIsDetermined(script: seq<Reply>, i: nat, hdr: Request, n: nat, chunk: nat, c: Call, d: Call)
    requires CallRan(script, i, hdr, n, chunk, c) && CallRan(script, i, hdr, n, chunk, d)
    ensures c == d
  {
    hide GoesOn, Result, AllButLast;
    CallGoesOn(script, i, hdr, n, chunk, c);
    CallGoesOn(script, i, hdr, n, chunk, d);
    if c.bulks > 0 && d.bulks > 0 {
      SameHeaders(script, i, hdr, c.headers, d.headers);
    } else if c.bulks > 0 {
      NotAllRefused(script, i, hdr, c.headers);
    } else if d.bulks > 0 {
      NotAllRefused(script, i, hdr, d.headers);
    }
  }

  lemma NotAllRefused(script: seq<Reply>, i: nat, hdr: Request, tried: nat)
    requires tried <= 4 && HeadersTried(script, i, hdr, tried, true)
    ensures !HeadersTried(script, i, hdr, 4, false)
  {
    hide Result;
    assert Result(hdr, ReplyAt(script, i + tried - 1)) >= 0;
  }

  lemma SameHeaders(script: seq<Reply>, i: nat, hdr: Request, a: nat, b: nat)
    requires HeadersTried(script, i, hdr, a, true) && HeadersTried(script, i, hdr, b, true)
    ensures a == b
  {
    hide Result;
    assert Result(hdr, ReplyAt(script, i + a - 1)) >= 0 && Result(hdr, ReplyAt(script, i + b - 1)) >= 0;
  }

  /** How a call goes, in numbers: at most four headers, one after the other for as long as they are
      refused, and bulk transfers only after one was accepted. */
  lemma CallInNumbers(script: seq<Reply>, i: nat, hdr: Request, n: nat, chunk: nat, c: Call)
    requires CallRan(script, i, hdr, n, chunk, c) && hdr.ControlOut?
    ensures c.headers <= 4 && forall j :: i <= j < i + c.headers - 1 ==> ReplyAt(script, j).code < 0
    ensures c.bulks > 0 ==> c.headers > 0 && ReplyAt(script, i + c.headers - 1).code >= 0
    ensures c.bulks == 0 && n > 0 ==> c.headers == 4 && ReplyAt(script, i + 3).code < 0
  {
    hide ReplyAt, AllGoOn, GoesOn;
    forall j | i <= j < i + c.headers - 1
      ensures ReplyAt(script, j).code < 0
    {
      assert Result(hdr, ReplyAt(script, j)) < 0;
    }
  }

  /** ... and it gives up only after four refused headers, a bulk transfer that failed, or six in a
      row that were reported empty. A time-out is a failure only if nothing was moved. */
  lemma GivesUpOnlyIf(script: seq<Reply>, i: nat, hdr: Request, n: nat, chunk: nat, c: Call)
    requires CallRan(script, i, hdr, n, chunk, c) && hdr.ControlOut? && chunk > 0
    requires CallSize(script, i, n, chunk, c) < n
    ensures var last := i + c.headers + c.bulks - 1;
            || (c.headers == 4 && c.bulks == 0 && forall j :: i <= j < i + 4 ==> ReplyAt(script, j).code < 0)
            || (c.bulks > 0 && ReplyAt(script, last).code != 0 && (ReplyAt(script, last).code == -7 ==> ReplyAt(script, last).count == 0))
            || (c.bulks >= 6 && forall j :: last - 5 <= j <= last ==> ReplyAt(script, j).code == 0 && ReplyAt(script, j).count == 0)
  {
    hide ReplyAt, Progress, Retries, ResultOf;
    CallInNumbers(script, i, hdr, n, chunk, c);
    if c.bulks > 0 {
      var start := i + c.headers;
      var r := ResultOf(script, start, n, chunk, c.bulks - 1);
      assert GoesOn(script, start, n, chunk, c.bulks - 1);
      ResultInNumbers(script, start, n, chunk, c.bulks - 1);
      if r >= 0 {
        LastSixEmpty(script, start, n, chunk, c.bulks);
      }
    }
  }

  lemma LastSixEmpty(script: seq<Reply>, start: nat, n: nat, chunk: nat, k: nat)
    requires AllGoOn(script, start, n, chunk, k) && chunk > 0 && Retries(script, start, n, chunk, k) > 5
    ensures k >= 6
    ensures forall j :: start + k - 6 <= j < start + k ==> ReplyAt(script, j).code == 0 && ReplyAt(script, j).count == 0
  {
    hide ReplyAt, Progress, Retries, ResultOf;
    RetriesAreEmpty(script, start, n, chunk, k, k - 6);
    forall j | start + k - 6 <= j < start + k
      ensures ReplyAt(script, j).code == 0 && ReplyAt(script, j).count == 0
    {
      RetriesAreEmpty(script, start, n, chunk, k, j - start);
      assert GoesOn(script, start, n, chunk, j - start);
      ResultInNumbers(script, start, n, chunk, j - start);
    }
  }

  /** What a bulk transfer with bytes left reports. */
  lemma ResultInNumbers(script: seq<Reply>, start: nat, n: nat, chunk: nat, k: nat)
    requires Progress(script, start, n, chunk, k) < n && chunk > 0
    ensures var r, reply := ResultOf(script, start, n, chunk, k), ReplyAt(script, start + k);
            && (r < 0 <==> reply.code != 0 && (reply.code == -7 ==> reply.count == 0))
            && (r == 0 <==> reply.code == 0 && reply.count == 0)
  {
    hide ReplyAt, Progress;
  }

  /** The transfers that the count of retries counts. */
  lemma {:induction false} RetriesAreEmpty(script: seq<Reply>, start: nat, n: nat, chunk: nat, k: nat, j: int)
    requires k - Retries(script, start, n, chunk, k) <= j < k
    ensures j >= 0 && ResultOf(script, start, n, chunk, j) == 0
    decreases k
  {
    hide ResultOf, Progress, Retries;
    RetriesStep(script, start, n, chunk, k);
    if j < k - 1 {
      RetriesAreEmpty(script, start, n, chunk, k - 1, j);
    }
  }

  lemma RetriesStep(script: seq<Reply>, start: nat, n: nat, chunk: nat, k: nat)
    ensures Retries(script, start, n, chunk, k) ==
      if k == 0 || ResultOf(script, start, n, chunk, k - 1) != 0 then 0 else Retries(script, start, n, chunk, k - 1) + 1
  {
    hide ResultOf, Progress;
  }

  function Repeat(req: Request, count: nat): (reqs: seq<Request>)
    ensures |reqs| == count
  {
    if count == 0 then [] else Repeat(req, count - 1) + [req]
  }

  lemma {:induction false} RepeatAt(req: Request, count: nat, j: nat)
    requires j < count
    ensures Repeat(req, count)[j] == req
  {
    if j < count - 1 {
      RepeatAt(req, count - 1, j);
    }
  }

  /** One of the headers tried got through in whole, whatever the host was told. */
  predicate Heard(script: seq<Reply>, i: nat, hdr: Request, tried: nat) {
    tried > 0 && (Heard(script, i, hdr, tried - 1) || Moved(hdr, ReplyAt(script, i + tried - 1)) == hdr.Size())
  }

  /** A device that takes no byte of the header but all n of the bulk transfer, all with success. */
  function Deaf(n: nat): seq<Reply> {
    [Reply(0, 0, [], 0, 0), Reply(0, n, [], 0, 0)]
  }

  /** With it, a call is taken for a success though no header was heard. */
  lemma DeafCall(hdr: Request, n: nat, chunk: nat)
    requires hdr.ControlOut? && hdr.Size() > 0 && 0 < n <= chunk
    ensures CallRan(Deaf(n), 0, hdr, n, chunk, Call(1, 1)) && CallSize(Deaf(n), 0, n, chunk, Call(1, 1)) == n
    ensures !Heard(Deaf(n), 0, hdr, 1)
  {
    ProgressStarts(Deaf(n), 1, n, chunk);
    ProgressStep(Deaf(n), 1, n, chunk, 0);
    assert ResultOf(Deaf(n), 1, n, chunk, 0) == n;
    assert GoesOn(Deaf(n), 1, n, chunk, 0);
  }

  /** write_bulk_usb */
  method WriteBulkUsb(dev: Device, buf: seq<Byte>) returns (actualLen: int)
    requires dev.Valid()
    modifies dev
    ensures dev.Valid()
    ensures var req, reply := BulkOut(buf), ReplyAt(dev.script, |old(dev.requests)|);
            && dev.requests == old(dev.requests) + [req] && dev.state == After(old(dev.state), req, reply)
            && actualLen == if Result(req, reply) < 0 then -1 else Result(req, reply)
  {
    hide After;
    var r, _ := dev.Transfer(BulkOut(buf));
    actualLen := if r < 0 then -1 else r;
  }

  // ---- writing ----

  /** What the header lets through: the device takes at most the announced number of bytes. */
  function Announced(n: nat): nat {
    Min(n, 0x1_0000)
  }

  function WriteHeader(address: U32, data: seq<Byte>, seqNum: U32): Request
    requires |data| < WORD
  {
    Header(AM_REQ_WR_LARGE_MEM, address, Announced(|data|), SumAdd(data, false), seqNum, Min(|data|, 0x1000))
  }

  function BulkWriteAt(data: seq<Byte>, at: nat): Request
    requires at <= |data|
  {
    BulkOut(data[at..at + Min(|data| - at, 0x1000)])
  }

  /** The bulk writes of a call: each resumes where the previous one ended. */
  function BulkWrites(script: seq<Reply>, start: nat, data: seq<Byte>, count: nat): (reqs: seq<Request>)
    ensures |reqs| == count
  {
    if count == 0 then []
    else BulkWrites(script, start, data, count - 1) + [BulkWriteAt(data, Progress(script, start, |data|, 0x1000, count - 1))]
  }

  /** Everything a write call sends. */
  function WriteTransfers(script: seq<Reply>, i: nat, hdr: Request, data: seq<Byte>, c: Call): (reqs: seq<Request>)
    ensures |reqs| == c.headers + c.bulks
  {
    Repeat(hdr, c.headers) + BulkWrites(script, i + c.headers, data, c.bulks)
  }

  /** How many bytes the bulk transfers moved, those of the last one included even if it failed. */
  function Reached(script: seq<Reply>, start: nat, n: nat, chunk: nat, count: nat): (m: nat)
    ensures m <= n
  {
    if count == 0 then 0
    else
      var before := Progress(script, start, n, chunk, count - 1);
      before + Min(ReplyAt(script, start + count - 1).count, Min(n - before, chunk))
  }

  // ---- what the transfers do to the device ----

  predicate IsHeader(hdr: Request) {
    hdr.ControlOut? && hdr.request in {AM_REQ_WR_LARGE_MEM, AM_REQ_RD_LARGE_MEM} && |hdr.data| == 16
  }

  /** The session a header opens. */
  function SessionOf(hdr: Request): Stream
    requires IsHeader(hdr)
  {
    if hdr.request == AM_REQ_WR_LARGE_MEM then Filling(Word(hdr.data, 0), Word(hdr.data, 4))
    else Draining(Word(hdr.data, 0), Word(hdr.data, 4))
  }

  lemma HeaderOpens(request: int, address: U32, size: U32, cksum: U32, seqNum: U32, bulkSize: U32)
    requires request in {AM_REQ_WR_LARGE_MEM, AM_REQ_RD_LARGE_MEM}
    ensures var hdr := Header(request, address, size, cksum, seqNum, bulkSize);
            && IsHeader(hdr)
            && SessionOf(hdr) == if request == AM_REQ_WR_LARGE_MEM then Filling(address, size) else Draining(address, size)
  {
    hide Le32, LeValue, BlockCount, BlockLength;
    var hdr := Header(request, address, size, cksum, seqNum, bulkSize);
    Le32RoundTrip(address);
    Le32RoundTrip(size);
    assert hdr.data[0..4] == Le32(address) && hdr.data[4..8] == Le32(size);
  }

  lemma HeaderStep(st: DeviceState, hdr: Request, reply: Reply)
    requires |st.mem| == WORD && IsHeader(hdr)
    ensures After(st, hdr, reply) == if Moved(hdr, reply) == hdr.Size() then st.(stream := SessionOf(hdr)) else st
    ensures Payload(st, hdr, reply) == []
  {
  }

  /** Headers leave memory alone; the session is theirs if one of them was heard, else it is the
      one from before. */
  lemma {:induction false} HeadersRun(script: seq<Reply>, i: nat, st: DeviceState, hdr: Request, tried: nat)
    requires |st.mem| == WORD && IsHeader(hdr)
    ensures Run(script, i, st, Repeat(hdr, tried)) ==
      st.(stream := if Heard(script, i, hdr, tried) then SessionOf(hdr) else st.stream)
    ensures Received(script, i, st, Repeat(hdr, tried)) == []
  {
    hide SessionOf, After, Payload, Moved, Run, Received, ReplyAt;
    if tried == 0 {
      RunNothing(script, i, st);
    } else {
      HeadersRun(script, i, st, hdr, tried - 1);
      HeaderStep(Run(script, i, st, Repeat(hdr, tried - 1)), hdr, ReplyAt(script, i + tried - 1));
      RunSnoc(script, i, st, Repeat(hdr, tried - 1), hdr);
    }
  }

  lemma ReachedIsProgress(script: seq<Reply>, start: nat, n: nat, chunk: nat, j: nat)
    requires j == 0 || ResultOf(script, start, n, chunk, j - 1) >= 0
    ensures Reached(script, start, n, chunk, j) == Progress(script, start, n, chunk, j)
  {
  }

  /** All the bulk transfers but the last got on without a failure. */
  ghost predicate AllButLast(script: seq<Reply>, start: nat, n: nat, chunk: nat, count: nat) {
    forall j {:trigger ResultOf(script, start, n, chunk, j)} :: 0 <= j < count - 1 ==> ResultOf(script, start, n, chunk, j) >= 0
  }

  /** The device once m bytes of data have reached it: in an open write session they are stored as
      far as they were announced, otherwise nothing happens. */
  function Fill(st: DeviceState, data: seq<Byte>, m: nat): (st': DeviceState)
    requires |st.mem| == WORD && m <= |data|
    ensures |st'.mem| == WORD
  {
    if st.stream.Filling? then
      var kept := Min(m, st.stream.left);
      DeviceState(Store(st.mem, st.stream.at, data[..kept]), Filling(Next(st.stream.at, kept), st.stream.left - kept))
    else st
  }

  lemma FillNothing(st: DeviceState, data: seq<Byte>)
    requires |st.mem| == WORD
    ensures Fill(st, data, 0) == st
  {
    if st.stream.Filling? {
      NextZero(st.stream.at);
    }
  }

  /** One bulk write. */
  lemma FillMore(st: DeviceState, data: seq<Byte>, m: nat, size: nat, reply: Reply)
    requires |st.mem| == WORD && m + size <= |data|
    ensures var req := BulkOut(data[m..m + size]);
            m + Moved(req, reply) <= |data| && After(Fill(st, data, m), req, reply) == Fill(st, data, m + Moved(req, reply))
  {
    var req := BulkOut(data[m..m + size]);
    var moved := Moved(req, reply);
    if st.stream.Filling? {
      var kept := Min(m, st.stream.left);
      var k := Min(moved, st.stream.left - kept);
      if k > 0 {
        SliceOfSlice(data, m, m + size, k);
      } else {
        assert data[m..m + size][..k] == [] == data[kept..kept + k];
      }
      StoreSplits(st.mem, st.stream.at, data[..kept], data[kept..kept + k]);
      SliceExtends(data, kept, k);
      NextTwice(st.stream.at, kept, k);
    }
  }

  lemma ReachedStep(script: seq<Reply>, start: nat, data: seq<Byte>, k: nat)
    ensures var at := Progress(script, start, |data|, 0x1000, k);
            Reached(script, start, |data|, 0x1000, k + 1) == at + Moved(BulkWriteAt(data, at), ReplyAt(script, start + k))
  {
    hide ReplyAt, Progress;
  }

  lemma {:induction false} BulkWritesRun(script: seq<Reply>, start: nat, st: DeviceState, data: seq<Byte>, count: nat)
    requires |st.mem| == WORD && AllButLast(script, start, |data|, 0x1000, count)
    ensures Run(script, start, st, BulkWrites(script, start, data, count)) == Fill(st, data, Reached(script, start, |data|, 0x1000, count))
  {
    hide Fill, After, Progress, ResultOf, Reached, Run, ReplyAt, Moved, Received;
    if count == 0 {
      RunNothing(script, start, st);
      FillNothing(st, data);
      ReachedIsProgress(script, start, |data|, 0x1000, 0);
      assert Progress(script, start, |data|, 0x1000, 0) == 0 by { ProgressStarts(script, start, |data|, 0x1000); }
    } else {
      var k := count - 1;
      var at := Progress(script, start, |data|, 0x1000, k);
      BulkWritesRun(script, start, st, data, k);
      assert k == 0 || ResultOf(script, start, |data|, 0x1000, k - 1) >= 0;
      ReachedIsProgress(script, start, |data|, 0x1000, k);
      ReachedStep(script, start, data, k);
      RunSnoc(script, start, st, BulkWrites(script, start, data, k), BulkWriteAt(data, at));
      FillMore(st, data, at, Min(|data| - at, 0x1000), ReplyAt(script, start + k));
    }
  }

  lemma ProgressStep(script: seq<Reply>, start: nat, n: nat, chunk: nat, k: nat)
    ensures var r := ResultOf(script, start, n, chunk, k);
            Progress(script, start, n, chunk, k + 1) == Progress(script, start, n, chunk, k) + if r >= 0 then r else 0
  {
    hide ResultOf;
  }

  lemma ProgressStarts(script: seq<Reply>, start: nat, n: nat, chunk: nat)
    ensures Progress(script, start, n, chunk, 0) == 0
  {
  }

  lemma CallGoesOn(script: seq<Reply>, i: nat, hdr: Request, n: nat, chunk: nat, c: Call)
    requires CallRan(script, i, hdr, n, chunk, c)
    ensures AllButLast(script, i + c.headers, n, chunk, c.bulks)
    ensures c.bulks > 0 ==> n > 0
  {
    hide HeadersTried, Progress, ResultOf, Retries;
    var start := i + c.headers;
    forall j | 0 <= j < c.bulks - 1
      ensures ResultOf(script, start, n, chunk, j) >= 0
    {
      assert GoesOn(script, start, n, chunk, j + 1);
    }
    if c.bulks > 0 {
      assert GoesOn(script, start, n, chunk, 0);
    }
  }

  /** The number of bytes of data that get into memory. */
  function Stored(script: seq<Reply>, i: nat, n: nat, c: Call): (m: nat)
    ensures m <= n
  {
    Min(Reached(script, i + c.headers, n, 0x1000, c.bulks), Announced(n))
  }

  lemma WriteRunIs(script: seq<Reply>, i: nat, st: DeviceState, hdr: Request, data: seq<Byte>, c: Call)
    requires |st.mem| == WORD && IsHeader(hdr) && CallRan(script, i, hdr, |data|, 0x1000, c)
    ensures Run(script, i, st, WriteTransfers(script, i, hdr, data, c)) ==
      Fill(st.(stream := if Heard(script, i, hdr, c.headers) then SessionOf(hdr) else st.stream), data,
           Reached(script, i + c.headers, |data|, 0x1000, c.bulks))
  {
    hide CallRan, AllButLast, Heard, Run, Progress, ResultOf, SessionOf, Fill, Reached, Received;
    HeadersRun(script, i, st, hdr, c.headers);
    CallGoesOn(script, i, hdr, |data|, 0x1000, c);
    var mid := Run(script, i, st, Repeat(hdr, c.headers));
    BulkWritesRun(script, i + c.headers, mid, data, c.bulks);
    RunSplits(script, i, st, Repeat(hdr, c.headers), BulkWrites(script, i + c.headers, data, c.bulks));
  }

  /** What a write call does to the device: if a header was heard, the bytes that reached it are
      in memory and nothing else has changed; if not, and no other session was open, nothing has
      changed at all. */
  lemma WriteEffect(script: seq<Reply>, i: nat, st: DeviceState, address: U32, data: seq<Byte>, seqNum: U32, c: Call)
    requires |st.mem| == WORD && |data| < WORD
    requires CallRan(script, i, WriteHeader(address, data, seqNum), |data|, 0x1000, c)
    ensures var hdr := WriteHeader(address, data, seqNum);
            var st' := Run(script, i, st, WriteTransfers(script, i, hdr, data, c));
            if Heard(script, i, hdr, c.headers) then
              && st'.mem == Store(st.mem, address, data[..Stored(script, i, |data|, c)])
              && (CallSize(script, i, |data|, 0x1000, c) == |data| ==> st'.stream.Spent())
            else st.stream.Spent() ==> st'.mem == st.mem && st'.stream.Spent()
  {
    hide CallRan, Header, Store, Next, Heard, Run, Progress, ResultOf, Reached, SessionOf, SumAdd, Received;
    var hdr := WriteHeader(address, data, seqNum);
    HeaderOpens(AM_REQ_WR_LARGE_MEM, address, Announced(|data|), SumAdd(data, false), seqNum, Min(|data|, 0x1000));
    WriteRunIs(script, i, st, hdr, data, c);
    ReachesProgress(script, i + c.headers, |data|, 0x1000, c.bulks);
    if !Heard(script, i, hdr, c.headers) && st.stream.Spent() && st.stream.Filling? {
      StoreNothing(st.mem, st.stream.at);
    }
  }

  lemma ReachesProgress(script: seq<Reply>, start: nat, n: nat, chunk: nat, j: nat)
    ensures Progress(script, start, n, chunk, j) <= Reached(script, start, n, chunk, j) <= n
  {
  }

  lemma StoreNothing(m: seq<Byte>, a: U32)
    requires |m| == WORD
    ensures Store(m, a, []) == m
  {
  }

  /** A write call that was told that all of its bytes moved leaves the flat copy, whatever was in
      memory before, if and only if the device heard one of its headers in whole and that header
      could announce all of them. Only a session left open from before could change this. */
  lemma WriteStoresIffHeard(script: seq<Reply>, i: nat, stream: Stream, address: U32, data: seq<Byte>, seqNum: U32, c: Call)
    requires 0 < |data| < WORD && stream.Spent()
    requires CallRan(script, i, WriteHeader(address, data, seqNum), |data|, 0x1000, c)
    requires CallSize(script, i, |data|, 0x1000, c) == |data|
    ensures var hdr := WriteHeader(address, data, seqNum);
            var ts := WriteTransfers(script, i, hdr, data, c);
            (forall m: seq<Byte> :: |m| == WORD ==> Run(script, i, DeviceState(m, stream), ts).mem == Store(m, address, data))
            <==> Heard(script, i, hdr, c.headers) && |data| <= 0x1_0000
  {
    hide CallRan, WriteHeader, WriteTransfers, Store, Heard, Run, Progress, Reached, Offset, Received;
    var hdr := WriteHeader(address, data, seqNum);
    var ts := WriteTransfers(script, i, hdr, data, c);
    ReachesProgress(script, i + c.headers, |data|, 0x1000, c.bulks);
    if Heard(script, i, hdr, c.headers) {
      forall m: seq<Byte> | |m| == WORD
        ensures Run(script, i, DeviceState(m, stream), ts).mem == Store(m, address, data[..Announced(|data|)])
      {
        WriteEffect(script, i, DeviceState(m, stream), address, data, seqNum, c);
      }
      OneHeaderCarries64K(address, data);
    } else {
      var other: Byte := if data[0] == 0 then 1 else 0;
      var m: seq<Byte> := seq(WORD, _ => other);
      WriteEffect(script, i, DeviceState(m, stream), address, data, seqNum, c);
      StoreAt(m, address, data, address);
      assert Offset(address, address) == 0 by { OffsetStep(address, address); }
      assert Store(m, address, data)[address] != m[address];
    }
  }

  // ---- reading ----

  /** The block size AmlUsbReadLargeMem asks for. */
  function ReadBlockSize(transferSize: U32): U32 {
    if transferSize >= 0x1000 then 0x1000 else Min(transferSize, 0x200)
  }

  function ReadHeader(address: U32, n: U32, seqNum: U32): Request {
    Header(AM_REQ_RD_LARGE_MEM, address, n, 0, seqNum, ReadBlockSize(Min(n, 0x1_0000)))
  }

  function BulkReadAt(n: nat, at: nat): Request
    requires at <= n
  {
    BulkIn(Min(n - at, 0x1_0000))
  }

  /** The bulk reads of a call: each resumes where the previous one ended. */
  function BulkReads(script: seq<Reply>, start: nat, n: nat, count: nat): (reqs: seq<Request>)
    ensures |reqs| == count
  {
    if count == 0 then []
    else BulkReads(script, start, n, count - 1) + [BulkReadAt(n, Progress(script, start, n, 0x1_0000, count - 1))]
  }

  /** Everything a read call sends. */
  function ReadTransfers(script: seq<Reply>, i: nat, hdr: Request, n: nat, c: Call): (reqs: seq<Request>)
    ensures |reqs| == c.headers + c.bulks
  {
    Repeat(hdr, c.headers) + BulkReads(script, i + c.headers, n, c.bulks)
  }

  /** The device once m bytes have been read from an open session. */
  function Drain(st: DeviceState, m: nat): DeviceState {
    if st.stream.Draining? then
      var k := Min(m, st.stream.left);
      st.(stream := Draining(Next(st.stream.at, k), st.stream.left - k))
    else st
  }

  lemma DrainNothing(st: DeviceState)
    requires |st.mem| == WORD
    ensures Drain(st, 0) == st
    ensures st.stream.Draining? ==> Load(st.mem, st.stream.at, 0) == []
  {
    if st.stream.Draining? {
      NextZero(st.stream.at);
    }
  }

  /** One bulk read: in an open session what arrives goes on where the last one ended. */
  lemma DrainMore(st: DeviceState, m: nat, size: nat, reply: Reply)
    requires |st.mem| == WORD
    ensures var req := BulkIn(size);
            && After(Drain(st, m), req, reply) == Drain(st, m + Moved(req, reply))
            && (st.stream.Draining? && m + size <= st.stream.left ==>
                  Load(st.mem, st.stream.at, m) + Payload(Drain(st, m), req, reply) == Load(st.mem, st.stream.at, m + Moved(req, reply)))
  {
    hide Load;
    var req := BulkIn(size);
    var moved := Moved(req, reply);
    if st.stream.Draining? {
      var k := Min(m, st.stream.left);
      NextTwice(st.stream.at, k, Min(moved, st.stream.left - k));
      if m + size <= st.stream.left {
        LoadSplits(st.mem, st.stream.at, m, moved);
        assert Payload(Drain(st, m), req, reply) == Load(st.mem, Next(st.stream.at, m), moved) + [];
      }
    }
  }

  lemma ReachedReadStep(script: seq<Reply>, start: nat, n: nat, k: nat)
    ensures var at := Progress(script, start, n, 0x1_0000, k);
            Reached(script, start, n, 0x1_0000, k + 1) == at + Moved(BulkReadAt(n, at), ReplyAt(script, start + k))
  {
    hide ReplyAt, Progress;
  }

  lemma {:induction false} BulkReadsRun(script: seq<Reply>, start: nat, st: DeviceState, n: nat, count: nat)
    requires |st.mem| == WORD && AllButLast(script, start, n, 0x1_0000, count)
    ensures var reqs, m := BulkReads(script, start, n, count), Reached(script, start, n, 0x1_0000, count);
            && Run(script, start, st, reqs) == Drain(st, m) && |Received(script, start, st, reqs)| == m
            && (st.stream.Draining? && n <= st.stream.left ==> Received(script, start, st, reqs) == Load(st.mem, st.stream.at, m))
  {
    hide Drain, After, Progress, ResultOf, Reached, Run, ReplyAt, Moved, Received, Load, Payload;
    if count == 0 {
      RunNothing(script, start, st);
      DrainNothing(st);
      ReachedIsProgress(script, start, n, 0x1_0000, 0);
      ProgressStarts(script, start, n, 0x1_0000);
    } else {
      var k := count - 1;
      var at := Progress(script, start, n, 0x1_0000, k);
      BulkReadsRun(script, start, st, n, k);
      assert k == 0 || ResultOf(script, start, n, 0x1_0000, k - 1) >= 0;
      ReachedIsProgress(script, start, n, 0x1_0000, k);
      ReachedReadStep(script, start, n, k);
      RunSnoc(script, start, st, BulkReads(script, start, n, k), BulkReadAt(n, at));
      DrainMore(st, at, Min(n - at, 0x1_0000), ReplyAt(script, start + k));
    }
  }

  /** What a read call does: the device's memory is never changed; if a header was heard, what
      arrives is memory from the address on; if not, and no other session was open, the device
      stays as it is. */
  lemma ReadEffect(script: seq<Reply>, i: nat, st: DeviceState, address: U32, n: U32, seqNum: U32, c: Call)
    requires |st.mem| == WORD && CallRan(script, i, ReadHeader(address, n, seqNum), n, 0x1_0000, c)
    ensures var hdr := ReadHeader(address, n, seqNum);
            var ts := ReadTransfers(script, i, hdr, n, c);
            var st', m := Run(script, i, st, ts), Reached(script, i + c.headers, n, 0x1_0000, c.bulks);
            && st'.mem == st.mem && |Received(script, i, st, ts)| == m
            && if Heard(script, i, hdr, c.headers) then
                 && Received(script, i, st, ts) == Load(st.mem, address, m)
                 && (CallSize(script, i, n, 0x1_0000, c) == n ==> st'.stream.Spent())
               else st.stream.Spent() ==> st' == st
  {
    hide CallRan, Header, Next, Heard, Run, Progress, ResultOf, Reached, SessionOf, Received, Load;
    var hdr := ReadHeader(address, n, seqNum);
    HeaderOpens(AM_REQ_RD_LARGE_MEM, address, n, 0, seqNum, ReadBlockSize(Min(n, 0x1_0000)));
    HeadersRun(script, i, st, hdr, c.headers);
    CallGoesOn(script, i, hdr, n, 0x1_0000, c);
    var mid := Run(script, i, st, Repeat(hdr, c.headers));
    BulkReadsRun(script, i + c.headers, mid, n, c.bulks);
    RunSplits(script, i, st, Repeat(hdr, c.headers), BulkReads(script, i + c.headers, n, c.bulks));
    ReachesProgress(script, i + c.headers, n, 0x1_0000, c.bulks);
    if st.stream.Draining? {
      NextZero(st.stream.at);
    }
  }

  // ---- the host ----

  /** The bulk transfers so far: each of them had cause to be made, and none of them failed. */
  ghost predicate GoneOn(script: seq<Reply>, start: nat, n: nat, chunk: nat, count: nat) {
    && AllGoOn(script, start, n, chunk, count)
    && (count == 0 || ResultOf(script, start, n, chunk, count - 1) >= 0)
  }

  /** What one more bulk transfer means for the loop. */
  lemma OneMoreBulk(script: seq<Reply>, start: nat, n: nat, chunk: nat, k: nat)
    requires GoneOn(script, start, n, chunk, k) && Progress(script, start, n, chunk, k) < n && Retries(script, start, n, chunk, k) <= 5
    ensures var r := ResultOf(script, start, n, chunk, k);
            && Progress(script, start, n, chunk, k + 1) == Progress(script, start, n, chunk, k) + (if r >= 0 then r else 0)
            && Retries(script, start, n, chunk, k + 1) == (if r == 0 then Retries(script, start, n, chunk, k) + 1 else 0)
            && AllGoOn(script, start, n, chunk, k + 1)
            && (r >= 0 ==> GoneOn(script, start, n, chunk, k + 1))
            && (GoesOn(script, start, n, chunk, k + 1) <==>
                  && Progress(script, start, n, chunk, k + 1) < n && r >= 0 && Retries(script, start, n, chunk, k + 1) <= 5)
  {
    hide ResultOf, Progress;
    ProgressStep(script, start, n, chunk, k);
    assert GoesOn(script, start, n, chunk, k);
  }

  lemma NoBulks(script: seq<Reply>, start: nat, n: nat, chunk: nat)
    ensures Progress(script, start, n, chunk, 0) == 0 && Retries(script, start, n, chunk, 0) == 0 && GoneOn(script, start, n, chunk, 0)
  {
  }

  /** One more header. */
  lemma OneMoreHeader(script: seq<Reply>, i: nat, hdr: Request, tried: nat)
    requires HeadersTried(script, i, hdr, tried, false)
    ensures HeadersTried(script, i, hdr, tried + 1, Result(hdr, ReplyAt(script, i + tried)) >= 0)
    ensures Repeat(hdr, tried + 1) == Repeat(hdr, tried) + [hdr]
  {
    hide Result;
  }

  /** Headers only so far, all of them refused. */
  ghost predicate Trying(dev: Device, dev0: seq<Request>, st0: DeviceState, hdr: Request, tried: nat)
    requires |st0.mem| == WORD
    reads dev
  {
    Made(dev, dev0, st0, Repeat(hdr, tried)) && HeadersTried(dev.script, |dev0|, hdr, tried, false)
  }

  /** The last header was accepted, and bulk transfers are under way. */
  ghost predicate Bulking(dev: Device, dev0: seq<Request>, st0: DeviceState, hdr: Request, bulks: seq<Request>,
                          n: nat, chunk: nat, c: Call, offset: nat, retry: nat)
    requires |st0.mem| == WORD
    reads dev
  {
    var start := |dev0| + c.headers;
    && Made(dev, dev0, st0, Repeat(hdr, c.headers) + bulks) && |bulks| == c.bulks
    && HeadersTried(dev.script, |dev0|, hdr, c.headers, true) && GoneOn(dev.script, start, n, chunk, c.bulks)
    && offset == Progress(dev.script, start, n, chunk, c.bulks) && retry == Retries(dev.script, start, n, chunk, c.bulks)
  }

  /** The loop has no cause to go on, or no headers left. */
  ghost predicate Over(dev: Device, dev0: seq<Request>, st0: DeviceState, hdr: Request, bulks: seq<Request>,
                       n: nat, chunk: nat, c: Call, size: nat)
    requires |st0.mem| == WORD
    reads dev
  {
    && Made(dev, dev0, st0, Repeat(hdr, c.headers) + bulks)
    && CallRan(dev.script, |dev0|, hdr, n, chunk, c) && size == CallSize(dev.script, |dev0|, n, chunk, c)
  }

  lemma NothingTried(dev: Device, hdr: Request)
    requires dev.Valid()
    ensures Trying(dev, dev.requests, dev.state, hdr, 0)
  {
  }

  lemma RefusedIsOver(dev: Device, dev0: seq<Request>, st0: DeviceState, hdr: Request, n: nat, chunk: nat, tried: nat)
    requires |st0.mem| == WORD && Trying(dev, dev0, st0, hdr, tried) && tried == if n == 0 then 0 else 4
    ensures Over(dev, dev0, st0, hdr, [], n, chunk, Call(tried, 0), 0)
  {
    hide HeadersTried;
    assert Repeat(hdr, tried) + [] == Repeat(hdr, tried);
  }

  /** The header part of both loops. */
  method TryHeader(dev: Device, address: U32, size: U32, bulkSize: U32, cksum: U32, seqNum: U32, doRead: bool,
                   ghost dev0: seq<Request>, ghost st0: DeviceState, ghost hdr: Request, ghost tried: nat, ghost n: nat, ghost chunk: nat)
    returns (ok: bool)
    requires dev.Valid() && |st0.mem| == WORD && Trying(dev, dev0, st0, hdr, tried)
    requires hdr == Header(if doRead then AM_REQ_RD_LARGE_MEM else AM_REQ_WR_LARGE_MEM, address, size, cksum, seqNum, bulkSize)
    modifies dev
    ensures dev.Valid()
    ensures if ok then Bulking(dev, dev0, st0, hdr, [], n, chunk, Call(tried + 1, 0), 0, 0) else Trying(dev, dev0, st0, hdr, tried + 1)
  {
    hide After, Payload, HeadersTried, Header, Result, Run, Repeat, ReplyAt, GoneOn, Progress, Retries, Received;
    MadeSnoc(dev.script, dev0, st0, Repeat(hdr, tried), hdr);
    OneMoreHeader(dev.script, |dev0|, hdr, tried);
    NoBulks(dev.script, |dev0| + tried + 1, n, chunk);
    assert Repeat(hdr, tried + 1) + [] == Repeat(hdr, tried + 1);
    ok := RWLargeMemCMD(dev, address, size, bulkSize, cksum, seqNum, doRead);
  }

  /** One more bulk transfer in the log. */
  lemma LogBulk(script: seq<Reply>, dev0: seq<Request>, st0: DeviceState, hdr: Request, bulks: seq<Request>, headers: nat, req: Request)
    requires |st0.mem| == WORD
    ensures var before := Repeat(hdr, headers) + bulks;
            && Repeat(hdr, headers) + (bulks + [req]) == before + [req] && |before| == headers + |bulks|
            && dev0 + before + [req] == dev0 + (before + [req])
            && Run(script, |dev0|, st0, before + [req]) == After(Run(script, |dev0|, st0, before), req, ReplyAt(script, |dev0| + headers + |bulks|))
            && Received(script, |dev0|, st0, before + [req])
               == Received(script, |dev0|, st0, before) + Payload(Run(script, |dev0|, st0, before), req, ReplyAt(script, |dev0| + headers + |bulks|))
  {
    hide After, Payload, ReplyAt, Run, Received;
    MadeSnoc(script, dev0, st0, Repeat(hdr, headers) + bulks, req);
  }

  /** After one more bulk transfer the call is over, or the loop goes on. */
  lemma AfterBulk(script: seq<Reply>, i: nat, hdr: Request, n: nat, chunk: nat, c: Call, offset: nat, retry: nat)
    requires c.headers <= 4 && HeadersTried(script, i, hdr, c.headers, true) && GoneOn(script, i + c.headers, n, chunk, c.bulks)
    requires offset == Progress(script, i + c.headers, n, chunk, c.bulks) < n
    requires retry == Retries(script, i + c.headers, n, chunk, c.bulks) <= 5
    ensures var start, c' := i + c.headers, Call(c.headers, c.bulks + 1);
            var r := ResultOf(script, start, n, chunk, c.bulks);
            var size := if r >= 0 then offset + r else offset;
            && size == CallSize(script, i, n, chunk, c')
            && (r < 0 || (r == 0 && retry == 5) || size == n ==> CallRan(script, i, hdr, n, chunk, c'))
            && (r >= 0 ==> GoneOn(script, start, n, chunk, c'.bulks) && Retries(script, start, n, chunk, c'.bulks) == if r == 0 then retry + 1 else 0)
  {
    hide HeadersTried, ResultOf, Progress, Retries, GoneOn, AllGoOn, GoesOn;
    OneMoreBulk(script, i + c.headers, n, chunk, c.bulks);
  }

  /** The bulk part of the write loop. */
  method SendBulk(dev: Device, buffer: seq<Byte>, offset: nat, transferSize: nat,
                  ghost dev0: seq<Request>, ghost st0: DeviceState, ghost hdr: Request, ghost c: Call, ghost retry: nat)
    returns (actualLen: int)
    requires dev.Valid() && |st0.mem| == WORD && c.headers <= 4
    requires Bulking(dev, dev0, st0, hdr, BulkWrites(dev.script, |dev0| + c.headers, buffer, c.bulks), |buffer|, 0x1000, c, offset, retry)
    requires retry <= 5 && offset < |buffer| && transferSize == Min(|buffer| - offset, 0x1000)
    modifies dev
    ensures dev.Valid() && -1 <= actualLen <= transferSize
    ensures var c', bulks := Call(c.headers, c.bulks + 1), BulkWrites(dev.script, |dev0| + c.headers, buffer, c.bulks + 1);
            var size := if actualLen == -1 then offset else offset + actualLen;
            if actualLen == -1 || (actualLen == 0 && retry == 5) || size == |buffer|
            then Over(dev, dev0, st0, hdr, bulks, |buffer|, 0x1000, c', size)
            else Bulking(dev, dev0, st0, hdr, bulks, |buffer|, 0x1000, c', size, if actualLen == 0 then retry + 1 else 0)
  {
    hide After, Payload, Result, Run, Received, Repeat, ReplyAt, Progress, ResultOf, Retries, GoneOn, CallRan, HeadersTried;
    LogBulk(dev.script, dev0, st0, hdr, BulkWrites(dev.script, |dev0| + c.headers, buffer, c.bulks), c.headers, BulkWriteAt(buffer, offset));
    BulkResultIs(dev.script, |dev0| + c.headers, buffer, c.bulks);
    AfterBulk(dev.script, |dev0|, hdr, |buffer|, 0x1000, c, offset, retry);
    actualLen := WriteBulkUsb(dev, buffer[offset..offset + transferSize]);
  }

  /** The write call is over: this is what it did. */
  lemma WriteEnds(dev: Device, dev0: seq<Request>, st0: DeviceState, hdr: Request, data: seq<Byte>, c: Call, size: nat)
    requires |st0.mem| == WORD
    requires Over(dev, dev0, st0, hdr, BulkWrites(dev.script, |dev0| + c.headers, data, c.bulks), |data|, 0x1000, c, size)
    ensures CallRan(dev.script, |dev0|, hdr, |data|, 0x1000, c) && size == CallSize(dev.script, |dev0|, |data|, 0x1000, c)
  {
    hide CallRan, CallSize, Repeat, BulkWrites, Made;
  }

  /** ... and what it sent. */
  lemma WriteIsMade(dev: Device, dev0: seq<Request>, st0: DeviceState, hdr: Request, bulks: seq<Request>, ts: seq<Request>,
                    n: nat, c: Call, size: nat)
    requires |st0.mem| == WORD && Over(dev, dev0, st0, hdr, bulks, n, 0x1000, c, size) && ts == Repeat(hdr, c.headers) + bulks
    ensures Made(dev, dev0, st0, ts)
  {
    hide CallRan, CallSize, Repeat, Made;
  }

  lemma TransfersAre(script: seq<Reply>, i: nat, hdr: Request, data: seq<Byte>, c: Call)
    ensures WriteTransfers(script, i, hdr, data, c) == Repeat(hdr, c.headers) + BulkWrites(script, i + c.headers, data, c.bulks)
  {
    hide Repeat, BulkWrites;
  }

  /** What a write call that is over has stored. */
  lemma WroteIfHeard(dev: Device, dev0: seq<Request>, st0: DeviceState, address: U32, data: seq<Byte>, seqNum: U32, c: Call)
    requires |st0.mem| == WORD && |data| < WORD
    requires CallRan(dev.script, |dev0|, WriteHeader(address, data, seqNum), |data|, 0x1000, c)
    requires Made(dev, dev0, st0, WriteTransfers(dev.script, |dev0|, WriteHeader(address, data, seqNum), data, c))
    ensures Heard(dev.script, |dev0|, WriteHeader(address, data, seqNum), c.headers) ==>
              dev.state.mem == Store(st0.mem, address, data[..Stored(dev.script, |dev0|, |data|, c)])
  {
    hide CallRan, CallSize, WriteHeader, WriteTransfers, Heard, Stored, Store, Run, Received, Made;
    MadeLog(dev, dev0, st0, WriteTransfers(dev.script, |dev0|, WriteHeader(address, data, seqNum), data, c));
    WriteEffect(dev.script, |dev0|, st0, address, data, seqNum, c);
  }

  lemma WriteHeaderIs(address: U32, data: seq<Byte>, seqNum: U32, totalSize: U32, transferSize: U32, cksum: U32)
    requires |data| < WORD && totalSize == Announced(|data|) && transferSize == Min(|data|, 0x1000)
    requires cksum == SumAdd(data, false)
    ensures WriteHeader(address, data, seqNum) == Header(AM_REQ_WR_LARGE_MEM, address, totalSize, cksum, seqNum, transferSize)
  {
  }

  lemma BulkResultIs(script: seq<Reply>, start: nat, data: seq<Byte>, k: nat)
    ensures var at := Progress(script, start, |data|, 0x1000, k);
            ResultOf(script, start, |data|, 0x1000, k) == Result(BulkWriteAt(data, at), ReplyAt(script, start + k))
  {
    hide Progress, ReplyAt;
  }

  /** A sequence number, n steps on. */
  function SeqAt(seqNum: U32, n: nat): U32 {
    (seqNum + n) % WORD
  }

  lemma SeqStart(seqNum: U32)
    ensures SeqAt(seqNum, 0) == seqNum
  {
  }

  lemma SeqNext(seqNum: U32, n: nat)
    ensures SeqAt(seqNum, n + 1) == (SeqAt(seqNum, n) + 1) % WORD
  {
    WrapAdd(seqNum + n, 1);
  }

  /** checksum(buffer, bufferLen): the length becomes an int. */
  method ChecksumOf(buffer: seq<Byte>) returns (cksum: U16)
    requires |buffer| < WORD
    ensures cksum == SumAdd(buffer, false)
  {
    hide WordSum, Fold, Rendered, Taken;
    assert |buffer| % WORD == |buffer|;
    cksum := ChecksumAdd(buffer, Signed(|buffer|), false);
  }

  /** The statics of UsbRomDrv.cpp. */
  class Driver {
    var writeSeqNum: U32
    var readSeqNum: U32

    constructor ()
      ensures writeSeqNum == 0 && readSeqNum == 0
    {
      writeSeqNum, readSeqNum := 0, 0;
    }

    /** AmlUsbWriteLargeMem: the log grows by one call; the result is 0 exactly if all bytes were
        reported moved. If the device heard a header, memory has the bytes that reached it. */
    method WriteLargeMem(dev: Device, address: U32, buffer: seq<Byte>) returns (ret: int, dataSize: nat, ghost c: Call)
      requires dev.Valid() && |buffer| < WORD
      modifies this`writeSeqNum, dev
      ensures var i, hdr := |old(dev.requests)|, WriteHeader(address, buffer, old(writeSeqNum));
              && dev.Valid() && CallRan(dev.script, i, hdr, |buffer|, 0x1000, c)
              && Made(dev, old(dev.requests), old(dev.state), WriteTransfers(dev.script, i, hdr, buffer, c))
              && dataSize == CallSize(dev.script, i, |buffer|, 0x1000, c) && ret == (if dataSize == |buffer| then 0 else -6)
              && (Heard(dev.script, i, hdr, c.headers) ==>
                    dev.state.mem == Store(old(dev.state).mem, address, buffer[..Stored(dev.script, i, |buffer|, c)]))
      ensures c.headers <= 4 && c.bulks <= 6 * dataSize + 6
      ensures writeSeqNum == SeqAt(old(writeSeqNum), c.bulks)
    {
      hide Store, WriteHeader, Header, Heard, Stored, WriteTransfers, Trying, Bulking, Over, CallRan, Made, Progress, BulkWrites;
      hide SumAdd, SeqAt;
      SeqStart(writeSeqNum);
      var offset, sizeToSend, retry := 0, -1, 0;
      var cksum := ChecksumOf(buffer);
      ghost var n, dev0, st0, seq0, script := |buffer|, dev.requests, dev.state, writeSeqNum, dev.script;
      ghost var hdr := WriteHeader(address, buffer, seq0);
      c := Call(0, 0);
      NothingTried(dev, hdr);
      label attempts:
      for i := 0 to 4
        invariant dev.Valid() && offset == 0 && sizeToSend == -1 && retry == 0 && writeSeqNum == SeqAt(seq0, 0)
        invariant c == Call(i, 0) && (i > 0 ==> n > 0) && Trying(dev, dev0, st0, hdr, i)
      {
        var remain := |buffer|;
        while remain > 0
          invariant dev.Valid() && offset + remain == n && remain >= 0 && 0 <= retry <= 5
          invariant c.bulks <= 6 * offset + retry && writeSeqNum == SeqAt(seq0, c.bulks)
          invariant if sizeToSend == -1 then
                      c == Call(i, 0) && offset == 0 && retry == 0 && Trying(dev, dev0, st0, hdr, i)
                    else
                      var bulks := BulkWrites(script, |dev0| + c.headers, buffer, c.bulks);
                      && c.headers == i + 1 && c.bulks > 0
                      && if remain == 0 then Over(dev, dev0, st0, hdr, bulks, n, 0x1000, c, n)
                         else Bulking(dev, dev0, st0, hdr, bulks, n, 0x1000, c, offset, retry)
          decreases remain, 6 - retry
        {
          var transferSize := Min(remain, 0x1000);
          if sizeToSend == -1 {
            var totalSize := Min(remain, 0x1_0000);
            WriteHeaderIs(address, buffer, seq0, totalSize, transferSize, cksum);
            NoBulkWrites(script, |dev0| + i + 1, buffer);
            var ok := TryHeader(dev, address, totalSize, transferSize, cksum, writeSeqNum, false, dev0, st0, hdr, i, n, 0x1000);
            c := Call(i + 1, 0);
            if !ok {
              break;
            }
            sizeToSend := totalSize;
          }
          SeqNext(seq0, c.bulks);
          writeSeqNum := (writeSeqNum + 1) % WORD;
          var actualLen := SendBulk(dev, buffer, offset, transferSize, dev0, st0, hdr, c, retry);
          c := Call(i + 1, c.bulks + 1);
          if actualLen != 0 {
            retry := 0;
          } else {
            retry := retry + 1;
            if retry > 5 {
              break attempts;
            }
          }
          if actualLen == -1 {
            break attempts;
          }
          offset := offset + actualLen;
          remain := remain - actualLen;
        }
        if remain == 0 {
          break;
        }
      }
      dataSize := offset;
      ret := if |buffer| == offset then 0 else -6;
      if c.bulks == 0 {
        RefusedIsOver(dev, dev0, st0, hdr, n, 0x1000, c.headers);
        NoBulkWrites(script, |dev0| + c.headers, buffer);
      }
      WriteEnds(dev, dev0, st0, hdr, buffer, c, offset);
      TransfersAre(script, |dev0|, hdr, buffer, c);
      WriteIsMade(dev, dev0, st0, hdr, BulkWrites(script, |dev0| + c.headers, buffer, c.bulks),
                  WriteTransfers(script, |dev0|, hdr, buffer, c), n, c, offset);
      WroteIfHeard(dev, dev0, st0, address, buffer, seq0, c);
    }

    /** read_bulk_usb, into the buffer at the given position. */
    method ReadBulkUsb(dev: Device, buf: array<Byte>, at: nat, len: nat) returns (actualLen: int, ghost data: seq<Byte>)
      requires dev.Valid() && at + len <= buf.Length
      modifies dev, buf
      ensures dev.Valid()
      ensures var req, reply := BulkIn(len), ReplyAt(dev.script, |old(dev.requests)|);
              && dev.requests == old(dev.requests) + [req] && dev.state == After(old(dev.state), req, reply)
              && data == Payload(old(dev.state), req, reply) && |data| <= len
              && actualLen == (if Result(req, reply) < 0 then -1 else Result(req, reply))
              && (actualLen >= 0 ==> actualLen == |data|)
      ensures buf[..at + |data|] == old(buf[..at]) + data
    {
      hide After, Payload;
      ghost var req, reply := BulkIn(len), ReplyAt(dev.script, |dev.requests|);
      var r, bytes := dev.Transfer(BulkIn(len));
      if r >= 0 {
        ResultIsMoved(req, reply);
      }
      Deposit(buf, at, bytes);
      data := bytes;
      actualLen := if r < 0 then -1 else r;
    }

    /** The bulk part of the read loop: what arrives continues what was received so far. */
    method ReceiveBulk(dev: Device, buffer: array<Byte>, bufferLen: nat, offset: nat, transferSize: nat,
                       ghost dev0: seq<Request>, ghost st0: DeviceState, ghost hdr: Request, ghost c: Call, ghost retry: nat)
      returns (actualLen: int)
      requires dev.Valid() && |st0.mem| == WORD && c.headers <= 4 && bufferLen <= buffer.Length
      requires Bulking(dev, dev0, st0, hdr, BulkReads(dev.script, |dev0| + c.headers, bufferLen, c.bulks), bufferLen, 0x1_0000, c, offset, retry)
      requires buffer[..offset] == Received(dev.script, |dev0|, st0, ReadTransfers(dev.script, |dev0|, hdr, bufferLen, c))
      requires retry <= 5 && offset < bufferLen && transferSize == Min(bufferLen - offset, 0x1_0000)
      modifies dev, buffer
      ensures dev.Valid() && -1 <= actualLen <= transferSize
      ensures var c', bulks := Call(c.headers, c.bulks + 1), BulkReads(dev.script, |dev0| + c.headers, bufferLen, c.bulks + 1);
              var size := if actualLen == -1 then offset else offset + actualLen;
              && buffer[..size] <= Received(dev.script, |dev0|, st0, ReadTransfers(dev.script, |dev0|, hdr, bufferLen, c'))
              && if actualLen == -1 || (actualLen == 0 && retry == 5) || size == bufferLen
                 then Over(dev, dev0, st0, hdr, bulks, bufferLen, 0x1_0000, c', size)
                 else
                   && buffer[..size] == Received(dev.script, |dev0|, st0, ReadTransfers(dev.script, |dev0|, hdr, bufferLen, c'))
                   && Bulking(dev, dev0, st0, hdr, bulks, bufferLen, 0x1_0000, c', size, if actualLen == 0 then retry + 1 else 0)
    {
      hide After, Payload, Result, Run, Received, Repeat, ReplyAt, Progress, ResultOf, Retries, GoneOn, CallRan, HeadersTried;
      LogBulk(dev.script, dev0, st0, hdr, BulkReads(dev.script, |dev0| + c.headers, bufferLen, c.bulks), c.headers, BulkReadAt(bufferLen, offset));
      ReadResultIs(dev.script, |dev0| + c.headers, bufferLen, c.bulks);
      AfterBulk(dev.script, |dev0|, hdr, bufferLen, 0x1_0000, c, offset, retry);
      ghost var data;
      actualLen, data := ReadBulkUsb(dev, buffer, offset, transferSize);
      assert buffer[..offset] <= buffer[..offset + |data|];
    }

    /** AmlUsbReadLargeMem: the log grows by one call; the result is 0 exactly if all bytes were
        reported moved. The buffer has what arrived, which is device memory if the device heard a
        header. */
    method ReadLargeMem(dev: Device, address: U32, buffer: array<Byte>, bufferLen: U32) returns (ret: int, dataSize: nat, ghost c: Call)
      requires dev.Valid() && bufferLen <= buffer.Length
      modifies this`readSeqNum, dev, buffer
      ensures readSeqNum == (old(readSeqNum) + 1) % WORD
      ensures var i, hdr := |old(dev.requests)|, ReadHeader(address, bufferLen, readSeqNum);
              var ts := ReadTransfers(dev.script, i, hdr, bufferLen, c);
              && dev.Valid() && CallRan(dev.script, i, hdr, bufferLen, 0x1_0000, c)
              && Made(dev, old(dev.requests), old(dev.state), ts) && dev.state.mem == old(dev.state).mem
              && dataSize == CallSize(dev.script, i, bufferLen, 0x1_0000, c) && ret == (if dataSize == bufferLen then 0 else -6)
              && buffer[..dataSize] <= Received(dev.script, i, old(dev.state), ts)
              && (Heard(dev.script, i, hdr, c.headers) ==> buffer[..dataSize] == Load(old(dev.state).mem, address, dataSize))
      ensures c.headers <= 4 && c.bulks <= 6 * dataSize + 6
    {
      hide Load, ReadHeader, Header, Heard, Trying, Bulking, Over, CallRan, Made, Progress, BulkReads, ReadTransfers, Received;
      readSeqNum := (readSeqNum + 1) % WORD;
      var offset, sizeToRead, retry := 0, -1, 0;
      ghost var n, dev0, st0, seq1, script := bufferLen, dev.requests, dev.state, readSeqNum, dev.script;
      ghost var hdr := ReadHeader(address, n, seq1);
      c := Call(0, 0);
      NothingTried(dev, hdr);
      label attempts:
      for i := 0 to 4
        invariant dev.Valid() && offset == 0 && sizeToRead == -1 && retry == 0 && readSeqNum == seq1
        invariant c == Call(i, 0) && (i > 0 ==> n > 0) && Trying(dev, dev0, st0, hdr, i)
      {
        var remain := bufferLen;
        while remain > 0
          invariant dev.Valid() && offset + remain == n && remain >= 0 && 0 <= retry <= 5 && readSeqNum == seq1
          invariant c.bulks <= 6 * offset + retry
          invariant if sizeToRead == -1 then
                      c == Call(i, 0) && offset == 0 && retry == 0 && Trying(dev, dev0, st0, hdr, i)
                    else
                      var bulks, got := BulkReads(script, |dev0| + c.headers, n, c.bulks), Received(script, |dev0|, st0, ReadTransfers(script, |dev0|, hdr, n, c));
                      && c.headers == i + 1 && c.bulks > 0 && buffer[..offset] <= got
                      && if remain == 0 then Over(dev, dev0, st0, hdr, bulks, n, 0x1_0000, c, n)
                         else Bulking(dev, dev0, st0, hdr, bulks, n, 0x1_0000, c, offset, retry) && buffer[..offset] == got
          decreases remain, 6 - retry
        {
          var transferSize := Min(remain, 0x1_0000);
          if sizeToRead == -1 {
            ReadHeaderIs(address, n, seq1, transferSize);
            NoBulkReads(script, |dev0|, st0, hdr, i + 1, n);
            var ok := TryHeader(dev, address, bufferLen, ReadBlockSize(transferSize), 0, readSeqNum, true, dev0, st0, hdr, i, n, 0x1_0000);
            c := Call(i + 1, 0);
            if !ok {
              break;
            }
            sizeToRead := transferSize;
          }
          var actualLen := ReceiveBulk(dev, buffer, bufferLen, offset, transferSize, dev0, st0, hdr, c, retry);
          c := Call(i + 1, c.bulks + 1);
          if actualLen != 0 {
            retry := 0;
          } else {
            retry := retry + 1;
            if retry > 5 {
              break attempts;
            }
          }
          if actualLen == -1 {
            break attempts;
          }
          offset := offset + actualLen;
          remain := remain - actualLen;
        }
        if remain == 0 {
          break;
        }
      }
      dataSize := offset;
      ret := if bufferLen == offset then 0 else -6;
      if c.bulks == 0 {
        RefusedIsOver(dev, dev0, st0, hdr, n, 0x1_0000, c.headers);
        NoBulkReads(script, |dev0|, st0, hdr, c.headers, n);
      }
      ReadEnds(dev, dev0, st0, address, n, seq1, c, offset, buffer[..offset]);
    }
  }

  lemma NoBulkReads(script: seq<Reply>, i: nat, st: DeviceState, hdr: Request, tried: nat, n: nat)
    requires |st.mem| == WORD
    ensures BulkReads(script, i + tried, n, 0) == []
    ensures IsHeader(hdr) ==> Received(script, i, st, ReadTransfers(script, i, hdr, n, Call(tried, 0))) == []
  {
    hide Received, Run;
    if IsHeader(hdr) {
      HeadersRun(script, i, st, hdr, tried);
      assert ReadTransfers(script, i, hdr, n, Call(tried, 0)) == Repeat(hdr, tried);
    }
  }

  lemma ReadHeaderIs(address: U32, n: U32, seqNum: U32, transferSize: U32)
    requires transferSize == Min(n, 0x1_0000)
    ensures ReadHeader(address, n, seqNum) == Header(AM_REQ_RD_LARGE_MEM, address, n, 0, seqNum, ReadBlockSize(transferSize))
    ensures IsHeader(ReadHeader(address, n, seqNum))
  {
    HeaderOpens(AM_REQ_RD_LARGE_MEM, address, n, 0, seqNum, ReadBlockSize(transferSize));
  }

  lemma ReadResultIs(script: seq<Reply>, start: nat, n: nat, k: nat)
    ensures var at := Progress(script, start, n, 0x1_0000, k);
            ResultOf(script, start, n, 0x1_0000, k) == Result(BulkReadAt(n, at), ReplyAt(script, start + k))
  {
    hide Progress, ReplyAt;
  }

  /** The read call is over: this is its effect. */
  lemma ReadEnds(dev: Device, dev0: seq<Request>, st0: DeviceState, address: U32, n: U32, seqNum: U32, c: Call, size: nat, got: seq<Byte>)
    requires |st0.mem| == WORD && |got| == size
    requires Over(dev, dev0, st0, ReadHeader(address, n, seqNum), BulkReads(dev.script, |dev0| + c.headers, n, c.bulks), n, 0x1_0000, c, size)
    requires got <= Received(dev.script, |dev0|, st0, ReadTransfers(dev.script, |dev0|, ReadHeader(address, n, seqNum), n, c))
    ensures var i, hdr := |dev0|, ReadHeader(address, n, seqNum);
            && CallRan(dev.script, i, hdr, n, 0x1_0000, c) && size == CallSize(dev.script, i, n, 0x1_0000, c)
            && Made(dev, dev0, st0, ReadTransfers(dev.script, i, hdr, n, c)) && dev.state.mem == st0.mem
            && (Heard(dev.script, i, hdr, c.headers) ==> got == Load(st0.mem, address, size))
  {
    hide CallRan, ReadHeader, Heard, Progress, Run, Repeat, BulkReads, Received, Reached, Next, Made, Load;
    var hdr := ReadHeader(address, n, seqNum);
    var ts := ReadTransfers(dev.script, |dev0|, hdr, n, c);
    assert ts == Repeat(hdr, c.headers) + BulkReads(dev.script, |dev0| + c.headers, n, c.bulks);
    MadeLog(dev, dev0, st0, ts);
    ReachesProgress(dev.script, |dev0| + c.headers, n, 0x1_0000, c.bulks);
    if Heard(dev.script, |dev0|, hdr, c.headers) {
      LoadPrefix(st0.mem, address, Reached(dev.script, |dev0| + c.headers, n, 0x1_0000, c.bulks), size);
    }
    ReadEffect(dev.script, |dev0|, st0, address, n, seqNum, c);
  }

  lemma ReceivedBlind(script: seq<Reply>, i: nat, m1: seq<Byte>, m2: seq<Byte>, stream: Stream, hdr: Request, n: nat, c: Call)
    requires |m1| == WORD && |m2| == WORD && stream.Spent() && IsHeader(hdr) && !Heard(script, i, hdr, c.headers)
    ensures var ts := ReadTransfers(script, i, hdr, n, c);
            Received(script, i, DeviceState(m1, stream), ts) == Received(script, i, DeviceState(m2, stream), ts)
  {
    hide Run, Received, Heard, SessionOf;
    HeadersRun(script, i, DeviceState(m1, stream), hdr, c.headers);
    HeadersRun(script, i, DeviceState(m2, stream), hdr, c.headers);
    var bulks := BulkReads(script, i + c.headers, n, c.bulks);
    RunSplits(script, i, DeviceState(m1, stream), Repeat(hdr, c.headers), bulks);
    RunSplits(script, i, DeviceState(m2, stream), Repeat(hdr, c.headers), bulks);
    BulkReadsBlind(script, i + c.headers, m1, m2, stream, n, c.bulks);
  }

  /** Without a session, what a bulk read brings has nothing to do with memory. */
  lemma {:induction false} BulkReadsBlind(script: seq<Reply>, start: nat, m1: seq<Byte>, m2: seq<Byte>, stream: Stream, n: nat, count: nat)
    requires |m1| == WORD && |m2| == WORD && stream.Spent()
    ensures var bulks := BulkReads(script, start, n, count);
            && Run(script, start, DeviceState(m1, stream), bulks) == DeviceState(m1, stream)
            && Run(script, start, DeviceState(m2, stream), bulks) == DeviceState(m2, stream)
            && Received(script, start, DeviceState(m1, stream), bulks) == Received(script, start, DeviceState(m2, stream), bulks)
  {
    hide Progress, Run, Received;
    if count == 0 {
      RunNothing(script, start, DeviceState(m1, stream));
      RunNothing(script, start, DeviceState(m2, stream));
    } else {
      var bulks := BulkReads(script, start, n, count - 1);
      var req := BulkReadAt(n, Progress(script, start, n, 0x1_0000, count - 1));
      BulkReadsBlind(script, start, m1, m2, stream, n, count - 1);
      RunSnoc(script, start, DeviceState(m1, stream), bulks, req);
      RunSnoc(script, start, DeviceState(m2, stream), bulks, req);
      if stream.Draining? {
        NextZero(stream.at);
      }
    }
  }

  /** A read call that was told that all of its bytes moved yields device memory, whatever is
      there, if and only if the device heard one of its headers in whole. Only a session left open
      from before could change this. */
  lemma ReadLoadsIffHeard(script: seq<Reply>, i: nat, stream: Stream, address: U32, n: U32, seqNum: U32, c: Call)
    requires n > 0 && stream.Spent()
    requires CallRan(script, i, ReadHeader(address, n, seqNum), n, 0x1_0000, c) && CallSize(script, i, n, 0x1_0000, c) == n
    ensures var hdr := ReadHeader(address, n, seqNum);
            var ts := ReadTransfers(script, i, hdr, n, c);
            (forall m: seq<Byte> :: |m| == WORD ==> Received(script, i, DeviceState(m, stream), ts) == Load(m, address, n))
            <==> Heard(script, i, hdr, c.headers)
  {
    hide CallRan, ReadHeader, ReadTransfers, Load, Heard, Run, Received, Progress, Reached;
    var hdr := ReadHeader(address, n, seqNum);
    var ts := ReadTransfers(script, i, hdr, n, c);
    ReachesProgress(script, i + c.headers, n, 0x1_0000, c.bulks);
    ReadHeaderIs(address, n, seqNum, Min(n, 0x1_0000));
    if Heard(script, i, hdr, c.headers) {
      forall m: seq<Byte> | |m| == WORD
        ensures Received(script, i, DeviceState(m, stream), ts) == Load(m, address, n)
      {
        ReadEffect(script, i, DeviceState(m, stream), address, n, seqNum, c);
      }
    } else {
      var m1: seq<Byte>, m2: seq<Byte> := seq(WORD, _ => 0), seq(WORD, _ => 1);
      ReceivedBlind(script, i, m1, m2, stream, hdr, n, c);
      LoadFirst(m1, address, n);
      LoadFirst(m2, address, n);
    }
  }

  lemma LoadPrefix(m: seq<Byte>, a: U32, n: nat, k: nat)
    requires |m| == WORD && k <= n
    ensures Load(m, a, n)[..k] == Load(m, a, k)
  {
  }

  lemma LoadFirst(m: seq<Byte>, a: U32, n: nat)
    requires |m| == WORD && n > 0
    ensures |Load(m, a, n)| > 0 && Load(m, a, n)[0] == m[a]
  {
    NextZero(a);
  }

  lemma NoBulkWrites(script: seq<Reply>, start: nat, data: seq<Byte>)
    ensures BulkWrites(script, start, data, 0) == []
  {
  }

  // ---- what the header announces ----

  /** A successful write stores all of its data, whatever was in memory before, exactly when
      the data fits the one header that is sent. */
  lemma OneHeaderCarries64K(address: U32, data: seq<Byte>)
    requires |data| <= WORD
    ensures (forall m: seq<Byte> :: |m| == WORD ==> Store(m, address, data[..Announced(|data|)]) == Store(m, address, data))
            <==> |data| <= 0x1_0000
  {
    PrefixStoreIsExact(address, data, Announced(|data|));
  }

  /** count blocks of length v are the fewest that hold n bytes. */
  predicate FewestBlocks(n: nat, v: nat, count: nat) {
    n <= count * v && n + v > count * v
  }

  /** The write header's wIndex is the least number of wValue-sized blocks for its size. */
  lemma WriteHeaderCountsBlocks(n: nat)
    requires 0 < n <= 0x1_0000
    ensures var v := BlockLength(Min(n, 0x1000) % 0x1_0000);
            v == Min(n, 0x1000) && FewestBlocks(n, v, BlockCount(Announced(n), v))
  {
    hide BlockCount, FewestBlocks;
    if n < 0x1000 {
      CountOne(n);
    } else {
      CountPages(n);
    }
  }

  lemma CountPages(n: U32)
    requires 0 < n <= 0xFFF_F000
    ensures BlockCount(n, 0x1000) == (n + 0xFFF) / 0x1000 && FewestBlocks(n, 0x1000, BlockCount(n, 0x1000))
  {
    var q := (n + 0xFFF) / 0x1000;
    assert 0x1000 * q <= n + 0xFFF < 0x1000 * q + 0x1000 && q < 0x1_0000;
  }

  lemma CountSectors(n: U32)
    requires 0 < n <= 0x1FF_FE00
    ensures FewestBlocks(n, 0x200, BlockCount(n, 0x200))
  {
    var q := (n + 0x1FF) / 0x200;
    assert 0x200 * q <= n + 0x1FF < 0x200 * q + 0x200 && q < 0x1_0000;
  }

  lemma CountOne(n: U32)
    requires 0 < n <= 0x1000
    ensures BlockCount(n, n) == 1 && FewestBlocks(n, n, BlockCount(n, n))
  {
    DivOne(n);
    assert (n + n - 1) % WORD == n + n - 1;
  }

  lemma DivOne(n: nat)
    requires 0 < n
    ensures (n + n - 1) / n == 1
  {
    var q := (n + n - 1) / n;
    assert q * n <= n + n - 1 < q * n + n;
  }

  /** The read header's wIndex is exact up to 0xFFFF000 bytes and no further, being cut to 16
      bits. */
  lemma ReadHeaderCountsBlocks(n: U32)
    requires n > 0
    ensures var v := BlockLength(ReadBlockSize(Min(n, 0x1_0000)) % 0x1_0000);
            && v == (if n >= 0x1000 then 0x1000 else Min(n, 0x200))
            && (FewestBlocks(n, v, BlockCount(n, v)) <==> n <= 0xFFF_F000)
  {
    hide BlockCount, FewestBlocks;
    if n < 0x200 {
      CountOne(n);
    } else if n < 0x1000 {
      CountSectors(n);
    } else if n <= 0xFFF_F000 {
      CountPages(n);
    } else {
      TooManyPages(n, BlockCount(n, 0x1000));
    }
  }

  /** A write header in numbers. What it announces is at most 64 KiB. */
  lemma WriteHeaderInNumbers(address: U32, data: seq<Byte>, seqNum: U32)
    requires 0 < |data| < WORD
    ensures var hdr := WriteHeader(address, data, seqNum);
            && hdr.ControlOut? && hdr.request == 0x11 && |hdr.data| == 16
            && Word(hdr.data, 0) == address && Word(hdr.data, 4) == Min(|data|, 0x1_0000) && Word(hdr.data, 12) == seqNum
            && (|data| <= 131076 ==> Word(hdr.data, 8) == Rfc1071(WordSum(data, 2), false))
            && hdr.value == Min(|data|, 0x1000)
            && (|data| <= 0x1_0000 ==> |data| <= hdr.index * hdr.value < |data| + hdr.value)
  {
    hide Le32, LeValue, BlockCount, SumAdd, Rfc1071, WordSum;
    var hdr, cksum := WriteHeader(address, data, seqNum), SumAdd(data, false);
    assert hdr.data[0..4] == Le32(address) && hdr.data[4..8] == Le32(Announced(|data|));
    assert hdr.data[8..12] == Le32(cksum) && hdr.data[12..16] == Le32(seqNum);
    Le32RoundTrip(address);
    Le32RoundTrip(Announced(|data|));
    Le32RoundTrip(cksum);
    Le32RoundTrip(seqNum);
    if |data| <= 131076 {
      TwoFoldsAreAll(data, false);
    }
    if |data| <= 0x1_0000 {
      WriteHeaderCountsBlocks(|data|);
    }
  }

  /** A read header in numbers. */
  lemma ReadHeaderInNumbers(address: U32, n: U32, seqNum: U32)
    requires n > 0
    ensures var hdr := ReadHeader(address, n, seqNum);
            && hdr.ControlOut? && hdr.request == 0x12 && |hdr.data| == 16
            && Word(hdr.data, 0) == address && Word(hdr.data, 4) == n && Word(hdr.data, 8) == 0 && Word(hdr.data, 12) == seqNum
            && hdr.value == (if n >= 0x1000 then 0x1000 else Min(n, 0x200))
            && (n <= 0xFFF_F000 ==> n <= hdr.index * hdr.value < n + hdr.value)
  {
    hide Le32, LeValue, BlockCount;
    var hdr := ReadHeader(address, n, seqNum);
    assert hdr.data[0..4] == Le32(address) && hdr.data[4..8] == Le32(n);
    assert hdr.data[8..12] == Le32(0) && hdr.data[12..16] == Le32(seqNum);
    Le32RoundTrip(address);
    Le32RoundTrip(n);
    Le32RoundTrip(0);
    Le32RoundTrip(seqNum);
    ReadHeaderCountsBlocks(n);
  }

  lemma TooManyPages(n: U32, count: U16)
    requires n > 0xFFF_F000
    ensures !FewestBlocks(n, 0x1000, count)
  {
  }

  /** Every bulk reply from number start on moves all it is asked to. */
  ghost predicate NothingShort(script: seq<Reply>, start: nat, count: nat) {
    forall i :: start <= i < start + count ==> ReplyAt(script, i).code == 0 && ReplyAt(script, i).count >= 0x1000
  }

  lemma {:induction false} FullProgress(script: seq<Reply>, start: nat, n: nat, j: nat)
    requires NothingShort(script, start, j)
    ensures Progress(script, start, n, 0x1000, j) == Min(0x1000 * j, n)
  {
    hide Progress;
    if j == 0 {
      ProgressStarts(script, start, n, 0x1000);
    } else {
      var k := j - 1;
      FullProgress(script, start, n, k);
      ProgressStep(script, start, n, 0x1000, k);
      var reply := ReplyAt(script, start + k);
      assert reply.code == 0 && reply.count >= 0x1000;
    }
  }

  lemma {:induction false} BulkWriteIs(script: seq<Reply>, start: nat, data: seq<Byte>, count: nat, j: nat)
    requires j < count
    ensures BulkWrites(script, start, data, count)[j] == BulkWriteAt(data, Progress(script, start, |data|, 0x1000, j))
  {
    hide Progress;
    if j < count - 1 {
      BulkWriteIs(script, start, data, count - 1, j);
    }
  }

  /** With nothing short, a completed write of at most 0x10000 bytes makes exactly the announced
      number of bulk transfers, each of the announced length but possibly the last. */
  lemma AnnouncedBlocksAreSent(script: seq<Reply>, i: nat, hdr: Request, data: seq<Byte>, c: Call)
    requires 0 < |data| <= 0x1_0000 && CallRan(script, i, hdr, |data|, 0x1000, c)
    requires CallSize(script, i, |data|, 0x1000, c) == |data| && NothingShort(script, i + c.headers, c.bulks)
    ensures var v := BlockLength(Min(|data|, 0x1000) % 0x1_0000);
            var bulks := WriteTransfers(script, i, hdr, data, c)[c.headers..];
            && |bulks| == BlockCount(Announced(|data|), v)
            && forall j {:trigger bulks[j]} :: 0 <= j < |bulks| ==>
                 bulks[j].Size() == if j < |bulks| - 1 then v else |data| - v * (|bulks| - 1)
  {
    hide HeadersTried, Repeat, BulkWrites, Progress, ResultOf, Retries, BlockCount, FewestBlocks;
    var n, start := |data|, i + c.headers;
    var bulks := WriteTransfers(script, i, hdr, data, c)[c.headers..];
    assert bulks == BulkWrites(script, start, data, c.bulks);
    WriteHeaderCountsBlocks(n);
    forall j | 0 <= j <= c.bulks
      ensures Progress(script, start, n, 0x1000, j) == Min(0x1000 * j, n)
    {
      FullProgress(script, start, n, j);
    }
    assert c.bulks > 0;
    assert GoesOn(script, start, n, 0x1000, c.bulks - 1);
    forall j | 0 <= j < c.bulks
      ensures bulks[j] == BulkWriteAt(data, Min(0x1000 * j, n))
    {
      BulkWriteIs(script, start, data, c.bulks, j);
    }
    if n < 0x1000 {
      CountOne(n);
    } else {
      CountPages(n);
    }
  }
}
