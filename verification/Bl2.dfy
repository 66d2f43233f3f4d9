/** The BL2 boot download: a device-driven loop of START, command block, acknowledgement and
    image download, with an incrementally accumulated checksum at the end of each image. */
module Bl2 {
  import opened Bytes
  import opened Checksum
  import opened Link
  import opened Chunks

  // ---- the transfers of the protocol ----

  const START := ControlOut(AM_REQ_START, 0x0200, 0, [])
  const CBW_IN := BulkIn(0x200)
  const CSW_IN := BulkIn(16)
  const OKAY := Ascii("OKAY")
  const FAIL := Ascii("FAIL")
  const AMLS := Ascii("AMLS")

  function Cmd4(value: U16, index: U16): Request {
    ControlOut(AM_REQ_CMD4, value, index, [])
  }

  function CswOut(okay: bool): Request {
    BulkOut((if okay then OKAY else FAIL) + Zeros(12))
  }

  /** The reply lets the protocol go on: control transfers must not fail, data must go out and
      the command block come in whole, and a status must be a whole "OKAY". */
  predicate Acceptable(req: Request, reply: Reply) {
    match req
    case BulkOut(data) => Result(req, reply) == |data|
    case BulkIn(size) => Result(req, reply) == size && (req == CSW_IN ==> OKAY <= Arrived(req, reply))
    case _ => Result(req, reply) >= 0
  }

  /** In numbers: a time-out is as good as a success if all bytes got through. */
  lemma AcceptableIs(req: Request, reply: Reply)
    requires req.ControlOut? || ((req.BulkOut? || req.BulkIn?) && req.Size() > 0)
    ensures Acceptable(req, reply) <==>
      match req
      case ControlOut(_, _, _, _) => reply.code >= 0
      case BulkOut(data) => reply.code in {0, -7} && reply.count >= |data|
      case _ => reply.code in {0, -7} && reply.count >= req.Size() && (req == BulkIn(16) ==> [0x4F, 0x4B, 0x41, 0x59] <= reply.data)
  {
    if req == CSW_IN && reply.count >= 16 {
      var word: seq<Byte> := [0x4F, 0x4B, 0x41, 0x59];
      assert OKAY == word;
      StartsWith(reply.data, 16, word);
    }
  }

  /** Of a stretch of a run whose first request is number first, those from number i up to number
      j had acceptable replies. */
  ghost predicate AllAcceptable(script: seq<Reply>, first: nat, requests: seq<Request>, i: nat, j: int) {
    forall k {:trigger requests[k]} :: i <= k < j && k < |requests| ==> Acceptable(requests[k], ReplyAt(script, first + k))
  }

  /** Nothing sent, nothing refused. */
  lemma NoneRefused(script: seq<Reply>, requests: seq<Request>)
    ensures AllAcceptable(script, 0, requests, |requests|, |requests|)
  {
  }

  /** A run that goes on from one without a refusal. */
  lemma AcceptableGoesOn(script: seq<Reply>, requests: seq<Request>, more: seq<Request>, i: nat, j: int)
    requires AllAcceptable(script, 0, requests, i, |requests|)
    requires AllAcceptable(script, 0, requests + more, |requests|, j)
    ensures AllAcceptable(script, 0, requests + more, i, j)
  {
    forall k {:trigger (requests + more)[k]} | i <= k < j && k < |requests + more|
      ensures Acceptable((requests + more)[k], ReplyAt(script, k))
    {
      if k < |requests| {
        assert (requests + more)[k] == requests[k];
      }
    }
  }

  // ---- the plan of one download ----

  /** The parameters of a download, as the command block gives them: the image's place in the
      file, how many bytes, the sequence number to echo, and whether to accumulate the checksum. */
  datatype Download = Download(offset: I32, dataSize: I32, seqNum: U32, doCksum: bool)
  {
    /** A negative size downloads nothing. */
    function Size(): nat {
      if dataSize < 0 then 0 else dataSize
    }
  }

  /** The exchange for chunk k: its place in 512-byte units and its length less one, the data,
      the device's status. */
  function ChunkExchange(image: seq<Byte>, k: nat): (reqs: seq<Request>)
    requires k < ChunkCount(|image|)
    ensures |reqs| == 3
  {
    [Cmd4(CHUNK * k / 0x200 % 0x1_0000, (ChunkSize(|image|, k) - 1) % 0x1_0000), BulkOut(ChunkOf(image, k)), CSW_IN]
  }

  function ChunkExchanges(image: seq<Byte>, n: nat): (reqs: seq<Request>)
    requires n <= ChunkCount(|image|)
    ensures |reqs| == 3 * n
  {
    if n == 0 then [] else ChunkExchanges(image, n - 1) + ChunkExchange(image, n - 1)
  }

  /** The transfer buffer after n chunks were read into its front. */
  function BufferAfter(buf: seq<Byte>, image: seq<Byte>, n: nat): (after: seq<Byte>)
    requires n <= ChunkCount(|image|) && |buf| >= CHUNK
    ensures |after| == |buf|
  {
    if n == 0 then buf
    else ChunkOf(image, n - 1) + BufferAfter(buf, image, n - 1)[|ChunkOf(image, n - 1)|..]
  }

  /** The checksum the host reports: that of the whole image, or 0 if it was not asked for. */
  function Reported(image: seq<Byte>, doCksum: bool): U32 {
    if doCksum then WordSum(image, 4) % WORD else 0
  }

  /** The 512-byte closing packet; behind its 16 bytes of content the buffer shows through. */
  function AmlsPacket(seqNum: U32, cksum: U32, buf: seq<Byte>): (packet: seq<Byte>)
    requires |buf| >= 0x200
    ensures |packet| == 0x200
  {
    AMLS + Le32(seqNum) + Le32(cksum) + Le32(0) + buf[16..0x200]
  }

  /** The closing exchange: the image's place in 512-byte units, the packet, a status. */
  function ClosingWith(param: Download, cksum: U32, buf: seq<Byte>): (reqs: seq<Request>)
    requires |buf| >= CHUNK
    ensures |reqs| == 3
  {
    [Cmd4(param.offset / 0x200 % 0x1_0000, 0x1FF), BulkOut(AmlsPacket(param.seqNum, cksum, buf)), CSW_IN]
  }

  /** Reference: everything a completed download sends, as a function of the parameters, the
      image and the buffer's earlier contents alone. */
  function DownloadPlan(param: Download, image: seq<Byte>, buf: seq<Byte>): (reqs: seq<Request>)
    requires |buf| >= CHUNK
    ensures |reqs| == 3 * ChunkCount(|image|) + 3
  {
    ChunkExchanges(image, ChunkCount(|image|))
    + ClosingWith(param, Reported(image, param.doCksum), BufferAfter(buf, image, ChunkCount(|image|)))
  }

  /** The transfer buffer after a completed download. */
  function BufferEnd(param: Download, image: seq<Byte>, buf: seq<Byte>): (after: seq<Byte>)
    requires |buf| >= CHUNK
    ensures |after| == |buf|
  {
    var packed := BufferAfter(buf, image, ChunkCount(|image|));
    AmlsPacket(param.seqNum, Reported(image, param.doCksum), packed) + packed[0x200..]
  }

  /** All the bytes the given transfers send in bulk, in order. */
  function DataOf(reqs: seq<Request>): seq<Byte> {
    if reqs == [] then []
    else
      var n := |reqs| - 1;
      DataOf(reqs[..n]) + if reqs[n].BulkOut? then reqs[n].data else []
  }

  lemma {:induction false} DataOfSplits(a: seq<Request>, b: seq<Request>)
    ensures DataOf(a + b) == DataOf(a) + DataOf(b)
    decreases |b|
  {
    if b == [] {
      assert a + b == a;
    } else {
      var n := |b| - 1;
      assert (a + b)[..|a| + n] == a + b[..n];
      DataOfSplits(a, b[..n]);
    }
  }

  /** An exchange sends one packet. */
  lemma DataOfExchange(cmd4: Request, packet: seq<Byte>)
    requires cmd4.ControlOut?
    ensures DataOf([cmd4, BulkOut(packet), CSW_IN]) == packet
  {
    var reqs := [cmd4, BulkOut(packet), CSW_IN];
    assert reqs[..2] == [cmd4, BulkOut(packet)] && reqs[..2][..1] == [cmd4] && [cmd4][..0] == [];
    assert DataOf(reqs) == DataOf(reqs[..2]) + [];
    assert DataOf(reqs[..2]) == DataOf([cmd4]) + packet;
  }

  /** The chunks tile the image. */
  lemma {:induction false} ChunksTile(image: seq<Byte>, n: nat)
    requires n <= ChunkCount(|image|)
    ensures DataOf(ChunkExchanges(image, n)) == image[..UpTo(|image|, n)]
  {
    hide DataOf, ChunkCount, ChunkOf, UpTo;
    ChunkStep(|image|, 0);
    if n == 0 {
      assert DataOf([]) == [] by { DataOfNothing(); }
    } else {
      ChunksTile(image, n - 1);
      ChunkStep(|image|, n - 1);
      ImageGrows(image, n - 1);
      DataOfSplits(ChunkExchanges(image, n - 1), ChunkExchange(image, n - 1));
      DataOfExchange(ChunkExchange(image, n - 1)[0], ChunkOf(image, n - 1));
    }
  }

  lemma ImageGrows(image: seq<Byte>, k: nat)
    requires k < ChunkCount(|image|)
    ensures image[..UpTo(|image|, k)] + ChunkOf(image, k) == image[..UpTo(|image|, k + 1)]
  {
    hide ChunkCount;
    ChunkStep(|image|, k);
  }

  lemma DataOfNothing()
    ensures DataOf([]) == []
  {
  }

  /** A completed plan sends exactly the image, and then the closing packet. */
  lemma PlanSendsImage(param: Download, image: seq<Byte>, buf: seq<Byte>)
    requires |buf| >= CHUNK
    ensures DataOf(DownloadPlan(param, image, buf)) ==
      image + AmlsPacket(param.seqNum, Reported(image, param.doCksum), BufferAfter(buf, image, ChunkCount(|image|)))
  {
    hide DataOf, ChunkExchanges, AmlsPacket, BufferAfter, Reported;
    var n := ChunkCount(|image|);
    var cksum := Reported(image, param.doCksum);
    var closing := ClosingWith(param, cksum, BufferAfter(buf, image, n));
    DataOfSplits(ChunkExchanges(image, n), closing);
    ChunksTile(image, n);
    DataOfExchange(closing[0], AmlsPacket(param.seqNum, cksum, BufferAfter(buf, image, n)));
    assert image[..UpTo(|image|, n)] == image;
  }

  /** The CMD4 before each chunk gives its place in 512-byte units and its length less one in 16
      bits each; that loses nothing exactly up to 32 MiB. */
  lemma PlacesFit(image: seq<Byte>)
    ensures (forall k: nat {:trigger ChunkExchange(image, k)} :: k < ChunkCount(|image|) ==>
               var cmd4 := ChunkExchange(image, k)[0];
               cmd4.value * 0x200 == CHUNK * k && cmd4.index + 1 == |ChunkOf(image, k)|)
            <==> |image| <= 0x200_0000
  {
    hide ChunkCount, ChunkOf, ChunkSize;
    ChunkStep(|image|, 0x200);
    forall k: nat {:trigger ChunkExchange(image, k)} | k < ChunkCount(|image|)
      ensures var cmd4 := ChunkExchange(image, k)[0];
              (cmd4.value * 0x200 == CHUNK * k <==> k < 0x200) && cmd4.index + 1 == |ChunkOf(image, k)|
    {
      ChunkStep(|image|, k);
      PlaceFits(k);
    }
    if |image| > 0x200_0000 {
      assert ChunkExchange(image, 0x200)[0].value * 0x200 != CHUNK * 0x200;
    } else {
      FewChunks(|image|);
    }
  }

  lemma PlaceFits(k: nat)
    ensures CHUNK * k / 0x200 % 0x1_0000 * 0x200 == CHUNK * k <==> k < 0x200
  {
    assert CHUNK * k / 0x200 == 0x80 * k;
    if k < 0x200 {
      assert 0x80 * k % 0x1_0000 == 0x80 * k;
    }
  }

  lemma FewChunks(size: nat)
    requires size <= 0x200_0000
    ensures ChunkCount(size) <= 0x200
  {
  }

  /** In numbers: transfers 3k to 3k + 2 of a plan are for the 64 KiB of the image from 0x10000 k on,
      or for what is left of it. */
  lemma PlanChunks(param: Download, image: seq<Byte>, buf: seq<Byte>, k: nat)
    requires |buf| >= CHUNK && 0x1_0000 * k < |image|
    ensures var plan, size := DownloadPlan(param, image, buf), Min(|image| - 0x1_0000 * k, 0x1_0000);
            && 3 * k + 6 <= |plan|
            && plan[3 * k] == ControlOut(0x60, 0x80 * k % 0x1_0000, size - 1, [])
            && plan[3 * k + 1] == BulkOut(image[0x1_0000 * k..0x1_0000 * k + size])
            && plan[3 * k + 2] == BulkIn(16)
  {
    hide ChunkExchanges, BufferAfter, ClosingWith, Reported, ChunkCount;
    ChunkStep(|image|, k);
    var n := ChunkCount(|image|);
    var plan, exchanges := DownloadPlan(param, image, buf), ChunkExchanges(image, n);
    ImagePrefix(image, n, k, 3);
    assert exchanges[..3 * k + 3] == ChunkExchanges(image, k) + ChunkExchange(image, k);
    forall r | 0 <= r < 3
      ensures plan[3 * k + r] == ChunkExchange(image, k)[r]
    {
      assert plan[3 * k + r] == exchanges[3 * k + r] == exchanges[..3 * k + 3][3 * k + r];
    }
    assert CHUNK * k / 0x200 == 0x80 * k;
  }

  /** In numbers: the last three transfers of a plan. */
  lemma PlanCloses(param: Download, image: seq<Byte>, buf: seq<Byte>)
    requires |buf| >= CHUNK
    ensures var plan := DownloadPlan(param, image, buf);
            && plan[|plan| - 3] == ControlOut(0x60, param.offset / 0x200 % 0x1_0000, 0x1FF, [])
            && plan[|plan| - 2].BulkOut? && |plan[|plan| - 2].data| == 0x200
            && plan[|plan| - 1] == BulkIn(16)
    ensures var plan := DownloadPlan(param, image, buf);
            var packet := plan[|plan| - 2].data;
            && packet[..4] == [0x41, 0x4D, 0x4C, 0x53] && Word(packet, 4) == param.seqNum
            && Word(packet, 8) == (if param.doCksum then WordSum(image, 4) % WORD else 0) && Word(packet, 12) == 0
  {
    hide ChunkExchanges, BufferAfter, ChunkCount, WordSum, Word, AmlsPacket;
    var plan, n := DownloadPlan(param, image, buf), 3 * ChunkCount(|image|);
    var cksum, packed := Reported(image, param.doCksum), BufferAfter(buf, image, ChunkCount(|image|));
    PacketWords(param.seqNum, cksum, packed);
    var closing := ClosingWith(param, cksum, packed);
    assert plan[n] == closing[0] && plan[n + 1] == closing[1] && plan[n + 2] == closing[2];
  }

  lemma PacketWords(seqNum: U32, cksum: U32, buf: seq<Byte>)
    requires |buf| >= 0x200
    ensures var packet := AmlsPacket(seqNum, cksum, buf);
            && packet[..4] == [0x41, 0x4D, 0x4C, 0x53] && packet[16..] == buf[16..0x200]
            && Word(packet, 4) == seqNum && Word(packet, 8) == cksum && Word(packet, 12) == 0
  {
    hide Le32, LeValue;
    var packet := AmlsPacket(seqNum, cksum, buf);
    assert packet[..4] == AMLS == [0x41, 0x4D, 0x4C, 0x53];
    assert packet[4..8] == Le32(seqNum) && packet[8..12] == Le32(cksum) && packet[12..16] == Le32(0);
    Le32RoundTrip(seqNum);
    Le32RoundTrip(cksum);
    Le32RoundTrip(0);
  }

  /** The exchanges of n chunks start with k whole ones and j transfers of the next. */
  lemma {:induction false} ImagePrefix(image: seq<Byte>, n: nat, k: nat, j: nat)
    requires k <= n <= ChunkCount(|image|) && j <= 3 && (k == n ==> j == 0)
    ensures ChunkExchanges(image, n)[..3 * k + j]
         == if j == 0 then ChunkExchanges(image, k) else ChunkExchanges(image, k) + ChunkExchange(image, k)[..j]
    decreases n
  {
    hide ChunkExchange, ChunkCount;
    if k + 1 < n || (k < n && j == 0) {
      ImagePrefix(image, n - 1, k, j);
      assert ChunkExchanges(image, n)[..3 * k + j] == ChunkExchanges(image, n - 1)[..3 * k + j];
    }
  }

  /** The plan is the exchanges of the image, then the closing exchange. */
  lemma PlanPrefix(param: Download, image: seq<Byte>, buf: seq<Byte>, m: nat)
    requires |buf| >= CHUNK && m <= 3 * ChunkCount(|image|) + 3
    ensures var exchanges := ChunkExchanges(image, ChunkCount(|image|));
            var closing := ClosingWith(param, Reported(image, param.doCksum), BufferAfter(buf, image, ChunkCount(|image|)));
            DownloadPlan(param, image, buf)[..m] ==
              if m <= |exchanges| then exchanges[..m] else exchanges + closing[..m - |exchanges|]
  {
    hide ChunkExchanges, ClosingWith, BufferAfter, ChunkCount;
  }

  lemma ImageStart(image: seq<Byte>, buf: seq<Byte>)
    requires |buf| >= CHUNK
    ensures ChunkExchanges(image, 0) == [] && BufferAfter(buf, image, 0) == buf && WordSum(image[..0], 4) == 0
  {
  }

  // ---- the host ----

  /** One transfer of this protocol. */
  method Exchange(dev: Device, req: Request) returns (r: int, data: seq<Byte>)
    requires Quiet(dev) && Plain(req)
    modifies dev
    ensures Quiet(dev) && dev.requests == old(dev.requests) + [req]
    ensures r == Result(req, ReplyAt(dev.script, |old(dev.requests)|))
    ensures req.BulkIn? || req.ControlIn? ==> data == Arrived(req, ReplyAt(dev.script, |old(dev.requests)|))
    ensures req.ControlOut? || req.BulkOut? ==>
      (Acceptable(req, ReplyAt(dev.script, |old(dev.requests)|)) <==> if req.ControlOut? then r >= 0 else r == req.Size())
  {
    r, data := Talk(dev, req);
  }

  lemma CswBytes()
    ensures OKAY == [0x4F, 0x4B, 0x41, 0x59] && FAIL == [0x46, 0x41, 0x49, 0x4C]
    ensures Zeros(12) == [0, 0, 0, 0, 0, 0, 0, 0, 0, 0, 0, 0]
  {
  }

  /** _Aml_Libusb_bl2_csw, over its static 16-byte buffer. */
  method Csw(dev: Device, csw: array<Byte>, doSend: bool, doOkay: bool) returns (ret: int)
    requires Quiet(dev) && csw.Length == 16
    modifies dev, csw
    ensures Quiet(dev)
    ensures var req, reply := if doSend then CswOut(doOkay) else CSW_IN, ReplyAt(dev.script, |old(dev.requests)|);
            && dev.requests == old(dev.requests) + [req]
            && (ret == 0 <==> Acceptable(req, reply))
            && ret == if reply.code !in {0, -7} || reply.count < 16 then -815
                      else if doSend || [0x4F, 0x4B, 0x41, 0x59] <= reply.data then 0 else -821
    ensures doSend ==>
      dev.requests == old(dev.requests)
        + [BulkOut((if doOkay then [0x4F, 0x4B, 0x41, 0x59] else [0x46, 0x41, 0x49, 0x4C]) + [0, 0, 0, 0, 0, 0, 0, 0, 0, 0, 0, 0])]
  {
    AcceptableIs(if doSend then CswOut(doOkay) else CSW_IN, ReplyAt(dev.script, |dev.requests|));
    CswBytes();
    CopyIn(csw, Zeros(16));
    assert csw[..] == Zeros(16) + [];
    if doSend {
      CopyIn(csw, if doOkay then OKAY else FAIL);
      assert csw[..] == (if doOkay then OKAY else FAIL) + Zeros(12);
    }
    var r;
    if doSend {
      var sent, _ := Exchange(dev, BulkOut(csw[..]));
      r := sent;
    } else {
      var got, data := Exchange(dev, CSW_IN);
      r := got;
      CopyIn(csw, data);
      assert |data| == 16 ==> csw[..] == data;
    }
    if r != 16 {
      return -815;
    }
    if doSend {
      return 0;
    }
    if !(OKAY <= csw[..]) {
      return -821;
    }
    return 0;
  }

  /** The file and the two buffers of a download: the transfer buffer and the static status. */
  class Session {
    const file: seq<Byte>
    const buf: array<Byte>
    const csw: array<Byte>
    var pos: nat

    /** The buffers start with whatever was in memory. */
    constructor (file: seq<Byte>, size: nat)
      requires size >= CHUNK
      ensures Valid() && fresh(buf) && fresh(csw) && this.file == file && buf.Length == size && pos == 0
    {
      this.file, pos := file, 0;
      buf, csw := new Byte[size], new Byte[16];
    }

    ghost predicate Valid() {
      buf.Length >= CHUNK && csw.Length == 16 && buf != csw
    }

    /** fseek from the start of the file: past the end is fine, a negative offset is refused. */
    method Seek(offset: int)
      modifies this
      ensures pos == SeekTo(old(pos), offset)
    {
      pos := SeekTo(pos, offset);
    }

    /** fread of one block of n bytes into the transfer buffer; false if the file ends before. */
    method Fread(n: nat) returns (whole: bool)
      requires Valid() && n <= buf.Length
      modifies this, buf
      ensures whole <==> n == 0 || old(pos) + n <= |file|
      ensures whole ==> pos == old(pos) + n
      ensures whole && n > 0 ==> buf[..] == file[old(pos)..pos] + old(buf[n..])
    {
      var k := ReadBlock(file, pos, buf, n);
      pos := pos + k;
      whole := k == n;
    }
  }

  function SeekTo(pos: nat, offset: int): nat {
    if offset >= 0 then offset else pos
  }

  /** The last reply so far was acceptable. */
  ghost predicate LastAccepted(dev: Device)
    requires |dev.requests| > 0
    reads dev
  {
    Acceptable(dev.requests[|dev.requests| - 1], ReplyAt(dev.script, |dev.requests| - 1))
  }

  /** The error code for a chunk exchange that stopped after m transfers. */
  function ChunkVerdict(m: nat, accepted: bool): int {
    match m
    case 1 => if accepted then -1011 else -1005
    case 2 => -1017
    case _ => if accepted then 0 else -1025
  }

  /** The body of the download loop: chunk k of the image, up to the first thing that goes
      wrong. */
  method SendChunk(dev: Device, s: Session, dataOffset: U32, bulkSize: nat, ghost image: seq<Byte>, ghost base: nat, ghost k: nat)
    returns (ret: int, ghost m: nat)
    requires Quiet(dev) && s.Valid()
    requires k < ChunkCount(|image|) && image == Image(s.file, base, |image|)
    requires dataOffset == CHUNK * k && bulkSize == ChunkSize(|image|, k) && s.pos == base + CHUNK * k
    modifies dev, s, s.buf, s.csw
    ensures Quiet(dev)
    ensures 1 <= m <= 3 && dev.requests == old(dev.requests) + ChunkExchange(image, k)[..m]
    ensures AllAcceptable(dev.script, 0, dev.requests, |old(dev.requests)|, if ret == 0 then |dev.requests| else |dev.requests| - 1)
    ensures ret == ChunkVerdict(m, LastAccepted(dev))
    ensures ret == 0 <==> m == 3 && LastAccepted(dev)
    ensures ret in {0, -1011} || !LastAccepted(dev)
    ensures m > 1 ==> base + CHUNK * k + bulkSize <= |s.file|
    ensures ret == -1011 ==> m == 1 && base + CHUNK * k + bulkSize > |s.file|
    ensures ret == 0 ==> s.pos == base + CHUNK * k + bulkSize && s.buf[..] == ChunkOf(image, k) + old(s.buf[..])[bulkSize..]
  {
    hide Image, ChunkOf, Acceptable, Result, ReplyAt;
    var r, _ := Exchange(dev, Cmd4(dataOffset / 0x200 % 0x1_0000, bulkSize - 1));
    m := 1;
    if r < 0 {
      return -1005, m;
    }
    var whole := s.Fread(bulkSize);
    if !whole {
      return -1011, m;
    }
    ChunkInFile(s.file, base, |image|, k);
    assert s.buf[..bulkSize] == ChunkOf(image, k);
    var sent, _ := Exchange(dev, BulkOut(s.buf[..bulkSize]));
    m := 2;
    if sent != bulkSize {
      return -1017, m;
    }
    ghost var packed := s.buf[..];
    r := Csw(dev, s.csw, false, false);
    m := 3;
    ret := if r != 0 then -1025 else 0;
  }

  /** The error code for a download of the given number of chunks that stopped after m
      transfers. */
  function Verdict(chunks: nat, m: nat, accepted: bool): int {
    if m == 3 * chunks + 3 then 0
    else if m == 3 * chunks + 2 then -1047
    else if m == 3 * chunks + 1 then -1036
    else ChunkVerdict((m + 2) % 3 + 1, accepted)
  }

  /** In numbers: which code follows from the m transfers of a download of size bytes, the last of
      which was or was not accepted. */
  lemma VerdictIs(size: nat, m: nat, accepted: bool)
    requires 1 <= m <= 3 * ChunkCount(size) + 3
    ensures var ret := Verdict(ChunkCount(size), m, accepted);
            if 0x1_0000 * ((m - 1) / 3) < size then
              match m % 3
              case 1 => ret == if accepted then -1011 else -1005
              case 2 => ret == -1017
              case _ => ret == if accepted then 0 else -1025
            else
              match m % 3
              case 1 => ret == -1036
              case 2 => ret == -1047
              case _ => ret == 0
  {
    hide ChunkCount;
    var k := (m - 1) / 3;
    ChunkStep(size, k);
  }

  /** One more chunk in the buffer, in the checksum, and in the log. */
  lemma ChunkDone(image: seq<Byte>, buf: seq<Byte>, k: nat)
    requires k < ChunkCount(|image|) && |buf| >= CHUNK
    ensures WordSum(image[..UpTo(|image|, k + 1)], 4) == WordSum(image[..UpTo(|image|, k)], 4) + WordSum(ChunkOf(image, k), 4)
    ensures BufferAfter(buf, image, k + 1) == ChunkOf(image, k) + BufferAfter(buf, image, k)[|ChunkOf(image, k)|..]
    ensures ChunkExchanges(image, k + 1) == ChunkExchanges(image, k) + ChunkExchange(image, k)
  {
    var done := image[..UpTo(|image|, k)];
    assert image[..UpTo(|image|, k + 1)] == done + ChunkOf(image, k);
    WordSumSplits(done, ChunkOf(image, k), 4, CHUNK / 4 * k);
  }

  /** SET_U32(&buf[at], w). */
  method SetU32(buf: array<Byte>, at: nat, w: U32)
    requires at + 4 <= buf.Length
    modifies buf
    ensures buf[..] == old(buf[..])[..at] + Le32(w) + old(buf[..])[at + 4..]
  {
    ghost var was := buf[..];
    Deposit(buf, at, Le32(w));
    assert buf[..] == buf[..at + 4] + buf[at + 4..];
    assert was[..at] == old(buf[..at]) && was[at + 4..] == old(buf[at + 4..]);
  }

  /** cksum += checksum_64K(buf, bulkSize). */
  method AddChunk(buf: array<Byte>, bulkSize: nat, cksum: U32, ghost image: seq<Byte>, ghost k: nat) returns (after: U32)
    requires buf.Length >= CHUNK && k < ChunkCount(|image|)
    requires bulkSize == ChunkSize(|image|, k) && ChunkOf(image, k) <= buf[..]
    requires cksum == WordSum(image[..UpTo(|image|, k)], 4) % WORD
    ensures after == WordSum(image[..UpTo(|image|, k + 1)], 4) % WORD
  {
    hide ChunkOf, WordSum;
    var sum := Checksum64K(buf[..bulkSize], bulkSize);
    assert buf[..bulkSize] == ChunkOf(image, k) == buf[..bulkSize][..bulkSize];
    ChunkDone(image, buf[..], k);
    WrapAdd(WordSum(image[..UpTo(|image|, k)], 4), WordSum(ChunkOf(image, k), 4));
    WrapAdd(WordSum(ChunkOf(image, k), 4), cksum);
    after := (cksum + sum) % WORD;
  }

  lemma VerdictAtEnd(size: nat, j: nat, accepted: bool)
    requires 1 <= j <= 3
    ensures var m := 3 * ChunkCount(size) + j;
            && Verdict(ChunkCount(size), m, accepted) == (match j case 1 => -1036 case 2 => -1047 case _ => 0)
            && UpTo(size, (m + 1) / 3) == size
  {
  }

  /** The download so far: k whole chunks are out, none of their transfers was refused. */
  ghost predicate Sending(dev: Device, s: Session, before: seq<Request>, base: nat, buf0: seq<Byte>, image: seq<Byte>, k: nat)
    requires |buf0| >= CHUNK && k <= ChunkCount(|image|)
    reads dev, s, s.buf
  {
    && Quiet(dev) && s.Valid()
    && image == Image(s.file, base, |image|)
    && s.pos == base + UpTo(|image|, k) && (k == 0 || s.pos <= |s.file|)
    && s.buf[..] == BufferAfter(buf0, image, k)
    && dev.requests == before + ChunkExchanges(image, k)
    && AllAcceptable(dev.script, 0, dev.requests, |before|, |dev.requests|)
  }

  /** The download stopped with error ret after m transfers of the image's exchanges: the last
      one was refused, or the file has no whole chunk to send next. No byte was sent that is not
      in the file. */
  ghost predicate Stopped(dev: Device, file: seq<Byte>, before: seq<Request>, base: nat, image: seq<Byte>, m: nat, ret: int)
    reads dev
  {
    && Quiet(dev)
    && 0 < m <= 3 * ChunkCount(|image|)
    && dev.requests == before + ChunkExchanges(image, ChunkCount(|image|))[..m]
    && AllAcceptable(dev.script, 0, dev.requests, |before|, |dev.requests| - 1)
    && ret != 0 && ret == Verdict(ChunkCount(|image|), m, LastAccepted(dev))
    && (ret == -1011 || !LastAccepted(dev))
    && (m > 1 ==> base + UpTo(|image|, (m + 1) / 3) <= |file|)
    && (ret == -1011 ==> base + UpTo(|image|, (m + 2) / 3) > |file|)
  }

  /** One pass through the download loop. */
  method DownloadStep(dev: Device, s: Session, param: Download, dataOffset: U32, bulkSize: nat, cksum: U32,
                      ghost before: seq<Request>, ghost base: nat, ghost buf0: seq<Byte>, ghost image: seq<Byte>, ghost k: nat)
    returns (ret: int, after: U32, ghost m: nat)
    requires |buf0| >= CHUNK && k < ChunkCount(|image|) && Sending(dev, s, before, base, buf0, image, k)
    requires dataOffset == CHUNK * k && bulkSize == ChunkSize(|image|, k)
    requires param.doCksum ==> cksum == WordSum(image[..UpTo(|image|, k)], 4) % WORD
    modifies dev, s, s.buf, s.csw
    ensures ret == 0 ==> Sending(dev, s, before, base, buf0, image, k + 1)
    ensures ret != 0 ==> Stopped(dev, s.file, before, base, image, m, ret)
    ensures after == if ret == 0 && param.doCksum then WordSum(image[..UpTo(|image|, k + 1)], 4) % WORD else cksum
  {
    hide Acceptable, AllAcceptable, ChunkExchange, ChunkExchanges, Image, BufferAfter, ChunkOf, WordSum, ReplyAt, ChunkVerdict, ChunkCount, UpTo;
    ChunkStep(|image|, k);
    after := cksum;
    ghost var j;
    ret, j := SendChunk(dev, s, dataOffset, bulkSize, image, base, k);
    m := 3 * k + j;
    AcceptableGoesOn(dev.script, before + ChunkExchanges(image, k), ChunkExchange(image, k)[..j], |before|,
                     if ret == 0 then |dev.requests| else |dev.requests| - 1);
    ImagePrefix(image, ChunkCount(|image|), k, j);
    ChunkDone(image, buf0, k);
    if ret == 0 && param.doCksum {
      after := AddChunk(s.buf, bulkSize, cksum, image, k);
    }
  }

  /** The loop of _Aml_Libusb_bl2_secure_download: the whole image, or everything up to the
      first thing that went wrong. */
  method SendImage(dev: Device, s: Session, param: Download) returns (ret: int, cksum: U32, ghost m: nat)
    requires Quiet(dev) && s.Valid()
    modifies dev, s, s.buf, s.csw
    ensures var image := Image(s.file, old(s.pos), param.Size());
            if ret == 0 then
              && Sending(dev, s, old(dev.requests), old(s.pos), old(s.buf[..]), image, ChunkCount(|image|))
              && cksum == Reported(image, param.doCksum)
            else
              Stopped(dev, s.file, old(dev.requests), old(s.pos), image, m, ret)
  {
    hide Acceptable, AllAcceptable, ChunkExchanges, Image, BufferAfter, WordSum, Stopped;
    ghost var size := param.Size();
    ghost var base, buf0, before := s.pos, s.buf[..], dev.requests;
    ghost var image := Image(s.file, base, size);
    var dataOffset: U32, dataSize: U32 := 0, param.dataSize % WORD;
    cksum := 0;
    var i := 0;
    ImageStart(image, buf0);
    NoneRefused(dev.script, before);
    while i < (param.dataSize + CHUNK - 1) / CHUNK
      invariant 0 <= i <= ChunkCount(size) && Sending(dev, s, before, base, buf0, image, i)
      invariant dataOffset == CHUNK * i && (i < ChunkCount(size) ==> dataSize == size - CHUNK * i)
      invariant cksum == if param.doCksum then WordSum(image[..UpTo(size, i)], 4) % WORD else 0
    {
      hide Sending;
      ret, cksum, m := DownloadStep(dev, s, param, dataOffset, Min(dataSize, CHUNK), cksum, before, base, buf0, image, i);
      if ret != 0 {
        return;
      }
      dataOffset := dataOffset + CHUNK;
      dataSize := (dataSize - CHUNK) % WORD;
      i := i + 1;
    }
    assert image[..UpTo(size, i)] == image;
    ret, m := 0, 3 * i;
  }

  /** The closing packet, written over the front of the transfer buffer. */
  method Pack(buf: array<Byte>, seqNum: U32, cksum: U32)
    requires buf.Length >= CHUNK
    modifies buf
    ensures buf[..] == AmlsPacket(seqNum, cksum, old(buf[..])) + old(buf[..])[0x200..]
    ensures buf[..4] == [0x41, 0x4D, 0x4C, 0x53] && Word(buf[..], 4) == seqNum && Word(buf[..], 8) == cksum && Word(buf[..], 12) == 0
    ensures buf[16..] == old(buf[16..])
  {
    hide Le32, Ascii, Word;
    ghost var was := buf[..];
    PackedWords(seqNum, cksum, was);
    CopyIn(buf, AMLS);
    assert buf[..] == AMLS + was[4..];
    PutWord(buf, AMLS, was, seqNum, 4);
    PutWord(buf, AMLS + Le32(seqNum), was, cksum, 8);
    PutWord(buf, AMLS + Le32(seqNum) + Le32(cksum), was, 0, 12);
    TailSplits(AMLS + Le32(seqNum) + Le32(cksum) + Le32(0), was);
  }

  lemma PackedWords(seqNum: U32, cksum: U32, was: seq<Byte>)
    requires |was| >= CHUNK
    ensures var now := AmlsPacket(seqNum, cksum, was) + was[0x200..];
            && now[..4] == [0x41, 0x4D, 0x4C, 0x53] && now[16..] == was[16..]
            && Word(now, 4) == seqNum && Word(now, 8) == cksum && Word(now, 12) == 0
  {
    hide AmlsPacket, LeValue;
    PacketWords(seqNum, cksum, was);
    var packet := AmlsPacket(seqNum, cksum, was);
    var now := packet + was[0x200..];
    assert now[..4] == packet[..4] && now[4..8] == packet[4..8] && now[8..12] == packet[8..12] && now[12..16] == packet[12..16];
    assert now[16..] == packet[16..] + was[0x200..] == was[16..];
  }

  lemma TailSplits(front: seq<Byte>, was: seq<Byte>)
    requires |was| >= 0x200
    ensures front + was[16..] == front + was[16..0x200] + was[0x200..]
  {
    assert was[16..] == was[16..0x200] + was[0x200..];
  }

  /** SET_U32 right behind what was put over the front of the buffer before. */
  method PutWord(buf: array<Byte>, ghost front: seq<Byte>, ghost was: seq<Byte>, w: U32, at: nat)
    requires at == |front| && at + 4 <= |was| == buf.Length && buf[..] == front + was[at..]
    modifies buf
    ensures buf[..] == front + Le32(w) + was[at + 4..]
  {
    hide Le32;
    LaidOn(front, was, Le32(w));
    SetU32(buf, at, w);
  }

  /** A word laid over a buffer right behind what was laid over its front before. */
  lemma LaidOn(front: seq<Byte>, was: seq<Byte>, w: seq<Byte>)
    requires |front| + |w| <= |was|
    ensures var buf := front + was[|front|..];
            buf[..|front|] + w + buf[|front| + |w|..] == front + w + was[|front| + |w|..]
  {
    var buf := front + was[|front|..];
    assert buf[..|front|] == front && buf[|front| + |w|..] == was[|front| + |w|..];
  }

  /** The end of a download, common to both senders but for the error codes: the place of the
      image, the closing packet, and a status that is only reported. */
  method Close(dev: Device, s: Session, param: Download, cksum: U32) returns (ret: int, ghost m: nat)
    requires Quiet(dev) && s.Valid()
    modifies dev, s.buf, s.csw
    ensures Quiet(dev)
    ensures 1 <= m <= 3 && dev.requests == old(dev.requests) + ClosingWith(param, cksum, old(s.buf[..]))[..m]
    ensures AllAcceptable(dev.script, 0, dev.requests, |old(dev.requests)|, |dev.requests| - 1)
    ensures ret == (match m case 1 => -1036 case 2 => -1047 case _ => 0)
    ensures m == 3 || !LastAccepted(dev)
    ensures m == 3 ==> s.buf[..] == AmlsPacket(param.seqNum, cksum, old(s.buf[..])) + old(s.buf[..])[0x200..]
  {
    hide Acceptable, Result, ReplyAt, AmlsPacket;
    var r, _ := Exchange(dev, Cmd4(param.offset / 0x200 % 0x1_0000, 0x1FF));
    m := 1;
    if r < 0 {
      return -1036, m;
    }
    ghost var packed := s.buf[..];
    Pack(s.buf, param.seqNum, cksum);
    assert s.buf[..0x200] == AmlsPacket(param.seqNum, cksum, packed);
    var sent, _ := Exchange(dev, BulkOut(s.buf[..0x200]));
    m := 2;
    if sent != 0x200 {
      return -1047, m;
    }
    var _ := Csw(dev, s.csw, false, false);
    ret, m := 0, 3;
  }

  /** The whole image is out: the plan is completed by its closing exchange. */
  method Finish(dev: Device, s: Session, param: Download, cksum: U32,
                ghost before: seq<Request>, ghost base: nat, ghost buf0: seq<Byte>, ghost image: seq<Byte>)
    returns (ret: int, ghost m: nat)
    requires |buf0| >= CHUNK && Sending(dev, s, before, base, buf0, image, ChunkCount(|image|))
    requires cksum == Reported(image, param.doCksum)
    modifies dev, s.buf, s.csw
    ensures Quiet(dev) && 3 * ChunkCount(|image|) < m <= |DownloadPlan(param, image, buf0)|
    ensures dev.requests == before + DownloadPlan(param, image, buf0)[..m]
    ensures ret == Verdict(ChunkCount(|image|), m, LastAccepted(dev))
    ensures ret == 0 <==> m == |DownloadPlan(param, image, buf0)|
    ensures ret == 0 ==> s.buf[..] == BufferEnd(param, image, buf0)
    ensures AllAcceptable(dev.script, 0, dev.requests, |before|, |dev.requests| - 1)
    ensures ret == 0 || (ret != -1011 && !LastAccepted(dev))
    ensures |image| > 0 ==> base + UpTo(|image|, (m + 1) / 3) <= |s.file|
  {
    hide Acceptable, AllAcceptable, ChunkExchanges, Image, BufferAfter, WordSum, ClosingWith, DownloadPlan, Verdict, UpTo, ChunkCount, ReplyAt;
    EverythingSent(|image|);
    ghost var exchanges := ChunkExchanges(image, ChunkCount(|image|));
    ghost var j;
    ret, j := Close(dev, s, param, cksum);
    m := 3 * ChunkCount(|image|) + j;
    VerdictAtEnd(|image|, j, LastAccepted(dev));
    PlanPrefix(param, image, buf0, m);
    AcceptableGoesOn(dev.script, before + exchanges, ClosingWith(param, cksum, BufferAfter(buf0, image, ChunkCount(|image|)))[..j],
                     |before|, |dev.requests| - 1);
  }

  /** _Aml_Libusb_bl2_secure_download: what was sent is the first m transfers of the plan, the
      whole plan exactly on success; nothing was sent after a refusal; and every image byte that
      went out is in the file. */
  method SecureDownload(dev: Device, s: Session, param: Download) returns (ret: int, ghost m: nat)
    requires Quiet(dev) && s.Valid()
    modifies dev, s, s.buf, s.csw
    ensures Quiet(dev)
    ensures var image := Image(s.file, old(s.pos), param.Size());
            var plan := DownloadPlan(param, image, old(s.buf[..]));
            && 1 <= m <= |plan| && dev.requests == old(dev.requests) + plan[..m]
            && (ret == 0 <==> m == |plan|)
            && ret == Verdict(ChunkCount(param.Size()), m, LastAccepted(dev))
            && (ret == 0 ==> s.pos == old(s.pos) + param.Size() && s.buf[..] == BufferEnd(param, image, old(s.buf[..])))
    ensures ret == 0 && param.Size() > 0 ==>
      && old(s.pos) <= s.pos <= |s.file|
      && var image := s.file[old(s.pos)..s.pos];
         var packed := BufferAfter(old(s.buf[..]), image, ChunkCount(|image|));
         DataOf(dev.requests[|old(dev.requests)|..]) == image + AmlsPacket(param.seqNum, Reported(image, param.doCksum), packed)
    ensures ret == 0 ==>
      var n := |dev.requests|;
      && dev.requests[n - 3] == ControlOut(0x60, param.offset / 0x200 % 0x1_0000, 0x1FF, [])
      && dev.requests[n - 2].BulkOut? && |dev.requests[n - 2].data| == 0x200
      && dev.requests[n - 1] == BulkIn(16)
    ensures ret == 0 ==>
      var packet := dev.requests[|dev.requests| - 2].data;
      var sum := if param.dataSize > 0 then WordSum(s.file[old(s.pos)..s.pos], 4) % WORD else 0;
      && packet[..4] == [0x41, 0x4D, 0x4C, 0x53] && Word(packet, 4) == param.seqNum
      && Word(packet, 8) == (if param.doCksum then sum else 0) && Word(packet, 12) == 0
    ensures AllAcceptable(dev.script, 0, dev.requests, |old(dev.requests)|, |dev.requests| - 1)
    ensures ret in {0, -1011} || !LastAccepted(dev)
    ensures m > 1 && param.Size() > 0 ==> old(s.pos) + UpTo(param.Size(), (m + 1) / 3) <= |s.file|
    ensures ret == -1011 ==> param.Size() > 0 && old(s.pos) + UpTo(param.Size(), (m + 2) / 3) > |s.file|
  {
    hide Acceptable, AllAcceptable, ChunkExchanges, Image, BufferAfter, WordSum, Word, ClosingWith, DownloadPlan, DataOf, Verdict, UpTo, ChunkCount, ReplyAt;
    ghost var before, image := dev.requests, Image(s.file, s.pos, param.Size());
    ghost var base, buf0 := s.pos, s.buf[..];
    EverythingSent(|image|);
    var cksum;
    ret, cksum, m := SendImage(dev, s, param);
    if ret != 0 {
      PlanPrefix(param, image, buf0, m);
      return;
    }
    ret, m := Finish(dev, s, param, cksum, before, base, buf0, image);
    EverythingSent(|image|);
    if ret == 0 && param.Size() > 0 {
      ImageInFile(s.file, base, param.Size());
      PlanSendsImage(param, image, buf0);
      assert dev.requests[|before|..] == DownloadPlan(param, image, buf0);
    }
    if ret == 0 {
      assert dev.requests == before + DownloadPlan(param, image, buf0);
      PlanCloses(param, image, buf0);
      NoWords(image);
    }
  }

  lemma NoWords(data: seq<Byte>)
    ensures data == [] ==> WordSum(data, 4) % WORD == 0
  {
  }
}
