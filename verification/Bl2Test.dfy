/** The second sender of the BL2 download, bl2_test: one round only, an ascending offset instead
    of a descending size, unsigned parameters. When it sends what the boot loop sends. */
module Bl2Test {
  import opened Bytes
  import opened Checksum
  import opened Link
  import opened Chunks
  import opened Bl2
  import opened Bl2Boot

  // ---- reference ----

  /** The size field plus 0xFFFF is cut to 32 bits before it becomes a number of chunks, so the
      topmost sizes come out as none. */
  function TestSize(cbw: Block): U32 {
    var size := Word(cbw, 8);
    if size + 0xFFFF >= WORD then 0 else size
  }

  /** The offset is unsigned here. */
  function TestImage(file: seq<Byte>, cbw: Block): seq<Byte> {
    Image(file, Word(cbw, 12), TestSize(cbw))
  }

  /** The checksum is always reported. */
  function TestParams(cbw: Block): Download {
    Params(cbw).(doCksum := true)
  }

  function TestRound(file: seq<Byte>, cbw: Block, buf: seq<Byte>): (reqs: seq<Request>)
    requires |buf| >= CHUNK
    ensures |reqs| >= 2 && reqs[0] == START && reqs[1] == CBW_IN
  {
    [START, CBW_IN]
    + if cbw[17] != 0 then [] else [CswOut(true)] + DownloadPlan(TestParams(cbw), TestImage(file, cbw), buf)
  }

  /** The test's whole round, in numbers: OKAY whatever the flags, the bytes of the file from the
      place in bytes 12 to 15 of the block on, as many as bytes 8 to 11 say, and a packet that
      repeats bytes 4 to 7 and has the checksum of what was sent. */
  lemma TestDelivers(file: seq<Byte>, cbw: Block, buf: seq<Byte>) returns (data: seq<Byte>, packet: seq<Byte>)
    requires |buf| >= CHUNK && cbw[17] == 0
    requires TestSize(cbw) > 0 ==> Word(cbw, 12) + TestSize(cbw) <= |file|
    ensures var round := TestRound(file, cbw, buf);
            && |round| >= 6 && DataOf(round[3..]) == data + packet
            && round[..3] == [ControlOut(0x50, 0x0200, 0, []), BulkIn(0x200),
                              BulkOut([0x4F, 0x4B, 0x41, 0x59, 0, 0, 0, 0, 0, 0, 0, 0, 0, 0, 0, 0])]
            && round[|round| - 3].ControlOut? && round[|round| - 3].request == 0x60 && round[|round| - 3].index == 0x1FF
            && round[|round| - 3].value == Word(cbw, 12) / 0x200 % 0x1_0000
            && round[|round| - 2] == BulkOut(packet) && round[|round| - 1] == BulkIn(16)
    ensures |data| == if Word(cbw, 8) > 0xFFFF_0000 then 0 else Word(cbw, 8)
    ensures data != [] ==> data == file[Word(cbw, 12)..Word(cbw, 12) + |data|]
    ensures |packet| == 0x200 && packet[..4] == [0x41, 0x4D, 0x4C, 0x53] && Word(packet, 4) == Word(cbw, 4)
    ensures Word(packet, 8) == WordSum(data, 4) % WORD && Word(packet, 12) == 0
  {
    hide DownloadPlan, Image, WordSum, Word, DataOf, AmlsPacket, BufferAfter, Reported, ChunkCount;
    CswBytes();
    var param, image := TestParams(cbw), TestImage(file, cbw);
    var plan, round := DownloadPlan(param, image, buf), TestRound(file, cbw, buf);
    assert round[..3] == [START, CBW_IN, CswOut(true)] && round[3..] == plan;
    assert OKAY + Zeros(12) == [0x4F, 0x4B, 0x41, 0x59, 0, 0, 0, 0, 0, 0, 0, 0, 0, 0, 0, 0];
    assert round[|round| - 3] == plan[|plan| - 3] && round[|round| - 2] == plan[|plan| - 2] && round[|round| - 1] == plan[|plan| - 1];
    PlanCloses(param, image, buf);
    PlanSendsImage(param, image, buf);
    PlanPacket(param, image, buf);
    PlaceIs(Word(cbw, 12));
    if TestSize(cbw) > 0 {
      ImageInFile(file, Word(cbw, 12), TestSize(cbw));
    }
    data, packet := image, AmlsPacket(param.seqNum, Reported(image, true), BufferAfter(buf, image, ChunkCount(|image|)));
  }

  // ---- the two senders agree ----

  lemma {:induction false} BufferForgotten(a: seq<Byte>, b: seq<Byte>, image: seq<Byte>, n: nat, p: nat)
    requires |a| >= CHUNK && |b| >= CHUNK && n <= ChunkCount(|image|)
    requires p < 0x200 <= |image| && n > 0
    ensures BufferAfter(a, image, n)[p] == BufferAfter(b, image, n)[p]
  {
    if n > 1 && p >= ChunkSize(|image|, n - 1) {
      BufferForgotten(a, b, image, n - 1, p);
    }
  }

  /** From 512 bytes on, nothing of the buffer's earlier contents shows in the closing packet. */
  lemma PlanIgnoresBuffer(param: Download, image: seq<Byte>, a: seq<Byte>, b: seq<Byte>)
    requires |a| >= CHUNK && |b| >= CHUNK && |image| >= 0x200
    ensures DownloadPlan(param, image, a) == DownloadPlan(param, image, b)
  {
    var n := ChunkCount(|image|);
    forall p | 16 <= p < 0x200
      ensures BufferAfter(a, image, n)[p] == BufferAfter(b, image, n)[p]
    {
      BufferForgotten(a, b, image, n, p);
    }
    assert BufferAfter(a, image, n)[16..0x200] == BufferAfter(b, image, n)[16..0x200];
  }

  /** A command block asking for a download with checksum, of at least 512 bytes. */
  predicate Ordinary(cbw: Block) {
    cbw[17] == 0 && cbw[16] % 2 == 0 && 0x200 <= Word(cbw, 8) < 0x8000_0000
  }

  lemma SendersAgreeIf(file: seq<Byte>, h: Host, cbw: Block, buf: seq<Byte>)
    requires |h.buf| >= CHUNK && |buf| >= CHUNK && Ordinary(cbw) && cbw[16] < 0x80 && Word(cbw, 12) < 0x8000_0000
    ensures TestRound(file, cbw, buf) == Round(file, h, cbw)
  {
    hide DownloadPlan, Image, Word;
    PlanIgnoresBuffer(Params(cbw), ImageFor(file, h, cbw), buf, h.buf);
  }

  /** With the top bit of the offset set, the boot loop's seek is refused and it sends from
      wherever the file stands: here from its start. */
  lemma SendersDiffer(cbw: Block)
    requires Ordinary(cbw) && cbw[16] < 0x80 && Word(cbw, 12) >= 0x8000_0000
    ensures var file, buf := [1] + Zeros(Word(cbw, 8) - 1), Zeros(CHUNK);
            TestRound(file, cbw, buf) != Round(file, Host(0, buf), cbw)
  {
    hide DownloadPlan, Word;
    var file, buf := [1] + Zeros(Word(cbw, 8) - 1), Zeros(CHUNK);
    var sent, tested := ImageFor(file, Host(0, buf), cbw), TestImage(file, cbw);
    assert sent[0] == 1 && tested[0] == 0;
    assert ChunkOf(sent, 0)[0] == 1 && ChunkOf(tested, 0)[0] == 0;
    PlanAt(Params(cbw), sent, buf, 0, 1);
    PlanAt(TestParams(cbw), tested, buf, 0, 1);
    assert TestRound(file, cbw, buf)[4] == BulkOut(ChunkOf(tested, 0));
    assert Round(file, Host(0, buf), cbw)[4] == BulkOut(ChunkOf(sent, 0));
  }

  /** With bit 7 of the flags set, only the test goes on to download. */
  lemma RefusedBlock(cbw: Block)
    requires Ordinary(cbw) && cbw[16] >= 0x80
    ensures |TestRound([], cbw, Zeros(CHUNK))| > |Round([], Host(0, Zeros(CHUNK)), cbw)|
  {
    hide DownloadPlan;
  }

  /** The two senders make the same transfers of the same file. */
  ghost predicate Agree(cbw: Block) {
    forall file: seq<Byte>, h: Host, buf: seq<Byte> {:trigger Round(file, h, cbw), TestRound(file, cbw, buf)} ::
      |h.buf| >= CHUNK && |buf| >= CHUNK ==> TestRound(file, cbw, buf) == Round(file, h, cbw)
  }

  /** For an ordinary command block, whatever the file, the file position and the contents of
      either transfer buffer, the two senders make the same transfers, CMD4 parameters, data and
      closing packet, exactly if bit 7 of the flags is clear and the offset is below 2^31. */
  lemma SendersAgree(cbw: Block)
    requires Ordinary(cbw)
    ensures Agree(cbw) <==> cbw[16] < 0x80 && Word(cbw, 12) < 0x8000_0000
  {
    hide TestRound, Round, Word;
    if cbw[16] >= 0x80 {
      RefusedBlock(cbw);
    } else if Word(cbw, 12) >= 0x8000_0000 {
      SendersDiffer(cbw);
    } else {
      forall file: seq<Byte>, h: Host, buf: seq<Byte> | |h.buf| >= CHUNK && |buf| >= CHUNK
        ensures TestRound(file, cbw, buf) == Round(file, h, cbw)
      {
        SendersAgreeIf(file, h, cbw, buf);
      }
    }
  }

  // ---- the host ----

  /** The codes of bl2_test for the failures of the shared download steps. */
  function TestCode(ret: int): int {
    match ret
    case -1005 => -926
    case -1011 => -932
    case -1017 => -938
    case -1025 => -946
    case -1036 => -959
    case -1047 => -969
    case _ => 0
  }

  /** The loop of bl2_test: same chunks, found by an ascending offset. */
  method TestLoop(dev: Device, s: Session, dataSize: U32, param: Download) returns (ret: int, cksum: U32, ghost m: nat)
    requires Quiet(dev) && s.Valid() && param.doCksum
    modifies dev, s, s.buf, s.csw
    ensures var image := Image(s.file, old(s.pos), if dataSize + 0xFFFF >= WORD then 0 else dataSize);
            if ret == 0 then
              && Sending(dev, s, old(dev.requests), old(s.pos), old(s.buf[..]), image, ChunkCount(|image|))
              && cksum == Reported(image, true)
            else
              Stopped(dev, s.file, old(dev.requests), old(s.pos), image, m, ret)
  {
    hide Acceptable, AllAcceptable, ChunkExchanges, Image, BufferAfter, WordSum, Stopped, ChunkCount;
    ghost var size := if dataSize + 0xFFFF >= WORD then 0 else dataSize;
    TestCount(dataSize, size);
    ghost var base, buf0, before := s.pos, s.buf[..], dev.requests;
    ghost var image := Image(s.file, base, size);
    var dataOffset: U32 := 0;
    cksum := 0;
    var i := 0;
    ImageStart(image, buf0);
    NoneRefused(dev.script, before);
    while i < (dataSize + CHUNK - 1) % WORD / CHUNK
      invariant 0 <= i <= ChunkCount(size) && Sending(dev, s, before, base, buf0, image, i)
      invariant dataOffset == CHUNK * i
      invariant cksum == WordSum(image[..UpTo(size, i)], 4) % WORD
    {
      hide Sending;
      ChunkStep(size, i);
      assert dataSize == size && (dataSize - dataOffset) % WORD == dataSize - dataOffset;
      var bulkSize := Min((dataSize - dataOffset) % WORD, CHUNK);
      ret, cksum, m := DownloadStep(dev, s, param, dataOffset, bulkSize, cksum, before, base, buf0, image, i);
      if ret != 0 {
        return;
      }
      dataOffset := (dataOffset + CHUNK) % WORD;
      i := i + 1;
    }
    ChunkStep(size, i);
    assert image[..UpTo(size, i)] == image;
    ret, m := 0, 3 * i;
  }

  /** The number of chunks is computed in 32 bits. */
  lemma TestCount(dataSize: U32, size: nat)
    requires size == if dataSize + 0xFFFF >= WORD then 0 else dataSize
    ensures (dataSize + CHUNK - 1) % WORD / CHUNK == ChunkCount(size)
    ensures ChunkCount(size) > 0 ==> dataSize == size
  {
  }

  /** The code for a test that stopped after t transfers. */
  function TestVerdict(cbw: Block, t: nat, accepted: bool): int {
    match t
    case 1 => -885
    case 2 => if accepted then -904 else -896
    case 3 => -911
    case _ => if t > 3 then TestCode(Verdict(ChunkCount(TestSize(cbw)), t - 3, accepted)) else 0
  }

  /** In numbers: which code follows from the t transfers of a test, the last of which was or was
      not accepted. */
  lemma TestVerdictIs(cbw: Block, t: nat, accepted: bool)
    requires 1 <= t <= 3 * ChunkCount(TestSize(cbw)) + 6
    ensures var ret, size := TestVerdict(cbw, t, accepted), if Word(cbw, 8) > 0xFFFF_0000 then 0 else Word(cbw, 8);
            if t == 1 then ret == -885
            else if t == 2 then ret == if accepted then -904 else -896
            else if t == 3 then ret == -911
            else if 0x1_0000 * ((t - 4) / 3) < size then
              match t % 3
              case 1 => ret == if accepted then -932 else -926
              case 2 => ret == -938
              case _ => ret == if accepted then 0 else -946
            else
              match t % 3
              case 1 => ret == -959
              case 2 => ret == -969
              case _ => ret == 0
  {
    hide ChunkCount, Word, Verdict;
    if t > 3 {
      VerdictIs(TestSize(cbw), t - 3, accepted);
    }
  }

  /** The download of the test, from an open file. */
  method TestDownload(dev: Device, s: Session, dataSize: U32, param: Download, ghost cbw: Block) returns (ret: int, ghost m: nat)
    requires Quiet(dev) && s.Valid() && s.pos == Word(cbw, 12)
    requires param == TestParams(cbw) && dataSize == Word(cbw, 8)
    modifies dev, s, s.buf, s.csw
    ensures var plan := DownloadPlan(param, TestImage(s.file, cbw), old(s.buf[..]));
            && Quiet(dev) && 1 <= m <= |plan|
            && dev.requests == old(dev.requests) + plan[..m]
            && (ret == 0 <==> m == |plan|)
    ensures ret == TestCode(Verdict(ChunkCount(TestSize(cbw)), m, LastAccepted(dev)))
    ensures AllAcceptable(dev.script, 0, dev.requests, |old(dev.requests)|, |dev.requests| - 1)
    ensures m > 1 && TestSize(cbw) > 0 ==> Word(cbw, 12) + UpTo(TestSize(cbw), (m + 1) / 3) <= |s.file|
  {
    hide Acceptable, AllAcceptable, ChunkExchanges, Image, WordSum, DownloadPlan, UpTo, ChunkCount, ReplyAt, Word;
    ghost var before, base, image := dev.requests, s.pos, TestImage(s.file, cbw);
    ghost var buf0 := s.buf[..];
    var cksum;
    ret, cksum, m := TestLoop(dev, s, dataSize, param);
    if ret == 0 {
      ret, m := Finish(dev, s, param, cksum, before, base, buf0, image);
    } else {
      PlanPrefix(param, image, buf0, m);
    }
    EverythingSent(|image|);
    ret := TestCode(ret);
  }

  /** The test's own opening: only request type 0 is answered, and with OKAY whatever the
      flags. */
  method TestOpening(dev: Device, csw: array<Byte>) returns (ret: int, cbw: Block, ghost m: nat)
    requires Quiet(dev) && csw.Length == 16
    modifies dev, csw
    ensures Quiet(dev) && 1 <= m <= 3 && dev.requests == old(dev.requests) + [START, CBW_IN, CswOut(true)][..m]
    ensures m == 3 || ret == -904 ==> cbw == Arrived(CBW_IN, ReplyAt(dev.script, |old(dev.requests)| + 1))
    ensures AllAcceptable(dev.script, 0, dev.requests, |old(dev.requests)|, if ret == 0 then |dev.requests| else |dev.requests| - 1)
    ensures ret == (match m case 1 => -885 case 2 => if LastAccepted(dev) then -904 else -896 case _ => if LastAccepted(dev) then 0 else -911)
    ensures m == 3 <==> ret in {0, -911}
    ensures m == 3 ==> cbw[17] == 0
    ensures ret == -904 ==> cbw[17] != 0
  {
    hide Acceptable, ReplyAt;
    var heard, n;
    heard, cbw, n := Ask(dev);
    m := n;
    assert [START, CBW_IN, CswOut(true)][..m] == [START, CBW_IN][..m];
    if !heard {
      return if n == 1 then -885 else -896, cbw, m;
    }
    if cbw[17] != 0 {
      return -904, cbw, m;
    }
    ret := Csw(dev, csw, true, true);
    m := 3;
    assert [START, CBW_IN, CswOut(true)][..m] == [START, CBW_IN][..2] + [CswOut(true)];
    ret := if ret != 0 then -911 else 0;
  }

  /** Aml_Libusb_bl2_test, with the file open: what was sent is the first t transfers of the
      test's round, for some earlier contents of the freshly allocated buffer. */
  method Test(dev: Device, file: seq<Byte>) returns (ret: int, ghost cbw: Block, ghost buf: seq<Byte>, ghost t: nat)
    requires Quiet(dev)
    modifies dev
    ensures Quiet(dev) && |buf| >= CHUNK && 1 <= t <= |TestRound(file, cbw, buf)|
    ensures dev.requests == old(dev.requests) + TestRound(file, cbw, buf)[..t]
    ensures t >= 3 || ret == -904 ==> cbw == Arrived(CBW_IN, ReplyAt(dev.script, |old(dev.requests)| + 1))
    ensures ret == 0 <==> cbw[17] == 0 && t == |TestRound(file, cbw, buf)|
    ensures ret == -904 ==> cbw[17] != 0
    ensures ret != 0 ==> ret == TestVerdict(cbw, t, LastAccepted(dev))
    ensures AllAcceptable(dev.script, 0, dev.requests, |old(dev.requests)|, |dev.requests| - 1)
    ensures t > 4 && TestSize(cbw) > 0 ==> Word(cbw, 12) + UpTo(TestSize(cbw), (t - 2) / 3) <= |file|
  {
    hide ReplyAt, Acceptable, AllAcceptable, DownloadPlan, UpTo, ChunkCount, TestImage, Word, Verdict;
    ghost var before := dev.requests;
    var s := new Session(file, CHUNK);
    buf := s.buf[..];
    var data;
    ret, data, t := TestOpening(dev, s.csw);
    cbw := data;
    assert cbw[17] == 0 || t <= 2 ==> TestRound(file, cbw, buf)[..t] == [START, CBW_IN, CswOut(true)][..t];
    if ret != 0 {
      return ret, cbw, buf, t;
    }
    s.Seek(Word(data, 12));
    ghost var sent := dev.requests;
    ghost var m;
    ret, m := TestDownload(dev, s, Word(data, 8), TestParams(data), cbw);
    t := 3 + m;
    assert TestRound(file, cbw, buf)[..t]
        == [START, CBW_IN, CswOut(true)][..3] + DownloadPlan(TestParams(cbw), TestImage(file, cbw), buf)[..m];
    AcceptableGoesOn(dev.script, sent, dev.requests[|sent|..], |before|, |dev.requests| - 1);
  }
}
