/** The BL2 boot loop: the device asks for one download after the other until it reports the
    end, and the host's side of the conversation follows the protocol whatever it answers. */
module Bl2Boot {
  import opened Bytes
  import opened Checksum
  import opened Link
  import opened Chunks
  import opened Bl2

  // ---- command blocks ----

  /** A command block wrapper. */
  type Block = bs: seq<Byte> | |bs| == 0x200 witness Zeros(0x200)

  const DOWNLOAD := 0xABCD
  const UNSUPPORTED := 0xABCE
  const END := 0xABCF
  const REPORTED_ERROR := 0xABD0

  /** Byte 17 is the request type; for type 0, bit 7 of byte 16 must be clear. */
  function Command(cbw: Block): int {
    if cbw[17] == 0 then (if cbw[16] < 0x80 then DOWNLOAD else UNSUPPORTED)
    else if cbw[17] == 1 then END
    else REPORTED_ERROR
  }

  function Params(cbw: Block): Download {
    Download(Signed(Word(cbw, 12)), Signed(Word(cbw, 8)), Word(cbw, 4), cbw[16] % 2 == 0)
  }

  // ---- reference: rounds ----

  /** What one download hands on to the next: the place in the file and the transfer buffer. */
  datatype Host = Host(pos: nat, buf: seq<Byte>)

  function ImageFor(file: seq<Byte>, h: Host, cbw: Block): seq<Byte> {
    Image(file, SeekTo(h.pos, Params(cbw).offset), Params(cbw).Size())
  }

  /** The opening of a round; the answer to the block is OKAY for a download and for the end. */
  function Opening(cbw: Block): (reqs: seq<Request>)
    ensures |reqs| == 3
  {
    [START, CBW_IN, CswOut(Command(cbw) in {DOWNLOAD, END})]
  }

  function Round(file: seq<Byte>, h: Host, cbw: Block): (reqs: seq<Request>)
    requires |h.buf| >= CHUNK
    ensures Opening(cbw) <= reqs
  {
    Opening(cbw) + if Command(cbw) == DOWNLOAD then DownloadPlan(Params(cbw), ImageFor(file, h, cbw), h.buf) else []
  }

  function HostAfter(file: seq<Byte>, h: Host, cbw: Block): (after: Host)
    requires |h.buf| >= CHUNK
    ensures |after.buf| == |h.buf|
  {
    Host(SeekTo(h.pos, Params(cbw).offset) + Params(cbw).Size(), BufferEnd(Params(cbw), ImageFor(file, h, cbw), h.buf))
  }

  function HostAfterAll(file: seq<Byte>, h: Host, cbws: seq<Block>): (after: Host)
    requires |h.buf| >= CHUNK
    ensures |after.buf| == |h.buf|
  {
    if cbws == [] then h
    else HostAfter(file, HostAfterAll(file, h, cbws[..|cbws| - 1]), cbws[|cbws| - 1])
  }

  function Rounds(file: seq<Byte>, h: Host, cbws: seq<Block>): (reqs: seq<Request>)
    requires |h.buf| >= CHUNK
  {
    if cbws == [] then []
    else
      var n := |cbws| - 1;
      Rounds(file, h, cbws[..n]) + Round(file, HostAfterAll(file, h, cbws[..n]), cbws[n])
  }

  // ---- reference: the protocol as a monitor ----

  /** Where the conversation stands; left: image bytes still to come. */
  datatype Phase =
    | Ready                // START is next
    | Asking               // the command block is next
    | Told(cbw: Block)     // its answer is next
    | Loading(left: nat)   // CMD4 is next
    | Placed(left: nat)    // a chunk is next, or the closing packet
    | Sent(left: nat)      // the device's status is next
    | Closing              // the device's last status is next
    | Over                 // nothing may follow
    | Broken               // something followed that must not

  /** The size of the next packet: a chunk, or the closing packet once nothing is left. */
  function PacketSize(left: nat): nat {
    if left == 0 then 0x200 else Min(left, 0x1_0000)
  }

  /** The host may go on after this reply: all of a bulk transfer got through, and a status begins
      with "OKAY". */
  predicate Passes(req: Request, reply: Reply) {
    match req
    case BulkOut(data) => reply.code in {0, -7} && reply.count >= |data|
    case BulkIn(size) => reply.code in {0, -7} && reply.count >= size && (size == 16 ==> [0x4F, 0x4B, 0x41, 0x59] <= reply.data)
    case _ => reply.code >= 0
  }

  /** The block asks for a download: byte 17 is 0, and bit 7 of byte 16 is clear. */
  predicate AsksForData(cbw: Block) {
    cbw[17] == 0 && cbw[16] < 0x80
  }

  /** "OKAY" for a download and for the end, which is a 1 in byte 17, and "FAIL" otherwise. */
  function AnswerTo(cbw: Block): Request {
    BulkOut((if AsksForData(cbw) || cbw[17] == 1 then [0x4F, 0x4B, 0x41, 0x59] else [0x46, 0x41, 0x49, 0x4C]) + Zeros(12))
  }

  /** Bytes 8 to 11 are the size of the image; as an int it may be negative. */
  function SizeIn(cbw: Block): nat {
    if Word(cbw, 8) < 0x8000_0000 then Word(cbw, 8) else 0
  }

  /** The host reads a block as the monitor does. */
  lemma BlockRead(cbw: Block)
    ensures Command(cbw) == DOWNLOAD <==> AsksForData(cbw)
    ensures CswOut(Command(cbw) in {DOWNLOAD, END}) == AnswerTo(cbw)
    ensures Params(cbw).Size() == SizeIn(cbw)
  {
    hide Word;
    CswBytes();
  }

  /** The transfers the protocol allows in each phase. A refused transfer ends the conversation;
      the outcome of the last status alone does not matter. */
  function Watch(p: Phase, req: Request, reply: Reply): Phase {
    if !Allowed(p, req) then Broken
    else if p.Closing? then Ready
    else if !Passes(req, reply) then Over
    else
      match p
      case Ready => Asking
      case Asking => Told(Padded(reply.data, 0x200))
      case Told(cbw) => if AsksForData(cbw) then Loading(SizeIn(cbw)) else Over
      case Loading(left) => Placed(left)
      case Placed(left) => if left == 0 then Closing else Sent(left - PacketSize(left))
      case Sent(left) => Loading(left)
      case _ => Broken
  }

  predicate Allowed(p: Phase, req: Request) {
    match p
    case Ready => req == ControlOut(0x50, 0x0200, 0, [])
    case Asking => req == BulkIn(0x200)
    case Told(cbw) => req == AnswerTo(cbw)
    case Loading(left) => req.ControlOut? && req.request == 0x60 && req.data == [] && req.index + 1 == PacketSize(left)
    case Placed(left) => req.BulkOut? && |req.data| == PacketSize(left) && (left == 0 ==> [0x41, 0x4D, 0x4C, 0x53] <= req.data)
    case Sent(_) => req == BulkIn(16)
    case Closing => req == BulkIn(16)
    case Over => false
    case Broken => false
  }

  /** The phase after the given transfers, the first of which is number i of the run. */
  function Watched(script: seq<Reply>, i: nat, p: Phase, sent: seq<Request>): Phase {
    if sent == [] then p
    else
      var n := |sent| - 1;
      Watch(Watched(script, i, p, sent[..n]), sent[n], ReplyAt(script, i + n))
  }

  lemma {:induction false} WatchedSplits(script: seq<Reply>, i: nat, p: Phase, a: seq<Request>, b: seq<Request>)
    ensures Watched(script, i, p, a + b) == Watched(script, i + |a|, Watched(script, i, p, a), b)
    decreases |b|
  {
    hide Watch;
    if b == [] {
      assert a + b == a;
    } else {
      var n := |b| - 1;
      WatchedSplits(script, i, p, a, b[..n]);
      assert (a + b)[..|a + b| - 1] == a + b[..n];
    }
  }

  // ---- every download plan follows the protocol ----

  /** Transfer number 3k + r of a plan. */
  lemma PlanAt(param: Download, image: seq<Byte>, buf: seq<Byte>, k: nat, r: nat)
    requires |buf| >= CHUNK && k <= ChunkCount(|image|) && r < 3
    ensures DownloadPlan(param, image, buf)[3 * k + r] ==
      if k < ChunkCount(|image|) then ChunkExchange(image, k)[r]
      else ClosingWith(param, Reported(image, param.doCksum), BufferAfter(buf, image, k))[r]
  {
    hide ChunkExchanges, ChunkExchange, ClosingWith, BufferAfter, ChunkCount;
    if k < ChunkCount(|image|) {
      var all := ChunkExchanges(image, ChunkCount(|image|));
      ImagePrefix(image, ChunkCount(|image|), k, 3);
      assert all[3 * k + r] == all[..3 * k + 3][3 * k + r];
    }
  }

  /** The phase after m transfers of a download of size bytes, if none was refused. */
  function PhaseAt(size: nat, m: nat): Phase
    requires m <= 3 * ChunkCount(size) + 3
  {
    var k := m / 3;
    if k > ChunkCount(size) then Ready
    else if m % 3 == 0 then Loading(size - UpTo(size, k))
    else if m % 3 == 1 then Placed(size - UpTo(size, k))
    else if k == ChunkCount(size) then Closing
    else Sent(size - UpTo(size, k + 1))
  }

  /** Each transfer of a plan is allowed where it stands, and leads on if it is accepted. */
  lemma PlanStep(param: Download, image: seq<Byte>, buf: seq<Byte>, m: nat, reply: Reply)
    requires |buf| >= CHUNK && m < |DownloadPlan(param, image, buf)|
    ensures var p, req := PhaseAt(|image|, m), DownloadPlan(param, image, buf)[m];
            && Watch(p, req, reply) != Broken
            && (Acceptable(req, reply) || m + 1 == |DownloadPlan(param, image, buf)| ==> Watch(p, req, reply) == PhaseAt(|image|, m + 1))
  {
    hide BufferAfter, Acceptable, Reported, DownloadPlan, ChunkCount, AmlsPacket, PhaseAt, Watch, UpTo;
    var k, r := m / 3, m % 3;
    PlanAt(param, image, buf, k, r);
    PhaseIs(|image|, k, r);
    NextPhase(|image|, k, r);
    var packed := BufferAfter(buf, image, k);
    if k < ChunkCount(|image|) {
      ChunkStep(|image|, k);
      ExchangeStep(image, k, r, reply);
    } else {
      ChunkStep(|image|, k);
      ClosingStep(param, Reported(image, param.doCksum), packed, r, reply);
    }
  }

  lemma PhaseIs(size: nat, k: nat, r: nat)
    requires k <= ChunkCount(size) && r < 3
    ensures PhaseAt(size, 3 * k + r) ==
      match r
      case 0 => Loading(size - UpTo(size, k))
      case 1 => Placed(size - UpTo(size, k))
      case _ => if k == ChunkCount(size) then Closing else Sent(size - UpTo(size, k + 1))
  {
    hide ChunkCount, UpTo;
    assert (3 * k + r) / 3 == k && (3 * k + r) % 3 == r;
  }

  lemma NextPhase(size: nat, k: nat, r: nat)
    requires k <= ChunkCount(size) && r < 3
    ensures r == 0 ==> PhaseAt(size, 3 * k + r + 1) == Placed(size - UpTo(size, k))
    ensures r == 1 ==> PhaseAt(size, 3 * k + r + 1) == if k == ChunkCount(size) then Closing else Sent(size - UpTo(size, k + 1))
    ensures r == 2 ==> PhaseAt(size, 3 * k + r + 1) == if k == ChunkCount(size) then Ready else Loading(size - UpTo(size, k + 1))
  {
    hide ChunkCount, UpTo;
    if r < 2 {
      PhaseIs(size, k, r + 1);
    } else if k < ChunkCount(size) {
      PhaseIs(size, k + 1, 0);
    } else {
      assert (3 * k + 3) / 3 == k + 1;
    }
  }

  /** The transfers of a chunk. */
  lemma ExchangeStep(image: seq<Byte>, k: nat, r: nat, reply: Reply)
    requires k < ChunkCount(|image|) && r < 3
    ensures var left, req := |image| - CHUNK * k, ChunkExchange(image, k)[r];
            var size := Min(left, CHUNK);
            match r
            case 0 => Watch(Loading(left), req, reply) != Broken && (Acceptable(req, reply) ==> Watch(Loading(left), req, reply) == Placed(left))
            case 1 => Watch(Placed(left), req, reply) != Broken && (Acceptable(req, reply) ==> Watch(Placed(left), req, reply) == Sent(left - size))
            case _ => Watch(Sent(left - size), req, reply) != Broken && (Acceptable(req, reply) ==> Watch(Sent(left - size), req, reply) == Loading(left - size))
  {
    hide Acceptable, Passes, ChunkCount;
    ChunkStep(|image|, k);
    PassesIs(ChunkExchange(image, k)[r], reply);
  }

  /** What the monitor takes for a reply to go on after is what the host does. */
  lemma PassesIs(req: Request, reply: Reply)
    requires req.ControlOut? || ((req.BulkOut? || req.BulkIn?) && req.Size() > 0)
    ensures Passes(req, reply) <==> Acceptable(req, reply)
  {
    hide Acceptable;
    AcceptableIs(req, reply);
  }

  /** The transfers of the closing exchange. */
  lemma ClosingStep(param: Download, cksum: U32, packed: seq<Byte>, r: nat, reply: Reply)
    requires |packed| >= CHUNK && r < 3
    ensures var req := ClosingWith(param, cksum, packed)[r];
            match r
            case 0 => Watch(Loading(0), req, reply) != Broken && (Acceptable(req, reply) ==> Watch(Loading(0), req, reply) == Placed(0))
            case 1 => Watch(Placed(0), req, reply) != Broken && (Acceptable(req, reply) ==> Watch(Placed(0), req, reply) == Closing)
            case _ => Watch(Closing, req, reply) == Ready
  {
    hide Acceptable, Passes, AmlsPacket;
    PassesIs(ClosingWith(param, cksum, packed)[r], reply);
    PacketWords(param.seqNum, cksum, packed);
  }

  lemma {:induction false} PlanRuns(script: seq<Reply>, i: nat, param: Download, image: seq<Byte>, buf: seq<Byte>, m: nat)
    requires |buf| >= CHUNK && m < |DownloadPlan(param, image, buf)|
    requires AllAcceptable(script, i, DownloadPlan(param, image, buf), 0, m)
    ensures Watched(script, i, Loading(|image|), DownloadPlan(param, image, buf)[..m]) == PhaseAt(|image|, m)
  {
    hide DownloadPlan, Acceptable, Watch, ChunkCount;
    var plan := DownloadPlan(param, image, buf);
    if m > 0 {
      var n := m - 1;
      assert plan[..m][..n] == plan[..n] && plan[..m][n] == plan[n];
      PlanRuns(script, i, param, image, buf, n);
      PlanStep(param, image, buf, n, ReplyAt(script, i + n));
    }
  }

  /** However far a download gets, it follows the protocol; a whole one ends ready for the next
      START. */
  lemma PlanIsLegal(script: seq<Reply>, i: nat, param: Download, image: seq<Byte>, buf: seq<Byte>, m: nat)
    requires |buf| >= CHUNK && m <= |DownloadPlan(param, image, buf)|
    requires AllAcceptable(script, i, DownloadPlan(param, image, buf), 0, m - 1)
    ensures var p := Watched(script, i, Loading(|image|), DownloadPlan(param, image, buf)[..m]);
            p != Broken && (m == |DownloadPlan(param, image, buf)| ==> p == Ready)
  {
    hide DownloadPlan, Acceptable, Watch, ChunkCount;
    var plan := DownloadPlan(param, image, buf);
    if m > 0 {
      var n := m - 1;
      assert plan[..m][..n] == plan[..n] && plan[..m][n] == plan[n];
      PlanRuns(script, i, param, image, buf, n);
      PlanStep(param, image, buf, n, ReplyAt(script, i + n));
    }
  }

  // ---- every run follows the protocol ----

  /** The first t transfers of a round took place: the command block is the one that arrived,
      nothing but the round's very last status was refused before the last of them, and the
      image bytes among them are in the file. */
  ghost predicate RoundRan(script: seq<Reply>, i: nat, file: seq<Byte>, h: Host, cbw: Block, t: nat)
    requires |h.buf| >= CHUNK
  {
    var param := Params(cbw);
    && t <= |Round(file, h, cbw)|
    && (t >= 3 ==> cbw == Arrived(CBW_IN, ReplyAt(script, i + 1)))
    && AllAcceptable(script, i, Round(file, h, cbw), 0, t - 1)
    && (t > 4 && param.Size() > 0 ==> SeekTo(h.pos, param.offset) + UpTo(param.Size(), (t - 2) / 3) <= |file|)
  }

  /** Whole rounds took place, one for each of the command blocks, all of them downloads. */
  ghost predicate RoundsRan(script: seq<Reply>, i: nat, file: seq<Byte>, h: Host, cbws: seq<Block>)
    requires |h.buf| >= CHUNK
  {
    cbws == [] ||
    var n := |cbws| - 1;
    var before := HostAfterAll(file, h, cbws[..n]);
    && RoundsRan(script, i, file, h, cbws[..n])
    && Command(cbws[n]) == DOWNLOAD
    && RoundRan(script, i + |Rounds(file, h, cbws[..n])|, file, before, cbws[n], |Round(file, before, cbws[n])|)
  }

  lemma OpeningIsLegal(script: seq<Reply>, i: nat, cbw: Block, t: nat)
    requires t <= 3 && AllAcceptable(script, i, Opening(cbw), 0, t - 1)
    requires t == 3 ==> cbw == Arrived(CBW_IN, ReplyAt(script, i + 1))
    ensures Watched(script, i, Ready, Opening(cbw)[..t]) != Broken
    ensures t == 3 && Command(cbw) == DOWNLOAD && Acceptable(Opening(cbw)[2], ReplyAt(script, i + 2)) ==>
      Watched(script, i, Ready, Opening(cbw)) == Loading(Params(cbw).Size())
  {
    hide Acceptable, Passes, Command, Params, AnswerTo, AsksForData, SizeIn;
    var open := Opening(cbw);
    BlockRead(cbw);
    PassesIs(START, ReplyAt(script, i));
    PassesIs(CBW_IN, ReplyAt(script, i + 1));
    PassesIs(open[2], ReplyAt(script, i + 2));
    if t > 0 {
      assert open[..1][..0] == [] && open[..1][0] == START;
      assert Watched(script, i, Ready, open[..1]) == Watch(Ready, START, ReplyAt(script, i));
    }
    if t > 1 {
      assert Acceptable(open[0], ReplyAt(script, i + 0));
      assert open[..2][..1] == open[..1];
      assert Watched(script, i, Ready, open[..2]) == Watch(Asking, CBW_IN, ReplyAt(script, i + 1));
    }
    if t > 2 {
      assert Acceptable(open[1], ReplyAt(script, i + 1));
      assert open[..3][..2] == open[..2] && open[..3] == open;
    }
  }

  lemma RoundIsLegal(script: seq<Reply>, i: nat, file: seq<Byte>, h: Host, cbw: Block, t: nat)
    requires |h.buf| >= CHUNK && RoundRan(script, i, file, h, cbw, t)
    ensures var p := Watched(script, i, Ready, Round(file, h, cbw)[..t]);
            p != Broken && (Command(cbw) == DOWNLOAD && t == |Round(file, h, cbw)| ==> p == Ready)
  {
    hide Acceptable, Watch, Watched, DownloadPlan, Opening, Command, Arrived;
    var round, open := Round(file, h, cbw), Opening(cbw);
    assert forall k :: 0 <= k < 3 ==> round[k] == open[k];
    OpeningIsLegal(script, i, cbw, Min(t, 3));
    if t <= 3 {
      assert round[..t] == open[..t];
    } else {
      var image := ImageFor(file, h, cbw);
      var plan := DownloadPlan(Params(cbw), image, h.buf);
      assert round[2] == open[2] && round[..t] == open + plan[..t - 3];
      forall k {:trigger plan[k]} | 0 <= k < t - 4 && k < |plan|
        ensures Acceptable(plan[k], ReplyAt(script, i + 3 + k))
      {
        assert plan[k] == round[k + 3];
      }
      assert Acceptable(round[2], ReplyAt(script, i + 2));
      PlanIsLegal(script, i + 3, Params(cbw), image, h.buf, t - 3);
      WatchedSplits(script, i, Ready, open, plan[..t - 3]);
    }
  }

  /** After whole rounds, the device may be asked again. */
  lemma {:induction false} RoundsAreLegal(script: seq<Reply>, i: nat, file: seq<Byte>, h: Host, cbws: seq<Block>)
    requires |h.buf| >= CHUNK && RoundsRan(script, i, file, h, cbws)
    ensures Watched(script, i, Ready, Rounds(file, h, cbws)) == Ready
    decreases |cbws|
  {
    hide RoundRan, Round, Watch, HostAfter;
    if cbws != [] {
      var n := |cbws| - 1;
      var done, before := Rounds(file, h, cbws[..n]), HostAfterAll(file, h, cbws[..n]);
      var last := Round(file, before, cbws[n]);
      RoundsAreLegal(script, i, file, h, cbws[..n]);
      RoundIsLegal(script, i + |done|, file, before, cbws[n], |last|);
      assert last[..|last|] == last;
      WatchedSplits(script, i, Ready, done, last);
    }
  }

  /** Safety over whole runs: whatever the device sends, and wherever the run stops, the host's
      transfers follow the protocol. In particular image data goes out only after OKAY was
      answered to a download command, one CMD4 and one status around each chunk of exactly the
      announced size, and START comes again only after the closing packet and its status. */
  lemma RunIsLegal(script: seq<Reply>, i: nat, file: seq<Byte>, h: Host, cbws: seq<Block>, cbw: Block, t: nat)
    requires |h.buf| >= CHUNK && RoundsRan(script, i, file, h, cbws)
    requires RoundRan(script, i + |Rounds(file, h, cbws)|, file, HostAfterAll(file, h, cbws), cbw, t)
    ensures Watched(script, i, Ready, Rounds(file, h, cbws) + Round(file, HostAfterAll(file, h, cbws), cbw)[..t]) != Broken
  {
    hide AllAcceptable, RoundsRan, Rounds, Round, Watch, HostAfterAll, Watched;
    RoundsAreLegal(script, i, file, h, cbws);
    RoundIsLegal(script, i + |Rounds(file, h, cbws)|, file, HostAfterAll(file, h, cbws), cbw, t);
    WatchedSplits(script, i, Ready, Rounds(file, h, cbws), Round(file, HostAfterAll(file, h, cbws), cbw)[..t]);
  }

  /** A broken rule stays broken. */
  lemma {:induction false} BrokenStays(script: seq<Reply>, i: nat, sent: seq<Request>)
    ensures Watched(script, i, Broken, sent) == Broken
    decreases |sent|
  {
    hide ReplyAt, Passes;
    if sent != [] {
      BrokenStays(script, i, sent[..|sent| - 1]);
    }
  }

  /** The phase before transfer number j of a legal run, and after it. */
  lemma LegalStep(script: seq<Reply>, i: nat, p: Phase, sent: seq<Request>, j: nat)
    requires Watched(script, i, p, sent) != Broken && j < |sent|
    ensures var before, after := Watched(script, i, p, sent[..j]), Watched(script, i, p, sent[..j + 1]);
            after == Watch(before, sent[j], ReplyAt(script, i + j)) && before != Broken && after != Broken && Allowed(before, sent[j])
  {
    hide Watched, ReplyAt, Passes, Allowed;
    assert sent == sent[..j] + sent[j..] && sent == sent[..j + 1] + sent[j + 1..];
    WatchedSplits(script, i, p, sent[..j], sent[j..]);
    WatchedSplits(script, i, p, sent[..j + 1], sent[j + 1..]);
    BrokenStays(script, i + j, sent[j..]);
    BrokenStays(script, i + j + 1, sent[j + 1..]);
    assert sent[..j + 1][..j] == sent[..j] && sent[..j + 1][j] == sent[j];
    WatchedSnoc(script, i, p, sent[..j + 1]);
  }

  lemma WatchedSnoc(script: seq<Reply>, i: nat, p: Phase, sent: seq<Request>)
    requires sent != []
    ensures Watched(script, i, p, sent) == Watch(Watched(script, i, p, sent[..|sent| - 1]), sent[|sent| - 1], ReplyAt(script, i + |sent| - 1))
  {
    hide Watch, ReplyAt;
  }

  /** In every legal run, a START is followed by the request for the block, and that by "OKAY" if
      the block has a 1 in byte 17, or a 0 there and bit 7 of byte 16 clear, and else by "FAIL".
      More follows only in the second case. */
  lemma BlocksAreAnswered(script: seq<Reply>, i: nat, sent: seq<Request>, j: nat)
    requires Watched(script, i, Ready, sent) != Broken
    requires j + 2 < |sent| && sent[j] == ControlOut(0x50, 0x0200, 0, [])
    ensures var cbw := Padded(ReplyAt(script, i + j + 1).data, 0x200);
            && sent[j + 1] == BulkIn(0x200)
            && sent[j + 2] == BulkOut((if cbw[17] == 1 || (cbw[17] == 0 && cbw[16] < 0x80)
                                       then [0x4F, 0x4B, 0x41, 0x59] else [0x46, 0x41, 0x49, 0x4C])
                                      + [0, 0, 0, 0, 0, 0, 0, 0, 0, 0, 0, 0])
            && (j + 3 < |sent| ==> cbw[17] == 0 && cbw[16] < 0x80)
  {
    hide Watched, ReplyAt, SizeIn, Passes;
    LegalStep(script, i, Ready, sent, j);
    LegalStep(script, i, Ready, sent, j + 1);
    LegalStep(script, i, Ready, sent, j + 2);
    CswBytes();
    if j + 3 < |sent| {
      LegalStep(script, i, Ready, sent, j + 3);
    }
  }

  /** The same for all STARTs in a log. */
  lemma LogIsAnswered(script: seq<Reply>, log: seq<Request>, i: nat)
    requires i <= |log| && Watched(script, i, Ready, log[i..]) != Broken
    ensures forall j {:trigger log[j]} :: i <= j < |log| - 2 && log[j] == ControlOut(0x50, 0x0200, 0, []) ==>
              var cbw := Padded(ReplyAt(script, j + 1).data, 0x200);
              && log[j + 1] == BulkIn(0x200)
              && log[j + 2] == BulkOut((if cbw[17] == 1 || (cbw[17] == 0 && cbw[16] < 0x80)
                                        then [0x4F, 0x4B, 0x41, 0x59] else [0x46, 0x41, 0x49, 0x4C])
                                       + [0, 0, 0, 0, 0, 0, 0, 0, 0, 0, 0, 0])
              && (j + 3 < |log| ==> cbw[17] == 0 && cbw[16] < 0x80)
  {
    hide Watched, ReplyAt;
    forall j {:trigger log[j]} | i <= j < |log| - 2 && log[j] == ControlOut(0x50, 0x0200, 0, [])
      ensures var cbw := Padded(ReplyAt(script, j + 1).data, 0x200);
              && log[j + 1] == BulkIn(0x200)
              && log[j + 2] == BulkOut((if cbw[17] == 1 || (cbw[17] == 0 && cbw[16] < 0x80)
                                        then [0x4F, 0x4B, 0x41, 0x59] else [0x46, 0x41, 0x49, 0x4C])
                                       + [0, 0, 0, 0, 0, 0, 0, 0, 0, 0, 0, 0])
              && (j + 3 < |log| ==> cbw[17] == 0 && cbw[16] < 0x80)
    {
      BlocksAreAnswered(script, i, log[i..], j - i);
    }
  }

  /** The packet is the last data of a plan. */
  lemma PlanPacket(param: Download, image: seq<Byte>, buf: seq<Byte>)
    requires |buf| >= CHUNK
    ensures var plan := DownloadPlan(param, image, buf);
            plan[|plan| - 2] == BulkOut(AmlsPacket(param.seqNum, Reported(image, param.doCksum), BufferAfter(buf, image, ChunkCount(|image|))))
  {
    hide ChunkExchanges, AmlsPacket, BufferAfter, Reported, ChunkCount;
  }

  /** The place of an offset in 512-byte units, cut to 16 bits, does not depend on its sign. */
  lemma PlaceIs(w: U32)
    ensures Signed(w) / 0x200 % 0x1_0000 == w / 0x200 % 0x1_0000
  {
    if w >= 0x8000_0000 {
      assert (w - WORD) / 0x200 == w / 0x200 - 0x80 * 0x1_0000;
    }
  }

  lemma WholeRound(size: nat)
    ensures (3 + 3 * ChunkCount(size) + 3 - 2) / 3 == ChunkCount(size) + 1 && UpTo(size, ChunkCount(size) + 1) == size
  {
    hide ChunkCount, UpTo;
    ChunkStep(size, ChunkCount(size) + 1);
    ChunkStep(size, ChunkCount(size));
  }

  /** A round that downloads ends as its plan does. */
  lemma RoundEnds(file: seq<Byte>, h: Host, cbw: Block)
    requires |h.buf| >= CHUNK && Command(cbw) == DOWNLOAD
    ensures var round, plan := Round(file, h, cbw), DownloadPlan(Params(cbw), ImageFor(file, h, cbw), h.buf);
            && |round| == 3 + |plan| && round[3..] == plan
            && forall k {:trigger plan[k]} :: 0 <= k < |plan| ==> round[3 + k] == plan[k]
  {
    hide DownloadPlan, Opening, ImageFor, Params, Command;
  }

  /** The image of a whole round is in the file. */
  lemma RoundImage(script: seq<Reply>, i: nat, file: seq<Byte>, h: Host, cbw: Block)
    requires |h.buf| >= CHUNK && Command(cbw) == DOWNLOAD && RoundRan(script, i, file, h, cbw, |Round(file, h, cbw)|)
    ensures var from, image := SeekTo(h.pos, Params(cbw).offset), ImageFor(file, h, cbw);
            |image| == Params(cbw).Size() && (|image| > 0 ==> from + |image| <= |file| && image == file[from..from + |image|])
  {
    hide DownloadPlan, Round, Params, Command, AllAcceptable, ChunkCount, UpTo, Image;
    RoundEnds(file, h, cbw);
    var size := Params(cbw).Size();
    WholeRound(size);
    if size > 0 {
      EverythingSent(size);
      ImageInFile(file, SeekTo(h.pos, Params(cbw).offset), size);
    }
  }

  /** A whole round, in numbers: between the answer and the next START, the host sends the bytes of
      the file from the place in bytes 12 to 15 of the block on, as many as bytes 8 to 11 say, and
      then a packet that repeats bytes 4 to 7 and has the checksum of what was sent, unless bit 0
      of byte 16 is set. A place from 2^31 on is not gone to, and a size from 2^31 on is none. */
  lemma RoundDelivers(script: seq<Reply>, i: nat, file: seq<Byte>, h: Host, cbw: Block) returns (data: seq<Byte>, packet: seq<Byte>)
    requires |h.buf| >= CHUNK && cbw[17] == 0 && cbw[16] < 0x80
    requires RoundRan(script, i, file, h, cbw, |Round(file, h, cbw)|)
    ensures var round := Round(file, h, cbw);
            && |round| >= 6 && DataOf(round[3..]) == data + packet
            && round[|round| - 3] == ControlOut(0x60, Word(cbw, 12) / 0x200 % 0x1_0000, 0x1FF, [])
            && round[|round| - 2] == BulkOut(packet) && round[|round| - 1] == BulkIn(16)
    ensures |data| == if Word(cbw, 8) < 0x8000_0000 then Word(cbw, 8) else 0
    ensures data != [] ==>
      var from := if Word(cbw, 12) < 0x8000_0000 then Word(cbw, 12) else h.pos;
      from + |data| <= |file| && data == file[from..from + |data|]
    ensures |packet| == 0x200 && packet[..4] == [0x41, 0x4D, 0x4C, 0x53] && Word(packet, 4) == Word(cbw, 4)
    ensures Word(packet, 8) == (if cbw[16] % 2 == 0 then WordSum(data, 4) % WORD else 0) && Word(packet, 12) == 0
  {
    hide DownloadPlan, ImageFor, Round, RoundRan, WordSum, Word, DataOf, AmlsPacket, BufferAfter, Reported, ChunkCount;
    BlockRead(cbw);
    var param, image := Params(cbw), ImageFor(file, h, cbw);
    var plan := DownloadPlan(param, image, h.buf);
    RoundEnds(file, h, cbw);
    RoundImage(script, i, file, h, cbw);
    PlanCloses(param, image, h.buf);
    PlanSendsImage(param, image, h.buf);
    PlanPacket(param, image, h.buf);
    PlaceIs(Word(cbw, 12));
    data, packet := image, AmlsPacket(param.seqNum, Reported(image, param.doCksum), BufferAfter(h.buf, image, ChunkCount(|image|)));
    assert plan[|plan| - 3] == Round(file, h, cbw)[|plan|] && plan[|plan| - 1] == Round(file, h, cbw)[|plan| + 2];
  }

  // ---- how many rounds there are ----

  /** How many of the given transfers are STARTs that the device accepted. */
  function AcceptedStarts(script: seq<Reply>, i: nat, reqs: seq<Request>): nat {
    if reqs == [] then 0
    else
      var n := |reqs| - 1;
      AcceptedStarts(script, i, reqs[..n]) + if reqs[n] == START && Acceptable(START, ReplyAt(script, i + n)) then 1 else 0
  }

  lemma {:induction false} StartsSplit(script: seq<Reply>, i: nat, a: seq<Request>, b: seq<Request>)
    ensures AcceptedStarts(script, i, a + b) == AcceptedStarts(script, i, a) + AcceptedStarts(script, i + |a|, b)
    decreases |b|
  {
    hide Acceptable, ReplyAt;
    if b == [] {
      assert a + b == a;
    } else {
      var n := |b| - 1;
      assert (a + b)[..|a| + n] == a + b[..n];
      StartsSplit(script, i, a, b[..n]);
    }
  }

  lemma {:induction false} NoStarts(script: seq<Reply>, i: nat, reqs: seq<Request>)
    requires forall k {:trigger reqs[k]} :: 0 <= k < |reqs| ==> reqs[k] != START
    ensures AcceptedStarts(script, i, reqs) == 0
    decreases |reqs|
  {
    if reqs != [] {
      NoStarts(script, i, reqs[..|reqs| - 1]);
    }
  }

  /** A download sends no START. */
  lemma PlanHasNoStart(param: Download, image: seq<Byte>, buf: seq<Byte>, m: nat)
    requires |buf| >= CHUNK && m < |DownloadPlan(param, image, buf)|
    ensures DownloadPlan(param, image, buf)[m] != START
  {
    hide DownloadPlan, ChunkCount, Reported, BufferAfter, ChunkOf, AmlsPacket;
    PlanAt(param, image, buf, m / 3, m % 3);
  }

  /** A round begins with its only START. */
  lemma RoundStarts(script: seq<Reply>, i: nat, file: seq<Byte>, h: Host, cbw: Block, t: nat)
    requires |h.buf| >= CHUNK && 0 < t <= |Round(file, h, cbw)|
    ensures AcceptedStarts(script, i, Round(file, h, cbw)[..t]) == if Acceptable(START, ReplyAt(script, i)) then 1 else 0
  {
    hide AcceptedStarts, Acceptable, DownloadPlan, Command;
    var rest := Round(file, h, cbw)[1..t];
    assert Round(file, h, cbw)[..t] == [START] + rest;
    StartsSplit(script, i, [START], rest);
    forall k {:trigger rest[k]} | 0 <= k < |rest|
      ensures rest[k] != START
    {
      if k >= 2 {
        PlanHasNoStart(Params(cbw), ImageFor(file, h, cbw), h.buf, k - 2);
      }
    }
    NoStarts(script, i + 1, rest);
    OneStart(script, i);
  }

  lemma OneStart(script: seq<Reply>, i: nat)
    ensures AcceptedStarts(script, i, [START]) == if Acceptable(START, ReplyAt(script, i)) then 1 else 0
  {
    assert [START][..0] == [];
  }

  /** There are as many whole rounds as STARTs that the device accepted. */
  lemma {:induction false} RoundsAreStarts(script: seq<Reply>, i: nat, file: seq<Byte>, h: Host, cbws: seq<Block>)
    requires |h.buf| >= CHUNK && RoundsRan(script, i, file, h, cbws)
    ensures AcceptedStarts(script, i, Rounds(file, h, cbws)) == |cbws|
    decreases |cbws|
  {
    hide Acceptable, AcceptedStarts, Round, HostAfter, Command;
    if cbws == [] {
      NoStarts(script, i, []);
    } else {
      var n := |cbws| - 1;
      var done, before := Rounds(file, h, cbws[..n]), HostAfterAll(file, h, cbws[..n]);
      var last := Round(file, before, cbws[n]);
      RoundsAreStarts(script, i, file, h, cbws[..n]);
      assert last[0] == START by { assert last[0] == Opening(cbws[n])[0]; }
      assert last[..|last|] == last;
      RoundStarts(script, i + |done|, file, before, cbws[n], |last|);
      StartsSplit(script, i, done, last);
    }
  }

  /** An answer that suits every transfer of a round. As a command block it asks for a download
      of no bytes. */
  const YES := Reply(0, 0x200, OKAY + Zeros(0x1FC), 0, 0)

  function Asked(n: nat): (cbws: seq<Block>)
    ensures |cbws| == n
  {
    if n == 0 then [] else Asked(n - 1) + [OKAY + Zeros(0x1FC)]
  }

  /** The code puts no bound on the number of rounds: a device that always answers YES is served
      any number of them. */
  lemma {:induction false} DeviceMayAskForEver(script: seq<Reply>, i: nat, file: seq<Byte>, h: Host, n: nat)
    requires |h.buf| >= CHUNK && forall j :: i <= j < i + 6 * n ==> ReplyAt(script, j) == YES
    ensures RoundsRan(script, i, file, h, Asked(n)) && |Rounds(file, h, Asked(n))| == 6 * n
  {
    hide RoundRan, Round, Rounds, RoundsRan, Command, HostAfter, HostAfterAll, ReplyAt;
    if n == 0 {
      NoRounds(script, i, file, h);
    } else {
      var before, k := Asked(n - 1), n - 1;
      DeviceMayAskForEver(script, i, file, h, k);
      YesMakesRound(script, i + 6 * k, file, HostAfterAll(file, h, before), OKAY + Zeros(0x1FC));
      OneMoreRound(script, i, file, h, before, OKAY + Zeros(0x1FC));
    }
  }

  /** What ends the loop: a command other than a download, a refused transfer, or a chunk that
      lies beyond the end of the file. */
  predicate RoundStopped(script: seq<Reply>, i: nat, file: seq<Byte>, h: Host, cbw: Block, t: nat)
    requires |h.buf| >= CHUNK && 0 < t <= |Round(file, h, cbw)|
  {
    var param := Params(cbw);
    || (t == 3 && Command(cbw) != DOWNLOAD)
    || !Acceptable(Round(file, h, cbw)[t - 1], ReplyAt(script, i + t - 1))
    || (t > 3 && param.Size() > 0 && SeekTo(h.pos, param.offset) + UpTo(param.Size(), (t - 1) / 3) > |file|)
  }

  /** Whatever run of the host it is, the device that answers YES to 6n transfers gets n rounds. */
  lemma YesIsServed(script: seq<Reply>, i: nat, file: seq<Byte>, h: Host, n: nat, cbws: seq<Block>, cbw: Block, t: nat)
    requires |h.buf| >= CHUNK && forall j :: i <= j < i + 6 * n ==> ReplyAt(script, j) == YES
    requires RoundsRan(script, i, file, h, cbws)
    requires var now, at := HostAfterAll(file, h, cbws), i + |Rounds(file, h, cbws)|;
             && 0 < t <= |Round(file, now, cbw)| && RoundRan(script, at, file, now, cbw, t) && RoundStopped(script, at, file, now, cbw, t)
    ensures |cbws| >= n
  {
    hide RoundsRan, Rounds, HostAfterAll, Round, RoundRan, RoundStopped, ReplyAt;
    if |cbws| < n {
      OnlyAsked(script, i, file, h, n, cbws);
      DeviceMayAskForEver(script, i, file, h, |cbws|);
      YesNeverStops(script, i + 6 * |cbws|, file, HostAfterAll(file, h, cbws), cbw, t);
    }
  }

  /** All the blocks such a device sends are the same. */
  lemma {:induction false} OnlyAsked(script: seq<Reply>, i: nat, file: seq<Byte>, h: Host, n: nat, cbws: seq<Block>)
    requires |h.buf| >= CHUNK && forall j :: i <= j < i + 6 * n ==> ReplyAt(script, j) == YES
    requires RoundsRan(script, i, file, h, cbws) && |cbws| <= n
    ensures cbws == Asked(|cbws|)
    decreases |cbws|
  {
    hide Rounds, Round, RoundsRan, RoundRan, HostAfter, HostAfterAll, Command, ReplyAt;
    if cbws != [] {
      var k := |cbws| - 1;
      assert cbws == cbws[..k] + [cbws[k]];
      OneMoreRound(script, i, file, h, cbws[..k], cbws[k]);
      OnlyAsked(script, i, file, h, n, cbws[..k]);
      DeviceMayAskForEver(script, i, file, h, k);
      RoundAsked(script, i + 6 * k, file, HostAfterAll(file, h, cbws[..k]), cbws[k]);
    }
  }

  lemma RoundAsked(script: seq<Reply>, i: nat, file: seq<Byte>, h: Host, cbw: Block)
    requires |h.buf| >= CHUNK && RoundRan(script, i, file, h, cbw, |Round(file, h, cbw)|) && ReplyAt(script, i + 1) == YES
    ensures cbw == OKAY + Zeros(0x1FC)
  {
    hide Round, AllAcceptable, Params;
    assert |Round(file, h, cbw)| >= |Opening(cbw)| >= 3;
    YesArrives();
  }

  lemma YesArrives()
    ensures Arrived(CBW_IN, YES) == OKAY + Zeros(0x1FC)
  {
    var bs := OKAY + Zeros(0x1FC);
    assert bs[..0x200] == bs;
  }

  lemma YesNeverStops(script: seq<Reply>, i: nat, file: seq<Byte>, h: Host, cbw: Block, t: nat)
    requires |h.buf| >= CHUNK && forall j :: i <= j < i + 6 ==> ReplyAt(script, j) == YES
    requires 0 < t <= |Round(file, h, cbw)| && RoundRan(script, i, file, h, cbw, t)
    ensures !RoundStopped(script, i, file, h, cbw, t)
  {
    hide DownloadPlan, Word, Acceptable, ReplyAt, AllAcceptable;
    YesArrives();
    var round := Round(file, h, cbw);
    if t < 3 {
      assert round[t - 1] == Opening(cbw)[t - 1];
      YesIsAcceptable(round[t - 1]);
    } else {
      YesMakesRound(script, i, file, h, cbw);
      assert Word(cbw, 8) == 0 by { NoSize(cbw); }
    }
  }

  lemma YesMakesRound(script: seq<Reply>, i: nat, file: seq<Byte>, h: Host, cbw: Block)
    requires |h.buf| >= CHUNK && cbw == OKAY + Zeros(0x1FC) && forall j :: i <= j < i + 6 ==> ReplyAt(script, j) == YES
    ensures Command(cbw) == DOWNLOAD && |Round(file, h, cbw)| == 6 && RoundRan(script, i, file, h, cbw, 6)
    ensures forall k {:trigger Round(file, h, cbw)[k]} :: 0 <= k < 6 ==> Acceptable(Round(file, h, cbw)[k], ReplyAt(script, i + k))
  {
    hide DownloadPlan, Word, Acceptable, AmlsPacket, BufferAfter, Reported;
    assert Word(cbw, 8) == 0 by { NoSize(cbw); }
    var round, image := Round(file, h, cbw), ImageFor(file, h, cbw);
    assert |image| == 0;
    forall k {:trigger round[k]} | 0 <= k < 6
      ensures Acceptable(round[k], YES)
    {
      if k >= 3 {
        PlanAt(Params(cbw), image, h.buf, 0, k - 3);
      } else {
        assert round[k] == Opening(cbw)[k];
      }
      YesIsAcceptable(round[k]);
    }
  }

  lemma NoSize(cbw: Block)
    requires cbw == OKAY + Zeros(0x1FC)
    ensures Word(cbw, 8) == 0
  {
    LeValue4(cbw[8..12]);
  }

  lemma YesIsAcceptable(req: Request)
    requires req.Size() <= 0x200
    ensures Acceptable(req, YES)
  {
  }

  // ---- the host ----

  /** How both senders begin: START, then the command block, if it comes in whole. */
  method Ask(dev: Device) returns (heard: bool, cbw: Block, m: nat)
    requires Quiet(dev)
    modifies dev
    ensures Quiet(dev) && 1 <= m <= 2 && dev.requests == old(dev.requests) + [START, CBW_IN][..m]
    ensures AllAcceptable(dev.script, 0, dev.requests, |old(dev.requests)|, if heard then |dev.requests| else |dev.requests| - 1)
    ensures if heard then m == 2 else !LastAccepted(dev)
    ensures heard ==> cbw == Arrived(CBW_IN, ReplyAt(dev.script, |old(dev.requests)| + 1))
    ensures m > 1 ==> |old(dev.requests)| < |dev.script|
  {
    heard, cbw, m := false, Zeros(0x200), 1;
    var r, _ := Exchange(dev, START);
    if r < 0 {
      return;
    }
    var got, data := Exchange(dev, CBW_IN);
    m := 2;
    if got != 0x200 {
      return;
    }
    heard, cbw := true, data;
  }

  /** _Aml_Libusb_bl2_cmd_parser: START, the command block, and the answer to it. */
  method CmdParser(dev: Device, csw: array<Byte>) returns (ret: int, cmd: int, param: Download, ghost cbw: Block, ghost m: nat)
    requires Quiet(dev) && csw.Length == 16
    modifies dev, csw
    ensures Quiet(dev) && 1 <= m <= 3 && dev.requests == old(dev.requests) + Opening(cbw)[..m]
    ensures m == 3 ==> cbw == Arrived(CBW_IN, ReplyAt(dev.script, |old(dev.requests)| + 1))
    ensures AllAcceptable(dev.script, 0, dev.requests, |old(dev.requests)|, |dev.requests| - 1)
    ensures ret == (match m case 1 => -1070 case 2 => -1079 case _ => if LastAccepted(dev) then 0 else -1118)
    ensures m < 3 ==> !LastAccepted(dev)
    ensures m > 1 ==> |old(dev.requests)| < |dev.script|
    ensures m == 3 ==> cmd == Command(cbw) && (cmd == DOWNLOAD ==> param == Params(cbw))
    ensures m == 3 ==>
      && (cmd == DOWNLOAD <==> cbw[17] == 0 && cbw[16] < 0x80) && (cmd == UNSUPPORTED <==> cbw[17] == 0 && cbw[16] >= 0x80)
      && (cmd == END <==> cbw[17] == 1)
      && (cmd == DOWNLOAD ==>
            && param.seqNum == Word(cbw, 4) && (param.doCksum <==> cbw[16] % 2 == 0)
            && param.dataSize % WORD == Word(cbw, 8) && param.offset % WORD == Word(cbw, 12))
    ensures m == 3 ==>
      dev.requests == old(dev.requests)
        + [ControlOut(0x50, 0x0200, 0, []), BulkIn(0x200),
           BulkOut((if cbw[17] == 1 || (cbw[17] == 0 && cbw[16] < 0x80) then [0x4F, 0x4B, 0x41, 0x59] else [0x46, 0x41, 0x49, 0x4C])
                   + [0, 0, 0, 0, 0, 0, 0, 0, 0, 0, 0, 0])]
  {
    hide Word, Acceptable, ReplyAt;
    CswBytes();
    cmd, param := 0, Download(0, 0, 0, false);
    var heard, data, n := Ask(dev);
    cbw, m := data, n;
    assert Opening(cbw)[..m] == [START, CBW_IN][..m];
    if !heard {
      return if n == 1 then -1070 else -1079, cmd, param, cbw, m;
    }
    if data[17] == 0 {
      cmd := if data[16] < 0x80 then DOWNLOAD else UNSUPPORTED;
    } else if data[17] == 1 {
      cmd := END;
    } else {
      cmd := REPORTED_ERROR;
    }
    m := 3;
    if cmd == DOWNLOAD {
      param := Download(Signed(Word(data, 12)), Signed(Word(data, 8)), Word(data, 4), data[16] % 2 == 0);
      ret := Csw(dev, csw, true, true);
    } else {
      ret := Csw(dev, csw, true, cmd == END);
    }
    assert Opening(cbw)[..3] == [START, CBW_IN][..2] + [CswOut(cmd in {DOWNLOAD, END})];
    ret := if ret != 0 then -1118 else 0;
  }

  /** AllAcceptable over a run that went on with the first t of the given transfers, said of
      those alone. */
  lemma AcceptedInRun(script: seq<Reply>, before: seq<Request>, sent: seq<Request>, t: nat)
    requires t <= |sent| && AllAcceptable(script, 0, before + sent[..t], |before|, |before| + t - 1)
    ensures AllAcceptable(script, |before|, sent, 0, t - 1)
  {
    forall k {:trigger sent[k]} | 0 <= k < t - 1
      ensures Acceptable(sent[k], ReplyAt(script, |before| + k))
    {
      assert (before + sent[..t])[|before| + k] == sent[k];
    }
  }

  /** Two legs of a run in which nothing was refused but perhaps the very last transfer. */
  lemma AcceptedInLegs(script: seq<Reply>, before: seq<Request>, a: seq<Request>, b: seq<Request>)
    requires |a| > 0 && AllAcceptable(script, 0, before + a, |before|, |before + a| - 1)
    requires Acceptable(a[|a| - 1], ReplyAt(script, |before + a| - 1))
    requires AllAcceptable(script, 0, before + a + b, |before + a|, |before + a + b| - 1)
    ensures AllAcceptable(script, 0, before + (a + b), |before|, |before + a + b| - 1)
  {
    hide Acceptable, ReplyAt;
    assert (before + a)[|before + a| - 1] == a[|a| - 1];
    AcceptableGoesOn(script, before + a, b, |before|, |before + a + b| - 1);
    assert before + (a + b) == before + a + b;
  }

  lemma OpeningRan(script: seq<Reply>, before: seq<Request>, file: seq<Byte>, h: Host, cbw: Block, t: nat)
    requires |h.buf| >= CHUNK && t <= 3
    requires t == 3 ==> cbw == Arrived(CBW_IN, ReplyAt(script, |before| + 1))
    requires AllAcceptable(script, 0, before + Opening(cbw)[..t], |before|, |before| + t - 1)
    ensures RoundRan(script, |before|, file, h, cbw, t) && Round(file, h, cbw)[..t] == Opening(cbw)[..t]
    ensures Command(cbw) != DOWNLOAD ==> |Round(file, h, cbw)| == 3
    ensures Command(cbw) == DOWNLOAD ==> |Round(file, h, cbw)| > 3
  {
    hide AllAcceptable, Opening, DownloadPlan, Command;
    assert Round(file, h, cbw)[..t] == Opening(cbw)[..t];
    AcceptedInRun(script, before, Round(file, h, cbw), t);
  }

  lemma DownloadRan(script: seq<Reply>, before: seq<Request>, file: seq<Byte>, h: Host, cbw: Block, m: nat)
    requires |h.buf| >= CHUNK && Command(cbw) == DOWNLOAD && RoundRan(script, |before|, file, h, cbw, 3)
    requires m <= |DownloadPlan(Params(cbw), ImageFor(file, h, cbw), h.buf)|
    requires AllAcceptable(script, 0, before + Opening(cbw), |before|, |before| + 2)
    requires Acceptable(Opening(cbw)[2], ReplyAt(script, |before| + 2))
    requires AllAcceptable(script, 0, before + Opening(cbw) + DownloadPlan(Params(cbw), ImageFor(file, h, cbw), h.buf)[..m],
                           |before| + 3, |before| + 3 + m - 1)
    requires m > 1 && Params(cbw).Size() > 0 ==>
      SeekTo(h.pos, Params(cbw).offset) + UpTo(Params(cbw).Size(), (m + 1) / 3) <= |file|
    ensures RoundRan(script, |before|, file, h, cbw, 3 + m)
    ensures Round(file, h, cbw)[..3 + m] == Opening(cbw) + DownloadPlan(Params(cbw), ImageFor(file, h, cbw), h.buf)[..m]
    ensures |Round(file, h, cbw)| == 3 + |DownloadPlan(Params(cbw), ImageFor(file, h, cbw), h.buf)|
  {
    hide AllAcceptable, Acceptable, AllAcceptable, Opening, DownloadPlan, ImageFor, UpTo;
    var plan := DownloadPlan(Params(cbw), ImageFor(file, h, cbw), h.buf);
    AcceptedInLegs(script, before, Opening(cbw), plan[..m]);
    assert Round(file, h, cbw)[..3 + m] == Opening(cbw) + plan[..m];
    AcceptedInRun(script, before, Round(file, h, cbw), 3 + m);
  }

  /** The body of the boot loop: one round, or what there is of it. (Its check for an unknown
      command code is left out: the parser only yields the four codes above.) */
  method RunRound(dev: Device, s: Session) returns (ret: int, again: bool, ghost cbw: Block, ghost t: nat)
    requires Quiet(dev) && s.Valid()
    modifies dev, s, s.buf, s.csw
    ensures var h := Host(old(s.pos), old(s.buf[..]));
            && Quiet(dev) && 0 < t <= |Round(s.file, h, cbw)|
            && RoundRan(dev.script, |old(dev.requests)|, s.file, h, cbw, t)
            && dev.requests == old(dev.requests) + Round(s.file, h, cbw)[..t]
            && (again <==> Command(cbw) == DOWNLOAD && t == |Round(s.file, h, cbw)|)
            && (again ==> Host(s.pos, s.buf[..]) == HostAfter(s.file, h, cbw))
    ensures !again ==> ret == if t > 3 then -1188 else if LastAccepted(dev) then 0 else -1173
    ensures ret == 0 && !again ==> t == 3 && Command(cbw) != DOWNLOAD
    ensures !again ==> RoundStopped(dev.script, |old(dev.requests)|, s.file, Host(old(s.pos), old(s.buf[..])), cbw, t)
    ensures again ==> |old(dev.requests)| < |dev.script|
  {
    hide Acceptable, AllAcceptable, RoundRan, Round, DownloadPlan, Image, BufferEnd, Verdict, Command, Params, Opening, ReplyAt, UpTo;
    ghost var before, h := dev.requests, Host(s.pos, s.buf[..]);
    var cmd, param;
    ret, cmd, param, cbw, t := CmdParser(dev, s.csw);
    OpeningRan(dev.script, before, s.file, h, cbw, t);
    if ret != 0 {
      return -1173, false, cbw, t;
    }
    if cmd > UNSUPPORTED {
      return 0, false, cbw, t;
    }
    if cmd != DOWNLOAD {
      return ret, false, cbw, t;
    }
    assert Opening(cbw)[..3] == Opening(cbw);
    s.Seek(param.offset);
    ghost var m;
    ret, m := SecureDownload(dev, s, param);
    t := 3 + m;
    DownloadRan(dev.script, before, s.file, h, cbw, m);
    if ret != 0 {
      return -1188, false, cbw, t;
    }
    return 0, true, cbw, t;
  }

  lemma NoRounds(script: seq<Reply>, i: nat, file: seq<Byte>, h: Host)
    requires |h.buf| >= CHUNK
    ensures RoundsRan(script, i, file, h, []) && Rounds(file, h, []) == [] && HostAfterAll(file, h, []) == h
  {
  }

  lemma OneMoreRound(script: seq<Reply>, i: nat, file: seq<Byte>, h: Host, cbws: seq<Block>, cbw: Block)
    requires |h.buf| >= CHUNK
    ensures var now := HostAfterAll(file, h, cbws);
            && Rounds(file, h, cbws + [cbw]) == Rounds(file, h, cbws) + Round(file, now, cbw)
            && HostAfterAll(file, h, cbws + [cbw]) == HostAfter(file, now, cbw)
            && (RoundsRan(script, i, file, h, cbws + [cbw]) <==>
                  && RoundsRan(script, i, file, h, cbws) && Command(cbw) == DOWNLOAD
                  && RoundRan(script, i + |Rounds(file, h, cbws)|, file, now, cbw, |Round(file, now, cbw)|))
  {
    hide RoundRan, Round, HostAfter, Command;
    assert (cbws + [cbw])[..|cbws|] == cbws;
  }

  /** Aml_Libusb_bl2_boot, with the file open: some whole rounds, one for each START that the
      device accepts, then the first t transfers of one more, all within the protocol. The code
      puts no bound on the rounds; this loop ends because past the end of the script every
      transfer fails. */
  method Boot(dev: Device, s: Session) returns (ret: int, ghost cbws: seq<Block>, ghost cbw: Block, ghost t: nat)
    requires Quiet(dev) && s.Valid()
    modifies dev, s, s.buf, s.csw
    ensures Quiet(dev)
    ensures var i, h := |old(dev.requests)|, Host(old(s.pos), old(s.buf[..]));
            var whole, now := Rounds(s.file, h, cbws), HostAfterAll(s.file, h, cbws);
            && RoundsRan(dev.script, i, s.file, h, cbws)
            && t <= |Round(s.file, now, cbw)| && RoundRan(dev.script, i + |whole|, s.file, now, cbw, t)
            && dev.requests == old(dev.requests) + whole + Round(s.file, now, cbw)[..t]
            && Watched(dev.script, i, Ready, dev.requests[i..]) != Broken
            && t > 0 && RoundStopped(dev.script, i + |whole|, s.file, now, cbw, t)
    ensures forall j {:trigger dev.requests[j]} ::
              |old(dev.requests)| <= j < |dev.requests| - 2 && dev.requests[j] == ControlOut(0x50, 0x0200, 0, []) ==>
              var block := Padded(ReplyAt(dev.script, j + 1).data, 0x200);
              && dev.requests[j + 1] == BulkIn(0x200)
              && dev.requests[j + 2] == BulkOut((if block[17] == 1 || (block[17] == 0 && block[16] < 0x80)
                                                 then [0x4F, 0x4B, 0x41, 0x59] else [0x46, 0x41, 0x49, 0x4C])
                                                + [0, 0, 0, 0, 0, 0, 0, 0, 0, 0, 0, 0])
              && (j + 3 < |dev.requests| ==> block[17] == 0 && block[16] < 0x80)
    ensures t > 0 && ret == if t > 3 then -1188 else if LastAccepted(dev) then 0 else -1173
    ensures ret == 0 ==> t == 3 && Command(cbw) != DOWNLOAD
    ensures var i, h := |old(dev.requests)|, Host(old(s.pos), old(s.buf[..]));
            var last := i + |Rounds(s.file, h, cbws)|;
            AcceptedStarts(dev.script, i, dev.requests[i..]) == |cbws| + if Acceptable(START, ReplyAt(dev.script, last)) then 1 else 0
  {
    hide RoundStopped, AcceptedStarts, ReplyAt, Acceptable, RoundRan, RoundsRan, Round, Rounds, HostAfter, HostAfterAll, Watched, Command;
    ghost var before, h := dev.requests, Host(s.pos, s.buf[..]);
    cbws := [];
    NoRounds(dev.script, |before|, s.file, h);
    while true
      invariant Quiet(dev)
      invariant Host(s.pos, s.buf[..]) == HostAfterAll(s.file, h, cbws)
      invariant dev.requests == before + Rounds(s.file, h, cbws)
      invariant RoundsRan(dev.script, |before|, s.file, h, cbws)
      decreases |dev.script| - |dev.requests|
    {
      ghost var now := HostAfterAll(s.file, h, cbws);
      var again;
      ret, again, cbw, t := RunRound(dev, s);
      ghost var round := Round(s.file, now, cbw);
      if !again {
        RunIsLegal(dev.script, |before|, s.file, h, cbws, cbw, t);
        RoundsAreStarts(dev.script, |before|, s.file, h, cbws);
        RoundStarts(dev.script, |before| + |Rounds(s.file, h, cbws)|, s.file, now, cbw, t);
        StartsSplit(dev.script, |before|, Rounds(s.file, h, cbws), round[..t]);
        assert dev.requests[|before|..] == Rounds(s.file, h, cbws) + round[..t];
        LogIsAnswered(dev.script, dev.requests, |before|);
        return;
      }
      assert round[..t] == round;
      OneMoreRound(dev.script, |before|, s.file, h, cbws, cbw);
      cbws := cbws + [cbw];
    }
  }
}
