/** The mwrite command: announce a download, check the status, send the file, ask for the status
    again and have it verified. */
module Mwrite {
  import opened Bytes
  import opened Link
  import opened Chunks
  import opened Polling
  import Media
  import opened MediaFile

  const SUCCESS := Ascii("success")

  // ---- bulk commands ----

  function BulkCmdRequest(cmd: seq<Byte>): Request
    requires |cmd| == 68
  {
    ControlOut(AM_REQ_BULKCMD, 0, 2, cmd[..64])
  }

  /** A bulk command took 1 + n transfers, n of them polls. */
  ghost predicate BulkCmdRan(script: seq<Reply>, i: nat, n: nat) {
    if n == 0 then ReplyAt(script, i).code < 0
    else ReplyAt(script, i).code >= 0 && Polled(BULKCMD_POLL, script, i + 1, n)
  }

  /** It succeeded: after "Continue:34" any number of times, in time, came a reply of at least
      eleven bytes that begins with "success". */
  predicate BulkCmdSucceeded(script: seq<Reply>, i: nat, n: nat) {
    n > 0 && Says(BULKCMD_POLL, ReplyAt(script, i + n), SUCCESS)
  }

  /** IOCTL_BULK_CMD_Handler */
  method IoctlBulkCmd(dev: Device, inBuf: seq<Byte>) returns (ok: bool)
    requires Quiet(dev)
    modifies dev
    ensures Quiet(dev)
    ensures |inBuf| != 68 ==> !ok && dev.requests == old(dev.requests)
    ensures |inBuf| == 68 ==>
      && dev.requests == old(dev.requests) + [BulkCmdRequest(inBuf)]
      && ok == (ReplyAt(dev.script, |old(dev.requests)|).code >= 0)
  {
    hide ReplyAt;
    if |inBuf| != 68 {
      return false;
    }
    var r, _ := Talk(dev, ControlOut(AM_REQ_BULKCMD, 0, 2, inBuf[..64]));
    ok := r >= 0;
  }

  /** AmlUsbBulkCmd, on an open device: it returns 0 exactly if the command succeeded. */
  method BulkCmd(dev: Device, cmd: seq<Byte>) returns (ret: int, ghost n: nat)
    requires Quiet(dev)
    modifies dev
    ensures Quiet(dev) && ret in {0, -2}
    ensures |cmd| != 68 ==> ret == -2 && dev.requests == old(dev.requests)
    ensures |cmd| == 68 ==>
      && dev.requests == old(dev.requests) + ([BulkCmdRequest(cmd)] + Polls(BULKCMD_POLL, n))
      && BulkCmdRan(dev.script, |old(dev.requests)|, n)
      && (ret == 0 <==> BulkCmdSucceeded(dev.script, |old(dev.requests)|, n))
  {
    hide ReplyAt, Result, Polled;
    n := 0;
    var ok := IoctlBulkCmd(dev, cmd);
    if !ok {
      return -2, n;
    }
    var buf := new Byte[0x200](_ => 0);
    var success := true;
    var r;
    r, n := PollLoop(dev, BULKCMD_POLL, buf);
    if r < |BULKCMD_POLL.busy| {
      success := false;
    }
    if success {
      ghost var last := ReplyAt(dev.script, |old(dev.requests)| + n);
      ResultIsMoved(BULKCMD_POLL.Request(), last);
      PrefixOf(Arrived(BULKCMD_POLL.Request(), last), buf[..], SUCCESS);
      success := SUCCESS <= buf[..];
    }
    ret := if success then 0 else -2;
  }

  lemma PrefixOf(data: seq<Byte>, buf: seq<Byte>, word: seq<Byte>)
    requires |word| <= |data| && data <= buf
    ensures word <= buf <==> word <= data
  {
    assert buf[..|word|] == data[..|word|];
  }

  // ---- the packets ----

  /** GET_U16(&bs[at]) */
  function Half(bs: seq<Byte>, at: nat): U16
    requires at + 2 <= |bs|
  {
    LeValue(bs[at..at + 2]) % 0x1_0000
  }

  function Hex(n: nat): (digits: seq<Byte>)
    ensures |digits| > 0
  {
    (if n < 16 then [] else Hex(n / 16)) + Ascii("0123456789ABCDEF")[n % 16..n % 16 + 1]
  }

  /** "download", the three arguments, and the file size. */
  function DownloadText(args: (seq<Byte>, seq<Byte>, seq<Byte>), fileSize: nat): seq<Byte> {
    Ascii("download ") + args.0 + Ascii(" ") + args.1 + Ascii(" ") + args.2 + Ascii(" 0x") + Hex(fileSize)
  }

  /** The value of hexadecimal digits. */
  function HexValue(digits: seq<Byte>): int {
    if digits == [] then 0
    else
      var last := digits[|digits| - 1];
      16 * HexValue(digits[..|digits| - 1]) + if last < 0x40 then last as int - 0x30 else last as int - 0x37
  }

  lemma {:induction false} HexReadsBack(n: nat)
    ensures HexValue(Hex(n)) == n
    ensures forall d :: d in Hex(n) ==> 0x30 <= d <= 0x39 || 0x41 <= d <= 0x46
    ensures n > 0 ==> Hex(n)[0] != 0x30
  {
    var digits := Hex(n);
    var last := HexDigit(n % 16);
    if n < 16 {
      assert digits == [last];
      assert HexValue([]) == 0;
      assert digits[..0] == [];
    } else {
      HexReadsBack(n / 16);
      assert digits == Hex(n / 16) + [last] && digits[..|digits| - 1] == Hex(n / 16);
    }
  }

  /** A digit of 0 to F as a character. */
  lemma HexDigit(d: nat) returns (c: Byte)
    requires d < 16
    ensures Ascii("0123456789ABCDEF")[d..d + 1] == [c]
    ensures c == if d < 10 then d + 0x30 else d + 0x37
  {
    var table := Ascii("0123456789ABCDEF");
    c := table[d];
    match d {
      case 0 =>
      case 1 =>
      case 2 =>
      case 3 =>
      case 4 =>
      case 5 =>
      case 6 =>
      case 7 =>
      case 8 =>
      case 9 =>
      case 10 =>
      case 11 =>
      case 12 =>
      case 13 =>
      case 14 =>
      case _ =>
    }
  }

  /** The text: the word, the three arguments, and digits that read back as the file size. */
  lemma TextReadsBack(args: (seq<Byte>, seq<Byte>, seq<Byte>), fileSize: nat) returns (digits: seq<Byte>)
    ensures DownloadText(args, fileSize) ==
              [0x64, 0x6F, 0x77, 0x6E, 0x6C, 0x6F, 0x61, 0x64, 0x20] + args.0 + [0x20] + args.1 + [0x20] + args.2 + [0x20, 0x30, 0x78] + digits
    ensures HexValue(digits) == fileSize && (fileSize > 0 ==> digits != [] && digits[0] != 0x30)
    ensures forall d :: d in digits ==> 0x30 <= d <= 0x39 || 0x41 <= d <= 0x46
  {
    hide Hex, HexValue;
    digits := Hex(fileSize);
    HexReadsBack(fileSize);
    assert Ascii("download ") == [0x64, 0x6F, 0x77, 0x6E, 0x6C, 0x6F, 0x61, 0x64, 0x20];
    assert Ascii(" ") == [0x20] && Ascii(" 0x") == [0x20, 0x30, 0x78];
  }

  /** A text in the 128-byte buffer, cut to leave room for the NUL, with byte 66 set. */
  function Packet(text: seq<Byte>): (buf: seq<Byte>)
    ensures |buf| == 128
  {
    Padded(text[..Min(|text|, 127)], 128)[66 := 1]
  }

  function TplRequest(cmd: seq<Byte>): Request
    requires |cmd| == 68
  {
    ControlOut(AM_REQ_TPL_CMD, Half(cmd, 64), Half(cmd, 66), cmd[..64])
  }

  /** The parameters of the command are cut out of the same buffer: they come out as 0 and 1
      exactly as long as the text fits the 64 bytes that are sent. */
  lemma ParametersAreClean(text: seq<Byte>)
    requires forall k :: 0 <= k < |text| ==> text[k] != 0
    ensures var req := TplRequest(Packet(text)[..68]);
            (req.value == 0 && req.index == 1) <==> |text| <= 64
  {
    hide LeValue;
    var cmd := Packet(text)[..68];
    assert cmd[64..66] == [cmd[64], cmd[65]] && cmd[66..68] == [cmd[66], cmd[67]];
    LeValue2(cmd[64], cmd[65]);
    LeValue2(cmd[66], cmd[67]);
    if |text| > 64 {
      assert cmd[64] == text[64];
    }
  }

  const STATUS := ControlIn(AM_REQ_TPL_STAT, 0, 0, 64)

  /** The buffer after the status was read into it. */
  function StatusBuffer(reply: Reply): (buf: seq<Byte>)
    ensures |buf| == 128
  {
    Padded(Arrived(STATUS, reply), 128)
  }

  /** The text of the last command is laid over what the status left in the buffer. */
  function GetStatusPacket(status: seq<Byte>): (buf: seq<Byte>)
    requires |status| == 128
    ensures |buf| == 128
  {
    (Ascii("download get_status") + [0] + status[20..])[66 := 1]
  }

  function VerifyPacket(content: seq<Byte>): (buf: seq<Byte>)
    ensures |buf| == 128
  {
    Padded(Ascii("verify ") + content[..Min(|content|, 0x79)], 128)[66 := 1]
  }

  /** The requests in numbers. The command's first 64 bytes go out, with what else of the text
      there is in the parameters. */
  lemma TplInNumbers(text: seq<Byte>)
    ensures var req := TplRequest(Packet(text)[..68]);
            && req.ControlOut? && req.request == 0x30 && |req.data| == 64
            && (forall k :: 0 <= k < 64 ==> req.data[k] == if k < |text| then text[k] else 0)
            && (|text| <= 64 ==> req.value == 0 && req.index == 1)
  {
    hide LeValue;
    var cmd := Packet(text)[..68];
    assert cmd[64..66] == [cmd[64], cmd[65]] && cmd[66..68] == [cmd[66], cmd[67]];
    LeValue2(cmd[64], cmd[65]);
    LeValue2(cmd[66], cmd[67]);
  }

  lemma BulkCmdsInNumbers(status: seq<Byte>, content: seq<Byte>)
    requires |status| == 128
    ensures var req := BulkCmdRequest(GetStatusPacket(status)[..68]);
            && req.ControlOut? && req.request == 0x34 && req.value == 0 && req.index == 2
            && req.data == [0x64, 0x6F, 0x77, 0x6E, 0x6C, 0x6F, 0x61, 0x64, 0x20,
                            0x67, 0x65, 0x74, 0x5F, 0x73, 0x74, 0x61, 0x74, 0x75, 0x73, 0] + status[20..64]
    ensures var req := BulkCmdRequest(VerifyPacket(content)[..68]);
            && req.ControlOut? && req.request == 0x34 && req.value == 0 && req.index == 2 && |req.data| == 64
            && req.data[..7] == [0x76, 0x65, 0x72, 0x69, 0x66, 0x79, 0x20]
            && forall k :: 7 <= k < 64 ==> req.data[k] == if k - 7 < |content| then content[k - 7] else 0
  {
    var word: seq<Byte> := [0x64, 0x6F, 0x77, 0x6E, 0x6C, 0x6F, 0x61, 0x64, 0x20, 0x67, 0x65, 0x74, 0x5F,
                            0x73, 0x74, 0x61, 0x74, 0x75, 0x73];
    assert Ascii("download get_status") == word;
    TailOfStatus(word + [0], status);
    var verify: seq<Byte> := [0x76, 0x65, 0x72, 0x69, 0x66, 0x79, 0x20];
    assert Ascii("verify ") == verify;
    VerifyBytes(verify, content);
  }

  lemma VerifyBytes(word: seq<Byte>, content: seq<Byte>)
    requires |word| == 7
    ensures var data := Padded(word + content[..Min(|content|, 0x79)], 128)[66 := 1][..68][..64];
            data[..7] == word && forall k :: 7 <= k < 64 ==> data[k] == if k - 7 < |content| then content[k - 7] else 0
  {
    var front := word + content[..Min(|content|, 0x79)];
    var packet := Padded(front, 128);
    var data := packet[66 := 1][..68][..64];
    assert data == packet[..64];
    forall k | 0 <= k < 64
      ensures packet[k] == if k < |front| then front[k] else 0
    {
      PaddedAt(front, 128, k);
    }
    assert data[..7] == word;
    forall k | 7 <= k < 64
      ensures data[k] == if k - 7 < |content| then content[k - 7] else 0
    {
      assert data[k] == packet[k];
    }
  }

  lemma PaddedAt(bs: seq<Byte>, n: nat, k: nat)
    requires k < n
    ensures Padded(bs, n)[k] == if k < |bs| then bs[k] else 0
  {
  }

  lemma TailOfStatus(front: seq<Byte>, status: seq<Byte>)
    requires |front| == 20 && |status| == 128
    ensures (front + status[20..])[66 := 1][..68][..64] == front + status[20..64]
  {
  }

  /** The status as it lies in the buffer. */
  lemma StatusInNumbers(reply: Reply)
    ensures STATUS == ControlIn(0x31, 0, 0, 64)
    ensures forall k :: 0 <= k < 128 ==>
              StatusBuffer(reply)[k] == if k < 64 && k < reply.count && k < |reply.data| then reply.data[k] else 0
    ensures SUCCESS <= StatusBuffer(reply) <==> reply.count >= 7 && [0x73, 0x75, 0x63, 0x63, 0x65, 0x73, 0x73] <= reply.data
  {
    var word: seq<Byte> := [0x73, 0x75, 0x63, 0x63, 0x65, 0x73, 0x73];
    assert SUCCESS == word;
    StartsWith(Arrived(STATUS, reply), 128, word);
    if reply.count >= 7 {
      StartsWith(reply.data, Min(reply.count, 64), word);
    }
  }

  /** A bulk command succeeds exactly if its last reply, in time, is at least eleven bytes long and
      begins with "success". */
  lemma SucceededInNumbers(script: seq<Reply>, i: nat, n: nat)
    ensures BulkCmdSucceeded(script, i, n) <==>
              && n > 0 && ReplyAt(script, i + n).code in {0, -7} && ReplyAt(script, i + n).count >= 11
              && [0x73, 0x75, 0x63, 0x63, 0x65, 0x73, 0x73] <= ReplyAt(script, i + n).data
  {
    hide Says;
    assert SUCCESS == [0x73, 0x75, 0x63, 0x63, 0x65, 0x73, 0x73];
    SaysIs(BULKCMD_POLL, ReplyAt(script, i + n), SUCCESS);
  }

  // ---- reference: a run of the command ----

  /** The file with the verification data: not asked for, not to be opened, or there. */
  datatype Verify = NoVerify | Unreadable | Content(bytes: seq<Byte>)

  /** Where the command was left. */
  datatype Exit =
    | EmptyFile | CmdRefused | StatusFailed | StatusBad | MediaFailed
    | GetStatusFailed | VerifyUnreadable | VerifyFailed | Success

  /** The return code; 0 does not mean success. */
  function Code(exit: Exit): int {
    match exit
    case EmptyFile => -103
    case CmdRefused => 0
    case StatusFailed => -300
    case StatusBad => -307
    case MediaFailed => -314
    case GetStatusFailed => -328
    case VerifyUnreadable => 0
    case VerifyFailed => -354
    case Success => 0
  }

  function BulkTransfers(packet: seq<Byte>, n: nat): (reqs: seq<Request>)
    requires |packet| == 128
    ensures |reqs| == 1 + n
  {
    [BulkCmdRequest(packet[..68])] + Polls(BULKCMD_POLL, n)
  }

  /** The lengths of the variable parts: the attempts at each chunk, and the polls of the two
      bulk commands. */
  datatype Parts = Parts(runs: seq<Media.Tries>, n: nat, v: nat)

  /** What the user asked for. */
  datatype Job = Job(text: seq<Byte>, image: seq<Byte>, verify: Verify)

  predicate Fits(job: Job, runs: seq<Media.Tries>) {
    |runs| <= ChunkCount(|job.image|)
  }

  /** The transfers up to the end of the file. */
  function UpToMedia(job: Job, runs: seq<Media.Tries>): seq<Request>
    requires Fits(job, runs)
  {
    [TplRequest(Packet(job.text)[..68]), STATUS] + FileRun(job.image, runs)
  }

  function UpToGetStatus(script: seq<Reply>, i: nat, job: Job, runs: seq<Media.Tries>, n: nat): seq<Request>
    requires Fits(job, runs)
  {
    UpToMedia(job, runs) + BulkTransfers(GetStatusPacket(StatusBuffer(ReplyAt(script, i + 1))), n)
  }

  /** Everything sent by a run that was left at the given place. */
  function Log(script: seq<Reply>, i: nat, job: Job, p: Parts, exit: Exit): seq<Request>
    requires Fits(job, p.runs)
  {
    match exit
    case EmptyFile => []
    case CmdRefused => [TplRequest(Packet(job.text)[..68])]
    case StatusFailed => [TplRequest(Packet(job.text)[..68]), STATUS]
    case StatusBad => [TplRequest(Packet(job.text)[..68]), STATUS]
    case MediaFailed => UpToMedia(job, p.runs)
    case GetStatusFailed => UpToGetStatus(script, i, job, p.runs, p.n)
    case VerifyUnreadable => UpToGetStatus(script, i, job, p.runs, p.n)
    case _ =>
      UpToGetStatus(script, i, job, p.runs, p.n)
      + if job.verify.Content? then BulkTransfers(VerifyPacket(job.verify.bytes), p.v) else []
  }

  lemma {:induction false} PollsAt(poll: Poll, n: nat, k: nat)
    requires k < n
    ensures Polls(poll, n)[k] == BulkIn(poll.size)
  {
    if k < n - 1 {
      PollsAt(poll, n - 1, k);
    }
  }

  /** The log in numbers, up to the end of the file: the command, the status and the media download,
      as far as the run came. */
  lemma LogInNumbers(script: seq<Reply>, i: nat, job: Job, p: Parts, exit: Exit)
    requires Fits(job, p.runs)
    ensures var log, sent, early := Log(script, i, job, p, exit), FileRun(job.image, p.runs), {CmdRefused, StatusFailed, StatusBad};
            && (exit == EmptyFile ==> log == [])
            && (exit != EmptyFile ==> |log| > 0 && log[0].ControlOut? && log[0].request == 0x30)
            && (exit !in {EmptyFile, CmdRefused} ==> |log| > 1 && log[1] == ControlIn(0x31, 0, 0, 64))
            && (exit in early ==> |log| == if exit == CmdRefused then 1 else 2)
            && (exit !in early + {EmptyFile} ==> |log| >= 2 + |sent| && log[2..2 + |sent|] == sent)
            && (exit == MediaFailed ==> |log| == 2 + |sent|)
  {
    hide FileRun, TplRequest, Packet, StatusBuffer, BulkCmdRequest, GetStatusPacket, VerifyPacket, Polls, ReplyAt;
    TplInNumbers(job.text);
  }

  /** ... and from there on: the second status command with its n polls, and the verification with
      its v polls. */
  lemma LogEndInNumbers(script: seq<Reply>, i: nat, job: Job, p: Parts, exit: Exit) returns (a: seq<Request>, b: seq<Request>)
    requires Fits(job, p.runs) && exit in {GetStatusFailed, VerifyUnreadable, VerifyFailed, Success}
    ensures Log(script, i, job, p, exit) == UpToMedia(job, p.runs) + a + b
    ensures |a| == 1 + p.n && a[0].ControlOut? && a[0].request == 0x34 && forall k :: 1 <= k < |a| ==> a[k] == BulkIn(0x200)
    ensures |a[0].data| == 64 && a[0].data[..9] == [0x64, 0x6F, 0x77, 0x6E, 0x6C, 0x6F, 0x61, 0x64, 0x20]
    ensures exit in {GetStatusFailed, VerifyUnreadable} || !job.verify.Content? ==> b == []
    ensures exit in {VerifyFailed, Success} && job.verify.Content? ==>
      && |b| == 1 + p.v && b[0].ControlOut? && b[0].request == 0x34 && (forall k :: 1 <= k < |b| ==> b[k] == BulkIn(0x200))
      && |b[0].data| == 64 && b[0].data[..7] == [0x76, 0x65, 0x72, 0x69, 0x66, 0x79, 0x20]
  {
    hide FileRun, TplRequest, Packet, StatusBuffer, BulkCmdRequest, GetStatusPacket, VerifyPacket, Polls, ReplyAt, UpToMedia, BulkTransfers;
    var status := StatusBuffer(ReplyAt(script, i + 1));
    a, b := BulkTransfers(GetStatusPacket(status), p.n), [];
    BulkCmdsInNumbers(status, if job.verify.Content? then job.verify.bytes else []);
    TransfersInNumbers(GetStatusPacket(status), p.n);
    if exit in {VerifyFailed, Success} && job.verify.Content? {
      b := BulkTransfers(VerifyPacket(job.verify.bytes), p.v);
      TransfersInNumbers(VerifyPacket(job.verify.bytes), p.v);
    }
  }

  lemma TransfersInNumbers(packet: seq<Byte>, n: nat)
    requires |packet| == 128
    ensures BulkTransfers(packet, n)[0] == BulkCmdRequest(packet[..68])
    ensures forall k :: 1 <= k <= n ==> BulkTransfers(packet, n)[k] == BulkIn(0x200)
  {
    forall k | 1 <= k <= n
      ensures BulkTransfers(packet, n)[k] == BulkIn(0x200)
    {
      PollsAt(BULKCMD_POLL, n, k - 1);
    }
  }

  // The conditions to pass, in this order.

  predicate Accepted(script: seq<Reply>, i: nat) {
    ReplyAt(script, i).code >= 0
  }

  predicate StatusOk(script: seq<Reply>, i: nat) {
    SUCCESS <= StatusBuffer(ReplyAt(script, i + 1))
  }

  /** Every chunk of the file was acknowledged. */
  predicate MediaSent(script: seq<Reply>, i: nat, job: Job, p: Parts)
    requires Fits(job, p.runs)
  {
    |p.runs| == ChunkCount(|job.image|) && (p.runs != [] ==> LastAcked(script, i + 2, job.image, p.runs))
  }

  predicate GetStatusOk(script: seq<Reply>, i: nat, job: Job, p: Parts)
    requires Fits(job, p.runs)
  {
    BulkCmdSucceeded(script, i + |UpToMedia(job, p.runs)|, p.n)
  }

  predicate VerifyOk(script: seq<Reply>, i: nat, job: Job, p: Parts)
    requires Fits(job, p.runs)
  {
    job.verify.NoVerify? ||
    (job.verify.Content? && BulkCmdSucceeded(script, i + |UpToGetStatus(script, i, job, p.runs, p.n)|, p.v))
  }

  /** The download and the bulk commands, as far as they were come to, ran their course. */
  ghost predicate PartsRan(script: seq<Reply>, i: nat, job: Job, p: Parts, exit: Exit)
    requires Fits(job, p.runs)
  {
    var early := {EmptyFile, CmdRefused, StatusFailed, StatusBad};
    && (exit !in early ==> FileRan(script, i + 2, job.image, p.runs))
    && (exit !in early + {MediaFailed} ==> BulkCmdRan(script, i + |UpToMedia(job, p.runs)|, p.n))
    && (exit in {VerifyFailed, Success} && job.verify.Content? ==> BulkCmdRan(script, i + |UpToGetStatus(script, i, job, p.runs, p.n)|, p.v))
  }

  /** The first condition that was not met, if any. */
  function FirstFailure(script: seq<Reply>, i: nat, job: Job, p: Parts): Exit
    requires Fits(job, p.runs)
  {
    if job.image == [] then EmptyFile
    else if !Accepted(script, i) then CmdRefused
    else if !Accepted(script, i + 1) then StatusFailed
    else if !StatusOk(script, i) then StatusBad
    else if !MediaSent(script, i, job, p) then MediaFailed
    else if !GetStatusOk(script, i, job, p) then GetStatusFailed
    else if job.verify.Unreadable? then VerifyUnreadable
    else if !VerifyOk(script, i, job, p) then VerifyFailed
    else Success
  }

  /** Every chunk was acknowledged exactly if the whole file was. */
  lemma MediaSentIs(script: seq<Reply>, i: nat, job: Job, p: Parts)
    requires Fits(job, p.runs) && FileRan(script, i + 2, job.image, p.runs)
    ensures MediaSent(script, i, job, p) <==> Watched(script, i + 2, START, FileRun(job.image, p.runs)).delivered == job.image
    ensures MediaSent(script, i, job, p) ==> Watched(script, i + 2, START, FileRun(job.image, p.runs)) == Delivery(job.image, 0, Ready)
  {
    hide FileRun, FileRan, LastAcked, Watched, AckedChunks, ChunkCount;
    FileWatched(script, i + 2, job.image, p.runs);
    AckedIs(script, i + 2, job.image, p.runs);
    EverythingSent(|job.image|);
    assert job.image[..|job.image|] == job.image;
    var acked := UpTo(|job.image|, AckedChunks(script, i + 2, job.image, p.runs));
    assert |job.image[..acked]| == acked;
    EndsAt(|job.image|, AckedChunks(script, i + 2, job.image, p.runs));
  }

  /** The early exits in numbers. */
  lemma EarlyExits(script: seq<Reply>, i: nat, job: Job, p: Parts)
    requires Fits(job, p.runs)
    ensures var exit, a, b := FirstFailure(script, i, job, p), ReplyAt(script, i), ReplyAt(script, i + 1);
            && (exit == EmptyFile <==> job.image == [])
            && (exit == CmdRefused <==> job.image != [] && a.code < 0)
            && (exit == StatusFailed <==> job.image != [] && a.code >= 0 && b.code < 0)
            && (exit == StatusBad <==>
                  job.image != [] && a.code >= 0 && b.code >= 0
                  && !(b.count >= 7 && [0x73, 0x75, 0x63, 0x63, 0x65, 0x73, 0x73] <= b.data))
  {
    hide ReplyAt, MediaSent, GetStatusOk, VerifyOk;
    StatusInNumbers(ReplyAt(script, i + 1));
  }

  /** The other exits: whether the whole file was acknowledged, and how the bulk commands ended. */
  lemma LateExits(script: seq<Reply>, i: nat, job: Job, p: Parts)
    requires Fits(job, p.runs) && PartsRan(script, i, job, p, FirstFailure(script, i, job, p))
    requires FirstFailure(script, i, job, p) !in {EmptyFile, CmdRefused, StatusFailed, StatusBad}
    ensures var exit, sent := FirstFailure(script, i, job, p), FileRun(job.image, p.runs);
            var g := i + 2 + |sent|;
            && (exit == MediaFailed <==> Watched(script, i + 2, START, sent).delivered != job.image)
            && (exit != MediaFailed ==>
                  && (exit == GetStatusFailed <==> !Succeeded(script, g, p.n))
                  && (exit == VerifyUnreadable <==> Succeeded(script, g, p.n) && job.verify.Unreadable?)
                  && (exit == VerifyFailed <==> Succeeded(script, g, p.n) && job.verify.Content? && !Succeeded(script, g + 1 + p.n, p.v)))
  {
    hide ReplyAt, FileRun, FileRan, LastAcked, Watched, BulkCmdSucceeded, BulkCmdRan, MediaSent, Accepted, StatusOk, Succeeded;
    var g := i + 2 + |FileRun(job.image, p.runs)|;
    MediaSentIs(script, i, job, p);
    BulkOk(script, g, p.n);
    BulkOk(script, g + 1 + p.n, p.v);
  }

  lemma BulkOk(script: seq<Reply>, i: nat, n: nat)
    ensures BulkCmdSucceeded(script, i, n) <==> Succeeded(script, i, n)
  {
    SucceededInNumbers(script, i, n);
  }

  /** The bulk command that is transfer number i, with n polls, ended with a reply of at least eleven
      bytes that begins with "success". */
  predicate Succeeded(script: seq<Reply>, i: nat, n: nat) {
    && n > 0 && ReplyAt(script, i + n).code in {0, -7} && ReplyAt(script, i + n).count >= 11
    && [0x73, 0x75, 0x63, 0x63, 0x65, 0x73, 0x73] <= ReplyAt(script, i + n).data
  }

  /** What a success message means: the device acknowledged the whole file, in order, between a
      status that began with "success" and a later bulk command that succeeded; and so did the
      verification, if there is one. */
  lemma SuccessMeansDelivered(script: seq<Reply>, i: nat, job: Job, p: Parts)
    requires Fits(job, p.runs) && FirstFailure(script, i, job, p) == Success && PartsRan(script, i, job, p, Success)
    ensures ReplyAt(script, i).code >= 0 && ReplyAt(script, i + 1).code >= 0
    ensures ReplyAt(script, i + 1).count >= 7 && [0x73, 0x75, 0x63, 0x63, 0x65, 0x73, 0x73] <= ReplyAt(script, i + 1).data
    ensures Watched(script, i + 2, START, FileRun(job.image, p.runs)) == Delivery(job.image, 0, Ready)
    ensures var g := i + 2 + |FileRun(job.image, p.runs)|;
            && Polled(BULKCMD_POLL, script, g + 1, p.n) && Succeeded(script, g, p.n)
            && (job.verify.NoVerify? || Succeeded(script, g + 1 + p.n, p.v))
  {
    hide ReplyAt, FileRun, FileRan, LastAcked, Watched, Says, Polled, MediaSent, Succeeded;
    MediaSentIs(script, i, job, p);
    EarlyExits(script, i, job, p);
    LateExits(script, i, job, p);
  }

  // ---- the host ----

  /** IOCTL_TPL_CMD_Handler and AmlUsbTplCmd */
  method TplCmd(dev: Device, cmd: seq<Byte>) returns (ret: int)
    requires Quiet(dev)
    modifies dev
    ensures Quiet(dev) && ret in {0, -2}
    ensures |cmd| != 68 ==> ret == -2 && dev.requests == old(dev.requests)
    ensures |cmd| == 68 ==> dev.requests == old(dev.requests) + [TplRequest(cmd)] && (ret == 0 <==> Accepted(dev.script, |old(dev.requests)|))
  {
    hide ReplyAt, Half;
    if |cmd| != 68 {
      return -2;
    }
    var r, _ := Talk(dev, ControlOut(AM_REQ_TPL_CMD, Half(cmd, 64), Half(cmd, 66), cmd[..64]));
    ret := if r >= 0 then 0 else -2;
  }

  /** The status request, for a buffer that begins with the given bytes. */
  function StatusRequest(front: seq<Byte>): Request
    requires |front| >= 4
  {
    ControlIn(AM_REQ_TPL_STAT, Half(front, 0), Half(front, 2), 64)
  }

  /** IOCTL_TPL_STATUS_Handler and AmlUsbReadStatus: a buffer of 64 bytes is accepted and no other.
      The request's parameters come from the front of the buffer, and the status goes there. */
  method ReadStatus(dev: Device, buf: array<Byte>, bufferLen: nat) returns (ret: int)
    requires Quiet(dev) && 4 <= buf.Length && bufferLen <= buf.Length
    modifies dev, buf
    ensures Quiet(dev) && ret in {0, -2}
    ensures bufferLen != 64 ==> ret == -2 && dev.requests == old(dev.requests) && buf[..] == old(buf[..])
    ensures bufferLen == 64 ==>
              var req, reply := StatusRequest(old(buf[..])), ReplyAt(dev.script, |old(dev.requests)|);
              && dev.requests == old(dev.requests) + [req] && (ret == 0 <==> Accepted(dev.script, |old(dev.requests)|))
              && buf[..] == Arrived(req, reply) + old(buf[..])[|Arrived(req, reply)|..]
  {
    hide ReplyAt, Half;
    if bufferLen != 64 {
      return -2;
    }
    var r, data := Talk(dev, ControlIn(AM_REQ_TPL_STAT, Half(buf[..], 0), Half(buf[..], 2), 64));
    CopyIn(buf, data);
    ret := if r >= 0 then 0 else -2;
  }

  /** The command clears the buffer first, and so the parameters are zero. */
  lemma ClearedBuffer(reply: Reply)
    ensures StatusRequest(Zeros(128)) == STATUS
    ensures Arrived(STATUS, reply) + Zeros(128)[|Arrived(STATUS, reply)|..] == StatusBuffer(reply)
  {
    assert Zeros(128)[0..2] == [0, 0] && Zeros(128)[2..4] == [0, 0];
    LeValue2(0, 0);
  }

  /** The part of the command behind the file: the status again, then the verification. */
  method Conclude(dev: Device, buf: array<Byte>, verify: Verify, status: seq<Byte>) returns (exit: Exit, ghost n: nat, ghost v: nat)
    requires Quiet(dev) && buf.Length == 128 && buf[..] == status
    modifies dev, buf
    ensures Quiet(dev) && exit in {GetStatusFailed, VerifyUnreadable, VerifyFailed, Success}
    ensures var g := |old(dev.requests)|;
            && BulkCmdRan(dev.script, g, n)
            && (exit == GetStatusFailed <==> !BulkCmdSucceeded(dev.script, g, n))
            && (exit != GetStatusFailed ==>
                  && (exit == VerifyUnreadable <==> verify.Unreadable?)
                  && (exit == Success <==> verify.NoVerify? || (verify.Content? && BulkCmdSucceeded(dev.script, g + 1 + n, v))))
            && (exit in {VerifyFailed, Success} && verify.Content? ==> BulkCmdRan(dev.script, g + 1 + n, v))
    ensures dev.requests == old(dev.requests) + BulkTransfers(GetStatusPacket(status), n)
      + if exit in {VerifyFailed, Success} && verify.Content? then BulkTransfers(VerifyPacket(verify.bytes), v) else []
  {
    hide ReplyAt, BulkCmdRan, BulkCmdSucceeded, BulkCmdRequest, Polls;
    n, v := 0, 0;
    CopyIn(buf, Ascii("download get_status") + [0]);
    buf[66] := 1;
    assert buf[..] == GetStatusPacket(status);
    var ret;
    ret, n := BulkCmd(dev, buf[..68]);
    if ret != 0 {
      return GetStatusFailed, n, v;
    }
    if verify.NoVerify? {
      return Success, n, v;
    }
    if verify.Unreadable? {
      return VerifyUnreadable, n, v;
    }
    CopyIn(buf, Zeros(128));
    CopyIn(buf, Ascii("verify ") + verify.bytes[..Min(|verify.bytes|, 0x79)]);
    buf[66] := 1;
    assert buf[..] == VerifyPacket(verify.bytes);
    ret, v := BulkCmd(dev, buf[..68]);
    return if ret != 0 then VerifyFailed else Success, n, v;
  }

  method Overwrite(buf: array<Byte>, data: seq<Byte>)
    requires |data| == buf.Length
    modifies buf
    ensures buf[..] == data
  {
    CopyIn(buf, data);
  }

  /** The part of the command before the file: the command, then the status. */
  method Announce(dev: Device, buf: array<Byte>, text: seq<Byte>) returns (exit: Exit)
    requires Quiet(dev) && buf.Length == 128
    modifies dev, buf
    ensures var i := |old(dev.requests)|;
            && Quiet(dev)
            && exit == (if !Accepted(dev.script, i) then CmdRefused else if !Accepted(dev.script, i + 1) then StatusFailed
                        else if !StatusOk(dev.script, i) then StatusBad else Success)
            && dev.requests == old(dev.requests) + [TplRequest(Packet(text)[..68])] + (if exit.CmdRefused? then [] else [STATUS])
            && (exit.Success? ==> buf[..] == StatusBuffer(ReplyAt(dev.script, i + 1)))
  {
    hide ReplyAt, TplRequest, StatusBuffer, StatusRequest, Packet;
    Overwrite(buf, Packet(text));
    var ret := TplCmd(dev, buf[..68]);
    if ret != 0 {
      return CmdRefused;
    }
    Overwrite(buf, Zeros(128));
    ClearedBuffer(ReplyAt(dev.script, |dev.requests|));
    var r := ReadStatus(dev, buf, 64);
    if r != 0 {
      dev.Sleep(1000);
      return StatusFailed;
    }
    exit := if SUCCESS <= buf[..] then Success else StatusBad;
  }

  /** A run that did not come to the file. */
  lemma LeftEarly(script: seq<Reply>, i: nat, job: Job, p: Parts, exit: Exit)
    requires Fits(job, p.runs)
    requires exit == if job.image == [] then EmptyFile else if !Accepted(script, i) then CmdRefused
                     else if !Accepted(script, i + 1) then StatusFailed else StatusBad
    requires exit == StatusBad ==> !StatusOk(script, i)
    ensures exit == FirstFailure(script, i, job, p) && PartsRan(script, i, job, p, exit)
    ensures Log(script, i, job, p, exit) ==
      if exit == EmptyFile then []
      else [TplRequest(Packet(job.text)[..68])] + if exit == CmdRefused then [] else [STATUS]
  {
    hide ReplyAt, Accepted, StatusOk, TplRequest, Packet;
  }

  /** A run that came to the file but not to its end. */
  lemma LeftInFile(script: seq<Reply>, i: nat, job: Job, p: Parts)
    requires Fits(job, p.runs) && job.image != [] && Accepted(script, i) && Accepted(script, i + 1) && StatusOk(script, i)
    requires FileRan(script, i + 2, job.image, p.runs) && !MediaSent(script, i, job, p)
    ensures FirstFailure(script, i, job, p) == MediaFailed && PartsRan(script, i, job, p, MediaFailed)
    ensures Log(script, i, job, p, MediaFailed) == [TplRequest(Packet(job.text)[..68]), STATUS] + FileRun(job.image, p.runs)
  {
    hide ReplyAt, Accepted, StatusOk, MediaSent, FileRun, FileRan, TplRequest, Packet;
  }

  /** A run that came to the end of the file, taken together. */
  lemma Concluded(script: seq<Reply>, i: nat, job: Job, p: Parts, exit: Exit)
    requires Fits(job, p.runs) && job.image != [] && Accepted(script, i) && Accepted(script, i + 1) && StatusOk(script, i)
    requires FileRan(script, i + 2, job.image, p.runs) && MediaSent(script, i, job, p)
    requires exit in {GetStatusFailed, VerifyUnreadable, VerifyFailed, Success}
    requires var g := i + 2 + |FileRun(job.image, p.runs)|;
             && BulkCmdRan(script, g, p.n)
             && (exit == GetStatusFailed <==> !BulkCmdSucceeded(script, g, p.n))
             && (exit != GetStatusFailed ==>
                   && (exit == VerifyUnreadable <==> job.verify.Unreadable?)
                   && (exit == Success <==> job.verify.NoVerify? || (job.verify.Content? && BulkCmdSucceeded(script, g + 1 + p.n, p.v))))
             && (exit in {VerifyFailed, Success} && job.verify.Content? ==> BulkCmdRan(script, g + 1 + p.n, p.v))
    ensures exit == FirstFailure(script, i, job, p) && PartsRan(script, i, job, p, exit)
    ensures Log(script, i, job, p, exit) ==
      [TplRequest(Packet(job.text)[..68]), STATUS] + FileRun(job.image, p.runs)
      + BulkTransfers(GetStatusPacket(StatusBuffer(ReplyAt(script, i + 1))), p.n)
      + if exit in {VerifyFailed, Success} && job.verify.Content? then BulkTransfers(VerifyPacket(job.verify.bytes), p.v) else []
  {
    hide ReplyAt, Accepted, StatusOk, MediaSent, FileRun, FileRan, BulkCmdRan, BulkCmdSucceeded, TplRequest, StatusBuffer, Packet;
    hide GetStatusPacket, VerifyPacket, BulkTransfers;
  }

  /** do_cmd_mwrtie, with the file open. The message "mwrite success" is printed exactly on the
      exit Success, which is the one taken exactly if every condition was met, in this order: the
      file is not empty, the command was accepted, the status was read and begins with "success",
      every chunk was acknowledged, the second status command succeeded, and so did the
      verification if one was asked for. */
  method Mwrite(dev: Device, args: (seq<Byte>, seq<Byte>, seq<Byte>), file: seq<Byte>, verify: Verify)
    returns (ret: int, exit: Exit, ghost p: Parts)
    requires Quiet(dev)
    modifies dev
    ensures Quiet(dev)
    ensures ret == match exit
                   case EmptyFile => -103
                   case StatusFailed => -300
                   case StatusBad => -307
                   case MediaFailed => -314
                   case GetStatusFailed => -328
                   case VerifyFailed => -354
                   case _ => 0
    ensures var i, job := |old(dev.requests)|, Job(DownloadText(args, |file|), file, verify);
            && Fits(job, p.runs) && exit == FirstFailure(dev.script, i, job, p)
            && PartsRan(dev.script, i, job, p, exit)
            && dev.requests == old(dev.requests) + Log(dev.script, i, job, p, exit)
  {
    hide ReplyAt, Accepted, StatusOk, FileRun, FileRan, LastAcked, BulkCmdRan, BulkCmdSucceeded, TplRequest, StatusBuffer, Image, BulkTransfers, Packet;
    hide GetStatusPacket, VerifyPacket, DownloadText, Watched, Log, FirstFailure, PartsRan;
    ghost var i := |dev.requests|;
    p := Parts([], 0, 0);
    var text := DownloadText(args, |file|);
    ghost var job := Job(text, file, verify);
    if |file| == 0 {
      LeftEarly(dev.script, i, job, p, EmptyFile);
      return -103, EmptyFile, p;
    }
    var buf := new Byte[128](_ => 0);
    exit := Announce(dev, buf, text);
    if !exit.Success? {
      LeftEarly(dev.script, i, job, p, exit);
      return Code(exit), exit, p;
    }
    var r;
    ghost var runs;
    r, runs := WriteMediaFile(dev, file, |file|);
    ImageInFile(file, 0, |file|);
    assert file[0..|file|] == file;
    assert dev.requests == dev.requests[..i + 2] + dev.requests[i + 2..];
    p := Parts(runs, 0, 0);
    if r != 0 {
      LeftInFile(dev.script, i, job, p);
      return -314, MediaFailed, p;
    }
    ghost var n, v;
    exit, n, v := Conclude(dev, buf, verify, buf[..]);
    p := Parts(runs, n, v);
    Concluded(dev.script, i, job, p, exit);
    ret := Code(exit);
  }
}
