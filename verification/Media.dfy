/** The media download: a file goes out in chunks, each announced by a header and acknowledged
    by "OK!!" or sent again, up to three times. */
module Media {
  import opened Bytes
  import opened Checksum
  import opened Link
  import opened Chunks
  import opened Polling
  import LargeMem

  const OK := Ascii("OK!!")

  // ---- reference: one chunk ----

  /** The header as it arrives: which attempt, how many bytes, sixteen times the chunk's number,
      and the checksum of its bytes. The host's names for the last two fields are swapped. */
  function Header(attempt: U32, size: U32, number: U32, cksum: U32): Request {
    ControlOut(AM_REQ_WRITE_MEDIA, 1, 0xFFFF,
               Le32(attempt) + Le32(size) + Le32(16 * number % WORD) + Le32(cksum) + Le32(0x0100_00EF) + Zeros(12))
  }

  /** What goes out of a chunk: at most 0x10000 bytes. */
  function Front(chunk: seq<Byte>): seq<Byte> {
    chunk[..Min(|chunk|, CHUNK)]
  }

  /** The first t transfers of an attempt: header, data, then polls. */
  function Attempt(attempt: U32, chunk: seq<Byte>, number: U32, t: nat): (reqs: seq<Request>)
    ensures |reqs| == t
  {
    if t == 0 then []
    else
      Attempt(attempt, chunk, number, t - 1)
      + [if t == 1 then Header(attempt, |chunk| % WORD, number, Sum64K(chunk))
         else if t == 2 then BulkOut(Front(chunk))
         else MEDIA_POLL.Request()]
  }

  /** An attempt whose first transfer is number i of the run made exactly t transfers, or stopped
      there for a failure: the header got through before any data, all the data before the first
      poll, and the polling took its course. */
  ghost predicate AttemptRan(script: seq<Reply>, i: nat, chunk: seq<Byte>, t: nat) {
    && t > 0
    && (t > 1 ==> ReplyAt(script, i).code >= 0)
    && (t > 2 ==> Result(BulkOut(Front(chunk)), ReplyAt(script, i + 1)) == |Front(chunk)| && Polled(MEDIA_POLL, script, i + 2, t - 2))
    && (t == 1 ==> ReplyAt(script, i).code < 0)
    && (t == 2 ==> Result(BulkOut(Front(chunk)), ReplyAt(script, i + 1)) != |Front(chunk)|)
  }

  /** The chunk was acknowledged: the attempt's last reply begins with "OK!!". */
  predicate Acked(script: seq<Reply>, i: nat, t: nat) {
    t > 2 && Says(MEDIA_POLL, ReplyAt(script, i + t - 1), OK)
  }

  /** The attempt ended without a failure but also without an acknowledgement. */
  predicate Declined(script: seq<Reply>, i: nat, t: nat) {
    t > 2 && Telling(MEDIA_POLL, ReplyAt(script, i + t - 1)) && !Acked(script, i, t)
  }

  /** The lengths of the attempts at one chunk. */
  type Tries = ts: seq<nat> | |ts| <= 3

  /** Attempts number 0, 1, ... of the given lengths. */
  function Attempts(chunk: seq<Byte>, number: U32, ts: Tries): seq<Request>
  {
    if ts == [] then []
    else
      var k := |ts| - 1;
      Attempts(chunk, number, ts[..k]) + Attempt(k, chunk, number, ts[k])
  }

  /** Where in the run the last attempt starts. */
  function LastStart(i: nat, chunk: seq<Byte>, number: U32, ts: Tries): nat
    requires ts != []
  {
    i + |Attempts(chunk, number, ts[..|ts| - 1])|
  }

  /** The attempts took place, each after the one before was declined. */
  ghost predicate AttemptsRan(script: seq<Reply>, i: nat, chunk: seq<Byte>, number: U32, ts: Tries)
  {
    ts == [] ||
    var before := ts[..|ts| - 1];
    && AttemptsRan(script, i, chunk, number, before)
    && (before != [] ==> ChunkDeclined(script, i, chunk, number, before))
    && AttemptRan(script, LastStart(i, chunk, number, ts), chunk, ts[|ts| - 1])
  }

  /** The last of the attempts was acknowledged. */
  predicate ChunkAcked(script: seq<Reply>, i: nat, chunk: seq<Byte>, number: U32, ts: Tries)
  {
    ts != [] && Acked(script, LastStart(i, chunk, number, ts), ts[|ts| - 1])
  }

  predicate ChunkDeclined(script: seq<Reply>, i: nat, chunk: seq<Byte>, number: U32, ts: Tries)
  {
    ts != [] && Declined(script, LastStart(i, chunk, number, ts), ts[|ts| - 1])
  }

  /** However the device delays, a chunk takes at most three attempts, each of a header, the data
      and 1440 polls. */
  lemma {:induction false} ChunkIsBounded(script: seq<Reply>, i: nat, chunk: seq<Byte>, number: U32, ts: Tries)
    requires AttemptsRan(script, i, chunk, number, ts)
    ensures |Attempts(chunk, number, ts)| <= 1442 * |ts| <= 4326
    decreases |ts|
  {
    hide Polled, ChunkDeclined;
    if ts != [] {
      var k := |ts| - 1;
      ChunkIsBounded(script, i, chunk, number, ts[..k]);
      if ts[k] > 2 {
        PollsAreBounded(script, LastStart(i, chunk, number, ts) + 2, ts[k] - 2);
      }
    }
  }

  // ---- the host ----

  /** strncmp over the length of a word without NUL: the difference of the first bytes that
      differ. */
  function Compare(buf: seq<Byte>, word: seq<Byte>): (c: int)
    requires |buf| >= |word|
    ensures c == 0 <==> word <= buf
  {
    if word == [] then 0
    else if buf[0] != word[0] then buf[0] as int - word[0] as int
    else Compare(buf[1..], word[1..])
  }

  /** IOCTL_WRITE_MEDIA_Handler: it puts its own word into the block and sends 32 bytes. */
  method IoctlWriteMedia(dev: Device, inBuf: seq<Byte>) returns (ok: bool)
    requires Quiet(dev)
    modifies dev
    ensures Quiet(dev)
    ensures |inBuf| < 32 ==> !ok && dev.requests == old(dev.requests)
    ensures |inBuf| >= 32 ==>
      && dev.requests == old(dev.requests)
           + [ControlOut(AM_REQ_WRITE_MEDIA, 1, 0xFFFF, inBuf[..16] + Le32(0x0100_00EF) + inBuf[20..32])]
      && ok == (ReplyAt(dev.script, |old(dev.requests)|).code >= 0)
  {
    hide ReplyAt;
    if |inBuf| < 32 {
      return false;
    }
    var block := inBuf[..16] + Le32(0x0100_00EF) + inBuf[20..];
    assert block[..32] == inBuf[..16] + Le32(0x0100_00EF) + inBuf[20..32];
    var r, _ := Talk(dev, ControlOut(AM_REQ_WRITE_MEDIA, 1, 0xFFFF, block[..32]));
    ok := r >= 0;
  }

  /** WriteMediaCMD, with its parameter names; AmlWriteMedia passes the checksum as seqNum and
      the sequence number as cksum. */
  method WriteMediaCmd(dev: Device, address: U32, size: U32, seqNum: U32, cksum: U32, bulkSize: U32) returns (ok: bool)
    requires Quiet(dev)
    modifies dev
    ensures Quiet(dev)
    ensures dev.requests == old(dev.requests)
      + [ControlOut(AM_REQ_WRITE_MEDIA, 1, 0xFFFF, Le32(address) + Le32(size) + Le32(cksum) + Le32(seqNum) + Le32(0x0100_00EF) + Zeros(12))]
    ensures ok == (ReplyAt(dev.script, |old(dev.requests)|).code >= 0)
  {
    hide ReplyAt, Le32;
    var buf := LargeMem.CommandBlock(address, size, bulkSize, cksum, seqNum);
    assert buf[..16] == Le32(address) + Le32(size) + Le32(cksum) + Le32(seqNum);
    assert buf[20..32] == Zeros(12);
    ok := IoctlWriteMedia(dev, buf);
  }

  /** The code a chunk's last reply leads to. */
  function ReplyVerdict(last: Reply): int {
    var got := Result(MEDIA_POLL.Request(), last);
    if got < 0 then -811
    else if got < |MEDIA_POLL.busy| then -816
    else Compare(Arrived(MEDIA_POLL.Request(), last), OK)
  }

  /** The code AmlWriteMedia returns when its last attempt made t transfers. */
  function AttemptVerdict(script: seq<Reply>, i: nat, chunk: seq<Byte>, t: nat): int {
    if t <= 1 then -6
    else if t == 2 then (if Result(BulkOut(Front(chunk)), ReplyAt(script, i + 1)) < 0 then -7 else -799)
    else ReplyVerdict(ReplyAt(script, i + t - 1))
  }

  /** In numbers: which code follows from which reply. */
  lemma VerdictIs(script: seq<Reply>, i: nat, chunk: seq<Byte>, t: nat)
    requires t > 0
    ensures var ret, last := AttemptVerdict(script, i, chunk, t), ReplyAt(script, i + t - 1);
            && (t == 1 ==> ret == -6)
            && (t == 2 ==> ret == if last.code == 0 || (last.code == -7 && last.count > 0 && |chunk| > 0) then -799 else -7)
            && (t > 2 ==>
                  if last.code != 0 && (last.code != -7 || last.count == 0) then ret == -811
                  else if last.count < 11 then ret == -816
                  else (ret == 0 <==> [0x4F, 0x4B, 0x21, 0x21] <= last.data))
  {
    hide Telling, Says, Compare;
    var last := ReplyAt(script, i + t - 1);
    assert OK == [0x4F, 0x4B, 0x21, 0x21];
    SaysIs(MEDIA_POLL, last, OK);
    if t > 2 && (last.code == 0 || last.code == -7) && last.count >= 11 {
      assert Telling(MEDIA_POLL, last) && (Says(MEDIA_POLL, last, OK) <==> OK <= Arrived(MEDIA_POLL.Request(), last)) by {
        SaysWhat(MEDIA_POLL, last, OK);
      }
    }
  }

  lemma {:induction false} CompareFront(data: seq<Byte>, buf: seq<Byte>, word: seq<Byte>)
    requires |word| <= |data| && data <= buf
    ensures Compare(buf, word) == Compare(data, word)
    decreases |word|
  {
    if word != [] {
      assert data[0] == buf[0] && data[1..] <= buf[1..];
      CompareFront(data[1..], buf[1..], word[1..]);
    }
  }

  lemma AttemptOpens(attempt: U32, chunk: seq<Byte>, number: U32)
    ensures Attempt(attempt, chunk, number, 0) == []
    ensures Attempt(attempt, chunk, number, 1) == [Header(attempt, |chunk| % WORD, number, Sum64K(chunk))]
  {
    hide Header, Sum64K;
  }

  lemma {:induction false} AttemptPolls(attempt: U32, chunk: seq<Byte>, number: U32, n: nat)
    ensures Attempt(attempt, chunk, number, 2 + n) ==
      [Header(attempt, |chunk| % WORD, number, Sum64K(chunk)), BulkOut(Front(chunk))] + Polls(MEDIA_POLL, n)
  {
    if n > 0 {
      AttemptPolls(attempt, chunk, number, n - 1);
    } else {
      assert Attempt(attempt, chunk, number, 1) == Attempt(attempt, chunk, number, 0) + [Header(attempt, |chunk| % WORD, number, Sum64K(chunk))];
    }
  }

  /** The wait for the device's answer; on timeout the last answer was that it is busy. */
  method AwaitAck(dev: Device) returns (ret: int, again: bool, ghost n: nat)
    requires Quiet(dev)
    modifies dev
    ensures Quiet(dev) && n > 0
    ensures dev.requests == old(dev.requests) + Polls(MEDIA_POLL, n)
    ensures Polled(MEDIA_POLL, dev.script, |old(dev.requests)|, n)
    ensures var last := ReplyAt(dev.script, |old(dev.requests)| + n - 1);
            && ret == ReplyVerdict(last)
            && (again <==> Telling(MEDIA_POLL, last) && !Says(MEDIA_POLL, last, OK))
            && (ret == 0 <==> Says(MEDIA_POLL, last, OK))
  {
    hide ReplyAt, Result, Polled, Compare;
    var buf := new Byte[0x200](_ => 0);
    var actualLen;
    actualLen, n := PollLoop(dev, MEDIA_POLL, buf);
    again := false;
    if actualLen < 0 {
      return -811, again, n;
    }
    if actualLen < |MEDIA_POLL.busy| {
      return -816, again, n;
    }
    ghost var last := ReplyAt(dev.script, |dev.requests| - 1);
    ResultIsMoved(MEDIA_POLL.Request(), last);
    CompareFront(Arrived(MEDIA_POLL.Request(), last), buf[..], OK);
    ret := Compare(buf[..], OK);
    again := ret != 0;
  }

  /** The body of the attempt loop. */
  method TryMedia(dev: Device, chunk: seq<Byte>, address: U32, cksum: U32, attempt: nat) returns (ret: int, again: bool, ghost t: nat)
    requires Quiet(dev) && attempt < 3 && |chunk| < WORD && cksum == Sum64K(chunk)
    modifies dev
    ensures Quiet(dev)
    ensures dev.requests == old(dev.requests) + Attempt(attempt, chunk, address, t)
    ensures AttemptRan(dev.script, |old(dev.requests)|, chunk, t)
    ensures ret == AttemptVerdict(dev.script, |old(dev.requests)|, chunk, t)
    ensures var last := ReplyAt(dev.script, |dev.requests| - 1);
            && (t == 1 ==> ret == -6)
            && (t == 2 ==> ret == if last.code == 0 || (last.code == -7 && last.count > 0 && |chunk| > 0) then -799 else -7)
            && (t > 2 ==>
                  if last.code != 0 && (last.code != -7 || last.count == 0) then ret == -811
                  else if last.count < 11 then ret == -816
                  else (ret == 0 <==> [0x4F, 0x4B, 0x21, 0x21] <= last.data))
    ensures again <==> Declined(dev.script, |old(dev.requests)|, t)
    ensures ret == 0 <==> Acked(dev.script, |old(dev.requests)|, t)
    ensures again ==> ret != 0
  {
    hide ReplyAt, Result, Polled, Sum64K, ReplyVerdict, Says, Telling, Attempt, Le32;
    ghost var first := |dev.requests|;
    VerdictIs(dev.script, first, chunk, 1);
    VerdictIs(dev.script, first, chunk, 2);
    AttemptOpens(attempt, chunk, address);
    AttemptPolls(attempt, chunk, address, 0);
    var bulkSize := Min(|chunk|, CHUNK);
    var cmd := 16 * address % WORD;
    again, t := false, 1;
    var ok := WriteMediaCmd(dev, attempt, |chunk|, cksum, cmd, bulkSize);
    if !ok {
      return -6, again, t;
    }
    t := 2;
    var actualLen, _ := Talk(dev, BulkOut(chunk[..bulkSize]));
    if actualLen < 0 {
      return -7, again, t;
    }
    if actualLen != bulkSize {
      return -799, again, t;
    }
    ghost var n;
    ret, again, n := AwaitAck(dev);
    t := 2 + n;
    AttemptPolls(attempt, chunk, address, n);
    VerdictIs(dev.script, first, chunk, t);
  }

  /** checksum_64K(buffer, bufferLen): the length becomes an int. */
  method ChecksumOf(chunk: seq<Byte>) returns (cksum: U32)
    requires |chunk| < WORD
    ensures cksum == Sum64K(chunk)
  {
    hide WordSum, Taken;
    assert |chunk| % WORD == |chunk|;
    cksum := Checksum64K(chunk, Signed(|chunk|));
  }

  lemma OneMoreAttempt(script: seq<Reply>, i: nat, chunk: seq<Byte>, number: U32, ts: Tries, t: nat)
    requires |ts| < 3
    ensures LastStart(i, chunk, number, ts + [t]) == i + |Attempts(chunk, number, ts)|
    ensures Attempts(chunk, number, ts + [t]) == Attempts(chunk, number, ts) + Attempt(|ts|, chunk, number, t)
    ensures AttemptsRan(script, i, chunk, number, ts + [t]) <==>
      && AttemptsRan(script, i, chunk, number, ts)
      && (ts != [] ==> ChunkDeclined(script, i, chunk, number, ts))
      && AttemptRan(script, i + |Attempts(chunk, number, ts)|, chunk, t)
    ensures ChunkAcked(script, i, chunk, number, ts + [t]) <==> Acked(script, i + |Attempts(chunk, number, ts)|, t)
    ensures ChunkDeclined(script, i, chunk, number, ts + [t]) <==> Declined(script, i + |Attempts(chunk, number, ts)|, t)
  {
    hide Attempt, AttemptRan, Acked, Declined;
    assert (ts + [t])[..|ts|] == ts;
  }

  /** AmlWriteMedia, on an open device: one to three attempts, each sending the same bytes; the
      result is 0 exactly if the last of them was acknowledged. */
  method WriteMedia(dev: Device, chunk: seq<Byte>, address: U32) returns (ret: int, ghost ts: Tries)
    requires Quiet(dev) && |chunk| < WORD
    modifies dev
    ensures Quiet(dev) && 1 <= |ts| <= 3
    ensures dev.requests == old(dev.requests) + Attempts(chunk, address, ts)
    ensures AttemptsRan(dev.script, |old(dev.requests)|, chunk, address, ts)
    ensures |ts| < 3 ==> !ChunkDeclined(dev.script, |old(dev.requests)|, chunk, address, ts)
    ensures ret == AttemptVerdict(dev.script, LastStart(|old(dev.requests)|, chunk, address, ts), chunk, ts[|ts| - 1])
    ensures ret == 0 <==> ChunkAcked(dev.script, |old(dev.requests)|, chunk, address, ts)
  {
    hide Attempts, AttemptsRan, AttemptRan, Acked, Declined, ChunkAcked, ChunkDeclined, LastStart, AttemptVerdict, Sum64K;
    ghost var i := |dev.requests|;
    var cksum := ChecksumOf(chunk);
    ret, ts := 0, [];
    NoAttempts(dev.script, i, chunk, address);
    for addr := 0 to 3
      invariant Quiet(dev) && |ts| == addr
      invariant dev.requests == old(dev.requests) + Attempts(chunk, address, ts)
      invariant AttemptsRan(dev.script, i, chunk, address, ts)
      invariant addr > 0 ==>
        && ret == AttemptVerdict(dev.script, LastStart(i, chunk, address, ts), chunk, ts[|ts| - 1])
        && ret != 0 && !ChunkAcked(dev.script, i, chunk, address, ts)
        && ChunkDeclined(dev.script, i, chunk, address, ts)
    {
      var again;
      ghost var t;
      ret, again, t := TryMedia(dev, chunk, address, cksum, addr);
      OneMoreAttempt(dev.script, i, chunk, address, ts, t);
      ts := ts + [t];
      if !again {
        return;
      }
    }
  }

  lemma NoAttempts(script: seq<Reply>, i: nat, chunk: seq<Byte>, number: U32)
    ensures Attempts(chunk, number, []) == [] && AttemptsRan(script, i, chunk, number, [])
  {
  }
}
