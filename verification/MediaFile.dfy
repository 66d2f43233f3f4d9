/** A whole file over the media download, and what the device has been told at every point. */
module MediaFile {
  import opened Bytes
  import opened Checksum
  import opened Link
  import opened Chunks
  import opened Polling
  import opened Media

  // ---- reference: the download as a monitor ----

  /** Where the download of a chunk stands. */
  datatype Stage =
    | Ready                              // a header is next
    | Announced(size: nat, cksum: U32)   // the data is next
    | Sent(chunk: seq<Byte>)             // a poll is next
    | Busy(chunk: seq<Byte>)             // another poll is next, or another attempt
    | Over                               // nothing may follow
    | Broken                             // something followed that must not

  /** What the device acknowledged so far, and how many attempts at the next chunk were in vain. */
  datatype Delivery = Delivery(delivered: seq<Byte>, tries: nat, stage: Stage)

  /** The header fits: this attempt, and the number of the chunk that follows what was
      acknowledged so far. */
  predicate Announces(d: Delivery, req: Request) {
    && req.ControlOut? && req.request == 0x32 && req.value == 1 && req.index == 0xFFFF && |req.data| == 32
    && d.tries < 3 && Word(req.data, 0) == d.tries
    && Word(req.data, 8) == 16 * (|d.delivered| / 0x1_0000) % WORD
    && Word(req.data, 16) == 0x0100_00EF
  }

  /** A chunk given up while the device was busy is tried again like one it declined. */
  function NextTry(d: Delivery): Delivery {
    if d.stage.Busy? then Delivery(d.delivered, d.tries + 1, Ready) else d
  }

  /** "OK!!" and "Continue:32" */
  const ACKNOWLEDGED: seq<Byte> := [0x4F, 0x4B, 0x21, 0x21]
  const BUSY: seq<Byte> := [0x43, 0x6F, 0x6E, 0x74, 0x69, 0x6E, 0x75, 0x65, 0x3A, 0x33, 0x32]

  /** What a reply to a poll says about the chunk: one that failed or brought less than eleven
      bytes says nothing, and a time-out is no failure if it brought as many. */
  function Answered(d: Delivery, chunk: seq<Byte>, reply: Reply): Delivery {
    if reply.code !in {0, -7} || reply.count < 11 then d.(stage := Over)
    else if ACKNOWLEDGED <= reply.data then Delivery(d.delivered + chunk, 0, Ready)
    else if BUSY <= reply.data then d.(stage := Busy(chunk))
    else Delivery(d.delivered, d.tries + 1, Ready)
  }

  /** The host reads the replies as the monitor does. */
  lemma RepliesRead(reply: Reply)
    ensures Telling(MEDIA_POLL, reply) <==> reply.code in {0, -7} && reply.count >= 11
    ensures Says(MEDIA_POLL, reply, OK) <==> reply.code in {0, -7} && reply.count >= 11 && ACKNOWLEDGED <= reply.data
    ensures Says(MEDIA_POLL, reply, MEDIA_POLL.busy) <==> reply.code in {0, -7} && reply.count >= 11 && BUSY <= reply.data
  {
    hide Telling, Says;
    assert OK == ACKNOWLEDGED && MEDIA_POLL.busy == BUSY;
    SaysIs(MEDIA_POLL, reply, OK);
    SaysIs(MEDIA_POLL, reply, MEDIA_POLL.busy);
  }

  /** The transfers allowed at each stage; the data must have the announced size and checksum. */
  function Watch(d: Delivery, req: Request, reply: Reply): Delivery {
    match d.stage
    case Announced(size, cksum) =>
      if req.BulkOut? && |req.data| == size && WordSum(req.data, 4) % WORD == cksum then
        d.(stage := if Result(req, reply) == size then Sent(req.data) else Over)
      else d.(stage := Broken)
    case Sent(chunk) => if req == BulkIn(256) then Answered(d, chunk, reply) else d.(stage := Broken)
    case Busy(chunk) => if req == BulkIn(256) then Answered(d, chunk, reply) else WatchHeader(NextTry(d), req, reply)
    case _ => WatchHeader(d, req, reply)
  }

  function WatchHeader(d: Delivery, req: Request, reply: Reply): Delivery {
    if d.stage != Ready || !Announces(d, req) then d.(stage := Broken)
    else if reply.code < 0 then d.(stage := Over)
    else d.(stage := Announced(Word(req.data, 4), Word(req.data, 12)))
  }

  /** The delivery after the given transfers, the first of which is number i of the run. */
  function Watched(script: seq<Reply>, i: nat, d: Delivery, sent: seq<Request>): Delivery {
    if sent == [] then d
    else
      var n := |sent| - 1;
      Watch(Watched(script, i, d, sent[..n]), sent[n], ReplyAt(script, i + n))
  }

  lemma {:induction false} WatchedSplits(script: seq<Reply>, i: nat, d: Delivery, a: seq<Request>, b: seq<Request>)
    ensures Watched(script, i, d, a + b) == Watched(script, i + |a|, Watched(script, i, d, a), b)
    decreases |b|
  {
    hide Watch;
    if b == [] {
      assert a + b == a;
    } else {
      var n := |b| - 1;
      WatchedSplits(script, i, d, a, b[..n]);
      assert (a + b)[..|a + b| - 1] == a + b[..n];
    }
  }

  // ---- an attempt, watched ----

  /** The fields of a header read back. */
  lemma HeaderParses(attempt: U32, size: U32, number: U32, cksum: U32)
    ensures var req := Header(attempt, size, number, cksum);
            && req.ControlOut? && req.request == AM_REQ_WRITE_MEDIA && req.value == 1 && req.index == 0xFFFF
    ensures var data := Header(attempt, size, number, cksum).data;
            && |data| == 32 && Word(data, 0) == attempt && Word(data, 4) == size && Word(data, 8) == 16 * number % WORD
            && Word(data, 12) == cksum && Word(data, 16) == 0x0100_00EF
  {
    hide Le32, LeValue;
    var data, seqNum: U32 := Header(attempt, size, number, cksum).data, 16 * number % WORD;
    assert data[0..4] == Le32(attempt) && data[4..8] == Le32(size) && data[8..12] == Le32(seqNum);
    assert data[12..16] == Le32(cksum) && data[16..20] == Le32(0x0100_00EF);
    Le32RoundTrip(attempt);
    Le32RoundTrip(size);
    Le32RoundTrip(seqNum);
    Le32RoundTrip(cksum);
    Le32RoundTrip(0x0100_00EF);
  }

  /** The delivery is where attempt number attempt at chunk number number starts. */
  predicate Starting(d: Delivery, attempt: U32, number: U32) {
    && NextTry(d).stage == Ready && NextTry(d).tries == attempt < 3
    && |d.delivered| / CHUNK % WORD == number
  }

  lemma HeaderWatched(d: Delivery, attempt: U32, chunk: seq<Byte>, number: U32, reply: Reply)
    requires Starting(d, attempt, number) && |chunk| < WORD
    ensures Watch(d, Header(attempt, |chunk|, number, Sum64K(chunk)), reply) ==
      Delivery(d.delivered, attempt, if reply.code < 0 then Over else Announced(|chunk|, Sum64K(chunk)))
  {
    hide Sum64K, Word, Header, Le32;
    HeaderParses(attempt, |chunk|, number, Sum64K(chunk));
    NumberWraps(|d.delivered| / CHUNK);
  }

  lemma NumberWraps(n: nat)
    ensures 16 * (n % WORD) % WORD == 16 * n % WORD
  {
    var q, r := n / WORD, n % WORD;
    assert 16 * n == 16 * r + WORD * (16 * q);
    MultiplesVanish(16 * r, 16 * q);
  }

  lemma MultiplesVanish(y: nat, k: nat)
    ensures (y + WORD * k) % WORD == y % WORD
  {
    assert y == WORD * (y / WORD) + y % WORD;
    assert y + WORD * k == WORD * (y / WORD + k) + y % WORD;
  }

  lemma PollWatched(d: Delivery, chunk: seq<Byte>, reply: Reply)
    requires d.stage in {Sent(chunk), Busy(chunk)}
    ensures Watch(d, MEDIA_POLL.Request(), reply) == Answered(Delivery(d.delivered, d.tries, Sent(chunk)), chunk, reply)
  {
    hide Telling, Says;
  }

  lemma BusyAnswer(d: Delivery, chunk: seq<Byte>, reply: Reply)
    requires Says(MEDIA_POLL, reply, MEDIA_POLL.busy)
    ensures Answered(d, chunk, reply) == d.(stage := Busy(chunk))
  {
    hide Telling, Says;
    RepliesRead(reply);
    assert ACKNOWLEDGED[0] != BUSY[0];
  }

  /** One more transfer. */
  lemma WatchedSnoc(script: seq<Reply>, i: nat, d: Delivery, sent: seq<Request>, req: Request)
    ensures Watched(script, i, d, sent + [req]) == Watch(Watched(script, i, d, sent), req, ReplyAt(script, i + |sent|))
  {
    hide Watch, ReplyAt;
    assert (sent + [req])[..|sent|] == sent;
  }

  /** The last of n polls of a device that stayed busy. */
  lemma BusyStep(poll: Poll, script: seq<Reply>, i: nat, n: nat)
    requires n > 0 && StayedBusy(poll, script, i, n)
    ensures StayedBusy(poll, script, i, n - 1) && Says(poll, ReplyAt(script, i + n - 1), poll.busy)
    ensures Polls(poll, n) == Polls(poll, n - 1) + [poll.Request()]
  {
    hide Says, Elapsed, ReplyAt;
  }

  /** One poll of a busy device. */
  lemma BusyPoll(d: Delivery, chunk: seq<Byte>, reply: Reply)
    requires d.stage in {Sent(chunk), Busy(chunk)} && Says(MEDIA_POLL, reply, MEDIA_POLL.busy)
    ensures Watch(d, MEDIA_POLL.Request(), reply) == d.(stage := Busy(chunk))
  {
    hide Watch, Answered, Says;
    PollWatched(d, chunk, reply);
    BusyAnswer(Delivery(d.delivered, d.tries, Sent(chunk)), chunk, reply);
  }

  /** A run of polls to a busy device. */
  lemma {:induction false} PollsWatched(script: seq<Reply>, i: nat, d: Delivery, n: nat)
    requires d.stage.Sent? && StayedBusy(MEDIA_POLL, script, i, n)
    ensures Watched(script, i, d, Polls(MEDIA_POLL, n)) == if n == 0 then d else d.(stage := Busy(d.stage.chunk))
  {
    hide Elapsed, ReplyAt, Watched, Watch, Answered, Says, StayedBusy, Polls;
    if n == 0 {
      NoPolls(script, i, d);
    } else {
      BusyStep(MEDIA_POLL, script, i, n);
      PollsWatched(script, i, d, n - 1);
      var polls := Polls(MEDIA_POLL, n - 1);
      WatchedSnoc(script, i, d, polls, MEDIA_POLL.Request());
      BusyPoll(Watched(script, i, d, polls), d.stage.chunk, ReplyAt(script, i + n - 1));
    }
  }

  lemma NoPolls(script: seq<Reply>, i: nat, d: Delivery)
    ensures Watched(script, i, d, Polls(MEDIA_POLL, 0)) == d
  {
  }

  /** Polling from the data on ends as the last reply says. */
  lemma PollingWatched(script: seq<Reply>, i: nat, d: Delivery, n: nat)
    requires d.stage.Sent? && Polled(MEDIA_POLL, script, i, n)
    ensures Watched(script, i, d, Polls(MEDIA_POLL, n)) == Answered(d, d.stage.chunk, ReplyAt(script, i + n - 1))
  {
    hide Elapsed, ReplyAt, Telling, Says, StayedBusy, Watched, Watch, Answered;
    var polls := Polls(MEDIA_POLL, n - 1);
    PollsWatched(script, i, d, n - 1);
    WatchedSnoc(script, i, d, polls, MEDIA_POLL.Request());
    PollWatched(Watched(script, i, d, polls), d.stage.chunk, ReplyAt(script, i + n - 1));
  }

  /** The header and the data. */
  lemma OpeningWatched(script: seq<Reply>, i: nat, d: Delivery, attempt: U32, chunk: seq<Byte>, number: U32)
    requires Starting(d, attempt, number) && |chunk| <= CHUNK
    ensures var reached := if ReplyAt(script, i).code < 0 then Over else Announced(|chunk|, Sum64K(chunk));
            Watched(script, i, d, Attempt(attempt, chunk, number, 1)) == Delivery(d.delivered, attempt, reached)
    ensures ReplyAt(script, i).code >= 0 ==>
              var reached := if Result(BulkOut(chunk), ReplyAt(script, i + 1)) == |chunk| then Sent(chunk) else Over;
              Watched(script, i, d, Attempt(attempt, chunk, number, 2)) == Delivery(d.delivered, attempt, reached)
  {
    hide ReplyAt, Result, Sum64K, WordSum, Starting, Header;
    Sum64KIs(chunk);
    HeaderWatched(d, attempt, chunk, number, ReplyAt(script, i));
    var one, two := Attempt(attempt, chunk, number, 1), Attempt(attempt, chunk, number, 2);
    assert one == Attempt(attempt, chunk, number, 0) + [Header(attempt, |chunk| % WORD, number, Sum64K(chunk))];
    assert two == one + [BulkOut(Front(chunk))] && two[..1] == one && one[..0] == [];
    assert Front(chunk) == chunk;
  }

  /** An attempt starts where the last one left off, and ends as its last reply says. */
  lemma AttemptWatched(script: seq<Reply>, i: nat, d: Delivery, attempt: U32, chunk: seq<Byte>, number: U32, t: nat)
    requires Starting(d, attempt, number) && |chunk| <= CHUNK && AttemptRan(script, i, chunk, t)
    ensures Watched(script, i, d, Attempt(attempt, chunk, number, t)) ==
      if t <= 2 then Delivery(d.delivered, attempt, Over)
      else Answered(Delivery(d.delivered, attempt, Sent(chunk)), chunk, ReplyAt(script, i + t - 1))
  {
    hide ReplyAt, Result, Sum64K, Starting, Header, Attempt, Watched, Watch, Polled, Answered;
    assert Front(chunk) == chunk;
    OpeningWatched(script, i, d, attempt, chunk, number);
    if t > 2 {
      AttemptPolls(attempt, chunk, number, 0);
      AttemptPolls(attempt, chunk, number, t - 2);
      var opening := Attempt(attempt, chunk, number, 2);
      assert Attempt(attempt, chunk, number, t) == opening + Polls(MEDIA_POLL, t - 2);
      WatchedSplits(script, i, d, opening, Polls(MEDIA_POLL, t - 2));
      PollingWatched(script, i + 2, Delivery(d.delivered, attempt, Sent(chunk)), t - 2);
    }
  }

  // ---- a chunk, watched ----

  /** What an attempt leads to, in the terms of the host. */
  lemma AnsweredMeans(script: seq<Reply>, i: nat, t: nat, delivered: seq<Byte>, attempt: nat, chunk: seq<Byte>)
    requires t > 2
    ensures var e := Answered(Delivery(delivered, attempt, Sent(chunk)), chunk, ReplyAt(script, i + t - 1));
            && e.stage != Broken
            && (Acked(script, i, t) ==> e == Delivery(delivered + chunk, 0, Ready))
            && (!Acked(script, i, t) ==> e.delivered == delivered)
            && (Declined(script, i, t) ==> NextTry(e) == Delivery(delivered, attempt + 1, Ready))
            && (!Acked(script, i, t) && !Declined(script, i, t) ==> e.stage == Over)
  {
    hide Telling, Says;
    RepliesRead(ReplyAt(script, i + t - 1));
  }

  /** All the attempts at one chunk: it is delivered exactly if the last of them was
      acknowledged. */
  lemma {:induction false} AttemptsWatched(script: seq<Reply>, i: nat, delivered: seq<Byte>, chunk: seq<Byte>, number: U32, ts: Tries)
    requires |chunk| <= CHUNK && |delivered| / CHUNK % WORD == number
    requires ts != [] && AttemptsRan(script, i, chunk, number, ts)
    ensures var e := Watched(script, i, Delivery(delivered, 0, Ready), Attempts(chunk, number, ts));
            && e.stage != Broken
            && (ChunkAcked(script, i, chunk, number, ts) ==> e == Delivery(delivered + chunk, 0, Ready))
            && (!ChunkAcked(script, i, chunk, number, ts) ==> e.delivered == delivered)
            && (ChunkDeclined(script, i, chunk, number, ts) ==> NextTry(e) == Delivery(delivered, |ts|, Ready))
            && (!ChunkAcked(script, i, chunk, number, ts) && !ChunkDeclined(script, i, chunk, number, ts) ==> e.stage == Over)
    decreases |ts|
  {
    hide Attempt, AttemptRan, Watched, Answered, Acked, Declined, ReplyAt;
    var k := |ts| - 1;
    var before, start := ts[..k], Delivery(delivered, 0, Ready);
    var at := i + |Attempts(chunk, number, before)|;
    assert Attempts(chunk, number, ts) == Attempts(chunk, number, before) + Attempt(k, chunk, number, ts[k]);
    var d := Watched(script, i, start, Attempts(chunk, number, before));
    if k > 0 {
      AttemptsWatched(script, i, delivered, chunk, number, before);
    } else {
      assert d == start by { NothingWatched(script, i, start); }
    }
    WatchedSplits(script, i, start, Attempts(chunk, number, before), Attempt(k, chunk, number, ts[k]));
    AttemptWatched(script, at, d, k, chunk, number, ts[k]);
    if ts[k] > 2 {
      AnsweredMeans(script, at, ts[k], delivered, k, chunk);
    } else {
      NotAnswered(script, at, ts[k]);
    }
  }

  lemma NothingWatched(script: seq<Reply>, i: nat, d: Delivery)
    ensures Watched(script, i, d, []) == d
  {
  }

  lemma NotAnswered(script: seq<Reply>, i: nat, t: nat)
    requires t <= 2
    ensures !Acked(script, i, t) && !Declined(script, i, t)
  {
  }

  // ---- reference: a whole file ----

  /** The transfers for the first chunks of the image, given the lengths of the attempts at each;
      chunk k is sent as number k. */
  function FileRun(image: seq<Byte>, runs: seq<Tries>): seq<Request>
    requires |runs| <= ChunkCount(|image|)
  {
    if runs == [] then []
    else
      var k := |runs| - 1;
      FileRun(image, runs[..k]) + Attempts(ChunkOf(image, k), k % WORD, runs[k])
  }

  /** The last of the chunks was acknowledged. */
  predicate LastAcked(script: seq<Reply>, i: nat, image: seq<Byte>, runs: seq<Tries>)
    requires 0 < |runs| <= ChunkCount(|image|)
  {
    var k := |runs| - 1;
    ChunkAcked(script, i + |FileRun(image, runs[..k])|, ChunkOf(image, k), k % WORD, runs[k])
  }

  /** The chunks took their turns, each after the one before was acknowledged. */
  ghost predicate FileRan(script: seq<Reply>, i: nat, image: seq<Byte>, runs: seq<Tries>)
    requires |runs| <= ChunkCount(|image|)
  {
    runs == [] ||
    var k := |runs| - 1;
    && FileRan(script, i, image, runs[..k])
    && (k > 0 ==> LastAcked(script, i, image, runs[..k]))
    && runs[k] != []
    && AttemptsRan(script, i + |FileRun(image, runs[..k])|, ChunkOf(image, k), k % WORD, runs[k])
    && (|runs[k]| < 3 ==> !ChunkDeclined(script, i + |FileRun(image, runs[..k])|, ChunkOf(image, k), k % WORD, runs[k]))
  }

  const START := Delivery([], 0, Ready)

  /** How many of the chunks were acknowledged. */
  function AckedChunks(script: seq<Reply>, i: nat, image: seq<Byte>, runs: seq<Tries>): nat
    requires |runs| <= ChunkCount(|image|)
  {
    if runs == [] || LastAcked(script, i, image, runs) then |runs| else |runs| - 1
  }

  lemma NextChunk(image: seq<Byte>, k: nat)
    requires k < ChunkCount(|image|)
    ensures |image[..UpTo(|image|, k)]| / CHUNK % WORD == k % WORD
    ensures image[..UpTo(|image|, k)] + ChunkOf(image, k) == image[..UpTo(|image|, k + 1)]
  {
  }

  /** Delivery: the bytes the device acknowledged are the acknowledged chunks, in order; every
      transfer was allowed where it stands. */
  lemma {:induction false} FileWatched(script: seq<Reply>, i: nat, image: seq<Byte>, runs: seq<Tries>)
    requires |runs| <= ChunkCount(|image|) && FileRan(script, i, image, runs)
    ensures var e := Watched(script, i, START, FileRun(image, runs));
            && e.stage != Broken
            && e.delivered == image[..UpTo(|image|, AckedChunks(script, i, image, runs))]
            && (AckedChunks(script, i, image, runs) == |runs| ==> e == Delivery(e.delivered, 0, Ready))
            && (AckedChunks(script, i, image, runs) < |runs| ==> e.stage == Over || NextTry(e).tries == 3)
    decreases |runs|
  {
    hide AttemptsRan, Attempts, ChunkAcked, ChunkDeclined, ChunkOf, Watched, ChunkCount;
    if runs == [] {
      NothingWatched(script, i, START);
    } else {
      var k := |runs| - 1;
      FileWatched(script, i, image, runs[..k]);
      NextChunk(image, k);
      var done := FileRun(image, runs[..k]);
      WatchedSplits(script, i, START, done, Attempts(ChunkOf(image, k), k % WORD, runs[k]));
      AttemptsWatched(script, i + |done|, image[..UpTo(|image|, k)], ChunkOf(image, k), k % WORD, runs[k]);
    }
  }

  /** Acknowledged bytes stay acknowledged, and a broken rule stays broken. */
  lemma {:induction false} WatchedGrows(script: seq<Reply>, i: nat, d: Delivery, sent: seq<Request>)
    ensures d.delivered <= Watched(script, i, d, sent).delivered
    ensures d.stage == Broken ==> Watched(script, i, d, sent).stage == Broken
    decreases |sent|
  {
    hide ReplyAt, Telling, Says, Word, Result, WordSum, Announces;
    if sent != [] {
      WatchedGrows(script, i, d, sent[..|sent| - 1]);
    }
  }

  /** Safety at every point of a run: after any number j of its transfers, no rule was broken,
      and what the device acknowledged is a prefix of the image. */
  lemma EveryPointIsSafe(script: seq<Reply>, i: nat, image: seq<Byte>, runs: seq<Tries>, j: nat)
    requires |runs| <= ChunkCount(|image|) && FileRan(script, i, image, runs) && j <= |FileRun(image, runs)|
    ensures var e := Watched(script, i, START, FileRun(image, runs)[..j]);
            e.stage != Broken && e.delivered <= image
  {
    hide FileRan, FileRun, Watched, AckedChunks;
    var all := FileRun(image, runs);
    FileWatched(script, i, image, runs);
    assert all == all[..j] + all[j..];
    WatchedSplits(script, i, START, all[..j], all[j..]);
    WatchedGrows(script, i + j, Watched(script, i, START, all[..j]), all[j..]);
  }

  // ---- the headers in the log ----

  /** The only header of an attempt is its first transfer. */
  lemma {:induction false} HeaderOfAttempt(attempt: U32, chunk: seq<Byte>, number: U32, t: nat, j: nat)
    requires j < t && Attempt(attempt, chunk, number, t)[j].ControlOut?
    ensures Attempt(attempt, chunk, number, t)[j] == Header(attempt, |chunk| % WORD, number, Sum64K(chunk))
  {
    hide Header, Sum64K;
    if j < t - 1 {
      HeaderOfAttempt(attempt, chunk, number, t - 1, j);
    }
  }

  lemma {:induction false} HeaderOfTries(chunk: seq<Byte>, number: U32, ts: Tries, j: nat) returns (attempt: nat)
    requires j < |Attempts(chunk, number, ts)| && Attempts(chunk, number, ts)[j].ControlOut?
    ensures attempt < |ts| && Attempts(chunk, number, ts)[j] == Header(attempt, |chunk| % WORD, number, Sum64K(chunk))
    decreases |ts|
  {
    hide Attempt, Header, Sum64K;
    var n := |ts| - 1;
    var before := Attempts(chunk, number, ts[..n]);
    if j < |before| {
      attempt := HeaderOfTries(chunk, number, ts[..n], j);
    } else {
      attempt := n;
      HeaderOfAttempt(n, chunk, number, ts[n], j - |before|);
    }
  }

  /** Each header in the log is that of a chunk k: its words are the attempt, the length of the
      chunk, sixteen times k and the checksum of the chunk. The third word tells a chunk from the
      one after it. */
  lemma {:induction false} HeadersNumberChunks(image: seq<Byte>, runs: seq<Tries>, j: nat) returns (k: nat)
    requires |runs| <= ChunkCount(|image|) && j < |FileRun(image, runs)| && FileRun(image, runs)[j].ControlOut?
    ensures k < |runs| && 0x1_0000 * k < |image|
    ensures var req, chunk := FileRun(image, runs)[j], image[0x1_0000 * k..Min(|image|, 0x1_0000 * k + 0x1_0000)];
            && req.request == 0x32 && |req.data| == 32
            && Word(req.data, 0) < |runs[k]| && Word(req.data, 4) == |chunk|
            && Word(req.data, 8) == 16 * k % WORD && Word(req.data, 8) != 16 * (k + 1) % WORD
            && Word(req.data, 12) == WordSum(chunk, 4) % WORD
    decreases |runs|
  {
    hide Attempts, Header, Sum64K, ChunkOf, ChunkCount, Word, WordSum;
    var n := |runs| - 1;
    var before := FileRun(image, runs[..n]);
    if j < |before| {
      k := HeadersNumberChunks(image, runs[..n], j);
    } else {
      k := n;
      var chunk := ChunkOf(image, k);
      ChunkStep(|image|, k);
      assert chunk == image[0x1_0000 * k..Min(|image|, 0x1_0000 * k + 0x1_0000)] by { ChunkIs(image, k); }
      var attempt := HeaderOfTries(chunk, k % WORD, runs[k], j - |before|);
      HeaderParses(attempt, |chunk|, k % WORD, Sum64K(chunk));
      Sum64KIs(chunk);
      NumberWraps(k);
      NumbersDiffer(k);
    }
  }

  lemma ChunkIs(image: seq<Byte>, k: nat)
    requires k < ChunkCount(|image|)
    ensures ChunkOf(image, k) == image[0x1_0000 * k..Min(|image|, 0x1_0000 * k + 0x1_0000)]
  {
  }

  lemma NumbersDiffer(k: nat)
    ensures 16 * k % WORD != 16 * (k + 1) % WORD
  {
  }

  // ---- the host ----

  lemma NoChunks(script: seq<Reply>, i: nat, image: seq<Byte>)
    ensures FileRun(image, []) == [] && FileRan(script, i, image, [])
  {
  }

  lemma OneMoreChunk(script: seq<Reply>, i: nat, image: seq<Byte>, runs: seq<Tries>, ts: Tries)
    requires |runs| < ChunkCount(|image|)
    ensures var k, at := |runs|, i + |FileRun(image, runs)|;
            var chunk := ChunkOf(image, k);
            && FileRun(image, runs + [ts]) == FileRun(image, runs) + Attempts(chunk, k % WORD, ts)
            && (LastAcked(script, i, image, runs + [ts]) <==> ChunkAcked(script, at, chunk, k % WORD, ts))
            && (FileRan(script, i, image, runs + [ts]) <==>
                  && FileRan(script, i, image, runs) && (k > 0 ==> LastAcked(script, i, image, runs))
                  && ts != [] && AttemptsRan(script, at, chunk, k % WORD, ts)
                  && (|ts| < 3 ==> !ChunkDeclined(script, at, chunk, k % WORD, ts)))
  {
    hide ChunkOf, Attempts, AttemptsRan, ChunkAcked, ChunkDeclined, ChunkCount;
    assert (runs + [ts])[..|runs|] == runs;
  }

  /** The body of the loop: read a chunk, send it. */
  method SendMediaChunk(dev: Device, file: seq<Byte>, pos: nat, buf: array<Byte>, bulkSize: nat, addr: U32,
                        ghost image: seq<Byte>, ghost i: nat, ghost runs: seq<Tries>)
    returns (ok: bool, ghost after: seq<Tries>)
    requires Quiet(dev) && buf.Length == CHUNK && i <= |dev.requests|
    requires |runs| < ChunkCount(|image|) && image == Image(file, 0, |image|)
    requires FileRan(dev.script, i, image, runs) && (runs != [] ==> LastAcked(dev.script, i, image, runs))
    requires dev.requests[i..] == FileRun(image, runs)
    requires pos == CHUNK * |runs| && bulkSize == ChunkSize(|image|, |runs|) && addr == |runs| % WORD
    modifies dev, buf
    ensures Quiet(dev) && i <= |dev.requests| && dev.requests[..i] == old(dev.requests[..i])
    ensures |after| <= ChunkCount(|image|) && FileRan(dev.script, i, image, after)
    ensures dev.requests[i..] == FileRun(image, after)
    ensures ok ==> |after| == |runs| + 1 && LastAcked(dev.script, i, image, after) && pos + bulkSize <= |file|
    ensures !ok ==>
      || (after == runs && pos + bulkSize > |file|)
      || (|after| == |runs| + 1 && !LastAcked(dev.script, i, image, after) && pos + bulkSize <= |file|)
  {
    hide Image, ChunkOf, FileRun, FileRan, LastAcked, Attempts, AttemptsRan, ChunkAcked, ChunkDeclined, AttemptVerdict;
    after := runs;
    var n := ReadBlock(file, pos, buf, bulkSize);
    if n != bulkSize {
      return false, after;
    }
    ChunkInFile(file, 0, |image|, |runs|);
    ghost var chunk := ChunkOf(image, |runs|);
    assert buf[..bulkSize] == chunk;
    var ret;
    ghost var ts;
    ret, ts := WriteMedia(dev, buf[..bulkSize], addr);
    OneMoreChunk(dev.script, i, image, runs, ts);
    after := runs + [ts];
    ok := ret == 0;
  }

  /** WriteMediaFile, on an open file of which fileSize bytes are announced: 0 exactly if the
      device acknowledged every one of them. Whatever was acknowledged is a prefix of the file. */
  method WriteMediaFile(dev: Device, file: seq<Byte>, fileSize: nat) returns (ret: int, ghost runs: seq<Tries>)
    requires Quiet(dev)
    modifies dev
    ensures Quiet(dev) && |old(dev.requests)| <= |dev.requests| && dev.requests[..|old(dev.requests)|] == old(dev.requests)
    ensures var i, image := |old(dev.requests)|, Image(file, 0, fileSize);
            && |runs| <= ChunkCount(fileSize)
            && dev.requests[i..] == FileRun(image, runs) && FileRan(dev.script, i, image, runs)
            && (ret == 0 <==> |runs| == ChunkCount(fileSize) && (runs != [] ==> LastAcked(dev.script, i, image, runs)))
            && (ret != 0 ==> if |runs| == AckedChunks(dev.script, i, image, runs) then UpTo(fileSize, |runs| + 1) > |file|
                             else UpTo(fileSize, |runs|) <= |file|)
    ensures ret in {0, -1}
    ensures var e := Watched(dev.script, |old(dev.requests)|, START, dev.requests[|old(dev.requests)|..]);
            && e.stage != Broken && e.delivered <= file
            && (ret == 0 <==> |e.delivered| == fileSize)
            && (ret != 0 ==>
                  e.stage == Over || NextTry(e).tries == 3 || |e.delivered| + Min(fileSize - |e.delivered|, 0x1_0000) > |file|)
  {
    hide Image, FileRun, FileRan, LastAcked, Watched, ChunkCount, UpTo, AckedChunks;
    ghost var i, image := |dev.requests|, Image(file, 0, fileSize);
    var buf := new Byte[CHUNK];
    var addr: U32, transferSize: nat, remain: nat := 0, 0, fileSize;
    runs := [];
    NoChunks(dev.script, i, image);
    ChunkStep(fileSize, 0);
    while remain != 0
      invariant Quiet(dev) && i <= |dev.requests| && dev.requests[..i] == old(dev.requests)
      invariant |runs| <= ChunkCount(fileSize) && transferSize + remain == fileSize
      invariant transferSize == UpTo(fileSize, |runs|) && addr == |runs| % WORD && (transferSize == 0 || transferSize <= |file|)
      invariant dev.requests[i..] == FileRun(image, runs) && FileRan(dev.script, i, image, runs)
      invariant runs != [] ==> LastAcked(dev.script, i, image, runs)
    {
      ChunkStep(fileSize, |runs|);
      var bulkSize := Min(remain, CHUNK);
      var ok;
      ghost var before := runs;
      ok, runs := SendMediaChunk(dev, file, transferSize, buf, bulkSize, addr, image, i, runs);
      if !ok {
        break;
      }
      WrapAdd(|before|, 1);
      transferSize, remain, addr := transferSize + bulkSize, remain - bulkSize, (addr + 1) % WORD;
    }
    ret := if remain == 0 then 0 else -1;
    ChunkStep(fileSize, |runs|);
    AckedIs(dev.script, i, image, runs);
    FileWatched(dev.script, i, image, runs);
    DeliveredIsInFile(file, fileSize, AckedChunks(dev.script, i, image, runs));
    EndsAt(fileSize, |runs|);
  }

  lemma AckedIs(script: seq<Reply>, i: nat, image: seq<Byte>, runs: seq<Tries>)
    requires |runs| <= ChunkCount(|image|)
    ensures AckedChunks(script, i, image, runs) == if runs == [] || LastAcked(script, i, image, runs) then |runs| else |runs| - 1
  {
  }

  lemma EndsAt(size: nat, t: nat)
    requires t <= ChunkCount(size)
    ensures UpTo(size, t) == size <==> t == ChunkCount(size)
    ensures t > 0 ==> UpTo(size, t - 1) < size && UpTo(size, t - 1) <= UpTo(size, t)
  {
    ChunkStep(size, t);
    if t > 0 {
      ChunkStep(size, t - 1);
    }
  }

  lemma DeliveredIsInFile(file: seq<Byte>, size: nat, k: nat)
    requires k <= ChunkCount(size) && (k == 0 || UpTo(size, k) <= |file|)
    ensures Image(file, 0, size)[..UpTo(size, k)] <= file
    ensures UpTo(size, k) == size <==> k == ChunkCount(size)
  {
    hide ChunkCount;
    ChunkStep(size, k);
  }
}
