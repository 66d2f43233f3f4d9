/** The write and cwr commands of update.cpp. */
module UpdateWrite {
  import opened Bytes
  import opened Link
  import opened Chunks
  import opened Checksum
  import opened LargeMem
  import opened LargeRuns
  import ControlMem

  /** The most that is read, and sent, at a time. */
  function Step(isCwr: bool): nat {
    if isCwr then 0x40 else CHUNK
  }

  /** What of the n bytes from skip on can be read: all of them, or the whole chunks that are left
      in the file. */
  function Readable(file: seq<Byte>, skip: nat, n: nat, isCwr: bool): (data: seq<Byte>)
    ensures |data| <= n && (skip + n <= |file| <==> |data| == n && (n > 0 || skip <= |file|))
    ensures skip <= |file| ==> data <= file[skip..]
  {
    if skip + n <= |file| then file[skip..skip + n]
    else if skip <= |file| then
      WholePartIs(|file| - skip, isCwr);
      file[skip..skip + WholePart(|file| - skip, isCwr)]
    else []
  }

  /** The whole pieces in a rest of the file. */
  function WholePart(rest: nat, isCwr: bool): nat {
    if isCwr then rest / 0x40 * 0x40 else rest / CHUNK * CHUNK
  }

  lemma WholePartIs(rest: nat, isCwr: bool)
    ensures WholePart(rest, isCwr) <= rest < WholePart(rest, isCwr) + Step(isCwr)
  {
    WholePartAt(rest, isCwr, 0);
  }

  /** Piece number k fits in the rest exactly if it is one of its whole pieces. */
  lemma WholePartAt(rest: nat, isCwr: bool, k: nat)
    ensures WholePart(rest, isCwr) <= rest < WholePart(rest, isCwr) + Step(isCwr)
    ensures Step(isCwr) * k + Step(isCwr) <= rest <==> Step(isCwr) * k < WholePart(rest, isCwr)
    ensures Step(isCwr) * k + Step(isCwr) <= rest ==> Step(isCwr) * k + Step(isCwr) <= WholePart(rest, isCwr)
    ensures Step(isCwr) * k <= WholePart(rest, isCwr) <==> Step(isCwr) * k <= rest
  {
    if isCwr {
      var q := rest / 0x40;
      assert 0x40 * q <= rest < 0x40 * q + 0x40;
    } else {
      var q := rest / CHUNK;
      assert CHUNK * q <= rest < CHUNK * q + CHUNK;
    }
  }

  /** Device memory after the file's n bytes from skip on were copied to addr. */
  function Copied(m0: seq<Byte>, addr: U32, file: seq<Byte>, skip: nat, n: nat): seq<Byte>
    requires |m0| == WORD && (n == 0 || skip + n <= |file|)
  {
    if n == 0 then m0 else Store(m0, addr, file[skip..skip + n])
  }

  /** Byte by byte, what a completed write means: memory [addr, addr + n) holds file[skip,
      skip + n), and every other byte is what it was. */
  lemma CopiedBytes(m0: seq<Byte>, addr: U32, file: seq<Byte>, skip: nat, n: nat, p: U32)
    requires |m0| == WORD && n <= WORD && skip + n <= |file|
    ensures Copied(m0, addr, file, skip, n)[p] == if Offset(addr, p) < n then file[skip + Offset(addr, p)] else m0[p]
  {
    if n > 0 {
      StoreAt(m0, addr, file[skip..skip + n], p);
    }
  }

  /** The k-th piece of the data. */
  function Piece(data: seq<Byte>, isCwr: bool, k: nat): seq<Byte> {
    if Step(isCwr) * k <= |data| then data[Step(isCwr) * k..Min(Step(isCwr) * k + Step(isCwr), |data|)] else []
  }

  /** Reading goes on exactly as long as there is data, and yields its next piece. */
  lemma NextPiece(file: seq<Byte>, skip: nat, n: nat, isCwr: bool, k: nat)
    requires Step(isCwr) * k < n && Step(isCwr) * k <= |Readable(file, skip, n, isCwr)|
    ensures var data, done := Readable(file, skip, n, isCwr), Step(isCwr) * k;
            var bulkSize := Min(n - done, Step(isCwr));
            if skip + done + bulkSize <= |file| then
              && done < |data| && file[skip + done..skip + done + bulkSize] == Piece(data, isCwr, k)
              && Min(done + Step(isCwr), n) == Min(Step(isCwr) * (k + 1), |data|) == done + bulkSize
              && (done + bulkSize < n ==> done + bulkSize == Step(isCwr) * (k + 1))
            else done == |data| < n
  {
    var done, bulkSize := Step(isCwr) * k, Min(n - Step(isCwr) * k, Step(isCwr));
    if skip + done + bulkSize <= |file| {
      PieceFits(file, skip, n, isCwr, k);
    } else {
      PieceMissing(file, skip, n, isCwr, k);
    }
  }

  lemma PieceFits(file: seq<Byte>, skip: nat, n: nat, isCwr: bool, k: nat)
    requires Step(isCwr) * k < n && skip + Step(isCwr) * k + Min(n - Step(isCwr) * k, Step(isCwr)) <= |file|
    ensures var data, done := Readable(file, skip, n, isCwr), Step(isCwr) * k;
            var bulkSize := Min(n - done, Step(isCwr));
            && done < |data| && file[skip + done..skip + done + bulkSize] == Piece(data, isCwr, k)
            && Min(done + Step(isCwr), n) == Min(Step(isCwr) * (k + 1), |data|) == done + bulkSize
            && (done + bulkSize < n ==> done + bulkSize == Step(isCwr) * (k + 1))
  {
    hide Readable, Piece;
    var done, data := Step(isCwr) * k, Readable(file, skip, n, isCwr);
    var bulkSize := Min(n - done, Step(isCwr));
    ReadableHas(file, skip, n, isCwr, k);
    PieceOf(data, isCwr, k);
    SliceOfRest(data, file, skip, done, bulkSize);
  }

  lemma SliceOfRest(data: seq<Byte>, file: seq<Byte>, skip: nat, done: nat, n: nat)
    requires skip <= |file| && data <= file[skip..] && done + n <= |data|
    ensures data[done..done + n] == file[skip + done..skip + done + n]
  {
    assert data == file[skip..][..|data|];
  }

  lemma PieceOf(data: seq<Byte>, isCwr: bool, k: nat)
    requires Step(isCwr) * k <= |data|
    ensures Piece(data, isCwr, k) == data[Step(isCwr) * k..Min(Step(isCwr) * k + Step(isCwr), |data|)]
  {
  }

  /** A piece that fits is in the data that can be read. */
  lemma ReadableHas(file: seq<Byte>, skip: nat, n: nat, isCwr: bool, k: nat)
    requires Step(isCwr) * k < n && skip + Step(isCwr) * k + Min(n - Step(isCwr) * k, Step(isCwr)) <= |file|
    ensures var data, done := Readable(file, skip, n, isCwr), Step(isCwr) * k;
            && data <= file[skip..] && done < |data| && Min(done + Step(isCwr), |data|) == done + Min(n - done, Step(isCwr))
  {
    hide WholePart;
    WholePartAt(|file| - skip, isCwr, k);
  }

  lemma PieceMissing(file: seq<Byte>, skip: nat, n: nat, isCwr: bool, k: nat)
    requires Step(isCwr) * k < n && Step(isCwr) * k <= |Readable(file, skip, n, isCwr)|
    requires skip + Step(isCwr) * k + Min(n - Step(isCwr) * k, Step(isCwr)) > |file|
    ensures Step(isCwr) * k == |Readable(file, skip, n, isCwr)| < n
  {
    hide WholePart;
    if skip <= |file| {
      WholePartAt(|file| - skip, isCwr, k);
    }
  }

  // ---- the bulk path ----

  function BulkCount(turns: seq<Turn>): nat {
    if turns == [] then 0 else BulkCount(turns[..|turns| - 1]) + turns[|turns| - 1].call.bulks
  }

  /** The sequence number counts the bulk transfers. */
  function SeqAfter(seqNum: U32, turns: seq<Turn>): U32 {
    SeqAt(seqNum, BulkCount(turns))
  }

  lemma SeqSnoc(seqNum: U32, turns: seq<Turn>, t: Turn)
    ensures SeqAfter(seqNum, turns + [t]) == (SeqAfter(seqNum, turns) + t.call.bulks) % WORD
  {
    assert (turns + [t])[..|turns|] == turns;
    WrapAdd(seqNum + BulkCount(turns), t.call.bulks);
  }

  /** The header for chunk k. */
  function ChunkHeader(addr: U32, data: seq<Byte>, seqNum: U32, k: nat): Request
    requires k < ChunkCount(|data|)
  {
    WriteHeader(Next(addr, CHUNK * k), ChunkOf(data, k), seqNum)
  }

  /** Call k is for chunk k. */
  ghost predicate WritesChunks(addr: U32, data: seq<Byte>, seqNum: U32, turns: seq<Turn>) {
    && |turns| <= ChunkCount(|data|)
    && forall k {:trigger turns[k]} :: 0 <= k < |turns| ==>
         turns[k] == Writing(ChunkHeader(addr, data, SeqAfter(seqNum, turns[..k]), k), ChunkOf(data, k), turns[k].call)
  }

  lemma OneMoreChunk(addr: U32, data: seq<Byte>, seqNum: U32, turns: seq<Turn>, t: Turn)
    requires |turns| < ChunkCount(|data|)
    ensures WritesChunks(addr, data, seqNum, turns + [t]) <==>
              && WritesChunks(addr, data, seqNum, turns)
              && t == Writing(ChunkHeader(addr, data, SeqAfter(seqNum, turns), |turns|), ChunkOf(data, |turns|), t.call)
  {
    hide ChunkHeader, ChunkOf, SeqAfter;
    var all := turns + [t];
    assert all[|turns|] == t && all[..|turns|] == turns;
    forall k | 0 <= k < |turns|
      ensures all[k] == turns[k] && all[..k] == turns[..k]
    {
    }
  }

  lemma {:induction false} SameWrites(script: seq<Reply>, i: nat, addr: U32, data: seq<Byte>, seqNum: U32, a: seq<Turn>, b: seq<Turn>)
    requires WritesChunks(addr, data, seqNum, a) && WritesChunks(addr, data, seqNum, b)
    requires AllRan(script, i, a) && AllRan(script, i, b) && |a| == |b|
    ensures a == b
    decreases |a|
  {
    hide AllRan, ChunkHeader, ChunkOf, SeqAfter, WritesChunks;
    if a != [] {
      var k := |a| - 1;
      CountsChunks(addr, data, seqNum, a);
      LastTurn(a);
      LastTurn(b);
      OneMoreChunk(addr, data, seqNum, a[..k], a[k]);
      OneMoreChunk(addr, data, seqNum, b[..k], b[k]);
      FrontRan(script, i, a, k);
      FrontRan(script, i, b, k);
      SameWrites(script, i, addr, data, seqNum, a[..k], b[..k]);
      LastIsDetermined(script, i, a, b);
    }
  }

  /** A run ends with the last chunk or a chunk that fails; the replies decide all of it. */
  lemma WriteIsDetermined(script: seq<Reply>, i: nat, addr: U32, data: seq<Byte>, seqNum: U32, a: seq<Turn>, b: seq<Turn>)
    requires WritesChunks(addr, data, seqNum, a) && AllRan(script, i, a) && (LastWhole(script, i, a) ==> |a| == ChunkCount(|data|))
    requires WritesChunks(addr, data, seqNum, b) && AllRan(script, i, b) && (LastWhole(script, i, b) ==> |b| == ChunkCount(|data|))
    ensures a == b
  {
    hide AllRan, LastWhole, ChunkHeader, ChunkOf, SeqAfter, ChunkCount;
    var n := Min(|a|, |b|);
    FrontRan(script, i, a, n);
    FrontRan(script, i, b, n);
    assert forall k :: 0 <= k < n ==> a[..n][..k] == a[..k] && b[..n][..k] == b[..k];
    SameWrites(script, i, addr, data, seqNum, a[..n], b[..n]);
    assert a[..|a|] == a && b[..|b|] == b;
  }

  /** How many of the given transfers are bulk writes. */
  function BulkOuts(reqs: seq<Request>): nat {
    if reqs == [] then 0 else BulkOuts(reqs[..|reqs| - 1]) + if reqs[|reqs| - 1].BulkOut? then 1 else 0
  }

  lemma {:induction false} BulkOutsSplit(a: seq<Request>, b: seq<Request>)
    ensures BulkOuts(a + b) == BulkOuts(a) + BulkOuts(b)
    decreases |b|
  {
    if b == [] {
      assert a + b == a;
    } else {
      var n := |b| - 1;
      assert (a + b)[..|a| + n] == a + b[..n];
      BulkOutsSplit(a, b[..n]);
    }
  }

  /** All of them, or none. */
  lemma {:induction false} BulkOutsAre(reqs: seq<Request>, all: bool)
    requires forall k {:trigger reqs[k]} :: 0 <= k < |reqs| ==> (reqs[k].BulkOut? <==> all)
    ensures BulkOuts(reqs) == if all then |reqs| else 0
    decreases |reqs|
  {
    if reqs != [] {
      BulkOutsAre(reqs[..|reqs| - 1], all);
    }
  }

  lemma BulkOutsOfCall(script: seq<Reply>, i: nat, t: Turn, j: nat)
    requires t.Writing? && t.hdr.ControlOut? && j <= |t.Transfers(script, i)|
    ensures BulkOuts(t.Transfers(script, i)) == t.call.bulks
    ensures j <= t.call.headers ==> BulkOuts(t.Transfers(script, i)[..j]) == 0
  {
    hide Repeat, BulkWrites, BulkWriteAt, Progress, BulkOuts;
    var headers, bulks := Repeat(t.hdr, t.call.headers), BulkWrites(script, i + t.call.headers, t.data, t.call.bulks);
    forall k | 0 <= k < t.call.headers
      ensures headers[k] == t.hdr
    {
      RepeatAt(t.hdr, t.call.headers, k);
    }
    forall k | 0 <= k < t.call.bulks
      ensures bulks[k].BulkOut?
    {
      BulkWriteIs(script, i + t.call.headers, t.data, t.call.bulks, k);
      BulkWriteKind(t.data, Progress(script, i + t.call.headers, |t.data|, 0x1000, k));
    }
    BulkOutsAre(headers, false);
    BulkOutsAre(bulks, true);
    BulkOutsSplit(headers, bulks);
    if j <= t.call.headers {
      assert t.Transfers(script, i)[..j] == headers[..j];
      BulkOutsAre(headers[..j], false);
    }
  }

  /** One call more. */
  lemma BulkOutsSnoc(script: seq<Reply>, i: nat, turns: seq<Turn>, t: Turn)
    requires t.Writing? && t.hdr.ControlOut?
    ensures BulkOuts(RunLog(script, i, turns + [t])) == BulkOuts(RunLog(script, i, turns)) + t.call.bulks
  {
    hide RunLog, Turn.Transfers, BulkOuts, AllRan, LastWhole;
    var log := RunLog(script, i, turns);
    LogSnoc(script, i, turns, t);
    BulkOutsOfCall(script, i + |log|, t, 0);
    BulkOutsSplit(log, t.Transfers(script, i + |log|));
  }

  /** The bulk transfers that the sequence number counts are those in the log. */
  lemma {:induction false} BulkOutsOfRun(script: seq<Reply>, i: nat, addr: U32, data: seq<Byte>, seqNum: U32, turns: seq<Turn>)
    requires WritesChunks(addr, data, seqNum, turns)
    ensures BulkOuts(RunLog(script, i, turns)) == BulkCount(turns)
    decreases |turns|
  {
    hide RunLog, ChunkHeader, ChunkOf, SeqAfter, WritesChunks, ChunkCount, BulkOuts, BulkCount;
    if turns == [] {
      NoTurns(script, i);
      BulkOutsAre([], false);
      NoneCounted();
    } else {
      var n := |turns| - 1;
      var init, t := turns[..n], turns[n];
      LastTurn(turns);
      CountsChunks(addr, data, seqNum, turns);
      OneMoreChunk(addr, data, seqNum, init, t);
      BulkOutsOfRun(script, i, addr, data, seqNum, init);
      CountSnoc(init, t);
      HeaderKind(addr, data, SeqAfter(seqNum, init), n);
      BulkOutsSnoc(script, i, init, t);
    }
  }

  lemma NoneCounted()
    ensures BulkCount([]) == 0
  {
  }

  lemma CountSnoc(turns: seq<Turn>, t: Turn)
    ensures BulkCount(turns + [t]) == BulkCount(turns) + t.call.bulks
  {
    assert (turns + [t])[..|turns|] == turns;
  }

  lemma HeaderKind(addr: U32, data: seq<Byte>, seqNum: U32, k: nat)
    requires k < ChunkCount(|data|)
    ensures ChunkHeader(addr, data, seqNum, k).ControlOut?
  {
  }

  /** Every header in the log is that of one of the chunks, and its four words are the place the
      chunk is for, the chunk's length, the sum of RFC 1071 over it, and the sequence number, which
      counts the bulk writes in the log before it. wIndex is the least number of blocks of wValue
      bytes that hold the chunk. */
  lemma {:induction false} HeadersInNumbers(script: seq<Reply>, i: nat, addr: U32, data: seq<Byte>, seqNum: U32, turns: seq<Turn>, j: nat)
    returns (k: nat)
    requires WritesChunks(addr, data, seqNum, turns) && j < |RunLog(script, i, turns)| && RunLog(script, i, turns)[j].ControlOut?
    ensures k < |turns| && 0x1_0000 * k < |data|
    ensures var log, chunk := RunLog(script, i, turns), data[0x1_0000 * k..Min(|data|, 0x1_0000 * k + 0x1_0000)];
            && log[j].request == 0x11 && |log[j].data| == 16
            && Word(log[j].data, 0) == (addr + 0x1_0000 * k) % WORD && Word(log[j].data, 4) == |chunk|
            && Word(log[j].data, 8) == Rfc1071(WordSum(chunk, 2), false)
            && Word(log[j].data, 12) == (seqNum + BulkOuts(log[..j])) % WORD
            && log[j].value == Min(|chunk|, 0x1000) && |chunk| <= log[j].index * log[j].value < |chunk| + log[j].value
    decreases |turns|
  {
    hide RunLog, Turn.Transfers, ChunkHeader, ChunkOf, SeqAfter, WritesChunks, Word, Rfc1071, WordSum, ChunkCount, BulkOuts;
    if turns == [] {
      NoTurns(script, i);
      assert false;
    } else {
      var n := |turns| - 1;
      var init, t := turns[..n], turns[n];
      var all, log := RunLog(script, i, turns), RunLog(script, i, init);
      LastTurn(turns);
      OneMoreTurn(script, i, init, t);
      CountsChunks(addr, data, seqNum, turns);
      OneMoreChunk(addr, data, seqNum, init, t);
      if j < |log| {
        k := HeadersInNumbers(script, i, addr, data, seqNum, init, j);
        assert all[..j] == log[..j];
      } else {
        k := n;
        var made := t.Transfers(script, i + |log|);
        OnlyItsHeader(script, i + |log|, t, j - |log|);
        HeaderKind(addr, data, SeqAfter(seqNum, init), n);
        BulkOutsOfRun(script, i, addr, data, seqNum, init);
        BulkOutsOfCall(script, i + |log|, t, j - |log|);
        BulkOutsSplit(log, made[..j - |log|]);
        assert all[..j] == log + made[..j - |log|];
        ChunkHeaderInNumbers(addr, data, seqNum, init, n);
      }
    }
  }

  lemma ChunkHeaderInNumbers(addr: U32, data: seq<Byte>, seqNum: U32, before: seq<Turn>, k: nat)
    requires k < ChunkCount(|data|)
    ensures 0x1_0000 * k < |data|
    ensures var hdr, chunk := ChunkHeader(addr, data, SeqAfter(seqNum, before), k), data[0x1_0000 * k..Min(|data|, 0x1_0000 * k + 0x1_0000)];
            && hdr.ControlOut? && hdr.request == 0x11 && |hdr.data| == 16
            && Word(hdr.data, 0) == (addr + 0x1_0000 * k) % WORD && Word(hdr.data, 4) == |chunk|
            && Word(hdr.data, 8) == Rfc1071(WordSum(chunk, 2), false)
            && Word(hdr.data, 12) == (seqNum + BulkCount(before)) % WORD
            && hdr.value == Min(|chunk|, 0x1000) && |chunk| <= hdr.index * hdr.value < |chunk| + hdr.value
  {
    hide WriteHeader, Rfc1071, WordSum, ChunkCount, Word, BulkCount;
    ChunkStarts(|data|, k);
    ChunkFits(data, k);
    assert ChunkOf(data, k) == data[0x1_0000 * k..Min(|data|, 0x1_0000 * k + 0x1_0000)];
    WriteHeaderInNumbers(Next(addr, CHUNK * k), ChunkOf(data, k), SeqAfter(seqNum, before));
  }

  lemma HeaderOfChunk(addr: U32, data: seq<Byte>, seqNum: U32, k: nat)
    requires k < ChunkCount(|data|)
    ensures ChunkHeader(addr, data, seqNum, k) == WriteHeader(Next(addr, CHUNK * k), ChunkOf(data, k), seqNum)
  {
  }

  /** A call sends no control transfer but its header. */
  lemma OnlyItsHeader(script: seq<Reply>, i: nat, t: Turn, j: nat)
    requires t.Writing? && j < |t.Transfers(script, i)| && t.Transfers(script, i)[j].ControlOut?
    ensures t.Transfers(script, i)[j] == t.hdr && j < t.call.headers
  {
    hide Repeat, BulkWrites, BulkWriteAt, Progress;
    if j < t.call.headers {
      RepeatAt(t.hdr, t.call.headers, j);
    } else {
      BulkWriteIs(script, i + t.call.headers, t.data, t.call.bulks, j - t.call.headers);
      BulkWriteKind(t.data, Progress(script, i + t.call.headers, |t.data|, 0x1000, j - t.call.headers));
      assert false;
    }
  }

  lemma BulkWriteKind(data: seq<Byte>, at: nat)
    requires at <= |data|
    ensures BulkWriteAt(data, at).BulkOut?
  {
  }

  /** Which chunk byte o of the data lies in. */
  function ChunkNo(o: nat): nat {
    o / CHUNK
  }

  lemma ChunkNoIs(o: nat, k: nat)
    ensures CHUNK * ChunkNo(o) <= o
    ensures ChunkNo(o) == k <==> CHUNK * k <= o < CHUNK * k + CHUNK
  {
  }

  /** Byte o of its chunk was kept: the device heard a header of the call, and at least that many
      bytes reached it. */
  predicate Kept(script: seq<Reply>, i: nat, t: Turn, o: nat) {
    t.HeaderHeard(script, i) && o < Stored(script, i, t.Size(), t.call)
  }

  /** Byte o of the data was kept. */
  predicate ByteKept(script: seq<Reply>, i: nat, turns: seq<Turn>, o: nat) {
    ChunkNoIs(o, ChunkNo(o));
    var k := ChunkNo(o);
    k < |turns| && Kept(script, StartOf(script, i, turns, k), turns[k], o - CHUNK * k)
  }

  lemma ByteKeptSnoc(script: seq<Reply>, i: nat, turns: seq<Turn>, t: Turn, o: nat)
    ensures CHUNK * ChunkNo(o) <= o
    ensures ByteKept(script, i, turns + [t], o) <==>
              || ByteKept(script, i, turns, o)
              || (ChunkNo(o) == |turns| && Kept(script, i + |RunLog(script, i, turns)|, t, o - CHUNK * |turns|))
    ensures ByteKept(script, i, turns, o) ==> ChunkNo(o) < |turns|
  {
    hide RunLog, Kept, ChunkNo;
    var all, k := turns + [t], ChunkNo(o);
    ChunkNoIs(o, k);
    if k <= |turns| {
      assert all[..k] == turns[..k];
    }
  }

  /** One call, byte by byte. */
  lemma BytesOfCall(script: seq<Reply>, i: nat, st: DeviceState, address: U32, chunk: seq<Byte>, seqNum: U32, c: Call, p: U32)
    requires |st.mem| == WORD && |chunk| <= 0x1_0000 && st.stream.Spent()
    requires CallRan(script, i, WriteHeader(address, chunk, seqNum), |chunk|, 0x1000, c)
    ensures var hdr := WriteHeader(address, chunk, seqNum);
            var st', o := Run(script, i, st, WriteTransfers(script, i, hdr, chunk, c)), Offset(address, p);
            && (CallSize(script, i, |chunk|, 0x1000, c) == |chunk| ==> st'.stream.Spent())
            && st'.mem[p] == if Heard(script, i, hdr, c.headers) && o < Stored(script, i, |chunk|, c) then chunk[o] else st.mem[p]
  {
    hide Run, CallRan, CallSize, WriteTransfers, WriteHeader, Store, Offset, Heard, Stored, Received;
    WriteEffect(script, i, st, address, chunk, seqNum, c);
    StoreAt(st.mem, address, chunk[..Stored(script, i, |chunk|, c)], p);
  }

  /** Where byte o of the data lies in chunk k. */
  lemma ByteOfChunk(addr: U32, data: seq<Byte>, k: nat, p: U32)
    requires |data| <= WORD && k < ChunkCount(|data|)
    ensures var o, o' := Offset(addr, p), Offset(Next(addr, CHUNK * k), p);
            && (o' < |ChunkOf(data, k)| <==> o < |data| && ChunkNo(o) == k)
            && (o' < |ChunkOf(data, k)| ==> o' == o - CHUNK * k && ChunkOf(data, k)[o'] == data[o])
  {
    hide Offset, Next, ChunkNo, ChunkCount;
    ChunkStarts(|data|, k);
    ChunkNoIs(Offset(addr, p), k);
    ControlMem.OffsetFurther(addr, CHUNK * k, ChunkSize(|data|, k), p);
  }

  /** Memory after any run of calls, byte by byte: the bytes that were kept are in their places,
      those of a failed last call included, and every other byte is what it was. */
  lemma {:induction false} ChunkBytes(script: seq<Reply>, i: nat, st: DeviceState, addr: U32, data: seq<Byte>, seqNum: U32, turns: seq<Turn>, p: U32)
    requires |st.mem| == WORD && |data| <= WORD && st.stream.Spent()
    requires WritesChunks(addr, data, seqNum, turns) && AllRan(script, i, turns)
    ensures var st', o := Run(script, i, st, RunLog(script, i, turns)), Offset(addr, p);
            && (LastWhole(script, i, turns) ==> st'.stream.Spent())
            && st'.mem[p] == if o < |data| && ByteKept(script, i, turns, o) then data[o] else st.mem[p]
    decreases |turns|
  {
    hide Run, Received, RunLog, Turn.Ran, Turn.Whole, Turn.Transfers, Kept, Offset, Next, AllRan, LastWhole, ChunkHeader, ChunkOf, SeqAfter;
    hide ByteKept, ChunkCount, WritesChunks, ChunkNo;
    if turns == [] {
      NoTurns(script, i);
      RunNothing(script, i, st);
      NoneKept(script, i, Offset(addr, p));
    } else {
      var k := |turns| - 1;
      var init, t := turns[..k], turns[k];
      LastTurn(turns);
      OneMoreTurn(script, i, init, t);
      CountsChunks(addr, data, seqNum, turns);
      OneMoreChunk(addr, data, seqNum, init, t);
      ChunkBytes(script, i, st, addr, data, seqNum, init, p);
      var log := RunLog(script, i, init);
      RunSplits(script, i, st, log, t.Transfers(script, i + |log|));
      BytesOfTurn(script, i + |log|, Run(script, i, st, log), addr, data, SeqAfter(seqNum, init), k, t, p);
      ByteKeptSnoc(script, i, init, t, Offset(addr, p));
    }
  }

  /** The same for one call. */
  lemma BytesOfTurn(script: seq<Reply>, i: nat, st: DeviceState, addr: U32, data: seq<Byte>, seqNum: U32, k: nat, t: Turn, p: U32)
    requires |st.mem| == WORD && |data| <= WORD && st.stream.Spent() && k < ChunkCount(|data|)
    requires t == Writing(ChunkHeader(addr, data, seqNum, k), ChunkOf(data, k), t.call) && t.Ran(script, i)
    ensures var st', o := Run(script, i, st, t.Transfers(script, i)), Offset(addr, p);
            && (t.Whole(script, i) ==> st'.stream.Spent())
            && (ChunkNo(o) == k ==> CHUNK * k <= o)
            && st'.mem[p] == if o < |data| && ChunkNo(o) == k && Kept(script, i, t, o - CHUNK * k) then data[o] else st.mem[p]
  {
    hide Run, CallRan, CallSize, WriteTransfers, WriteHeader, Heard, Stored, Offset, Next, ChunkCount, ChunkOf, ChunkNo, Received;
    ChunkFits(data, k);
    BytesOfCall(script, i, st, Next(addr, CHUNK * k), ChunkOf(data, k), seqNum, t.call, p);
    ByteOfChunk(addr, data, k, p);
    ChunkNoIs(Offset(addr, p), k);
  }

  lemma NoneKept(script: seq<Reply>, i: nat, o: nat)
    ensures !ByteKept(script, i, [], o)
  {
  }

  /** Of a call that came through whole, every byte is kept if the device heard a header. */
  lemma WholeIsKept(script: seq<Reply>, i: nat, addr: U32, data: seq<Byte>, seqNum: U32, turns: seq<Turn>, o: nat)
    requires WritesChunks(addr, data, seqNum, turns) && AllRan(script, i, turns) && LastWhole(script, i, turns)
    requires |turns| == ChunkCount(|data|) && o < |data|
    ensures ChunkNo(o) < |turns|
    ensures ByteKept(script, i, turns, o) <==> turns[ChunkNo(o)].HeaderHeard(script, StartOf(script, i, turns, ChunkNo(o)))
  {
    hide RunLog, AllRan, Turn.HeaderHeard, ChunkHeader, SeqAfter, CallSize, Stored;
    var k := ChunkNo(o);
    FrontRan(script, i, turns, k + 1);
    assert turns[..k + 1][..k] == turns[..k] && turns[..k + 1][k] == turns[k] && turns[..|turns|] == turns;
    ChunkFits(data, k);
    WholeIsStored(script, StartOf(script, i, turns, k), turns[k]);
  }

  lemma WholeIsStored(script: seq<Reply>, i: nat, t: Turn)
    requires t.Writing? && t.Size() <= 0x1_0000 && t.Whole(script, i)
    ensures Stored(script, i, t.Size(), t.call) == t.Size()
  {
    hide Progress, Reached;
    ReachesProgress(script, i + t.call.headers, t.Size(), 0x1000, t.call.bulks);
  }

  lemma CountsChunks(addr: U32, data: seq<Byte>, seqNum: U32, turns: seq<Turn>)
    requires WritesChunks(addr, data, seqNum, turns)
    ensures |turns| <= ChunkCount(|data|)
  {
  }

  lemma ChunkFits(data: seq<Byte>, k: nat)
    requires k < ChunkCount(|data|)
    ensures 0 < |ChunkOf(data, k)| <= 0x1_0000
  {
  }

  /** A write that was told that all of its bytes moved leaves the flat copy, whatever was in memory
      before, if and only if the device heard a header of each chunk. Only a session left open
      from before could change this. */
  lemma WriteCopiesIffHeard(script: seq<Reply>, i: nat, stream: Stream, addr: U32, data: seq<Byte>, seqNum: U32, turns: seq<Turn>)
    requires |data| <= WORD && stream.Spent() && |turns| == ChunkCount(|data|)
    requires WritesChunks(addr, data, seqNum, turns) && AllRan(script, i, turns) && LastWhole(script, i, turns)
    ensures (forall m: seq<Byte> :: |m| == WORD ==> Run(script, i, DeviceState(m, stream), RunLog(script, i, turns)).mem == Store(m, addr, data))
            <==> AllHeard(script, i, turns)
  {
    hide Run, RunLog, Store, Offset, Next, WritesChunks, AllRan, LastWhole, Turn.HeaderHeard, StartOf, ChunkCount, Received;
    if AllHeard(script, i, turns) {
      forall m: seq<Byte> | |m| == WORD
        ensures Run(script, i, DeviceState(m, stream), RunLog(script, i, turns)).mem == Store(m, addr, data)
      {
        AllBytes(script, i, DeviceState(m, stream), addr, data, seqNum, turns);
      }
    } else {
      var k :| 0 <= k < |turns| && !turns[k].HeaderHeard(script, StartOf(script, i, turns, k));
      var m := UnheardIsLost(script, i, stream, addr, data, seqNum, turns, k);
    }
  }

  lemma UnheardIsLost(script: seq<Reply>, i: nat, stream: Stream, addr: U32, data: seq<Byte>, seqNum: U32, turns: seq<Turn>, k: nat)
    returns (m: seq<Byte>)
    requires |data| <= WORD && stream.Spent() && k < |turns| == ChunkCount(|data|)
    requires !turns[k].HeaderHeard(script, StartOf(script, i, turns, k))
    requires WritesChunks(addr, data, seqNum, turns) && AllRan(script, i, turns) && LastWhole(script, i, turns)
    ensures |m| == WORD && Run(script, i, DeviceState(m, stream), RunLog(script, i, turns)).mem != Store(m, addr, data)
  {
    hide Run, RunLog, Store, Offset, Next, WritesChunks, AllRan, LastWhole, ByteKept, ChunkNo, ChunkCount, Turn.HeaderHeard, StartOf, Received;
    var o := CHUNK * k;
    ChunkStarts(|data|, k);
    ChunkNoIs(o, k);
    WholeIsKept(script, i, addr, data, seqNum, turns, o);
    var p, other: Byte := Next(addr, o), if data[o] == 0 then 1 else 0;
    OffsetOfNext(addr, o);
    m := seq(WORD, _ => other);
    ChunkBytes(script, i, DeviceState(m, stream), addr, data, seqNum, turns, p);
    StoreAt(m, addr, data, p);
    assert Store(m, addr, data)[p] == data[o] != other;
  }

  lemma ChunkStarts(size: nat, k: nat)
    requires k < ChunkCount(size)
    ensures CHUNK * k < size && ChunkSize(size, k) == Min(size - CHUNK * k, CHUNK)
  {
  }

  lemma AllBytes(script: seq<Reply>, i: nat, st: DeviceState, addr: U32, data: seq<Byte>, seqNum: U32, turns: seq<Turn>)
    requires |st.mem| == WORD && |data| <= WORD && st.stream.Spent() && |turns| == ChunkCount(|data|)
    requires WritesChunks(addr, data, seqNum, turns) && AllRan(script, i, turns) && LastWhole(script, i, turns) && AllHeard(script, i, turns)
    ensures Run(script, i, st, RunLog(script, i, turns)).mem == Store(st.mem, addr, data)
  {
    hide Run, RunLog, Store, Offset, Next, WritesChunks, AllRan, LastWhole, Turn.HeaderHeard, StartOf, ByteKept, ChunkNo, ChunkCount, Received;
    var m' := Run(script, i, st, RunLog(script, i, turns)).mem;
    forall p: U32
      ensures m'[p] == Store(st.mem, addr, data)[p]
    {
      ChunkBytes(script, i, st, addr, data, seqNum, turns, p);
      StoreAt(st.mem, addr, data, p);
      if Offset(addr, p) < |data| {
        WholeIsKept(script, i, addr, data, seqNum, turns, Offset(addr, p));
        var k := ChunkNo(Offset(addr, p));
        assert turns[k].HeaderHeard(script, StartOf(script, i, turns, k));
      }
    }
    assert m' == Store(st.mem, addr, data);
  }

  /** How many bytes of data the calls got into memory, if the device heard each of them. */
  function BytesStored(script: seq<Reply>, i: nat, turns: seq<Turn>): nat {
    if turns == [] then 0
    else
      var k := |turns| - 1;
      CHUNK * k + Stored(script, StartOf(script, i, turns, k), turns[k].Size(), turns[k].call)
  }

  lemma StoredSnoc(script: seq<Reply>, i: nat, turns: seq<Turn>, t: Turn)
    ensures BytesStored(script, i, turns + [t]) ==
            CHUNK * |turns| + Stored(script, i + |RunLog(script, i, turns)|, t.Size(), t.call)
  {
    hide RunLog, Stored, Turn.Size;
    assert (turns + [t])[..|turns|] == turns;
  }

  /** If the device heard each call, memory has the bytes that reached it, those of a failed last
      call included. */
  lemma {:induction false} HeardWrites(script: seq<Reply>, i: nat, st: DeviceState, addr: U32, data: seq<Byte>, seqNum: U32, turns: seq<Turn>)
    requires |st.mem| == WORD
    requires WritesChunks(addr, data, seqNum, turns) && AllRan(script, i, turns) && AllHeard(script, i, turns)
    ensures BytesStored(script, i, turns) <= |data|
    ensures LastWhole(script, i, turns) ==> BytesStored(script, i, turns) == UpTo(|data|, |turns|)
    ensures Run(script, i, st, RunLog(script, i, turns)).mem == Store(st.mem, addr, data[..BytesStored(script, i, turns)])
    decreases |turns|
  {
    hide Run, Received, RunLog, Turn.Ran, Turn.Whole, Turn.Transfers, Turn.HeaderHeard, Next, AllRan, LastWhole, AllHeard, ChunkHeader, ChunkOf, SeqAfter;
    hide Stored, Store, ChunkCount, WritesChunks, UpTo, BytesStored, Turn.Size;
    if turns == [] {
      NoTurns(script, i);
      RunNothing(script, i, st);
      StoreNothing(st.mem, addr);
      NothingStored(script, i, |data|);
    } else {
      var k := |turns| - 1;
      LastTurn(turns);
      OneMoreTurn(script, i, turns[..k], turns[k]);
      OneMoreHeard(script, i, turns[..k], turns[k]);
      CountsChunks(addr, data, seqNum, turns);
      OneMoreChunk(addr, data, seqNum, turns[..k], turns[k]);
      HeardWrites(script, i, st, addr, data, seqNum, turns[..k]);
      OneMoreStored(script, i, st, addr, data, seqNum, turns[..k], turns[k]);
    }
  }

  lemma OneMoreStored(script: seq<Reply>, i: nat, st: DeviceState, addr: U32, data: seq<Byte>, seqNum: U32, turns: seq<Turn>, t: Turn)
    requires |st.mem| == WORD && |turns| < ChunkCount(|data|)
    requires t == Writing(ChunkHeader(addr, data, SeqAfter(seqNum, turns), |turns|), ChunkOf(data, |turns|), t.call)
    requires var at := i + |RunLog(script, i, turns)|; t.Ran(script, at) && t.HeaderHeard(script, at)
    requires BytesStored(script, i, turns) == UpTo(|data|, |turns|)
    requires Run(script, i, st, RunLog(script, i, turns)).mem == Store(st.mem, addr, data[..UpTo(|data|, |turns|)])
    ensures var all := turns + [t];
            && BytesStored(script, i, all) <= |data|
            && (LastWhole(script, i, all) ==> BytesStored(script, i, all) == UpTo(|data|, |turns| + 1))
            && Run(script, i, st, RunLog(script, i, all)).mem == Store(st.mem, addr, data[..BytesStored(script, i, all)])
  {
    hide Run, Received, RunLog, Turn.Ran, Turn.Whole, Turn.Transfers, Turn.HeaderHeard, Next, AllRan, LastWhole, ChunkHeader, ChunkOf, SeqAfter;
    hide Stored, Store, ChunkCount, UpTo, BytesStored, Turn.Size;
    var k, log := |turns|, RunLog(script, i, turns);
    var at, mid := i + |log|, Run(script, i, st, log);
    OneMoreTurn(script, i, turns, t);
    RunSplits(script, i, st, log, t.Transfers(script, at));
    StoredByTurn(script, at, mid, addr, data, SeqAfter(seqNum, turns), k, t);
    StoredSnoc(script, i, turns, t);
    ChunkStored(mid.mem, st.mem, addr, data, k, Stored(script, at, t.Size(), t.call));
  }

  lemma ChunkStored(mid: seq<Byte>, m: seq<Byte>, addr: U32, data: seq<Byte>, k: nat, stored: nat)
    requires |m| == WORD && k < ChunkCount(|data|) && stored <= |ChunkOf(data, k)| && mid == Store(m, addr, data[..UpTo(|data|, k)])
    ensures CHUNK * k + stored <= |data| && (stored == |ChunkOf(data, k)| ==> CHUNK * k + stored == UpTo(|data|, k + 1))
    ensures Store(mid, Next(addr, CHUNK * k), ChunkOf(data, k)[..stored]) == Store(m, addr, data[..CHUNK * k + stored])
  {
    hide Store, Next, ChunkOf, ChunkCount, UpTo;
    ChunkExtends(data, k, stored);
    StoreSplits(m, addr, data[..CHUNK * k], ChunkOf(data, k)[..stored]);
  }

  lemma NothingStored(script: seq<Reply>, i: nat, size: nat)
    ensures BytesStored(script, i, []) == UpTo(size, 0) == 0
  {
  }

  /** The same for one call. */
  lemma StoredByTurn(script: seq<Reply>, i: nat, st: DeviceState, addr: U32, data: seq<Byte>, seqNum: U32, k: nat, t: Turn)
    requires |st.mem| == WORD && k < ChunkCount(|data|)
    requires t == Writing(ChunkHeader(addr, data, seqNum, k), ChunkOf(data, k), t.call) && t.Ran(script, i) && t.HeaderHeard(script, i)
    ensures var stored := Stored(script, i, t.Size(), t.call);
            && stored <= |ChunkOf(data, k)| == t.Size() && (t.Whole(script, i) ==> stored == t.Size())
            && Run(script, i, st, t.Transfers(script, i)).mem == Store(st.mem, Next(addr, CHUNK * k), ChunkOf(data, k)[..stored])
  {
    hide Run, CallRan, WriteTransfers, WriteHeader, Heard, Next, Store, ChunkCount, ChunkOf, Progress, Reached, Received;
    ChunkFits(data, k);
    WriteEffect(script, i, st, Next(addr, CHUNK * k), ChunkOf(data, k), seqNum, t.call);
    ReachesProgress(script, i + t.call.headers, |t.data|, 0x1000, t.call.bulks);
  }

  lemma ChunkExtends(data: seq<Byte>, k: nat, n: nat)
    requires k < ChunkCount(|data|) && n <= |ChunkOf(data, k)|
    ensures CHUNK * k + n <= |data| && data[..CHUNK * k] + ChunkOf(data, k)[..n] == data[..CHUNK * k + n]
    ensures n == |ChunkOf(data, k)| ==> CHUNK * k + n == UpTo(|data|, k + 1)
    ensures CHUNK * k == UpTo(|data|, k)
  {
    SliceOfSlice(data, CHUNK * k, CHUNK * k + ChunkSize(|data|, k), n);
  }

  // ---- the command ----

  /** The first k pieces went out, and none of them was refused. */
  ghost predicate Sent(script: seq<Reply>, i: nat, addr: U32, data: seq<Byte>, isCwr: bool, seqNum: U32, turns: seq<Turn>, k: nat)
    requires |data| < WORD
  {
    if isCwr then turns == [] && k <= |ControlMem.WritePlan(addr, data)| && Succeeds(script, i, ControlMem.WritePlan(addr, data)[..k])
    else |turns| == k && WritesChunks(addr, data, seqNum, turns) && AllRan(script, i, turns) && LastWhole(script, i, turns)
  }

  /** The first k pieces went out, and the last of them was refused. */
  ghost predicate Refused(script: seq<Reply>, i: nat, addr: U32, data: seq<Byte>, isCwr: bool, seqNum: U32, turns: seq<Turn>, k: nat)
    requires |data| < WORD
  {
    if isCwr then
      var plan := ControlMem.WritePlan(addr, data);
      turns == [] && k == Issued(script, i, plan) && !Succeeds(script, i, plan)
    else |turns| == k && WritesChunks(addr, data, seqNum, turns) && AllRan(script, i, turns) && !LastWhole(script, i, turns)
  }

  /** The transfers for the first k pieces. */
  function SentLog(script: seq<Reply>, i: nat, addr: U32, data: seq<Byte>, isCwr: bool, turns: seq<Turn>, k: nat): seq<Request> {
    var plan := ControlMem.WritePlan(addr, data);
    if isCwr then plan[..Min(k, |plan|)] else RunLog(script, i, turns)
  }

  lemma NothingSent(dev: Device, addr: U32, data: seq<Byte>, isCwr: bool, seqNum: U32)
    requires dev.Valid() && |data| < WORD
    ensures Sent(dev.script, |dev.requests|, addr, data, isCwr, seqNum, [], 0)
    ensures Made(dev, dev.requests, dev.state, SentLog(dev.script, |dev.requests|, addr, data, isCwr, [], 0))
    ensures SeqAfter(seqNum, []) == seqNum
  {
    NoTurns(dev.script, |dev.requests|);
    RunNothing(dev.script, |dev.requests|, dev.state);
  }

  /** One piece of the write command: one control transfer for cwr, one large-memory call
      otherwise. */
  method WriteChunk(drv: Driver, dev: Device, address: U32, chunk: seq<Byte>, isCwr: bool,
                    ghost dev0: seq<Request>, ghost st0: DeviceState, ghost addr: U32, ghost data: seq<Byte>, ghost seqNum: U32,
                    ghost turns: seq<Turn>, ghost k: nat)
    returns (ret: int, ghost turns': seq<Turn>)
    requires |st0.mem| == WORD && dev.Valid() && |data| < WORD && Sent(dev.script, |dev0|, addr, data, isCwr, seqNum, turns, k)
    requires Made(dev, dev0, st0, SentLog(dev.script, |dev0|, addr, data, isCwr, turns, k))
    requires Step(isCwr) * k < |data| && chunk == Piece(data, isCwr, k) && address == Next(addr, Step(isCwr) * k)
    requires drv.writeSeqNum == SeqAfter(seqNum, turns)
    modifies drv`writeSeqNum, dev
    ensures dev.Valid() && drv.writeSeqNum == SeqAfter(seqNum, turns')
    ensures Made(dev, dev0, st0, SentLog(dev.script, |dev0|, addr, data, isCwr, turns', k + 1))
    ensures if ret == 0 then Sent(dev.script, |dev0|, addr, data, isCwr, seqNum, turns', k + 1)
            else Refused(dev.script, |dev0|, addr, data, isCwr, seqNum, turns', k + 1)
  {
    hide Run, RunLog, Made, AllRan, LastWhole, WritesChunks, SeqAfter, Succeeds, Issued, ControlMem.WritePlan, Next, Piece, Received;
    if isCwr {
      ret := WriteByControl(dev, address, chunk, dev0, st0, addr, data, k);
      turns' := turns;
    } else {
      ret, turns' := WriteByBulk(drv, dev, address, chunk, dev0, st0, addr, data, seqNum, turns);
    }
  }

  method WriteByControl(dev: Device, address: U32, chunk: seq<Byte>,
                        ghost dev0: seq<Request>, ghost st0: DeviceState, ghost addr: U32, ghost data: seq<Byte>, ghost k: nat)
    returns (ret: int)
    requires |st0.mem| == WORD && dev.Valid() && k <= |ControlMem.WritePlan(addr, data)|
    requires Made(dev, dev0, st0, ControlMem.WritePlan(addr, data)[..k]) && Succeeds(dev.script, |dev0|, ControlMem.WritePlan(addr, data)[..k])
    requires 0x40 * k < |data| && chunk == Piece(data, true, k) && address == Next(addr, 0x40 * k)
    modifies dev
    ensures var i, plan := |dev0|, ControlMem.WritePlan(addr, data);
            && dev.Valid() && k < |plan| && Made(dev, dev0, st0, plan[..k + 1])
            && if ret == 0 then Succeeds(dev.script, i, plan[..k + 1]) else k + 1 == Issued(dev.script, i, plan) && !Succeeds(dev.script, i, plan)
  {
    hide After, Result, ControlMem.WriteRequest, ControlMem.WritePlan, Run, Made, Succeeds, Issued, Next, Piece, Le32, Received;
    PieceIs(addr, data, true, k);
    ghost var i, plan := |dev0|, ControlMem.WritePlan(addr, data);
    MadeLog(dev, dev0, st0, plan[..k]);
    var buffer := Le32(address) + chunk;
    assert buffer[..4] == Le32(address) && buffer[4..4 + |chunk|] == chunk;
    ret := ControlMem.AmlUsbCtrlWr(dev, buffer, |chunk| + 4);
    ControlMem.LogGoesOn(dev0, plan, k);
    ControlMem.RunGoesOn(dev.script, i, st0, plan, k);
    ControlMem.PlanGoesOn(dev.script, i, plan, k);
    LogMade(dev, dev0, st0, plan[..k + 1]);
  }

  method WriteByBulk(drv: Driver, dev: Device, address: U32, chunk: seq<Byte>,
                     ghost dev0: seq<Request>, ghost st0: DeviceState, ghost addr: U32, ghost data: seq<Byte>, ghost seqNum: U32,
                     ghost turns: seq<Turn>)
    returns (ret: int, ghost turns': seq<Turn>)
    requires |st0.mem| == WORD && dev.Valid() && Made(dev, dev0, st0, RunLog(dev.script, |dev0|, turns))
    requires WritesChunks(addr, data, seqNum, turns) && AllRan(dev.script, |dev0|, turns) && LastWhole(dev.script, |dev0|, turns)
    requires CHUNK * |turns| < |data| && chunk == Piece(data, false, |turns|) && address == Next(addr, CHUNK * |turns|)
    requires drv.writeSeqNum == SeqAfter(seqNum, turns)
    modifies drv`writeSeqNum, dev
    ensures dev.Valid() && Made(dev, dev0, st0, RunLog(dev.script, |dev0|, turns')) && |turns'| == |turns| + 1
    ensures WritesChunks(addr, data, seqNum, turns') && AllRan(dev.script, |dev0|, turns') && (LastWhole(dev.script, |dev0|, turns') <==> ret == 0)
    ensures drv.writeSeqNum == SeqAfter(seqNum, turns')
  {
    hide Run, RunLog, Made, AllRan, LastWhole, WritesChunks, SeqAfter, Next, ChunkOf, ChunkCount, WriteHeader, Piece, Heard, Stored, WriteTransfers, CallRan, CallSize, Received;
    ghost var k := |turns|;
    PieceIs(addr, data, false, k);
    ghost var log, mid, st1 := RunLog(dev.script, |dev0|, turns), dev.requests, dev.state;
    MadeLog(dev, dev0, st0, log);
    var r, dataSize, c := drv.WriteLargeMem(dev, address, chunk);
    ret := r;
    ghost var t := Writing(ChunkHeader(addr, data, SeqAfter(seqNum, turns), k), ChunkOf(data, k), c);
    turns' := turns + [t];
    OneMoreTurn(dev.script, |dev0|, turns, t);
    OneMoreChunk(addr, data, seqNum, turns, t);
    TurnMade(dev, dev0, st0, turns, mid, st1, t);
    SeqSnoc(seqNum, turns, t);
  }

  /** The k-th piece is what the k-th transfer or call is for. */
  lemma PieceIs(addr: U32, data: seq<Byte>, isCwr: bool, k: nat)
    requires Step(isCwr) * k < |data|
    ensures if isCwr then
              && k < |ControlMem.WritePlan(addr, data)| && |Piece(data, isCwr, k)| <= 64
              && ControlMem.WritePlan(addr, data)[k] == ControlMem.WriteRequest(Next(addr, 64 * k), Piece(data, isCwr, k))
            else k < ChunkCount(|data|) && ChunkOf(data, k) == Piece(data, isCwr, k) && |Piece(data, isCwr, k)| <= CHUNK
  {
    hide Next;
    if isCwr {
      ControlMem.ChunkStep(|data|, k);
      ControlMem.WritePlanAt(addr, data, k);
    }
  }

  /** No piece is left once all of the data was sent. */
  lemma AllPieces(data: seq<Byte>, addr: U32, isCwr: bool, k: nat)
    requires Step(isCwr) * k >= |data| && (k > 0 ==> Step(isCwr) * (k - 1) < |data|)
    ensures k == if isCwr then |ControlMem.WritePlan(addr, data)| else ChunkCount(|data|)
  {
  }

  /** A call's transfers are its header, as often as it was tried, and bulk writes. */
  lemma TransferKind(script: seq<Reply>, i: nat, t: Turn, j: nat)
    requires t.Writing? && t.hdr.ControlOut? && j < |t.Transfers(script, i)|
    ensures if j < t.call.headers then t.Transfers(script, i)[j].ControlOut? else t.Transfers(script, i)[j].BulkOut?
  {
    hide Repeat, BulkWrites, BulkWriteAt, Progress;
    if j < t.call.headers {
      RepeatAt(t.hdr, t.call.headers, j);
    } else {
      BulkWriteIs(script, i + t.call.headers, t.data, t.call.bulks, j - t.call.headers);
      BulkWriteKind(t.data, Progress(script, i + t.call.headers, |t.data|, 0x1000, j - t.call.headers));
    }
  }

  lemma CallEndsInFailure(script: seq<Reply>, i: nat, before: seq<Request>, t: Turn)
    requires t.Writing? && t.hdr.ControlOut? && t.Ran(script, i + |before|) && !t.Whole(script, i + |before|)
    ensures EndsInFailure(script, i, before + t.Transfers(script, i + |before|), false)
  {
    hide ReplyAt, CallRan, CallSize, WriteTransfers;
    var at := i + |before|;
    var ts := t.Transfers(script, at);
    var log := before + ts;
    CallSizeBound(script, at, t);
    GivesUpOnlyIf(script, at, t.hdr, t.Size(), 0x1000, t.call);
    forall j {:trigger log[j]} | |before| <= j < |log|
      ensures if j < |before| + t.call.headers then log[j].ControlOut? else log[j].BulkOut?
    {
      assert log[j] == ts[j - |before|];
      TransferKind(script, at, t, j - |before|);
    }
  }

  lemma CallSizeBound(script: seq<Reply>, i: nat, t: Turn)
    ensures CallSize(script, i, t.Size(), t.Limit(), t.call) <= t.Size()
  {
    hide Progress;
  }

  /** A refused command, in numbers. */
  lemma RefusedInNumbers(script: seq<Reply>, i: nat, addr: U32, data: seq<Byte>, isCwr: bool, seqNum: U32, turns: seq<Turn>, k: nat)
    requires |data| < WORD && Refused(script, i, addr, data, isCwr, seqNum, turns, k)
    ensures var log := SentLog(script, i, addr, data, isCwr, turns, k);
            if isCwr then |log| > 0 && ReplyAt(script, i + |log| - 1).code < 0 else EndsInFailure(script, i, log, false)
  {
    hide ControlMem.WritePlan, Issued, Succeeds, WritesChunks, AllRan, LastWhole, RunLog, ReplyAt, EndsInFailure;
    if isCwr {
      PlanIsControl(addr, data);
      StopsAtFailure(script, i, ControlMem.WritePlan(addr, data));
    } else {
      if turns == [] {
        NoTurns(script, i);
        assert false;
      }
      var n := |turns| - 1;
      LastTurn(turns);
      OneMoreTurn(script, i, turns[..n], turns[n]);
      CountsChunks(addr, data, seqNum, turns);
      OneMoreChunk(addr, data, seqNum, turns[..n], turns[n]);
      HeaderKind(addr, data, SeqAfter(seqNum, turns[..n]), n);
      CallEndsInFailure(script, i, RunLog(script, i, turns[..n]), turns[n]);
    }
  }

  lemma PlanIsControl(addr: U32, data: seq<Byte>)
    ensures forall k {:trigger ControlMem.WritePlan(addr, data)[k]} :: 0 <= k < |ControlMem.WritePlan(addr, data)| ==>
              ControlMem.WritePlan(addr, data)[k].ControlOut?
  {
  }

  /** The loop of the write and cwr branches of update_sub_cmd_read_write: what of the n bytes can
      be read goes out, up to the first piece that is refused. For cwr that is the write plan of
      ControlMem; for write it is one large-memory call for each chunk. */
  method WritePieces(drv: Driver, dev: Device, file: seq<Byte>, addr: U32, n: U32, skip: U32, isCwr: bool)
    returns (ret: int, ghost turns: seq<Turn>)
    requires dev.Valid()
    modifies drv`writeSeqNum, dev
    ensures var i, data := |old(dev.requests)|, Readable(file, skip, n, isCwr);
            var k := if isCwr then Issued(dev.script, i, ControlMem.WritePlan(addr, data)) else |turns|;
            && dev.Valid() && Made(dev, old(dev.requests), old(dev.state), SentLog(dev.script, i, addr, data, isCwr, turns, k))
            && (if ret == -735 then Refused(dev.script, i, addr, data, isCwr, old(drv.writeSeqNum), turns, k)
                else
                  && Sent(dev.script, i, addr, data, isCwr, old(drv.writeSeqNum), turns, k)
                  && k == (if isCwr then |ControlMem.WritePlan(addr, data)| else ChunkCount(|data|))
                  && ret == if |data| < n then -734 else 0)
    ensures drv.writeSeqNum == SeqAfter(old(drv.writeSeqNum), turns)
    ensures var i, data := |old(dev.requests)|, Readable(file, skip, n, isCwr);
            && (ret != -735 && GotThrough(dev.script, i, addr, data, isCwr, turns) ==>
                  dev.state.mem == Store(old(dev.state).mem, addr, data))
            && (!isCwr && AllHeard(dev.script, i, turns) ==>
                  var m := BytesStored(dev.script, i, turns);
                  m <= |data| && dev.state.mem == Store(old(dev.state).mem, addr, data[..m]))
  {
    hide GotThrough, AllHeard, BytesStored, Store, WritesChunks, AllRan, LastWhole, Succeeds, RunLog, ControlMem.WritePlan;
    hide Readable, Sent, Refused, SentLog, Made, Next, Piece, SeqAfter, ChunkCount, Issued, Run, Received;
    var transferSize, pos, address := n, skip, addr;
    ghost var data := Readable(file, skip, n, isCwr);
    ghost var dev0, st0, seq0, script, k := dev.requests, dev.state, drv.writeSeqNum, dev.script, 0;
    turns := [];
    NextZero(addr);
    NothingSent(dev, addr, data, isCwr, seq0);
    while transferSize != 0
      invariant dev.Valid() && transferSize >= 0 && pos == skip + (n - transferSize)
      invariant n - transferSize == Min(Step(isCwr) * k, |data|) && (k > 0 ==> Step(isCwr) * (k - 1) < |data|)
      invariant transferSize > 0 ==> n - transferSize == Step(isCwr) * k && address == Next(addr, Step(isCwr) * k)
      invariant Sent(script, |dev0|, addr, data, isCwr, seq0, turns, k) && drv.writeSeqNum == SeqAfter(seq0, turns)
      invariant Made(dev, dev0, st0, SentLog(script, |dev0|, addr, data, isCwr, turns, k))
      decreases transferSize
    {
      NextPiece(file, skip, n, isCwr, k);
      var bulkSize := Min(transferSize, Step(isCwr));
      if pos + bulkSize > |file| {
        AllPieces(data, addr, isCwr, k);
        EndsAt(script, |dev0|, addr, data, isCwr, seq0, turns, k);
        WhatIsStored(dev, dev0, st0, addr, data, isCwr, seq0, turns, k);
        return -734, turns;
      }
      var chunk := file[pos..pos + bulkSize];
      var r, now := WriteChunk(drv, dev, address, chunk, isCwr, dev0, st0, addr, data, seq0, turns, k);
      turns := now;
      if r != 0 {
        RefusedAt(script, |dev0|, addr, data, isCwr, seq0, turns, k + 1);
        WhatIsStored(dev, dev0, st0, addr, data, isCwr, seq0, turns, k + 1);
        return -735, turns;
      }
      NextTwice(addr, Step(isCwr) * k, bulkSize);
      k := k + 1;
      transferSize := transferSize - bulkSize;
      address := Next(address, bulkSize);
      pos := pos + bulkSize;
    }
    AllPieces(data, addr, isCwr, k);
    EndsAt(script, |dev0|, addr, data, isCwr, seq0, turns, k);
    WhatIsStored(dev, dev0, st0, addr, data, isCwr, seq0, turns, k);
    return 0, turns;
  }

  /** What can be read, in numbers: all of it, or the largest multiple of 64 bytes or 64 KiB that is
      left in the file. */
  lemma ReadableIs(file: seq<Byte>, skip: nat, n: nat, isCwr: bool)
    ensures skip + n <= |file| ==> Readable(file, skip, n, isCwr) == file[skip..skip + n]
    ensures skip <= |file| < skip + n ==>
      var whole := if isCwr then (|file| - skip) / 0x40 * 0x40 else (|file| - skip) / 0x1_0000 * 0x1_0000;
      0 <= whole <= |file| - skip && Readable(file, skip, n, isCwr) == file[skip..skip + whole]
    ensures skip > |file| ==> Readable(file, skip, n, isCwr) == []
  {
  }

  /** The write and cwr branches of update_sub_cmd_read_write. Size 0 means the rest of the file; a
      size that goes beyond it fails, after the whole pieces that were left. */
  method WriteCommand(drv: Driver, dev: Device, file: seq<Byte>, addr: U32, size: U32, skip: U32, isCwr: bool)
    returns (ret: int, ghost turns: seq<Turn>)
    requires dev.Valid()
    modifies drv`writeSeqNum, dev
    ensures var i, n := |old(dev.requests)|, if size == 0 then (|file| - skip) % WORD else size;
            var data := Readable(file, skip, n, isCwr);
            var k := if isCwr then Issued(dev.script, i, ControlMem.WritePlan(addr, data)) else |turns|;
            && dev.Valid() && Made(dev, old(dev.requests), old(dev.state), SentLog(dev.script, i, addr, data, isCwr, turns, k))
            && (if ret == -735 then Refused(dev.script, i, addr, data, isCwr, old(drv.writeSeqNum), turns, k)
                else
                  && Sent(dev.script, i, addr, data, isCwr, old(drv.writeSeqNum), turns, k)
                  && k == (if isCwr then |ControlMem.WritePlan(addr, data)| else ChunkCount(|data|))
                  && ret == if |data| < n then -734 else 0)
    ensures drv.writeSeqNum == SeqAfter(old(drv.writeSeqNum), turns)
    ensures size == 0 && skip <= |file| < skip + WORD ==>
      && ret in {0, -735}
      && (ret == 0 && GotThrough(dev.script, |old(dev.requests)|, addr, file[skip..], isCwr, turns) ==>
            dev.state.mem == Copied(old(dev.state).mem, addr, file, skip, |file| - skip))
    ensures size != 0 && skip + size <= |file| ==>
      && ret in {0, -735}
      && (ret == 0 && GotThrough(dev.script, |old(dev.requests)|, addr, file[skip..skip + size], isCwr, turns) ==>
            dev.state.mem == Copied(old(dev.state).mem, addr, file, skip, size))
    ensures (if size == 0 then skip > |file| else skip + size > |file|) ==> ret in {-734, -735}
    ensures ret == -734 && skip <= |file| ==>
      var whole := if isCwr then (|file| - skip) / 0x40 * 0x40 else (|file| - skip) / 0x1_0000 * 0x1_0000;
      && 0 <= whole <= |file| - skip
      && (GotThrough(dev.script, |old(dev.requests)|, addr, file[skip..skip + whole], isCwr, turns) ==>
            dev.state.mem == Copied(old(dev.state).mem, addr, file, skip, whole))
    ensures ret == -735 ==>
      if isCwr then |dev.requests| > |old(dev.requests)| && ReplyAt(dev.script, |dev.requests| - 1).code < 0
      else EndsInFailure(dev.script, |old(dev.requests)|, dev.requests[|old(dev.requests)|..], false)
    ensures ret != -735 && isCwr ==> forall j :: |old(dev.requests)| <= j < |dev.requests| ==> ReplyAt(dev.script, j).code >= 0
    ensures !isCwr && AllHeard(dev.script, |old(dev.requests)|, turns) ==>
      var m := BytesStored(dev.script, |old(dev.requests)|, turns);
      (m == 0 || skip + m <= |file|) && dev.state.mem == Copied(old(dev.state).mem, addr, file, skip, m)
  {
    hide GotThrough, AllHeard, BytesStored, Store, Sent, Refused, SentLog, Made, SeqAfter, ChunkCount, Issued, ControlMem.WritePlan, Readable, EndsInFailure, ReplyAt, Run, Received;
    var transferSize := if size == 0 then (|file| - skip) % WORD else size;
    ret, turns := WritePieces(drv, dev, file, addr, transferSize, skip, isCwr);
    assert size == 0 && skip <= |file| < skip + WORD ==> transferSize == |file| - skip && file[skip..skip + transferSize] == file[skip..];
    ReadableIs(file, skip, transferSize, isCwr);
    WhatIsCopied(old(dev.state).mem, addr, file, skip, transferSize, isCwr);
    ghost var data := Readable(file, skip, transferSize, isCwr);
    ghost var k := if isCwr then Issued(dev.script, |old(dev.requests)|, ControlMem.WritePlan(addr, data)) else |turns|;
    ghost var log := SentLog(dev.script, |old(dev.requests)|, addr, data, isCwr, turns, k);
    MadeLog(dev, old(dev.requests), old(dev.state), log);
    assert dev.requests[|old(dev.requests)|..] == log;
    if ret == -735 {
      RefusedInNumbers(dev.script, |old(dev.requests)|, addr, data, isCwr, old(drv.writeSeqNum), turns, k);
    } else if isCwr {
      SentInNumbers(dev.script, |old(dev.requests)|, addr, data, old(drv.writeSeqNum), turns, k);
    }
  }

  lemma SentInNumbers(script: seq<Reply>, i: nat, addr: U32, data: seq<Byte>, seqNum: U32, turns: seq<Turn>, k: nat)
    requires |data| < WORD && Sent(script, i, addr, data, true, seqNum, turns, k) && k == |ControlMem.WritePlan(addr, data)|
    ensures forall j :: i <= j < i + |SentLog(script, i, addr, data, true, turns, k)| ==> ReplyAt(script, j).code >= 0
  {
    hide ControlMem.WritePlan, Issued, Succeeds, ReplyAt;
    var plan := ControlMem.WritePlan(addr, data);
    assert plan[..k] == plan;
    PlanIsControl(addr, data);
    StopsAtFailure(script, i, plan);
  }

  /** A front of the data that can be read, once stored, is a copy of that much of the file. */
  lemma WhatIsCopied(m0: seq<Byte>, addr: U32, file: seq<Byte>, skip: nat, n: nat, isCwr: bool)
    requires |m0| == WORD
    ensures var data := Readable(file, skip, n, isCwr);
            && (data == [] || skip + |data| <= |file|)
            && Copied(m0, addr, file, skip, |data|) == Store(m0, addr, data)
            && forall m: nat {:trigger data[..m]} :: m <= |data| ==> Copied(m0, addr, file, skip, m) == Store(m0, addr, data[..m])
  {
    hide Store;
    var data := Readable(file, skip, n, isCwr);
    ReadableIs(file, skip, n, isCwr);
    StoreNothing(m0, addr);
    assert data[..|data|] == data;
    forall m: nat {:trigger data[..m]} | m <= |data|
      ensures Copied(m0, addr, file, skip, m) == Store(m0, addr, data[..m])
    {
      assert m > 0 ==> data[..m] == file[skip..][..m] == file[skip..skip + m];
    }
  }

  /** Nothing came up short on the way: every control transfer moved all of its bytes, or the
      device heard a header of every call. */
  ghost predicate GotThrough(script: seq<Reply>, i: nat, addr: U32, data: seq<Byte>, isCwr: bool, turns: seq<Turn>) {
    if isCwr then NoneShort(script, i, ControlMem.WritePlan(addr, data)) else AllHeard(script, i, turns)
  }

  lemma WhatIsStored(dev: Device, dev0: seq<Request>, st0: DeviceState, addr: U32, data: seq<Byte>, isCwr: bool, seqNum: U32, turns: seq<Turn>, k: nat)
    requires |st0.mem| == WORD && |data| < WORD
    requires Made(dev, dev0, st0, SentLog(dev.script, |dev0|, addr, data, isCwr, turns, k))
    requires Sent(dev.script, |dev0|, addr, data, isCwr, seqNum, turns, k) || Refused(dev.script, |dev0|, addr, data, isCwr, seqNum, turns, k)
    ensures !isCwr && AllHeard(dev.script, |dev0|, turns) ==>
              var m := BytesStored(dev.script, |dev0|, turns);
              m <= |data| && dev.state.mem == Store(st0.mem, addr, data[..m])
    ensures && Sent(dev.script, |dev0|, addr, data, isCwr, seqNum, turns, k) && GotThrough(dev.script, |dev0|, addr, data, isCwr, turns)
            && k == (if isCwr then |ControlMem.WritePlan(addr, data)| else ChunkCount(|data|))
            ==> dev.state.mem == Store(st0.mem, addr, data)
  {
    hide Run, Received, RunLog, Store, WritesChunks, AllRan, LastWhole, AllHeard, BytesStored, NoneShort, Succeeds, Issued, ControlMem.WritePlan, UpTo, ChunkCount;
    if isCwr {
      var plan := ControlMem.WritePlan(addr, data);
      assert plan[..|plan|] == plan;
      if NoneShort(dev.script, |dev0|, plan) {
        ControlMem.WholeWrite(dev.script, |dev0|, st0, addr, data);
      }
    } else if AllHeard(dev.script, |dev0|, turns) {
      HeardWrites(dev.script, |dev0|, st0, addr, data, seqNum, turns);
      EverythingSent(|data|);
      assert data[..|data|] == data;
    }
  }

  /** A command that was told of no failure leaves the flat copy of the file, whatever was in
      memory before, if and only if nothing came up short on the way. Only a session left open
      from before could change this. */
  lemma CommandCopiesIffGotThrough(script: seq<Reply>, i: nat, stream: Stream, file: seq<Byte>, addr: U32, skip: U32, n: U32, isCwr: bool,
                                   seqNum: U32, turns: seq<Turn>, k: nat)
    requires stream.Spent() && |Readable(file, skip, n, isCwr)| == n
    requires var data := Readable(file, skip, n, isCwr);
             && Sent(script, i, addr, data, isCwr, seqNum, turns, k)
             && k == if isCwr then |ControlMem.WritePlan(addr, data)| else ChunkCount(|data|)
    ensures var data := Readable(file, skip, n, isCwr);
            && (n == 0 || skip + n <= |file|)
            && (CopiesFile(script, i, stream, SentLog(script, i, addr, data, isCwr, turns, k), addr, file, skip, n)
                <==> GotThrough(script, i, addr, data, isCwr, turns))
  {
    hide Run, RunLog, Store, Readable, CopiesFile, WritesChunks, AllRan, LastWhole, AllHeard, NoneShort, Succeeds, ControlMem.WritePlan, ChunkCount, Received;
    var data := Readable(file, skip, n, isCwr);
    ReadableIsCopied(seq(WORD, _ => 0), addr, file, skip, n, isCwr);
    CopiesReadable(script, i, stream, SentLog(script, i, addr, data, isCwr, turns, k), addr, file, skip, n, isCwr);
    if isCwr {
      var plan := ControlMem.WritePlan(addr, data);
      assert plan[..|plan|] == plan;
      ControlMem.FlatCopyIffNoneShort(script, i, stream, addr, data);
    } else {
      WriteCopiesIffHeard(script, i, stream, addr, data, seqNum, turns);
    }
  }

  /** Whatever is in memory, the transfers leave the flat copy of the file's part. */
  ghost predicate CopiesFile(script: seq<Reply>, i: nat, stream: Stream, log: seq<Request>, addr: U32, file: seq<Byte>, skip: nat, n: nat)
    requires n == 0 || skip + n <= |file|
  {
    forall m: seq<Byte> :: |m| == WORD ==> Run(script, i, DeviceState(m, stream), log).mem == Copied(m, addr, file, skip, n)
  }

  lemma CopiesReadable(script: seq<Reply>, i: nat, stream: Stream, log: seq<Request>, addr: U32, file: seq<Byte>, skip: nat, n: nat, isCwr: bool)
    requires |Readable(file, skip, n, isCwr)| == n && (n == 0 || skip + n <= |file|)
    ensures CopiesFile(script, i, stream, log, addr, file, skip, n) <==>
              forall m: seq<Byte> :: |m| == WORD ==>
                Run(script, i, DeviceState(m, stream), log).mem == Store(m, addr, Readable(file, skip, n, isCwr))
  {
    hide Run, Store, Copied, Readable, Received;
    forall m: seq<Byte> | |m| == WORD
      ensures Copied(m, addr, file, skip, n) == Store(m, addr, Readable(file, skip, n, isCwr))
    {
      ReadableIsCopied(m, addr, file, skip, n, isCwr);
    }
  }

  /** Once all pieces are out, the plan has been issued to its end. */
  lemma EndsAt(script: seq<Reply>, i: nat, addr: U32, data: seq<Byte>, isCwr: bool, seqNum: U32, turns: seq<Turn>, k: nat)
    requires |data| < WORD && Sent(script, i, addr, data, isCwr, seqNum, turns, k)
    requires isCwr ==> k == |ControlMem.WritePlan(addr, data)|
    ensures k == if isCwr then Issued(script, i, ControlMem.WritePlan(addr, data)) else |turns|
  {
    hide ControlMem.WritePlan, Issued, WritesChunks, AllRan, LastWhole;
    if isCwr {
      ControlMem.PlanEnds(script, i, ControlMem.WritePlan(addr, data), k);
    }
  }

  lemma RefusedAt(script: seq<Reply>, i: nat, addr: U32, data: seq<Byte>, isCwr: bool, seqNum: U32, turns: seq<Turn>, k: nat)
    requires |data| < WORD && Refused(script, i, addr, data, isCwr, seqNum, turns, k)
    ensures k == if isCwr then Issued(script, i, ControlMem.WritePlan(addr, data)) else |turns|
  {
  }

  /** The data that can be read is all of it, or the command fails. */
  lemma ReadableIsCopied(m0: seq<Byte>, addr: U32, file: seq<Byte>, skip: nat, n: nat, isCwr: bool)
    requires |m0| == WORD && |Readable(file, skip, n, isCwr)| == n
    ensures n == 0 || skip + n <= |file|
    ensures Store(m0, addr, Readable(file, skip, n, isCwr)) == Copied(m0, addr, file, skip, n)
  {
    hide Store;
    if n == 0 {
      StoreNothing(m0, addr);
    }
  }

  /** Such a run exists: a device that takes the transfers but none of the header's bytes lets a
      write of any data that fits one bulk transfer succeed, and nothing is copied. */
  lemma UnheardWriteSucceeds(addr: U32, data: seq<Byte>, seqNum: U32) returns (script: seq<Reply>, turns: seq<Turn>)
    requires 0 < |data| <= 0x1000
    ensures WritesChunks(addr, data, seqNum, turns) && |turns| == ChunkCount(|data|)
    ensures AllRan(script, 0, turns) && LastWhole(script, 0, turns) && !AllHeard(script, 0, turns)
  {
    hide CallRan, CallSize, Heard, RunLog, ChunkHeader, SeqAfter;
    script := Deaf(|data|);
    var t := Writing(ChunkHeader(addr, data, SeqAfter(seqNum, []), 0), ChunkOf(data, 0), Call(1, 1));
    turns := [] + [t];
    NoTurns(script, 0);
    HeaderOfChunk(addr, data, SeqAfter(seqNum, []), 0);
    DeafCall(t.hdr, |data|, 0x1000);
    OneMoreTurn(script, 0, [], t);
    OneMoreHeard(script, 0, [], t);
    OneMoreChunk(addr, data, seqNum, [], t);
  }
}
