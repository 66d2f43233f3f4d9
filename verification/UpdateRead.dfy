/** The read and dump commands of update.cpp. */
module UpdateRead {
  import opened Bytes
  import opened Link
  import opened LargeMem
  import opened LargeRuns
  import ControlMem

  /** The size of the next request when n bytes are left. */
  function PieceSize(n: nat, isDump: bool): U32 {
    if isDump && n >= 0x1_0000 then 0x1_0000
    else if isDump && n >= 0x1000 then 0x1000
    else Min(n, 0x200)
  }

  /** The sizes of the requests that fetch n bytes. */
  function Pieces(n: nat, isDump: bool): seq<U32> {
    if n == 0 then [] else [PieceSize(n, isDump)] + Pieces(n - PieceSize(n, isDump), isDump)
  }

  function CeilDiv(n: nat, d: nat): nat
    requires d > 0
  {
    (n + d - 1) / d
  }

  lemma {:induction false} SmallPieceCount(n: nat)
    requires n < 0x1000
    ensures |Pieces(n, true)| == CeilDiv(n, 0x200)
    decreases n
  {
    if n > 0x200 {
      SmallPieceCount(n - 0x200);
    } else if n > 0 {
      assert Pieces(0, true) == [];
    }
  }

  lemma {:induction false} MediumPieceCount(n: nat, q: nat, r: nat)
    requires n == 0x1000 * q + r && r < 0x1000 && q < 0x10
    ensures |Pieces(n, true)| == q + CeilDiv(r, 0x200)
    decreases q
  {
    if q == 0 {
      SmallPieceCount(r);
    } else {
      MediumPieceCount(n - 0x1000, q - 1, r);
    }
  }

  lemma {:induction false} LargePieceCount(n: nat, q: nat, r: nat)
    requires n == 0x1_0000 * q + r && r < 0x1_0000
    ensures |Pieces(n, true)| == q + r / 0x1000 + CeilDiv(r % 0x1000, 0x200)
    decreases q
  {
    if q == 0 {
      MediumPieceCount(r, r / 0x1000, r % 0x1000);
    } else {
      LargePieceCount(n - 0x1_0000, q - 1, r);
    }
  }

  /** A dump takes a 64 KiB request for each full 64 KiB, then a 4 KiB one for each full 4 KiB
      of the rest, then 512-byte ones; a read takes 512-byte ones throughout. */
  lemma PieceCount(n: nat)
    ensures |Pieces(n, true)| == n / 0x1_0000 + n % 0x1_0000 / 0x1000 + CeilDiv(n % 0x1_0000 % 0x1000, 0x200)
    ensures |Pieces(n, false)| == CeilDiv(n, 0x200)
  {
    LargePieceCount(n, n / 0x1_0000, n % 0x1_0000);
    ReadPieceCount(n);
  }

  lemma {:induction false} ReadPieceCount(n: nat)
    ensures |Pieces(n, false)| == CeilDiv(n, 0x200)
    decreases n
  {
    if n > 0x200 {
      ReadPieceCount(n - 0x200);
    } else if n > 0 {
      assert Pieces(0, false) == [];
    }
  }

  function Sum(sizes: seq<nat>): nat {
    if sizes == [] then 0 else Sum(sizes[..|sizes| - 1]) + sizes[|sizes| - 1]
  }

  lemma {:induction false} PiecesAt(n: nat, isDump: bool, i: nat)
    requires i <= |Pieces(n, isDump)|
    ensures Sum(Pieces(n, isDump)[..i]) <= n
    ensures i < |Pieces(n, isDump)| <==> Sum(Pieces(n, isDump)[..i]) < n
    ensures i < |Pieces(n, isDump)| ==> Pieces(n, isDump)[i] == PieceSize(n - Sum(Pieces(n, isDump)[..i]), isDump)
    decreases n
  {
    var all := Pieces(n, isDump);
    if n > 0 && i > 0 {
      var first, rest := PieceSize(n, isDump), Pieces(n - PieceSize(n, isDump), isDump);
      PiecesAt(n - first, isDump, i - 1);
      assert all[..i] == [first] + rest[..i - 1];
      SumCons(first, rest[..i - 1]);
    }
  }

  lemma {:induction false} SumCons(x: nat, sizes: seq<nat>)
    ensures Sum([x] + sizes) == x + Sum(sizes)
  {
    if sizes != [] {
      var init := sizes[..|sizes| - 1];
      SumCons(x, init);
      assert ([x] + sizes)[..|sizes|] == [x] + init;
    } else {
      assert Sum([x]) == Sum([]) + x;
    }
  }

  lemma SumNothing(sizes: seq<nat>)
    ensures Sum(sizes[..0]) == 0
  {
  }

  lemma SumSnoc(sizes: seq<nat>, i: nat)
    requires i < |sizes|
    ensures Sum(sizes[..i + 1]) == Sum(sizes[..i]) + sizes[i]
  {
    assert sizes[..i + 1][..i] == sizes[..i];
  }

  /** The pieces in numbers. A dump first takes 64 KiB at a time, then 4 KiB, then 512 bytes; a read
      takes 512 bytes throughout; the last piece is what is left. */
  lemma {:induction false} PiecesInNumbers(n: nat, isDump: bool, k: nat)
    requires k < |Pieces(n, isDump)|
    ensures var start, size := Sum(Pieces(n, isDump)[..k]), Pieces(n, isDump)[k];
            var large, medium := n / 0x1_0000, n % 0x1_0000 / 0x1000;
            if !isDump then start == 0x200 * k && size == Min(n - start, 0x200)
            else if k < large then start == 0x1_0000 * k && size == 0x1_0000
            else if k < large + medium then start == 0x1_0000 * large + 0x1000 * (k - large) && size == 0x1000
            else start == 0x1_0000 * large + 0x1000 * medium + 0x200 * (k - large - medium) && size == Min(n - start, 0x200)
    decreases k
  {
    hide Pieces, Sum;
    var sizes := Pieces(n, isDump);
    PiecesAt(n, isDump, k);
    if k == 0 {
      SumNothing(sizes);
    } else {
      PiecesInNumbers(n, isDump, k - 1);
      SumSnoc(sizes, k - 1);
    }
    NextSize(n, isDump, Sum(sizes[..k]));
  }

  /** The size of the piece that starts after done bytes. */
  lemma NextSize(n: nat, isDump: bool, done: nat)
    requires done < n
    ensures var large, medium, size := n / 0x1_0000, n % 0x1_0000 / 0x1000, PieceSize(n - done, isDump);
            && (!isDump ==> size == Min(n - done, 0x200))
            && (isDump && done + 0x1_0000 <= 0x1_0000 * large ==> size == 0x1_0000)
            && (isDump && 0x1_0000 * large <= done && done + 0x1000 <= 0x1_0000 * large + 0x1000 * medium ==> size == 0x1000)
            && (isDump && 0x1_0000 * large + 0x1000 * medium <= done ==> size == Min(n - done, 0x200))
  {
    var large, rest := n / 0x1_0000, n % 0x1_0000;
    var medium, small := rest / 0x1000, rest % 0x1000;
    assert n == 0x1_0000 * large + rest && rest == 0x1000 * medium + small;
  }

  lemma PieceFits(n: nat, isDump: bool)
    requires n > 0
    ensures 0 < PieceSize(n, isDump) <= n && PieceSize(n, isDump) <= 0x1_0000
  {
  }

  // ---- the log of a read or dump ----

  /** The range that piece k of the range from addr on covers. */
  function PieceAt(addr: U32, sizes: seq<U32>, k: nat): (U32, U32)
    requires k < |sizes|
  {
    (Next(addr, Sum(sizes[..k])), sizes[k])
  }

  /** The first n pieces: each starts where the sizes before it add up to. */
  function Tiling(addr: U32, sizes: seq<U32>, n: nat): (tiles: seq<(U32, U32)>)
    requires n <= |sizes|
    ensures |tiles| == n
  {
    if n == 0 then [] else Tiling(addr, sizes, n - 1) + [PieceAt(addr, sizes, n - 1)]
  }

  /** What the accepted read headers of a run ask for, as they appear in its log: address and
      size, little-endian. */
  function AcceptedReads(script: seq<Reply>, i: nat, reqs: seq<Request>): seq<(U32, U32)> {
    if reqs == [] then []
    else
      var n := |reqs| - 1;
      AcceptedReads(script, i, reqs[..n]) +
      if reqs[n].ControlOut? && reqs[n].request == AM_REQ_RD_LARGE_MEM && |reqs[n].data| == 16 && Result(reqs[n], ReplyAt(script, i + n)) >= 0
      then [(Word(reqs[n].data, 0), Word(reqs[n].data, 4))] else []
  }

  /** The header for piece k; the sequence number counts the calls. */
  function PieceHeader(addr: U32, sizes: seq<U32>, seqNum: U32, k: nat): Request
    requires k < |sizes|
  {
    ReadHeader(PieceAt(addr, sizes, k).0, PieceAt(addr, sizes, k).1, (seqNum + k + 1) % WORD)
  }

  /** Call k is for piece k. */
  ghost predicate ReadsPieces(addr: U32, sizes: seq<U32>, seqNum: U32, turns: seq<Turn>) {
    && |turns| <= |sizes|
    && forall k {:trigger turns[k]} :: 0 <= k < |turns| ==> turns[k] == Reading(PieceHeader(addr, sizes, seqNum, k), sizes[k], turns[k].call)
  }

  // ---- what the log asks for ----

  lemma {:induction false} AcceptedSplits(script: seq<Reply>, i: nat, a: seq<Request>, b: seq<Request>)
    ensures AcceptedReads(script, i, a + b) == AcceptedReads(script, i, a) + AcceptedReads(script, i + |a|, b)
    decreases |b|
  {
    hide Result, Word, ReplyAt;
    if b == [] {
      assert a + b == a;
    } else {
      var n := |b| - 1;
      assert (a + b)[..|a| + n] == a + b[..n];
      AcceptedSplits(script, i, a, b[..n]);
    }
  }

  lemma {:induction false} AcceptedHeaders(script: seq<Reply>, i: nat, address: U32, n: U32, seqNum: U32, tried: nat, accepted: bool)
    requires HeadersTried(script, i, ReadHeader(address, n, seqNum), tried, accepted)
    ensures AcceptedReads(script, i, Repeat(ReadHeader(address, n, seqNum), tried)) == if accepted then [(address, n)] else []
    decreases tried
  {
    hide Word, Result, ReadHeader;
    var hdr := ReadHeader(address, n, seqNum);
    ReadHeaderAsks(address, n, seqNum);
    if tried > 0 {
      if tried > 1 {
        assert Result(hdr, ReplyAt(script, i + tried - 2)) < 0;
      }
      AcceptedHeaders(script, i, address, n, seqNum, tried - 1, false);
      assert Repeat(hdr, tried)[..tried - 1] == Repeat(hdr, tried - 1);
    }
  }

  lemma ReadHeaderAsks(address: U32, n: U32, seqNum: U32)
    ensures var hdr := ReadHeader(address, n, seqNum);
            && hdr.ControlOut? && hdr.request == AM_REQ_RD_LARGE_MEM && |hdr.data| == 16
            && Word(hdr.data, 0) == address && Word(hdr.data, 4) == n
  {
    hide Word;
    HeaderOpens(AM_REQ_RD_LARGE_MEM, address, n, 0, seqNum, ReadBlockSize(Min(n, 0x1_0000)));
  }

  lemma {:induction false} AcceptedBulks(script: seq<Reply>, i: nat, start: nat, n: nat, count: nat)
    ensures AcceptedReads(script, i, BulkReads(script, start, n, count)) == []
  {
    hide Progress;
    if count > 0 {
      AcceptedBulks(script, i, start, n, count - 1);
      var reqs := BulkReads(script, start, n, count);
      assert reqs[..count - 1] == BulkReads(script, start, n, count - 1);
    }
  }

  lemma AcceptedCall(script: seq<Reply>, i: nat, address: U32, n: U32, seqNum: U32, c: Call)
    requires CallRan(script, i, ReadHeader(address, n, seqNum), n, 0x1_0000, c)
    ensures AcceptedReads(script, i, ReadTransfers(script, i, ReadHeader(address, n, seqNum), n, c)) == if c.bulks > 0 then [(address, n)] else []
  {
    hide ReadHeader, AcceptedReads, HeadersTried, AllGoOn, GoesOn;
    var hdr := ReadHeader(address, n, seqNum);
    AcceptedHeaders(script, i, address, n, seqNum, c.headers, c.bulks > 0);
    AcceptedBulks(script, i + c.headers, i + c.headers, n, c.bulks);
    AcceptedSplits(script, i, Repeat(hdr, c.headers), BulkReads(script, i + c.headers, n, c.bulks));
  }

  /** How many of the calls had a header accepted: all of them but perhaps the last. */
  function AcceptedCount(turns: seq<Turn>): nat {
    if turns == [] then 0 else if turns[|turns| - 1].call.bulks > 0 then |turns| else |turns| - 1
  }

  /** The accepted headers of the log ask for the pieces in order, one each. */
  lemma {:induction false} AcceptedHeadersTile(script: seq<Reply>, i: nat, addr: U32, sizes: seq<U32>, seqNum: U32, turns: seq<Turn>)
    requires ReadsPieces(addr, sizes, seqNum, turns) && AllRan(script, i, turns)
    requires forall k {:trigger sizes[k]} :: 0 <= k < |sizes| ==> sizes[k] > 0
    ensures AcceptedReads(script, i, RunLog(script, i, turns)) == Tiling(addr, sizes, AcceptedCount(turns))
    ensures LastWhole(script, i, turns) ==> AcceptedCount(turns) == |turns|
    decreases |turns|
  {
    hide AcceptedReads, ReadTransfers, CallRan, CallSize, PieceAt, RunLog, AllRan, LastWhole, ReadHeader;
    if turns == [] {
      NoTurns(script, i);
      NothingAccepted(script, i);
    } else {
      var k := |turns| - 1;
      var init, t := turns[..k], turns[k];
      var at := i + |RunLog(script, i, init)|;
      LastTurn(turns);
      OneMoreTurn(script, i, init, t);
      AcceptedHeadersTile(script, i, addr, sizes, seqNum, init);
      if t.Whole(script, at) {
        WholeHasBulks(script, at, sizes[k], t.call);
      }
      var piece := PieceAt(addr, sizes, k);
      assert piece.1 == sizes[k] by { PieceSizeIs(addr, sizes, k); }
      AcceptedCall(script, at, piece.0, piece.1, (seqNum + k + 1) % WORD, t.call);
      AcceptedSplits(script, i, RunLog(script, i, init), t.Transfers(script, at));
    }
  }

  lemma NothingAccepted(script: seq<Reply>, i: nat)
    ensures AcceptedReads(script, i, []) == []
  {
  }

  lemma PieceSizeIs(addr: U32, sizes: seq<U32>, k: nat)
    requires k < |sizes|
    ensures PieceAt(addr, sizes, k).1 == sizes[k]
  {
  }

  lemma WholeHasBulks(script: seq<Reply>, i: nat, n: nat, c: Call)
    requires n > 0 && CallSize(script, i, n, 0x1_0000, c) == n
    ensures c.bulks > 0
  {
    ProgressStarts(script, i + c.headers, n, 0x1_0000);
  }

  /** The only header of a call is its own. */
  lemma OnlyItsHeader(script: seq<Reply>, i: nat, hdr: Request, n: nat, c: Call, j: nat)
    requires j < |ReadTransfers(script, i, hdr, n, c)| && ReadTransfers(script, i, hdr, n, c)[j].ControlOut?
    ensures ReadTransfers(script, i, hdr, n, c)[j] == hdr
  {
    hide Repeat, BulkReads;
    if j < c.headers {
      RepeatAt(hdr, c.headers, j);
    } else {
      BulkReadKind(script, i + c.headers, n, c.bulks, j - c.headers);
      assert false;
    }
  }

  lemma {:induction false} BulkReadKind(script: seq<Reply>, start: nat, n: nat, count: nat, j: nat)
    requires j < count
    ensures BulkReads(script, start, n, count)[j].BulkIn?
  {
    hide Progress;
    if j < count - 1 {
      BulkReadKind(script, start, n, count - 1, j);
    }
  }

  /** Every header in the log is that of one of the pieces: its words are the place and the size of
      the piece, zero, and a sequence number that counts the calls. */
  lemma {:induction false} HeadersInNumbers(script: seq<Reply>, i: nat, addr: U32, sizes: seq<U32>, seqNum: U32, turns: seq<Turn>, j: nat)
    returns (k: nat)
    requires ReadsPieces(addr, sizes, seqNum, turns) && forall k {:trigger sizes[k]} :: 0 <= k < |sizes| ==> sizes[k] > 0
    requires j < |RunLog(script, i, turns)| && RunLog(script, i, turns)[j].ControlOut?
    ensures k < |turns| <= |sizes|
    ensures var hdr := RunLog(script, i, turns)[j];
            && hdr.request == 0x12 && |hdr.data| == 16
            && Word(hdr.data, 0) == (addr + Sum(sizes[..k])) % WORD && Word(hdr.data, 4) == sizes[k]
            && Word(hdr.data, 8) == 0 && Word(hdr.data, 12) == (seqNum + k + 1) % WORD
            && hdr.value == (if sizes[k] >= 0x1000 then 0x1000 else Min(sizes[k], 0x200))
    decreases |turns|
  {
    hide RunLog, ReadTransfers, ReadHeader, Sum, Word;
    if turns == [] {
      NoTurns(script, i);
      assert false;
    } else {
      var n := |turns| - 1;
      var init, t := turns[..n], turns[n];
      var log := RunLog(script, i, init);
      LastTurn(turns);
      LogSnoc(script, i, init, t);
      if j < |log| {
        k := HeadersInNumbers(script, i, addr, sizes, seqNum, init, j);
      } else {
        k := n;
        OnlyItsHeader(script, i + |log|, t.hdr, t.n, t.call, j - |log|);
        var piece := PieceAt(addr, sizes, k);
        ReadHeaderInNumbers(piece.0, piece.1, (seqNum + k + 1) % WORD);
      }
    }
  }

  // ---- the replies decide the run ----

  lemma {:induction false} SameReads(script: seq<Reply>, i: nat, addr: U32, sizes: seq<U32>, seqNum: U32, a: seq<Turn>, b: seq<Turn>)
    requires ReadsPieces(addr, sizes, seqNum, a) && ReadsPieces(addr, sizes, seqNum, b)
    requires AllRan(script, i, a) && AllRan(script, i, b) && |a| == |b|
    ensures a == b
    decreases |a|
  {
    hide AllRan, PieceHeader, LastWhole, Turn.Ran;
    if a != [] {
      var k := |a| - 1;
      FrontRan(script, i, a, k);
      FrontRan(script, i, b, k);
      FrontReads(addr, sizes, seqNum, a, k);
      FrontReads(addr, sizes, seqNum, b, k);
      SameReads(script, i, addr, sizes, seqNum, a[..k], b[..k]);
      LastIsDetermined(script, i, a, b);
    }
  }

  lemma FrontReads(addr: U32, sizes: seq<U32>, seqNum: U32, turns: seq<Turn>, n: nat)
    requires ReadsPieces(addr, sizes, seqNum, turns) && n <= |turns|
    ensures ReadsPieces(addr, sizes, seqNum, turns[..n])
  {
    hide PieceHeader;
  }

  /** A run ends with the last piece or a piece that fails; the replies decide all of it. */
  lemma ReadIsDetermined(script: seq<Reply>, i: nat, addr: U32, sizes: seq<U32>, seqNum: U32, a: seq<Turn>, b: seq<Turn>)
    requires ReadsPieces(addr, sizes, seqNum, a) && AllRan(script, i, a) && (LastWhole(script, i, a) ==> |a| == |sizes|)
    requires ReadsPieces(addr, sizes, seqNum, b) && AllRan(script, i, b) && (LastWhole(script, i, b) ==> |b| == |sizes|)
    ensures a == b
  {
    hide AllRan, LastWhole, PieceHeader;
    var n := Min(|a|, |b|);
    FrontRan(script, i, a, n);
    FrontRan(script, i, b, n);
    FrontReads(addr, sizes, seqNum, a, n);
    FrontReads(addr, sizes, seqNum, b, n);
    SameReads(script, i, addr, sizes, seqNum, a[..n], b[..n]);
    assert a[..|a|] == a && b[..|b|] == b;
  }

  // ---- the tiles cover the range ----

  predicate InTile(tile: (U32, U32), p: U32) {
    Offset(tile.0, p) < tile.1
  }

  ghost predicate Covered(tiles: seq<(U32, U32)>, p: U32) {
    exists k :: 0 <= k < |tiles| && InTile(tiles[k], p)
  }

  ghost predicate AtMostOnce(tiles: seq<(U32, U32)>, p: U32) {
    forall j, k :: 0 <= j < k < |tiles| ==> !(InTile(tiles[j], p) && InTile(tiles[k], p))
  }

  lemma {:induction false} TilingAt(addr: U32, sizes: seq<U32>, n: nat, k: nat)
    requires k < n <= |sizes|
    ensures Tiling(addr, sizes, n)[k] == PieceAt(addr, sizes, k)
  {
    hide PieceAt;
    if k < n - 1 {
      TilingAt(addr, sizes, n - 1, k);
    }
  }

  lemma {:induction false} SumGrows(sizes: seq<nat>, j: nat, k: nat)
    requires j <= k <= |sizes|
    ensures Sum(sizes[..j]) <= Sum(sizes[..k])
    decreases k
  {
    if j < k {
      SumGrows(sizes, j, k - 1);
      SumSnoc(sizes, k - 1);
    }
  }

  /** The piece that byte o of the range belongs to. */
  lemma {:induction false} PieceHolding(sizes: seq<nat>, n: nat, o: nat) returns (k: nat)
    requires n <= |sizes| && o < Sum(sizes[..n])
    ensures k < n && Sum(sizes[..k]) <= o < Sum(sizes[..k]) + sizes[k]
    decreases n
  {
    hide Sum;
    if n == 0 {
      SumNothing(sizes);
      assert false;
    } else {
      SumSnoc(sizes, n - 1);
      if o < Sum(sizes[..n - 1]) {
        k := PieceHolding(sizes, n - 1, o);
      } else {
        k := n - 1;
      }
    }
  }

  lemma InPiece(addr: U32, sizes: seq<U32>, k: nat, p: U32)
    requires k < |sizes| && Sum(sizes[..k]) + sizes[k] < WORD
    ensures InTile(PieceAt(addr, sizes, k), p) <==> Sum(sizes[..k]) <= Offset(addr, p) < Sum(sizes[..k]) + sizes[k]
  {
    hide Sum, Offset, Next;
    ControlMem.OffsetFurther(addr, Sum(sizes[..k]), sizes[k], p);
  }

  /** The pieces cover each address of the range exactly once, and none outside it. */
  lemma TilesPartition(addr: U32, n: U32, isDump: bool, p: U32)
    ensures var sizes := Pieces(n, isDump);
            var tiles := Tiling(addr, sizes, |sizes|);
            (Offset(addr, p) < n <==> Covered(tiles, p)) && AtMostOnce(tiles, p)
  {
    hide Sum, Offset, Next, Pieces, PieceSize, PieceAt, Tiling;
    var sizes := Pieces(n, isDump);
    var tiles, o := Tiling(addr, sizes, |sizes|), Offset(addr, p);
    PiecesAt(n, isDump, |sizes|);
    WholeSlice(sizes);
    forall k | 0 <= k < |tiles|
      ensures InTile(tiles[k], p) <==> Sum(sizes[..k]) <= o < Sum(sizes[..k]) + sizes[k]
      ensures Sum(sizes[..k]) + sizes[k] <= n
    {
      TilingAt(addr, sizes, |sizes|, k);
      SumSnoc(sizes, k);
      SumGrows(sizes, k + 1, |sizes|);
      InPiece(addr, sizes, k, p);
    }
    forall j, k | 0 <= j < k < |tiles|
      ensures !(InTile(tiles[j], p) && InTile(tiles[k], p))
    {
      SumSnoc(sizes, j);
      SumGrows(sizes, j + 1, k);
    }
    assert |tiles| == |sizes| && Sum(sizes[..|sizes|]) == n;
    if o < n {
      var k := PieceHolding(sizes, |sizes|, o);
      assert InTile(tiles[k], p);
      assert Covered(tiles, p);
    } else {
      forall k | 0 <= k < |tiles|
        ensures !InTile(tiles[k], p)
      {
        assert Sum(sizes[..k]) + sizes[k] <= n;
      }
      assert !Covered(tiles, p);
    }
  }

  lemma WholeSlice<T>(s: seq<T>)
    ensures s[..|s|] == s
  {
  }

  // ---- what a run of reads brings ----

  /** What a device streams does not depend on what is in its memory. */
  lemma {:induction false} StreamIgnoresMemory(script: seq<Reply>, i: nat, m1: seq<Byte>, m2: seq<Byte>, stream: Stream, reqs: seq<Request>)
    requires |m1| == WORD && |m2| == WORD
    ensures Run(script, i, DeviceState(m1, stream), reqs).stream == Run(script, i, DeviceState(m2, stream), reqs).stream
    decreases |reqs|
  {
    hide Moved, Store, Word;
    if reqs != [] {
      StreamIgnoresMemory(script, i, m1, m2, stream, reqs[..|reqs| - 1]);
    }
  }

  /** Calls that came through whole bring as many bytes as were asked for, and leave memory alone
      and no session open. */
  lemma {:induction false} WholeReads(script: seq<Reply>, i: nat, st: DeviceState, addr: U32, sizes: seq<U32>, seqNum: U32, turns: seq<Turn>)
    requires |st.mem| == WORD && ReadsPieces(addr, sizes, seqNum, turns) && AllRan(script, i, turns) && LastWhole(script, i, turns)
    ensures var log := RunLog(script, i, turns);
            && Run(script, i, st, log).mem == st.mem && |Received(script, i, st, log)| == Sum(sizes[..|turns|])
            && (st.stream.Spent() ==> Run(script, i, st, log).stream.Spent())
    decreases |turns|
  {
    hide Run, Received, RunLog, CallRan, CallSize, ReadTransfers, Sum, ReadHeader, PieceAt, Heard, AllRan, LastWhole;
    if turns == [] {
      NoTurns(script, i);
      RunNothing(script, i, st);
      SumNothing(sizes);
    } else {
      var k := |turns| - 1;
      var init, t := turns[..k], turns[k];
      LastTurn(turns);
      OneMoreTurn(script, i, init, t);
      WholeReads(script, i, st, addr, sizes, seqNum, init);
      var log := RunLog(script, i, init);
      var mid := Run(script, i, st, log);
      RunSplits(script, i, st, log, t.Transfers(script, i + |log|));
      var piece := PieceAt(addr, sizes, k);
      PieceSizeIs(addr, sizes, k);
      WholeCall(script, i + |log|, mid, piece.0, piece.1, (seqNum + k + 1) % WORD, t.call);
      SumSnoc(sizes, k);
    }
  }

  /** The same for one call; if a header was heard, the bytes are device memory. */
  lemma WholeCall(script: seq<Reply>, i: nat, st: DeviceState, address: U32, n: U32, seqNum: U32, c: Call)
    requires |st.mem| == WORD && CallRan(script, i, ReadHeader(address, n, seqNum), n, 0x1_0000, c)
    requires CallSize(script, i, n, 0x1_0000, c) == n
    ensures var hdr := ReadHeader(address, n, seqNum);
            var ts := ReadTransfers(script, i, hdr, n, c);
            && Run(script, i, st, ts).mem == st.mem && |Received(script, i, st, ts)| == n
            && (st.stream.Spent() ==> Run(script, i, st, ts).stream.Spent())
            && (Heard(script, i, hdr, c.headers) ==> Received(script, i, st, ts) == Load(st.mem, address, n))
  {
    hide Run, Received, CallRan, ReadTransfers, ReadHeader, Progress, Reached, Load, Heard;
    ReachesProgress(script, i + c.headers, n, 0x1_0000, c.bulks);
    ReadEffect(script, i, st, address, n, seqNum, c);
  }

  /** Whole pieces are device memory, whatever is there, if and only if the device heard a header
      of each. Only a session left open from before could change this. */
  lemma {:induction false} ReadsAreExactIffHeard(script: seq<Reply>, i: nat, stream: Stream, addr: U32, sizes: seq<U32>, seqNum: U32, turns: seq<Turn>)
    requires ReadsPieces(addr, sizes, seqNum, turns) && AllRan(script, i, turns) && LastWhole(script, i, turns) && stream.Spent()
    requires forall k {:trigger sizes[k]} :: 0 <= k < |sizes| ==> sizes[k] > 0
    ensures Exact(script, i, stream, addr, RunLog(script, i, turns), Sum(sizes[..|turns|])) <==> AllHeard(script, i, turns)
    decreases |turns|
  {
    hide Exact, Run, Received, RunLog, CallRan, CallSize, ReadTransfers, Sum, ReadHeader, PieceAt, Heard, Load, AllHeard, AllRan, LastWhole;
    if turns == [] {
      NoTurns(script, i);
      SumNothing(sizes);
      NothingIsExact(script, i, stream, addr);
    } else {
      var k := |turns| - 1;
      var init, t := turns[..k], turns[k];
      LastTurn(turns);
      OneMoreTurn(script, i, init, t);
      OneMoreHeard(script, i, init, t);
      ReadsAreExactIffHeard(script, i, stream, addr, sizes, seqNum, init);
      SumSnoc(sizes, k);
      var log, zeros := RunLog(script, i, init), DeviceState(seq(WORD, _ => 0), stream);
      var mid := Run(script, i, zeros, log).stream;
      WholeReads(script, i, zeros, addr, sizes, seqNum, init);
      var piece := PieceAt(addr, sizes, k);
      PieceSizeIs(addr, sizes, k);
      PieceStart(addr, sizes, k);
      CallIsExactIffHeard(script, i + |log|, mid, piece.0, piece.1, (seqNum + k + 1) % WORD, t.call);
      forall m: seq<Byte> | |m| == WORD
        ensures Run(script, i, DeviceState(m, stream), log) == DeviceState(m, mid)
        ensures |Received(script, i, DeviceState(m, stream), log)| == Sum(sizes[..k])
      {
        WholeReads(script, i, DeviceState(m, stream), addr, sizes, seqNum, init);
        StreamIgnoresMemory(script, i, m, zeros.mem, stream, log);
      }
      ExactSplits(script, i, stream, addr, log, Sum(sizes[..k]), mid, t.Transfers(script, i + |log|), sizes[k]);
    }
  }

  /** What arrives with the transfers is device memory, whatever is there. */
  ghost predicate Exact(script: seq<Reply>, i: nat, stream: Stream, addr: U32, log: seq<Request>, n: nat) {
    forall m: seq<Byte> :: |m| == WORD ==> Received(script, i, DeviceState(m, stream), log) == Load(m, addr, n)
  }

  lemma CallIsExactIffHeard(script: seq<Reply>, i: nat, stream: Stream, address: U32, n: U32, seqNum: U32, c: Call)
    requires n > 0 && stream.Spent()
    requires CallRan(script, i, ReadHeader(address, n, seqNum), n, 0x1_0000, c) && CallSize(script, i, n, 0x1_0000, c) == n
    ensures var hdr := ReadHeader(address, n, seqNum);
            Exact(script, i, stream, address, ReadTransfers(script, i, hdr, n, c), n) <==> Heard(script, i, hdr, c.headers)
  {
    hide Received, ReadHeader, CallRan, CallSize, ReadTransfers, Load, Heard;
    ReadLoadsIffHeard(script, i, stream, address, n, seqNum, c);
  }

  lemma NothingIsExact(script: seq<Reply>, i: nat, stream: Stream, addr: U32)
    ensures Exact(script, i, stream, addr, [], 0)
  {
  }

  /** Two stretches bring device memory if and only if each of them does. */
  lemma ExactSplits(script: seq<Reply>, i: nat, stream: Stream, addr: U32, a: seq<Request>, x: nat, mid: Stream, b: seq<Request>, y: nat)
    requires forall m: seq<Byte> :: |m| == WORD ==>
               Run(script, i, DeviceState(m, stream), a) == DeviceState(m, mid) && |Received(script, i, DeviceState(m, stream), a)| == x
    ensures Exact(script, i, stream, addr, a + b, x + y) <==>
              Exact(script, i, stream, addr, a, x) && Exact(script, i + |a|, mid, Next(addr, x), b, y)
  {
    hide Run, Received, Load, Next;
    forall m: seq<Byte> | |m| == WORD
      ensures Received(script, i, DeviceState(m, stream), a + b) == Load(m, addr, x + y) <==>
                Received(script, i, DeviceState(m, stream), a) == Load(m, addr, x)
                && Received(script, i + |a|, DeviceState(m, mid), b) == Load(m, Next(addr, x), y)
    {
      RunSplits(script, i, DeviceState(m, stream), a, b);
      LoadSplits(m, addr, x, y);
      SameParts(Received(script, i, DeviceState(m, stream), a), Received(script, i + |a|, DeviceState(m, mid), b),
                Load(m, addr, x), Load(m, Next(addr, x), y));
    }
  }

  lemma SameParts<T>(a: seq<T>, b: seq<T>, c: seq<T>, d: seq<T>)
    requires |a| == |c|
    ensures a + b == c + d <==> a == c && b == d
  {
    assert a == (a + b)[..|a|] && b == (a + b)[|a|..] && c == (c + d)[..|a|] && d == (c + d)[|a|..];
  }

  // ---- the command ----

  /** The pieces read so far came in whole, and output is what they brought. */
  ghost predicate Brought(script: seq<Reply>, i: nat, st: DeviceState, addr: U32, sizes: seq<U32>, seqNum: U32, turns: seq<Turn>, output: seq<Byte>)
    requires |st.mem| == WORD
  {
    && ReadsPieces(addr, sizes, seqNum, turns) && AllRan(script, i, turns) && LastWhole(script, i, turns)
    && output == Received(script, i, st, RunLog(script, i, turns)) && |output| == Sum(sizes[..|turns|])
    && (AllHeard(script, i, turns) ==> output == Load(st.mem, addr, |output|))
  }

  lemma NothingRead(dev: Device, addr: U32, sizes: seq<U32>, seqNum: U32)
    requires dev.Valid()
    ensures Brought(dev.script, |dev.requests|, dev.state, addr, sizes, seqNum, [], [])
    ensures Made(dev, dev.requests, dev.state, RunLog(dev.script, |dev.requests|, []))
  {
    NoTurns(dev.script, |dev.requests|);
    RunNothing(dev.script, |dev.requests|, dev.state);
    SumNothing(sizes);
  }

  /** The next piece. */
  method ReadPiece(drv: Driver, dev: Device, address: U32, buf: array<Byte>, bulkSize: U32,
                   ghost dev0: seq<Request>, ghost st0: DeviceState, ghost addr: U32, ghost sizes: seq<U32>, ghost seqNum: U32,
                   ghost turns: seq<Turn>, ghost output: seq<Byte>)
    returns (ret: int, actualLen: nat, ghost t: Turn)
    requires |st0.mem| == WORD && dev.Valid() && Brought(dev.script, |dev0|, st0, addr, sizes, seqNum, turns, output)
    requires Made(dev, dev0, st0, RunLog(dev.script, |dev0|, turns))
    requires |turns| < |sizes| && PieceAt(addr, sizes, |turns|) == (address, bulkSize) && bulkSize <= buf.Length
    requires drv.readSeqNum == (seqNum + |turns|) % WORD
    modifies drv`readSeqNum, dev, buf
    ensures dev.Valid() && dev.state.mem == old(dev.state.mem) && drv.readSeqNum == (seqNum + |turns| + 1) % WORD
    ensures ReadsPieces(addr, sizes, seqNum, turns + [t]) && AllRan(dev.script, |dev0|, turns + [t])
    ensures Made(dev, dev0, st0, RunLog(dev.script, |dev0|, turns + [t]))
    ensures LastWhole(dev.script, |dev0|, turns + [t]) <==> ret == 0
    ensures ret == 0 ==> actualLen == bulkSize && Brought(dev.script, |dev0|, st0, addr, sizes, seqNum, turns + [t], output + buf[..bulkSize])
  {
    hide Run, Received, RunLog, CallRan, CallSize, ReadTransfers, Sum, ReadHeader, PieceAt, Heard, Load, AllHeard, Made, AllRan, LastWhole;
    ghost var script, k, log, mid, st1 := dev.script, |turns|, RunLog(dev.script, |dev0|, turns), dev.requests, dev.state;
    MadeLog(dev, dev0, st0, log);
    WrapAdd(seqNum + k, 1);
    ghost var c;
    ret, actualLen, c := drv.ReadLargeMem(dev, address, buf, bulkSize);
    PieceSizeIs(addr, sizes, k);
    t := Reading(PieceHeader(addr, sizes, seqNum, k), bulkSize, c);
    OneMoreTurn(script, |dev0|, turns, t);
    TurnMade(dev, dev0, st0, turns, mid, st1, t);
    if ret == 0 {
      PieceBrought(script, |dev0|, |mid|, st0, addr, sizes, seqNum, turns, output, t, buf[..bulkSize]);
    }
  }

  /** What a whole piece adds to the output. */
  lemma PieceBrought(script: seq<Reply>, i: nat, j: nat, st: DeviceState, addr: U32, sizes: seq<U32>, seqNum: U32,
                     turns: seq<Turn>, output: seq<Byte>, t: Turn, got: seq<Byte>)
    requires |st.mem| == WORD && Brought(script, i, st, addr, sizes, seqNum, turns, output)
    requires j == i + |RunLog(script, i, turns)| && |turns| < |sizes| && |got| == sizes[|turns|]
    requires t == Reading(PieceHeader(addr, sizes, seqNum, |turns|), sizes[|turns|], t.call) && t.Ran(script, j) && t.Whole(script, j)
    requires got <= Received(script, j, Run(script, i, st, RunLog(script, i, turns)), t.Transfers(script, j))
    ensures Brought(script, i, st, addr, sizes, seqNum, turns + [t], output + got)
  {
    hide Run, Received, RunLog, CallRan, CallSize, ReadTransfers, Sum, ReadHeader, PieceAt, Heard, Load, AllHeard, AllRan, LastWhole;
    var k, log := |turns|, RunLog(script, i, turns);
    var mid := Run(script, i, st, log);
    OneMoreTurn(script, i, turns, t);
    OneMoreHeard(script, i, turns, t);
    WholeReads(script, i, st, addr, sizes, seqNum, turns);
    RunSplits(script, i, st, log, t.Transfers(script, j));
    PieceSizeIs(addr, sizes, k);
    WholeCall(script, j, mid, PieceAt(addr, sizes, k).0, sizes[k], (seqNum + k + 1) % WORD, t.call);
    SumSnoc(sizes, k);
    LoadSplits(st.mem, addr, |output|, sizes[k]);
    assert PieceAt(addr, sizes, k).0 == Next(addr, Sum(sizes[..k])) by { PieceStart(addr, sizes, k); }
  }

  lemma PieceStart(addr: U32, sizes: seq<U32>, k: nat)
    requires k < |sizes|
    ensures PieceAt(addr, sizes, k).0 == Next(addr, Sum(sizes[..k]))
  {
  }

  lemma PiecesArePositive(n: nat, isDump: bool)
    ensures forall k {:trigger Pieces(n, isDump)[k]} :: 0 <= k < |Pieces(n, isDump)| ==> Pieces(n, isDump)[k] > 0
  {
    forall k | 0 <= k < |Pieces(n, isDump)|
      ensures Pieces(n, isDump)[k] > 0
    {
      PiecesAt(n, isDump, k);
      PieceFits(n - Sum(Pieces(n, isDump)[..k]), isDump);
    }
  }

  lemma LogTiles(dev: Device, dev0: seq<Request>, st0: DeviceState, addr: U32, sizes: seq<U32>, seqNum: U32, turns: seq<Turn>)
    requires |st0.mem| == WORD && Made(dev, dev0, st0, RunLog(dev.script, |dev0|, turns))
    requires ReadsPieces(addr, sizes, seqNum, turns) && AllRan(dev.script, |dev0|, turns)
    requires forall k {:trigger sizes[k]} :: 0 <= k < |sizes| ==> sizes[k] > 0
    ensures AcceptedReads(dev.script, |dev0|, dev.requests[|dev0|..]) == Tiling(addr, sizes, AcceptedCount(turns))
    ensures LastWhole(dev.script, |dev0|, turns) ==> AcceptedCount(turns) == |turns|
  {
    hide AcceptedReads, RunLog, Run, AllRan, LastWhole, ReadsPieces, Received;
    var log := RunLog(dev.script, |dev0|, turns);
    AcceptedHeadersTile(dev.script, |dev0|, addr, sizes, seqNum, turns);
    assert dev.requests[|dev0|..] == log;
  }

  lemma CallEndsInFailure(script: seq<Reply>, i: nat, before: seq<Request>, hdr: Request, n: U32, c: Call)
    requires hdr.ControlOut? && CallRan(script, i + |before|, hdr, n, 0x1_0000, c) && CallSize(script, i + |before|, n, 0x1_0000, c) < n
    ensures EndsInFailure(script, i, before + ReadTransfers(script, i + |before|, hdr, n, c), true)
  {
    hide ReplyAt, CallRan, CallSize, Repeat, BulkReads;
    var at := i + |before|;
    var log := before + ReadTransfers(script, at, hdr, n, c);
    GivesUpOnlyIf(script, at, hdr, n, 0x1_0000, c);
    forall j {:trigger log[j]} | |before| <= j < |log|
      ensures if j < |before| + c.headers then log[j].ControlOut? else log[j].BulkIn?
    {
      if j < |before| + c.headers {
        RepeatAt(hdr, c.headers, j - |before|);
      } else {
        BulkReadKind(script, at + c.headers, n, c.bulks, j - |before| - c.headers);
      }
    }
  }

  lemma ReadsEndInFailure(script: seq<Reply>, i: nat, addr: U32, sizes: seq<U32>, seqNum: U32, turns: seq<Turn>)
    requires ReadsPieces(addr, sizes, seqNum, turns) && AllRan(script, i, turns) && !LastWhole(script, i, turns)
    ensures EndsInFailure(script, i, RunLog(script, i, turns), true)
  {
    hide RunLog, AllRan, LastWhole, CallRan, CallSize, ReadTransfers, ReadHeader, EndsInFailure;
    if turns == [] {
      NoTurns(script, i);
      assert false;
    }
    var k := |turns| - 1;
    var init, t := turns[..k], turns[k];
    LastTurn(turns);
    OneMoreTurn(script, i, init, t);
    var piece := PieceAt(addr, sizes, k);
    ReadHeaderAsks(piece.0, piece.1, (seqNum + k + 1) % WORD);
    ReadSizeBound(script, i + |RunLog(script, i, init)|, t.n, t.call);
    CallEndsInFailure(script, i, RunLog(script, i, init), t.hdr, t.n, t.call);
  }

  lemma ReadSizeBound(script: seq<Reply>, i: nat, n: nat, c: Call)
    ensures CallSize(script, i, n, 0x1_0000, c) <= n
  {
    hide Progress;
  }

  lemma LogFrom(dev: Device, dev0: seq<Request>, st0: DeviceState, log: seq<Request>)
    requires |st0.mem| == WORD && Made(dev, dev0, st0, log)
    ensures dev.requests[|dev0|..] == log
  {
    hide Run;
  }

  /** The calls but the last, if that one failed. */
  function Completed(turns: seq<Turn>, ret: int): seq<Turn> {
    if ret == 0 || turns == [] then turns else turns[..|turns| - 1]
  }

  /** The read and dump branches of update_sub_cmd_read_write: output is what is written out. The
      log is one large-memory call for each piece, up to the first that fails, and its accepted
      headers ask for the pieces in order, one each. */
  method ReadCommand(drv: Driver, dev: Device, addr: U32, size: U32, isDump: bool)
    returns (ret: int, output: seq<Byte>, ghost turns: seq<Turn>)
    requires dev.Valid()
    modifies drv`readSeqNum, dev
    ensures dev.Valid() && dev.state.mem == old(dev.state).mem && ret in {0, -639} && (ret != 0 ==> turns != [])
    ensures Made(dev, old(dev.requests), old(dev.state), RunLog(dev.script, |old(dev.requests)|, turns))
    ensures AllRan(dev.script, |old(dev.requests)|, turns) && (LastWhole(dev.script, |old(dev.requests)|, turns) <==> ret == 0)
    ensures ReadsPieces(addr, Pieces(size, isDump), old(drv.readSeqNum), turns) && (ret == 0 ==> |turns| == |Pieces(size, isDump)|)
    ensures AcceptedReads(dev.script, |old(dev.requests)|, dev.requests[|old(dev.requests)|..]) ==
            Tiling(addr, Pieces(size, isDump), if ret == 0 then |Pieces(size, isDump)| else AcceptedCount(turns))
    ensures Brought(dev.script, |old(dev.requests)|, old(dev.state), addr, Pieces(size, isDump), old(drv.readSeqNum), Completed(turns, ret), output)
    ensures ret == 0 ==> |output| == size
    ensures ret == 0 && AllHeard(dev.script, |old(dev.requests)|, turns) ==> output == Load(old(dev.state).mem, addr, size)
    ensures drv.readSeqNum == (old(drv.readSeqNum) + |turns|) % WORD
    ensures ret != 0 ==> EndsInFailure(dev.script, |old(dev.requests)|, dev.requests[|old(dev.requests)|..], true)
  {
    hide EndsInFailure, Load, Next, Sum, PieceSize, Pieces, Run, Received, RunLog, Made, AllRan, LastWhole, AllHeard, ReadsPieces, AcceptedReads;
    var transferSize, address: U32 := size, addr;
    ghost var dev0, st0, sizes, seq0, script := dev.requests, dev.state, Pieces(size, isDump), drv.readSeqNum, dev.script;
    output, turns := [], [];
    var buf := new Byte[0x2_0000];
    NextZero(addr);
    PiecesAt(size, isDump, 0);
    SumNothing(sizes);
    PiecesArePositive(size, isDump);
    NothingRead(dev, addr, sizes, seq0);
    while transferSize != 0
      invariant dev.Valid() && dev.state.mem == st0.mem
      invariant Made(dev, dev0, st0, RunLog(script, |dev0|, turns)) && Brought(script, |dev0|, st0, addr, sizes, seq0, turns, output) && |turns| <= |sizes|
      invariant transferSize >= 0 && |output| + transferSize == size && |output| == Sum(sizes[..|turns|]) && address == Next(addr, |output|)
      invariant drv.readSeqNum == (seq0 + |turns|) % WORD
      decreases transferSize
    {
      PiecesAt(size, isDump, |turns|);
      PieceFits(transferSize, isDump);
      var bulkSize := PieceSize(transferSize, isDump);
      SumSnoc(sizes, |turns|);
      var r, actualLen, t := ReadPiece(drv, dev, address, buf, bulkSize, dev0, st0, addr, sizes, seq0, turns, output);
      ghost var before := turns;
      turns := turns + [t];
      if r != 0 {
        LogTiles(dev, dev0, st0, addr, sizes, seq0, turns);
        assert turns[..|turns| - 1] == before;
        ReadsEndInFailure(script, |dev0|, addr, sizes, seq0, turns);
        LogFrom(dev, dev0, st0, RunLog(script, |dev0|, turns));
        return -639, output, turns;
      }
      NextTwice(addr, |output|, bulkSize);
      output := output + buf[..bulkSize];
      transferSize := transferSize - actualLen;
      address := Next(address, actualLen);
    }
    PiecesAt(size, isDump, |turns|);
    LogTiles(dev, dev0, st0, addr, sizes, seq0, turns);
    return 0, output, turns;
  }

  /** A run taken for a success without a heard header exists: for any size of at most 512 bytes,
      a device that takes no byte of the header but answers the bulk read. */
  lemma UnheardReadSucceeds(addr: U32, n: U32, isDump: bool, seqNum: U32) returns (script: seq<Reply>, turns: seq<Turn>)
    requires 0 < n <= 0x200
    ensures ReadsPieces(addr, Pieces(n, isDump), seqNum, turns) && |turns| == |Pieces(n, isDump)|
    ensures AllRan(script, 0, turns) && LastWhole(script, 0, turns) && !AllHeard(script, 0, turns)
  {
    hide CallRan, CallSize, Heard, RunLog, ReadHeader;
    assert Pieces(0, isDump) == [];
    assert Pieces(n, isDump) == [n];
    script := Deaf(n);
    var t := Reading(PieceHeader(addr, [n], seqNum, 0), n, Call(1, 1));
    turns := [] + [t];
    NoTurns(script, 0);
    ReadHeaderIs(PieceAt(addr, [n], 0).0, n, (seqNum + 0 + 1) % WORD, n);
    DeafCall(t.hdr, n, 0x1_0000);
    OneMoreTurn(script, 0, [], t);
    OneMoreHeard(script, 0, [], t);
  }
}
