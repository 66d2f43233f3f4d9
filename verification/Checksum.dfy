/** The two sums of checksum.h: the one's-complement sum of section 4.1 of RFC 1071, folded
    exactly twice, and the 32-bit word sum with a ragged tail. */
module Checksum {
  import opened Bytes

  /** Reference for both: the sum of the w-byte little-endian words of bs, the last one
      padded with zeros. */
  function WordSum(bs: seq<Byte>, w: nat): nat
    requires w > 0
    decreases |bs|
  {
    if |bs| == 0 then 0
    else if |bs| <= w then LeValue(bs)
    else LeValue(bs[..w]) + WordSum(bs[w..], w)
  }

  /** One word, ragged or not, in numbers. */
  lemma WordSumOfOne(bs: seq<Byte>)
    ensures WordSum([], 2) == WordSum([], 4) == 0
    ensures |bs| == 1 ==> WordSum(bs, 2) == WordSum(bs, 4) == bs[0]
    ensures |bs| == 2 ==> WordSum(bs, 2) == WordSum(bs, 4) == bs[0] as int + 0x100 * bs[1] as int
    ensures |bs| == 3 ==> WordSum(bs, 4) == bs[0] as int + 0x100 * bs[1] as int + 0x1_0000 * bs[2] as int
    ensures |bs| == 4 ==> WordSum(bs, 4) == bs[0] as int + 0x100 * bs[1] as int + 0x1_0000 * bs[2] as int + 0x100_0000 * bs[3] as int
  {
    hide LeValue;
    match |bs| {
      case 1 =>
        LeValue1(bs[0]);
        assert bs == [bs[0]];
      case 2 =>
        LeValue2(bs[0], bs[1]);
        assert bs == [bs[0], bs[1]];
      case 3 =>
        LeValue3(bs);
      case 4 =>
        LeValue4(bs);
      case _ =>
    }
  }

  lemma LeValue3(bs: seq<Byte>)
    requires |bs| == 3
    ensures LeValue(bs) == bs[0] as int + 0x100 * bs[1] as int + 0x1_0000 * bs[2] as int
  {
    LeValue2(bs[1], bs[2]);
    assert bs[1..] == [bs[1], bs[2]];
  }

  /** A word sum splits at every word boundary: here after n words. */
  lemma {:induction false} WordSumSplits(a: seq<Byte>, b: seq<Byte>, w: nat, n: nat)
    requires w > 0 && |a| == n * w
    ensures WordSum(a + b, w) == WordSum(a, w) + WordSum(b, w)
    decreases n
  {
    if n == 0 {
      assert a + b == b;
    } else {
      assert |a| == w + (n - 1) * w;
      assert (n - 1) * w >= 0;
      var rest := a[w..];
      WordSumSplits(rest, b, w, n - 1);
      assert (a + b)[..w] == a[..w] && (a + b)[w..] == rest + b;
      if |a + b| == w {
        assert a + b == a && b == [];
      }
      assert WordSum(a, w) == LeValue(a[..w]) + WordSum(rest, w);
    }
  }

  /** One more word, or the ragged tail. */
  lemma WordSumExtends(bs: seq<Byte>, at: nat, k: nat, w: nat, n: nat)
    requires w > 0 && at == n * w && k <= w && at + k <= |bs|
    ensures WordSum(bs[..at + k], w) == WordSum(bs[..at], w) + LeValue(bs[at..at + k])
  {
    WordSumSplits(bs[..at], bs[at..at + k], w, n);
    assert bs[..at + k] == bs[..at] + bs[at..at + k];
  }

  // ---- checksum_64K ----

  /** The bytes that are summed of a buffer whose length is handed over as an int. A negative one
      has no whole words, and its ragged tail is taken from the front of the buffer. */
  function Taken(buf: seq<Byte>, len: I32, w: nat): (bs: seq<Byte>)
    requires w in {2, 4} && len <= |buf| && (len < 0 ==> |buf| >= 3)
  {
    if len >= 0 then buf[..len] else buf[..if w == 2 then 1 else len % 4]
  }

  /** checksum_64K of data, whose length is turned into an int. */
  function Sum64K(data: seq<Byte>): U32 {
    WordSum(Taken(data, Signed(|data| % WORD), 4), 4) % WORD
  }

  /** Below 2^31 bytes, that is all of them. */
  lemma Sum64KIs(data: seq<Byte>)
    requires |data| < 0x8000_0000
    ensures Sum64K(data) == WordSum(data, 4) % WORD
  {
    hide WordSum, Taken;
    AllTaken(data, 4);
    assert |data| % WORD == |data|;
  }

  lemma AllTaken(data: seq<Byte>, w: nat)
    requires |data| < 0x8000_0000 && w in {2, 4}
    ensures Signed(|data|) == |data| && Taken(data, |data|, w) == data
  {
    assert data[..|data|] == data;
  }

  /** checksum_64K: a 32-bit accumulator over four-byte words, and a 0 to 3 byte tail. */
  method Checksum64K(buf: seq<Byte>, len: I32) returns (cksum: U32)
    requires len <= |buf| && (len < 0 ==> |buf| >= 3)
    ensures cksum == WordSum(Taken(buf, len, 4), 4) % WORD
    ensures len >= 0 ==> cksum == WordSum(buf[..len], 4) % WORD
    ensures len < 0 ==> cksum == WordSum(buf[..len % 4], 4) % WORD
  {
    hide WordSum, LeValue, Taken;
    TakenIs(buf, len);
    cksum := 0;
    var at, i := 0, 0;
    ghost var bs, words := Taken(buf, len, 4), if len >= 0 then len / 4 else 0;
    WordsTaken(buf, len);
    NoWords(bs);
    while i < len / 4
      invariant at == 4 * i && 0 <= i <= words
      invariant cksum == WordSum(bs[..at], 4) % WORD
    {
      WordSumExtends(bs, at, 4, 4, i);
      SliceOfPrefix(buf, |bs|, at, at + 4);
      cksum := AddWord(cksum, buf[at..at + 4], WordSum(bs[..at], 4));
      at, i := at + 4, i + 1;
    }
    var tail := buf[at..at + len % 4];
    WordSumExtends(bs, at, |tail|, 4, words);
    SliceOfPrefix(buf, |bs|, at, at + |tail|);
    assert bs[..at + |tail|] == bs;
    cksum := AddTail(cksum, tail, WordSum(bs[..at], 4));
  }

  /** cksum += le32toh(word); sum is the exact sum so far. */
  method AddWord(cksum: U32, word: seq<Byte>, ghost sum: nat) returns (after: U32)
    requires cksum == sum % WORD
    ensures after == (sum + LeValue(word)) % WORD
  {
    WrapAdd(sum, LeValue(word));
    after := (cksum + LeValue(word)) % WORD;
  }

  /** The ragged tail. */
  method AddTail(cksum: U32, tail: seq<Byte>, ghost sum: nat) returns (after: U32)
    requires cksum == sum % WORD && |tail| < 4
    ensures after == (sum + LeValue(tail)) % WORD
  {
    hide LeValue;
    match |tail| {
      case 1 =>
        LeValue1(tail[0]);
        assert tail == [tail[0]];
        WrapAdd(sum, tail[0]);
        after := (cksum + tail[0]) % WORD;
      case 2 =>
        after := AddWord(cksum, tail, sum);
      case 3 =>
        after := AddWord(cksum, tail, sum);
      case _ =>
        assert tail == [];
        NoValue();
        after := cksum;
    }
  }

  lemma TakenIs(buf: seq<Byte>, len: I32)
    requires len <= |buf| && (len < 0 ==> |buf| >= 3)
    ensures Taken(buf, len, 4) == if len >= 0 then buf[..len] else buf[..len % 4]
  {
  }

  /** Whole words, then 0 to 3 bytes; all of it lies at the front of the buffer. */
  lemma WordsTaken(buf: seq<Byte>, len: I32)
    requires len <= |buf| && (len < 0 ==> |buf| >= 3)
    ensures var bs, words := Taken(buf, len, 4), if len >= 0 then len / 4 else 0;
            && 0 <= len % 4 < 4 && |bs| == 4 * words + len % 4 && bs == buf[..|bs|]
            && (len < 0 ==> len / 4 < 0)
  {
  }

  lemma NoWords(bs: seq<Byte>)
    ensures WordSum(bs[..0], 4) == WordSum(bs[..0], 2) == 0
  {
  }

  lemma NoValue()
    ensures LeValue([]) == 0
  {
  }

  /** What the accumulation over consecutive chunks relies on: the 32-bit checksums of the two
      parts of an image, split at any 4-aligned point, add up to that of the whole. */
  lemma Checksum64KSplits(a: seq<Byte>, b: seq<Byte>)
    requires |a| % 4 == 0
    ensures WordSum(a + b, 4) % WORD == (WordSum(a, 4) % WORD + WordSum(b, 4) % WORD) % WORD
  {
    hide WordSum;
    WordSumSplits(a, b, 4, |a| / 4);
    WrapAdd(WordSum(a, 4), WordSum(b, 4) % WORD);
    WrapAdd(WordSum(b, 4), WordSum(a, 4));
  }

  // ---- checksum_add ----

  /** One fold of section 4.1 of RFC 1071. */
  function Fold(sum: nat): nat {
    sum / 0x1_0000 + sum % 0x1_0000
  }

  /** Section 4.1 of RFC 1071: fold for as long as there is a carry. */
  function FoldAll(sum: nat): (f: U16)
    ensures f % 0xFFFF == sum % 0xFFFF
    ensures f == 0 <==> sum == 0
  {
    if sum < 0x1_0000 then sum else FoldAll(Fold(sum))
  }

  /** The largest length at which two folds absorb every carry. */
  const TWO_FOLD_LIMIT := 131076

  /** checksum_add of data, whose length is turned into an int. */
  function SumAdd(data: seq<Byte>, noFlip: bool): U16 {
    Rendered(Fold(Fold(WordSum(Taken(data, Signed(|data| % WORD), 2), 2))), noFlip)
  }

  /** checksum_add: the sum in 64 bits, exactly two folds, then truncation to 16 bits. */
  method ChecksumAdd(buf: seq<Byte>, len: I32, noFlip: bool) returns (cksum: U16)
    requires len <= |buf| && (len < 0 ==> |buf| >= 3)
    ensures cksum == Rendered(Fold(Fold(WordSum(Taken(buf, len, 2), 2))), noFlip)
    ensures 0 <= len <= 131076 ==>
      var folded := if noFlip then cksum else 0xFFFF - cksum;
      folded % 0xFFFF == WordSum(buf[..len], 2) % 0xFFFF && (folded == 0 <==> forall i :: 0 <= i < len ==> buf[i] == 0)
    ensures len < 0 ==> cksum == if noFlip then buf[0] as int else 0xFFFF - buf[0] as int
  {
    hide WordSum, LeValue, Taken, Fold, Rendered;
    var sum: nat, at: nat, left: int := 0, 0, len;
    ghost var bs := Taken(buf, len, 2);
    HalvesTaken(buf, len);
    NoWords(bs);
    while left > 1
      invariant at % 2 == 0 && at + left == len && (len >= 0 ==> left >= 0) && at <= |bs|
      invariant sum == WordSum(bs[..at], 2)
    {
      WordSumExtends(bs, at, 2, 2, at / 2);
      SliceOfPrefix(buf, |bs|, at, at + 2);
      sum := sum + LeValue(buf[at..at + 2]);
      at, left := at + 2, left - 2;
    }
    ghost var rest := |bs| - at;
    WordSumExtends(bs, at, rest, 2, at / 2);
    assert bs[..at + rest] == bs;
    NoValue();
    if left != 0 {
      LeValue1(buf[at]);
      OddByte(buf, bs, at);
      sum := sum + buf[at];
    }
    assert sum == WordSum(bs, 2);
    FoldIs(sum);
    sum := sum / 0x1_0000 + sum % 0x1_0000;
    FoldIs(sum);
    sum := sum / 0x1_0000 + sum % 0x1_0000;
    cksum := Rendered(sum, noFlip);
    WhatIsFolded(buf, len, noFlip, cksum);
  }

  lemma OddByte(buf: seq<Byte>, bs: seq<Byte>, at: nat)
    requires |bs| <= |buf| && bs == buf[..|bs|] && at + 1 == |bs|
    ensures bs[at..at + 1] == [buf[at]]
  {
  }

  lemma WhatIsFolded(buf: seq<Byte>, len: I32, noFlip: bool, cksum: U16)
    requires len <= |buf| && (len < 0 ==> |buf| >= 3) && cksum == Rendered(Fold(Fold(WordSum(Taken(buf, len, 2), 2))), noFlip)
    ensures 0 <= len <= 131076 ==>
      var folded := if noFlip then cksum else 0xFFFF - cksum;
      folded % 0xFFFF == WordSum(buf[..len], 2) % 0xFFFF && (folded == 0 <==> forall i :: 0 <= i < len ==> buf[i] == 0)
    ensures len < 0 ==> cksum == if noFlip then buf[0] as int else 0xFFFF - buf[0] as int
  {
    hide WordSum, Taken, Fold, Rendered;
    if 0 <= len <= 131076 {
      FoldsToResidue(buf, len, noFlip);
    } else if len < 0 {
      FirstByteOnly(buf, len, noFlip);
    }
  }

  lemma FoldIs(sum: nat)
    ensures Fold(sum) == sum / 0x1_0000 + sum % 0x1_0000
  {
  }

  /** A negative length leaves the first byte. */
  lemma FirstByteOnly(buf: seq<Byte>, len: I32, noFlip: bool)
    requires len < 0 && |buf| >= 3
    ensures Rendered(Fold(Fold(WordSum(Taken(buf, len, 2), 2))), noFlip) == if noFlip then buf[0] as int else 0xFFFF - buf[0] as int
  {
    hide WordSum;
    assert Taken(buf, len, 2) == [buf[0]];
    WordSumOfOne([buf[0]]);
  }

  /** What is summed lies at the front of the buffer. */
  lemma HalvesTaken(buf: seq<Byte>, len: I32)
    requires len <= |buf| && (len < 0 ==> |buf| >= 3)
    ensures var bs := Taken(buf, len, 2); |bs| == (if len >= 0 then len else 1) && bs == buf[..|bs|]
  {
  }

  /** The last step of checksum_add: complement unless noFlip, then truncation. */
  function Rendered(folded: nat, noFlip: bool): U16 {
    if noFlip then folded % 0x1_0000 else 0xFFFF - folded % 0x1_0000
  }

  /** Words are at most 0xFFFF, so a buffer of len bytes sums to at most len / 2 full words and
      one odd byte. */
  lemma {:induction false} WordSumBound(bs: seq<Byte>)
    ensures WordSum(bs, 2) <= |bs| / 2 * 0xFFFF + |bs| % 2 * 0xFF
    decreases |bs|
  {
    if |bs| <= 2 {
      LeValueBound2(bs);
    } else {
      LeValueBound2(bs[..2]);
      WordSumBound(bs[2..]);
    }
  }

  /** The sum is zero exactly for zero data, so a folded sum of 0 means an all-zero buffer. */
  lemma {:induction false} WordSumZero(bs: seq<Byte>)
    ensures WordSum(bs, 2) == 0 <==> forall i :: 0 <= i < |bs| ==> bs[i] == 0
    decreases |bs|
  {
    if |bs| == 1 {
      LeValue1(bs[0]);
      assert bs == [bs[0]];
    } else if |bs| >= 2 {
      LeValue2(bs[0], bs[1]);
      assert bs[..2] == [bs[0], bs[1]];
      var rest := bs[2..];
      WordSumZero(rest);
      assert forall i :: 2 <= i < |bs| ==> bs[i] == rest[i - 2];
      if |bs| == 2 {
        assert bs == bs[..2];
      } else {
        assert WordSum(bs, 2) == LeValue(bs[..2]) + WordSum(rest, 2);
      }
    }
  }

  /** Two folds are enough exactly while the first one leaves at most one carry: the largest
      such sum is that of 65538 words 0xFFFF. */
  lemma TwoFoldsSuffice(sum: nat)
    requires sum <= 65538 * 0xFFFF
    ensures Fold(Fold(sum)) == FoldAll(sum) < 0x1_0000
  {
    hide Fold;
    var once := Fold(sum);
    FoldStep(sum);
    FoldStep(once);
  }

  /** What one fold leaves. */
  lemma FoldStep(sum: nat)
    ensures sum < 0x1_0000 ==> Fold(sum) == sum == FoldAll(sum)
    ensures sum <= 0x1_FFFE ==> Fold(sum) < 0x1_0000 && Fold(sum) == FoldAll(sum)
    ensures sum <= 65538 * 0xFFFF ==> Fold(sum) <= 0x1_FFFE
    ensures FoldAll(sum) == FoldAll(Fold(sum))
  {
    var q, r := sum / 0x1_0000, sum % 0x1_0000;
    assert sum == 0x1_0000 * q + r && Fold(sum) == q + r;
    FoldAllStep(sum);
  }

  lemma FoldAllStep(sum: nat)
    ensures sum < 0x1_0000 ==> FoldAll(sum) == sum
    ensures FoldAll(sum) == FoldAll(Fold(sum))
    ensures Fold(sum) < 0x1_0000 ==> FoldAll(sum) == Fold(sum)
  {
  }

  /** The buffer that shows the limit is tight: 65538 words 0xFFFF, then a byte 1, then zeros. */
  function OverflowingBuffer(len: nat): (bs: seq<Byte>)
    requires len > TWO_FOLD_LIMIT
    ensures |bs| == len
  {
    seq(TWO_FOLD_LIMIT, _ => 0xFF) + [1] + Zeros(len - TWO_FOLD_LIMIT - 1)
  }

  lemma {:induction false} AllOnesSum(words: nat)
    ensures WordSum(seq(2 * words, _ => 0xFF), 2) == words * 0xFFFF
  {
    var bs: seq<Byte> := seq(2 * words, _ => 0xFF);
    if words > 0 {
      AllOnesSum(words - 1);
      LeValue2(0xFF, 0xFF);
      assert bs[..2] == [0xFF, 0xFF];
      assert bs[2..] == seq(2 * (words - 1), _ => 0xFF);
      if words == 1 {
        assert bs == bs[..2];
      }
    }
  }

  lemma OverflowingBufferSum(len: nat)
    requires len > TWO_FOLD_LIMIT
    ensures WordSum(OverflowingBuffer(len), 2) == 65538 * 0xFFFF + 1
  {
    var ones: seq<Byte> := seq(TWO_FOLD_LIMIT, _ => 0xFF);
    var tail: seq<Byte> := [1] + Zeros(len - TWO_FOLD_LIMIT - 1);
    assert OverflowingBuffer(len) == ones + tail;
    AllOnesSum(65538);
    WordSumSplits(ones, tail, 2, 65538);
    if |tail| == 1 {
      LeValue1(1);
      assert tail == [1];
    } else {
      LeValue2(1, 0);
      assert tail[..2] == [1, 0];
      WordSumZero(tail[2..]);
      if |tail| == 2 {
        assert tail == tail[..2];
      }
    }
  }

  /** What section 4.1 of RFC 1071 makes of a sum: all the carries folded in, and the complement
      unless noFlip. */
  function Rfc1071(sum: nat, noFlip: bool): U16 {
    if noFlip then FoldAll(sum) else 0xFFFF - FoldAll(sum)
  }

  /** Below 2^31 bytes, all of the data is summed. */
  lemma SumAddIs(bs: seq<Byte>, noFlip: bool)
    requires |bs| < 0x8000_0000
    ensures SumAdd(bs, noFlip) == Rendered(Fold(Fold(WordSum(bs, 2))), noFlip)
  {
    hide WordSum, Fold, Rendered, Taken;
    AllTaken(bs, 2);
    assert |bs| % WORD == |bs|;
  }

  lemma BoundedSum(bs: seq<Byte>)
    requires |bs| <= TWO_FOLD_LIMIT
    ensures WordSum(bs, 2) <= 65538 * 0xFFFF
  {
    hide WordSum;
    WordSumBound(bs);
    var q, r := |bs| / 2, |bs| % 2;
    assert |bs| == 2 * q + r && 0 <= r < 2;
  }

  /** Up to the limit, two folds are all the folds there are. */
  lemma TwoFoldsAreAll(bs: seq<Byte>, noFlip: bool)
    requires |bs| <= TWO_FOLD_LIMIT
    ensures SumAdd(bs, noFlip) == Rfc1071(WordSum(bs, 2), noFlip)
  {
    hide Fold, FoldAll, WordSum, SumAdd;
    SumAddIs(bs, noFlip);
    BoundedSum(bs);
    TwoFoldsSuffice(WordSum(bs, 2));
  }

  /** In numbers: up to the limit, what comes out is the sum modulo 65535, and zero only for zero
      data. */
  lemma FoldsToResidue(buf: seq<Byte>, len: I32, noFlip: bool)
    requires 0 <= len <= |buf| && len <= 131076
    ensures var cksum := Rendered(Fold(Fold(WordSum(Taken(buf, len, 2), 2))), noFlip);
            var folded := if noFlip then cksum else 0xFFFF - cksum;
            folded % 0xFFFF == WordSum(buf[..len], 2) % 0xFFFF && (folded == 0 <==> forall i :: 0 <= i < len ==> buf[i] == 0)
  {
    hide WordSum, Fold, FoldAll;
    var bs := buf[..len];
    BoundedSum(bs);
    TwoFoldsSuffice(WordSum(bs, 2));
    WordSumZero(bs);
    assert forall i :: 0 <= i < len ==> bs[i] == buf[i];
  }

  /** What a receiver of RFC 1071 checks: with the complemented sum behind data of whole words, the
      sum of all of it comes out as all ones. */
  lemma ReceiverSeesAllOnes(bs: seq<Byte>)
    requires |bs| % 2 == 0 && |bs| + 2 <= TWO_FOLD_LIMIT
    ensures var cksum := SumAdd(bs, false);
            SumAdd(bs + [cksum % 0x100, cksum / 0x100], true) == 0xFFFF
  {
    hide WordSum, SumAdd, FoldAll;
    var cksum, sum := SumAdd(bs, false), WordSum(bs, 2);
    var field: seq<Byte> := [cksum % 0x100, cksum / 0x100];
    TwoFoldsAreAll(bs, false);
    TwoFoldsAreAll(bs + field, true);
    WordSumSplits(bs, field, 2, |bs| / 2);
    WordSumOfOne(field);
    assert WordSum(bs + field, 2) == sum + 0xFFFF - FoldAll(sum);
    assert FoldAll(sum + 0xFFFF - FoldAll(sum)) == 0xFFFF by {
      AllOnes(sum, FoldAll(sum), FoldAll(sum + 0xFFFF - FoldAll(sum)));
    }
  }

  lemma AllOnes(sum: nat, folded: U16, total: U16)
    requires folded % 0xFFFF == sum % 0xFFFF && (folded == 0 <==> sum == 0)
    requires total % 0xFFFF == (sum + 0xFFFF - folded) % 0xFFFF && (total == 0 <==> sum + 0xFFFF - folded == 0)
    ensures total == 0xFFFF
  {
    assert (sum + 0xFFFF - folded) % 0xFFFF == 0;
  }

  /** Sums that come out as that of zero data though they are not zero. */
  lemma TakenForZero(sum: nat, folded: nat, noFlip: bool)
    requires sum > 0 && folded % 0x1_0000 == 0
    ensures Rendered(folded, noFlip) == Rfc1071(0, noFlip) != Rfc1071(sum, noFlip)
  {
  }

  /** Past it, a carry is left over: the sum comes out as that of zero data, though the data is
      not zero. */
  lemma TwoFoldsFail(len: nat, noFlip: bool)
    requires TWO_FOLD_LIMIT < len < 0x8000_0000
    ensures var bs := OverflowingBuffer(len);
            SumAdd(bs, noFlip) == Rfc1071(0, noFlip) != Rfc1071(WordSum(bs, 2), noFlip)
  {
    hide WordSum, FoldAll, Rfc1071, Rendered, SumAdd;
    var bs := OverflowingBuffer(len);
    OverflowingBufferSum(len);
    SumAddIs(bs, noFlip);
    assert Fold(Fold(65538 * 0xFFFF + 1)) == 0x1_0000;
    TakenForZero(65538 * 0xFFFF + 1, 0x1_0000, noFlip);
  }

  /** From 2^31 bytes on, only the first byte is summed. */
  lemma NegativeLengthFails(len: nat, noFlip: bool)
    requires 0x8000_0000 <= len < WORD
    ensures var bs := OneAfterZero(len);
            SumAdd(bs, noFlip) == Rfc1071(0, noFlip) != Rfc1071(WordSum(bs, 2), noFlip)
  {
    hide FoldAll, WordSum, Rfc1071, Rendered;
    var bs := OneAfterZero(len);
    assert bs[..1] == [0] && bs[1] == 1;
    FirstByteZero();
    WordSumZero(bs);
    TakenForZero(WordSum(bs, 2), 0, noFlip);
  }

  function OneAfterZero(len: nat): (bs: seq<Byte>)
    requires len > 1
    ensures |bs| == len
  {
    [0, 1] + Zeros(len - 2)
  }

  lemma FirstByteZero()
    ensures WordSum([0], 2) == 0 && Fold(Fold(0)) == 0
  {
    LeValue1(0);
  }

  /** checksum_add is the sum of RFC 1071 on every buffer of a length exactly when that length is
      at most 131076; the largest chunk the write and dump loops pass, 0x10000 bytes, is within
      it. */
  lemma TwoFoldLimitIsTight(len: U32, noFlip: bool)
    ensures (forall bs: seq<Byte> :: |bs| == len ==> SumAdd(bs, noFlip) == Rfc1071(WordSum(bs, 2), noFlip))
            <==> len <= 131076
  {
    hide SumAdd, FoldAll, WordSum, Rfc1071;
    if len <= TWO_FOLD_LIMIT {
      forall bs: seq<Byte> | |bs| == len
        ensures SumAdd(bs, noFlip) == Rfc1071(WordSum(bs, 2), noFlip)
      {
        TwoFoldsAreAll(bs, noFlip);
      }
    } else if len < 0x8000_0000 {
      TwoFoldsFail(len, noFlip);
      assert |OverflowingBuffer(len)| == len;
    } else {
      NegativeLengthFails(len, noFlip);
      assert |OneAfterZero(len)| == len;
    }
  }
}
