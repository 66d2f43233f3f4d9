/** Bytes, machine words and little-endian encoding, as used on the wire and in host buffers. */
module Bytes {
  type Byte = b: int | 0 <= b < 0x100
  type U16 = w: int | 0 <= w < 0x1_0000
  type U32 = w: int | 0 <= w < WORD
  type I32 = x: int | -0x8000_0000 <= x < 0x8000_0000

  const WORD := 0x1_0000_0000

  /** An unsigned word stored into an int. */
  function Signed(w: U32): I32 {
    if w < 0x8000_0000 then w else w - WORD
  }

  function Min(a: int, b: int): int {
    if a < b then a else b
  }

  /** A 32-bit accumulator that wraps agrees with the exact sum modulo 2^32. */
  lemma WrapAdd(sum: int, x: int)
    ensures (sum % WORD + x) % WORD == (sum + x) % WORD
  {
    var q, r := sum / WORD, sum % WORD;
    assert sum + x == q * WORD + (r + x);
  }

  /** The value of a little-endian byte string of any length. */
  function LeValue(bs: seq<Byte>): nat {
    if bs == [] then 0 else bs[0] + 0x100 * LeValue(bs[1..])
  }

  /** The four bytes SET_U32 stores. */
  function Le32(w: U32): (bs: seq<Byte>)
    ensures |bs| == 4
  {
    var r1 := w / 0x100;
    var r2 := r1 / 0x100;
    [w % 0x100, r1 % 0x100, r2 % 0x100, r2 / 0x100]
  }

  lemma LeValue1(a: Byte)
    ensures LeValue([a]) == a
  {
    assert [a][1..] == [];
  }

  lemma LeValue2(a: Byte, b: Byte)
    ensures LeValue([a, b]) == a + 0x100 * b
  {
    assert [a, b][1..] == [b];
    assert LeValue([b]) == b + 0x100 * LeValue([b][1..]);
  }

  lemma LeValue4(bs: seq<Byte>)
    requires |bs| == 4
    ensures LeValue(bs) == bs[0] as int + 0x100 * bs[1] as int + 0x1_0000 * bs[2] as int + 0x100_0000 * bs[3] as int
  {
    assert bs[1..][1..] == bs[2..];
    LeValue2(bs[2], bs[3]);
    assert bs[2..] == [bs[2], bs[3]];
  }

  /** Storing a word and loading it back is the identity. */
  lemma Le32RoundTrip(w: U32)
    ensures LeValue(Le32(w)) == w
  {
    LeValue4(Le32(w));
  }

  lemma LeValueBound2(bs: seq<Byte>)
    requires |bs| <= 2
    ensures LeValue(bs) < 0x1_0000
    ensures |bs| <= 1 ==> LeValue(bs) < 0x100
  {
    if |bs| == 2 {
      LeValue2(bs[0], bs[1]);
      assert bs == [bs[0], bs[1]];
    }
  }

  lemma SliceOfSlice<T>(s: seq<T>, from: nat, to: nat, n: nat)
    requires from <= to <= |s| && from + n <= to
    ensures s[from..to][..n] == s[from..from + n]
  {
  }

  lemma SliceOfPrefix<T>(s: seq<T>, n: nat, from: nat, to: nat)
    requires from <= to <= n <= |s|
    ensures s[..n][from..to] == s[from..to]
  {
  }

  lemma SliceExtends<T>(s: seq<T>, p: nat, n: nat)
    requires p + n <= |s|
    ensures s[..p] + s[p..p + n] == s[..p + n]
  {
  }

  lemma TakeOneMore<T>(s: seq<T>, n: nat)
    requires n < |s|
    ensures s[..n] + [s[n]] == s[..n + 1]
  {
  }

  /** The characters of an ASCII literal as bytes. */
  function Ascii(s: string): (bs: seq<Byte>)
    ensures |bs| == |s|
  {
    seq(|s|, i requires 0 <= i < |s| => (s[i] as int) % 0x100)
  }

  function Zeros(n: nat): (bs: seq<Byte>)
    ensures |bs| == n
  {
    seq(n, _ => 0)
  }
}
