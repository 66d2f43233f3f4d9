/** Files sent in chunks of 0x10000 bytes: which chunk holds what, and reading one. */
module Chunks {
  import opened Bytes
  import opened Link

  const CHUNK := 0x1_0000

  function ChunkCount(size: nat): nat {
    (size + CHUNK - 1) / CHUNK
  }

  function ChunkSize(size: nat, k: nat): nat
    requires k < ChunkCount(size)
  {
    Min(size - CHUNK * k, CHUNK)
  }

  /** How many image bytes the first t chunks hold. */
  function UpTo(size: nat, t: nat): nat {
    Min(size, CHUNK * t)
  }

  /** The image: size bytes of the file from pos on. Past the end of the file it reads as zeros,
      but such a chunk is never sent. */
  function Image(file: seq<Byte>, pos: nat, size: nat): (image: seq<Byte>)
    ensures |image| == size
  {
    Padded(if pos <= |file| then file[pos..] else [], size)
  }

  function ChunkOf(image: seq<Byte>, k: nat): (chunk: seq<Byte>)
    requires k < ChunkCount(|image|)
    ensures |chunk| == ChunkSize(|image|, k)
  {
    image[CHUNK * k..CHUNK * k + ChunkSize(|image|, k)]
  }

  lemma ImageInFile(file: seq<Byte>, base: nat, size: nat)
    requires base + size <= |file|
    ensures Image(file, base, size) == file[base..base + size]
  {
  }

  /** A whole chunk in the file is what the image has there. */
  lemma ChunkInFile(file: seq<Byte>, base: nat, size: nat, k: nat)
    requires k < ChunkCount(size) && base + CHUNK * k + ChunkSize(size, k) <= |file|
    ensures ChunkOf(Image(file, base, size), k) == file[base + CHUNK * k..base + CHUNK * k + ChunkSize(size, k)]
  {
  }

  lemma EverythingSent(size: nat)
    ensures UpTo(size, ChunkCount(size)) == size && (ChunkCount(size) == 0 <==> size == 0)
  {
  }

  /** Whether there is a chunk number t, and what it adds. */
  lemma ChunkStep(size: nat, t: nat)
    ensures t < ChunkCount(size) <==> CHUNK * t < size
    ensures t < ChunkCount(size) ==> UpTo(size, t) == CHUNK * t && ChunkSize(size, t) == Min(size - CHUNK * t, CHUNK)
    ensures t < ChunkCount(size) ==> UpTo(size, t + 1) == UpTo(size, t) + ChunkSize(size, t)
    ensures t >= ChunkCount(size) ==> UpTo(size, t) == size
    ensures UpTo(size, 0) == 0
  {
    var q := (size + CHUNK - 1) / CHUNK;
    assert CHUNK * q <= size + CHUNK - 1 < CHUNK * q + CHUNK;
  }

  /** memcpy into the front of a buffer. */
  method CopyIn(buf: array<Byte>, data: seq<Byte>)
    requires |data| <= buf.Length
    modifies buf
    ensures buf[..] == data + old(buf[|data|..])
  {
    forall i | 0 <= i < |data| {
      buf[i] := data[i];
    }
  }

  /** fread: the next n bytes of the file into the front of the buffer, fewer at its end. */
  method ReadBlock(file: seq<Byte>, pos: nat, buf: array<Byte>, n: nat) returns (k: nat)
    requires n <= buf.Length
    modifies buf
    ensures k == if pos <= |file| then Min(n, |file| - pos) else 0
    ensures buf[..] == (if k > 0 then file[pos..pos + k] else []) + old(buf[k..])
  {
    k := if pos <= |file| then Min(n, |file| - pos) else 0;
    if k > 0 {
      CopyIn(buf, file[pos..pos + k]);
    }
  }
}
