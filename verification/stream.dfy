/**
 * The archive's open file as the C stdio calls see it: the whole file's
 * bytes and the current stream position. `fseek` and `fread` become pure
 * functions on that pair.
 */
module Stream {
  import opened Bytes

  datatype File = File(data: seq<byte>, pos: nat)

  /** A stream opened for reading is positioned at the first byte. */
  function Opened(data: seq<byte>): (f: File)
    ensures f.data == data && f.pos == 0
  {
    File(data, 0)
  }

  /**
   * `fseek(f, offset, SEEK_SET)`: any offset from zero on is accepted, even one
   * past the end of the file; a negative offset fails and the position stays.
   */
  function Seek(f: File, offset: int): (r: File)
    ensures r.data == f.data
    ensures offset >= 0 ==> r.pos == offset
    ensures offset < 0 ==> r == f
  {
    if offset >= 0 then f.(pos := offset) else f
  }

  /** How many of `n` requested bytes the file still holds after the position. */
  function Available(f: File, n: nat): (k: nat)
    ensures k <= n
    ensures k == 0 || f.pos + k <= |f.data|
    ensures f.pos + n <= |f.data| ==> k == n
  {
    if f.pos >= |f.data| then 0
    else if n <= |f.data| - f.pos then n
    else |f.data| - f.pos
  }

  /**
   * `fread` of `|buf|` bytes into `buf`: the bytes up to the end of the file
   * are copied over the start of the buffer, the rest of the buffer keeps what
   * it held, and the position moves past the bytes copied: to the end of
   * the file when the end cuts the read short.
   */
  function Read(f: File, buf: seq<byte>): (r: (File, seq<byte>))
    ensures r.0.data == f.data
    ensures |r.1| == |buf|
    ensures f.pos + |buf| <= |f.data| ==>
      r.1 == f.data[f.pos..f.pos + |buf|] && r.0.pos == f.pos + |buf|
    ensures f.pos < |f.data| < f.pos + |buf| ==> r.0.pos == |f.data|
    ensures f.pos >= |f.data| ==> r == (f, buf)
  {
    var k := Available(f, |buf|);
    if k == 0 then (f, buf)
    else (f.(pos := f.pos + k), f.data[f.pos..f.pos + k] + buf[k..])
  }

  /** Byte by byte, a read copies the file's bytes while they last and leaves the rest of the buffer as it was. */
  lemma ReadOverlay(f: File, buf: seq<byte>)
    ensures forall i :: 0 <= i < |buf| ==>
      Read(f, buf).1[i] == (if f.pos + i < |f.data| then f.data[f.pos + i] else buf[i])
  {
  }

  /**
   * `std::vector::resize` seen through the vector's bytes: the first `n` bytes
   * are kept and any new ones are value-initialised to zero.
   */
  function Resize(buf: seq<byte>, n: nat): (r: seq<byte>)
    ensures |r| == n
  {
    if n <= |buf| then buf[..n] else buf + Zeros(n - |buf|)
  }

  /** Resizing keeps the bytes that fit and zero-fills the ones it adds. */
  lemma ResizeContents(buf: seq<byte>, n: nat)
    ensures forall i :: 0 <= i < n ==> Resize(buf, n)[i] == (if i < |buf| then buf[i] else 0)
  {
  }
}
