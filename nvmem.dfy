/**
 * The OTP fuse image as the tool sees it: the bytes of a file opened read/write,
 * accessed four bytes at a time at a byte position.
 *
 * The image has a fixed size. A read or write whose four-byte window does not lie
 * inside it fails, as `lseek`/`read`/`write` (or `pread`/`pwrite`) on the nvmem
 * device do; the model does not grow the file.
 */
module Nvmem {
  import opened Wrappers
  import opened Bits

  type Byte = bv8

  /** `std::array<uint8_t, 4>`: one fuse word as bytes. */
  type Buf = b: seq<Byte> | |b| == 4 witness [0, 0, 0, 0]

  /** Why an operation of the C++ tool fails; each one escapes `main` as an exception. */
  datatype Error =
    | IoFailure     // open, seek, read or write failed (runtime_error)
    | ScanFailure   // sscanf matched fewer than six fields ("internal error")
    | OutOfRange    // std::map::at on a missing key
    | NotModelled   // a fuse class whose methods are not part of this model

  /**
   * What a state-changing fuse operation did: its result, the image afterwards and
   * the byte positions of the writes it attempted, in order.
   */
  datatype Effect = Effect(result: Result<(), Error>, image: seq<Byte>, writes: seq<int>)

  /** `read_bank`: the bytes of a word, least significant first. */
  function Decode(b: Buf): Word
  {
    (b[0] as Word) | ((b[1] as Word) << 8) | ((b[2] as Word) << 16) | ((b[3] as Word) << 24)
  }

  /** The byte order `FlagFuse::set` and the imx8mm `IFuse::set` write a word in. */
  function Encode(v: Word): (b: Buf)
    ensures Decode(b) == v
    ensures b[0] as Word == v & 0xff && b[3] as Word == v >> 24
  {
    [(v & 0xff) as Byte, ((v >> 8) & 0xff) as Byte, ((v >> 16) & 0xff) as Byte, (v >> 24) as Byte]
  }

  lemma EncodeDecode(b: Buf)
    ensures Encode(Decode(b)) == b
  {}

  /** The four-byte window at `pos` lies inside an image of `size` bytes. */
  predicate Fits(size: int, pos: int)
  {
    0 <= pos && pos + 4 <= size
  }

  /** Two windows share no byte. */
  predicate Disjoint(p: int, q: int)
  {
    p + 4 <= q || q + 4 <= p
  }

  /** `read_fuse`: the four bytes at `pos`. */
  function ReadAt(img: seq<Byte>, pos: int): (r: Result<Buf, Error>)
  {
    if Fits(|img|, pos) then Ok(img[pos..pos + 4]) else Err(IoFailure)
  }

  /** The image after `write_fuse` put `buf` at `pos`; a failed write changes nothing. */
  function WriteAt(img: seq<Byte>, pos: int, buf: Buf): (r: seq<Byte>)
    ensures |r| == |img|
    ensures Fits(|img|, pos) ==> r[pos..pos + 4] == buf
    ensures forall i :: 0 <= i < |img| && !(Fits(|img|, pos) && pos <= i < pos + 4) ==> r[i] == img[i]
  {
    if Fits(|img|, pos) then img[..pos] + buf + img[pos + 4..] else img
  }

  /** The word in the window at `pos`. */
  function WordAt(img: seq<Byte>, pos: int): Word
    requires Fits(|img|, pos)
  {
    Decode(img[pos..pos + 4])
  }

  /** One `write_fuse`: the write is attempted, and it fails when the window is outside the image. */
  function Put(img: seq<Byte>, pos: int, buf: Buf): (e: Effect)
    ensures e.writes == [pos] && |e.image| == |img|
    ensures e.result.Ok? <==> Fits(|img|, pos)
    ensures e.result.Ok? ==> WordAt(e.image, pos) == Decode(buf)
    ensures e.result.Err? ==> e.image == img && e.result.error == IoFailure
    ensures forall i :: 0 <= i < |img| && !(pos <= i < pos + 4) ==> e.image[i] == img[i]
  {
    if Fits(|img|, pos) then Effect(Ok(()), WriteAt(img, pos, buf), [pos])
    else Effect(Err(IoFailure), img, [pos])
  }

  /** A word reads back as written. */
  lemma ReadOwnWrite(img: seq<Byte>, pos: int, buf: Buf)
    requires Fits(|img|, pos)
    ensures ReadAt(WriteAt(img, pos, buf), pos) == Ok(buf)
  {}

  /** A write leaves every window it does not overlap as it was. */
  lemma ReadOtherWrite(img: seq<Byte>, pos: int, q: int, buf: Buf)
    requires Disjoint(pos, q)
    ensures ReadAt(WriteAt(img, pos, buf), q) == ReadAt(img, q)
  {
    var r := WriteAt(img, pos, buf);
    if Fits(|img|, q) {
      assert r[q..q + 4] == img[q..q + 4];
    }
  }

  /** The same window written twice holds the second value only. */
  lemma WriteTwice(img: seq<Byte>, pos: int, a: Buf, b: Buf)
    ensures WriteAt(WriteAt(img, pos, a), pos, b) == WriteAt(img, pos, b)
  {
    var lhs := WriteAt(WriteAt(img, pos, a), pos, b);
    var rhs := WriteAt(img, pos, b);
    assert forall i :: 0 <= i < |img| ==> lhs[i] == rhs[i] by {
      forall i | 0 <= i < |img|
        ensures lhs[i] == rhs[i]
      {
        if Fits(|img|, pos) && pos <= i < pos + 4 {
          assert lhs[i] == lhs[pos..pos + 4][i - pos];
          assert rhs[i] == rhs[pos..pos + 4][i - pos];
        }
      }
    }
  }

  /**
   * The opened nvmem file. `trace` records the byte position of every write the
   * tool attempts, in order; it exists only for stating properties.
   */
  class Image {
    var bytes: seq<Byte>
    ghost var trace: seq<int>

    constructor (content: seq<Byte>)
      ensures bytes == content && trace == []
    {
      bytes := content;
      trace := [];
    }

    method Read(pos: int) returns (r: Result<Buf, Error>)
      ensures r == ReadAt(bytes, pos)
    {
      if 0 <= pos && pos + 4 <= |bytes| {
        r := Ok(bytes[pos..pos + 4]);
      } else {
        r := Err(IoFailure);
      }
    }

    method Write(pos: int, buf: Buf) returns (r: Result<(), Error>)
      modifies this
      ensures r == if Fits(|old(bytes)|, pos) then Ok(()) else Err(IoFailure)
      ensures bytes == WriteAt(old(bytes), pos, buf)
      ensures trace == old(trace) + [pos]
    {
      trace := trace + [pos];
      if 0 <= pos && pos + 4 <= |bytes| {
        bytes := bytes[..pos] + buf + bytes[pos + 4..];
        r := Ok(());
      } else {
        r := Err(IoFailure);
      }
    }
  }
}
