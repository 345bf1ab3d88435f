/** The part of C's stdio the loader uses (fopen, fseek, fread, fclose), over files held as bytes. */
module Stdio {
  import opened CTypes

  /** A file as stored: its bytes, and the offsets at which reading fails with an I/O error. */
  datatype Image = Image(bytes: seq<byte>, bad: set<nat>)

  /** Every byte in [lo, hi) exists and can be read. */
  predicate Readable(img: Image, lo: nat, hi: nat)
  {
    hi <= |img.bytes| && forall q :: lo <= q < hi ==> q !in img.bad
  }

  /** Where a read starting at pos stops: the first offset from pos on that cannot be read
      or lies past the end of the file. */
  function Stop(img: Image, pos: nat): (e: nat)
    ensures pos <= e
    ensures e <= |img.bytes| || e == pos
    decreases |img.bytes| - pos
  {
    if pos >= |img.bytes| || pos in img.bad then pos else Stop(img, pos + 1)
  }

  /** A read started later, but not past where an earlier one stops, stops at the same place. */
  lemma {:induction false} StopStable(img: Image, pos: nat, q: nat)
    requires pos <= q <= Stop(img, pos)
    ensures Stop(img, q) == Stop(img, pos)
    decreases q - pos
  {
    if pos < q {
      StopStable(img, pos + 1, q);
    }
  }

  /** A read runs at least to the end of the readable bytes it starts in. */
  lemma {:induction false} StopPastReadable(img: Image, pos: nat, hi: nat)
    requires pos <= hi && Readable(img, pos, hi)
    ensures hi <= Stop(img, pos)
    decreases hi - pos
  {
    if pos < hi {
      StopPastReadable(img, pos + 1, hi);
    }
  }

  /** A read stops at the first unreadable byte. */
  lemma {:induction false} StopAtBad(img: Image, pos: nat, b: nat)
    requires pos <= b < |img.bytes| && b in img.bad && Readable(img, pos, b)
    ensures Stop(img, pos) == b
    decreases b - pos
  {
    if pos < b {
      StopAtBad(img, pos + 1, b);
    }
  }

  /** How many bytes fread delivers when asked for n at offset pos: all n, unless
      reading stops first, and then those before the stop. */
  function Available(img: Image, pos: nat, n: nat): (k: nat)
    ensures k <= n && pos + k <= Stop(img, pos)
    ensures k == 0 || pos + k <= |img.bytes|
    ensures k < n ==> pos + k == Stop(img, pos)
  {
    if n <= Stop(img, pos) - pos then n else Stop(img, pos) - pos
  }

  datatype Whence = SeekSet | SeekEnd

  /** The position fseek moves to. A negative one makes fseek fail; one past the end does not. */
  function SeekTarget(img: Image, offset: int, whence: Whence): int
  {
    match whence
    case SeekSet => offset
    case SeekEnd => |img.bytes| + offset
  }

  /** An open FILE: the file it reads and its cursor. */
  class File {
    const image: Image
    var pos: nat
    var isOpen: bool

    constructor Open(image: Image)
      ensures this.image == image && pos == 0 && isOpen
    {
      this.image := image;
      pos := 0;
      isOpen := true;
    }

    method Seek(offset: int, whence: Whence) returns (ok: bool)
      modifies this`pos
      ensures ok <==> SeekTarget(image, offset, whence) >= 0
      ensures pos == if ok then SeekTarget(image, offset, whence) else old(pos)
    {
      var target := SeekTarget(image, offset, whence);
      ok := target >= 0;
      if ok {
        pos := target;
      }
    }

    /** fread(buf, 1, n, f): copies what is available into buf[..got] and advances the cursor. */
    method Read(buf: array<byte>, n: nat) returns (got: nat)
      requires n <= buf.Length
      modifies this`pos, buf
      ensures got == Available(image, old(pos), n)
      ensures pos == old(pos) + got
      ensures forall i :: 0 <= i < got ==> buf[i] == image.bytes[old(pos) + i]
      ensures forall i :: got <= i < buf.Length ==> buf[i] == old(buf[i])
    {
      got := Available(image, pos, n);
      var start := pos;
      forall i | 0 <= i < got {
        buf[i] := image.bytes[start + i];
      }
      pos := pos + got;
    }

    method Close()
      modifies this`isOpen
      ensures !isOpen
    {
      isOpen := false;
    }
  }
}
