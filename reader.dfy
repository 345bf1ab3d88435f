/** The reader that streams the payload to Lua's loader: a State holding the open file,
    the count of payload bytes still to deliver and a 512-byte buffer, and myget, which
    the loader calls for each next block. */
module Reader {
  import opened CTypes
  import opened Stdio

  /** sizeof(s->buff). */
  const BUFFSIZE: nat := 512

  /** What myget returns: NULL, or s->buff with *size set to n. */
  datatype Reply = Null | Block(n: nat)

  function Min(a: int, b: int): int
  {
    if a <= b then a else b
  }

  function Flatten(cs: seq<seq<byte>>): seq<byte>
  {
    if cs == [] then [] else cs[0] + Flatten(cs[1..])
  }

  lemma {:induction false} FlattenAppend(cs: seq<seq<byte>>, c: seq<byte>)
    ensures Flatten(cs + [c]) == Flatten(cs) + c
  {
    if cs != [] {
      assert (cs + [c])[1..] == cs[1..] + [c];
      FlattenAppend(cs[1..], c);
    }
  }

  /** The payload bytes a stream of `size` bytes starting at `pos` can deliver: the next
      `size` bytes of the file, cut short where reading stops; nothing when size <= 0. */
  function Payload(img: Image, pos: nat, size: int): seq<byte>
  {
    var k := if size <= 0 then 0 else Available(img, pos, size);
    if k == 0 then [] else img.bytes[pos..pos + k]
  }

  /** The blocks successive myget calls deliver to the loader, until it returns NULL
      (nothing left to deliver) or an empty block (reading stopped). */
  function Chunks(img: Image, pos: nat, size: int): seq<seq<byte>>
    decreases if size <= 0 then 0 else size
  {
    if size <= 0 then []
    else
      var n := Available(img, pos, Min(BUFFSIZE, size));
      if n == 0 then [] else [img.bytes[pos..pos + n]] + Chunks(img, pos + n, size - n)
  }

  /** Taking one block of n bytes off the front leaves the payload of the rest. */
  lemma PayloadSplit(img: Image, pos: nat, size: int, n: nat)
    requires size > 0 && n > 0 && n == Available(img, pos, Min(BUFFSIZE, size))
    ensures pos + n <= |img.bytes|
    ensures Payload(img, pos, size) == img.bytes[pos..pos + n] + Payload(img, pos + n, size - n)
  {
    StopStable(img, pos, pos + n);
    var whole := Payload(img, pos, size);
    var rest := Payload(img, pos + n, size - n);
    assert |whole| == n + |rest|;
    assert whole == img.bytes[pos..pos + |whole|];
    if rest != [] {
      assert rest == img.bytes[pos + n..pos + n + |rest|];
    }
  }

  /** The blocks together are exactly the payload. */
  lemma {:induction false} ChunksArePayload(img: Image, pos: nat, size: int)
    ensures Flatten(Chunks(img, pos, size)) == Payload(img, pos, size)
    decreases if size <= 0 then 0 else size
  {
    if size > 0 {
      var n := Available(img, pos, Min(BUFFSIZE, size));
      if n > 0 {
        var cs := Chunks(img, pos, size);
        assert cs[0] == img.bytes[pos..pos + n];
        assert cs[1..] == Chunks(img, pos + n, size - n);
        ChunksArePayload(img, pos + n, size - n);
        PayloadSplit(img, pos, size, n);
      }
    }
  }

  /** No block is empty or larger than the buffer, and every block but the last fills it. */
  predicate WellSized(cs: seq<seq<byte>>)
  {
    (forall i :: 0 <= i < |cs| ==> 0 < |cs[i]| <= BUFFSIZE) &&
    (forall i :: 0 <= i < |cs| - 1 ==> |cs[i]| == BUFFSIZE)
  }

  lemma {:induction false} ChunkSizes(img: Image, pos: nat, size: int)
    ensures WellSized(Chunks(img, pos, size))
    decreases if size <= 0 then 0 else size
  {
    var cs := Chunks(img, pos, size);
    if size > 0 {
      var n := Available(img, pos, Min(BUFFSIZE, size));
      if n > 0 {
        var rest := Chunks(img, pos + n, size - n);
        assert cs == [img.bytes[pos..pos + n]] + rest;
        ChunkSizes(img, pos + n, size - n);
        if n < BUFFSIZE {
          StopStable(img, pos, pos + n);
          assert size - n <= 0 || Available(img, pos + n, Min(BUFFSIZE, size - n)) == 0;
          assert rest == [];
        }
        forall i | 0 <= i < |cs|
          ensures 0 < |cs[i]| <= BUFFSIZE
          ensures i < |cs| - 1 ==> |cs[i]| == BUFFSIZE
        {
          if i > 0 {
            assert cs[i] == rest[i - 1];
          } else {
            assert |cs[0]| == n;
          }
        }
      }
    }
  }

  /** For a payload of two full buffers and 7 bytes, the blocks are 512, 512 and 7 bytes long. */
  lemma TwoBuffersAndSeven(img: Image, pos: nat)
    requires Readable(img, pos, pos + 2 * BUFFSIZE + 7)
    ensures var cs := Chunks(img, pos, 2 * BUFFSIZE + 7);
      |cs| == 3 && |cs[0]| == BUFFSIZE && |cs[1]| == BUFFSIZE && |cs[2]| == 7
  {
    var end := pos + 2 * BUFFSIZE + 7;
    StopPastReadable(img, pos, end);
    StopStable(img, pos, pos + BUFFSIZE);
    StopStable(img, pos, pos + 2 * BUFFSIZE);
    var last := Chunks(img, pos + 2 * BUFFSIZE, 7);
    assert Chunks(img, pos + 2 * BUFFSIZE + 7, 0) == [];
    assert last == [img.bytes[pos + 2 * BUFFSIZE..pos + 2 * BUFFSIZE + 7]];
    var second := Chunks(img, pos + BUFFSIZE, BUFFSIZE + 7);
    assert second == [img.bytes[pos + BUFFSIZE..pos + 2 * BUFFSIZE]] + last;
    var first := Chunks(img, pos, 2 * BUFFSIZE + 7);
    assert first == [img.bytes[pos..pos + BUFFSIZE]] + second;
  }

  class State {
    const f: File
    var size: int
    const buff: array<byte>

    constructor (f: File, size: int)
      ensures this.f == f && this.size == size
      ensures fresh(buff) && buff.Length == BUFFSIZE
    {
      this.f := f;
      this.size := size;
      buff := new byte[BUFFSIZE];
    }

    /** One call of the reader: NULL once nothing is left, without reading; otherwise a block
        of at most min(512, size) bytes, by which `size` and the cursor move on. */
    method MyGet() returns (r: Reply)
      requires buff.Length == BUFFSIZE
      modifies this`size, f`pos, buff
      ensures old(size) <= 0 ==> r == Null && size == old(size) && f.pos == old(f.pos) && unchanged(buff)
      ensures old(size) > 0 ==> r == Block(Available(f.image, old(f.pos), Min(BUFFSIZE, old(size))))
      ensures r.Block? ==> r.n <= BUFFSIZE && r.n <= old(size) && 0 <= size == old(size) - r.n
      ensures r.Block? ==> f.pos == old(f.pos) + r.n
      ensures r.Block? ==> forall i :: 0 <= i < r.n ==> buff[i] == f.image.bytes[old(f.pos) + i]
      ensures r.Block? ==> forall i :: r.n <= i < BUFFSIZE ==> buff[i] == old(buff[i])
      ensures r == Null || r.n == 0 ==> Chunks(f.image, old(f.pos), old(size)) == []
      ensures r.Block? && r.n > 0 ==>
        Chunks(f.image, old(f.pos), old(size)) == [buff[..r.n]] + Chunks(f.image, f.pos, size)
    {
      if size <= 0 {
        return Null;
      }
      ghost var start := f.pos;
      // size > 0 here, so converting it to size_t for the comparison keeps its value
      var n: nat := if BUFFSIZE <= size then BUFFSIZE else size;
      n := f.Read(buff, n);
      // the source's `n == -1` test compares the size_t n with SIZE_MAX, which fread never returns
      assert n != SIZE_MAX;
      size := size - n;
      r := Block(n);
      if n > 0 {
        assert buff[..n] == f.image.bytes[start..start + n];
      }
    }
  }

  lemma AppendBlock(done: seq<seq<byte>>, block: seq<byte>, rest: seq<seq<byte>>)
    ensures done + ([block] + rest) == (done + [block]) + rest
    ensures Flatten(done + [block]) == Flatten(done) + block
  {
    FlattenAppend(done, block);
  }

  /** Lua's loader pulling the payload: it calls myget until NULL or an empty block and
      takes in every block delivered before that. */
  method Pull(s: State) returns (text: seq<byte>, ghost chunks: seq<seq<byte>>)
    requires s.buff.Length == BUFFSIZE
    modifies s`size, s.f`pos, s.buff
    ensures chunks == Chunks(s.f.image, old(s.f.pos), old(s.size))
    ensures text == Flatten(chunks) == Payload(s.f.image, old(s.f.pos), old(s.size))
  {
    ghost var img, start, total := s.f.image, s.f.pos, s.size;
    ghost var rest := Chunks(img, start, total);
    text, chunks := [], [];
    var done := false;
    while !done
      invariant Chunks(img, start, total) == chunks + rest
      invariant text == Flatten(chunks)
      invariant !done ==> rest == Chunks(img, s.f.pos, s.size)
      invariant done ==> rest == []
      decreases if done then 0 else 1, if s.size < 0 then 0 else s.size
    {
      var r := s.MyGet();
      if r == Null || r.n == 0 {
        done := true;
      } else {
        var block := s.buff[..r.n];
        AppendBlock(chunks, block, Chunks(img, s.f.pos, s.size));
        text, chunks, rest := text + block, chunks + [block], Chunks(img, s.f.pos, s.size);
      }
    }
    ChunksArePayload(img, start, total);
  }
}
