/**
 * OverlappingBlocks: reads a character stream block by block into one
 * buffer whose first `overlap` cells keep the last characters of the
 * previous block, reachable by negative indexes. The stream is a character
 * list with a read position; read/gcount become "take up to n and count
 * them", get becomes "the next character or the end-of-file token".
 */
module Blocks {

  function Min(a: nat, b: nat): (m: nat)
    ensures m <= a && m <= b && (m == a || m == b)
  {
    if a <= b then a else b
  }

  /** A probed character, or the end-of-file token. */
  datatype Probe = Eof | Char(c: char)

  /** An input stream over `data`, positioned at `pos`. */
  class CharStream {
    const data: seq<char>
    var pos: nat

    ghost predicate Valid()
      reads this
    {
      pos <= |data|
    }

    constructor(data: seq<char>)
      ensures Valid() && this.data == data && pos == 0
    {
      this.data := data;
      pos := 0;
    }

    /** read(buf + at, n) followed by gcount(): copies up to n characters into buf from cell `at` and reports how many. */
    method Read(buf: array<char>, at: nat, n: nat) returns (count: nat)
      requires Valid() && at + n <= buf.Length
      modifies this, buf
      ensures Valid() && count == Min(n, |data| - old(pos)) && pos == old(pos) + count
      ensures forall q :: 0 <= q < buf.Length ==> buf[q] == if at <= q < at + count then data[old(pos) + q - at] else old(buf[q])
    {
      count := 0;
      while count < n && pos < |data|
        invariant count <= n && pos == old(pos) + count && pos <= |data|
        invariant forall q :: 0 <= q < buf.Length ==> buf[q] == if at <= q < at + count then data[old(pos) + q - at] else old(buf[q])
      {
        buf[at + count] := data[pos];
        pos := pos + 1;
        count := count + 1;
      }
    }

    /** get(): the next character, consumed, or the end-of-file token at the end. */
    method Get() returns (p: Probe)
      requires Valid()
      modifies this
      ensures Valid()
      ensures old(pos) < |data| ==> p == Char(data[old(pos)]) && pos == old(pos) + 1
      ensures old(pos) == |data| ==> p == Eof && pos == old(pos)
    {
      if pos < |data| {
        p := Char(data[pos]);
        pos := pos + 1;
      } else {
        p := Eof;
      }
    }
  }

  class OverlappingBlocks {
    const blockSize: nat
    const overlap: nat
    /** The overlap region, cells 0..overlap-1, then the current block from cell `overlap` (cur_begin_). */
    const buffer: array<char>
    var probe: Probe
    var curSize: nat
    var curOffs: nat
    var stream: CharStream?
    /** Where the stream stood when init was called; offsets count from there. */
    ghost var origin: nat

    ghost predicate Shape()
      reads this
    {
      buffer.Length == overlap + blockSize && 0 < blockSize
    }

    /** The character at offset g from the start, or the zero that fills the overlap before the first block. */
    ghost function Global(g: int): char
      reads this
      requires stream != null && origin + g < |stream.data|
    {
      if g < 0 then '\0' else stream.data[origin + g]
    }

    /**
     * The block is the next `curSize` characters after `curOffs` and, unless
     * the probe hit the end, a full block followed by the probed character;
     * every cell of the buffer, overlap included, holds the character at its
     * offset relative to the block.
     */
    ghost predicate Valid()
      reads this, buffer, stream
    {
      && Shape() && stream != null && stream.Valid() && origin <= stream.pos
      && curSize <= blockSize
      && origin + curOffs + curSize + (if probe.Char? then 1 else 0) == stream.pos
      && (probe.Char? ==> probe.c == stream.data[stream.pos - 1] && curSize == blockSize)
      && (probe.Eof? ==> stream.pos == |stream.data|)
      && (origin + curOffs < |stream.data| || curOffs == 0)
      && forall q :: 0 <= q < overlap + curSize ==> buffer[q] == Global(curOffs - overlap + q)
    }

    /** The characters from where init found the stream. */
    ghost function Data(): seq<char>
      reads this
      requires stream != null && origin <= |stream.data|
    {
      stream.data[origin..]
    }

    /** A processor without a stream; the buffer starts zeroed. */
    constructor(blockSize: nat, overlap: nat)
      requires 0 < blockSize
      ensures Shape() && this.blockSize == blockSize && this.overlap == overlap && stream == null
      ensures fresh(buffer) && curSize == 0 && curOffs == 0 && probe == Eof
    {
      this.blockSize := blockSize;
      this.overlap := overlap;
      buffer := new char[overlap + blockSize](_ => '\0');
      probe := Eof;
      curSize := 0;
      curOffs := 0;
      stream := null;
    }

    /** A processor initialised with `stream`, which loads the first block at once. */
    constructor WithStream(stream: CharStream, blockSize: nat, overlap: nat)
      requires 0 < blockSize && stream.Valid()
      modifies stream
      ensures Valid() && this.stream == stream && this.blockSize == blockSize && this.overlap == overlap
      ensures origin == old(stream.pos) && curOffs == 0 && curSize == Min(blockSize, |Data()|)
      ensures fresh(buffer)
    {
      this.blockSize := blockSize;
      this.overlap := overlap;
      buffer := new char[overlap + blockSize](_ => '\0');
      probe := Eof;
      curSize := 0;
      curOffs := 0;
      this.stream := null;
      new;
      Init(stream);
    }

    /** init(stream): zeroes the overlap region and loads the first block from where the stream stands. */
    method Init(s: CharStream)
      requires Shape() && s.Valid()
      modifies this, buffer, s
      ensures Valid() && stream == s && origin == old(s.pos)
      ensures curOffs == 0 && curSize == Min(blockSize, |Data()|)
    {
      stream := s;
      origin := s.pos;
      for i := 0 to overlap
        invariant stream == s && origin == old(s.pos) && s.pos == origin && s.Valid()
        invariant forall q :: 0 <= q < i ==> buffer[q] == '\0'
      {
        buffer[i] := '\0';
      }
      curOffs := 0;
      ReadNext();
    }

    /**
     * read_next(): the first block takes up to blockSize characters; a later
     * block starts with the probed character and takes up to blockSize - 1
     * more; then one more character is probed.
     */
    method ReadNext()
      requires Shape() && stream != null && stream.Valid() && origin <= stream.pos
      requires curOffs == 0 ==> stream.pos == origin
      requires curOffs > 0 ==> probe.Char? && stream.pos == origin + curOffs + 1 && probe.c == stream.data[stream.pos - 1]
      requires forall q :: 0 <= q < overlap ==> buffer[q] == Global(curOffs - overlap + q)
      modifies this, buffer, stream
      ensures Valid() && stream == old(stream) && origin == old(origin) && curOffs == old(curOffs)
      ensures curSize == Min(blockSize, |Data()| - curOffs)
    {
      ghost var start := origin + curOffs;
      if First() {
        curSize := stream.Read(buffer, overlap, blockSize);
      } else {
        buffer[overlap] := probe.c;
        var n := stream.Read(buffer, overlap + 1, blockSize - 1);
        curSize := n + 1;
      }
      probe := stream.Get();
    }

    /**
     * advance(): nothing when the current block is the last; otherwise the
     * last `overlap` characters slide to the front of the buffer, the offset
     * moves past the current block and the next, non-empty, block is loaded.
     */
    method Advance() returns (loaded: bool)
      requires Valid()
      modifies this, buffer, stream
      ensures Valid() && stream == old(stream) && origin == old(origin)
      ensures old(probe).Eof? ==> !loaded && curOffs == old(curOffs) && curSize == old(curSize) && probe == old(probe)
      ensures old(probe).Eof? ==> unchanged(buffer) && unchanged(stream)
      ensures old(probe).Char? ==> loaded && curOffs == old(curOffs) + old(curSize) && 0 < curSize
      ensures curSize == Min(blockSize, |Data()| - curOffs)
    {
      if Last() {
        return false;
      }
      Slide();
      curOffs := curOffs + curSize;
      ReadNext();
      loaded := curSize > 0;
    }

    /** The loop of advance(): the last `overlap` cells before the end of the block move to the front, in ascending order. */
    method Slide()
      requires Shape() && curSize <= blockSize
      modifies buffer
      ensures forall q :: 0 <= q < overlap ==> buffer[q] == old(buffer[curSize + q])
      ensures forall q :: overlap <= q < buffer.Length ==> buffer[q] == old(buffer[q])
    {
      var i := 0;
      while i < overlap
        invariant i <= overlap
        invariant forall q :: 0 <= q < i ==> buffer[q] == old(buffer[curSize + q])
        invariant forall q :: i <= q < buffer.Length ==> buffer[q] == old(buffer[q])
      {
        var src: int := curSize - overlap + i;
        buffer[i] := buffer[overlap + src];
        i := i + 1;
      }
    }

    /** operator[](i): the character i cells into the block; negative i reach into the previous block, or the zeros before the first. */
    function At(i: int): (r: char)
      reads this, buffer, stream
      requires Valid() && -(overlap as int) <= i < blockSize
      ensures i < curSize ==> r == Global(curOffs + i)
      ensures i < 0 && curOffs < -i ==> r == '\0'
      ensures i < 0 && -i <= curOffs ==> r == Data()[curOffs + i]
    {
      buffer[overlap + i]
    }

    /** begin()..end(): the current block, the next `size` characters of the stream after `offset`. */
    function Block(): (b: seq<char>)
      reads this, buffer, stream
      requires Valid()
      ensures b == Data()[curOffs..curOffs + curSize]
    {
      BlockIsData();
      buffer[overlap..overlap + curSize]
    }

    lemma BlockIsData()
      requires Valid()
      ensures buffer[overlap..overlap + curSize] == Data()[curOffs..curOffs + curSize]
    {
      forall j | overlap <= j < overlap + curSize
        ensures buffer[j] == Data()[curOffs - overlap + j]
      {
        assert buffer[j] == Global(curOffs - overlap + j);
      }
    }

    /** size(): at most blockSize, and less only for the block that reaches the end. */
    function Size(): (r: nat)
      reads this, buffer, stream
      ensures Valid() ==> r == Min(blockSize, |Data()| - curOffs)
    {
      curSize
    }

    /** offset(): where the current block starts in the stream. */
    function Offset(): (r: nat)
      reads this, buffer, stream
      ensures Valid() ==> r + Size() <= |Data()| && (r < |Data()| || r == 0)
    {
      curOffs
    }

    /** empty(): only an empty stream has an empty block. */
    function Empty(): (r: bool)
      reads this, buffer, stream
      ensures Valid() ==> (r <==> |Data()| == 0)
    {
      curSize == 0
    }

    /** first(): the block at offset 0, whose overlap region holds only zeros. */
    function First(): (r: bool)
      reads this, buffer, stream
      ensures Valid() && r ==> forall i :: -(overlap as int) <= i < 0 ==> At(i) == '\0'
    {
      curOffs == 0
    }

    /** last(): the probe after the block hit the end, which is exactly when the block reaches the end of the stream. */
    function Last(): (r: bool)
      reads this, buffer, stream
      ensures Valid() ==> (r <==> Offset() + Size() == |Data()|)
    {
      probe == Eof
    }
  }

  /** The characters of the blocks, one after the other. */
  function Concat(blocks: seq<seq<char>>): seq<char>
  {
    if |blocks| == 0 then [] else Concat(blocks[..|blocks| - 1]) + blocks[|blocks| - 1]
  }

  lemma ConcatSnoc(blocks: seq<seq<char>>, b: seq<char>)
    ensures Concat(blocks + [b]) == Concat(blocks) + b
  {
    assert (blocks + [b])[..|blocks|] == blocks;
  }

  /**
   * Processing a whole stream block by block, advancing until advance()
   * reports no more: the blocks together are the stream, none is longer than
   * blockSize, and none is empty unless the stream is.
   */
  method AllBlocks(s: seq<char>, blockSize: nat, overlap: nat) returns (blocks: seq<seq<char>>)
    requires 0 < blockSize
    ensures Concat(blocks) == s
    ensures forall k :: 0 <= k < |blocks| ==> |blocks[k]| <= blockSize && (|s| > 0 ==> |blocks[k]| > 0)
  {
    var st := new CharStream(s);
    var ob := new OverlappingBlocks.WithStream(st, blockSize, overlap);
    blocks := [];
    var more := true;
    while more
      invariant ob.Valid() && ob.stream == st && ob.origin == 0 && ob.blockSize == blockSize
      invariant Concat(blocks) == s[..ob.curOffs + if more then 0 else ob.curSize]
      invariant !more ==> ob.probe.Eof?
      invariant forall k :: 0 <= k < |blocks| ==> |blocks[k]| <= blockSize && (|s| > 0 ==> |blocks[k]| > 0)
      decreases |s| - ob.curOffs, more
    {
      var b;
      b, more := TakeBlock(ob, s, blocks);
      blocks := blocks + [b];
    }
  }

  /** One round of the processing loop: the current block is taken, then the processor advances. */
  method TakeBlock(ob: OverlappingBlocks, s: seq<char>, blocks: seq<seq<char>>) returns (b: seq<char>, more: bool)
    requires ob.Valid() && ob.origin == 0 && ob.stream.data == s
    requires Concat(blocks) == s[..ob.curOffs]
    modifies ob, ob.buffer, ob.stream
    ensures ob.Valid() && ob.stream == old(ob.stream) && ob.origin == 0
    ensures Concat(blocks + [b]) == s[..ob.curOffs + if more then 0 else ob.curSize]
    ensures |b| <= ob.blockSize && (|s| > 0 ==> |b| > 0)
    ensures !more ==> ob.probe.Eof? && ob.curOffs == old(ob.curOffs)
    ensures more ==> old(ob.curOffs) < ob.curOffs <= |s|
  {
    b := ob.Block();
    assert ob.Data() == s;
    ConcatSnoc(blocks, b);
    assert s[..ob.curOffs] + s[ob.curOffs..ob.curOffs + ob.curSize] == s[..ob.curOffs + ob.curSize];
    more := ob.Advance();
  }
}
