/**
 * CharPacker: an input iterator over pack words that reads eight characters
 * per word from a character range, the first character read becoming the
 * most significant byte. The range is modelled as the byte list `input`
 * with the position `pos` of the source iterator in it.
 */
module CharPacking {
  import opened PackWord
  import opened ByteOrder

  class CharPacker {
    /** The characters between the source iterator and the end iterator at construction. */
    const input: seq<Byte>
    /** The source iterator, as a position in `input`; the end iterator is |input|. */
    var pos: nat
    /** The bytes of the current word, most significant first. */
    var current: seq<Byte>
    var reachedEnd: bool
    /** The number of whole words in `input`. */
    ghost const words: nat
    /** The number of words consumed from `input`. */
    ghost var consumed: nat

    /** Whole words remain after the source position, and the current word has eight bytes. */
    ghost predicate Aligned()
      reads this
    {
      && |input| == 8 * words && pos == 8 * consumed && consumed <= words
      && |current| == 8
    }

    /**
     * Unless ended, the current word holds the eight characters just
     * consumed; the end state is entered only at the end of the range.
     */
    ghost predicate Valid()
      reads this
    {
      && Aligned()
      && (!reachedEnd ==> 8 <= pos && current == input[pos - 8..pos])
      && (reachedEnd ==> pos == |input|)
    }

    /** A packer over a range of whole words, which reads the first word at once. */
    constructor(input: seq<Byte>)
      requires |input| % 8 == 0
      ensures Valid() && this.input == input
      ensures reachedEnd <==> |input| == 0
      ensures !reachedEnd ==> pos == 8
    {
      this.input := input;
      words := |input| / 8;
      pos := 0;
      consumed := 0;
      current := BytesBE(0, 8);
      reachedEnd := false;
      new;
      Advance();
    }

    /** The default packer, which serves as the end iterator: it is ended from the start. */
    constructor Ended()
      ensures Valid() && reachedEnd && input == [] && pos == 0
    {
      input := [];
      words := 0;
      pos := 0;
      consumed := 0;
      current := BytesBE(0, 8);
      reachedEnd := true;
    }

    /**
     * advance(), also operator++: at the end of the range the packer enters
     * the end state and consumes nothing; otherwise it consumes eight
     * characters, the k-th read becoming byte k from the most significant.
     */
    method Advance()
      requires Aligned()
      modifies this
      ensures Valid()
      ensures reachedEnd <==> old(pos) == |input|
      ensures reachedEnd ==> pos == old(pos) && current == old(current)
      ensures !reachedEnd ==> pos == old(pos) + 8 && current == input[old(pos)..pos]
    {
      reachedEnd := pos == |input|;
      if !reachedEnd {
        consumed := consumed + 1;
        var k := 0;
        while k < 8
          invariant 0 <= k <= 8 && pos == old(pos) + k && old(pos) + 8 <= |input|
          invariant consumed == old(consumed) + 1
          invariant !reachedEnd && |current| == 8
          invariant forall m :: 0 <= m < k ==> current[m] == input[old(pos) + m]
        {
          current := current[k := input[pos]];
          pos := pos + 1;
          k := k + 1;
        }
      }
    }

    /** operator*: the current word, whose bytes, most significant first, are the eight characters last consumed. */
    function Word(): (w: Word)
      reads this
      requires Valid()
      ensures !reachedEnd ==> WordBytes(w) == input[pos - 8..pos]
    {
      BytesOfWord(current);
      WordOf(current)
    }

    /**
     * operator==: two ended packers are equal, and so are two packers at the
     * same source position. Against the default packer, equality is exactly
     * the end state.
     */
    function Equals(other: CharPacker): (r: bool)
      reads this, other
      ensures reachedEnd && other.reachedEnd ==> r
      ensures input == other.input && pos == other.pos ==> r
      ensures Valid() && other.reachedEnd && other.input == [] && other.pos == 0 ==> (r <==> reachedEnd)
    {
      (reachedEnd && other.reachedEnd) || (input == other.input && pos == other.pos)
    }
  }

  /**
   * One round of the copy loop: the current word is copied out and the
   * packer advances.
   */
  method CopyStep(p: CharPacker, bs: seq<Byte>, ws: seq<Word>) returns (ws': seq<Word>)
    requires p.Valid() && p.input == bs && !p.reachedEnd
    requires ws == WordsOfBytes(bs[..p.pos - 8])
    modifies p
    ensures p.Valid() && p.input == bs
    ensures ws' == WordsOfBytes(bs[..p.pos - (if p.reachedEnd then 0 else 8)])
    ensures old(p.pos) < p.pos || (p.reachedEnd && p.pos == old(p.pos))
  {
    PrefixWordsStep(bs, p.consumed);
    ws' := ws + [p.Word()];
    p.Advance();
  }

  /**
   * Copying from a packer over the characters up to the default packer:
   * the words of the characters, eight per word, most significant first.
   */
  method PackChars(bs: seq<Byte>) returns (ws: seq<Word>)
    requires |bs| % 8 == 0
    ensures ws == WordsOfBytes(bs)
  {
    var p := new CharPacker(bs);
    var end := new CharPacker.Ended();
    ws := [];
    while !p.Equals(end)
      invariant p.Valid() && p.input == bs
      invariant end.reachedEnd && end.input == [] && end.pos == 0
      invariant ws == WordsOfBytes(bs[..p.pos - (if p.reachedEnd then 0 else 8)])
      decreases |bs| - p.pos, !p.reachedEnd
    {
      ws := CopyStep(p, bs, ws);
    }
    assert bs[..p.pos] == bs;
  }
}
