/**
 * BitPacker: packs bits, lowest first, into pack words and emits each full
 * word to its output. Closing it (the C++ destructor) flushes the last partial
 * word and, when `finalize` is set, adds the end-of-stream finalizer.
 *
 * The output iterator is modelled as `out`, the sequence of words this packer
 * has emitted so far. `Stream` is the ghost physical bit stream: every bit
 * written plus the zero padding that explicit flushes add.
 */
module BitPacking {
  import opened Pow2Arith
  import opened BitSeq
  import opened PackWord
  import opened Bits
  import opened WireFormat

  class BitPacker {
    /** pack_: the word being filled. */
    var pack: Word
    /** i_: the position of the next bit in `pack`. */
    var i: nat
    /** num_bits_written_. */
    var numBitsWritten: nat
    /** The words emitted through the output iterator. */
    var out: seq<Word>
    /** finalize_. */
    const finalize: bool
    /** was_ever_flushed_. */
    var wasEverFlushed: bool

    /** The bits laid down so far, including zero padding from explicit flushes. */
    ghost var Stream: seq<bool>
    /** The bits passed to write, in order. */
    ghost var Written: seq<bool>

    /** The accumulator invariant, which also holds while a write has just filled the word. */
    ghost predicate Inv()
      reads this
    {
      && i <= W
      && pack < Pow2(i)
      && Stream == Unpacked(out) + BitsOf(pack, i)
      && (wasEverFlushed <==> |out| > 0)
      && numBitsWritten == |Written|
      && |Written| <= |Stream|
    }

    /** Between public calls the cursor is below W: every write that fills the word flushes it. */
    ghost predicate Valid()
      reads this
    {
      Inv() && i < W
    }

    constructor(finalize: bool)
      ensures Valid() && this.finalize == finalize
      ensures out == [] && Stream == [] && Written == [] && numBitsWritten == 0
    {
      this.finalize := finalize;
      numBitsWritten := 0;
      wasEverFlushed := false;
      out := [];
      Stream := [];
      Written := [];
      pack, i := 0, 0;
      new;
      Reset();
    }

    /** reset(): clears the accumulator and the cursor. */
    method Reset()
      modifies this
      ensures pack == 0 && i == 0
      ensures out == old(out) && numBitsWritten == old(numBitsWritten) && wasEverFlushed == old(wasEverFlushed)
      ensures Stream == old(Stream) && Written == old(Written)
    {
      pack := 0;
      i := 0;
    }

    /**
     * flush(): emits the current word if any bit position is taken, then
     * resets; the free positions go out as zeros. Nothing happens when the
     * cursor is 0.
     */
    method Flush()
      requires Inv()
      modifies this
      ensures Inv() && i == 0 && pack == 0
      ensures out == old(out) + (if old(i) > 0 then [old(pack)] else [])
      ensures Stream == old(Stream) + Zeros(if old(i) > 0 then W - old(i) else 0)
      ensures Written == old(Written) && numBitsWritten == old(numBitsWritten)
    {
      if i > 0 {
        wasEverFlushed := true;
        FlushedStream(out, pack, i);
        out := out + [pack];
        Stream := Stream + Zeros(W - i);
        Reset();
      } else {
        assert Zeros(0) == [];
      }
    }

    /** write(bit): sets bit i_ of the word when `bit` holds, counts it, and flushes a full word. */
    method WriteBit(bit: bool)
      requires Valid()
      modifies this
      ensures Valid()
      ensures Stream == old(Stream) + [bit] && Written == old(Written) + [bit]
      ensures numBitsWritten == old(numBitsWritten) + 1
      ensures |out| == |old(out)| + if old(i) == W - 1 then 1 else 0
    {
      PlaceBit(bit);
      numBitsWritten := numBitsWritten + 1;
      Written := Written + [bit];
      if i >= W {
        Flush();
        assert Zeros(0) == [];
      }
    }

    /** `pack_ |= set_bit(i_) & (-bit)` followed by advancing the cursor: the bit joins the stream. */
    method PlaceBit(bit: bool)
      requires Valid()
      modifies this
      ensures Inv() && i == old(i) + 1
      ensures Stream == old(Stream) + [bit]
      ensures out == old(out) && Written == old(Written) && numBitsWritten == old(numBitsWritten)
    {
      var mask := WrapSub(0, if bit then 1 else 0);
      WriteBitWord(pack, i, bit, mask);
      AppendAssoc(Unpacked(out), BitsOf(pack, i), [bit]);
      pack := BitOr(pack, BitAnd(SetBit(i), mask));
      Stream := Stream + [bit];
      i := i + 1;
    }

    /**
     * write(bits, num): appends the num low bits of `bits`, lowest first,
     * splitting them across word boundaries and flushing every word filled.
     */
    method Write(bits: Word, num: nat)
      requires Valid() && 0 < num <= W
      modifies this
      ensures Valid()
      ensures Stream == old(Stream) + BitsOf(bits, num)
      ensures Written == old(Written) + BitsOf(bits, num)
      ensures numBitsWritten == old(numBitsWritten) + num
    {
      var inNum := num;
      var b, n := bits, num;
      ghost var target := Stream + BitsOf(bits, num);
      while i + n > W
        invariant Valid() && 0 < n <= W
        invariant Stream + BitsOf(b, n) == target
        invariant Written == old(Written) && numBitsWritten == old(numBitsWritten)
        decreases n
      {
        b, n := FillWord(b, n);
      }
      PlaceRest(b, n);
      Written := Written + BitsOf(bits, num);
      numBitsWritten := numBitsWritten + inNum;
    }

    /**
     * One round of write's loop: the fit = W - i_ low bits of `bits` complete
     * the current word, which is flushed; the num - fit bits left over are
     * the high part of `bits`.
     */
    method FillWord(bits: Word, num: nat) returns (rest: Word, left: nat)
      requires Valid() && num <= W && i + num > W
      modifies this
      ensures Valid() && 0 < left < num
      ensures old(Stream) + BitsOf(bits, num) == Stream + BitsOf(rest, left)
      ensures Written == old(Written) && numBitsWritten == old(numBitsWritten)
    {
      ghost var before := Stream;
      var fit := W - i;
      left := num - fit;
      SplitStream(before, bits, fit, left, num);
      Place(bits, fit);
      Flush();
      assert Zeros(0) == [];
      rest := Shr(bits, fit);
    }

    /** The end of write: the remaining bits, if any, fit into the current word, which is flushed once full. */
    method PlaceRest(bits: Word, num: nat)
      requires Valid() && i + num <= W
      modifies this
      ensures Valid()
      ensures Stream == old(Stream) + BitsOf(bits, num)
      ensures Written == old(Written) && numBitsWritten == old(numBitsWritten)
    {
      if num > 0 {
        Place(bits, num);
        if i >= W {
          Flush();
          assert Zeros(0) == [];
        }
      } else {
        assert BitsOf(bits, 0) == [];
      }
    }

    /** `pack_ |= extract_low(bits, num) << i_` followed by advancing the cursor by num: the bits join the stream. */
    method Place(bits: Word, num: nat)
      requires Valid() && 0 < num && i + num <= W
      modifies this
      ensures Inv() && i == old(i) + num
      ensures Stream == old(Stream) + BitsOf(bits, num)
      ensures out == old(out) && Written == old(Written) && numBitsWritten == old(numBitsWritten)
    {
      AppendAssoc(Unpacked(out), BitsOf(pack, i), BitsOf(bits, num));
      pack := OrField(pack, i, bits, num);
      Stream := Stream + BitsOf(bits, num);
      i := i + num;
    }

    /**
     * The destructor, as an explicit close: when finalizing a non-empty
     * stream, add the finalizer, then flush. The emitted words are the
     * encoding of the stream; the finalizer is not counted as written.
     */
    method Close()
      requires Valid()
      modifies this
      ensures out == Encode(old(Stream), finalize)
      ensures numBitsWritten == old(numBitsWritten) && Written == old(Written)
    {
      CloseWords(out, pack, i, finalize);
      ghost var expected :=
        if finalize && (|out| > 0 || i > 0) then
          if i >= PAYLOAD_BITS then out + [pack, EncodeFinalizer(i)]
          else out + [BitOr(pack, EncodeFinalizer(i))]
        else out + (if i > 0 then [pack] else []);
      assert Encode(Stream, finalize) == expected;
      var nonEmpty := wasEverFlushed || i > 0;
      if finalize && nonEmpty {
        AddFinalizer();
      }
      Flush();
      assert out == expected;
    }

    /**
     * The finalizing part of the destructor: OR the finalizer for the cursor
     * into the current word, or into a fresh word when fewer than F positions
     * are free, and mark the word full so that the last flush emits it.
     */
    method AddFinalizer()
      requires Valid()
      modifies this
      ensures Inv() && i == W
      ensures old(i) >= PAYLOAD_BITS ==> out == old(out) + [old(pack)] && pack == EncodeFinalizer(old(i))
      ensures old(i) < PAYLOAD_BITS ==> out == old(out) && pack == BitOr(old(pack), EncodeFinalizer(old(i)))
      ensures numBitsWritten == old(numBitsWritten) && Written == old(Written)
    {
      var fin := EncodeFinalizer(i);
      if i >= PAYLOAD_BITS {
        SealAlone(fin);
      } else {
        Seal(fin);
      }
    }

    /** The finalizer in a word of its own: the current word is flushed first, then the finalizer is sealed into an empty word. */
    method SealAlone(fin: Word)
      requires Valid() && i > 0
      modifies this
      ensures Inv() && i == W
      ensures out == old(out) + [old(pack)] && pack == fin
      ensures numBitsWritten == old(numBitsWritten) && Written == old(Written)
    {
      Flush();
      BitOrZero(fin);
      Seal(fin);
    }

    /** `pack_ |= fin` and `i_ = PACK_WORD_BITS`: the finalizer joins the word, which counts as full. */
    method Seal(fin: Word)
      requires Valid()
      modifies this
      ensures Inv() && i == W
      ensures out == old(out) && pack == BitOr(old(pack), fin)
      ensures numBitsWritten == old(numBitsWritten) && Written == old(Written)
    {
      ghost var emitted := Unpacked(out);
      assert |Written| <= |emitted| + i;
      pack := BitOr(pack, fin);
      i := W;
      Pow2W();
      Stream := emitted + BitsOf(pack, W);
    }

    /** pack_pos(): the position of the next bit in the current word, i.e. the stream length modulo W. */
    function PackPos(): (r: nat)
      reads this
      requires Valid()
      ensures r < W && r == |Stream| % W
    {
      DivModUnique(|Stream|, W, |out|, i);
      i % W
    }

    /** num_bits_written(): every bit passed to write, without padding or finalizer. */
    function NumBitsWritten(): (r: nat)
      reads this
      requires Valid()
      ensures r == |Written| && r <= |Stream|
    {
      numBitsWritten
    }
  }

  /** Padding the current word with zeros and emitting it leaves the stream of the emitted words, and an empty word. */
  lemma FlushedStream(out: seq<Word>, pack: Word, i: nat)
    requires i <= W && pack < Pow2(i)
    ensures Unpacked(out) + BitsOf(pack, i) + Zeros(W - i) == Unpacked(out + [pack]) + BitsOf(0, 0)
  {
    UnpackedAppend(out, pack);
    BitsOfPadded(pack, i, W);
    AppendAssoc(Unpacked(out), BitsOf(pack, i), Zeros(W - i));
    assert BitsOf(0, 0) == [];
  }

  /** The num low bits of v, after a stream: its fit low bits, then the remaining high bits of v. */
  lemma SplitStream(before: seq<bool>, v: Word, fit: nat, left: nat, num: nat)
    requires num == fit + left
    ensures before + BitsOf(v, num) == (before + BitsOf(v, fit)) + BitsOf(ShiftDown(v, fit), left)
  {
    BitsOfSplit(v, fit, left);
    AppendAssoc(before, BitsOf(v, fit), BitsOf(ShiftDown(v, fit), left));
  }

  /** `set_bit(i) & -bit` is set_bit(i) for a true bit and 0 for a false one. */
  lemma MaskedBit(i: nat, bit: bool, mask: Word)
    requires i < W && mask == WrapSub(0, if bit then 1 else 0)
    ensures BitAnd(SetBit(i), mask) == if bit then Pow2(i) else 0
  {
    Pow2W();
    if bit {
      assert mask == Pow2(W) - 1;
      AndLowMask(SetBit(i), W);
      SmallMod(Pow2(i), Pow2(W));
    } else {
      assert mask == 0;
      AndBitsZero(SetBit(i), W);
    }
  }

  lemma SetBitShl(i: nat)
    requires i < W
    ensures Pow2(0) == 1 && Shl(1, i) == Pow2(i) && Shl(0, i) == 0
  {
    Pow2Le(1, W - i);
    ShlFits(1, i);
    ShiftUpMul(0, i);
  }

  /** The word after `write(bit)`: bit i set exactly when `bit` holds, the bit list extended by `bit`. */
  lemma WriteBitWord(pack: Word, i: nat, bit: bool, mask: Word)
    requires i < W && pack < Pow2(i) && mask == WrapSub(0, if bit then 1 else 0)
    ensures var x := BitOr(pack, BitAnd(SetBit(i), mask));
      && x == pack + (if bit then Pow2(i) else 0)
      && x < Pow2(i + 1)
      && BitsOf(x, i + 1) == BitsOf(pack, i) + [bit]
  {
    var b := if bit then 1 else 0;
    var placed := pack + (if bit then Pow2(i) else 0);
    assert Pow2(1) == 2 && b % Pow2(1) == b;
    assert (b % Pow2(1)) * Pow2(i) == (if bit then Pow2(i) else 0);
    assert BitOr(pack, BitAnd(SetBit(i), mask)) == placed by {
      MaskedBit(i, bit, mask);
      OrShifted(pack, i, b, 1);
      SetBitShl(i);
    }
    PlaceField(pack, i, b, 1, placed);
    assert BitsOf(b, 1) == [bit];
  }

  /** What Close emits, spelled out case by case, is the encoding of the packer's stream. */
  lemma CloseWords(out: seq<Word>, pack: Word, i: nat, finalize: bool)
    requires i < W && pack < Pow2(i)
    ensures FINALIZER_LSH < W
    ensures Encode(Unpacked(out) + BitsOf(pack, i), finalize) ==
      if finalize && (|out| > 0 || i > 0) then
        if i >= PAYLOAD_BITS then out + [pack, EncodeFinalizer(i)]
        else out + [BitOr(pack, EncodeFinalizer(i))]
      else out + (if i > 0 then [pack] else [])
  {
    var rest := BitsOf(pack, i);
    EncodeSplit(out, rest, finalize);
    ValueOfBitsOf(pack, i);
    SmallMod(pack, Pow2(i));
  }

  // ----- using a packer -----

  /** One call of write(bits, num): the num low bits of `bits`. */
  datatype Field = Field(bits: Word, num: nat)

  /** Every field is a legal write(bits, num): 0 < num <= W. */
  predicate WellFormed(fs: seq<Field>)
  {
    forall k :: 0 <= k < |fs| ==> 0 < fs[k].num <= W
  }

  /** The bit stream a sequence of writes produces. */
  function FieldsBits(fs: seq<Field>): (bs: seq<bool>)
  {
    if |fs| == 0 then [] else FieldsBits(fs[..|fs| - 1]) + BitsOf(fs[|fs| - 1].bits, fs[|fs| - 1].num)
  }

  /** The bits of the first m fields begin the bits of all of them. */
  lemma {:induction false} FieldsBitsPrefix(fs: seq<Field>, m: nat)
    requires m <= |fs|
    ensures |FieldsBits(fs[..m])| <= |FieldsBits(fs)|
    ensures FieldsBits(fs)[..|FieldsBits(fs[..m])|] == FieldsBits(fs[..m])
    decreases |fs|
  {
    if m == |fs| {
      assert fs[..m] == fs;
    } else {
      var init := fs[..|fs| - 1];
      assert init[..m] == fs[..m];
      FieldsBitsPrefix(init, m);
    }
  }

  /** Field k's bits sit in the stream right after the bits of the fields before it. */
  lemma FieldAt(fs: seq<Field>, k: nat)
    requires k < |fs|
    ensures |FieldsBits(fs[..k])| + fs[k].num <= |FieldsBits(fs)|
    ensures FieldsBits(fs[..k + 1]) == FieldsBits(fs[..k]) + BitsOf(fs[k].bits, fs[k].num)
    ensures FieldsBits(fs)[|FieldsBits(fs[..k])|..|FieldsBits(fs[..k])| + fs[k].num] == BitsOf(fs[k].bits, fs[k].num)
  {
    assert fs[..k + 1][..k] == fs[..k];
    FieldsBitsPrefix(fs, k + 1);
    var before, here := FieldsBits(fs[..k]), BitsOf(fs[k].bits, fs[k].num);
    assert FieldsBits(fs)[|before|..|before| + |here|] == (before + here)[|before|..];
  }

  /** Writes every field through a fresh packer and closes it: the words are the encoding of the fields' bits. */
  method PackFields(fs: seq<Field>, finalize: bool) returns (ws: seq<Word>, written: nat)
    requires WellFormed(fs)
    ensures ws == Encode(FieldsBits(fs), finalize)
    ensures written == |FieldsBits(fs)|
  {
    var packer := new BitPacker(finalize);
    var k := 0;
    while k < |fs|
      invariant 0 <= k <= |fs|
      invariant packer.Valid() && packer.finalize == finalize
      invariant packer.Stream == packer.Written == FieldsBits(fs[..k])
      invariant fresh(packer)
    {
      packer.Write(fs[k].bits, fs[k].num);
      assert fs[..k + 1][..k] == fs[..k];
      k := k + 1;
    }
    assert fs[..|fs|] == fs;
    written := packer.NumBitsWritten();
    packer.Close();
    ws := packer.out;
  }

  /** A word's bits, one word long, pack into that word. */
  lemma ChunksOfWord(w: Word)
    ensures Chunks(BitsOf(w, W)) == [w]
  {
    ChunksUnpacked([w]);
    assert Unpacked([w]) == BitsOf(w, W);
  }

  /** When the cursor is at a word boundary, everything written has been emitted. */
  lemma EmittedAll(p: BitPacker)
    requires p.Valid() && p.i == 0
    ensures p.out == Chunks(p.Stream)
  {
    assert p.Stream == Unpacked(p.out);
    ChunksUnpacked(p.out);
  }

  /** write(bit) then flush emits one word holding just that bit. */
  method PackSingleBit(bit: bool) returns (ws: seq<Word>, written: nat)
    ensures ws == [if bit then 1 else 0] && written == 1
  {
    var packer := new BitPacker(true);
    packer.WriteBit(bit);
    ghost var pad := W - packer.i;
    packer.Flush();
    EmittedAll(packer);
    var w := if bit then 1 else 0;
    BitThenZeros(bit, pad);
    ChunksOfWord(w);
    ws := packer.out;
    written := packer.NumBitsWritten();
  }

  /**
   * Writing a whole word from the start emits it at once; one more bit and a
   * flush emit a second word holding just that bit (the test uses all ones
   * and a set bit: PACK_WORD_MAX, then 1).
   */
  method PackFullWordAndBit(w: Word, bit: bool) returns (first: seq<Word>, firstWritten: nat, ws: seq<Word>, written: nat)
    ensures first == [w] && firstWritten == W
    ensures ws == [w, if bit then 1 else 0] && written == W + 1
  {
    var packer := new BitPacker(true);
    packer.Write(w, W);
    ghost var full := packer.Stream;
    EmittedAll(packer);
    ChunksOfWord(w);
    first := packer.out;
    firstWritten := packer.NumBitsWritten();
    packer.WriteBit(bit);
    ghost var pad := W - packer.i;
    packer.Flush();
    EmittedAll(packer);
    var b := if bit then 1 else 0;
    BitThenZeros(bit, pad);
    AppendAssoc(full, [bit], Zeros(pad));
    ChunksAppend(full, BitsOf(b, W));
    ChunksOfWord(b);
    ws := packer.out;
    written := packer.NumBitsWritten();
  }

  /** pack_pos after writing 12, then 5, then W bits of any words: 12, 17, and 17 again, with W + 17 bits written. */
  method PackPositions(x: Word, y: Word, z: Word) returns (p0: nat, p1: nat, p2: nat, p3: nat, written: nat)
    ensures p0 == 0 && p1 == 12 && p2 == 17 && p3 == 17 && written == W + 17
  {
    var packer := new BitPacker(true);
    p0 := packer.PackPos();
    packer.Write(x, 12);
    SmallMod(12, W);
    p1 := packer.PackPos();
    packer.Write(y, 5);
    SmallMod(17, W);
    p2 := packer.PackPos();
    packer.Write(z, W);
    DivModUnique(W + 17, W, 1, 17);
    p3 := packer.PackPos();
    written := packer.NumBitsWritten();
  }
}
