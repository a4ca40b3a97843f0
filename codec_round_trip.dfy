/**
 * Packing and unpacking together: fields written through a finalizing
 * BitPacker are read back by a bounded BitUnpacker over the words it emitted,
 * field by field, and the unpacker reports its end exactly after the last one.
 */
module CodecRoundTrip {
  import opened Pow2Arith
  import opened BitSeq
  import opened PackWord
  import opened WireFormat
  import opened BitPacking
  import opened BitUnpacking
  import opened ByteOrder
  import opened CharBridges

  /**
   * Writes the fields, then reads each back with read(num): every value comes
   * back as its num low bits, eof() is false before every read and true after
   * the last.
   */
  method RoundTrip(fs: seq<Field>) returns (values: seq<Word>, eofBefore: seq<bool>, eofAfter: bool)
    requires WellFormed(fs)
    ensures |values| == |fs| && forall k :: 0 <= k < |fs| ==> values[k] == fs[k].bits % Pow2(fs[k].num)
    ensures |eofBefore| == |fs| && forall k :: 0 <= k < |fs| ==> !eofBefore[k]
    ensures eofAfter
  {
    var ws, _ := PackFields(fs, true);
    DecodeEncode(FieldsBits(fs));
    values, eofBefore, eofAfter := ReadFields(ws, fs);
  }

  /**
   * bitwise_output_to and then bitwise_input_from: the packer's words go out
   * through a CharUnpacker as characters, and come back through a CharPacker
   * into the unpacker, which reads every field back as in RoundTrip.
   */
  method BitwiseRoundTrip(fs: seq<Field>) returns (chars: seq<Byte>, values: seq<Word>, eofBefore: seq<bool>, eofAfter: bool)
    requires WellFormed(fs)
    ensures |chars| == 8 * |Encode(FieldsBits(fs), true)|
    ensures |values| == |fs| && forall k :: 0 <= k < |fs| ==> values[k] == fs[k].bits % Pow2(fs[k].num)
    ensures |eofBefore| == |fs| && forall k :: 0 <= k < |fs| ==> !eofBefore[k]
    ensures eofAfter
  {
    var ws, _ := PackFields(fs, true);
    var back;
    chars, back := Bridge(ws);
    DecodeEncode(FieldsBits(fs));
    values, eofBefore, eofAfter := ReadFields(back, fs);
  }

  /** A bounded unpacker over words that decode to the fields' bits reads every field back, with eof() exactly after the last. */
  method ReadFields(ws: seq<Word>, fs: seq<Field>) returns (values: seq<Word>, eofBefore: seq<bool>, eofAfter: bool)
    requires WellFormed(fs) && Decode(ws) == FieldsBits(fs)
    ensures |values| == |fs| && forall k :: 0 <= k < |fs| ==> values[k] == fs[k].bits % Pow2(fs[k].num)
    ensures |eofBefore| == |fs| && forall k :: 0 <= k < |fs| ==> !eofBefore[k]
    ensures eofAfter
  {
    var u := new BitUnpacker(ws);
    values, eofBefore := [], [];
    var k := 0;
    while k < |fs|
      invariant 0 <= k <= |fs| && u.Valid() && u.Synced() && u.words == ws
      invariant u.Pos == |FieldsBits(fs[..k])|
      invariant |values| == k && forall m :: 0 <= m < k ==> values[m] == fs[m].bits % Pow2(fs[m].num)
      invariant |eofBefore| == k && forall m :: 0 <= m < k ==> !eofBefore[m]
    {
      var v, e := ReadField(u, fs, k);
      values, eofBefore := values + [v], eofBefore + [e];
      k := k + 1;
    }
    assert fs[..k] == fs;
    eofAfter := u.Eof();
  }

  /** Reading field k back, in step with a stream of the fields' bits: eof() is false before, and read(num) returns the field's value. */
  method ReadField(u: BitUnpacker, fs: seq<Field>, k: nat) returns (v: Word, eofBefore: bool)
    requires WellFormed(fs) && k < |fs|
    requires u.Valid() && u.Synced() && Decode(u.words) == FieldsBits(fs) && u.Pos == |FieldsBits(fs[..k])|
    modifies u
    ensures u.Valid() && u.Synced() && u.Pos == |FieldsBits(fs[..k + 1])|
    ensures v == fs[k].bits % Pow2(fs[k].num) && !eofBefore
  {
    FieldAt(fs, k);
    eofBefore := u.Eof();
    v := u.ReadBits(fs[k].num);
    FieldValue(v, fs[k]);
  }

  /** A value read back as a field's bits is the field's value modulo 2^num. */
  lemma FieldValue(v: Word, f: Field)
    requires v < Pow2(f.num) && BitsOf(v, f.num) == BitsOf(f.bits, f.num)
    ensures v == f.bits % Pow2(f.num)
  {
    ValueOfBitsOf(v, f.num);
    ValueOfBitsOf(f.bits, f.num);
    SmallMod(v, Pow2(f.num));
  }

  /**
   * n set bits written as one field: one word when they fit with their
   * finalizer, two otherwise; read back bit by bit they are all ones, with
   * eof() false before each read and true after; summed while good() they
   * give n.
   */
  method OnesEndToEnd(v: Word, n: nat) returns (ws: seq<Word>, bits: seq<bool>, eofBefore: seq<bool>, eofAfter: bool, sum: nat)
    requires 0 < n <= W && BitsOf(v, n) == Ones(n)
    ensures |ws| == (if n < PAYLOAD_BITS then 1 else 2)
    ensures bits == Ones(n) && sum == n
    ensures |eofBefore| == n && forall k :: 0 <= k < n ==> !eofBefore[k]
    ensures eofAfter
  {
    var fs := [Field(v, n)];
    assert FieldsBits(fs) == Ones(n) by {
      assert fs[..0] == [];
    }
    var written;
    ws, written := PackFields(fs, true);
    if n < W {
      SmallMod(n, W);
    } else {
      DivModUnique(W, W, 1, 0);
    }
    EncodeLength(Ones(n));
    DecodeEncode(Ones(n));
    bits, eofBefore, eofAfter := ReadBitByBit(ws, n);
    sum := SumWhileGood(ws);
    CountOnesOfOnes(n);
  }
}
