/**
 * The wire format shared by BitPacker and BitUnpacker: how a bit stream is laid
 * out in pack words, and how the end-of-stream finalizer in the last word tells
 * a bounded reader how many bits of the terminal word are payload.
 *
 * `Encode` is what a packer emits when it is closed; `Decode` is what a bounded
 * unpacker delivers before it reports eof(). `DecodeEncode` states that the
 * second undoes the first.
 */
module WireFormat {
  import opened Pow2Arith
  import opened BitSeq
  import opened PackWord
  import opened Bits

  /** std::bit_width(x): the number of binary digits of x. */
  function BitWidth(x: nat): (r: nat)
    ensures x < Pow2(r) && r <= x
    ensures x > 0 ==> r > 0 && Pow2(r - 1) <= x
  {
    if x == 0 then 0 else 1 + BitWidth(x / 2)
  }

  /** F = bit_width(W - 1): the bits a finalizer needs to hold a cursor value 0..W-1 (FinalizerBitsWidth). */
  const FINALIZER_BITS: nat := 6
  /** P: the payload bits left in a word that also carries a finalizer. */
  const PAYLOAD_BITS: nat := W - FINALIZER_BITS
  /** The finalizer is shifted to P - 1, not P. */
  const FINALIZER_LSH: nat := PAYLOAD_BITS - 1

  /** F is bit_width(W - 1): the fewest bits that hold every cursor value 0..W-1. */
  lemma FinalizerBitsWidth()
    ensures FINALIZER_BITS == BitWidth(W - 1)
    ensures W - 1 < Pow2(FINALIZER_BITS) && Pow2(FINALIZER_BITS - 1) <= W - 1
  {
    assert BitWidth(1) == 1;
    assert BitWidth(3) == 2;
    assert BitWidth(7) == 3;
    assert BitWidth(15) == 4;
    assert BitWidth(31) == 5;
    assert BitWidth(63) == 6;
  }

  /** encode_finalizer(i): the packer's cursor minus one (wrapping at 0), shifted to FINALIZER_LSH. */
  function EncodeFinalizer(cursor: nat): Word
    requires cursor < W
  {
    Shl(WrapSub(cursor, 1), FINALIZER_LSH)
  }

  /**
   * decode_finalizer(x): the number of valid bits the finalizer in x announces;
   * a finalizer of 0 modulo W announces a whole word.
   * (`(x >> FINALIZER_LSH) + 1` is at most 2^7, so the sum cannot wrap.)
   */
  function DecodeFinalizer(x: Word): (r: nat)
    ensures 1 <= r <= W
  {
    var f := (Shr(x, FINALIZER_LSH) + 1) % W;
    if f == 0 then W else f
  }

  // ----- the finalizer on its own -----

  /** The word a finalizer sits in: 2^FINALIZER_LSH scaled by the finalizer value. */
  function FinalizerUnit(): (r: nat)
    ensures r == Pow2(FINALIZER_LSH) && 128 * r == WORD_LIMIT
  {
    Pow2W();
    Pow2Add(W - FINALIZER_LSH, FINALIZER_LSH);
    assert Pow2(W - FINALIZER_LSH) == 128;
    Pow2(FINALIZER_LSH)
  }

  /** The word holding just the finalizer: cursor - 1 for a cursor in 1..W-1, and 127 (all seven bits) for cursor 0. */
  lemma EncodeFinalizerValue(cursor: nat)
    requires cursor < W
    ensures EncodeFinalizer(cursor) == (if cursor > 0 then cursor - 1 else 127) * FinalizerUnit()
  {
    var u := FinalizerUnit();
    Pow2W();
    if cursor > 0 {
      SmallMod(cursor - 1, WORD_LIMIT);
      Pow2Add(W - FINALIZER_LSH, FINALIZER_LSH);
      ShlFits(cursor - 1, FINALIZER_LSH);
    } else {
      assert WrapSub(0, 1) == PACK_WORD_MAX;
      ShlAllOnes(FINALIZER_LSH);
    }
  }

  /** A word whose bits from FINALIZER_LSH up hold m, below 2^7, decodes to m + 1 modulo W. */
  lemma DecodeFinalizerOf(v: nat, m: nat, x: Word)
    requires v < FinalizerUnit() && m < 128 && x == v + m * FinalizerUnit()
    ensures DecodeFinalizer(x) == if (m + 1) % W == 0 then W else (m + 1) % W
  {
    ModAddMultiple(v, m, FINALIZER_LSH);
    SmallMod(v, Pow2(FINALIZER_LSH));
    assert Shr(x, FINALIZER_LSH) == m;
  }

  /** decode_finalizer inverts encode_finalizer for cursors 1..W-1 and reads cursor 0 as W. */
  lemma FinalizerRoundTrip(cursor: nat)
    requires cursor < W
    ensures DecodeFinalizer(EncodeFinalizer(cursor)) == if cursor == 0 then W else cursor
  {
    EncodeFinalizerValue(cursor);
    var x := EncodeFinalizer(cursor);
    if cursor > 0 {
      DecodeFinalizerOf(0, cursor - 1, x);
      assert cursor % W == cursor;
    } else {
      DecodeFinalizerOf(0, 127, x);
    }
  }

  // ----- streams -----

  /** The words a packer emits on close after its cursor stops at the end of `rest`. */
  function LastWords(rest: seq<bool>, withFinalizer: bool): seq<Word>
    requires |rest| < W
  {
    ValueOfBound(rest);
    Pow2Le(|rest|, W);
    Pow2W();
    var k, v := |rest|, ValueOf(rest);
    if !withFinalizer then (if k > 0 then [v] else [])
    else if k >= PAYLOAD_BITS then [v, EncodeFinalizer(k)]
    else [BitOr(v, EncodeFinalizer(k))]
  }

  /**
   * What a closed packer has emitted for the physical bit stream s: the whole
   * words of s, then the partial last word (zero padded), with the finalizer
   * OR-ed into it or into a word of its own when `finalize` is set and s is not
   * empty.
   */
  function Encode(s: seq<bool>, finalize: bool): seq<Word>
  {
    var full := |s| / W;
    Chunks(s[..W * full]) + LastWords(s[W * full..], finalize && |s| > 0)
  }

  /** The index of the terminal word: the last word, or the one before it when the last word carries only a finalizer. */
  function FinalIndex(ws: seq<Word>): nat
    requires |ws| > 0
  {
    if |ws| >= 2 && DecodeFinalizer(ws[|ws| - 1]) >= PAYLOAD_BITS then |ws| - 2 else |ws| - 1
  }

  /** The bits a bounded unpacker over ws delivers before eof(): every word before the terminal one, then the announced bits of the terminal one. */
  function Decode(ws: seq<Word>): seq<bool>
  {
    if |ws| == 0 then []
    else
      var f := FinalIndex(ws);
      Unpacked(ws[..f]) + BitsOf(ws[f], DecodeFinalizer(ws[|ws| - 1]))
  }

  // ----- the wire-format theorems -----

  /** A word carrying k in 1..P-1 payload bits and its finalizer announces k and holds the payload. */
  lemma SharedLastWord(rest: seq<bool>)
    requires 0 < |rest| < PAYLOAD_BITS
    ensures ValueOf(rest) < WORD_LIMIT
    ensures var x := BitOr(ValueOf(rest), EncodeFinalizer(|rest|));
      DecodeFinalizer(x) == |rest| && BitsOf(x, |rest|) == rest
  {
    var k, v := |rest|, ValueOf(rest);
    var u := FinalizerUnit();
    assert v < u && v < WORD_LIMIT by {
      ValueOfBound(rest);
      Pow2Le(k, FINALIZER_LSH);
    }
    var x := BitOr(v, EncodeFinalizer(k));
    assert x == v + (k - 1) * u by {
      EncodeFinalizerValue(k);
      Pow2Add(W - FINALIZER_LSH, FINALIZER_LSH);
      OrDisjoint(v, k - 1, FINALIZER_LSH);
    }
    SharedLastWordBits(rest, v, k, u, x);
  }
  lemma SharedLastWordBits(rest: seq<bool>, v: nat, k: nat, u: nat, x: Word)
    requires 0 < k == |rest| < PAYLOAD_BITS && v == ValueOf(rest) && u == FinalizerUnit() && v < u && x == v + (k - 1) * u
    ensures DecodeFinalizer(x) == k && BitsOf(x, k) == rest
  {
    assert BitsOf(x, k) == BitsOf(v, k) by {
      LowBitsUnderField(v, k - 1, FINALIZER_LSH, k, x);
    }
    assert (k - 1 + 1) % W == k;
    assert DecodeFinalizer(x) == k by {
      DecodeFinalizerOf(v, k - 1, x);
    }
    BitsOfValueOf(rest);
  }

  lemma BitOrZero(x: Word)
    ensures BitOr(0, x) == x
  {
    Pow2W();
    OrBitsZero(x, W);
  }

  /** Round trip of the wire format: a bounded reader recovers exactly the bits written, however many. */
  lemma DecodeEncode(s: seq<bool>)
    ensures Decode(Encode(s, true)) == s
  {
    if |s| > 0 {
      var full := |s| / W;
      WholeWords(|s|, full);
      var front, rest := s[..W * full], s[W * full..];
      var body := Chunks(front);
      UnpackedChunks(front);
      assert s == front + rest;
      DecodeLastWords(body, rest);
    }
  }

  /** The whole words of an n-bit stream take W * (n / W) bits, and fewer than W bits are left over. */
  lemma WholeWords(n: nat, full: nat)
    requires full == n / W
    ensures W * full <= n < W * full + W && (W * full) % W == 0
  {
    DivModUnique(W * full, W, full, 0);
  }

  /** Decoding whole words followed by the words a finalizing close adds for `rest` gives the words' bits and then `rest`. */
  lemma DecodeLastWords(body: seq<Word>, rest: seq<bool>)
    requires |rest| < W && (|body| > 0 || |rest| > 0)
    ensures Decode(body + LastWords(rest, true)) == Unpacked(body) + rest
  {
    if |rest| == 0 {
      var fin := EncodeFinalizer(0);
      BitOrZero(fin);
      assert LastWords(rest, true) == [fin];
      DecodeFinalizerWord(body, fin);
    } else if |rest| < PAYLOAD_BITS {
      SharedLastWord(rest);
      var x := BitOr(ValueOf(rest), EncodeFinalizer(|rest|));
      assert LastWords(rest, true) == [x];
      DecodeSharedWord(body, rest, x);
    } else {
      ValueOfBound(rest);
      Pow2Le(|rest|, W);
      Pow2W();
      var v := ValueOf(rest);
      assert LastWords(rest, true) == [v, EncodeFinalizer(|rest|)];
      DecodeSeparateWord(body, rest, v, EncodeFinalizer(|rest|));
    }
  }

  /** A stream of whole words ends in a word holding only the finalizer announcing W. */
  lemma DecodeFinalizerWord(body: seq<Word>, fin: Word)
    requires |body| > 0 && fin == EncodeFinalizer(0)
    ensures Decode(body + [fin]) == Unpacked(body)
  {
    FinalizerRoundTrip(0);
    var ws, n := body + [fin], |body|;
    assert FinalIndex(ws) == n - 1;
    assert ws[..n - 1] == body[..n - 1];
  }

  /** The last payload bits share their word with the finalizer. */
  lemma DecodeSharedWord(body: seq<Word>, rest: seq<bool>, x: Word)
    requires 0 < |rest| < PAYLOAD_BITS && DecodeFinalizer(x) == |rest| && BitsOf(x, |rest|) == rest
    ensures Decode(body + [x]) == Unpacked(body) + rest
  {
    var ws := body + [x];
    assert FinalIndex(ws) == |body|;
    assert ws[..|body|] == body;
  }

  /** The last payload bits fill P or more bits of their word, and the finalizer follows in a word of its own. */
  lemma DecodeSeparateWord(body: seq<Word>, rest: seq<bool>, v: Word, fin: Word)
    requires PAYLOAD_BITS <= |rest| < W && v == ValueOf(rest) && fin == EncodeFinalizer(|rest|)
    ensures Decode(body + [v, fin]) == Unpacked(body) + rest
  {
    FinalizerRoundTrip(|rest|);
    BitsOfValueOf(rest);
    var ws := body + [v, fin];
    assert FinalIndex(ws) == |body|;
    assert ws[..|body|] == body;
  }

  /** How many words a finalized stream of n bits takes: the whole words, plus one for the rest and finalizer, plus one more when fewer than F bits are left free. */
  lemma EncodeLength(s: seq<bool>)
    ensures |Encode(s, true)| ==
      if |s| == 0 then 0
      else if |s| % W >= PAYLOAD_BITS then |s| / W + 2
      else |s| / W + 1
  {
  }

  /** Without a finalizer, the words are the stream padded with zeros to a whole word. */
  lemma EncodeUnfinalized(s: seq<bool>)
    ensures Unpacked(Encode(s, false)) == s + Zeros(|Encode(s, false)| * W - |s|)
    ensures |Encode(s, false)| == (|s| + W - 1) / W
  {
    var full := |s| / W;
    var front, rest := s[..W * full], s[W * full..];
    var body := Chunks(front);
    UnpackedChunks(front);
    assert s == front + rest;
    if |rest| > 0 {
      var v := PaddedWord(rest);
      assert Encode(s, false) == body + [v];
      UnpackedAppend(body, v);
    } else {
      assert Encode(s, false) == body;
    }
  }

  /** A partial last word is its bits followed by zeros. */
  lemma PaddedWord(rest: seq<bool>) returns (v: Word)
    requires |rest| < W
    ensures v == ValueOf(rest) && BitsOf(v, W) == rest + Zeros(W - |rest|)
  {
    ValueOfBound(rest);
    Pow2Le(|rest|, W);
    Pow2W();
    v := ValueOf(rest);
    BitsOfPadded(v, |rest|, W);
    BitsOfValueOf(rest);
  }

  /** A single word's worth of bits packs into that one word. */
  lemma ChunksOne(bs: seq<bool>)
    requires |bs| == W
    ensures ValueOf(bs) < WORD_LIMIT && Chunks(bs) == [ValueOf(bs)]
  {
    ValueOfBound(bs);
    Pow2W();
    assert bs[..0] == [] && bs[0..] == bs;
  }

  /** The last word of a finalized stream announces how many bits of the terminal word are payload. */
  lemma EncodeAnnounces(s: seq<bool>)
    requires |s| > 0
    ensures var ws := Encode(s, true);
      |ws| > 0 && DecodeFinalizer(ws[|ws| - 1]) == if |s| % W == 0 then W else |s| % W
  {
    var full := |s| / W;
    var rest := s[W * full..];
    if |rest| == 0 {
      FinalizerRoundTrip(0);
      BitOrZero(EncodeFinalizer(0));
    } else if |rest| < PAYLOAD_BITS {
      SharedLastWord(rest);
    } else {
      FinalizerRoundTrip(|rest|);
    }
  }

  /** A decoded stream holds the whole words before the terminal one and the bits the finalizer announces. */
  lemma DecodeLength(ws: seq<Word>)
    requires |ws| > 0
    ensures |Decode(ws)| == 64 * FinalIndex(ws) + DecodeFinalizer(ws[|ws| - 1])
  {
  }

  /**
   * Where the bits of word c sit in the decoded stream: bits i..i+k of word c,
   * below the terminal word or within the announced part of it, are stream
   * bits 64c + i onwards.
   */
  lemma DecodeAt(ws: seq<Word>, c: nat, i: nat, k: nat)
    requires |ws| > 0 && c <= FinalIndex(ws)
    requires i + k <= if c == FinalIndex(ws) then DecodeFinalizer(ws[|ws| - 1]) else W
    ensures 64 * c + i + k <= |Decode(ws)|
    ensures Decode(ws)[64 * c + i..64 * c + i + k] == BitsOf(ws[c], W)[i..i + k]
  {
    var f, a := FinalIndex(ws), DecodeFinalizer(ws[|ws| - 1]);
    var front, last := Unpacked(ws[..f]), BitsOf(ws[f], a);
    assert Decode(ws) == front + last;
    if c < f {
      DecodeAtWhole(ws[..f], last, c, i, k);
      assert ws[..f][c] == ws[c];
    } else {
      DecodeAtTerminal(front, ws[f], a, f, i, k);
    }
  }

  /** Bits of a whole word c before the terminal one. */
  lemma DecodeAtWhole(body: seq<Word>, last: seq<bool>, c: nat, i: nat, k: nat)
    requires c < |body| && i + k <= W
    ensures 64 * c + i + k <= |Unpacked(body)|
    ensures (Unpacked(body) + last)[64 * c + i..64 * c + i + k] == BitsOf(body[c], W)[i..i + k]
  {
    var front := Unpacked(body);
    UnpackedAt(body, c);
    SliceInFront(front, last, 64 * c + i, 64 * c + i + k);
    SliceOfSlice(front, 64 * c, 64, i, k);
  }

  /** Bits within the announced part of the terminal word, which follows f whole words. */
  lemma DecodeAtTerminal(front: seq<bool>, x: Word, a: nat, f: nat, i: nat, k: nat)
    requires |front| == 64 * f && a <= W && i + k <= a
    ensures (front + BitsOf(x, a))[64 * f + i..64 * f + i + k] == BitsOf(x, W)[i..i + k]
  {
    var last := BitsOf(x, a);
    BitsOfSplit(x, a, W - a);
    SliceInBack(front, last, 64 * f + i, 64 * f + i + k);
    SliceInFront(last, BitsOf(ShiftDown(x, a), W - a), i, i + k);
  }

  /** A word whose bits from FINALIZER_LSH up are clear announces a single bit. */
  lemma DecodeFinalizerSmall(x: Word)
    requires x < FinalizerUnit()
    ensures DecodeFinalizer(x) == 1
  {
    DecodeFinalizerOf(x, 0, x);
  }

  // ----- the end-of-stream scenarios -----

  /**
   * P-1 bits fit in one word with their finalizer; P bits need a second word
   * for it; W bits fill the first word completely (all ones stay all ones) and
   * the second announces W.
   */
  lemma FinalizerScenarios(s: seq<bool>)
    ensures |s| == 57 ==> |Encode(s, true)| == 1 && DecodeFinalizer(Encode(s, true)[0]) == 57
    ensures |s| == 58 ==> |Encode(s, true)| == 2 && DecodeFinalizer(Encode(s, true)[1]) == 58
    ensures |s| == 64 ==> |Encode(s, true)| == 2 && DecodeFinalizer(Encode(s, true)[1]) == 64
    ensures s == Ones(W) ==> Encode(s, true)[0] == PACK_WORD_MAX
  {
    if |s| > 0 {
      EncodeLength(s);
      EncodeAnnounces(s);
    }
    if s == Ones(W) {
      FullWordOfOnes(s);
    }
  }

  lemma FullWordOfOnes(s: seq<bool>)
    requires s == Ones(W)
    ensures Encode(s, true)[0] == PACK_WORD_MAX
  {
    assert s[..W * 1] == s;
    ChunksOne(s);
    ValueOfOnes(W);
    Pow2W();
  }

  /** An empty stream is zero words, finalized or not, and zero words decode to nothing. */
  lemma EmptyStream(finalize: bool)
    ensures Encode([], finalize) == [] && Decode([]) == []
  {
  }

  /**
   * The stream of a packer that has emitted ws and holds `rest` in its
   * accumulator encodes as ws followed by the words for rest.
   */
  lemma EncodeSplit(ws: seq<Word>, rest: seq<bool>, finalize: bool)
    requires |rest| < W
    ensures Encode(Unpacked(ws) + rest, finalize) == ws + LastWords(rest, finalize && (|ws| > 0 || |rest| > 0))
  {
    var s := Unpacked(ws) + rest;
    DivModUnique(|s|, W, |ws|, |rest|);
    assert s[..W * |ws|] == Unpacked(ws);
    assert s[W * |ws|..] == rest;
    ChunksUnpacked(ws);
  }
}
