/**
 * BitUnpacker: reads bits, lowest first, from the pack words of a bounded
 * input range. It holds the current word and looks one word ahead, so that it
 * can tell from the finalizer of the last word which word is the terminal one
 * and how many of its bits are payload.
 *
 * The input iterator pair [in, end) is modelled as the word sequence `words`
 * and the index `idx` of the next word to pull. `Loaded` counts the words
 * moved into `pack` so far and `Pos` the bits delivered so far; `Synced()`
 * ties the state to `Decode(words)`, the stream a bounded reader delivers.
 */
module BitUnpacking {
  import opened Pow2Arith
  import opened BitSeq
  import opened PackWord
  import opened Bits
  import opened WireFormat

  /** The part of a reader's state that the words it has loaded so far determine. */
  datatype Phase = Phase(pack: Word, next: Word, idx: nat, final: bool, finalAvail: nat)

  /** The number of words a bounded reader loads before eof: up to and including the terminal word. */
  function Loads(ws: seq<Word>): nat
  {
    if |ws| == 0 then 0 else FinalIndex(ws) + 1
  }

  /**
   * The phase of a bounded reader over ws after `loaded` advances: the last
   * word loaded is current and the next one is looked ahead at, until the
   * terminal word is current, when the reader is final with the announced
   * number of bits.
   */
  function Expected(ws: seq<Word>, loaded: nat): Phase
    requires loaded <= Loads(ws)
  {
    if |ws| == 0 then Phase(0, 0, 0, true, 0)
    else if loaded <= FinalIndex(ws) then Phase(if loaded == 0 then 0 else ws[loaded - 1], ws[loaded], loaded + 1, false, 0)
    else Phase(ws[loaded - 1], ws[|ws| - 1], |ws|, true, DecodeFinalizer(ws[|ws| - 1]))
  }

  class BitUnpacker {
    /** pack_: the current word. */
    var pack: Word
    /** next_: the look-ahead word. */
    var next: Word
    /** i_: the position of the next bit in `pack`. */
    var i: nat
    /** The input range [in_, end_). */
    const words: seq<Word>
    /** in_: the index in `words` of the next word to pull. */
    var idx: nat
    /** final_: `pack` is the terminal word. */
    var final: bool
    /** final_avail_: the payload bits of the terminal word. */
    var finalAvail: nat

    /** The number of words moved into `pack`. */
    ghost var Loaded: nat
    /** The number of bits delivered. */
    ghost var Pos: nat

    /** What holds in every state, whatever was read. */
    ghost predicate Valid()
      reads this
    {
      idx <= |words| && i <= W && finalAvail <= W
    }

    /** The fields other than the cursor i_ (and Pos): what a read inside the current word leaves alone. */
    ghost function Held(): (Phase, nat)
      reads this
    {
      (Phase(pack, next, idx, final, finalAvail), Loaded)
    }

    /**
     * The fields the loaded words determine; a field the source leaves
     * indeterminate (pack_ before the first advance, next_ of an empty range,
     * final_avail_ before the end) reads as 0.
     */
    ghost function View(): Phase
      reads this
    {
      Phase(if Loaded == 0 then 0 else pack, if |words| == 0 then 0 else next, idx, final, if final then finalAvail else 0)
    }

    /**
     * The state matches a reader that has delivered the first `pos` bits of
     * Decode(words) with its cursor at `cursor` (Synced() takes the fields i_
     * and Pos for these).
     */
    ghost predicate SyncedAt(cursor: nat, pos: nat)
      reads this
    {
      && Loaded <= Loads(words)
      && View() == Expected(words, Loaded)
      && pos + W == 64 * Loaded + cursor
      && (Loaded == 0 ==> cursor == W)
      && (Loaded > 0 ==> cursor <= if final then finalAvail else W)
    }

    /** The unpacker has delivered exactly the first Pos bits of Decode(words). */
    ghost predicate Synced()
      reads this
    {
      SyncedAt(i, Pos)
    }

    /** The bounded constructor: an empty range is final at once with no bits; otherwise the first word is pulled as look-ahead. */
    constructor(words: seq<Word>)
      ensures Valid() && Synced() && Pos == 0 && this.words == words
      ensures i == W && (final <==> |words| == 0)
      ensures |words| == 0 ==> finalAvail == 0
      ensures |words| > 0 ==> next == words[0] && idx == 1
    {
      this.words := words;
      i := W;
      pack := 0;
      Loaded := 0;
      Pos := 0;
      if |words| == 0 {
        next := 0;
        idx := 0;
        final := true;
        finalAvail := 0;
      } else {
        next := words[0];
        idx := 1;
        final := false;
        finalAvail := 0;
      }
    }

    /**
     * How advance changes the look-ahead state: nothing once final; at the end
     * of the input the current word becomes final with its own finalizer;
     * otherwise the next word is pulled, and if it is the last one and
     * announces P or more bits, it is a finalizer-only word and the current
     * word is final.
     */
    twostate predicate LookAhead()
      reads this
    {
      if old(final) then
        final && idx == old(idx) && next == old(next) && finalAvail == old(finalAvail)
      else if old(idx) == |words| then
        final && idx == old(idx) && next == old(next) && finalAvail == DecodeFinalizer(old(next))
      else
        && old(idx) < |words|
        && idx == old(idx) + 1
        && next == words[old(idx)]
        && (final <==> idx == |words| && DecodeFinalizer(next) >= PAYLOAD_BITS)
        && finalAvail == if final then DecodeFinalizer(next) else old(finalAvail)
    }

    /** advance(): the look-ahead word becomes the current word, read from bit 0. */
    method Advance()
      requires Valid()
      modifies this
      ensures Valid()
      ensures pack == old(next) && i == 0 && LookAhead()
      ensures Loaded == old(Loaded) + 1 && Pos == old(Pos)
      ensures old(SyncedAt(W, Pos)) && !old(final) ==> Synced()
    {
      pack := next;
      i := 0;
      Loaded := Loaded + 1;
      if final {
        return;
      }
      if idx == |words| {
        finalAvail := DecodeFinalizer(pack);
        final := true;
      } else {
        next := words[idx];
        idx := idx + 1;
        if idx == |words| {
          var avail := DecodeFinalizer(next);
          if avail >= PAYLOAD_BITS {
            finalAvail := avail;
            final := true;
          }
        }
      }
    }

    /** good(): more bits can be read; in step with the stream, exactly when bits remain. */
    function Good(): (r: bool)
      reads this
      ensures Synced() ==> (r <==> Pos < |Decode(words)|)
    {
      InStream();
      !final || i < finalAvail
    }

    /** eof(): the negation of good(); in step with the stream, exactly when every bit has been delivered. */
    function Eof(): (r: bool)
      reads this
      ensures r == !Good()
      ensures Synced() ==> (r <==> Pos == |Decode(words)|)
    {
      InStream();
      final && i >= finalAvail
    }

    /** pack_pos(): the position in the current word, i.e. the bits delivered modulo W. */
    function PackPos(): (r: nat)
      reads this
      ensures r < W
      ensures Synced() ==> r == Pos % W
    {
      PosInWord();
      i % W
    }

    /** read(): the bit at the cursor, advancing first when the current word is used up. */
    method Read() returns (r: bool)
      requires Valid()
      modifies this
      ensures Valid()
      ensures old(i) < W ==> Held() == old(Held()) && i == old(i) + 1
      ensures old(i) >= W ==> pack == old(next) && LookAhead() && i == 1
      ensures r == BitsOf(pack, W)[i - 1]
      ensures old(Synced()) && old(Pos) < |Decode(words)| ==> Synced() && Pos == old(Pos) + 1 && r == Decode(words)[old(Pos)]
    {
      if i >= W {
        InStream();
        Advance();
      }
      r := TakeBit();
    }

    /** The bit at the cursor of the current word, which is not used up: `(pack_ & (1 << i_++)) != 0`. */
    method TakeBit() returns (r: bool)
      requires Valid() && i < W
      modifies this
      ensures Valid() && i == old(i) + 1 && Pos == old(Pos) + 1
      ensures Held() == old(Held())
      ensures r == BitsOf(pack, W)[old(i)]
      ensures old(Synced()) && old(Pos) < |Decode(words)| ==> Synced() && r == Decode(words)[old(Pos)]
    {
      if Synced() && Pos < |Decode(words)| {
        NextBit();
      }
      TestBit(pack, i);
      r := BitAnd(pack, SetBit(i)) != 0;
      i := i + 1;
      Pos := Pos + 1;
    }

    /**
     * read(num): num bits, lowest first, across word boundaries; the cursor
     * ends in (0, W], so a read that ends exactly at W does not advance.
     */
    method ReadBits(num: nat) returns (r: Word)
      requires Valid() && 0 < num <= W
      modifies this
      ensures Valid() && r < Pow2(num)
      ensures 0 < i <= W && i == if old(i) + num <= W then old(i) + num else old(i) + num - W
      ensures old(i) + num <= W ==> Held() == old(Held())
      ensures old(Synced()) && old(Pos) + num <= |Decode(words)| ==>
        Synced() && Pos == old(Pos) + num && BitsOf(r, num) == Decode(words)[old(Pos)..old(Pos) + num]
    {
      if i >= W {
        InStream();
        Advance();
      }
      r := ReadSpan(num);
    }

    /**
     * The loop of read(num), from a cursor inside the current word: whole
     * remainders of words while the request reaches past the word, then the
     * rest. With num <= W the loop passes at most one word boundary.
     */
    method ReadSpan(num: nat) returns (r: Word)
      requires Valid() && i < W && 0 < num <= W
      modifies this
      ensures Valid() && r < Pow2(num)
      ensures 0 < i <= W && i == if old(i) + num <= W then old(i) + num else old(i) + num - W
      ensures old(i) + num <= W ==> Held() == old(Held())
      ensures old(Synced()) && old(Pos) + num <= |Decode(words)| ==>
        Synced() && Pos == old(Pos) + num && BitsOf(r, num) == Decode(words)[old(Pos)..old(Pos) + num]
    {
      ghost var d := Decode(words);
      ghost var inside := Synced() && Pos + num <= |d|;
      ghost var start := Pos;
      ghost var crossed := false;
      var bits: Word := 0;
      var j := 0;
      var n := num;
      while i + n > W
        invariant Valid() && i < W
        invariant 0 < n && j + n == num && bits < Pow2(j)
        invariant !crossed ==> j == 0 && i == old(i) && Held() == old(Held())
        invariant crossed ==> i == 0 && j == W - old(i)
        invariant inside ==> Synced() && Pos == start + j && Pos + n <= |d| && BitsOf(bits, j) == d[start..start + j]
        decreases n
      {
        var avail := W - i;
        bits, j := ReadRestOfWord(bits, j, d, start);
        n := n - avail;
        crossed := true;
      }
      if n > 0 {
        bits, j := ReadHere(bits, j, n, d, start);
      }
      assert j == num;
      r := bits;
    }

    /** The loop body of read(num): the rest of the current word goes into `bits` above its j gathered bits, then the unpacker advances. */
    method ReadRestOfWord(bits: Word, j: nat, ghost d: seq<bool>, ghost start: nat) returns (r: Word, gathered: nat)
      requires Valid() && i < W && j + (W - i) <= W && bits < Pow2(j)
      requires d == Decode(words)
      modifies this
      ensures gathered == j + (W - old(i)) && Valid() && i == 0 && r < Pow2(gathered)
      ensures Pos == old(Pos) + (W - old(i)) && Loaded == old(Loaded) + 1
      ensures pack == old(next) && LookAhead()
      ensures old(Synced()) && old(Pos) + (W - old(i)) < |d| && old(Pos) == start + j && BitsOf(bits, j) == d[start..start + j] ==>
        Synced() && BitsOf(r, gathered) == d[start..start + gathered]
    {
      r, gathered := ReadHere(bits, j, W - i, d, start);
      InStream();
      Advance();
    }

    /** `bits |= extract_low(pack_ >> i_, k) << j` and `i_ += k`: k bits of the current word from the cursor go into `bits` above its j gathered bits. */
    method ReadHere(bits: Word, j: nat, k: nat, ghost d: seq<bool>, ghost start: nat) returns (r: Word, gathered: nat)
      requires Valid() && 0 < k && i + k <= W && j + k <= W && bits < Pow2(j)
      requires d == Decode(words)
      modifies this
      ensures gathered == j + k && Valid() && r < Pow2(j + k)
      ensures BitsOf(r, j + k) == BitsOf(bits, j) + BitsOf(ShiftDown(pack, old(i)), k)
      ensures i == old(i) + k && Pos == old(Pos) + k && Held() == old(Held())
      ensures old(Synced()) && old(Pos) + k <= |d| && old(Pos) == start + j && BitsOf(bits, j) == d[start..start + j] ==>
        Synced() && BitsOf(r, j + k) == d[start..start + j + k]
    {
      if Synced() && Pos + k <= |d| && Pos == start + j && BitsOf(bits, j) == d[start..start + j] {
        NextBits(k, bits, j, d, start);
      }
      r := OrField(bits, j, Shr(pack, i), k);
      gathered := j + k;
      i := i + k;
      Pos := Pos + k;
    }

    /** In step with the stream, Pos never passes its end, and bits remain exactly while the cursor is below the terminal word's payload. */
    lemma InStream()
      ensures Synced() ==> Pos <= |Decode(words)| && ((!final || i < finalAvail) <==> Pos < |Decode(words)|)
    {
      if Synced() && |words| > 0 {
        DecodeLength(words);
      }
    }

    /** In step with the stream, k more stream bits that fit in the current word lie within its payload. */
    lemma Room(k: nat)
      requires Synced() && 0 < k && i + k <= W && Pos + k <= |Decode(words)|
      ensures Loaded > 0 && |words| > 0 && i + k <= if final then finalAvail else W
    {
      DecodeLength(words);
    }

    /** In step with the stream and before its end, the cursor is inside the current word and its bit is the next stream bit. */
    lemma NextBit()
      requires Synced() && Pos < |Decode(words)| && i < W
      ensures SyncedAt(i + 1, Pos + 1) && BitsOf(pack, W)[i] == Decode(words)[Pos]
    {
      Room(1);
      CurrentBits(1);
      assert Decode(words)[Pos] == Decode(words)[Pos..Pos + 1][0] && BitsOf(pack, W)[i] == BitsOf(pack, W)[i..i + 1][0];
      StepSynced(1);
    }

    /** In step with the stream, the k bits from the cursor, inside the current word, extend the j bits gathered from `start` on. */
    lemma NextBits(k: nat, bits: nat, j: nat, d: seq<bool>, start: nat)
      requires Synced() && 0 < k && i + k <= W && d == Decode(words)
      requires Pos + k <= |d| && Pos == start + j && BitsOf(bits, j) == d[start..start + j]
      ensures SyncedAt(i + k, Pos + k)
      ensures BitsOf(bits, j) + BitsOf(ShiftDown(pack, i), k) == d[start..start + j + k]
    {
      Room(k);
      CurrentBits(k);
      JoinSlices(d, start, j, k, BitsOf(bits, j), BitsOf(ShiftDown(pack, i), k));
      StepSynced(k);
    }

    /** Moving the cursor k bits along the current word, within its payload, keeps the state in step. */
    lemma StepSynced(k: nat)
      requires Synced() && i + k <= (if final then finalAvail else W)
      ensures SyncedAt(i + k, Pos + k)
    {
    }

    lemma PosInWord()
      ensures Synced() ==> i % W == Pos % W
    {
      if Synced() {
        if Loaded == 0 {
          DivModUnique(Pos, W, 0, 0);
        } else if i == W {
          DivModUnique(Pos, W, Loaded, 0);
        } else {
          DivModUnique(Pos, W, Loaded - 1, i);
        }
      }
    }

    /** The next k stream bits are bits i.. of the current word, while they lie in the current word's payload. */
    lemma CurrentBits(k: nat)
      requires Synced() && Loaded > 0 && |words| > 0
      requires i + k <= if final then finalAvail else W
      ensures Pos + k <= |Decode(words)|
      ensures Decode(words)[Pos..Pos + k] == BitsOf(ShiftDown(pack, i), k)
      ensures Decode(words)[Pos..Pos + k] == BitsOf(pack, W)[i..i + k]
    {
      DecodeAt(words, Loaded - 1, i, k);
      BitsOfSlice(pack, W, i, k);
    }

  }


  // ----- using an unpacker -----

  /** An unpacker over no words is at its end before any read. */
  method EmptyInput() returns (eof: bool, good: bool)
    ensures eof && !good
  {
    var u := new BitUnpacker([]);
    eof := u.Eof();
    good := u.Good();
  }

  /** The first read() delivers bit 0 of the first word, whatever follows. */
  method FirstBit(ws: seq<Word>) returns (bit: bool)
    requires |ws| > 0
    ensures bit == BitsOf(ws[0], W)[0]
  {
    var u := new BitUnpacker(ws);
    bit := u.Read();
  }

  /**
   * Over a full word x and a terminal word y announcing one bit: read(W)
   * returns x, then read() returns bit 0 of y, then bit 1 of y, which lies
   * past the announced bit and is read anyway.
   */
  method WordThenBits(x: Word, y: Word) returns (first: Word, second: bool, third: bool, eof: bool)
    requires y < FinalizerUnit()
    ensures first == x && second == BitsOf(y, W)[0] && third == BitsOf(y, W)[1]
    ensures !eof
  {
    var ws := [x, y];
    var u := new BitUnpacker(ws);
    DecodeFinalizerSmall(y);
    DecodeLength(ws);
    first := u.ReadBits(W);
    DecodeAt(ws, 0, 0, W);
    Pow2W();
    BitsOfInjective(first, x, W);
    eof := u.Eof();
    second := u.Read();
    third := u.Read();
  }

  /** pack_pos() is 0 at the start, 12 after read(12) and 17 after read(5), over any words. */
  method PackPositions(ws: seq<Word>) returns (p0: nat, p1: nat, p2: nat)
    ensures p0 == 0 && p1 == 12 && p2 == 17
  {
    var u := new BitUnpacker(ws);
    p0 := u.PackPos();
    var _ := u.ReadBits(12);
    p1 := u.PackPos();
    var _ := u.ReadBits(5);
    p2 := u.PackPos();
  }

  /**
   * Reading a stream of n bits one bit at a time: eof() is false before each
   * read and true after the last, and the bits read are the stream.
   */
  method ReadBitByBit(ws: seq<Word>, n: nat) returns (bits: seq<bool>, eofBefore: seq<bool>, eofAfter: bool)
    requires n == |Decode(ws)|
    ensures bits == Decode(ws)
    ensures |eofBefore| == n && forall k :: 0 <= k < n ==> !eofBefore[k]
    ensures eofAfter
  {
    var u := new BitUnpacker(ws);
    bits, eofBefore := [], [];
    var k := 0;
    while k < n
      invariant 0 <= k <= n && u.Valid() && u.Synced() && u.Pos == k && u.words == ws
      invariant bits == Decode(ws)[..k]
      invariant |eofBefore| == k && forall m :: 0 <= m < k ==> !eofBefore[m]
    {
      var e := u.Eof();
      var b := u.Read();
      PrefixStep(Decode(ws), k);
      eofBefore, bits := eofBefore + [e], bits + [b];
      k := k + 1;
    }
    eofAfter := u.Eof();
  }

  /** Summing read() while good(): the number of set bits in the stream. */
  method SumWhileGood(ws: seq<Word>) returns (sum: nat)
    ensures sum == CountOnes(Decode(ws))
  {
    var u := new BitUnpacker(ws);
    sum := 0;
    while u.Good()
      invariant u.Valid() && u.Synced() && u.words == ws && u.Pos <= |Decode(ws)|
      invariant sum == CountOnes(Decode(ws)[..u.Pos])
      decreases |Decode(ws)| - u.Pos
    {
      CountOnesPrefix(Decode(ws), u.Pos);
      var b := u.Read();
      sum := sum + if b then 1 else 0;
    }
    assert Decode(ws)[..u.Pos] == Decode(ws);
  }
}
