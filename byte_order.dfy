/**
 * Bytes of a pack word in the order the character bridges use: most
 * significant byte first, whatever the host's byte order. A character is
 * modelled by its byte value. A word has sizeof(PackWord) = 8 bytes; the
 * formulas below write that 8 as a literal.
 */
module ByteOrder {
  import opened Pow2Arith
  import opened PackWord

  type Byte = b: nat | b < 256

  function Pow256(n: nat): (r: nat)
    ensures r > 0
  {
    if n == 0 then 1 else 256 * Pow256(n - 1)
  }

  /** The number whose base-256 digits, most significant first, are `bs`. */
  function BigEndian(bs: seq<Byte>): (v: nat)
    ensures v < Pow256(|bs|)
  {
    if |bs| == 0 then 0 else BigEndian(bs[..|bs| - 1]) * 256 + bs[|bs| - 1]
  }

  /** The `n` low bytes of `v`, most significant first. */
  function BytesBE(v: nat, n: nat): (bs: seq<Byte>)
    ensures |bs| == n
  {
    if n == 0 then [] else BytesBE(v / 256, n - 1) + [v % 256]
  }

  /** Byte `k` of `v`, counted from the least significant: `(v >> 8k) & 0xFF`. */
  function ByteAt(v: nat, k: nat): Byte
  {
    (v / Pow256(k)) % 256
  }

  /** Peeling off the lowest byte: v mod 256^n is 256 times the remainder of v/256, plus v's low byte. */
  lemma ModPow256Step(v: nat, n: nat)
    requires n > 0
    ensures v % Pow256(n) == 256 * ((v / 256) % Pow256(n - 1)) + v % 256
    ensures v / Pow256(n) == (v / 256) / Pow256(n - 1)
  {
    var h := Pow256(n - 1);
    var q, s := (v / 256) / h, (v / 256) % h;
    assert v / 256 == q * h + s;
    assert v == q * Pow256(n) + (256 * s + v % 256);
    DivModUnique(v, Pow256(n), q, 256 * s + v % 256);
  }

  /** Reading back the n low bytes of v gives v mod 256^n. */
  lemma {:induction false} BigEndianOfBytes(v: nat, n: nat)
    ensures BigEndian(BytesBE(v, n)) == v % Pow256(n)
  {
    if n > 0 {
      var bs := BytesBE(v, n);
      assert bs[..n - 1] == BytesBE(v / 256, n - 1);
      BigEndianOfBytes(v / 256, n - 1);
      ModPow256Step(v, n);
    }
  }

  /** Listing the bytes of a big-endian value gives the bytes back. */
  lemma {:induction false} BytesOfBigEndian(bs: seq<Byte>)
    ensures BytesBE(BigEndian(bs), |bs|) == bs
  {
    if |bs| > 0 {
      var init, last := bs[..|bs| - 1], bs[|bs| - 1];
      DivModUnique(BigEndian(bs), 256, BigEndian(init), last);
      BytesOfBigEndian(init);
      assert bs == init + [last];
    }
  }

  /** Byte i of the list, counted from the most significant, is byte n-1-i of the value. */
  lemma {:induction false} BytesBEAt(v: nat, n: nat, i: nat)
    requires i < n
    ensures BytesBE(v, n)[i] == ByteAt(v, n - 1 - i)
  {
    var k := n - 1 - i;
    if k > 0 {
      assert BytesBE(v, n)[i] == BytesBE(v / 256, n - 1)[i];
      BytesBEAt(v / 256, n - 1, i);
      ModPow256Step(v, k);
    }
  }

  lemma Pow256Word()
    ensures Pow256(8) == WORD_LIMIT
  {
  }

  // ----- one word -----

  /** The bytes of a word, most significant first. */
  function WordBytes(w: Word): (bs: seq<Byte>)
    ensures |bs| == 8
  {
    BytesBE(w, 8)
  }

  /** The word whose bytes, most significant first, are `bs`. */
  function WordOf(bs: seq<Byte>): (w: Word)
    requires |bs| == 8
  {
    Pow256Word();
    BigEndian(bs)
  }

  lemma WordOfBytes(w: Word)
    ensures WordOf(WordBytes(w)) == w
  {
    BigEndianOfBytes(w, 8);
    Pow256Word();
    SmallMod(w, WORD_LIMIT);
  }

  lemma BytesOfWord(bs: seq<Byte>)
    requires |bs| == 8
    ensures WordBytes(WordOf(bs)) == bs
  {
    BytesOfBigEndian(bs);
  }

  // ----- many words -----

  /** Whole words of bytes: 8n is a multiple of 8, and one word less still is. */
  lemma WholeWords(n: nat)
    ensures (8 * n) % 8 == 0
    ensures n > 0 ==> (8 * n - 8) % 8 == 0
  {
    DivModUnique(8 * n, 8, n, 0);
    if n > 0 {
      DivModUnique(8 * n - 8, 8, n - 1, 0);
    }
  }

  /** The bytes of the words in order, each word most significant byte first. */
  function BytesOfWords(ws: seq<Word>): (bs: seq<Byte>)
    ensures |bs| == 8 * |ws|
  {
    if |ws| == 0 then [] else BytesOfWords(ws[..|ws| - 1]) + WordBytes(ws[|ws| - 1])
  }

  /** The words of a byte list whose length is a multiple of 8, eight bytes each. */
  function WordsOfBytes(bs: seq<Byte>): (ws: seq<Word>)
    requires |bs| % 8 == 0
    ensures 8 * |ws| == |bs|
  {
    if |bs| == 0 then [] else WordsOfBytes(bs[..|bs| - 8]) + [WordOf(bs[|bs| - 8..])]
  }

  /** Words to bytes and back. */
  lemma {:induction false} WordsOfBytesOfWords(ws: seq<Word>)
    ensures WordsOfBytes(BytesOfWords(ws)) == ws
  {
    if |ws| > 0 {
      var init, last := ws[..|ws| - 1], ws[|ws| - 1];
      WholeWords(|ws|);
      var bs := BytesOfWords(ws);
      assert bs[..|bs| - 8] == BytesOfWords(init);
      assert bs[|bs| - 8..] == WordBytes(last);
      WordsOfBytesOfWords(init);
      WordOfBytes(last);
    }
  }

  /** Bytes to words and back. */
  lemma {:induction false} BytesOfWordsOfBytes(bs: seq<Byte>)
    requires |bs| % 8 == 0
    ensures BytesOfWords(WordsOfBytes(bs)) == bs
  {
    if |bs| > 0 {
      WholeWords(|bs| / 8);
      var n := |bs| - 8;
      var ws := WordsOfBytes(bs);
      assert ws[..|ws| - 1] == WordsOfBytes(bs[..n]);
      BytesOfWordsOfBytes(bs[..n]);
      BytesOfWord(bs[n..]);
      assert bs == bs[..n] + bs[n..];
    }
  }

  /** One more word of a byte list: the words of a prefix grow by the word of the next eight bytes. */
  lemma WordsOfBytesStep(bs: seq<Byte>, n: nat)
    requires n % 8 == 0 && n + 8 <= |bs|
    ensures WordsOfBytes(bs[..n + 8]) == WordsOfBytes(bs[..n]) + [WordOf(bs[n..n + 8])]
  {
    var p := bs[..n + 8];
    assert p[..n] == bs[..n];
    assert p[n..] == bs[n..n + 8];
  }

  /** The words of the first d*8 bytes end with the word of the last eight of them. */
  lemma PrefixWordsStep(bs: seq<Byte>, d: nat)
    requires 1 <= d && 8 * d <= |bs|
    ensures (8 * d) % 8 == 0 && (8 * d - 8) % 8 == 0
    ensures WordsOfBytes(bs[..8 * d]) == WordsOfBytes(bs[..8 * d - 8]) + [WordOf(bs[8 * d - 8..8 * d])]
  {
    WholeWords(d);
    WordsOfBytesStep(bs, 8 * d - 8);
  }

  /** The characters with the given byte values. */
  function Chars(bs: seq<Byte>): (s: string)
    ensures |s| == |bs| && forall i :: 0 <= i < |bs| ==> s[i] as int == bs[i]
  {
    seq(|bs|, i requires 0 <= i < |bs| => bs[i] as char)
  }

  /** Two words give the bytes of the first, then those of the second. */
  lemma BytesOfTwoWords(a: Word, b: Word)
    ensures BytesOfWords([a, b]) == WordBytes(a) + WordBytes(b)
  {
    assert [a, b][..1] == [a];
    assert [a][..0] == [];
  }

  /** One more byte at the end: the value shifts up by a byte. */
  lemma BigEndianSnoc(p: seq<Byte>, x: Byte, q: seq<Byte>)
    requires q == p + [x]
    ensures BigEndian(q) == BigEndian(p) * 256 + x
  {
    assert q[..|p|] == p;
  }

  /** The value of eight given bytes, by Horner's rule. */
  lemma BigEndianEight(a: Byte, b: Byte, c: Byte, d: Byte, e: Byte, f: Byte, g: Byte, h: Byte)
    ensures BigEndian([a, b, c, d, e, f, g, h]) == ((((((a * 256 + b) * 256 + c) * 256 + d) * 256 + e) * 256 + f) * 256 + g) * 256 + h
  {
    BigEndianSnoc([], a, [a]);
    BigEndianSnoc([a], b, [a, b]);
    BigEndianSnoc([a, b], c, [a, b, c]);
    BigEndianSnoc([a, b, c], d, [a, b, c, d]);
    BigEndianSnoc([a, b, c, d], e, [a, b, c, d, e]);
    BigEndianSnoc([a, b, c, d, e], f, [a, b, c, d, e, f]);
    BigEndianSnoc([a, b, c, d, e, f], g, [a, b, c, d, e, f, g]);
    BigEndianSnoc([a, b, c, d, e, f, g], h, [a, b, c, d, e, f, g, h]);
  }
}
