/**
 * The two character bridges together: words written through a CharUnpacker
 * and the characters read back through a CharPacker.
 */
module CharBridges {
  import opened PackWord
  import opened ByteOrder
  import opened CharPacking
  import opened CharUnpacking

  /** Any words through an unpacker to characters, and those characters through a packer: the same words. */
  method Bridge(ws: seq<Word>) returns (s: seq<Byte>, v: seq<Word>)
    ensures s == BytesOfWords(ws) && v == ws
  {
    s := UnpackChars(ws);
    v := PackChars(s);
    WordsOfBytesOfWords(ws);
  }

  /** Two words through the bridges: their bytes, most significant first, and the words again. */
  method BridgeTwo(x: Word, y: Word) returns (s: seq<Byte>, v: seq<Word>)
    ensures s == WordBytes(x) + WordBytes(y) && v == [x, y]
  {
    s, v := Bridge([x, y]);
    BytesOfTwoWords(x, y);
  }

  /** The words 0x7475646F636F6D70 and 0x3D617765736F6D65 are the characters "tudocomp=awesome", and back. */
  method CharPackingExample() returns (s: seq<Byte>, v: seq<Word>)
    ensures Chars(s) == "tudocomp=awesome"
    ensures v == [0x7475_646F_636F_6D70, 0x3D61_7765_736F_6D65]
  {
    s, v := BridgeTwo(0x7475_646F_636F_6D70, 0x3D61_7765_736F_6D65);
    FirstWordBytes();
    SecondWordBytes();
    ExampleChars(s);
  }

  lemma FirstWordBytes()
    ensures WordBytes(0x7475_646F_636F_6D70) == [0x74, 0x75, 0x64, 0x6F, 0x63, 0x6F, 0x6D, 0x70]
  {
    BigEndianEight(0x74, 0x75, 0x64, 0x6F, 0x63, 0x6F, 0x6D, 0x70);
    BytesOfWord([0x74, 0x75, 0x64, 0x6F, 0x63, 0x6F, 0x6D, 0x70]);
  }

  lemma SecondWordBytes()
    ensures WordBytes(0x3D61_7765_736F_6D65) == [0x3D, 0x61, 0x77, 0x65, 0x73, 0x6F, 0x6D, 0x65]
  {
    BigEndianEight(0x3D, 0x61, 0x77, 0x65, 0x73, 0x6F, 0x6D, 0x65);
    BytesOfWord([0x3D, 0x61, 0x77, 0x65, 0x73, 0x6F, 0x6D, 0x65]);
  }

  lemma ExampleChars(bs: seq<Byte>)
    requires bs == [0x74, 0x75, 0x64, 0x6F, 0x63, 0x6F, 0x6D, 0x70, 0x3D, 0x61, 0x77, 0x65, 0x73, 0x6F, 0x6D, 0x65]
    ensures Chars(bs) == "tudocomp=awesome"
  {
  }
}
