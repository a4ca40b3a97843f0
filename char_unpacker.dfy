/**
 * CharUnpacker: an output iterator over pack words that forwards each word
 * to a character output iterator as eight characters, most significant byte
 * first. The target is modelled by the sequence of characters written to it.
 */
module CharUnpacking {
  import opened PackWord
  import opened ByteOrder

  class CharUnpacker {
    /** Everything written through the target iterator so far. */
    var out: seq<Byte>
    /** The item that operator* exposes for assignment. */
    var item: Word

    /** An unpacker forwarding to a target that has received `out` so far; the item starts at 0. */
    constructor(out: seq<Byte>)
      ensures this.out == out && item == 0
    {
      this.out := out;
      item := 0;
    }

    /** `*it = w`: sets the item; nothing is written yet. */
    method Set(w: Word)
      modifies this
      ensures item == w && out == old(out)
    {
      item := w;
    }

    /**
     * operator++: writes the item's eight bytes to the target, reading them
     * from the most significant down, and nothing else.
     */
    method Increment()
      modifies this
      ensures out == old(out) + WordBytes(item) && item == old(item)
    {
      var k := 0;
      while k < 8
        invariant 0 <= k <= 8 && item == old(item)
        invariant out == old(out) + WordBytes(item)[..k]
      {
        BytesBEAt(item, 8, k);
        assert WordBytes(item)[..k + 1] == WordBytes(item)[..k] + [ByteAt(item, 7 - k)];
        out := out + [ByteAt(item, 7 - k)];
        k := k + 1;
      }
    }
  }

  /** Writing each word through an unpacker over an empty target: the words' bytes, most significant first. */
  method UnpackChars(ws: seq<Word>) returns (bs: seq<Byte>)
    ensures bs == BytesOfWords(ws)
  {
    var u := new CharUnpacker([]);
    var k := 0;
    while k < |ws|
      invariant 0 <= k <= |ws| && u.out == BytesOfWords(ws[..k])
    {
      u.Set(ws[k]);
      u.Increment();
      assert ws[..k + 1][..k] == ws[..k];
      k := k + 1;
    }
    assert ws[..k] == ws;
    bs := u.out;
  }
}
