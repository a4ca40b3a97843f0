# iopp bitwise codec, character bridges and overlapping blocks in Dafny

This project models the core of pdinklag/iopp, a C++ header library for
buffered I/O, and proves properties of the model.

## The codec

The core is a bitwise codec made of two classes:

- **BitPacker** packs bits into 64-bit pack words, least significant bit first.
- **BitUnpacker** reads the bits back.

When a packer is closed it appends an end-of-stream *finalizer*. The finalizer
records how many bits of the last payload word are valid, so a bounded
unpacker knows exactly where the stream ends.

## The bridges and the block reader

- **CharPacker** turns characters into pack words, eight characters per word.
  The first character becomes the most significant byte.
- **CharUnpacker** turns pack words back into characters in the same order.
- **OverlappingBlocks** reads a character stream block by block into one
  buffer. The first `overlap` cells of the buffer keep the tail of the
  previous block, reachable through negative indexes.

## How the model is organised

- `pow2.dfy` (Pow2Arith), `bit_seq.dfy` (BitSeq) and `pack_word.dfy` (PackWord)
  are the arithmetic. Words are naturals below 2^64, and C++ shifts,
  wrap-around subtraction, `&` and `|` are written out. Bit lists are
  `seq<bool>`, least significant bit first.
- `bits.dfy` (Bits): `set_bit`, `low_mask` and `extract_low`.
- `wire_format.dfy` (WireFormat) holds the stream format:
  - `Encode(s, finalize)` is the word list a closed packer emits for the bit
    stream `s`;
  - `Decode(ws)` is the bit list a bounded unpacker delivers before `eof()`;
  - both finalizer functions are modelled;
  - the central theorem is `Decode(Encode(s, true)) == s`.
- `bit_packer.dfy` (BitPacking) models the packer as a class with the source's
  fields. A ghost `Stream` tracks the bits laid down so far, and `Close` is
  proved to emit `Encode(Stream, finalize)`.
- `bit_unpacker.dfy` (BitUnpacking) models the unpacker as a class with the
  source's fields, over a word list with an index. A ghost position `Pos`
  tracks how far into `Decode(words)` the reads have got.
- `codec_round_trip.dfy` (CodecRoundTrip): writing fields and reading them
  back gives each field's value, with `eof()` exact.
- `byte_order.dfy` (ByteOrder), `char_packer.dfy` (CharPacking),
  `char_unpacker.dfy` (CharUnpacking) and `char_bridges.dfy` (CharBridges)
  model the character bridges:
  - a character is its byte value;
  - a word's bytes are listed most significant first.
- `overlapping_blocks.dfy` (Blocks) models the block reader:
  - the stream is a `CharStream` class holding a character list and a read
    position;
  - the block reader is a class over a `char` array.

## Where the code departs from the prose description of the format

The wire format is sometimes described as follows:

- the finalizer sits in the top F = 6 bits of a word;
- it always takes an extra word after the payload.

The model follows the code, include/iopp/util/bit_packer.hpp:58-64 and
include/iopp/util/bit_packer.hpp:95-106, which differs in two ways:

- the finalizer is shifted by FINALIZER_LSH = PAYLOAD_BITS - 1 = 57, so it
  occupies bits 57 to 63;
- it shares the last payload word whenever fewer than PAYLOAD_BITS = 58
  payload bits are left in it.

A cursor of 0 encodes as 127 * 2^57. The unpacker reads the top seven bits,
adds one, takes the result modulo 64 and reads 0 as 64, so any low bits that
share the word are ignored. The code and the test scenarios (57 bits in one word, 58 and 64
bits in two) agree with each other.

## Model

| member | source | states |
|---|---|---|
| Bits.SetBit | include/iopp/util/bits.hpp:42-44 | set_bit(i) is 2^i for every i below 64; i of 64 or more is excluded |
| Bits.SetBitOnlyBit | include/iopp/util/bits.hpp:42-44 | the 64 bits of set_bit(i) are all clear except bit i |
| Bits.LowMask | include/iopp/util/bits.hpp:52-54 | low_mask(n) is 2^n - 1 for every n in 1..64, all ones at 64 although the mask is built by two shifts |
| Bits.ShlAllOnes | include/iopp/util/bits.hpp:52-54 | shifting all ones left by m < 64 clears exactly the m low bits |
| Bits.ShlTopGap | include/iopp/util/bits.hpp:52-54 | the second shift, by one, clears exactly one more low bit, which is what makes n = 64 work |
| Bits.ExtractLow | include/iopp/util/bits.hpp:63-66 | extract_low(v, n) is v mod 2^n, hence below 2^n |
| Bits.ExtractLowAll | include/iopp/util/bits.hpp:63-66 | low_mask(64) is PACK_WORD_MAX and extract_low(v, 64) is v |
| Bits.ExtractLowIdempotent | include/iopp/util/bits.hpp:63-66 | extracting the n low bits twice is extracting them once |
| Bits.OrShifted | include/iopp/util/bit_packer.hpp:140 | OR-ing e << i into an accumulator below 2^i adds e * 2^i, without overflow when the field fits |
| Bits.PlaceBits | include/iopp/util/bit_packer.hpp:150 | `pack \| extract_low(b, n) << i` lists the i bits of pack followed by the n low bits of b, and stays below 2^(i+n) |
| Bits.OrField | include/iopp/util/bit_packer.hpp:150-151 | the word after placing a field: below 2^(j+k), its bits the old j bits followed by the k low bits of v |
| Bits.TestBit | include/iopp/util/bit_unpacker.hpp:137 | `pack & set_bit(i)` is non-zero exactly when bit i of pack is set |
| PackWord.Pow2W | include/iopp/util/pack_word.hpp:42-48 | 2^PACK_WORD_BITS is PACK_WORD_MAX + 1 |
| PackWord.AndLowMask | include/iopp/util/bits.hpp:63-66 | AND with 2^n - 1 is the remainder modulo 2^n |
| PackWord.AndBitsSingle | include/iopp/util/bit_unpacker.hpp:137 | AND with 2^i is non-zero exactly when bit i is set |
| PackWord.OrDisjoint | include/iopp/util/bit_packer.hpp:140 | OR of a value below 2^k and a multiple of 2^k that fits the word is their sum |
| PackWord.ShlFits | include/iopp/util/bit_packer.hpp:140 | a left shift that loses no bits is multiplication by 2^k |
| PackWord.ChunksUnpacked | include/iopp/util/bit_packer.hpp:163-170 | cutting the bits of emitted words back into words gives the words again |
| PackWord.UnpackedChunks | include/iopp/util/bit_packer.hpp:163-170 | packing whole words of bits and listing the words' bits gives the bits again |
| PackWord.UnpackedAppend | include/iopp/util/bit_packer.hpp:167 | emitting one more word extends the bit list by that word's 64 bits |
| PackWord.ChunksAppend | include/iopp/util/bit_packer.hpp:167 | the words of two whole-word bit lists are the words of each, in order |
| PackWord.UnpackedAt | include/iopp/util/bit_unpacker.hpp:137 | word c occupies bits 64c to 64c+63 of the bit list |
| WireFormat.BitWidth | include/iopp/util/bit_packer.hpp:58 | bit_width(x) is the fewest bits that hold x: x < 2^r, and 2^(r-1) <= x for x > 0 |
| WireFormat.FinalizerBitsWidth | include/iopp/util/bit_packer.hpp:58-60 | FINALIZER_BITS = bit_width(63) = 6, so PAYLOAD_BITS = 58 and FINALIZER_LSH = 57 |
| WireFormat.FinalizerUnit | include/iopp/util/bit_packer.hpp:60 | the finalizer's unit is 2^57, and 128 units make 2^64 |
| WireFormat.EncodeFinalizerValue | include/iopp/util/bit_packer.hpp:62-64 | encode_finalizer(c) is (c - 1) * 2^57 for c >= 1 and, after the wrap of 0 - 1, 127 * 2^57 (bits 57..63 set) for c = 0 |
| WireFormat.DecodeFinalizer | include/iopp/util/bit_unpacker.hpp:55-58 | decode_finalizer returns a value between 1 and W |
| WireFormat.DecodeFinalizerOf | include/iopp/util/bit_unpacker.hpp:55-58 | a word whose bits from 57 up hold m decodes to (m + 1) mod 64, with 0 read as 64, whatever its low bits hold |
| WireFormat.FinalizerRoundTrip | include/iopp/util/bit_unpacker.hpp:55-58 | decode_finalizer inverts encode_finalizer for cursors 1..63 and reads cursor 0 as W |
| WireFormat.DecodeFinalizerSmall | include/iopp/util/bit_unpacker.hpp:55-58 | a word below 2^57 announces a single bit |
| WireFormat.SharedLastWord | include/iopp/util/bit_packer.hpp:95-104 | with fewer than PAYLOAD_BITS bits in the last word, payload and finalizer share it, and decoding recovers both the count and the bits |
| WireFormat.DecodeEncode | test/test.cpp:389-420 | a bounded unpacker over the words of a closed, finalizing packer delivers exactly the bits written |
| WireFormat.DecodeLastWords | include/iopp/util/bit_unpacker.hpp:74-101 | whole words followed by the closing words of a partial word decode to the whole words' bits followed by the partial bits |
| WireFormat.DecodeFinalizerWord | include/iopp/util/bit_unpacker.hpp:90-98 | a finalizer-only word announcing W makes the word before it terminal with all 64 bits valid |
| WireFormat.DecodeSharedWord | include/iopp/util/bit_unpacker.hpp:83-86 | a last word announcing fewer than PAYLOAD_BITS bits is itself terminal and yields its announced bits |
| WireFormat.DecodeSeparateWord | include/iopp/util/bit_unpacker.hpp:90-98 | a last word announcing PAYLOAD_BITS or more is a finalizer-only word, and the word before it is terminal |
| WireFormat.EncodeLength | include/iopp/util/bit_packer.hpp:94-107 | a closed packer emits no words for no bits, otherwise the whole words plus one, plus another when PAYLOAD_BITS or more bits are left over |
| WireFormat.EncodeUnfinalized | include/iopp/util/bit_packer.hpp:94-107 | without finalizer the words are the bits zero-padded to whole words: ceil(n/64) words |
| WireFormat.EncodeAnnounces | include/iopp/util/bit_packer.hpp:95-104 | the last word of a non-empty finalized stream announces n mod 64 bits, or 64 when n is a multiple of 64 |
| WireFormat.DecodeLength | include/iopp/util/bit_unpacker.hpp:74-101 | the decoded stream has 64 bits per word before the terminal one, plus the announced bits |
| WireFormat.DecodeAt | include/iopp/util/bit_unpacker.hpp:135-138 | bits i..i+k of word c, inside the announced part of the terminal word or anywhere in an earlier word, are decoded bits 64c+i onward |
| WireFormat.FinalizerScenarios | test/test.cpp:331-377 | 57 bits close into 1 word announcing 57; 58 bits into 2 words announcing 58; 64 bits into 2 words announcing 64; 64 ones give an all-ones first word |
| WireFormat.FullWordOfOnes | test/test.cpp:369-377 | 64 written ones close into a first word of PACK_WORD_MAX |
| WireFormat.EmptyStream | test/test.cpp:320-329 | an empty stream closes into no words, and no words decode to no bits |
| WireFormat.EncodeSplit | include/iopp/util/bit_packer.hpp:94-107 | the encoding of emitted words followed by a partial word is those words followed by the closing words of the partial word |
| BitPacking.BitPacker.constructor | include/iopp/util/bit_packer.hpp:86-88 | a new packer holds no bits, has emitted nothing, and has counted nothing |
| BitPacking.BitPacker.Reset | include/iopp/util/bit_packer.hpp:74-77 | reset clears the accumulator and cursor and nothing else |
| BitPacking.BitPacker.Flush | include/iopp/util/bit_packer.hpp:163-170 | flush emits the word exactly when the cursor is non-zero, its free bits going out as zeros, then resets; otherwise it changes nothing |
| BitPacking.BitPacker.WriteBit | include/iopp/util/bit_packer.hpp:114-121 | write(bit) appends the bit, counts one bit, and emits a word exactly when it filled one |
| BitPacking.BitPacker.PlaceBit | include/iopp/util/bit_packer.hpp:116 | the branchless OR sets bit i exactly when the bit is true, appending it to the stream |
| BitPacking.BitPacker.Write | include/iopp/util/bit_packer.hpp:132-156 | write(bits, num) appends the num low bits, lowest first, across word boundaries, counts num bits, and leaves the cursor below W |
| BitPacking.BitPacker.FillWord | include/iopp/util/bit_packer.hpp:137-146 | one round of the loop completes and flushes the word; the bits not yet written are the high part of `bits` |
| BitPacking.BitPacker.PlaceRest | include/iopp/util/bit_packer.hpp:149-153 | the remaining bits, if any, join the current word, which is flushed when full |
| BitPacking.BitPacker.Place | include/iopp/util/bit_packer.hpp:150-151 | OR-ing the extracted field at the cursor appends the num low bits to the stream |
| BitPacking.BitPacker.Close | include/iopp/util/bit_packer.hpp:94-107 | the destructor emits exactly the encoding of the stream, with the finalizer when finalizing a non-empty stream, and does not count the finalizer |
| BitPacking.BitPacker.AddFinalizer | include/iopp/util/bit_packer.hpp:96-105 | the finalizer joins the current word, or a fresh word after a flush when the cursor is at PAYLOAD_BITS or beyond, and the word is marked full |
| BitPacking.BitPacker.SealAlone | include/iopp/util/bit_packer.hpp:98-104 | when the cursor is at PAYLOAD_BITS or beyond, the current word is flushed first and the finalizer alone fills the next word, which is marked full |
| BitPacking.BitPacker.Seal | include/iopp/util/bit_packer.hpp:103-104 | OR-ing the finalizer and setting the cursor to W leaves the emitted words alone |
| BitPacking.BitPacker.PackPos | include/iopp/util/bit_packer.hpp:181 | pack_pos is the stream length modulo W |
| BitPacking.BitPacker.NumBitsWritten | include/iopp/util/bit_packer.hpp:190 | num_bits_written counts the bits passed to write, which is at most the stream length |
| BitPacking.FlushedStream | include/iopp/util/bit_packer.hpp:163-170 | padding the current word with zeros and emitting it keeps the laid-down bits |
| BitPacking.MaskedBit | include/iopp/util/bit_packer.hpp:116 | `set_bit(i) & -bit` is set_bit(i) for a true bit and 0 for a false one |
| BitPacking.WriteBitWord | include/iopp/util/bit_packer.hpp:116 | after write(bit) the word is the old word plus bit * 2^i, and its bits are the old ones followed by the bit |
| BitPacking.CloseWords | include/iopp/util/bit_packer.hpp:94-107 | the words the destructor emits, case by case, are the encoding of the packer's stream |
| BitPacking.PackFields | test/test.cpp:399-409 | writing every field and closing emits the encoding of the fields' bits, and num_bits_written is their total |
| BitPacking.PackSingleBit | test/test.cpp:219-233 | write(bit) then flush emits one word, 1 for a set bit and 0 for a clear one, with one bit written |
| BitPacking.PackFullWordAndBit | test/test.cpp:235-250 | a full-word write emits that word at once; one more bit and a flush emit a word holding just that bit, W + 1 bits written |
| BitPacking.PackPositions | test/test.cpp:252-261 | pack_pos is 0, then 12, then 17, and 17 again after a full-word write, with W + 17 bits written |
| BitUnpacking.BitUnpacker.constructor | include/iopp/util/bit_unpacker.hpp:118-128 | an empty input is final with nothing available; otherwise the first word is taken as look-ahead, and the cursor starts at W |
| BitUnpacking.BitUnpacker.Advance | include/iopp/util/bit_unpacker.hpp:74-101 | advance promotes the look-ahead and decides the terminal word by the finalizer rule, keeping the position in the decoded stream |
| BitUnpacking.BitUnpacker.Good | include/iopp/util/bit_unpacker.hpp:193 | good() holds exactly while the position is inside the decoded stream |
| BitUnpacking.BitUnpacker.Eof | include/iopp/util/bit_unpacker.hpp:209 | eof() is the negation of good(), and holds exactly at the end of the decoded stream |
| BitUnpacking.BitUnpacker.PackPos | include/iopp/util/bit_unpacker.hpp:185 | pack_pos is below W and is the stream position modulo W |
| BitUnpacking.BitUnpacker.Read | include/iopp/util/bit_unpacker.hpp:135-138 | read() returns bit i of the current word after advancing only when i >= W; inside the stream it is the next decoded bit |
| BitUnpacking.BitUnpacker.TakeBit | include/iopp/util/bit_unpacker.hpp:137 | testing bit i and incrementing the cursor delivers the next decoded bit |
| BitUnpacking.BitUnpacker.ReadBits | include/iopp/util/bit_unpacker.hpp:149-174 | read(num) returns a value below 2^num whose bits are the next num decoded bits; a read ending exactly at W leaves the cursor at W |
| BitUnpacking.BitUnpacker.ReadSpan | include/iopp/util/bit_unpacker.hpp:157-171 | the loop gathers the rest of each word low bits first, then the remaining bits of the last word |
| BitUnpacking.BitUnpacker.ReadRestOfWord | include/iopp/util/bit_unpacker.hpp:159-164 | one round of the loop places the rest of the current word above the gathered bits and advances |
| BitUnpacking.BitUnpacker.ReadHere | include/iopp/util/bit_unpacker.hpp:168-171 | the last k bits come from the current word at the cursor and are placed above the gathered bits |
| BitUnpacking.BitUnpacker.InStream | include/iopp/util/bit_unpacker.hpp:193 | `!final_ \|\| i_ < final_avail_` holds exactly while the position is inside the decoded stream |
| BitUnpacking.BitUnpacker.PosInWord | include/iopp/util/bit_unpacker.hpp:185 | the cursor and the stream position agree modulo W |
| BitUnpacking.BitUnpacker.CurrentBits | include/iopp/util/bit_unpacker.hpp:135-138 | the decoded bits from the position on are the current word's bits from the cursor on |
| BitUnpacking.EmptyInput | test/test.cpp:320-329 | an unpacker over no words is at eof() and not good() before any read |
| BitUnpacking.FirstBit | test/test.cpp:268-270 | the first read() returns bit 0 of the first word |
| BitUnpacking.WordThenBits | test/test.cpp:272-276 | read(W) returns the first word, then read() returns bit 0 and then bit 1 of the second |
| BitUnpacking.PackPositions | test/test.cpp:278-285 | pack_pos is 0, then 12 after read(12), then 17 after read(5) |
| BitUnpacking.ReadBitByBit | test/test.cpp:298-304 | reading bit by bit returns the decoded stream; eof() is false before every read and true after the last |
| BitUnpacking.SumWhileGood | test/test.cpp:307-311 | summing read() while good() counts the set bits of the decoded stream |
| CodecRoundTrip.RoundTrip | test/test.cpp:389-420 | every read(n_k) returns v_k mod 2^n_k of the field written; eof() is false before each read and true after the last |
| CodecRoundTrip.BitwiseRoundTrip | include/iopp/bitwise_io.hpp:59-78 | through a CharUnpacker to characters and back through a CharPacker, every field is read back, with exact eof() |
| CodecRoundTrip.ReadFields | test/test.cpp:410-419 | reading the fields back from words that decode to their bits gives each field's value, with exact eof() |
| CodecRoundTrip.ReadField | test/test.cpp:413-417 | one read(n_k) at the start of field k returns its value and moves to the start of field k+1 |
| CodecRoundTrip.FieldValue | test/test.cpp:417 | a value below 2^n with the same n low bits as the written one is the written value mod 2^n |
| CodecRoundTrip.OnesEndToEnd | test/test.cpp:331-387 | n written ones close into 1 word below PAYLOAD_BITS bits and 2 words from it; reading bit by bit and while good() both find exactly n ones |
| ByteOrder.BigEndianOfBytes | include/iopp/util/char_unpacker.hpp:85-102 | reading back the n low bytes of a value, most significant first, gives the value mod 256^n |
| ByteOrder.BytesOfBigEndian | include/iopp/util/char_packer.hpp:66-82 | listing the bytes of a big-endian value gives the bytes back |
| ByteOrder.BytesBEAt | include/iopp/util/char_unpacker.hpp:89-93 | the k-th byte written is byte 7 - k of the word, counted from the least significant |
| ByteOrder.WordOfBytes | include/iopp/util/char_packer.hpp:66-82 | packing the eight bytes of a word gives the word back |
| ByteOrder.BytesOfWord | include/iopp/util/char_unpacker.hpp:85-102 | unpacking the word packed from eight bytes gives the bytes back |
| ByteOrder.WordsOfBytesOfWords | test/test.cpp:193-211 | words to characters and back are the same words |
| ByteOrder.BytesOfWordsOfBytes | test/test.cpp:193-211 | characters, a multiple of eight, to words and back are the same characters |
| CharPacking.CharPacker.constructor | include/iopp/util/char_packer.hpp:97-99 | the constructor reads the first word at once; it is ended exactly for an empty range |
| CharPacking.CharPacker.Ended | include/iopp/util/char_packer.hpp:105 | the default packer is ended |
| CharPacking.CharPacker.Advance | include/iopp/util/char_packer.hpp:66-82 | advance ends exactly at the end of the range and then consumes nothing; otherwise it consumes exactly eight characters, which become the current word's bytes in order |
| CharPacking.CharPacker.Word | include/iopp/util/char_packer.hpp:139 | operator* is the word whose bytes, most significant first, are the eight characters last consumed |
| CharPacking.CharPacker.Equals | include/iopp/util/char_packer.hpp:116-122 | two ended packers are equal, two packers on the same source iterator are equal, and comparing against the default packer is exactly the end test |
| CharPacking.CopyStep | include/iopp/util/char_packer.hpp:146-149 | one round of the copy: the current word is taken and the packer advances, the words taken so far being those of the characters consumed |
| CharPacking.PackChars | test/test.cpp:204-205 | copying from a packer up to the default packer yields the characters' words, eight characters each, most significant first |
| CharUnpacking.CharUnpacker.constructor | include/iopp/util/char_unpacker.hpp:68 | an unpacker wraps its output iterator without writing to it |
| CharUnpacking.CharUnpacker.Set | include/iopp/util/output_iterator_base.hpp:100-102 | assigning through operator* sets the item and writes nothing |
| CharUnpacking.CharUnpacker.Increment | include/iopp/util/char_unpacker.hpp:85-102 | operator++ writes exactly the item's eight bytes, most significant first, and nothing else |
| CharUnpacking.UnpackChars | test/test.cpp:196-200 | writing words through an unpacker yields their bytes, most significant first, in order |
| CharBridges.Bridge | test/test.cpp:193-211 | any words through the unpacker and back through the packer are the same words |
| CharBridges.BridgeTwo | test/test.cpp:193-211 | two words become their sixteen bytes and then the two words again |
| CharBridges.CharPackingExample | test/test.cpp:193-211 | 0x7475646F636F6D70 and 0x3D617765736F6D65 become "tudocomp=awesome", which packs back to exactly those two words |
| CharBridges.FirstWordBytes | test/test.cpp:198 | the bytes of 0x7475646F636F6D70, most significant first |
| CharBridges.SecondWordBytes | test/test.cpp:199 | the bytes of 0x3D617765736F6D65, most significant first |
| CharBridges.ExampleChars | test/test.cpp:201 | those sixteen bytes are the characters "tudocomp=awesome" |
| Blocks.CharStream.Read | include/iopp/util/overlapping_blocks.hpp:65-66 | read followed by gcount copies min(n, remaining) characters to the buffer from the given cell, leaves the other cells alone and reports the count |
| Blocks.CharStream.Get | include/iopp/util/overlapping_blocks.hpp:72 | get consumes and returns the next character, or returns the end-of-file token at the end |
| Blocks.OverlappingBlocks.constructor | include/iopp/util/overlapping_blocks.hpp:88-96 | a processor has a buffer of overlap + block_size cells, no stream, and an empty block at offset 0 |
| Blocks.OverlappingBlocks.WithStream | include/iopp/util/overlapping_blocks.hpp:105-107 | constructing with a stream loads the first block: offset 0, size min(block_size, length) |
| Blocks.OverlappingBlocks.Init | include/iopp/util/overlapping_blocks.hpp:123-134 | init zeroes the overlap region, sets offset 0 and loads the first block from where the stream stands |
| Blocks.OverlappingBlocks.ReadNext | include/iopp/util/overlapping_blocks.hpp:63-73 | the first block takes up to block_size characters; a later one starts with the probed character and takes up to block_size - 1 more; the size is min(block_size, rest) |
| Blocks.OverlappingBlocks.Advance | include/iopp/util/overlapping_blocks.hpp:142-153 | at the last block advance returns false and changes nothing; otherwise the offset moves past the block and a non-empty block is loaded |
| Blocks.OverlappingBlocks.Slide | include/iopp/util/overlapping_blocks.hpp:146-148 | the forward copy moves the last overlap cells before the block's end to the front and leaves the block cells alone |
| Blocks.OverlappingBlocks.At | include/iopp/util/overlapping_blocks.hpp:161 | operator[](i) is the character at offset + i; a negative i reaches into the previous block, or gives 0 before the first |
| Blocks.OverlappingBlocks.Block | include/iopp/util/overlapping_blocks.hpp:163-164 | begin()..end() are the next size() characters of the stream after offset() |
| Blocks.OverlappingBlocks.BlockIsData | include/iopp/util/overlapping_blocks.hpp:163-164 | the block cells of the buffer hold the stream's characters from the offset |
| Blocks.OverlappingBlocks.Size | include/iopp/util/overlapping_blocks.hpp:171 | size() is min(block_size, characters left from the offset) |
| Blocks.OverlappingBlocks.Offset | include/iopp/util/overlapping_blocks.hpp:178 | offset() plus size() stays within the stream, and the offset is inside it unless it is 0 |
| Blocks.OverlappingBlocks.Empty | include/iopp/util/overlapping_blocks.hpp:186 | empty() holds exactly for an empty stream |
| Blocks.OverlappingBlocks.First | include/iopp/util/overlapping_blocks.hpp:194 | at the first block every negative index reads 0 |
| Blocks.OverlappingBlocks.Last | include/iopp/util/overlapping_blocks.hpp:202 | last() holds exactly when the block reaches the end of the stream |
| Blocks.AllBlocks | include/iopp/util/overlapping_blocks.hpp:142-153 | advancing until advance() returns false visits blocks that concatenate to the stream, none longer than block_size and none empty unless the stream is |

## Left out

- File, memory-mapped and standard-input streams and the stream iterators are
  left out, because they are operating-system I/O. Character sources and
  targets are byte lists.
- The output iterator of the packer is the word list `out`. The input range
  of the unpacker is a word list with an index.
- The unbounded BitUnpacker, whose end iterator is never reached, is left
  out. Every unpacker in the model is bounded by its word list.
  - For that reason, BitUnpacking.WordThenBits and BitUnpacking.PackPositions
    state their scenarios over bounded word lists.
  - The pack_pos "full circle" step at test/test.cpp:286 reads from a
    different unpacker than it checks, so no property is taken from it.
- BitUnpacking.BitUnpacker.ReadBits requires 0 < num <= 64, as the source
  asserts num > 0 (include/iopp/util/bit_unpacker.hpp:150).
  - A read with num > 64 is undefined when it starts at cursor 0, and
    likewise when it starts at cursor i in 1..63 with num > 128 - i. In
    both cases `<< j` runs with j >= 64 (lines 160 and 169).
  - The model also excludes the defined calls: cursor i in 1..63 and
    64 < num <= 128 - i. There the source returns the first 64 bits read and
    drops the rest, as line 144 documents.
- BitPacking.BitPacker.Write requires 0 < num <= 64, as the source asserts
  num > 0 (include/iopp/util/bit_packer.hpp:133).
  - A write with num > 64 at cursor 0 is undefined. Its first loop round has
    fit = 64, so `bits >>= fit` at line 144 shifts by 64, despite that
    line's "safe" comment.
  - The model also excludes the defined calls: cursor i in 1..63 and
    64 < num <= 128 - i. There the source writes the 64 bits of `bits`
    followed by num - 64 clear bits, as line 127 documents.
- CharPacking.CharPacker.constructor requires the character range to hold a
  multiple of eight characters. Otherwise `advance` dereferences the source
  iterator past its end.
- BitUnpacking.BitUnpacker.Read promises only the raw bit of the current
  word past eof(). It promises nothing there about the decoded stream.
- BitPacking.BitPacker.Close is an explicit method called once, in place of
  the destructor. Move semantics and RAII are not modelled.
- The host-endianness branches of the character bridges are left out. Only
  the resulting byte order, most significant byte first, is modelled.
- CharPacking.CharPacker.Equals compares source iterators as the pair
  (input, position), which is how the model represents the iterator.
- The postfix operator++ of both bridges returns a DeadEnd or LatentWriter
  proxy. These are left out; the prefix forms are modelled.
- Fields the source leaves uninitialised start at 0 in the model:
  `current_` of a packer built over an empty range, and the item of a
  character unpacker.
- The overlap() getter and the default constructor of OverlappingBlocks are
  left out, because they only return or store constants.
- Blocks.OverlappingBlocks.constructor, Blocks.OverlappingBlocks.WithStream,
  Blocks.OverlappingBlocks.Init (through `Shape()`) and Blocks.AllBlocks
  require block_size > 0.
  - With block_size 0 the source reads an empty first block. The offset then
    stays 0, so `first()` keeps holding.
  - As long as the probe is not the end-of-file token, every `advance()`
    probes again, which silently consumes one character, and then returns
    false.
  - The model leaves out this degenerate processor.
- The stream of OverlappingBlocks is a character list with a read position.
  `read`/`gcount` become "copy up to n and count", and `get` becomes "next
  character or the end-of-file token".
- `bitwise_input_from`/`bitwise_output_to` are modelled by
  CodecRoundTrip.BitwiseRoundTrip, with the stream I/O replaced by the byte
  list. The two-argument `bitwise_input_from` that test/test.cpp:444 calls is
  not defined in include/iopp/bitwise_io.hpp and is not modelled.
- The compile-time concepts in include/iopp/concepts.hpp have no behaviour
  and are not modelled.
