/** Disk blocks as 1024 bytes, read and written as 32-bit little-endian words. */
module Blocks {

  const BLOCK_SIZE: nat := 1024
  const WORDS: nat := 256

  type Byte = x: int | 0 <= x < 256
  type Word = x: int | 0 <= x < 0x1_0000_0000
  type Block = b: seq<Byte> | |b| == BLOCK_SIZE witness seq(BLOCK_SIZE, i => 0)

  /** The device: block number to contents. */
  type Disk = seq<Block>

  function ZeroBlock(): Block {
    seq(BLOCK_SIZE, i => 0)
  }

  function WordBytes(w: Word): (s: seq<Byte>)
    ensures |s| == 4
  {
    [w % 256, w / 256 % 256, w / 65536 % 256, w / 16777216]
  }

  /** `((unsigned int *)buf->data)[i]` */
  function GetWord(b: Block, i: nat): Word
    requires i < WORDS
  {
    var b0: int, b1: int, b2: int, b3: int := b[4 * i], b[4 * i + 1], b[4 * i + 2], b[4 * i + 3];
    b0 + 256 * b1 + 65536 * b2 + 16777216 * b3
  }

  /** `((unsigned int *)buf->data)[i] = w` */
  function PutWord(b: Block, i: nat, w: Word): Block
    requires i < WORDS
  {
    b[..4 * i] + WordBytes(w) + b[4 * i + 4..]
  }

  lemma WordRoundTrip(w: Word)
    ensures w % 256 + 256 * (w / 256 % 256) + 65536 * (w / 65536 % 256) + 16777216 * (w / 16777216) == w
  {
    assert w / 65536 == w / 256 / 256;
    assert w / 16777216 == w / 65536 / 256;
  }

  /** A stored word reads back, and no other word of the block changes. */
  lemma PutGet(b: Block, i: nat, w: Word, j: nat)
    requires i < WORDS && j < WORDS
    ensures GetWord(PutWord(b, i, w), j) == if i == j then w else GetWord(b, j)
  {
    var c := PutWord(b, i, w);
    if i == j {
      assert c[4 * i..4 * i + 4] == WordBytes(w);
      assert c[4 * i] == WordBytes(w)[0] && c[4 * i + 1] == WordBytes(w)[1];
      assert c[4 * i + 2] == WordBytes(w)[2] && c[4 * i + 3] == WordBytes(w)[3];
      WordRoundTrip(w);
    }
  }

  /** The zero block holds only zero words. */
  lemma ZeroWords(i: nat)
    requires i < WORDS
    ensures GetWord(ZeroBlock(), i) == 0
  {
  }
}
