/** Bytes and 32-bit words, and the memory image of a word. */
module Bytes {
  newtype byte = x: int | 0 <= x < 256

  const TWO_TO_THE_32 := 0x1_0000_0000

  /** uint32_t */
  type word = x: int | 0 <= x < TWO_TO_THE_32

  /** The four bytes that a uint32_t occupies when it is copied as memory. */
  function EncodeWord(w: word): (b: seq<byte>)
    ensures |b| == 4
  {
    [(w % 256) as byte, (w / 256 % 256) as byte, (w / 65536 % 256) as byte, (w / 16777216) as byte]
  }

  function DecodeWord(b: seq<byte>): word
    requires |b| == 4
  {
    b[0] as int + 256 * b[1] as int + 65536 * b[2] as int + 16777216 * b[3] as int
  }

  lemma DecodeEncodeWord(w: word)
    ensures DecodeWord(EncodeWord(w)) == w
  {
    assert w == w % 256 + 256 * (w / 256);
    assert w / 256 == w / 256 % 256 + 256 * (w / 65536);
    assert w / 65536 == w / 65536 % 256 + 256 * (w / 16777216);
  }

  /** The memory image of a sequence of words. */
  function EncodeWords(ws: seq<word>): (b: seq<byte>)
    ensures |b| == 4 * |ws|
  {
    if ws == [] then [] else EncodeWord(ws[0]) + EncodeWords(ws[1..])
  }

  lemma {:induction false} EncodeWordsAppend(ws: seq<word>, w: word)
    ensures EncodeWords(ws + [w]) == EncodeWords(ws) + EncodeWord(w)
  {
    if ws == [] {
      assert ws + [w] == [w];
      assert EncodeWords([w]) == EncodeWord(w) + EncodeWords([]);
    } else {
      EncodeWordsAppend(ws[1..], w);
      assert (ws + [w])[1..] == ws[1..] + [w];
    }
  }
}
