/** Bytes, 16-bit words and the big-endian layout MODBUS uses for them. */
module Bytes {

  type byte = b: int | 0 <= b < 0x100
  type word = w: int | 0 <= w < 0x1_0000

  function Hi(w: word): byte { w / 0x100 }

  function Lo(w: word): byte { w % 0x100 }

  function Word(hi: byte, lo: byte): word { hi * 0x100 + lo }

  /** The registers `ws` on the wire: two bytes each, high byte first. */
  function WordBytes(ws: seq<word>): (bs: seq<byte>)
    ensures |bs| == 2 * |ws|
  {
    seq(2 * |ws|, i requires 0 <= i < 2 * |ws| => if i % 2 == 0 then Hi(ws[i / 2]) else Lo(ws[i / 2]))
  }

  /** The registers that the byte pairs of `bs` hold; a trailing odd byte is dropped. */
  function BytesWords(bs: seq<byte>): (ws: seq<word>)
    ensures |ws| == |bs| / 2
  {
    seq(|bs| / 2, i requires 0 <= i < |bs| / 2 => Word(bs[2 * i], bs[2 * i + 1]))
  }

  lemma WordBytesAppend(ws: seq<word>, w: word)
    ensures WordBytes(ws + [w]) == WordBytes(ws) + [Hi(w), Lo(w)]
  {
    forall i | 0 <= i < 2 * |ws| + 2
      ensures WordBytes(ws + [w])[i] == (WordBytes(ws) + [Hi(w), Lo(w)])[i]
    {
      assert i / 2 < |ws| ==> (ws + [w])[i / 2] == ws[i / 2];
    }
  }

  lemma WordsRoundTrip(ws: seq<word>)
    ensures BytesWords(WordBytes(ws)) == ws
  {
    var back := BytesWords(WordBytes(ws));
    forall i | 0 <= i < |ws|
      ensures back[i] == ws[i]
    {
      assert WordBytes(ws)[2 * i] == Hi(ws[i]) && WordBytes(ws)[2 * i + 1] == Lo(ws[i]);
    }
  }

  /** The byte at `i`, or zero outside `s`. */
  function Peek(s: seq<byte>, i: nat): byte
  {
    if i < |s| then s[i] else 0
  }
}
