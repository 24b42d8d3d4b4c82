/** Big-endian words, as the index and the commit-graph files store them. */
module Words {
  import opened Common

  type u16 = x: int | 0 <= x < 0x1_0000
  type u32 = x: int | 0 <= x < 0x1_0000_0000

  /** `u32::to_be_bytes`. */
  function U32(v: u32): (s: Bytes)
    ensures |s| == 4
  {
    [v / 0x100_0000, v / 0x1_0000 % 0x100, v / 0x100 % 0x100, v % 0x100]
  }

  function U16(v: u16): (s: Bytes)
    ensures |s| == 2
  {
    [v / 0x100, v % 0x100]
  }

  /** The bytes are the digits to the base 256, the most significant one first. */
  lemma {:induction false} WordDigits(v: u32, h: u16)
    ensures var s := U32(v); s[0] as int * 16777216 + s[1] as int * 65536 + s[2] as int * 256 + s[3] as int == v
    ensures var s := U16(h); s[0] as int * 256 + s[1] as int == h
  {
    assert v / 0x1_0000 == v / 0x100_0000 * 0x100 + v / 0x1_0000 % 0x100;
    assert v / 0x100 == v / 0x1_0000 * 0x100 + v / 0x100 % 0x100;
  }

  function ReadU32(bytes: Bytes, at: nat): (v: u32)
    requires at + 4 <= |bytes|
  {
    bytes[at] as int * 0x100_0000 + bytes[at + 1] as int * 0x1_0000 + bytes[at + 2] as int * 0x100
        + bytes[at + 3] as int
  }

  function ReadU16(bytes: Bytes, at: nat): (v: u16)
    requires at + 2 <= |bytes|
  {
    bytes[at] as int * 0x100 + bytes[at + 1] as int
  }

  lemma {:induction false} ReadOfU32(v: u32, before: Bytes, after: Bytes)
    ensures ReadU32(before + U32(v) + after, |before|) == v
  {
    var s, n := before + U32(v) + after, |before|;
    assert s[n] == U32(v)[0] && s[n + 1] == U32(v)[1] && s[n + 2] == U32(v)[2] && s[n + 3] == U32(v)[3];
    assert v / 0x1_0000 == v / 0x100_0000 * 0x100 + v / 0x1_0000 % 0x100;
    assert v / 0x100 == v / 0x1_0000 * 0x100 + v / 0x100 % 0x100;
  }

  lemma {:induction false} ReadOfU16(v: u16, before: Bytes, after: Bytes)
    ensures ReadU16(before + U16(v) + after, |before|) == v
  {
    var s, n := before + U16(v) + after, |before|;
    assert s[n] == U16(v)[0] && s[n + 1] == U16(v)[1];
  }

  function WordsText(ws: seq<u32>): (s: Bytes)
    ensures |s| == 4 * |ws|
  {
    if ws == [] then [] else WordsText(ws[..|ws| - 1]) + U32(ws[|ws| - 1])
  }

  lemma {:induction false} WordsSnoc(ws: seq<u32>, w: u32)
    ensures WordsText(ws + [w]) == WordsText(ws) + U32(w)
  {
    assert (ws + [w])[..|ws|] == ws;
  }

  /** Every word can be read where it was written. */
  lemma {:induction false} ReadOfWords(ws: seq<u32>, after: Bytes, i: nat)
    requires i < |ws|
    ensures ReadU32(WordsText(ws) + after, 4 * i) == ws[i]
  {
    hide U32, ReadU32;
    var n := |ws| - 1;
    var before := WordsText(ws[..n]);
    if i == n {
      ReadOfU32(ws[n], before, after);
    } else {
      ReadOfWords(ws[..n], U32(ws[n]) + after, i);
      assert WordsText(ws) + after == before + (U32(ws[n]) + after);
    }
  }
}
