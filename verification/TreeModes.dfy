/** Modes in tree objects are the octal numbers of the index modes, and a tree object is determined by its entries. */
module TreeModes {
  import opened Common
  import opened Objects
  import opened TreeCodec
  import Index
  import opened ResolveUndo

  /** The file type and permission bits of an entry: 100644, 100755, 120000, 40000 and 160000 in octal. */
  function ModeNumber(mode: TreeMode): nat
  {
    match mode
    case File => 8 * 8 * 8 * 8 * 8 + 6 * 64 + 4 * 8 + 4
    case Executable => 8 * 8 * 8 * 8 * 8 + 7 * 64 + 5 * 8 + 5
    case Symlink => 8 * 8 * 8 * 8 * 8 + 2 * (8 * 8 * 8 * 8)
    case Tree => 4 * (8 * 8 * 8 * 8)
    case Gitlink => 8 * 8 * 8 * 8 * 8 + 6 * (8 * 8 * 8 * 8)
  }

  /** The text of a mode is its number in octal, and for all but sub-trees the number is that of the index mode. */
  lemma {:induction false} ModeTextMeans(mode: TreeMode)
    ensures ModeBytes(mode) == Octal(ModeNumber(mode)) && OctalValue(ModeBytes(mode)) == ModeNumber(mode)
    ensures mode != TreeMode.Tree ==> Index.FromTreeMode(mode).value.Bits() == ModeNumber(mode)
  {
    hide Octal;
    OctalValueOf(ModeNumber(mode));
    match mode {
      case File => SixDigits(1, 0, 0, 6, 4, 4);
      case Executable => SixDigits(1, 0, 0, 7, 5, 5);
      case Symlink => SixDigits(1, 2, 0, 0, 0, 0);
      case Gitlink => SixDigits(1, 6, 0, 0, 0, 0);
      case Tree =>
        OneDigit(4, 0);
        OneDigit(32, 0);
        OneDigit(256, 0);
        OneDigit(2048, 0);
    }
  }

  lemma {:induction false} OneDigit(n: nat, d: nat)
    requires n >= 1 && d < 8
    ensures Octal(n * 8 + d) == Octal(n) + [48 + d]
    ensures n < 8 ==> Octal(n) == [48 + n]
  {
    assert (n * 8 + d) / 8 == n && (n * 8 + d) % 8 == d;
  }

  lemma {:induction false} SixDigits(a: nat, b: nat, c: nat, d: nat, e: nat, f: nat)
    requires 1 <= a < 8 && b < 8 && c < 8 && d < 8 && e < 8 && f < 8
    ensures Octal(a * 32768 + b * 4096 + c * 512 + d * 64 + e * 8 + f)
            == [48 + a, 48 + b, 48 + c, 48 + d, 48 + e, 48 + f]
  {
    hide Octal;
    OneDigit(a, b);
    OneDigit(a * 8 + b, c);
    OneDigit(a * 64 + b * 8 + c, d);
    OneDigit(a * 512 + b * 64 + c * 8 + d, e);
    OneDigit(a * 4096 + b * 512 + c * 64 + d * 8 + e, f);
  }

  /** An encoded entry spells its mode, its name and its id. */
  lemma {:induction false} EncodedEntryMeans(e: TreeEntry)
    ensures EncodeEntry(e) == Octal(ModeNumber(e.mode)) + [32] + e.name + [0] + e.id.digest
  {
    ModeTextMeans(e.mode);
  }

  /** A decoded entry is the one whose mode in octal, name and id stand there. */
  lemma {:induction false} DecodedEntryMeans(algorithm: HashAlgorithm, bytes: Bytes)
    requires ParseEntry(algorithm, bytes).Ok?
    ensures var (e, n) := ParseEntry(algorithm, bytes).value;
            bytes[..n] == Octal(ModeNumber(e.mode)) + [32] + e.name + [0] + e.id.digest
  {
    hide Octal, ModeNumber, ModeBytes;
    var (e, n) := ParseEntry(algorithm, bytes).value;
    var k := IndexOf(bytes, SPACE);
    ParsedMode(bytes[..k]);
    ModeTextMeans(e.mode);
    var m := k + 1 + |e.name|;
    assert bytes[k] == SPACE && bytes[m] == NUL;
    assert bytes[..n] == bytes[..k] + [SPACE] + bytes[k + 1..m] + [NUL] + bytes[m + 1..n];
  }

  lemma {:induction false} ParsedMode(text: Bytes)
    ensures TreeCodec.ParseMode(text).Some? ==> text == ModeBytes(TreeCodec.ParseMode(text).value)
  {
  }

  /** Nothing of a tree object is lost in decoding: encoding its entries gives the same bytes. */
  lemma {:induction false} EncodeDecoded(algorithm: HashAlgorithm, bytes: Bytes)
    requires DecodeEntries(algorithm, bytes).Ok?
    ensures EncodeEntries(DecodeEntries(algorithm, bytes).value) == bytes
    decreases |bytes|
  {
    hide ParseEntry, EncodeEntry;
    if bytes != [] {
      var (e, n) := ParseEntry(algorithm, bytes).value;
      var rest := DecodeEntries(algorithm, bytes[n..]).value;
      EncodeDecoded(algorithm, bytes[n..]);
      DecodedEntryMeans(algorithm, bytes);
      EncodedEntryMeans(e);
      assert ([e] + rest)[1..] == rest && bytes == bytes[..n] + bytes[n..];
    }
  }
}
