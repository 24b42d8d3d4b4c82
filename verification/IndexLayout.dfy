/** Where everything stands in an index file (`index.rs`; gitformat-index(5)). */
module IndexLayout {
  import opened Common
  import opened Objects
  import opened Words
  import opened Index
  import opened IndexEntryCodec
  import opened ResolveUndo
  import opened IndexCodec

  // ---- Entries -----------------------------------------------------------------------------

  /** The fields of an entry with a fixed place. */
  predicate FieldsAt(s: Bytes, e: IndexEntry)
    requires |s| >= 62
  {
    && ReadU32(s, 0) == e.ctimeSeconds && ReadU32(s, 4) == e.ctimeNanoseconds
    && ReadU32(s, 8) == e.mtimeSeconds && ReadU32(s, 12) == e.mtimeNanoseconds
    && ReadU32(s, 16) == e.dev && ReadU32(s, 20) == e.ino && ReadU32(s, 24) == e.mode.Bits()
    && ReadU32(s, 28) == e.uid && ReadU32(s, 32) == e.gid && ReadU32(s, 36) == e.size
    && e.id.algorithm == Sha1 && s[40..60] == e.id.digest
  }

  /** Bits 15 to 0: assume-valid, extended, two of the stage, and the path length or its greatest value. */
  predicate FlagsAt(s: Bytes, e: IndexEntry)
    requires |s| >= 62
  {
    var flags := ReadU16(s, 60);
    && (flags / 0x8000 % 2 == 1 <==> e.assumeValid) && flags / 0x1000 % 4 == e.stage
    && (flags % 0x1000 == 0xfff || flags % 0x1000 == |e.path|)
  }

  /** The extended flags, if bit 14 announces them; without them both are off. */
  predicate ExtendedAt(s: Bytes, e: IndexEntry)
    requires |s| >= 62
  {
    if ReadU16(s, 60) / 0x4000 % 2 == 1 then
      |s| >= 64 && (ReadU16(s, 62) / 0x4000 % 2 == 1 <==> e.skipWorktree)
      && (ReadU16(s, 62) / 0x2000 % 2 == 1 <==> e.intentToAdd)
    else !e.skipWorktree && !e.intentToAdd
  }

  function PathAt(s: Bytes): nat
    requires |s| >= 62
  {
    if ReadU16(s, 60) / 0x4000 % 2 == 1 then 64 else 62
  }

  /** The entry stands at the front of `s` and takes `n` bytes: one to eight behind the path, the first of them zero. */
  predicate EntryAt(s: Bytes, e: IndexEntry, n: nat)
  {
    && |s| >= 62 && FieldsAt(s, e) && FlagsAt(s, e) && ExtendedAt(s, e)
    && var end := PathAt(s) + |e.path|;
       && end < |s| && s[PathAt(s)..end] == e.path && s[end] == 0 && ValidIndexPath(e.path)
       && end < n <= end + 8 && n % 8 == 0 && n <= |s|
  }

  /** The decoder accepts exactly what is laid out like that, and then gives that entry. */
  lemma {:induction false} DecodedEntry(s: Bytes, e: IndexEntry, n: nat)
    ensures ParseEntry(s) == Ok((e, n)) <==> EntryAt(s, e, n)
  {
    hide ReadU32, ReadU16, ValidIndexPath, IndexOf, IndexMode.Bits;
    if ParseEntry(s) == Ok((e, n)) { DecodedIsAt(s, e, n); }
    if EntryAt(s, e, n) { AtIsDecoded(s, e, n); }
  }

  lemma {:induction false} DecodedIsAt(s: Bytes, e: IndexEntry, n: nat)
    requires ParseEntry(s) == Ok((e, n))
    ensures EntryAt(s, e, n)
  {
    hide ReadU32, ReadU16, ValidIndexPath, IndexMode.Bits;
    var flags := ReadU16(s, 60);
    var at := PathAt(s);
    assert HasBit(flags, 0x4000) <==> flags / 0x4000 % 2 == 1;
    assert HasBit(0, 0x4000) == HasBit(0, 0x2000) == false;
    var len := IndexOf(s[at..], NUL);
    assert e.path == s[at..at + len] && s[at + len] == s[at..][len] == NUL;
    var unpadded := at + len + 1;
    assert n == unpadded + Padding(unpadded);
  }

  lemma {:induction false} AtIsDecoded(s: Bytes, e: IndexEntry, n: nat)
    requires EntryAt(s, e, n)
    ensures ParseEntry(s) == Ok((e, n))
  {
    hide ReadU32, ReadU16, ValidIndexPath, IndexMode.Bits, IndexOf, Padding;
    var at, flags := PathAt(s), ReadU16(s, 60);
    var end := at + |e.path|;
    assert NUL !in e.path by { ValidHasNoNul(e.path); }
    assert s[at..] == e.path + [NUL] + s[end + 1..];
    IndexOfFirst(e.path, NUL, s[end + 1..]);
    assert s[at..at + |e.path|] == e.path;
    PaddingIs(end + 1, n);
    var extra := if HasBit(flags, 0x4000) then ReadU16(s, 62) else 0;
    assert HasBit(flags, 0x4000) <==> flags / 0x4000 % 2 == 1;
    assert !HasBit(0, 0x4000) && !HasBit(0, 0x2000);
    assert ModeFromBits(ReadU32(s, 24)) == Ok(e.mode);
    assert FixedFields(s, e.path, e.mode, flags, extra) == e;
  }

  lemma {:induction false} ValidHasNoNul(path: Bytes)
    requires ValidIndexPath(path)
    ensures NUL !in path
  {
  }

  lemma {:induction false} PaddingIs(unpadded: nat, n: nat)
    requires unpadded <= n < unpadded + 8 && n % 8 == 0
    ensures unpadded + Padding(unpadded) == n
  {
  }

  /**
   * What the encoder lays out for an entry: its fields, the extended flags only if one of them is set, the path
   * length up to its greatest value, no other flag bits, and zeros behind the path.
   */
  lemma {:induction false} EncodedEntry(e: IndexEntry)
    requires ValidIndexEntry(e) && e.id.algorithm == Sha1
    ensures var s := EntryText(e);
            && EntryAt(s, e, |s|) && ReadU16(s, 60) % 0x1000 == (if |e.path| < 0xfff then |e.path| else 0xfff)
            && (ReadU16(s, 60) / 0x4000 % 2 == 1 <==> e.skipWorktree || e.intentToAdd)
            && (e.skipWorktree || e.intentToAdd ==> ReadU16(s, 62) / 0x8000 == 0 && ReadU16(s, 62) % 0x2000 == 0)
            && forall i :: PathAt(s) + |e.path| <= i < |s| ==> s[i] == 0
  {
    hide ReadU32, ReadU16, ValidIndexPath, IndexMode.Bits, ParseEntry, EntryAt, WordsText, EntryWords, FlagText, Flags,
         ExtendedFlags, Padding;
    EntryRoundTrip(e, []);
    var s := EntryText(e);
    assert s + [] == s;
    DecodedEntry(s, e, |s|);
    var head := WordsText(EntryWords(e)) + e.id.digest + FlagText(e);
    var after := e.path + [NUL] + Zeros(Padding(|UnpaddedEntry(e)|));
    assert s == head + after;
    FixedReadBack(e, after);
    FlagsReadBack(e);
    TwoFlags(e);
    assert |head| == PathAt(s);
  }

  lemma {:induction false} TwoFlags(e: IndexEntry)
    ensures ExtendedFlags(e) / 0x8000 == 0 && ExtendedFlags(e) % 0x2000 == 0
  {
  }

  // ---- Extensions --------------------------------------------------------------------------

  /** An extension: four bytes of signature, the length of the body, and the body. */
  datatype Chunk = Chunk(signature: Bytes, body: Bytes)

  predicate ChunksFit(chunks: seq<Chunk>)
  {
    forall i :: 0 <= i < |chunks| ==> |chunks[i].signature| == 4 && |chunks[i].body| < 0x1_0000_0000
  }

  function ChunksText(chunks: seq<Chunk>): Bytes
    requires ChunksFit(chunks)
  {
    if chunks == [] then []
    else chunks[0].signature + U32(|chunks[0].body|) + chunks[0].body + ChunksText(chunks[1..])
  }

  /** A signature with a small letter: the extension must be understood. */
  predicate IsRequired(chunk: Chunk)
  {
    exists i :: 0 <= i < |chunk.signature| && 97 <= chunk.signature[i] <= 122
  }

  /**
   * What the extensions say: the last one called `REUC` counts, required ones are refused, all others are passed
   * over.
   */
  function ChunksMean(chunks: seq<Chunk>, undo: seq<ResolveUndoEntry>): Result<seq<ResolveUndoEntry>>
  {
    if chunks == [] then Ok(undo)
    else if IsRequired(chunks[0]) then Err(InvalidData)
    else if chunks[0].signature != [82, 69, 85, 67] then ChunksMean(chunks[1..], undo)
    else
      var parsed := ParseUndo(chunks[0].body);
      if parsed.Err? then parsed else ChunksMean(chunks[1..], parsed.value)
  }

  lemma {:induction false} DecodedExtensions(chunks: seq<Chunk>, undo: seq<ResolveUndoEntry>)
    requires ChunksFit(chunks)
    ensures ParseExtensions(ChunksText(chunks), undo) == ChunksMean(chunks, undo)
    decreases chunks
  {
    hide ParseUndo, U32, ReadU32;
    if chunks != [] {
      var c, rest := chunks[0], ChunksText(chunks[1..]);
      var s := ChunksText(chunks);
      ReadOfU32(|c.body|, c.signature, c.body + rest);
      assert s == c.signature + U32(|c.body|) + (c.body + rest);
      assert s[..4] == c.signature;
      assert s[8..8 + |c.body|] == c.body && s[8 + |c.body|..] == rest;
      DecodedExtensions(chunks[1..], undo);
      var parsed := ParseUndo(c.body);
      if parsed.Ok? { DecodedExtensions(chunks[1..], parsed.value); }
    }
  }

  /** An extension that is neither required nor called `REUC` may stand anywhere, and changes nothing. */
  lemma {:induction false} UnknownChunkIgnored(chunks: seq<Chunk>, k: nat, c: Chunk, undo: seq<ResolveUndoEntry>)
    requires k <= |chunks| && !IsRequired(c) && c.signature != [82, 69, 85, 67]
    ensures ChunksMean(chunks[..k] + [c] + chunks[k..], undo) == ChunksMean(chunks, undo)
    decreases k
  {
    hide ParseUndo, IsRequired;
    var more := chunks[..k] + [c] + chunks[k..];
    if k == 0 {
      assert more == [c] + chunks && more[1..] == chunks;
    } else {
      assert more[0] == chunks[0] && more[1..] == chunks[1..][..k - 1] + [c] + chunks[1..][k - 1..];
      UnknownChunkIgnored(chunks[1..], k - 1, c, undo);
      var parsed := ParseUndo(chunks[0].body);
      if parsed.Ok? { UnknownChunkIgnored(chunks[1..], k - 1, c, parsed.value); }
    }
  }

  // ---- The file ----------------------------------------------------------------------------

  /** Entries one after the other, from `s` on, taking `n` bytes in all. */
  predicate EntriesAt(s: Bytes, entries: seq<IndexEntry>, sizes: seq<nat>, n: nat)
    decreases entries
  {
    && |sizes| == |entries|
    && if entries == [] then n == 0
       else
         && EntryAt(s, entries[0], sizes[0]) && sizes[0] <= n && sizes[0] <= |s|
         && EntriesAt(s[sizes[0]..], entries[1..], sizes[1..], n - sizes[0])
  }

  lemma {:induction false} DecodedEntries(s: Bytes, entries: seq<IndexEntry>, sizes: seq<nat>, n: nat)
    requires EntriesAt(s, entries, sizes, n)
    ensures ParseEntries(s, |entries|) == Ok((entries, n))
    decreases entries
  {
    hide ParseEntry, EntryAt;
    if entries != [] {
      DecodedEntry(s, entries[0], sizes[0]);
      DecodedEntries(s[sizes[0]..], entries[1..], sizes[1..], n - sizes[0]);
      assert entries == [entries[0]] + entries[1..];
    }
  }

  /**
   * A file is read as an index if it has the header `DIRC`, version 2 or 3 and the number of entries, then these
   * entries one after the other, then extensions, and the checksum of all that; and if the entries are in order.
   */
  lemma {:induction false} DecodedFile(sha1: Sha1Sum, version: u32, entries: seq<IndexEntry>, sizes: seq<nat>,
                                       text: Bytes, chunks: seq<Chunk>)
    requires (version == 2 || version == 3) && |entries| < 0x1_0000_0000 && ChunksFit(chunks)
    requires EntriesAt(text + ChunksText(chunks), entries, sizes, |text|)
    ensures var content := [68, 73, 82, 67] + U32(version) + U32(|entries|) + text + ChunksText(chunks);
            IndexOfFile(sha1, content + sha1(content))
            == var undo := ChunksMean(chunks, []);
               if undo.Err? then Err(undo.error) else Checked(entries, undo.value)
  {
    hide U32, ReadU32, ParseEntries, ParseExtensions, ChunksText, EntriesAt, Checked, ChunksMean;
    var tail := text + ChunksText(chunks);
    var content := [68, 73, 82, 67] + U32(version) + U32(|entries|) + text + ChunksText(chunks);
    var file := content + sha1(content);
    assert content == [68, 73, 82, 67] + U32(version) + (U32(|entries|) + tail);
    ReadOfU32(version, [68, 73, 82, 67], U32(|entries|) + tail);
    assert content == ([68, 73, 82, 67] + U32(version)) + U32(|entries|) + tail;
    ReadOfU32(|entries|, [68, 73, 82, 67] + U32(version), tail);
    assert content[..4] == SIGNATURE && content[12..] == tail;
    DecodedEntries(tail, entries, sizes, |text|);
    assert content[12 + |text|..] == ChunksText(chunks);
    DecodedExtensions(chunks, []);
    assert file[..|file| - 20] == content && file[|file| - 20..] == sha1(content);
  }

  /** Nothing is read as an index without that header and the right checksum at its end. */
  lemma {:induction false} FileIsChecked(sha1: Sha1Sum, bytes: Bytes)
    requires IndexOfFile(sha1, bytes).Ok?
    ensures |bytes| >= 32 && bytes[..4] == [68, 73, 82, 67] && sha1(bytes[..|bytes| - 20]) == bytes[|bytes| - 20..]
    ensures ReadU32(bytes, 4) == 2 || ReadU32(bytes, 4) == 3
    ensures ReadU32(bytes, 8) == |IndexOfFile(sha1, bytes).value.entries|
  {
    hide ReadU32, ParseEntries, ParseExtensions;
    HeaderWords(bytes, |bytes| - 20);
    assert bytes[..|bytes| - 20][..4] == bytes[..4];
  }

  /** One entry behind the other. */
  ghost predicate EntriesWritten(text: Bytes, entries: seq<IndexEntry>)
    decreases entries
  {
    if entries == [] then text == []
    else exists n :: 0 <= n <= |text| && EntryAt(text[..n], entries[0], n) && EntriesWritten(text[n..], entries[1..])
  }

  lemma {:induction false} WrittenEntries(entries: seq<IndexEntry>)
    requires ValidIndexEntries(entries) && AllSha1(entries)
    ensures EntriesWritten(EntriesText(entries), entries)
  {
    hide EntryText, EntryAt, ValidIndexPath;
    if entries != [] {
      EncodedEntry(entries[0]);
      var text, n := EntriesText(entries), |EntryText(entries[0])|;
      assert text[..n] == EntryText(entries[0]) && text[n..] == EntriesText(entries[1..]);
      WrittenEntries(entries[1..]);
    }
  }

  /**
   * What an index file holds in front of the checksum: `DIRC`, the version (3 if some entry has extended flags, else
   * 2), the number of entries, the entries and, unless there is nothing to undo, the extension `REUC`.
   */
  lemma {:induction false} ContentMeans(index: IndexData)
    requires Encodable(index) && AllSha1(index.entries)
    ensures exists text ::
              && EntriesWritten(text, index.entries)
              && Content(index)
                 == [68, 73, 82, 67]
                    + U32(if exists e :: e in index.entries && (e.skipWorktree || e.intentToAdd) then 3 else 2)
                    + U32(|index.entries|) + text
                    + (if index.resolveUndo == [] then []
                       else [82, 69, 85, 67] + U32(|UndoText(index.resolveUndo)|) + UndoText(index.resolveUndo))
  {
    hide EntriesText, EntriesWritten, ValidIndexEntry, U32, UndoText;
    WrittenEntries(index.entries);
    VersionMeans(index.entries);
  }

  lemma {:induction false} VersionMeans(entries: seq<IndexEntry>)
    ensures Version(entries) == if exists e :: e in entries && (e.skipWorktree || e.intentToAdd) then 3 else 2
  {
    if e :| e in entries && (e.skipWorktree || e.intentToAdd) {
      var i :| 0 <= i < |entries| && entries[i] == e;
      assert Extended(entries[i]);
    }
  }

  /** What can be written: valid paths, stages up to 3, and counts that fit into 32 bits. */
  lemma {:induction false} EncodableMeans(index: IndexData)
    ensures Encodable(index) <==>
            && |index.entries| < 0x1_0000_0000
            && (forall e :: e in index.entries ==> ValidIndexPath(e.path) && e.stage <= 3)
            && (index.resolveUndo == [] || |UndoText(index.resolveUndo)| < 0x1_0000_0000)
  {
    hide ValidIndexPath, UndoText;
  }

  // ---- The resolve-undo extension ----------------------------------------------------------

  /** An absent stage is written as `0`; nothing at all is read like that, too. */
  function UndoMode(stage: Option<ResolveUndoStage>): Bytes
  {
    if stage.None? then [48] else Octal(stage.value.mode.Bits())
  }

  function UndoId(stage: Option<ResolveUndoStage>): Bytes
  {
    if stage.None? then [] else stage.value.id.digest
  }

  /** The path, the three modes in octal, each with a zero byte, and the ids of the stages that are present. */
  lemma {:induction false} UndoEntryMeans(e: ResolveUndoEntry)
    ensures UndoEntryText(e)
            == e.path + [0]
               + (UndoMode(e.stages[0]) + [0] + UndoMode(e.stages[1]) + [0] + UndoMode(e.stages[2]) + [0])
               + (UndoId(e.stages[0]) + UndoId(e.stages[1]) + UndoId(e.stages[2]))
  {
    hide Octal, ModesText, IdsText;
    ThreeModes(e.stages);
    ThreeIds(e.stages);
  }

  lemma {:induction false} ThreeModes(stages: seq<Option<ResolveUndoStage>>)
    requires |stages| == 3
    ensures ModesText(stages) == UndoMode(stages[0]) + [0] + UndoMode(stages[1]) + [0] + UndoMode(stages[2]) + [0]
  {
    hide Octal;
    var b, c, d := stages[1..], stages[2..], stages[3..];
    assert b[1..] == c && c[1..] == d && b[0] == stages[1] && c[0] == stages[2];
    assert ModesText(d) == [];
    assert ModesText(c) == UndoMode(stages[2]) + [0];
    assert ModesText(b) == UndoMode(stages[1]) + [0] + ModesText(c);
  }

  lemma {:induction false} ThreeIds(stages: seq<Option<ResolveUndoStage>>)
    requires |stages| == 3
    ensures IdsText(stages) == UndoId(stages[0]) + UndoId(stages[1]) + UndoId(stages[2])
  {
    var b, c, d := stages[1..], stages[2..], stages[3..];
    assert b[1..] == c && c[1..] == d && b[0] == stages[1] && c[0] == stages[2];
    assert IdsText(d) == [];
    assert IdsText(c) == UndoId(stages[2]);
    assert IdsText(b) == UndoId(stages[1]) + IdsText(c);
  }

  /** A mode may have a plus sign and leading zeros. */
  lemma {:induction false} UndoModeMeans(raw: Bytes, mode: IndexMode)
    ensures ParseMode(raw) == Ok(Some(mode)) <==>
            exists sign: Bytes, digits: Bytes ::
              && (sign == [] || sign == [43]) && raw == sign + digits
              && AllOctal(digits) && OctalValue(digits) == mode.Bits()
    ensures ParseMode(raw) == Ok(None) <==> raw == [] || raw == [48]
  {
    hide OctalValue;
    if ParseMode(raw) == Ok(Some(mode)) {
      var sign, digits := if raw[0] == 43 then [43] else [], if raw[0] == 43 then raw[1..] else raw;
      assert raw == sign + digits;
    }
    if sign: Bytes, digits: Bytes :|
        (sign == [] || sign == [43]) && raw == sign + digits && AllOctal(digits) && OctalValue(digits) == mode.Bits() {
      NoDigits();
      assert digits != [] && digits != [48];
      if sign == [] {
        assert raw == digits;
      } else {
        assert raw[0] == 43 && raw[1..] == digits;
      }
    }
  }

  lemma {:induction false} NoDigits()
    ensures OctalValue([]) == 0 && OctalValue([48]) == 0
  {
    assert [48][..0] == [];
  }
}
