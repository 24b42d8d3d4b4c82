/** One entry of the index file (`index.rs`; gitformat-index(5), "Index entry"). */
module IndexEntryCodec {
  import opened Common
  import opened Objects
  import opened Words
  import opened Index

  const ENTRY_FIXED_LEN := 62

  /** The path length field saturates at this value. */
  const PATH_LEN_MAX := 0xfff

  predicate Extended(e: IndexEntry)
  {
    e.skipWorktree || e.intentToAdd
  }

  function Bit(present: bool, weight: nat): nat
  {
    if present then weight else 0
  }

  /** `flags_for_entry`: the fields occupy disjoint bits, so their union is their sum. */
  function Flags(e: IndexEntry): u16
    requires e.stage <= 3
  {
    Bit(e.assumeValid, 0x8000) + Bit(Extended(e), 0x4000) + e.stage * 0x1000
    + if |e.path| < PATH_LEN_MAX then |e.path| else PATH_LEN_MAX
  }

  /** `extended_flags_for_entry`. */
  function ExtendedFlags(e: IndexEntry): u16
  {
    Bit(e.skipWorktree, 0x4000) + Bit(e.intentToAdd, 0x2000)
  }

  predicate HasBit(flags: u16, weight: nat)
    requires weight > 0
  {
    flags / weight % 2 == 1
  }

  lemma {:induction false} FlagsReadBack(e: IndexEntry)
    requires e.stage <= 3
    ensures HasBit(Flags(e), 0x8000) == e.assumeValid && HasBit(Flags(e), 0x4000) == Extended(e)
    ensures Flags(e) / 0x1000 % 4 == e.stage
    ensures Flags(e) % 0x1000 == if |e.path| < PATH_LEN_MAX then |e.path| else PATH_LEN_MAX
    ensures HasBit(ExtendedFlags(e), 0x4000) == e.skipWorktree && HasBit(ExtendedFlags(e), 0x2000) == e.intentToAdd
  {
  }

  // ---- Encoding ----------------------------------------------------------------------------

  /** The ten fixed words, in file order. */
  function EntryWords(e: IndexEntry): (ws: seq<u32>)
    ensures |ws| == 10
  {
    [e.ctimeSeconds, e.ctimeNanoseconds, e.mtimeSeconds, e.mtimeNanoseconds, e.dev, e.ino, e.mode.Bits(), e.uid, e.gid,
     e.size]
  }

  function FlagText(e: IndexEntry): (s: Bytes)
    requires e.stage <= 3
    ensures |s| == if Extended(e) then 4 else 2
  {
    U16(Flags(e)) + if Extended(e) then U16(ExtendedFlags(e)) else []
  }

  /** The number of zero bytes that bring a length up to a multiple of eight. */
  function Padding(n: nat): (k: nat)
    ensures k < 8 && (n + k) % 8 == 0
  {
    (8 - n % 8) % 8
  }

  function Zeros(k: nat): (s: Bytes)
    ensures |s| == k
  {
    seq(k, _ => NUL)
  }

  function UnpaddedEntry(e: IndexEntry): Bytes
    requires e.stage <= 3
  {
    WordsText(EntryWords(e)) + e.id.digest + FlagText(e) + e.path + [NUL]
  }

  function EntryText(e: IndexEntry): (s: Bytes)
    requires e.stage <= 3
    ensures s != []
  {
    UnpaddedEntry(e) + Zeros(Padding(|UnpaddedEntry(e)|))
  }

  /** `IndexStreamingWriter`: what has been written, and what the checksum has seen of it. */
  class IndexStreamingWriter {
    var inner: Bytes
    var hashed: Bytes
    var entryStart: nat
    var written: nat

    predicate Valid()
      reads this
    {
      hashed == inner && written == |inner| && entryStart <= written
    }

    constructor ()
      ensures Valid() && inner == []
    {
      inner, hashed, entryStart, written := [], [], 0, 0;
    }

    method WriteAll(bytes: Bytes)
      requires Valid()
      modifies this
      ensures Valid() && inner == old(inner) + bytes && entryStart == old(entryStart)
    {
      hashed := hashed + bytes;
      inner := inner + bytes;
      written := written + |bytes|;
    }

    method WriteU32(value: u32)
      requires Valid()
      modifies this
      ensures Valid() && inner == old(inner) + U32(value) && entryStart == old(entryStart)
    {
      WriteAll(U32(value));
    }

    method WriteU16(value: u16)
      requires Valid()
      modifies this
      ensures Valid() && inner == old(inner) + U16(value) && entryStart == old(entryStart)
    {
      WriteAll(U16(value));
    }

    /** `start_entry`. */
    method StartEntry()
      requires Valid()
      modifies this
      ensures Valid() && inner == old(inner) && entryStart == |inner|
    {
      entryStart := written;
    }

    /** `finish`: the checksum of everything written goes last, unhashed. */
    method Finish(sha1: Bytes -> Bytes) returns (file: Bytes)
      requires Valid()
      modifies this
      ensures file == old(inner) + sha1(old(inner))
    {
      inner := inner + sha1(hashed);
      return inner;
    }

    method WriteFixedWords(e: IndexEntry)
      requires Valid()
      modifies this
      ensures Valid() && inner == old(inner) + WordsText(EntryWords(e)) && entryStart == old(entryStart)
    {
      hide U32, WordsText, EntryWords, IndexMode.Bits;
      WriteU32(e.ctimeSeconds);
      WriteU32(e.ctimeNanoseconds);
      WriteU32(e.mtimeSeconds);
      WriteU32(e.mtimeNanoseconds);
      WriteU32(e.dev);
      WriteU32(e.ino);
      WriteU32(e.mode.Bits());
      WriteU32(e.uid);
      WriteU32(e.gid);
      WriteU32(e.size);
      TenWords(old(inner), e);
    }

    method WriteFlags(e: IndexEntry)
      requires Valid() && e.stage <= 3
      modifies this
      ensures Valid() && inner == old(inner) + FlagText(e) && entryStart == old(entryStart)
    {
      hide U16, Flags, ExtendedFlags;
      WriteU16(Flags(e));
      if e.skipWorktree || e.intentToAdd {
        WriteU16(ExtendedFlags(e));
      }
    }

    method WritePadding()
      requires Valid()
      modifies this
      ensures Valid() && inner == old(inner) + Zeros(Padding(old(written - entryStart)))
              && entryStart == old(entryStart)
    {
      hide Padding, Zeros;
      ghost var n := written - entryStart;
      ghost var k := 0;
      assert old(inner) + Zeros(0) == old(inner);
      while (written - entryStart) % 8 != 0
        invariant Valid() && entryStart == old(entryStart) && written - entryStart == n + k
        invariant k <= Padding(n) && inner == old(inner) + Zeros(k)
        decreases Padding(n) - k
      {
        PaddingStep(n, k);
        ConcatAssoc(old(inner), Zeros(k), [NUL]);
        WriteAll([NUL]);
        k := k + 1;
      }
    }

    /** `encode_entry_stream`. */
    method EncodeEntry(e: IndexEntry) returns (failure: Option<Error>)
      requires Valid()
      modifies this
      ensures Valid()
      ensures failure == if ValidIndexEntry(e) then None else Some(InvalidInput)
      ensures ValidIndexEntry(e) ==> inner == old(inner) + EntryText(e)
    {
      hide ValidIndexPath, WordsText, FlagText, Zeros, Padding;
      if !ValidIndexPath(e.path) {
        return Some(InvalidInput);
      }
      if e.stage > 3 {
        return Some(InvalidInput);
      }
      StartEntry();
      WriteFixedWords(e);
      WriteAll(e.id.digest);
      WriteFlags(e);
      WriteAll(e.path);
      WriteAll([NUL]);
      assert inner == old(inner) + UnpaddedEntry(e);
      WritePadding();
      ConcatAssoc(old(inner), UnpaddedEntry(e), Zeros(Padding(|UnpaddedEntry(e)|)));
      return None;
    }
  }

  lemma {:induction false} TenWords(start: Bytes, e: IndexEntry)
    ensures start + U32(e.ctimeSeconds) + U32(e.ctimeNanoseconds) + U32(e.mtimeSeconds) + U32(e.mtimeNanoseconds)
            + U32(e.dev) + U32(e.ino) + U32(e.mode.Bits()) + U32(e.uid) + U32(e.gid) + U32(e.size)
            == start + WordsText(EntryWords(e))
  {
    hide U32, WordsText;
    var ws := EntryWords(e);
    for i := 0 to 10
      invariant forall k :: 0 <= k < i ==> start + WordsText(ws[..k + 1]) == start + WordsText(ws[..k]) + U32(ws[k])
    {
      NextWord(start, ws, i);
    }
    assert ws[..10] == ws;
    NoWords(start, ws[..0]);
    assert start + WordsText(ws[..1]) == start + U32(ws[0]);
    assert start + WordsText(ws[..2]) == start + WordsText(ws[..1]) + U32(ws[1]);
    assert start + WordsText(ws[..3]) == start + WordsText(ws[..2]) + U32(ws[2]);
    assert start + WordsText(ws[..4]) == start + WordsText(ws[..3]) + U32(ws[3]);
    assert start + WordsText(ws[..5]) == start + WordsText(ws[..4]) + U32(ws[4]);
    assert start + WordsText(ws[..6]) == start + WordsText(ws[..5]) + U32(ws[5]);
    assert start + WordsText(ws[..7]) == start + WordsText(ws[..6]) + U32(ws[6]);
    assert start + WordsText(ws[..8]) == start + WordsText(ws[..7]) + U32(ws[7]);
    assert start + WordsText(ws[..9]) == start + WordsText(ws[..8]) + U32(ws[8]);
    assert start + WordsText(ws[..10]) == start + WordsText(ws[..9]) + U32(ws[9]);
  }

  lemma {:induction false} NextWord(start: Bytes, ws: seq<u32>, k: nat)
    requires k < |ws|
    ensures start + WordsText(ws[..k + 1]) == start + WordsText(ws[..k]) + U32(ws[k])
  {
    WordsSnoc(ws[..k], ws[k]);
    assert ws[..k + 1] == ws[..k] + [ws[k]];
    ConcatAssoc(start, WordsText(ws[..k]), U32(ws[k]));
  }

  lemma {:induction false} NoWords(start: Bytes, ws: seq<u32>)
    requires ws == []
    ensures start + WordsText(ws) == start
  {
  }

  lemma {:induction false} PaddingStep(n: nat, k: nat)
    requires k <= Padding(n) && (n + k) % 8 != 0
    ensures k + 1 <= Padding(n) && Zeros(k + 1) == Zeros(k) + [NUL]
  {
  }

  // ---- Decoding ----------------------------------------------------------------------------

  /** The entry that the fields at the front of `rest` describe, apart from its mode. */
  function FixedFields(rest: Bytes, path: Bytes, mode: IndexMode, flags: u16, extra: u16): IndexEntry
    requires |rest| >= ENTRY_FIXED_LEN
  {
    IndexEntry(path, ObjectId(Sha1, rest[40..60]), mode, flags / 0x1000 % 4, ReadU32(rest, 36),
               ReadU32(rest, 0), ReadU32(rest, 4), ReadU32(rest, 8), ReadU32(rest, 12),
               ReadU32(rest, 16), ReadU32(rest, 20), ReadU32(rest, 28), ReadU32(rest, 32),
               HasBit(flags, 0x8000), HasBit(extra, 0x4000), HasBit(extra, 0x2000))
  }

  /** The first entry of `rest` and how many bytes it takes, padding included. */
  function ParseEntry(rest: Bytes): (r: Result<(IndexEntry, nat)>)
    ensures r.Ok? ==> 0 < r.value.1 <= |rest| && ValidIndexEntry(r.value.0) && r.value.0.id.algorithm == Sha1
  {
    if |rest| < ENTRY_FIXED_LEN then Err(InvalidData) else
    var flags := ReadU16(rest, 60);
    var extended := HasBit(flags, 0x4000);
    var pathStart := if extended then ENTRY_FIXED_LEN + 2 else ENTRY_FIXED_LEN;
    if |rest| < pathStart then Err(InvalidData) else
    var extra: u16 := if extended then ReadU16(rest, ENTRY_FIXED_LEN) else 0;
    var pathLen := IndexOf(rest[pathStart..], NUL);
    if pathStart + pathLen == |rest| then Err(InvalidData) else
    var path := rest[pathStart..pathStart + pathLen];
    var declared := flags % 0x1000;
    if declared != PATH_LEN_MAX && declared != pathLen then Err(InvalidData) else
    if !ValidIndexPath(path) then Err(InvalidInput) else
    var unpadded := pathStart + pathLen + 1;
    var next := unpadded + Padding(unpadded);
    if |rest| < next then Err(InvalidData) else
    var mode := ModeFromBits(ReadU32(rest, 24));
    if mode.Err? then Err(mode.error) else Ok((FixedFields(rest, path, mode.value, flags, extra), next))
  }

  /** The loop that steps over the padding. */
  method PadTo(start: nat, unpadded: nat) returns (next: nat)
    requires start <= unpadded
    ensures next == unpadded + Padding(unpadded - start)
  {
    hide Padding;
    next := unpadded;
    ghost var n, k := next - start, 0;
    while (next - start) % 8 != 0
      invariant k <= Padding(n) && next - start == n + k
      decreases Padding(n) - k
    {
      PaddingStep(n, k);
      next := next + 1;
      k := k + 1;
    }
  }

  /** `decode_entry`, on a window of the file. */
  method DecodeEntry(bytes: Bytes, start: nat, limit: nat) returns (r: Result<(IndexEntry, nat)>)
    requires start <= limit <= |bytes|
    ensures match ParseEntry(bytes[start..limit])
            case Err(e) => r == Err(e)
            case Ok(parsed) => r == Ok((parsed.0, start + parsed.1))
  {
    hide ValidIndexPath, IndexOf, ReadU32, ReadU16, Padding, FixedFields, HasBit;
    ghost var rest := bytes[start..limit];
    var fixedEnd := start + ENTRY_FIXED_LEN;
    if fixedEnd > limit {
      return Err(InvalidData);
    }
    SameWords(bytes, start, limit);
    var flags := ReadU16(bytes, start + 60);
    var declared := flags % 0x1000;
    var pathStart := fixedEnd;
    var extra: u16 := 0;
    if HasBit(flags, 0x4000) {
      if fixedEnd + 2 > limit {
        return Err(InvalidData);
      }
      SameHalf(bytes, start, limit, ENTRY_FIXED_LEN);
      extra := ReadU16(bytes, fixedEnd);
      pathStart := fixedEnd + 2;
    }
    SliceOfSlice(bytes, start, limit, pathStart - start, limit - start);
    assert rest[pathStart - start..limit - start] == rest[pathStart - start..];
    var pathNul := pathStart + IndexOf(bytes[pathStart..limit], NUL);
    if pathNul == limit {
      return Err(InvalidData);
    }
    var path := bytes[pathStart..pathNul];
    SliceOfSlice(bytes, start, limit, pathStart - start, pathNul - start);
    if declared != PATH_LEN_MAX && declared != |path| {
      return Err(InvalidData);
    }
    if !ValidIndexPath(path) {
      return Err(InvalidInput);
    }
    var next := PadTo(start, pathNul + 1);
    if next > limit {
      return Err(InvalidData);
    }
    var mode := ModeFromBits(ReadU32(bytes, start + 24));
    if mode.Err? {
      return Err(mode.error);
    }
    ghost var expected := FixedFields(rest, path, mode.value, flags, extra);
    var entry := IndexEntry(
      path, ObjectId(Sha1, bytes[start + 40..start + 60]), mode.value, flags / 0x1000 % 4, ReadU32(bytes, start + 36),
      ReadU32(bytes, start), ReadU32(bytes, start + 4), ReadU32(bytes, start + 8), ReadU32(bytes, start + 12),
      ReadU32(bytes, start + 16), ReadU32(bytes, start + 20), ReadU32(bytes, start + 28), ReadU32(bytes, start + 32),
      HasBit(flags, 0x8000), HasBit(extra, 0x4000), HasBit(extra, 0x2000));
    FieldsShifted(bytes, start, limit, path, mode.value, flags, extra);
    return Ok((entry, next));
  }

  lemma {:induction false} SameHalf(bytes: Bytes, start: nat, limit: nat, k: nat)
    requires start + k + 2 <= limit <= |bytes|
    ensures ReadU16(bytes[start..limit], k) == ReadU16(bytes, start + k)
  {
  }

  lemma {:induction false} SameWords(bytes: Bytes, start: nat, limit: nat)
    requires start + ENTRY_FIXED_LEN <= limit <= |bytes|
    ensures ReadU16(bytes[start..limit], 60) == ReadU16(bytes, start + 60)
    ensures ReadU32(bytes[start..limit], 24) == ReadU32(bytes, start + 24)
  {
  }

  lemma {:induction false} FieldsShifted(bytes: Bytes, start: nat, limit: nat, path: Bytes, mode: IndexMode, flags: u16,
                                         extra: u16)
    requires start + ENTRY_FIXED_LEN <= limit <= |bytes|
    ensures FixedFields(bytes[start..limit], path, mode, flags, extra) == IndexEntry(
      path, ObjectId(Sha1, bytes[start + 40..start + 60]), mode, flags / 0x1000 % 4, ReadU32(bytes, start + 36),
      ReadU32(bytes, start), ReadU32(bytes, start + 4), ReadU32(bytes, start + 8), ReadU32(bytes, start + 12),
      ReadU32(bytes, start + 16), ReadU32(bytes, start + 20), ReadU32(bytes, start + 28), ReadU32(bytes, start + 32),
      HasBit(flags, 0x8000), HasBit(extra, 0x4000), HasBit(extra, 0x2000))
  {
    SliceOfSlice(bytes, start, limit, 40, 60);
  }

  // ---- Round trip --------------------------------------------------------------------------

  /** The fixed fields come back from where they were written. */
  lemma {:induction false} FixedReadBack(e: IndexEntry, after: Bytes)
    requires e.stage <= 3 && e.id.algorithm == Sha1
    ensures var rest := WordsText(EntryWords(e)) + e.id.digest + FlagText(e) + after;
            && ReadU16(rest, 60) == Flags(e) && ReadU32(rest, 24) == e.mode.Bits()
            && (Extended(e) ==> ReadU16(rest, ENTRY_FIXED_LEN) == ExtendedFlags(e))
            && FixedFields(rest, e.path, e.mode, Flags(e), if Extended(e) then ExtendedFlags(e) else 0) == e
  {
    hide WordsText, ReadU32, ReadU16, U16, Flags, ExtendedFlags, HasBit;
    var words := WordsText(EntryWords(e));
    var rest := words + e.id.digest + FlagText(e) + after;
    var tail := e.id.digest + FlagText(e) + after;
    assert rest == words + tail;
    ReadTenWords(EntryWords(e), tail);
    assert rest[40..60] == e.id.digest;
    FlagTextReadBack(words + e.id.digest, e, after);
    FlagsReadBack(e);
    NoExtendedFlags();
  }

  lemma {:induction false} ReadTenWords(ws: seq<u32>, after: Bytes)
    requires |ws| == 10
    ensures var rest := WordsText(ws) + after;
            && ReadU32(rest, 0) == ws[0] && ReadU32(rest, 4) == ws[1] && ReadU32(rest, 8) == ws[2]
               && ReadU32(rest, 12) == ws[3]
            && ReadU32(rest, 16) == ws[4] && ReadU32(rest, 20) == ws[5] && ReadU32(rest, 24) == ws[6]
            && ReadU32(rest, 28) == ws[7] && ReadU32(rest, 32) == ws[8] && ReadU32(rest, 36) == ws[9]
  {
    hide WordsText, ReadU32;
    ReadOfWords(ws, after, 0);
    ReadOfWords(ws, after, 1);
    ReadOfWords(ws, after, 2);
    ReadOfWords(ws, after, 3);
    ReadOfWords(ws, after, 4);
    ReadOfWords(ws, after, 5);
    ReadOfWords(ws, after, 6);
    ReadOfWords(ws, after, 7);
    ReadOfWords(ws, after, 8);
    ReadOfWords(ws, after, 9);
  }

  lemma {:induction false} NoExtendedFlags()
    ensures !HasBit(0, 0x4000) && !HasBit(0, 0x2000)
  {
  }

  lemma {:induction false} FlagTextReadBack(before: Bytes, e: IndexEntry, after: Bytes)
    requires e.stage <= 3
    ensures ReadU16(before + FlagText(e) + after, |before|) == Flags(e)
    ensures Extended(e) ==> ReadU16(before + FlagText(e) + after, |before| + 2) == ExtendedFlags(e)
  {
    hide ReadU16, U16, Flags, ExtendedFlags;
    var rest := before + FlagText(e) + after;
    if Extended(e) {
      assert rest == before + U16(Flags(e)) + (U16(ExtendedFlags(e)) + after);
      ReadOfU16(Flags(e), before, U16(ExtendedFlags(e)) + after);
      assert rest == (before + U16(Flags(e))) + U16(ExtendedFlags(e)) + after;
      ReadOfU16(ExtendedFlags(e), before + U16(Flags(e)), after);
    } else {
      assert rest == before + U16(Flags(e)) + after;
      ReadOfU16(Flags(e), before, after);
    }
  }

  /** Decoding an encoded entry gives it back and stops right after its padding. */
  lemma {:induction false} EntryRoundTrip(e: IndexEntry, tail: Bytes)
    requires ValidIndexEntry(e) && e.id.algorithm == Sha1
    ensures ParseEntry(EntryText(e) + tail) == Ok((e, |EntryText(e)|))
  {
    hide WordsText, FlagText, Flags, ExtendedFlags, HasBit, FixedFields, ReadU32, ReadU16, Zeros, Padding, IndexOf,
         ParseEntry;
    var rest := EntryText(e) + tail;
    var pad := Zeros(Padding(|UnpaddedEntry(e)|));
    var head := WordsText(EntryWords(e)) + e.id.digest + FlagText(e);
    var after := e.path + [NUL] + (pad + tail);
    assert rest == head + after;
    FixedReadBack(e, after);
    FlagsReadBack(e);
    PathReadBack(head, e.path, pad + tail);
    ParseFits(rest, e, |EntryText(e)|);
  }

  lemma {:induction false} PathReadBack(head: Bytes, path: Bytes, tail: Bytes)
    requires NUL !in path
    ensures var rest := head + (path + [NUL] + tail);
            IndexOf(rest[|head|..], NUL) == |path| && rest[|head|..|head| + |path|] == path
  {
    var rest := head + (path + [NUL] + tail);
    assert rest[|head|..] == path + [NUL] + tail;
    IndexOfFirst(path, NUL, tail);
  }

  /** What a text has to satisfy to be read as `e`. */
  lemma {:induction false} ParseFits(rest: Bytes, e: IndexEntry, n: nat)
    requires ValidIndexEntry(e) && n <= |rest|
    requires var pathStart := if Extended(e) then ENTRY_FIXED_LEN + 2 else ENTRY_FIXED_LEN;
             var unpadded := pathStart + |e.path| + 1;
             && n == unpadded + Padding(unpadded)
             && rest[pathStart..pathStart + |e.path|] == e.path && IndexOf(rest[pathStart..], NUL) == |e.path|
    requires ReadU16(rest, 60) == Flags(e) && ReadU32(rest, 24) == e.mode.Bits()
    requires Extended(e) ==> ReadU16(rest, ENTRY_FIXED_LEN) == ExtendedFlags(e)
    requires HasBit(Flags(e), 0x4000) == Extended(e)
    requires Flags(e) % 0x1000 == if |e.path| < PATH_LEN_MAX then |e.path| else PATH_LEN_MAX
    requires FixedFields(rest, e.path, e.mode, Flags(e), if Extended(e) then ExtendedFlags(e) else 0) == e
    requires e.id.algorithm == Sha1
    ensures ParseEntry(rest) == Ok((e, n))
  {
    hide Flags, ExtendedFlags, HasBit, FixedFields, ReadU32, ReadU16, Padding, IndexOf, ValidIndexPath;
  }
}
