/** The index file as a whole (`index.rs`; gitformat-index(5)). */
module IndexCodec {
  import opened Common
  import opened ByteOrder
  import opened Objects
  import opened Words
  import opened Index
  import opened IndexEntryCodec
  import opened ResolveUndo

  /** The contents of a `GitIndex`. */
  datatype IndexData = IndexData(entries: seq<IndexEntry>, resolveUndo: seq<ResolveUndoEntry>)

  /** The checksum, left abstract but for its length. */
  type Sha1Sum = f: Bytes -> Bytes | forall s :: |f(s)| == 20 witness s => seq(20, _ => 0)

  /** `DIRC` and `REUC`. */
  const SIGNATURE: Bytes := [68, 73, 82, 67]
  const RESOLVE_UNDO: Bytes := [82, 69, 85, 67]

  const U32_LIMIT: nat := 0x1_0000_0000

  // ---- Encoding ----------------------------------------------------------------------------

  /** `index_version_for_index`: version 3 exactly when some entry needs the extended flags. */
  function Version(entries: seq<IndexEntry>): u32
  {
    if exists i :: 0 <= i < |entries| && Extended(entries[i]) then 3 else 2
  }

  function EntriesText(entries: seq<IndexEntry>): Bytes
    requires ValidIndexEntries(entries)
  {
    if entries == [] then [] else EntryText(entries[0]) + EntriesText(entries[1..])
  }

  predicate Encodable(index: IndexData)
  {
    && |index.entries| < U32_LIMIT && ValidIndexEntries(index.entries)
    && (index.resolveUndo == [] || |UndoText(index.resolveUndo)| < U32_LIMIT)
  }

  function ExtensionText(undo: seq<ResolveUndoEntry>): Bytes
    requires undo == [] || |UndoText(undo)| < U32_LIMIT
  {
    if undo == [] then [] else RESOLVE_UNDO + U32(|UndoText(undo)|) + UndoText(undo)
  }

  function HeaderText(entries: seq<IndexEntry>): (s: Bytes)
    requires |entries| < U32_LIMIT
    ensures |s| == 12
  {
    SIGNATURE + U32(Version(entries)) + U32(|entries|)
  }

  /** Everything in front of the checksum. */
  function Content(index: IndexData): Bytes
    requires Encodable(index)
  {
    HeaderText(index.entries) + EntriesText(index.entries) + ExtensionText(index.resolveUndo)
  }

  lemma {:induction false} EntriesNext(start: Bytes, entries: seq<IndexEntry>, i: nat)
    requires i < |entries| && ValidIndexEntries(entries)
    ensures ValidIndexEntries(entries[i..]) && ValidIndexEntries(entries[i + 1..])
    ensures start + EntriesText(entries[i..]) == start + EntryText(entries[i]) + EntriesText(entries[i + 1..])
  {
    hide EntryText, ValidIndexEntry;
    assert entries[i..][1..] == entries[i + 1..];
  }

  lemma {:induction false} EntriesEnd(start: Bytes, entries: seq<IndexEntry>)
    requires ValidIndexEntries(entries)
    ensures start + EntriesText(entries[|entries|..]) == start && entries[0..] == entries
  {
  }

  /** `write_index_stream`. */
  method WriteIndexStream(out: IndexStreamingWriter, index: IndexData) returns (failure: Option<Error>)
    requires out.Valid()
    modifies out
    ensures out.Valid()
    ensures failure == if Encodable(index) then None else Some(InvalidInput)
    ensures Encodable(index) ==> out.inner == old(out.inner) + Content(index)
  {
    hide EntriesText, EntryText, ValidIndexEntry, UndoText, U32;
    var entries, undo := index.entries, index.resolveUndo;
    out.WriteAll(SIGNATURE);
    out.WriteU32(Version(entries));
    if |entries| >= U32_LIMIT {
      return Some(InvalidInput);
    }
    out.WriteU32(|entries|);
    ghost var start := out.inner;
    if ValidIndexEntries(entries) {
      EntriesEnd(start, entries);
    }
    for i := 0 to |entries|
      invariant out.Valid() && ValidIndexEntries(entries[..i])
      invariant ValidIndexEntries(entries) ==>
                  ValidIndexEntries(entries[i..])
                      && out.inner + EntriesText(entries[i..]) == start + EntriesText(entries)
    {
      if ValidIndexEntries(entries) {
        EntriesNext(out.inner, entries, i);
      }
      var bad := out.EncodeEntry(entries[i]);
      if bad.Some? {
        return bad;
      }
      assert entries[..i + 1] == entries[..i] + [entries[i]];
    }
    assert entries[..|entries|] == entries;
    EntriesEnd(out.inner, entries);
    assert out.inner == start + EntriesText(entries);
    ghost var body := out.inner;
    if undo != [] {
      out.WriteAll(RESOLVE_UNDO);
      var len := UndoBodyLen(undo);
      if len.Err? {
        return Some(len.error);
      }
      out.WriteU32(len.value);
      EncodeUndoEntries(out, undo);
      assert out.inner == body + (RESOLVE_UNDO + U32(|UndoText(undo)|) + UndoText(undo));
    }
    assert out.inner == body + ExtensionText(undo);
    assert start == old(out.inner) + HeaderText(entries);
    ConcatFour(old(out.inner), HeaderText(entries), EntriesText(entries), ExtensionText(undo));
    return None;
  }

  lemma {:induction false} ConcatFour(a: Bytes, b: Bytes, c: Bytes, d: Bytes)
    ensures a + b + c + d == a + (b + c + d)
  {
  }

  /** `write_index_lock`: the content, then its checksum. */
  method WriteIndex(sha1: Sha1Sum, index: IndexData) returns (r: Result<Bytes>)
    ensures r == if Encodable(index) then Ok(Content(index) + sha1(Content(index))) else Err(InvalidInput)
  {
    hide Encodable, Content;
    var out := new IndexStreamingWriter();
    var failure := WriteIndexStream(out, index);
    if failure.Some? {
      return Err(failure.value);
    }
    assert out.inner == Content(index);
    var file := out.Finish(sha1);
    return Ok(file);
  }

  // ---- Decoding ----------------------------------------------------------------------------

  ghost predicate UndoSorted(entries: seq<ResolveUndoEntry>)
  {
    forall i, j :: 0 <= i < j < |entries| ==> Less(entries[i].path, entries[j].path)
  }

  function ParseEntries(rest: Bytes, count: nat): (r: Result<(seq<IndexEntry>, nat)>)
    ensures r.Ok? ==> r.value.1 <= |rest| && |r.value.0| == count
  {
    if count == 0 then Ok(([], 0)) else
    var first := ParseEntry(rest);
    if first.Err? then Err(first.error) else
    Onto([first.value.0], first.value.1, ParseEntries(rest[first.value.1..], count - 1))
  }

  predicate LowerCaseIn(s: Bytes)
  {
    exists i :: 0 <= i < |s| && 97 <= s[i] <= 122
  }

  /** Extensions are skipped unless they are required ones; the last resolve-undo extension counts. */
  function ParseExtensions(rest: Bytes, undo: seq<ResolveUndoEntry>): Result<seq<ResolveUndoEntry>>
    decreases |rest|
  {
    if rest == [] then Ok(undo) else
    if |rest| < 8 || LowerCaseIn(rest[..4]) then Err(InvalidData) else
    var end := 8 + ReadU32(rest, 4);
    if |rest| < end then Err(InvalidData) else
    if rest[..4] != RESOLVE_UNDO then ParseExtensions(rest[end..], undo) else
    var parsed := ParseUndo(rest[8..end]);
    if parsed.Err? then parsed else ParseExtensions(rest[end..], parsed.value)
  }

  /** `from_trusted_sorted_entries_and_resolve_undo`. */
  ghost function Checked(entries: seq<IndexEntry>, undo: seq<ResolveUndoEntry>): Result<IndexData>
  {
    if !ValidIndexEntries(entries) || !ValidUndoEntries(undo) then Err(InvalidInput)
    else if !StrictlySorted(entries) || !UndoSorted(undo) then Err(InvalidData)
    else Ok(IndexData(entries, undo))
  }

  ghost function ParseBody(content: Bytes): Result<IndexData>
    requires |content| >= 12
  {
    var entries := ParseEntries(content[12..], ReadU32(content, 8));
    if entries.Err? then Err(entries.error) else
    AfterEntries(content[12 + entries.value.1..], entries.value.0)
  }

  ghost function AfterEntries(rest: Bytes, entries: seq<IndexEntry>): Result<IndexData>
  {
    var undo := ParseExtensions(rest, []);
    if undo.Err? then Err(undo.error) else Checked(entries, undo.value)
  }

  ghost predicate HeaderFits(content: Bytes)
    requires |content| >= 12
  {
    content[..4] == SIGNATURE && (ReadU32(content, 4) == 2 || ReadU32(content, 4) == 3)
  }

  /** The index that a file stands for. */
  ghost function IndexOfFile(sha1: Sha1Sum, bytes: Bytes): Result<IndexData>
  {
    if |bytes| < 32 then Err(InvalidData) else
    var content := bytes[..|bytes| - 20];
    if bytes[|bytes| - 20..] != sha1(content) || !HeaderFits(content) then Err(InvalidData) else ParseBody(content)
  }

  method ValidateSortedEntries(entries: seq<IndexEntry>) returns (ok: bool)
    ensures ok <==> StrictlySorted(entries)
  {
    hide EntryLess;
    var i := 1;
    while i < |entries|
      invariant 1 <= i && StrictlySorted(entries[..if i <= |entries| then i else |entries|])
    {
      if !EntryLess(entries[i - 1], entries[i]) {
        return false;
      }
      forall k | 0 <= k < i ensures EntryLess(entries[k], entries[i]) {
        if k < i - 1 {
          assert EntryLess(entries[..i][k], entries[..i][i - 1]);
          EntryLessTransitive(entries[k], entries[i - 1], entries[i]);
        }
      }
      assert entries[..i + 1] == entries[..i] + [entries[i]];
      i := i + 1;
    }
    assert entries[..|entries|] == entries;
    return true;
  }

  method ValidateSortedUndo(entries: seq<ResolveUndoEntry>) returns (ok: bool)
    ensures ok <==> UndoSorted(entries)
  {
    hide Less;
    var i := 1;
    while i < |entries|
      invariant 1 <= i && UndoSorted(entries[..if i <= |entries| then i else |entries|])
    {
      if !Less(entries[i - 1].path, entries[i].path) {
        return false;
      }
      forall k | 0 <= k < i ensures Less(entries[k].path, entries[i].path) {
        if k < i - 1 {
          assert Less(entries[..i][k].path, entries[..i][i - 1].path);
          LessTransitive(entries[k].path, entries[i - 1].path, entries[i].path);
        }
      }
      assert entries[..i + 1] == entries[..i] + [entries[i]];
      i := i + 1;
    }
    assert entries[..|entries|] == entries;
    return true;
  }

  method FromTrustedSorted(entries: seq<IndexEntry>, undo: seq<ResolveUndoEntry>) returns (r: Result<IndexData>)
    ensures r == Checked(entries, undo)
  {
    hide ValidIndexPath, EntryLess, Less, StrictlySorted, UndoSorted;
    for i := 0 to |entries|
      invariant ValidIndexEntries(entries[..i])
    {
      if !ValidIndexPath(entries[i].path) || entries[i].stage > 3 {
        return Err(InvalidInput);
      }
      assert entries[..i + 1] == entries[..i] + [entries[i]];
    }
    assert entries[..|entries|] == entries;
    for i := 0 to |undo|
      invariant ValidUndoEntries(undo[..i])
    {
      if !ValidIndexPath(undo[i].path) {
        return Err(InvalidInput);
      }
      assert undo[..i + 1] == undo[..i] + [undo[i]];
    }
    assert undo[..|undo|] == undo;
    var sorted := ValidateSortedEntries(entries);
    if !sorted {
      return Err(InvalidData);
    }
    sorted := ValidateSortedUndo(undo);
    if !sorted {
      return Err(InvalidData);
    }
    return Ok(IndexData(entries, undo));
  }

  lemma {:induction false} EntriesStep(rest: Bytes, count: nat, done: seq<IndexEntry>, taken: nat)
    requires count > 0
    ensures var first := ParseEntry(rest);
            Onto(done, taken, ParseEntries(rest, count))
            == if first.Err? then Err(first.error)
               else Onto(done + [first.value.0], taken + first.value.1, ParseEntries(rest[first.value.1..], count - 1))
  {
    hide ParseEntry;
    var first := ParseEntry(rest);
    if first.Ok? {
      OntoTwice(done, taken, [first.value.0], first.value.1, ParseEntries(rest[first.value.1..], count - 1));
    }
  }

  /** The entry loop of `decode_index`. */
  method DecodeEntries(bytes: Bytes, limit: nat, count: nat) returns (r: Result<(seq<IndexEntry>, nat)>)
    requires 12 <= limit <= |bytes|
    ensures match ParseEntries(bytes[12..limit], count)
            case Err(e) => r == Err(e)
            case Ok(parsed) => r == Ok((parsed.0, 12 + parsed.1))
  {
    hide ParseEntries, ParseEntry, Onto;
    var cursor := 12;
    var entries: seq<IndexEntry> := [];
    for i := 0 to count
      invariant 12 <= cursor <= limit
      invariant ParseEntries(bytes[12..limit], count)
                == Onto(entries, cursor - 12, ParseEntries(bytes[cursor..limit], count - i))
    {
      EntriesStep(bytes[cursor..limit], count - i, entries, cursor - 12);
      var next := DecodeEntry(bytes, cursor, limit);
      if next.Err? {
        return Err(next.error);
      }
      SliceOfSlice(bytes, cursor, limit, next.value.1 - cursor, limit - cursor);
      entries := entries + [next.value.0];
      cursor := next.value.1;
    }
    NoEntries(bytes[cursor..limit]);
    return Ok((entries, cursor));
  }

  lemma {:induction false} NoEntries(rest: Bytes)
    ensures ParseEntries(rest, 0) == Ok(([], 0))
  {
  }

  lemma {:induction false} ExtensionStep(bytes: Bytes, cursor: nat, limit: nat, undo: seq<ResolveUndoEntry>)
    requires cursor < limit <= |bytes|
    ensures ParseExtensions(bytes[cursor..limit], undo) ==
            if limit < cursor + 8 || LowerCaseIn(bytes[cursor..cursor + 4]) then Err(InvalidData) else
            var end := cursor + 8 + ReadU32(bytes, cursor + 4);
            if limit < end then Err(InvalidData) else
            if bytes[cursor..cursor + 4] != RESOLVE_UNDO then ParseExtensions(bytes[end..limit], undo) else
            var parsed := ParseUndo(bytes[cursor + 8..end]);
            if parsed.Err? then parsed else ParseExtensions(bytes[end..limit], parsed.value)
  {
    hide ParseUndo, ReadU32, LowerCaseIn;
    if cursor + 8 <= limit {
      SliceOfSlice(bytes, cursor, limit, 0, 4);
      SameWord(bytes, cursor, limit);
      var end := cursor + 8 + ReadU32(bytes, cursor + 4);
      if end <= limit {
        SliceOfSlice(bytes, cursor, limit, 8, end - cursor);
        SliceOfSlice(bytes, cursor, limit, end - cursor, limit - cursor);
      }
    }
  }

  lemma {:induction false} NoExtensions(undo: seq<ResolveUndoEntry>)
    ensures ParseExtensions([], undo) == Ok(undo)
  {
  }

  /** `decode_index_extensions`. */
  method DecodeExtensions(bytes: Bytes, start: nat, limit: nat) returns (r: Result<seq<ResolveUndoEntry>>)
    requires start <= limit <= |bytes|
    ensures r == ParseExtensions(bytes[start..limit], [])
  {
    hide ParseUndo, ReadU32, ParseExtensions, LowerCaseIn;
    var cursor := start;
    var undo: seq<ResolveUndoEntry> := [];
    while cursor < limit
      invariant start <= cursor <= limit
      invariant ParseExtensions(bytes[start..limit], []) == ParseExtensions(bytes[cursor..limit], undo)
    {
      ExtensionStep(bytes, cursor, limit, undo);
      var headerEnd := cursor + 8;
      if headerEnd > limit {
        return Err(InvalidData);
      }
      var signature := bytes[cursor..cursor + 4];
      if LowerCaseIn(signature) {
        return Err(InvalidData);
      }
      var end := headerEnd + ReadU32(bytes, cursor + 4);
      if end > limit {
        return Err(InvalidData);
      }
      if signature == RESOLVE_UNDO {
        var parsed := DecodeUndo(bytes[headerEnd..end]);
        if parsed.Err? {
          return parsed;
        }
        undo := parsed.value;
      }
      cursor := end;
    }
    assert bytes[cursor..limit] == [];
    NoExtensions(undo);
    return Ok(undo);
  }

  lemma {:induction false} SameWord(bytes: Bytes, start: nat, limit: nat)
    requires start + 8 <= limit <= |bytes|
    ensures ReadU32(bytes[start..limit], 4) == ReadU32(bytes, start + 4)
  {
  }

  /** `decode_index`. */
  method DecodeIndex(sha1: Sha1Sum, bytes: Bytes) returns (r: Result<IndexData>)
    ensures r == IndexOfFile(sha1, bytes)
  {
    hide ParseEntries, ParseExtensions, Checked, ReadU32, IndexOfFile, AfterEntries;
    if |bytes| < 32 {
      ShortFile(sha1, bytes);
      return Err(InvalidData);
    }
    var limit := |bytes| - 20;
    FileSteps(sha1, bytes, limit);
    if sha1(bytes[..limit]) != bytes[limit..] {
      return Err(InvalidData);
    }
    if bytes[..4] != SIGNATURE {
      return Err(InvalidData);
    }
    var version := ReadU32(bytes, 4);
    if version != 2 && version != 3 {
      return Err(InvalidData);
    }
    var entries := DecodeEntries(bytes, limit, ReadU32(bytes, 8));
    if entries.Err? {
      return Err(entries.error);
    }
    var at := entries.value.1;
    LastStep(bytes[at..limit], entries.value.0);
    var undo := DecodeExtensions(bytes, at, limit);
    if undo.Err? {
      return Err(undo.error);
    }
    r := FromTrustedSorted(entries.value.0, undo.value);
  }

  lemma {:induction false} ShortFile(sha1: Sha1Sum, bytes: Bytes)
    requires |bytes| < 32
    ensures IndexOfFile(sha1, bytes) == Err(InvalidData)
  {
  }

  /** What is left of the file after each step of the decoder. */
  lemma {:induction false} FileSteps(sha1: Sha1Sum, bytes: Bytes, limit: nat)
    requires |bytes| >= 32 && limit == |bytes| - 20
    ensures var entries := ParseEntries(bytes[12..limit], ReadU32(bytes, 8));
            IndexOfFile(sha1, bytes)
            == if sha1(bytes[..limit]) != bytes[limit..] || bytes[..4] != SIGNATURE
                  || (ReadU32(bytes, 4) != 2 && ReadU32(bytes, 4) != 3) then Err(InvalidData)
               else if entries.Err? then Err(entries.error)
               else AfterEntries(bytes[12 + entries.value.1..limit], entries.value.0)
  {
    hide ParseBody, ReadU32, ParseEntries, AfterEntries;
    HeaderWords(bytes, limit);
    assert bytes[..limit][..4] == bytes[..4];
    BodySteps(bytes, limit);
  }

  lemma {:induction false} LastStep(rest: Bytes, entries: seq<IndexEntry>)
    ensures AfterEntries(rest, entries)
            == var undo := ParseExtensions(rest, []);
               if undo.Err? then Err(undo.error) else Checked(entries, undo.value)
  {
  }

  lemma {:induction false} BodySteps(bytes: Bytes, limit: nat)
    requires 12 <= limit <= |bytes|
    ensures var entries := ParseEntries(bytes[12..limit], ReadU32(bytes, 8));
            ParseBody(bytes[..limit])
            == if entries.Err? then Err(entries.error)
               else AfterEntries(bytes[12 + entries.value.1..limit], entries.value.0)
  {
    hide ParseEntries, AfterEntries, ReadU32;
    HeaderWords(bytes, limit);
    var content := bytes[..limit];
    assert content[12..] == bytes[12..limit];
    var entries := ParseEntries(content[12..], ReadU32(content, 8));
    if entries.Ok? { assert content[12 + entries.value.1..] == bytes[12 + entries.value.1..limit]; }
  }

  lemma {:induction false} HeaderWords(bytes: Bytes, limit: nat)
    requires 12 <= limit <= |bytes|
    ensures ReadU32(bytes[..limit], 4) == ReadU32(bytes, 4) && ReadU32(bytes[..limit], 8) == ReadU32(bytes, 8)
  {
  }

  // ---- Round trip --------------------------------------------------------------------------

  predicate AllSha1(entries: seq<IndexEntry>)
  {
    forall i :: 0 <= i < |entries| ==> entries[i].id.algorithm == Sha1
  }

  lemma {:induction false} EntriesReadBack(entries: seq<IndexEntry>, tail: Bytes)
    requires ValidIndexEntries(entries) && AllSha1(entries)
    ensures ParseEntries(EntriesText(entries) + tail, |entries|) == Ok((entries, |EntriesText(entries)|))
  {
    hide ParseEntry, ParseEntries, EntryText, ValidIndexPath;
    if entries == [] {
      NoEntries(EntriesText(entries) + tail);
    } else {
      var first, more := EntryText(entries[0]), EntriesText(entries[1..]) + tail;
      assert EntriesText(entries) + tail == first + more;
      IndexEntryCodec.EntryRoundTrip(entries[0], more);
      assert (first + more)[|first|..] == more;
      EntriesReadBack(entries[1..], tail);
      EntriesStep(first + more, |entries|, [], 0);
      assert [] + [entries[0]] == [entries[0]];
      assert entries == [entries[0]] + entries[1..];
    }
  }

  lemma {:induction false} ExtensionReadBack(undo: seq<ResolveUndoEntry>)
    requires undo == [] || |UndoText(undo)| < U32_LIMIT
    requires ValidUndoEntries(undo)
    ensures ParseExtensions(ExtensionText(undo), []) == Ok(undo)
  {
    hide ParseUndo, UndoText, U32, ReadU32, ValidUndoEntries;
    if undo != [] {
      var body := UndoText(undo);
      var rest := ExtensionText(undo);
      ReadOfU32(|body|, RESOLVE_UNDO, body);
      assert rest[..4] == RESOLVE_UNDO && rest[8..8 + |body|] == body && rest[8 + |body|..] == [];
      assert forall i :: 0 <= i < 4 ==> rest[..4][i] < 97;
      UndoRoundTrip(undo);
    }
  }

  lemma {:induction false} HeaderReadBack(entries: seq<IndexEntry>, rest: Bytes)
    requires |entries| < U32_LIMIT
    ensures var content := HeaderText(entries) + rest;
            HeaderFits(content) && ReadU32(content, 8) == |entries| && content[12..] == rest
  {
    hide U32, ReadU32;
    var content := HeaderText(entries) + rest;
    ReadOfU32(Version(entries), SIGNATURE, U32(|entries|) + rest);
    ReadOfU32(|entries|, SIGNATURE + U32(Version(entries)), rest);
    assert content == SIGNATURE + U32(Version(entries)) + (U32(|entries|) + rest);
    assert content[..4] == SIGNATURE;
  }

  lemma {:induction false} ContentReadBack(index: IndexData)
    requires Encodable(index) && AllSha1(index.entries) && ValidUndoEntries(index.resolveUndo)
    ensures |Content(index)| >= 12 && HeaderFits(Content(index))
    ensures ParseBody(Content(index)) == Checked(index.entries, index.resolveUndo)
  {
    hide ParseEntries, ParseExtensions, EntriesText, ExtensionText, HeaderText, HeaderFits, ReadU32, ValidUndoEntries,
         ValidIndexEntries, UndoText, Checked;
    var entries, tail := EntriesText(index.entries), ExtensionText(index.resolveUndo);
    var content := Content(index);
    assert content == HeaderText(index.entries) + (entries + tail);
    HeaderReadBack(index.entries, entries + tail);
    EntriesReadBack(index.entries, tail);
    assert content[12 + |entries|..] == tail;
    ExtensionReadBack(index.resolveUndo);
  }

  /**
   * Decoding an encoded index gives it back exactly when it is strictly sorted; an index with a duplicated or misplaced
   * entry is written without complaint and then refused.
   */
  lemma {:induction false} IndexRoundTrip(sha1: Sha1Sum, index: IndexData)
    requires Encodable(index) && AllSha1(index.entries) && ValidUndoEntries(index.resolveUndo)
    ensures IndexOfFile(sha1, Content(index) + sha1(Content(index)))
            == if StrictlySorted(index.entries) && UndoSorted(index.resolveUndo) then Ok(index) else Err(InvalidData)
  {
    hide Content, ParseBody, HeaderFits, StrictlySorted, UndoSorted, ValidUndoEntries, ValidIndexEntries;
    var content := Content(index);
    var file := content + sha1(content);
    ContentReadBack(index);
    assert file[..|file| - 20] == content && file[|file| - 20..] == sha1(content);
  }

  lemma {:induction false} ParsedEntries(rest: Bytes, count: nat)
    requires ParseEntries(rest, count).Ok?
    ensures AllSha1(ParseEntries(rest, count).value.0)
  {
    hide ParseEntry;
    if count > 0 { ParsedEntries(rest[ParseEntry(rest).value.1..], count - 1); }
  }

  /** Whatever decodes is a valid index, so it can be written again and read back unchanged. */
  lemma {:induction false} DecodedIsValid(sha1: Sha1Sum, bytes: Bytes)
    requires IndexOfFile(sha1, bytes).Ok?
    ensures var index := IndexOfFile(sha1, bytes).value;
            && ValidIndexEntries(index.entries) && StrictlySorted(index.entries) && AllSha1(index.entries)
            && |index.entries| < U32_LIMIT
            && ValidUndoEntries(index.resolveUndo) && UndoSorted(index.resolveUndo)
            && (Encodable(index) ==> IndexOfFile(sha1, Content(index) + sha1(Content(index))) == Ok(index))
  {
    hide ParseEntries, ParseExtensions, HeaderFits, Content, StrictlySorted, UndoSorted, ValidUndoEntries,
         ValidIndexEntries, Encodable;
    var content := bytes[..|bytes| - 20];
    ParsedEntries(content[12..], ReadU32(content, 8));
    var index := IndexOfFile(sha1, bytes).value;
    if Encodable(index) { IndexRoundTrip(sha1, index); }
  }
}
