/** The tree object format (`tree.rs`, encode_tree and decode_tree). */
module TreeCodec {
  import opened Common
  import opened Objects

  datatype TreeMode = File | Executable | Symlink | Tree | Gitlink

  datatype TreeEntry = TreeEntry(mode: TreeMode, name: Bytes, id: ObjectId)

  function ModeBytes(mode: TreeMode): Bytes
  {
    match mode
    case File => [49, 48, 48, 54, 52, 52]
    case Executable => [49, 48, 48, 55, 53, 53]
    case Symlink => [49, 50, 48, 48, 48, 48]
    case Tree => [52, 48, 48, 48, 48]
    case Gitlink => [49, 54, 48, 48, 48, 48]
  }

  function ParseMode(bytes: Bytes): Option<TreeMode>
  {
    if bytes == ModeBytes(File) then Some(File)
    else if bytes == ModeBytes(Executable) then Some(Executable)
    else if bytes == ModeBytes(Symlink) then Some(Symlink)
    else if bytes == ModeBytes(TreeMode.Tree) then Some(TreeMode.Tree)
    else if bytes == ModeBytes(Gitlink) then Some(Gitlink)
    else None
  }

  /** `validate_tree_name`. */
  predicate ValidName(name: Bytes)
  {
    name != [] && NUL !in name && SLASH !in name
  }

  predicate ValidNames(entries: seq<TreeEntry>)
  {
    forall i :: 0 <= i < |entries| ==> ValidName(entries[i].name)
  }

  function EncodeEntry(e: TreeEntry): Bytes
  {
    ModeBytes(e.mode) + [SPACE] + e.name + [NUL] + e.id.digest
  }

  function EncodeEntries(entries: seq<TreeEntry>): Bytes
  {
    if entries == [] then [] else EncodeEntry(entries[0]) + EncodeEntries(entries[1..])
  }

  lemma {:induction false} AppendNext(encoded: Bytes, entries: seq<TreeEntry>)
    requires entries != []
    ensures encoded + EncodeEntries(entries) == encoded + EncodeEntry(entries[0]) + EncodeEntries(entries[1..])
  {
  }

  method EncodeTree(entries: seq<TreeEntry>) returns (r: Result<Bytes>)
    ensures r == if ValidNames(entries) then Ok(EncodeEntries(entries)) else Err(InvalidInput)
  {
    var encoded := [];
    for i := 0 to |entries|
      invariant ValidNames(entries[..i])
      invariant encoded + EncodeEntries(entries[i..]) == EncodeEntries(entries)
    {
      var entry := entries[i];
      if !ValidName(entry.name) {
        return Err(InvalidInput);
      }
      assert entries[..i + 1] == entries[..i] + [entry] && entries[i..][1..] == entries[i + 1..];
      AppendNext(encoded, entries[i..]);
      encoded := encoded + EncodeEntry(entry);
    }
    assert entries[..|entries|] == entries && encoded + [] == encoded;
    return Ok(encoded);
  }

  /** The first entry of `bytes` and how many bytes it takes. */
  function ParseEntry(algorithm: HashAlgorithm, bytes: Bytes): (r: Result<(TreeEntry, nat)>)
    ensures r.Ok? ==> 0 < r.value.1 <= |bytes| && ValidName(r.value.0.name) && r.value.0.id.algorithm == algorithm
  {
    var modeEnd := IndexOf(bytes, SPACE);
    if modeEnd == |bytes| then Err(InvalidData) else
    var mode := ParseMode(bytes[..modeEnd]);
    if mode.None? then Err(InvalidData) else
    var nameEnd := modeEnd + 1 + IndexOf(bytes[modeEnd + 1..], NUL);
    if nameEnd == |bytes| then Err(InvalidData) else
    var name := bytes[modeEnd + 1..nameEnd];
    if !ValidName(name) then Err(InvalidInput) else
    var end := nameEnd + 1 + algorithm.DigestLen();
    if |bytes| < end then Err(InvalidData) else
    Ok((TreeEntry(mode.value, name, ObjectId(algorithm, bytes[nameEnd + 1..end])), end))
  }

  function DecodeEntries(algorithm: HashAlgorithm, bytes: Bytes): (r: Result<seq<TreeEntry>>)
    ensures r.Ok? ==> ValidNames(r.value)
    ensures r.Ok? ==> forall i :: 0 <= i < |r.value| ==> r.value[i].id.algorithm == algorithm
  {
    if bytes == [] then Ok([]) else
    var first := ParseEntry(algorithm, bytes);
    if first.Err? then Err(first.error) else
    Prepend([first.value.0], DecodeEntries(algorithm, bytes[first.value.1..]))
  }

  lemma {:induction false} DecodeNext(algorithm: HashAlgorithm, done: seq<TreeEntry>, bytes: Bytes)
    requires bytes != []
    ensures var first := ParseEntry(algorithm, bytes);
            Prepend(done, DecodeEntries(algorithm, bytes))
            == if first.Err? then Err(first.error)
               else Prepend(done + [first.value.0], DecodeEntries(algorithm, bytes[first.value.1..]))
  {
    hide ParseEntry;
    var first := ParseEntry(algorithm, bytes);
    if first.Ok? {
      var rest := DecodeEntries(algorithm, bytes[first.value.1..]);
      if rest.Ok? {
        assert done + ([first.value.0] + rest.value) == done + [first.value.0] + rest.value;
      }
    }
  }

  lemma {:induction false} DecodeNothing(algorithm: HashAlgorithm)
    ensures DecodeEntries(algorithm, []) == Ok([])
  {
  }

  method DecodeTree(algorithm: HashAlgorithm, bytes: Bytes) returns (r: Result<seq<TreeEntry>>)
    ensures r == DecodeEntries(algorithm, bytes)
  {
    hide DecodeEntries, ParseEntry;
    var cursor := 0;
    var entries := [];
    assert bytes[0..] == bytes;
    while cursor < |bytes|
      invariant cursor <= |bytes|
      invariant DecodeEntries(algorithm, bytes) == Prepend(entries, DecodeEntries(algorithm, bytes[cursor..]))
    {
      DecodeNext(algorithm, entries, bytes[cursor..]);
      var next := ParseEntry(algorithm, bytes[cursor..]);
      if next.Err? {
        return Err(next.error);
      }
      assert bytes[cursor..][next.value.1..] == bytes[cursor + next.value.1..];
      entries := entries + [next.value.0];
      cursor := cursor + next.value.1;
    }
    assert bytes[cursor..] == [];
    DecodeNothing(algorithm);
    return Ok(entries);
  }

  lemma {:induction false} ModeRoundTrip(mode: TreeMode)
    ensures ParseMode(ModeBytes(mode)) == Some(mode) && SPACE !in ModeBytes(mode)
  {
  }

  /** The five fields of an encoded entry can be cut out again. */
  lemma {:induction false} CutFields(mode: Bytes, name: Bytes, digest: Bytes, rest: Bytes)
    requires SPACE !in mode && NUL !in name
    ensures var bytes := mode + [SPACE] + name + [NUL] + digest + rest;
            var nameEnd := |mode| + 1 + |name|;
            && IndexOf(bytes, SPACE) == |mode| && bytes[..|mode|] == mode
            && IndexOf(bytes[|mode| + 1..], NUL) == |name| && bytes[|mode| + 1..nameEnd] == name
            && bytes[nameEnd + 1..nameEnd + 1 + |digest|] == digest
            && bytes[nameEnd + 1 + |digest|..] == rest
  {
    var bytes := mode + [SPACE] + name + [NUL] + digest + rest;
    var afterMode := name + [NUL] + (digest + rest);
    assert bytes == mode + [SPACE] + afterMode;
    IndexOfFirst(mode, SPACE, afterMode);
    assert bytes[|mode| + 1..] == afterMode;
    IndexOfFirst(name, NUL, digest + rest);
  }

  lemma {:induction false} EntryRoundTrip(algorithm: HashAlgorithm, e: TreeEntry, rest: Bytes)
    requires ValidName(e.name) && e.id.algorithm == algorithm
    ensures ParseEntry(algorithm, EncodeEntry(e) + rest) == Ok((e, |EncodeEntry(e)|))
  {
    ModeRoundTrip(e.mode);
    CutFields(ModeBytes(e.mode), e.name, e.id.digest, rest);
  }

  /** Decoding an encoded tree gives its entries back. */
  lemma {:induction false} TreeRoundTrip(algorithm: HashAlgorithm, entries: seq<TreeEntry>)
    requires ValidNames(entries)
    requires forall i :: 0 <= i < |entries| ==> entries[i].id.algorithm == algorithm
    ensures DecodeEntries(algorithm, EncodeEntries(entries)) == Ok(entries)
  {
    if entries != [] {
      var rest := EncodeEntries(entries[1..]);
      EntryRoundTrip(algorithm, entries[0], rest);
      TreeRoundTrip(algorithm, entries[1..]);
      assert EncodeEntries(entries)[|EncodeEntry(entries[0])|..] == rest;
      assert entries == [entries[0]] + entries[1..];
    }
  }

  /** `read_tree`. */
  function ReadTree(store: Store, id: ObjectId): (r: Result<seq<TreeEntry>>)
    ensures r.Ok? ==> ValidNames(r.value)
  {
    var found := ReadObject(store, id);
    if found.Err? then Err(found.error)
    else if found.value.kind != ObjectKind.Tree then Err(InvalidData)
    else DecodeEntries(id.algorithm, found.value.content)
  }

  /** The trees a store can produce, decoded. */
  type Trees = imap<ObjectId, seq<TreeEntry>>

  ghost predicate ValidTrees(trees: Trees)
  {
    forall id :: id in trees ==> ValidNames(trees[id])
  }

  ghost function TreesOf(store: Store): (trees: Trees)
    ensures ValidTrees(trees)
    ensures forall id :: id in trees <==> ReadTree(store, id).Ok?
    ensures forall id :: id in trees ==> trees[id] == ReadTree(store, id).value
  {
    imap id | ReadTree(store, id).Ok? :: ReadTree(store, id).value
  }
}
