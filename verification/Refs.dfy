/** The ref store: loose files over the packed-refs file (`refs.rs`). */
module Refs {
  import opened Common
  import opened ByteOrder
  import opened Objects
  import opened Utf8
  import opened RefFormat
  import opened RefTree
  import opened PackedRefs

  /** What the packed refs give for a name that no file hides. */
  function PackedRef(algorithm: HashAlgorithm, lines: seq<Bytes>, name: RefName): Result<RefTarget>
  {
    var found := FindPacked(algorithm, lines, name);
    if found.Err? then Err(found.error)
    else if found.value.None? then Err(NotFound)
    else Ok(Direct(found.value.value))
  }

  /** `read_ref`: a loose file hides a packed ref, and so does a directory with its name or a file above it. */
  function ReadRefOf(algorithm: HashAlgorithm, files: RefFiles, name: RefName): Result<RefTarget>
  {
    if !ValidRefName(name) then Err(InvalidInput)
    else if name in files.loose then ParseTarget(algorithm, files.loose[name])
    else if InTheWay(files, name).Some? then Err(InTheWay(files, name).value)
    else PackedRef(algorithm, files.packed, name)
  }

  datatype PackRefsOptions = PackRefsOptions(all: bool, prune: bool)

  /** What `peel_tag_ref` finds in the object store. */
  type Peel = ObjectId -> Result<Option<ObjectId>>

  /** A ref behind a file is as absent as one that is nowhere. */
  function Seen(r: Result<RefTarget>): Result<RefTarget>
  {
    if r == Err(NotADirectory) then Err(NotFound) else r
  }

  ghost predicate SameRefs(algorithm: HashAlgorithm, before: RefFiles, after: RefFiles)
  {
    forall n :: Seen(ReadRefOf(algorithm, after, n)) == Seen(ReadRefOf(algorithm, before, n))
  }

  /** The loose refs that are packed: tags, refs that are packed already, or all of them; never symbolic ones. */
  predicate Packable(algorithm: HashAlgorithm, files: RefFiles, packed: Ids, options: PackRefsOptions, name: RefName)
  {
    && name in files.loose && (options.all || TAGS <= name || name in packed)
    && ParseTarget(algorithm, files.loose[name]).Ok? && ParseTarget(algorithm, files.loose[name]).value.Direct?
  }

  /**
   * All loose refs with an id of their own if all are asked for, otherwise those below `refs/tags/` and the packed
   * ones.
   */
  lemma {:induction false} PackableMeans(algorithm: HashAlgorithm, files: RefFiles, packed: Ids,
                                         options: PackRefsOptions,
                                         name: RefName)
    ensures Packable(algorithm, files, packed, options, name) <==>
              && name in files.loose
              && (options.all || [114, 101, 102, 115, 47, 116, 97, 103, 115, 47] <= name || name in packed)
              && exists id :: ParseTarget(algorithm, files.loose[name]) == Ok(Direct(id))
  {
    hide ParseTarget;
    if name in files.loose && ParseTarget(algorithm, files.loose[name]).Ok? {
      var target := ParseTarget(algorithm, files.loose[name]).value;
      if target.Direct? { assert ParseTarget(algorithm, files.loose[name]) == Ok(Direct(target.id)); }
    }
  }

  /** The refs to be packed: the packed ones, and on top of them some loose ones with an id of their own. */
  ghost predicate Gathered(algorithm: HashAlgorithm, loose: map<RefName, Bytes>, packed: Ids, refs: Ids,
                           prune: set<RefName>)
  {
    && (forall n :: n in prune ==> n in loose && n in refs && ParseTarget(algorithm, loose[n]) == Ok(Direct(refs[n])))
    && (forall n :: n in packed && n !in prune ==> n in refs && refs[n] == packed[n])
    && (forall n :: n in refs ==> n in packed || n in prune)
    && (forall n :: n in refs ==> ValidRefName(n) && refs[n].algorithm == algorithm)
  }

  lemma {:induction false} GatherNext(algorithm: HashAlgorithm, loose: map<RefName, Bytes>, packed: Ids, refs: Ids,
                                      prune: set<RefName>,
                                      name: RefName, id: ObjectId)
    requires Gathered(algorithm, loose, packed, refs, prune) && name in loose && ValidRefName(name)
    requires ParseTarget(algorithm, loose[name]) == Ok(Direct(id))
    ensures Gathered(algorithm, loose, packed, refs[name := id], prune + {name})
  {
    hide ParseTarget, ValidRefName;
  }

  /** Every name that is looked up in packed-refs has one id there. */
  ghost predicate PackedAgree(algorithm: HashAlgorithm, files: RefFiles)
  {
    forall n :: ValidRefName(n) && n !in files.loose && InTheWay(files, n).None? ==>
      Unambiguous(algorithm, files.packed, n)
  }

  /**
   * Writing the gathered refs changes no ref exactly when every name without a loose file was unambiguous; a name that
   * had two different ids in packed-refs moves from its first to its last one.
   */
  lemma {:induction false} PackedWriteKeeps(algorithm: HashAlgorithm, before: RefFiles, refs: Ids, prune: set<RefName>,
                                            lines: seq<Bytes>)
    requires ReadPacked(algorithm, before.packed).Ok?
    requires Gathered(algorithm, before.loose, ReadPacked(algorithm, before.packed).value, refs, prune)
    requires Holds(algorithm, lines, refs)
    ensures SameRefs(algorithm, before, before.(packed := lines)) <==> PackedAgree(algorithm, before)
  {
    hide FindPacked, ReadPacked, ParseTarget, ValidRefName, InTheWay;
    var after := before.(packed := lines);
    var packed := ReadPacked(algorithm, before.packed).value;
    SameWay(before, lines);
    forall n | ValidRefName(n) && n !in before.loose && InTheWay(before, n).None?
      ensures Seen(ReadRefOf(algorithm, after, n)) == Seen(ReadRefOf(algorithm, before, n))
              <==> Unambiguous(algorithm, before.packed, n)
    {
      ReadersSee(algorithm, before.packed, n);
      assert FindPacked(algorithm, lines, n) == Ok(if n in packed then Some(packed[n]) else None);
    }
  }

  lemma {:induction false} SameWay(files: RefFiles, lines: seq<Bytes>)
    ensures forall n :: InTheWay(files.(packed := lines), n) == InTheWay(files, n)
  {
    hide Under;
    forall n ensures BehindFile(files.(packed := lines), n) == BehindFile(files, n) { }
  }

  /** No packed ref lies below one of the removed files, where it would appear. */
  ghost predicate NothingAppears(packed: Ids, removed: set<RefName>)
  {
    forall n, f :: n in packed && f in removed ==> !Under(f, n)
  }

  /** Removing loose files whose ids are packed changes no ref exactly when no packed ref lies below one of them. */
  lemma {:induction false} PruneKeeps(algorithm: HashAlgorithm, files: RefFiles, refs: Ids, removed: set<RefName>)
    requires FileTree(files) && Holds(algorithm, files.packed, refs) && removed <= files.loose.Keys
    requires forall n :: n in refs ==> ValidRefName(n)
    requires forall n :: n in removed ==> n in refs && ParseTarget(algorithm, files.loose[n]) == Ok(Direct(refs[n]))
    ensures SameRefs(algorithm, files, WithoutFiles(files, removed)) <==> NothingAppears(refs, removed)
  {
    hide FindPacked, ParseTarget, ValidRefName, FileTree, InTheWay, Under, Holds;
    var after := WithoutFiles(files, removed);
    forall n
      ensures (exists f :: f in removed && Under(f, n) && n in refs)
              <==> Seen(ReadRefOf(algorithm, after, n)) != Seen(ReadRefOf(algorithm, files, n))
    {
      PrunedRead(algorithm, files, refs, removed, n);
    }
  }

  lemma {:induction false} PrunedRead(algorithm: HashAlgorithm, files: RefFiles, refs: Ids, removed: set<RefName>,
                                      n: RefName)
    requires FileTree(files) && Holds(algorithm, files.packed, refs) && removed <= files.loose.Keys
    requires forall n :: n in refs ==> ValidRefName(n)
    requires forall n :: n in removed ==> n in refs && ParseTarget(algorithm, files.loose[n]) == Ok(Direct(refs[n]))
    ensures (exists f :: f in removed && Under(f, n) && n in refs)
            <==> Seen(ReadRefOf(algorithm, WithoutFiles(files, removed), n)) != Seen(ReadRefOf(algorithm, files, n))
  {
    hide FindPacked, ParseTarget, ValidRefName, FileTree, InTheWay, Under;
    WithoutFilesOpens(files, removed, n);
    assert FindPacked(algorithm, files.packed, n) == Ok(if n in refs then Some(refs[n]) else None);
  }

  // ---- Listings ----------------------------------------------------------------------------

  /** The names that start with the prefix. */
  function Starting(names: set<RefName>, prefix: Bytes): set<RefName>
  {
    set n | n in names && prefix <= n
  }

  /**
   * `list_refs`: the loose refs below the directory that the prefix names, and the packed refs that start with the
   * prefix. A loose ref under the name of the prefix itself is taken for that directory.
   */
  function Listing(algorithm: HashAlgorithm, files: RefFiles, prefix: Bytes): Result<set<RefName>>
  {
    if !ValidRefPrefix(prefix) then Err(InvalidInput)
    else if prefix in files.loose then Err(NotADirectory)
    else
      var packed := ReadPacked(algorithm, files.packed);
      if packed.Err? then Err(packed.error)
      else Ok(Starting(files.loose.Keys, DirectoryOf(prefix)) + Starting(packed.value.Keys, prefix))
  }

  /** Packing the names, and then removing some of them, leaves the listing for a prefix as it was. */
  predicate ListingStays(loose: map<RefName, Bytes>, packed: Ids, packable: set<RefName>, removed: set<RefName>,
                         prefix: Bytes)
  {
    if prefix in loose then prefix !in removed
    else forall n :: n in packable && prefix <= n ==> DirectoryOf(prefix) <= n || n in packed
  }

  /** So it is for all prefixes that end in a slash. */
  lemma {:induction false} SlashListingStays(loose: map<RefName, Bytes>, packed: Ids, packable: set<RefName>,
                                             removed: set<RefName>,
                                             prefix: Bytes)
    requires ValidRefPrefix(prefix) && prefix[|prefix| - 1] == SLASH
    requires forall n :: n in loose ==> ValidRefName(n)
    ensures ListingStays(loose, packed, packable, removed, prefix)
  {
    DirectoryExtends(prefix);
  }

  /** Lines in which some name cannot be found have all been read. */
  lemma {:induction false} AllLinesRead(algorithm: HashAlgorithm, lines: seq<Bytes>, name: RefName)
    requires FindPacked(algorithm, lines, name) == Ok(None)
    ensures ReadPacked(algorithm, lines).Ok?
  {
    hide ParsePackedLine, FindPacked, ValidRefName, IsRefLine;
    if lines != [] {
      var init, last := lines[..|lines| - 1], lines[|lines| - 1];
      assert lines == init + [last];
      FindAppend(algorithm, init, [last], name);
      FindOne(algorithm, last, name);
      AllLinesRead(algorithm, init, name);
    }
  }

  lemma {:induction false} HeldNames(algorithm: HashAlgorithm, lines: seq<Bytes>, refs: Ids)
    requires Holds(algorithm, lines, refs) && forall n :: n in refs ==> ValidRefName(n)
    ensures ReadPacked(algorithm, lines).Ok? && ReadPacked(algorithm, lines).value.Keys == refs.Keys
  {
    hide FindPacked, ReadPacked, IdsOf;
    var nobody: RefName := [];
    assert !ValidRefName(nobody);
    assert FindPacked(algorithm, lines, nobody) == Ok(None);
    AllLinesRead(algorithm, lines, nobody);
    forall n ensures n in ReadPacked(algorithm, lines).value <==> n in refs {
      ReadersSee(algorithm, lines, n);
      assert FindPacked(algorithm, lines, n) == Ok(if n in refs then Some(refs[n]) else None);
    }
  }

  lemma {:induction false} AlreadyThere(names: set<RefName>, more: set<RefName>)
    ensures names + more == names <==> more <= names
  {
    assert more <= names + more;
  }

  /** Whatever has been removed so far, exactly the listings for those prefixes are what they were before packing. */
  lemma {:induction false} PackedListing(algorithm: HashAlgorithm, before: RefFiles, refs: Ids, prune: set<RefName>,
                                         removed: set<RefName>,
                                         after: RefFiles, prefix: Bytes)
    requires ReadPacked(algorithm, before.packed).Ok? && ValidRefPrefix(prefix)
    requires Gathered(algorithm, before.loose, ReadPacked(algorithm, before.packed).value, refs, prune)
    requires Holds(algorithm, after.packed, refs) && removed <= prune && after.loose == before.loose - removed
    ensures Listing(algorithm, after, prefix) == Listing(algorithm, before, prefix)
            <==> ListingStays(before.loose, ReadPacked(algorithm, before.packed).value, prune, removed, prefix)
  {
    hide FindPacked, ReadPacked, ParseTarget, ValidRefName, ValidRefPrefix, Holds, TrimSlashes;
    HeldNames(algorithm, after.packed, refs);
    var packed := ReadPacked(algorithm, before.packed).value;
    if prefix !in before.loose {
      var listed := Starting(before.loose.Keys, DirectoryOf(prefix)) + Starting(packed.Keys, prefix);
      var relisted := Starting(after.loose.Keys, DirectoryOf(prefix)) + Starting(refs.Keys, prefix);
      DirectoryExtends(prefix);
      assert prefix <= DirectoryOf(prefix);
      assert relisted == listed + Starting(prune, prefix);
      AlreadyThere(listed, Starting(prune, prefix));
      assert forall n :: n in prune && prefix <= n ==> (n in listed <==> DirectoryOf(prefix) <= n || n in packed);
      assert ListingStays(before.loose, packed, prune, removed, prefix) <==> Starting(prune, prefix) <= listed;
    }
  }

  /** A state on the way: the new lines, and some of the removable loose files are gone. */
  predicate StepOf(before: RefFiles, lines: seq<Bytes>, removable: set<RefName>, state: RefFiles)
  {
    var removed := before.loose.Keys - state.loose.Keys;
    removed <= removable && state == WithoutFiles(before.(packed := lines), removed)
  }

  /** In every state from the write on, the listings are what they were, for exactly those prefixes. */
  ghost predicate ListingsKept(algorithm: HashAlgorithm, before: RefFiles, prune: set<RefName>, removable: set<RefName>,
                               steps: seq<RefFiles>)
    requires ReadPacked(algorithm, before.packed).Ok? && steps != []
  {
    forall prefix :: ValidRefPrefix(prefix) ==>
      var packed, last := ReadPacked(algorithm, before.packed).value, steps[|steps| - 1];
      if ListingStays(before.loose, packed, prune, removable, prefix) then
        forall k :: 0 <= k < |steps| ==> Listing(algorithm, steps[k], prefix) == Listing(algorithm, before, prefix)
      else Listing(algorithm, last, prefix) != Listing(algorithm, before, prefix)
  }

  lemma {:induction false} KeepsListings(algorithm: HashAlgorithm, before: RefFiles, refs: Ids, prune: set<RefName>,
                                         removable: set<RefName>,
                                         lines: seq<Bytes>, steps: seq<RefFiles>)
    requires ReadPacked(algorithm, before.packed).Ok? && steps != []
    requires Gathered(algorithm, before.loose, ReadPacked(algorithm, before.packed).value, refs, prune)
    requires Holds(algorithm, lines, refs) && removable <= prune
    requires forall k :: 0 <= k < |steps| ==> StepOf(before, lines, removable, steps[k])
    requires before.loose.Keys - steps[|steps| - 1].loose.Keys == removable
    ensures ListingsKept(algorithm, before, prune, removable, steps)
  {
    hide ReadPacked, ValidRefPrefix, Holds, Gathered, Listing, DirectoryOf;
    var last := |steps| - 1;
    forall prefix, k | ValidRefPrefix(prefix) && 0 <= k < |steps|
      ensures ListingStays(before.loose, ReadPacked(algorithm, before.packed).value, prune, removable, prefix) ==>
                Listing(algorithm, steps[k], prefix) == Listing(algorithm, before, prefix)
      ensures Listing(algorithm, steps[last], prefix) == Listing(algorithm, before, prefix) ==>
                ListingStays(before.loose, ReadPacked(algorithm, before.packed).value, prune, removable, prefix)
    {
      assert StepOf(before, lines, removable, steps[k]) && StepOf(before, lines, removable, steps[last]);
      PackedListing(algorithm, before, refs, prune, before.loose.Keys - steps[k].loose.Keys, steps[k], prefix);
      PackedListing(algorithm, before, refs, prune, removable, steps[last], prefix);
    }
  }

  lemma {:induction false} FirstStep(before: RefFiles, lines: seq<Bytes>, removable: set<RefName>)
    ensures StepOf(before, lines, removable, before.(packed := lines))
  {
    assert before.loose - {} == before.loose;
  }

  lemma {:induction false} NextStep(before: RefFiles, lines: seq<Bytes>, removable: set<RefName>, state: RefFiles,
                                    name: RefName)
    requires StepOf(before, lines, removable, state) && name in removable && name in before.loose
    ensures StepOf(before, lines, removable, WithoutFiles(state, {name}))
  {
    var removed := before.loose.Keys - state.loose.Keys;
    var after := state.loose - {name};
    assert before.loose.Keys - after.Keys == removed + {name};
    assert before.loose - (removed + {name}) == after;
  }

  /**
   * Of all states from the write on: when they have the refs of before, and when they have the refs of the last one.
   */
  ghost predicate RefsKept(algorithm: HashAlgorithm, before: RefFiles, removable: set<RefName>, steps: seq<RefFiles>)
    requires ReadPacked(algorithm, before.packed).Ok? && steps != []
  {
    var clear := NothingAppears(ReadPacked(algorithm, before.packed).value, removable);
    && (SameRefs(algorithm, before, steps[|steps| - 1]) <==> PackedAgree(algorithm, before) && clear)
    && (clear ==> forall k :: 0 <= k < |steps| ==> SameRefs(algorithm, steps[0], steps[k]))
  }

  lemma {:induction false} KeepsRefs(algorithm: HashAlgorithm, before: RefFiles, refs: Ids, prune: set<RefName>,
                                     removable: set<RefName>, lines: seq<Bytes>, steps: seq<RefFiles>)
    requires FileTree(before) && ReadPacked(algorithm, before.packed).Ok? && steps != []
    requires Gathered(algorithm, before.loose, ReadPacked(algorithm, before.packed).value, refs, prune)
    requires Holds(algorithm, lines, refs) && removable <= prune
    requires steps[0] == before.(packed := lines)
    requires forall k :: 0 <= k < |steps| ==> StepOf(before, lines, removable, steps[k])
    requires before.loose.Keys - steps[|steps| - 1].loose.Keys == removable
    ensures RefsKept(algorithm, before, removable, steps)
  {
    hide ReadPacked, ValidRefName, Holds, Gathered, SameRefs, PackedAgree, NothingAppears, FileTree;
    var packed, written, last := ReadPacked(algorithm, before.packed).value, steps[0], steps[|steps| - 1];
    PackedWriteKeeps(algorithm, before, refs, prune, lines);
    StepRefs(algorithm, before, refs, prune, removable, lines, last);
    if NothingAppears(packed, removable) {
      forall k | 0 <= k < |steps| ensures SameRefs(algorithm, written, steps[k]) {
        StepRefs(algorithm, before, refs, prune, removable, lines, steps[k]);
      }
      SameRefsAlong(algorithm, before, written, last);
    } else {
      RefAppears(algorithm, before, refs, prune, removable, lines, last);
    }
  }

  lemma {:induction false} StepRefs(algorithm: HashAlgorithm, before: RefFiles, refs: Ids, prune: set<RefName>,
                                    removable: set<RefName>, lines: seq<Bytes>, state: RefFiles)
    requires FileTree(before) && ReadPacked(algorithm, before.packed).Ok?
    requires Gathered(algorithm, before.loose, ReadPacked(algorithm, before.packed).value, refs, prune)
    requires Holds(algorithm, lines, refs) && removable <= prune && StepOf(before, lines, removable, state)
    ensures NothingAppears(ReadPacked(algorithm, before.packed).value, removable) ==>
              SameRefs(algorithm, before.(packed := lines), state)
  {
    hide ReadPacked, ValidRefName, Holds, SameRefs, ParseTarget, Under;
    var written := before.(packed := lines);
    var removed := before.loose.Keys - state.loose.Keys;
    PruneKeeps(algorithm, written, refs, removed);
    assert forall n, f :: n in prune && f in before.loose ==> !Under(f, n);
  }

  /** A packed ref below a removed file is read now. */
  lemma {:induction false} RefAppears(algorithm: HashAlgorithm, before: RefFiles, refs: Ids, prune: set<RefName>,
                                      removable: set<RefName>, lines: seq<Bytes>, last: RefFiles)
    requires FileTree(before) && ReadPacked(algorithm, before.packed).Ok?
    requires Gathered(algorithm, before.loose, ReadPacked(algorithm, before.packed).value, refs, prune)
    requires Holds(algorithm, lines, refs) && removable <= prune
    requires last == WithoutFiles(before.(packed := lines), removable)
    requires !NothingAppears(ReadPacked(algorithm, before.packed).value, removable)
    ensures !SameRefs(algorithm, before, last)
  {
    hide ReadPacked, ValidRefName, ParseTarget, Under, FindPacked, InTheWay, FileTree;
    var n, f :| n in ReadPacked(algorithm, before.packed).value && f in removable && Under(f, n);
    SameTree(before, lines);
    assert forall x :: x in removable ==> x in before.loose;
    WithoutFilesOpens(before.(packed := lines), removable, n);
    SameWay(before, lines);
    GatheredPacked(algorithm, before.loose, ReadPacked(algorithm, before.packed).value, refs, prune, n);
    assert FindPacked(algorithm, lines, n) == Ok(Some(refs[n]));
    assert Seen(ReadRefOf(algorithm, last, n)) == Ok(Direct(refs[n]));
    assert Seen(ReadRefOf(algorithm, before, n)) == Err(NotFound);
  }

  lemma {:induction false} GatheredPacked(algorithm: HashAlgorithm, loose: map<RefName, Bytes>, packed: Ids, refs: Ids,
                                          prune: set<RefName>, n: RefName)
    requires Gathered(algorithm, loose, packed, refs, prune) && n in packed
    ensures n in refs && ValidRefName(n)
  {
    hide ValidRefName, ParseTarget;
  }

  lemma {:induction false} SameRefsAlong(algorithm: HashAlgorithm, a: RefFiles, b: RefFiles, c: RefFiles)
    requires SameRefs(algorithm, b, c)
    ensures SameRefs(algorithm, a, b) <==> SameRefs(algorithm, a, c)
  {
    hide ReadRefOf;
  }

  /** All lines of packed-refs and all loose files can be parsed. */
  predicate Readable(algorithm: HashAlgorithm, files: RefFiles)
  {
    && ReadPacked(algorithm, files.packed).Ok?
    && forall n :: n in files.loose ==> ParseTarget(algorithm, files.loose[n]).Ok?
  }

  ghost function Packables(algorithm: HashAlgorithm, files: RefFiles, options: PackRefsOptions): (names: set<RefName>)
    requires ReadPacked(algorithm, files.packed).Ok?
    ensures forall n :: n in names <==>
              Packable(algorithm, files, ReadPacked(algorithm, files.packed).value, options, n)
  {
    set n | n in files.loose && Packable(algorithm, files, ReadPacked(algorithm, files.packed).value, options, n)
  }

  // ---- Writing and deleting one ref --------------------------------------------------------

  lemma {:induction false} WrittenRead(algorithm: HashAlgorithm, files: RefFiles, name: RefName, content: Bytes,
                                       n: RefName)
    requires FileTree(files) && InTheWay(files, name).None? && n != name && ValidRefName(n)
    ensures ReadRefOf(algorithm, WithFile(files, name, content), n)
            == if Under(n, name) then Err(IsADirectory)
               else if Under(name, n) then Err(NotADirectory)
               else ReadRefOf(algorithm, files, n)
  {
    hide ParseTarget, ValidRefName, FileTree, InTheWay, Under, PackedRef, Above;
    WithFileHides(files, name, content, n);
    if Under(name, n) {
      NotBoth(name, n);
      if name in files.loose { BehindThis(files, name, n); }
    }
  }

  lemma {:induction false} NotBoth(a: Bytes, b: Bytes)
    requires Under(a, b)
    ensures !Under(b, a)
  {
    UnderMeans(a, b);
    UnderMeans(b, a);
  }

  lemma {:induction false} BehindThis(files: RefFiles, f: RefName, n: RefName)
    requires FileTree(files) && f in files.loose && Under(f, n)
    ensures n !in files.loose && n !in files.dirs && InTheWay(files, n) == Some(NotADirectory)
  {
    hide ValidRefName, Under;
  }

  lemma {:induction false} SameTree(files: RefFiles, lines: seq<Bytes>)
    requires FileTree(files)
    ensures FileTree(files.(packed := lines))
  {
    hide ValidRefName, Under;
  }

  function WithoutEmptied(files: RefFiles, name: RefName): RefFiles
  {
    files.(dirs := files.dirs - Emptied(files, name))
  }

  /** The file of the name is gone, and with it the directories that held nothing else. */
  function Unlinked(files: RefFiles, name: RefName): RefFiles
  {
    if name in files.loose then WithoutEmptied(WithoutFiles(files, {name}), name) else files
  }

  /** `n` had the deleted file above it, or was the name of a directory that is gone. */
  predicate Uncovered(files: RefFiles, name: RefName, n: RefName)
  {
    name in files.loose && (Under(name, n) || n in Emptied(WithoutFiles(files, {name}), name))
  }

  lemma {:induction false} UnlinkedCases(files: RefFiles, name: RefName)
    requires FileTree(files)
    ensures name in files.loose ==> Unlinked(files, name) == WithoutEmptied(WithoutFiles(files, {name}), name)
    ensures name !in files.loose ==> Unlinked(files, name) == files
    ensures name in files.loose ==> InTheWay(files, name).None? && forall d :: Under(d, name) ==> d in files.dirs
    ensures WithoutFiles(files, {name}).dirs == files.dirs && WithoutFiles(files, {name}).packed == files.packed
    ensures WithoutEmptied(WithoutFiles(files, {name}), name).packed == files.packed
  {
    hide Under, ValidRefName, InTheWay, Emptied;
    if name in files.loose { FilesAreFree(files, name); }
  }

  /** What a deletion does to the other refs. */
  lemma {:induction false} DeletedReads(algorithm: HashAlgorithm, files: RefFiles, name: RefName, lines: seq<Bytes>)
    requires FileTree(files) && ValidRefName(name) && InTheWay(files, name).None?
    requires forall n :: FindPacked(algorithm, lines, n)
                         == if n == name then Ok(None) else FindPacked(algorithm, files.packed, n)
    ensures var after := Unlinked(files, name).(packed := lines);
            && ReadRefOf(algorithm, after, name) == Err(NotFound)
            && forall n :: n != name && ValidRefName(n) ==>
                 ReadRefOf(algorithm, after, n)
                 == if Uncovered(files, name, n) then PackedRef(algorithm, files.packed, n)
                    else ReadRefOf(algorithm, files, n)
  {
    hide ParseTarget, FindPacked, ValidRefName, FileTree, InTheWay, Under, Emptied;
    var after := Unlinked(files, name).(packed := lines);
    SameWay(Unlinked(files, name), lines);
    UnlinkedWay(files, name, name);
    forall n | n != name && ValidRefName(n)
      ensures ReadRefOf(algorithm, after, n)
              == if Uncovered(files, name, n) then PackedRef(algorithm, files.packed, n)
                 else ReadRefOf(algorithm, files, n)
    {
      UnlinkedWay(files, name, n);
    }
  }

  lemma {:induction false} UnlinkedWay(files: RefFiles, name: RefName, n: RefName)
    requires FileTree(files) && InTheWay(files, name).None?
    ensures n == name ==> n !in Unlinked(files, name).loose && InTheWay(Unlinked(files, name), n).None?
    ensures n != name ==>
              && (n in Unlinked(files, name).loose <==> n in files.loose)
              && (if Uncovered(files, name, n) then n !in files.loose && InTheWay(Unlinked(files, name), n).None?
                  else InTheWay(Unlinked(files, name), n) == InTheWay(files, n))
  {
    hide ValidRefName, FileTree, InTheWay, Under, Emptied;
    if name in files.loose {
      var removed := WithoutFiles(files, {name});
      WithoutFilesTree(files, {name});
      WithoutFilesOpens(files, {name}, n);
      EmptiedOpens(removed, name, n);
      DirsAreNoFiles(files);
    }
  }

  lemma {:induction false} DirsAreNoFiles(files: RefFiles)
    requires FileTree(files)
    ensures forall n :: n in files.loose ==> n !in files.dirs
  {
    hide ValidRefName, Under;
  }

  function PeelOf(id: ObjectId, peel: Peel): Option<ObjectId>
  {
    if peel(id).Ok? then peel(id).value else None
  }

  function Peels(refs: Ids, peel: Peel): map<RefName, Option<ObjectId>>
  {
    map n | n in refs :: PeelOf(refs[n], peel)
  }

  class RefStore {
    const algorithm: HashAlgorithm
    var files: RefFiles

    /** The ref files form a tree, and only exist under valid names. */
    ghost predicate Valid()
      reads this
    {
      FileTree(files)
    }

    constructor (algorithm: HashAlgorithm, files: RefFiles)
      requires FileTree(files)
      ensures this.algorithm == algorithm && Valid() && this.files == files
    {
      this.algorithm := algorithm;
      this.files := files;
    }

    /** `read_ref`. */
    method ReadRef(name: RefName) returns (r: Result<RefTarget>)
      ensures r == ReadRefOf(algorithm, files, name)
    {
      hide ValidRefName, ParsePackedLine, ParseTarget;
      if !ValidRefName(name) {
        return Err(InvalidInput);
      }
      if name in files.loose {
        return ParseTarget(algorithm, files.loose[name]);
      }
      if InTheWay(files, name).Some? {
        return Err(InTheWay(files, name).value);
      }
      var lines := files.packed;
      assert lines[0..] == lines;
      for i := 0 to |lines|
        invariant FindPacked(algorithm, lines, name) == FindPacked(algorithm, lines[i..], name)
      {
        assert lines[i..][1..] == lines[i + 1..];
        var line := ParsePackedLine(algorithm, lines[i]);
        if line.Err? {
          return Err(line.error);
        }
        if line.value.Some? && line.value.value.1 == name {
          return Ok(Direct(line.value.value.0));
        }
      }
      return Err(NotFound);
    }

    /**
     * `write_ref`: the ref reads back as the id. It needs its name and the directories above it, so packed refs above
     * and below it are hidden; no other ref changes.
     */
    method WriteRef(name: RefName, id: ObjectId) returns (failure: Option<Error>)
      requires Valid()
      modifies this
      ensures Valid()
      ensures failure == if !ValidRefName(name) || id.algorithm != algorithm then Some(InvalidInput)
                         else WriteObstacle(old(files), name)
      ensures failure.Some? ==> files == old(files)
      ensures failure.None? ==> files == WithFile(old(files), name, DirectText(id))
      ensures failure.None? ==> ReadRefOf(algorithm, files, name) == Ok(Direct(id))
      ensures failure.None? ==> forall n :: n != name && ValidRefName(n) ==>
                ReadRefOf(algorithm, files, n)
                == if Under(n, name) then Err(IsADirectory)
                   else if Under(name, n) then Err(NotADirectory)
                   else ReadRefOf(algorithm, old(files), n)
    {
      hide ValidRefName, ParseTarget, FindPacked, DirectText, FileTree, InTheWay, Under, Above;
      if !ValidRefName(name) {
        return Some(InvalidInput);
      }
      if id.algorithm != algorithm {
        return Some(InvalidInput);
      }
      if WriteObstacle(files, name).Some? {
        return WriteObstacle(files, name);
      }
      NoObstacle(files, name);
      DirectReadBack(id);
      WithFileTree(files, name, DirectText(id));
      forall n | n != name && ValidRefName(n)
        ensures ReadRefOf(algorithm, WithFile(files, name, DirectText(id)), n)
                == if Under(n, name) then Err(IsADirectory)
                   else if Under(name, n) then Err(NotADirectory)
                   else ReadRefOf(algorithm, files, n)
      {
        WrittenRead(algorithm, files, name, DirectText(id), n);
      }
      files := WithFile(files, name, DirectText(id));
      return None;
    }

    /** `read_packed_refs`. */
    method ReadPackedRefs() returns (r: Result<Ids>)
      ensures r == ReadPacked(algorithm, files.packed)
    {
      hide ParsePackedLine;
      var lines := files.packed;
      var refs: Ids := map[];
      for i := 0 to |lines|
        invariant ReadPacked(algorithm, lines[..i]) == Ok(refs)
      {
        assert lines[..i + 1][..i] == lines[..i] && lines[..i + 1][i] == lines[i];
        var line := ParsePackedLine(algorithm, lines[i]);
        if line.Err? {
          BrokenLine(algorithm, lines, i);
          return Err(line.error);
        }
        if line.value.Some? {
          refs := refs[line.value.value.1 := line.value.value.0];
        }
      }
      assert lines[..|lines|] == lines;
      return Ok(refs);
    }

    /** `list_refs`, without the order of the names. */
    method ListRefs(prefix: Bytes) returns (r: Result<set<RefName>>)
      ensures r == Listing(algorithm, files, prefix)
    {
      hide ParsePackedLine, ValidRefPrefix, ValidRefName, DirectoryOf;
      if !ValidRefPrefix(prefix) {
        return Err(InvalidInput);
      }
      if prefix in files.loose {
        return Err(NotADirectory);
      }
      var loose := Starting(files.loose.Keys, DirectoryOf(prefix));
      var names := loose;
      var lines := files.packed;
      for i := 0 to |lines|
        invariant ReadPacked(algorithm, lines[..i]).Ok?
        invariant names == loose + Starting(ReadPacked(algorithm, lines[..i]).value.Keys, prefix)
      {
        assert lines[..i + 1][..i] == lines[..i] && lines[..i + 1][i] == lines[i];
        var line := ParsePackedLine(algorithm, lines[i]);
        if line.Err? {
          BrokenLine(algorithm, lines, i);
          return Err(line.error);
        }
        if line.value.Some? && prefix <= line.value.value.1 {
          names := names + {line.value.value.1};
        }
      }
      assert lines[..|lines|] == lines;
      return Ok(names);
    }

    /** The loop over the loose refs: which ones are packed, and which may be removed afterwards. */
    method GatherRefs(options: PackRefsOptions, packed: Ids)
      returns (failure: Option<Error>, refs: Ids, prune: set<RefName>)
      requires Valid() && ReadPacked(algorithm, files.packed) == Ok(packed)
      ensures failure.None? ==> Gathered(algorithm, files.loose, packed, refs, prune)
      ensures failure.None? ==> forall n :: n in prune <==> Packable(algorithm, files, packed, options, n)
      ensures (forall n :: n in files.loose ==> ParseTarget(algorithm, files.loose[n]).Ok?) ==> failure.None?
    {
      hide ParseTarget, ReadPacked, ValidRefName;
      refs, prune := packed, {};
      var rest := files.loose.Keys;
      while rest != {}
        invariant rest <= files.loose.Keys
        invariant Gathered(algorithm, files.loose, packed, refs, prune)
        invariant forall n :: n in prune <==> n !in rest && Packable(algorithm, files, packed, options, n)
      {
        var name :| name in rest;
        rest := rest - {name};
        if !(options.all || TAGS <= name || name in packed) {
          continue;
        }
        var target := ParseTarget(algorithm, files.loose[name]);
        if target.Err? {
          return Some(target.error), refs, prune;
        }
        match target.value {
          case Direct(id) =>
            GatherNext(algorithm, files.loose, packed, refs, prune, name, id);
            refs := refs[name := id];
            prune := prune + {name};
          case Symbolic(_) =>
        }
      }
      return None, refs, prune;
    }

    /** The lines of the new packed-refs file. */
    method PackedText(refs: Ids, peel: Peel) returns (failure: Option<Error>, lines: seq<Bytes>)
      requires forall n :: n in refs ==> ValidRefName(n) && refs[n].algorithm == algorithm
      ensures failure.None? ==> Holds(algorithm, lines, refs)
      ensures failure.None? ==> (forall n :: n in refs ==> peel(refs[n]).Ok?)
                                && Says(algorithm, lines, refs, Peels(refs, peel))
      ensures (forall id :: peel(id).Ok?) ==> failure.None?
    {
      hide ValidRefName, Holds, Says, PackedLine, PeeledLine, Less;
      lines := [HEADER];
      HeaderHoldsNothing(algorithm);
      HeaderSaysNothing(algorithm);
      var written: Ids := map[];
      ghost var peels: map<RefName, Option<ObjectId>> := map[];
      var rest := refs.Keys;
      while rest != {}
        invariant rest <= refs.Keys
        invariant written == map n | n in refs && n !in rest :: refs[n]
        invariant forall n :: n in written ==> peel(refs[n]).Ok?
        invariant peels == map n | n in refs && n !in rest :: PeelOf(refs[n], peel)
        invariant forall m, n :: m in written && n in rest ==> Less(m, n)
        invariant Holds(algorithm, lines, written) && Says(algorithm, lines, written, peels)
      {
        ghost var least := LeastName(rest);
        var name :| name in rest && forall n :: n in rest ==> n == name || Less(name, n);
        rest := rest - {name};
        RefWritten(algorithm, lines, written, name, refs[name]);
        var peeled := peel(refs[name]);
        if peeled.Err? {
          return Some(peeled.error), lines;
        }
        SaysMore(algorithm, lines, written, peels, name, refs[name], peeled.value);
        ghost var block := RefLines(refs[name], name, peeled.value);
        ghost var before := lines;
        lines := lines + [PackedLine(refs[name], name)];
        written := written[name := refs[name]];
        peels := peels[name := peeled.value];
        if peeled.value.Some? {
          PeeledWritten(algorithm, lines, written, peeled.value.value);
          lines := lines + [PeeledLine(peeled.value.value)];
        }
        assert lines == before + block;
      }
      assert written == refs && peels == Peels(refs, peel);
      return None, lines;
    }

    /** `pack_refs`. `steps` are the states after the write and after each single removal. */
    method PackRefs(options: PackRefsOptions, peel: Peel) returns (failure: Option<Error>, ghost steps: seq<RefFiles>)
      requires Valid()
      modifies this
      ensures Valid()
      ensures failure.Some? ==> files == old(files)
      ensures Readable(algorithm, old(files)) && (forall id :: peel(id).Ok?) ==> failure.None?
      ensures failure.None? ==>
                && ReadPacked(algorithm, old(files).packed).Ok?
                && files.dirs == old(files).dirs
                && files.loose
                   == (map n | n in old(files).loose
                               && !(options.prune && n in Packables(algorithm, old(files), options)) ::
                         old(files).loose[n])
                && (forall n :: n in Packables(algorithm, old(files), options) ==>
                      FindPacked(algorithm, files.packed, n)
                          == Ok(Some(ParseTarget(algorithm, old(files).loose[n]).value.id)))
                && steps != [] && steps[|steps| - 1] == files
                && (exists refs: Ids :: Says(algorithm, files.packed, refs, Peels(refs, peel)))
                && var names := Packables(algorithm, old(files), options);
                   var removed := if options.prune then names else {};
                   && RefsKept(algorithm, old(files), removed, steps)
                   && ListingsKept(algorithm, old(files), names, removed, steps)
    {
      hide Says, Peels, PeelOf, Less, WithFile, Packables, ListingsKept, RefsKept, FileTree, StepOf, ParseTarget,
           FindPacked, ReadPacked, ValidRefName, SameRefs, Unambiguous, Holds, Gathered, Packable;
      steps := [];
      ghost var before := files;
      var packed := ReadPackedRefs();
      if packed.Err? {
        return Some(packed.error), steps;
      }
      var refs, prune;
      failure, refs, prune := GatherRefs(options, packed.value);
      if failure.Some? {
        return;
      }
      var lines;
      GatheredRefs(algorithm, files.loose, packed.value, refs, prune);
      failure, lines := PackedText(refs, peel);
      if failure.Some? {
        return;
      }
      SameTree(files, lines);
      files := files.(packed := lines);
      steps := [files];
      ghost var gone := prune;
      assert gone == Packables(algorithm, before, options);
      ghost var removable := if options.prune then gone else {};
      FirstStep(before, lines, removable);
      if options.prune {
        while prune != {}
          invariant Valid() && prune <= gone && files == WithoutFiles(before.(packed := lines), gone - prune)
          invariant steps != [] && steps[0] == before.(packed := lines) && steps[|steps| - 1] == files
          invariant forall k :: 0 <= k < |steps| ==> StepOf(before, lines, removable, steps[k])
        {
          var name :| name in prune;
          prune := prune - {name};
          NextStep(before, lines, removable, files, name);
          WithoutFilesTree(files, {name});
          files := WithoutFiles(files, {name});
          steps := steps + [files];
        }
      }
      KeepsRefs(algorithm, before, refs, gone, removable, lines, steps);
      KeepsListings(algorithm, before, refs, gone, removable, lines, steps);
      AllPacked(algorithm, lines, refs, gone);
      failure := None;
    }

    /** `prune_empty_ref_parent_dirs`. */
    method PruneEmptyParents(name: RefName)
      requires Valid() && ValidRefName(name) && forall d :: Under(d, name) ==> d in files.dirs
      modifies this
      ensures Valid() && files == WithoutEmptied(old(files), name)
    {
      hide ValidRefName, FileTree, Under, Emptied, Deep, Occupied, Pruning;
      ghost var before := files;
      PruningStarts(before, name);
      var dir := Parent(name);
      while Deep(dir) && !Occupied(files, dir)
        invariant files == before.(dirs := files.dirs) && Under(dir, name) && Pruning(before, name, files.dirs, dir)
        decreases |dir|
      {
        PruningStep(before, name, files.dirs, dir);
        UnderTransitive(Parent(dir), dir, name);
        files := files.(dirs := files.dirs - {dir});
        dir := Parent(dir);
      }
      PruningEnds(before, name, files.dirs, dir);
      EmptiedTree(before, name);
    }

    /**
     * `delete_ref`: on success the ref is gone. Its file and the directories that have become empty hide no packed ref
     * any more; every other ref is as before, and so is every other packed record if no peeled id joins another line.
     */
    method DeleteRef(name: RefName) returns (failure: Option<Error>)
      requires Valid()
      modifies this
      ensures Valid()
      ensures !ValidRefName(name) ==> failure == Some(InvalidInput) && files == old(files)
      ensures ValidRefName(name) && InTheWay(old(files), name).Some? ==>
                failure == InTheWay(old(files), name) && files == old(files)
      ensures failure.None? <==>
                && ValidRefName(name) && InTheWay(old(files), name).None?
                && var found := FindPacked(algorithm, old(files).packed, name);
                && found.Ok? && (name in old(files).loose || found.value.Some?)
                && (found.value.Some? ==> Without(algorithm, old(files).packed, name, false).Ok?)
      ensures files == if ValidRefName(name) then Unlinked(old(files), name).(packed := files.packed) else old(files)
      ensures failure.Some? ==> files.packed == old(files).packed
      ensures failure.None? ==> ReadRefOf(algorithm, files, name) == Err(NotFound)
      ensures failure.None? ==> forall n :: n != name && ValidRefName(n) ==>
                ReadRefOf(algorithm, files, n)
                == if Uncovered(old(files), name, n) then PackedRef(algorithm, old(files).packed, n)
                   else ReadRefOf(algorithm, old(files), n)
      ensures failure.None? ==>
                (Records(algorithm, files.packed) == RecordsWithout(Records(algorithm, old(files).packed), name)
                 <==> PeeledStay(algorithm, old(files).packed, name, false))
      ensures failure == Some(NotFound) ==>
                files == old(files) && ReadRefOf(algorithm, files, name) == Err(NotFound)
    {
      hide ParsePackedLine, ParseTarget, FindPacked, ValidRefName, Without, Records, RecordsWithout, PeeledStay,
           FileTree, InTheWay, Under, Emptied, WithoutEmptied, Unlinked, Uncovered;
      if !ValidRefName(name) {
        return Some(InvalidInput);
      }
      ghost var before := files;
      UnlinkedCases(files, name);
      var deleted := name in files.loose;
      if deleted {
        WithoutFilesTree(files, {name});
        files := WithoutFiles(files, {name});
        PruneEmptyParents(name);
      } else if InTheWay(files, name).Some? {
        return InTheWay(files, name);
      }
      var found := PackedRefsContain(name);
      if found.Err? {
        return Some(found.error);
      }
      if !found.value {
        NothingToDelete(algorithm, files.packed, name);
        DeletedReads(algorithm, before, name, files.packed);
        return if deleted then None else Some(NotFound);
      }
      var lines := WriteWithout(name);
      if lines.Err? {
        WithoutError(algorithm, files.packed, name, false);
        return Some(lines.error);
      }
      forall n
        ensures FindPacked(algorithm, lines.value, n)
                == if n == name then Ok(None) else FindPacked(algorithm, files.packed, n)
      {
        WithoutFinds(algorithm, files.packed, name, false, n);
      }
      WithoutRecords(algorithm, files.packed, name, false);
      SameTree(files, lines.value);
      files := files.(packed := lines.value);
      DeletedReads(algorithm, before, name, files.packed);
      return None;
    }

    /** `packed_refs_contains_ref`. */
    method PackedRefsContain(name: RefName) returns (r: Result<bool>)
      ensures match FindPacked(algorithm, files.packed, name)
              case Err(e) => r == Err(e)
              case Ok(found) => r == Ok(found.Some?)
    {
      hide ParsePackedLine;
      var lines := files.packed;
      assert lines[0..] == lines;
      for i := 0 to |lines|
        invariant FindPacked(algorithm, lines, name) == FindPacked(algorithm, lines[i..], name)
      {
        assert lines[i..][1..] == lines[i + 1..];
        var line := ParsePackedLine(algorithm, lines[i]);
        if line.Err? {
          return Err(line.error);
        }
        if line.value.Some? && line.value.value.1 == name {
          return Ok(true);
        }
      }
      return Ok(false);
    }

    /** `write_packed_refs_without_ref`, with its `skip_peeled` flag. */
    method WriteWithout(name: RefName) returns (r: Result<seq<Bytes>>)
      ensures r == Without(algorithm, files.packed, name, false)
    {
      hide ParsePackedLine, Prepend, ValidUtf8;
      var lines := files.packed;
      var kept: seq<Bytes> := [];
      var skipPeeled := false;
      assert lines[0..] == lines;
      for i := 0 to |lines|
        invariant Without(algorithm, lines, name, false)
                  == Prepend(kept, Without(algorithm, lines[i..], name, skipPeeled))
      {
        assert lines[i..][1..] == lines[i + 1..];
        if !ValidUtf8(lines[i]) {
          PrependError(kept, InvalidData);
          return Err(InvalidData);
        }
        if skipPeeled && IsPeeled(lines[i]) {
          skipPeeled := false;
          continue;
        }
        var line := ParsePackedLine(algorithm, lines[i]);
        if line.Err? {
          PrependError(kept, line.error);
          return Err(line.error);
        }
        if line.value.Some? && line.value.value.1 == name {
          skipPeeled := true;
          continue;
        }
        PrependTwice(kept, [lines[i]], Without(algorithm, lines[i + 1..], name, false));
        skipPeeled := false;
        kept := kept + [lines[i]];
      }
      return Ok(kept);
    }
  }

  lemma {:induction false} GatheredRefs(algorithm: HashAlgorithm, loose: map<RefName, Bytes>, packed: Ids, refs: Ids,
                                        prune: set<RefName>)
    requires Gathered(algorithm, loose, packed, refs, prune)
    ensures forall n :: n in refs ==> ValidRefName(n) && refs[n].algorithm == algorithm
    ensures forall n :: n in prune ==>
            n in loose && n in refs && ParseTarget(algorithm, loose[n]) == Ok(Direct(refs[n]))
  {
    hide ValidRefName, ParseTarget;
  }

  lemma {:induction false} AllPacked(algorithm: HashAlgorithm, lines: seq<Bytes>, refs: Ids, names: set<RefName>)
    requires Holds(algorithm, lines, refs) && forall n :: n in names ==> n in refs
    ensures forall n :: n in names ==> FindPacked(algorithm, lines, n) == Ok(Some(refs[n]))
  {
    hide FindPacked;
  }

  /** A packed ref behind a file: it is not read, until that file is packed and removed. */
  lemma {:induction false} RefBehindFile(file: RefName, name: RefName, id: ObjectId, other: ObjectId)
    requires ValidRefName(file) && ValidRefName(name) && Under(file, name)
    ensures var files := RefFiles(map[file := DirectText(id)], Above(file), [PackedLine(other, name)]);
            && FileTree(files)
            && ReadRefOf(other.algorithm, files, name) == Err(NotADirectory)
            && ReadRefOf(other.algorithm, WithoutFiles(files, {file}), name) == Ok(Direct(other))
  {
    hide ParsePackedLine, PackedLine, ValidRefName, Under, Above, DirectText, FileTree, InTheWay;
    var nothing := RefFiles(map[], {}, [PackedLine(other, name)]);
    EmptyTree(nothing, file);
    WithFileTree(nothing, file, DirectText(id));
    var files := WithFile(nothing, file, DirectText(id));
    assert files == RefFiles(map[file := DirectText(id)], Above(file), [PackedLine(other, name)]);
    WithoutFilesOpens(files, {file}, name);
    PackedLineReadBack(other, name);
    FindOne(other.algorithm, PackedLine(other, name), name);
  }

  lemma {:induction false} EmptyTree(files: RefFiles, name: RefName)
    requires files.loose == map[] && files.dirs == {}
    ensures FileTree(files) && InTheWay(files, name).None?
  {
  }

  /** Two lines with different ids for one name: reading the ref takes the first, packing keeps the last. */
  lemma {:induction false} DuplicateMoves(algorithm: HashAlgorithm, name: RefName, first: ObjectId, last: ObjectId)
    requires ValidRefName(name) && first.algorithm == algorithm && last.algorithm == algorithm && first != last
    ensures var lines := [PackedLine(first, name), PackedLine(last, name)];
            && ReadRefOf(algorithm, RefFiles(map[], {}, lines), name) == Ok(Direct(first))
            && ReadPacked(algorithm, lines) == Ok(map[name := last])
            && !Unambiguous(algorithm, lines, name)
  {
    hide ParsePackedLine, PackedLine, ValidRefName;
    PackedLineReadBack(first, name);
    PackedLineReadBack(last, name);
    IdsAppend(algorithm, [PackedLine(first, name)], PackedLine(last, name), name);
    assert [PackedLine(first, name)] + [PackedLine(last, name)] == [PackedLine(first, name), PackedLine(last, name)];
    var lines := [PackedLine(first, name), PackedLine(last, name)];
    var one: seq<Bytes> := [PackedLine(first, name)];
    assert lines[..|lines| - 1] == one && map[name := first][name := last] == map[name := last];
    assert ReadPacked(algorithm, one) == Ok(map[name := first]);
  }

  /**
   * A prefix that does not end in a slash: the ref `refs/ha` is not below a directory `refs/h`, but its packed line
   * starts with that prefix.
   */
  lemma {:induction false} PrefixFindsPacked(id: ObjectId)
    ensures var prefix, name := [114, 101, 102, 115, 47, 104], [114, 101, 102, 115, 47, 104, 97];
            && Listing(id.algorithm, RefFiles(map[name := DirectText(id)], Above(name), []), prefix) == Ok({})
            && Listing(id.algorithm, RefFiles(map[], Above(name), [PackedLine(id, name)]), prefix) == Ok({name})
  {
    hide ParsePackedLine, PackedLine, DirectText, ValidRefName, ValidRefPrefix, DirectoryOf;
    var prefix: Bytes, name: Bytes := [114, 101, 102, 115, 47, 104], [114, 101, 102, 115, 47, 104, 97];
    ShortNames();
    DirectoryExtends(prefix);
    assert DirectoryOf(prefix)[6] == SLASH && name[6] == 97;
    assert !(DirectoryOf(prefix) <= name) && prefix <= name;
    PackedLineReadBack(id, name);
    var lines := [PackedLine(id, name)];
    assert lines[..|lines| - 1] == [];
    assert ReadPacked(id.algorithm, []) == Ok(map[]);
    assert ReadPacked(id.algorithm, lines) == Ok(map[name := id]);
    var loose, packed: Ids, none: Ids := map[name := DirectText(id)], map[name := id], map[];
    assert Starting(loose.Keys, DirectoryOf(prefix)) + Starting(none.Keys, prefix) == {};
    var noFiles: map<RefName, Bytes> := map[];
    assert Starting(noFiles.Keys, DirectoryOf(prefix)) + Starting(packed.Keys, prefix) == {name};
  }

  lemma {:induction false} ShortNames()
    ensures ValidRefPrefix([114, 101, 102, 115, 47, 104])
    ensures ValidRefName([114, 101, 102, 115, 47, 104, 97])
  {
    hide ValidRefPrefix, ValidRefName;
    ShortPrefix();
    ShortName();
  }

  lemma {:induction false} ShortPrefix()
    ensures ValidRefPrefix([114, 101, 102, 115, 47, 104])
  {
    hide Split;
    var refs: Bytes, h: Bytes := [114, 101, 102, 115], [104];
    SplitFirst(refs, SLASH, h);
    SplitFirst(h, SLASH, []);
    assert refs + [SLASH] + h == [114, 101, 102, 115, 47, 104];
  }

  lemma {:induction false} ShortName()
    ensures ValidRefName([114, 101, 102, 115, 47, 104, 97])
  {
    hide Split, ValidUtf8;
    AsciiIsValid([114, 101, 102, 115, 47, 104, 97]);
    var refs: Bytes, ha: Bytes := [114, 101, 102, 115], [104, 97];
    SplitFirst(refs, SLASH, ha);
    SplitFirst(ha, SLASH, []);
    assert refs + [SLASH] + ha == [114, 101, 102, 115, 47, 104, 97];
  }
}
