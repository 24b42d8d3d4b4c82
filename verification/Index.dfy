/** Index entries, their validation and their order (`index.rs`). */
module Index {
  import opened Common
  import opened ByteOrder
  import opened Objects
  import opened TreeCodec
  import opened Words

  datatype IndexMode = File | Executable | Symlink | Gitlink {
    function ToTreeMode(): TreeMode {
      match this
      case File => TreeMode.File
      case Executable => TreeMode.Executable
      case Symlink => TreeMode.Symlink
      case Gitlink => TreeMode.Gitlink
    }

    /** `IndexMode::bits`: the octal modes 100644, 100755, 120000 and 160000. */
    function Bits(): u32 {
      match this
      case File => 0x81A4
      case Executable => 0x81ED
      case Symlink => 0xA000
      case Gitlink => 0xE000
    }
  }

  /** `IndexMode::from_bits`, the inverse of `bits`. */
  function ModeFromBits(bits: int): (r: Result<IndexMode>)
    ensures forall m: IndexMode :: r == Ok(m) <==> bits == m.Bits()
    ensures r.Err? ==> r.error == InvalidData
  {
    if bits == 0x81A4 then Ok(IndexMode.File)
    else if bits == 0x81ED then Ok(IndexMode.Executable)
    else if bits == 0xA000 then Ok(IndexMode.Symlink)
    else if bits == 0xE000 then Ok(IndexMode.Gitlink)
    else Err(InvalidData)
  }

  /** `index_mode_from_tree_mode`: only sub-trees have no index mode. */
  function FromTreeMode(mode: TreeMode): (r: Result<IndexMode>)
    ensures r.Ok? <==> mode != TreeMode.Tree
    ensures r.Ok? ==> r.value.ToTreeMode() == mode
  {
    match mode
    case File => Ok(IndexMode.File)
    case Executable => Ok(IndexMode.Executable)
    case Symlink => Ok(IndexMode.Symlink)
    case Gitlink => Ok(IndexMode.Gitlink)
    case Tree => Err(InvalidData)
  }

  datatype IndexEntry = IndexEntry(
    path: Bytes, id: ObjectId, mode: IndexMode, stage: nat, size: u32,
    ctimeSeconds: u32, ctimeNanoseconds: u32, mtimeSeconds: u32, mtimeNanoseconds: u32,
    dev: u32, ino: u32, uid: u32, gid: u32,
    assumeValid: bool, skipWorktree: bool, intentToAdd: bool)

  /** What a tree walk materializes for a file: stage 0 and no stat data. */
  function TreeIndexEntry(path: Bytes, id: ObjectId, mode: IndexMode): IndexEntry
  {
    IndexEntry(path, id, mode, 0, 0, 0, 0, 0, 0, 0, 0, 0, 0, false, false, false)
  }

  /** Entries in strictly increasing path order. */
  ghost predicate PathSorted(entries: seq<IndexEntry>)
  {
    forall i, j :: 0 <= i < j < |entries| ==> Less(entries[i].path, entries[j].path)
  }

  // ---- Validation and order ----------------------------------------------------------------

  /**
   * `validate_index_path`. The test for an inner `/../` compares three-byte windows with those four bytes, so it never
   * rejects anything: an inner `..` component is accepted.
   */
  predicate ValidIndexPath(path: Bytes)
  {
    && path != []
    && NUL !in path && path[0] != SLASH
    && path != PARENT && !(PARENT + [SLASH] <= path) && !EndsInParent(path)
  }

  const PARENT: Bytes := [DOT, DOT]
  const INNER_PARENT: Bytes := [SLASH, DOT, DOT, SLASH]

  /** A four-byte window `/../`. */
  predicate HasInnerParent(path: Bytes)
  {
    path != [] && (INNER_PARENT <= path || HasInnerParent(path[1..]))
  }

  predicate EndsInParent(path: Bytes)
  {
    |path| >= 3 && path[|path| - 3..] == [SLASH, DOT, DOT]
  }

  /** A valid path keeps clear of parent components if and only if it has no inner `/../`. */
  lemma {:induction false} ValidPathEscapes(path: Bytes)
    requires ValidIndexPath(path)
    ensures PARENT !in Split(path, SLASH) <==> !HasInnerParent(path)
  {
    ParentParts(path);
  }

  /** A path that is valid although it leaves the directory it names. */
  lemma {:induction false} InnerParentIsValid()
    ensures var path := [97, SLASH, DOT, DOT, SLASH, 98];
            ValidIndexPath(path) && Split(path, SLASH) == [[97], PARENT, [98]]
  {
    var path := [97, SLASH, DOT, DOT, SLASH, 98];
    assert path == [97] + [SLASH] + (PARENT + [SLASH] + [98]);
    SplitFirst([97], SLASH, PARENT + [SLASH] + [98]);
    SplitFirst(PARENT, SLASH, [98]);
    SplitFirst([98], SLASH, []);
  }

  /** The four ways in which a path has a parent component. */
  lemma {:induction false} ParentParts(path: Bytes)
    ensures PARENT in Split(path, SLASH) <==>
            path == PARENT || PARENT + [SLASH] <= path || EndsInParent(path) || HasInnerParent(path)
    decreases |path|
  {
    hide HasInnerParent, EndsInParent;
    var k := IndexOf(path, SLASH);
    if k == |path| {
      assert path[..k] == path;
      NoSlashNoParent(path);
    } else {
      var first, rest := path[..k], path[k + 1..];
      assert path == first + [SLASH] + rest;
      ParentParts(rest);
      SplitFirst(first, SLASH, rest);
      FirstIsParent(first, rest);
      InnerParentBehind(first, rest);
      EndBehind(first, rest);
    }
  }

  lemma {:induction false} NoSlashNoParent(path: Bytes)
    requires SLASH !in path
    ensures !(PARENT + [SLASH] <= path) && !EndsInParent(path) && !HasInnerParent(path)
  {
    var pattern := PARENT + [SLASH];
    assert pattern[2] == SLASH && [SLASH, DOT, DOT][0] == SLASH;
    if path != [] {
      NoSlashNoParent(path[1..]);
      assert path[0] != SLASH && INNER_PARENT[0] == SLASH;
    }
  }

  lemma {:induction false} FirstIsParent(first: Bytes, rest: Bytes)
    requires SLASH !in first
    ensures var path := first + [SLASH] + rest; path != PARENT && (PARENT + [SLASH] <= path <==> first == PARENT)
  {
    var path, pattern := first + [SLASH] + rest, PARENT + [SLASH];
    assert path[|first|] == SLASH && forall i :: 0 <= i < |first| ==> path[i] == first[i] != SLASH;
    if pattern <= path {
      assert path[0] == pattern[0] && path[1] == pattern[1] && path[2] == pattern[2];
      assert |first| == 2;
    }
  }

  lemma {:induction false} InnerParentBehind(first: Bytes, rest: Bytes)
    requires SLASH !in first
    ensures HasInnerParent(first + [SLASH] + rest) <==> PARENT + [SLASH] <= rest || HasInnerParent(rest)
  {
    var path := first + [SLASH] + rest;
    if first == [] {
      assert path[1..] == rest;
      assert |rest| >= 3 ==> path[..4] == [SLASH] + rest[..3];
      assert INNER_PARENT == [SLASH] + (PARENT + [SLASH]);
      assert INNER_PARENT <= path ==> rest[..3] == path[..4][1..];
    } else {
      InnerParentBehind(first[1..], rest);
      assert path[1..] == first[1..] + [SLASH] + rest && path[0] == first[0] && INNER_PARENT[0] == SLASH;
    }
  }

  lemma {:induction false} EndBehind(first: Bytes, rest: Bytes)
    requires SLASH !in first
    ensures EndsInParent(first + [SLASH] + rest) <==> rest == PARENT || EndsInParent(rest)
  {
    var path := first + [SLASH] + rest;
    var n := |path|;
    assert n >= 3 ==> path[n - 3..] == [path[n - 3], path[n - 2], path[n - 1]];
    assert |rest| >= 3 ==> rest[|rest| - 3..] == path[n - 3..];
    assert forall i :: 0 <= i < |first| ==> path[i] == first[i] != SLASH;
    assert path[|first|] == SLASH && forall i :: 0 <= i < |rest| ==> path[|first| + 1 + i] == rest[i];
  }

  predicate ValidIndexEntry(e: IndexEntry)
  {
    ValidIndexPath(e.path) && e.stage <= 3
  }

  predicate ValidIndexEntries(entries: seq<IndexEntry>)
  {
    forall i :: 0 <= i < |entries| ==> ValidIndexEntry(entries[i])
  }

  /** Path first, then stage. */
  predicate EntryLess(a: IndexEntry, b: IndexEntry)
  {
    Less(a.path, b.path) || (a.path == b.path && a.stage < b.stage)
  }

  /** The invariant of an index: strictly increasing, so no (path, stage) pair twice. */
  ghost predicate StrictlySorted(entries: seq<IndexEntry>)
  {
    forall i, j :: 0 <= i < j < |entries| ==> EntryLess(entries[i], entries[j])
  }

  lemma {:induction false} EntryLessTransitive(a: IndexEntry, b: IndexEntry, c: IndexEntry)
    requires EntryLess(a, b) && EntryLess(b, c)
    ensures EntryLess(a, c)
  {
    if Less(a.path, b.path) && Less(b.path, c.path) { LessTransitive(a.path, b.path, c.path); }
  }

  lemma {:induction false} EntryLessIrreflexive(a: IndexEntry)
    ensures !EntryLess(a, a)
  {
    LessIrreflexive(a.path);
  }

  /**
   * A path is valid if it is not empty, has no zero byte, does not begin with a slash, and neither its first nor its
   * last component is `..`.
   */
  lemma {:induction false} ValidPathMeans(path: Bytes)
    ensures var parts := Split(path, SLASH);
            ValidIndexPath(path) <==>
              path != [] && 0 !in path && parts[0] != [] && parts[0] != [46, 46] && parts[|parts| - 1] != [46, 46]
  {
    hide EndsInParent;
    var k := IndexOf(path, SLASH);
    LastPart(path);
    if k == |path| {
      assert path[..k] == path;
      SplitFirst(path, SLASH, []);
      NoSlashNoParent(path);
    } else {
      var first, rest := path[..k], path[k + 1..];
      assert path == first + [SLASH] + rest;
      SplitFirst(first, SLASH, rest);
      FirstIsParent(first, rest);
      assert path[0] == SLASH <==> first == [];
    }
  }

  lemma {:induction false} LastPart(path: Bytes)
    ensures var parts := Split(path, SLASH); parts[|parts| - 1] == PARENT <==> path == PARENT || EndsInParent(path)
    decreases |path|
  {
    hide EndsInParent;
    var k := IndexOf(path, SLASH);
    if k == |path| {
      assert path[..k] == path;
      SplitFirst(path, SLASH, []);
      NoSlashNoParent(path);
    } else {
      var first, rest := path[..k], path[k + 1..];
      assert path == first + [SLASH] + rest;
      SplitFirst(first, SLASH, rest);
      LastPart(rest);
      EndBehind(first, rest);
      FirstIsParent(first, rest);
    }
  }
}
