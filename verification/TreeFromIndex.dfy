/** `write_tree_from_index` and `find_tree_entry` (`tree.rs`), with what they promise each other. */
module TreeFromIndex {
  import opened Common
  import opened Objects
  import opened TreeCodec
  import opened Index
  import opened TreeWalk
  import opened TreeBuild
  import opened TreeWrite
  import opened TreeStackWrite
  import opened TreeRoundTrip

  /** The tree objects a node is written as. */
  ghost function ObjectsOf(hash: ObjectHash, node: TreeNode): set<Object>
    decreases node
  {
    {NodeObject(hash, node)} + set n, o | n in node.children && o in ObjectsOf(hash, node.children[n]) :: o
  }

  lemma {:induction false} ObjectsSuffice(universe: set<Object>, hash: ObjectHash, node: TreeNode)
    requires ObjectsOf(hash, node) <= universe
    ensures WrittenWithin(universe, hash, node)
  {
    hide NodeObject;
    forall n | n in node.children ensures WrittenWithin(universe, hash, node.children[n]) {
      ObjectsSuffice(universe, hash, node.children[n]);
    }
  }

  lemma {:induction false} NulInParts(path: Bytes)
    ensures PartsValid(Split(path, SLASH)) <==> NoEmptyPart(Split(path, SLASH)) && NUL !in path
    decreases |path|
  {
    var k := IndexOf(path, SLASH);
    var parts := Split(path, SLASH);
    if k < |path| {
      NulInParts(path[k + 1..]);
      var rest := Split(path[k + 1..], SLASH);
      assert parts == [path[..k]] + rest && parts[1..] == rest;
      PartsValidSplits(parts);
      assert NoEmptyPart(parts) <==> path[..k] != [] && NoEmptyPart(rest) by {
        if path[..k] != [] && NoEmptyPart(rest) {
          forall i | 0 <= i < |parts| ensures parts[i] != [] {
            if i > 0 { assert parts[i] == rest[i - 1]; }
          }
        }
        if NoEmptyPart(parts) {
          forall i | 0 <= i < |rest| ensures rest[i] != [] { assert parts[i + 1] != []; }
        }
      }
      assert path == path[..k] + [SLASH] + path[k + 1..];
    } else {
      assert path[..k] == path && parts[0] == path;
    }
  }

  /** An index with the properties `write_tree_from_index` asks for. */
  ghost predicate Acceptable(entries: seq<IndexEntry>)
  {
    Writable(entries) && forall e :: e in entries ==> NUL !in e.path
  }

  lemma {:induction false} AcceptableNames(entries: seq<IndexEntry>)
    requires Writable(entries)
    ensures (forall e :: e in entries ==> PartsValid(Parts(e))) <==> Acceptable(entries)
  {
    forall e | e in entries ensures PartsValid(Parts(e)) <==> NUL !in e.path {
      NulInParts(e.path);
    }
  }

  /**
   * `write_tree_from_index`. It succeeds exactly on acceptable indexes, only ever adds objects, and unless two
   * of the objects involved collide, reading its tree back gives the index.
   */
  method WriteTreeFromIndex(store: InMemoryObjectStore, entries: seq<IndexEntry>)
    returns (r: Result<ObjectId>, ghost node: TreeNode)
    requires ContentAddressed(store.Snapshot(), store.hash)
    modifies store
    ensures ContentAddressed(store.Snapshot(), store.hash) && Extends(old(store.objects), store.objects)
    ensures r.Ok? <==> Acceptable(entries)
    ensures r.Ok? ==> Represents(node, entries) && AllNamesValid(node) && r.value == NodeId(store.hash, node)
    ensures r.Ok? && HashesInto(store.hash, store.algorithm)
            && (forall e :: e in entries ==> e.id.algorithm == store.algorithm)
            && CollisionFree(store.hash, old(store.objects).Values + ObjectsOf(store.hash, node)) ==>
              ReadsBack(TreesOf(store.Snapshot()), store.hash, node)
    ensures r.Ok? && HashesInto(store.hash, store.algorithm)
            && (forall e :: e in entries ==> e.id.algorithm == store.algorithm)
            && CollisionFree(store.hash, old(store.objects).Values + ObjectsOf(store.hash, node))
               && PathSorted(entries) ==>
              && WellSorted(TreesOf(store.Snapshot()), r.value, Height(node))
              && Files(TreesOf(store.Snapshot()), r.value, Height(node)) == BareAll(entries)
  {
    hide Represents, NoSlash, AllNamesValid, NodeId, ObjectsOf, WrittenWithin, Present, Stored, IdsUse, Writable,
         PathSorted,
         Height, TreesOf, ReadsBack, WellSorted, CollisionFree, HashesInto, PartsValid, Split, Acceptable;
    node := EMPTY_NODE;
    var root := BuildTree(entries);
    if root.Err? {
      NotAcceptable(entries);
      return Err(root.error), node;
    }
    node := root.value;
    AcceptableNames(entries);
    ghost var universe := store.objects.Values + ObjectsOf(store.hash, node);
    ObjectsSuffice(universe, store.hash, node);
    assert Within(store.objects, store.hash, universe);
    r := WriteTreeNode(store, root.value, universe);
    if r.Ok? && HashesInto(store.hash, store.algorithm)
       && (forall e :: e in entries ==> e.id.algorithm == store.algorithm)
       && CollisionFree(store.hash, universe) {
      PresentIsStored(store.objects, store.hash, node, universe);
      StoredReadsBack(store.Snapshot(), store.hash, node);
      if PathSorted(entries) {
        WrittenIsRead(TreesOf(store.Snapshot()), store.hash, node, entries, Height(node));
      }
    }
  }

  lemma {:induction false} NotAcceptable(entries: seq<IndexEntry>)
    requires !Writable(entries)
    ensures !Acceptable(entries)
  {
  }

  // ---- Parent components -------------------------------------------------------------------

  /** One of the trees a node is written as has an entry with the name. */
  ghost predicate WritesName(hash: ObjectHash, node: TreeNode, name: Bytes)
    decreases node
  {
    || (exists e :: e in NodeEntries(hash, node) && e.name == name)
    || (exists n :: n in node.children && WritesName(hash, node.children[n], name))
  }

  /** The names that a node is written with are the components of the paths in it. */
  lemma {:induction false} WritesItsParts(hash: ObjectHash, node: TreeNode, parts: seq<Bytes>, name: Bytes)
    requires AllNamesValid(node) && name in parts && (Lookup(node, parts).Some? || HasDir(node, parts))
    ensures WritesName(hash, node, name)
    decreases |parts|
  {
    hide NodeEntries, NodeId, ValidName;
    var first := parts[0];
    if first in node.children && name in parts[1..] {
      WritesItsParts(hash, node.children[first], parts[1..], name);
    } else {
      assert name == first by {
        if |parts| > 1 { assert parts == [first] + parts[1..]; }
      }
      if name in node.children {
        ChildEntry(hash, node, name);
      } else {
        LeafEntry(hash, node, name);
      }
    }
  }

  ghost predicate HoldsPart(node: TreeNode, name: Bytes)
  {
    exists parts :: name in parts && (Lookup(node, parts).Some? || HasDir(node, parts))
  }

  lemma {:induction false} WrittenNameIsPart(hash: ObjectHash, node: TreeNode, name: Bytes)
    requires AllNamesValid(node) && WritesName(hash, node, name)
    ensures HoldsPart(node, name)
    decreases node
  {
    hide NodeEntries, NodeId, ValidName;
    if e :| e in NodeEntries(hash, node) && e.name == name {
      EntryCases(hash, node, e);
      DirOfChild(node, name);
      assert name in node.leaves ==> Lookup(node, [name]).Some?;
      assert name in [name];
    } else {
      var n :| n in node.children && WritesName(hash, node.children[n], name);
      WrittenNameIsPart(hash, node.children[n], name);
      PartBelow(node, n, name);
    }
  }

  lemma {:induction false} PartBelow(node: TreeNode, n: Bytes, name: Bytes)
    requires n in node.children && HoldsPart(node.children[n], name)
    ensures HoldsPart(node, name)
  {
    var parts :| name in parts && (Lookup(node.children[n], parts).Some? || HasDir(node.children[n], parts));
    var full := [n] + parts;
    assert full[1..] == parts && name in full;
    assert Lookup(node.children[n], parts).Some? ==> Lookup(node, full).Some?;
    assert HasDir(node.children[n], parts) ==> HasDir(node, full);
  }

  /** The components that occur in the paths of an index. */
  ghost predicate SomePart(entries: seq<IndexEntry>, name: Bytes)
  {
    exists e :: e in entries && name in Parts(e)
  }

  lemma {:induction false} WrittenNames(hash: ObjectHash, node: TreeNode, entries: seq<IndexEntry>, name: Bytes)
    requires Represents(node, entries) && AllNamesValid(node)
    ensures WritesName(hash, node, name) <==> SomePart(entries, name)
  {
    hide Lookup, HasDir, LastAt, AllNamesValid, WritesName, Split;
    if WritesName(hash, node, name) {
      WrittenNameIsPart(hash, node, name);
      var parts :| name in parts && (Lookup(node, parts).Some? || HasDir(node, parts));
      LastAtNone(entries, parts);
      if Lookup(node, parts).Some? {
        var e :| e in entries && Parts(e) == parts;
        assert name in Parts(e);
      } else {
        assert DirOf(entries, parts);
        var e :| e in entries && ProperPrefix(parts, Parts(e));
        assert name in Parts(e);
      }
    }
    if SomePart(entries, name) {
      var e :| e in entries && name in Parts(e);
      LastAtNone(entries, Parts(e));
      WritesItsParts(hash, node, Parts(e), name);
    }
  }

  /** A valid index is written with a tree entry named `..` if and only if one of its paths has an inner `/../`. */
  lemma {:induction false} WritesParentEntry(hash: ObjectHash, node: TreeNode, entries: seq<IndexEntry>)
    requires ValidIndexEntries(entries) && Represents(node, entries) && AllNamesValid(node)
    ensures WritesName(hash, node, PARENT) <==> exists e :: e in entries && HasInnerParent(e.path)
  {
    hide Represents, AllNamesValid, WritesName, HasInnerParent, Split, ValidIndexPath;
    WrittenNames(hash, node, entries, PARENT);
    forall e | e in entries ensures PARENT in Parts(e) <==> HasInnerParent(e.path) {
      ValidPathEscapes(e.path);
    }
  }

  /** The shortest kind of such an index: `a/../b` is valid, and it is accepted for writing. */
  lemma {:induction false} ParentEntryAccepted(id: ObjectId, mode: IndexMode)
    ensures var e := TreeIndexEntry([97, SLASH, DOT, DOT, SLASH, 98], id, mode);
            ValidIndexEntries([e]) && Acceptable([e]) && Parts(e) == [[97], PARENT, [98]] && HasInnerParent(e.path)
  {
    hide HasInnerParent, Split;
    var e := TreeIndexEntry([97, SLASH, DOT, DOT, SLASH, 98], id, mode);
    InnerParentIsValid();
    ValidPathEscapes(e.path);
    assert Parts(e)[1] == PARENT;
    assert !ProperPrefix(Parts(e), Parts(e));
  }

  // ---- Finding one path --------------------------------------------------------------------

  function FirstNamed(entries: seq<TreeEntry>, name: Bytes): (r: Option<TreeEntry>)
    ensures r.Some? ==> r.value in entries && r.value.name == name
    ensures r.None? ==> forall e :: e in entries ==> e.name != name
  {
    if entries == [] then None
    else if entries[0].name == name then Some(entries[0])
    else FirstNamed(entries[1..], name)
  }

  /** What looking a path up component by component finds. */
  function FindIn(store: Store, id: ObjectId, parts: seq<Bytes>): Result<Option<TreeEntry>>
    requires parts != []
    decreases |parts|
  {
    if parts[0] == [] then Ok(None) else
    var entries := ReadTree(store, id);
    if entries.Err? then Err(entries.error) else
    var entry := FirstNamed(entries.value, parts[0]);
    if entry.None? then Ok(None)
    else if |parts| == 1 then Ok(entry)
    else if entry.value.mode != TreeMode.Tree then Ok(None)
    else FindIn(store, entry.value.id, parts[1..])
  }

  /** `find_tree_entry`. */
  method FindTreeEntry(store: Store, id: ObjectId, path: Bytes) returns (r: Result<Option<TreeEntry>>)
    ensures r == if path == [] then Ok(None) else FindIn(store, id, Split(path, SLASH))
  {
    hide ReadTree, Split;
    if path == [] {
      return Ok(None);
    }
    var currentTree := id;
    var components := Split(path, SLASH);
    while components != []
      invariant components != [] && FindIn(store, currentTree, components) == FindIn(store, id, Split(path, SLASH))
      decreases |components|
    {
      if components[0] == [] {
        return Ok(None);
      }
      var entries := ReadTree(store, currentTree);
      if entries.Err? {
        return Err(entries.error);
      }
      var entry := FirstNamed(entries.value, components[0]);
      if entry.None? {
        return Ok(None);
      }
      if |components| == 1 {
        return Ok(entry);
      }
      if entry.value.mode != TreeMode.Tree {
        return Ok(None);
      }
      currentTree := entry.value.id;
      components := components[1..];
    }
  }

  /** No path is both a file and a directory. */
  ghost predicate NoClash(node: TreeNode)
  {
    forall q :: !(HasDir(node, q) && Lookup(node, q).Some?)
  }

  lemma {:induction false} RepresentsNoClash(node: TreeNode, entries: seq<IndexEntry>)
    requires Represents(node, entries) && Writable(entries)
    ensures NoClash(node)
  {
    forall q | Lookup(node, q).Some? ensures !HasDir(node, q) {
      LastAtNone(entries, q);
    }
  }

  /** In a written tree a path finds a file exactly when the node holds that file. */
  lemma {:induction false} FindsFiles(store: Store, hash: ObjectHash, node: TreeNode, parts: seq<Bytes>, leaf: Leaf)
    requires ReadsBack(TreesOf(store), hash, node) && AllNamesValid(node) && NoClash(node) && parts != []
    ensures Lookup(node, parts) == Some(leaf) <==>
            FindIn(store, NodeId(hash, node), parts)
                == Ok(Some(TreeEntry(leaf.mode.ToTreeMode(), parts[|parts| - 1], leaf.id)))
    decreases |parts|
  {
    hide ReadTree, ListOf, NodeEntries, NodeId;
    var name := parts[0];
    var entries := NodeEntries(hash, node);
    assert ReadTree(store, NodeId(hash, node)) == Ok(entries);
    var found := FirstNamed(entries, name);
    if found.Some? { EntryCases(hash, node, found.value); }
    if name in node.leaves {
      LeafEntry(hash, node, name);
      assert !HasDir(node, [name]) by { assert Lookup(node, [name]).Some?; }
      assert name !in node.children by { DirOfChild(node, name); }
    } else if name in node.children {
      ChildEntry(hash, node, name);
      if |parts| > 1 {
        ChildNoClash(node, name);
        assert ReadsBack(TreesOf(store), hash, node.children[name]);
        FindsFiles(store, hash, node.children[name], parts[1..], leaf);
      }
    }
  }

  /** The node of a directory. */
  ghost function DirAt(node: TreeNode, parts: seq<Bytes>): TreeNode
    decreases |parts|
  {
    if parts == [] || parts[0] !in node.children then node else DirAt(node.children[parts[0]], parts[1..])
  }

  /** A directory is found as such, and what is neither file nor directory is not found. */
  lemma {:induction false} FindsTheRest(store: Store, hash: ObjectHash, node: TreeNode, parts: seq<Bytes>)
    requires ReadsBack(TreesOf(store), hash, node) && AllNamesValid(node) && NoClash(node) && parts != []
    ensures HasDir(node, parts) ==>
              FindIn(store, NodeId(hash, node), parts)
                  == Ok(Some(TreeEntry(TreeMode.Tree, parts[|parts| - 1], NodeId(hash, DirAt(node, parts)))))
    ensures Lookup(node, parts).None? && !HasDir(node, parts) ==> FindIn(store, NodeId(hash, node), parts) == Ok(None)
    decreases |parts|
  {
    hide ReadTree, ListOf, NodeEntries, NodeId;
    var name := parts[0];
    var entries := NodeEntries(hash, node);
    assert ReadTree(store, NodeId(hash, node)) == Ok(entries);
    var found := FirstNamed(entries, name);
    if found.Some? { EntryCases(hash, node, found.value); }
    if name in node.leaves {
      assert !HasDir(node, [name]) by { assert Lookup(node, [name]).Some?; }
      assert name !in node.children by { DirOfChild(node, name); }
    } else if name in node.children {
      ChildEntry(hash, node, name);
      if |parts| > 1 {
        ChildNoClash(node, name);
        assert ReadsBack(TreesOf(store), hash, node.children[name]);
        FindsTheRest(store, hash, node.children[name], parts[1..]);
      } else {
        assert parts == [name];
        DirOfChild(node, name);
      }
    }
  }

  lemma {:induction false} LookupIsLast(node: TreeNode, entries: seq<IndexEntry>, parts: seq<Bytes>)
    requires Represents(node, entries)
    ensures Lookup(node, parts) == LastAt(entries, parts)
  {
  }

  /** Every path of a written index is found, with its own mode and id. */
  lemma {:induction false} FindsEveryPath(store: Store, hash: ObjectHash, node: TreeNode, entries: seq<IndexEntry>,
                                          e: IndexEntry)
    requires ReadsBack(TreesOf(store), hash, node) && AllNamesValid(node)
    requires Represents(node, entries) && Writable(entries) && PathSorted(entries) && e in entries
    ensures FindIn(store, NodeId(hash, node), Parts(e))
            == Ok(Some(TreeEntry(e.mode.ToTreeMode(), Parts(e)[|Parts(e)| - 1], e.id)))
  {
    hide FindIn, ReadsBack, AllNamesValid, PathSorted, Writable, Represents, NoClash, Lookup, LastAt, NodeId, Split,
         TreesOf;
    assert Lookup(node, Parts(e)) == LastAt(entries, Parts(e)) by { LookupIsLast(node, entries, Parts(e)); }
    RepresentsNoClash(node, entries);
    SortedLookup(entries, e);
    FindsFiles(store, hash, node, Parts(e), Leaf(e.mode, e.id));
  }

  lemma {:induction false} DirOfChild(node: TreeNode, name: Bytes)
    ensures HasDir(node, [name]) <==> name in node.children
  {
  }

  lemma {:induction false} ChildEntry(hash: ObjectHash, node: TreeNode, name: Bytes)
    requires AllNamesValid(node) && name in node.children
    ensures TreeEntry(TreeMode.Tree, name, NodeId(hash, node.children[name])) in NodeEntries(hash, node)
  {
    NodeEntriesList(hash, node);
    var entry := TreeEntry(TreeMode.Tree, name, NodeId(hash, node.children[name]));
    assert entry in ChildSet(hash, node, node.children.Keys);
  }

  lemma {:induction false} ChildNoClash(node: TreeNode, name: Bytes)
    requires NoClash(node) && name in node.children
    ensures NoClash(node.children[name])
  {
    forall q | HasDir(node.children[name], q) && Lookup(node.children[name], q).Some? ensures false {
      var full := [name] + q;
      assert full[1..] == q && HasDir(node, full) && Lookup(node, full).Some?;
    }
  }
}
