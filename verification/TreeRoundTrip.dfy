/** What is written from an index is what is read back (`tree.rs`, write_tree_from_index against read_tree_to_index). */
module TreeRoundTrip {
  import opened Common
  import opened ByteOrder
  import opened Objects
  import opened TreeCodec
  import opened Index
  import opened TreeWalk
  import opened TreeStackWalk
  import opened TreeBuild
  import opened TreeWrite

  // ---- A stored node can be read back ------------------------------------------------------

  ghost predicate KeysDiffer(entries: set<TreeEntry>)
  {
    forall x, y :: x in entries && y in entries && x != y ==> Key(x) != Key(y)
  }

  lemma {:induction false} ListExists(entries: set<TreeEntry>)
    requires KeysDiffer(entries)
    ensures exists t :: Lists(t, entries)
    decreases |entries|
  {
    if entries == {} {
      assert Lists([], entries);
    } else {
      var e :| e in entries;
      ListExists(entries - {e});
      var t :| Lists(t, entries - {e});
      InsertSortedLists(e, t, entries - {e});
      assert entries - {e} + {e} == entries;
    }
  }

  /** The entries a node is stored as: its children and leaves, in strict tree order. */
  lemma {:induction false} NodeEntriesList(hash: ObjectHash, node: TreeNode)
    requires AllNamesValid(node)
    ensures Lists(NodeEntries(hash, node), ChildSet(hash, node, node.children.Keys) + LeafSet(node))
    ensures ValidNames(NodeEntries(hash, node))
  {
    var entries := ChildSet(hash, node, node.children.Keys) + LeafSet(node);
    forall x, y | x in entries && y in entries && x != y ensures Key(x) != Key(y) {
      if Key(x) == Key(y) { EqualKeys(x, y); }
    }
    ListExists(entries);
    var s := NodeEntries(hash, node);
    forall i | 0 <= i < |s| ensures ValidName(s[i].name) {
      assert s[i] in entries;
    }
  }

  ghost predicate ReadsBack(trees: Trees, hash: ObjectHash, node: TreeNode)
  {
    && NodeId(hash, node) in trees && trees[NodeId(hash, node)] == NodeEntries(hash, node)
    && forall n :: n in node.children ==> ReadsBack(trees, hash, node.children[n])
  }

  lemma {:induction false} StoredReadsBack(store: Store, hash: ObjectHash, node: TreeNode)
    requires HashesInto(hash, store.algorithm) && AllNamesValid(node) && IdsUse(node, store.algorithm)
    requires Stored(store.objects, hash, node)
    ensures ReadsBack(TreesOf(store), hash, node)
  {
    hide EncodeEntries, DecodeEntries, NodeEntries, ChildSet, LeafSet;
    forall n | n in node.children ensures ReadsBack(TreesOf(store), hash, node.children[n]) {
      StoredReadsBack(store, hash, node.children[n]);
    }
    NodeEntriesList(hash, node);
    EntryIds(hash, node, store.algorithm);
    TreeRoundTrip(store.algorithm, NodeEntries(hash, node));
    assert ReadTree(store, NodeId(hash, node)) == Ok(NodeEntries(hash, node));
  }

  lemma {:induction false} EntryIds(hash: ObjectHash, node: TreeNode, algorithm: HashAlgorithm)
    requires HashesInto(hash, algorithm) && AllNamesValid(node) && IdsUse(node, algorithm)
    ensures forall i :: 0 <= i < |NodeEntries(hash, node)| ==> NodeEntries(hash, node)[i].id.algorithm == algorithm
  {
    hide EncodeEntries;
    hide NodeEntries;
    var s := NodeEntries(hash, node);
    forall i | 0 <= i < |s| ensures s[i].id.algorithm == algorithm {
      EntryCases(hash, node, s[i]);
      if s[i].mode == TreeMode.Tree {
        assert s[i].id == hash(ObjectKind.Tree, EncodeEntries(NodeEntries(hash, node.children[s[i].name])));
      }
    }
  }

  // ---- How deep a node is ------------------------------------------------------------------

  ghost function Height(node: TreeNode): nat
    decreases node, |node.children.Keys| + 1
  {
    HeightOf(node, node.children.Keys)
  }

  ghost function HeightOf(node: TreeNode, names: set<Bytes>): (h: nat)
    requires names <= node.children.Keys
    ensures forall n :: n in names ==> Height(node.children[n]) < h
    decreases node, |names|
  {
    if names == {} then 0 else
    var n :| n in names;
    var rest := HeightOf(node, names - {n});
    if Height(node.children[n]) < rest then rest else Height(node.children[n]) + 1
  }

  lemma {:induction false} NodeComplete(trees: Trees, hash: ObjectHash, node: TreeNode, d: nat)
    requires ReadsBack(trees, hash, node) && AllNamesValid(node) && Height(node) <= d
    ensures Complete(trees, NodeEntries(hash, node), d) && DeepSorted(trees, NodeEntries(hash, node), d)
  {
    var s := NodeEntries(hash, node);
    NodeEntriesList(hash, node);
    forall i | 0 <= i < |s| && s[i].mode == TreeMode.Tree
      ensures d > 0 && s[i].id in trees && Complete(trees, trees[s[i].id], d - 1)
              && DeepSorted(trees, trees[s[i].id], d - 1)
    {
      assert s[i] in s;
      NodeComplete(trees, hash, node.children[s[i].name], d - 1);
    }
  }

  // ---- Which files a node flattens to ------------------------------------------------------

  lemma {:induction false} BlockInFlatten(trees: Trees, entries: seq<TreeEntry>, prefix: Bytes, d: nat, e: TreeEntry,
                                          x: IndexEntry)
    requires Complete(trees, entries, d) && e in entries
    ensures Complete(trees, [e], d)
    ensures x in Block(trees, e, prefix, d) ==> x in Flatten(trees, entries, prefix, d)
  {
    CompleteSplits(trees, entries, d);
    if e != entries[0] { BlockInFlatten(trees, entries[1..], prefix, d, e, x); }
  }

  lemma {:induction false} FlattenFromBlock(trees: Trees, entries: seq<TreeEntry>, prefix: Bytes, d: nat, x: IndexEntry)
    returns (e: TreeEntry)
    requires Complete(trees, entries, d) && x in Flatten(trees, entries, prefix, d)
    ensures e in entries && Complete(trees, [e], d) && x in Block(trees, e, prefix, d)
  {
    CompleteSplits(trees, entries, d);
    if x in Block(trees, entries[0], prefix, d) {
      e := entries[0];
    } else {
      e := FlattenFromBlock(trees, entries[1..], prefix, d, x);
    }
  }

  /** `x` is the file the node holds at its path below `prefix`. */
  ghost predicate IsFileOf(node: TreeNode, prefix: Bytes, x: IndexEntry)
  {
    && x == TreeIndexEntry(x.path, x.id, x.mode)
    && prefix <= x.path
    && Lookup(node, Split(x.path[|prefix|..], SLASH)) == Some(Leaf(x.mode, x.id))
  }

  lemma {:induction false} LeafFile(node: TreeNode, prefix: Bytes, name: Bytes)
    requires name in node.leaves && SLASH !in name
    ensures IsFileOf(node, prefix, TreeIndexEntry(prefix + name, node.leaves[name].id, node.leaves[name].mode))
  {
    SplitFirst(name, SLASH, []);
    assert (prefix + name)[|prefix|..] == name;
  }

  lemma {:induction false} ChildFile(node: TreeNode, prefix: Bytes, name: Bytes, x: IndexEntry)
    requires name in node.children && SLASH !in name
    requires prefix + name + [SLASH] <= x.path
    ensures IsFileOf(node, prefix, x) <==> IsFileOf(node.children[name], prefix + name + [SLASH], x)
  {
    var inner := prefix + name + [SLASH];
    var rest := x.path[|inner|..];
    assert x.path == inner + rest;
    assert x.path[|prefix|..] == name + [SLASH] + rest;
    SplitFirst(name, SLASH, rest);
    assert ([name] + Split(rest, SLASH))[1..] == Split(rest, SLASH);
  }

  /** A sub-directory contributes what its own node flattens to. */
  lemma {:induction false} ChildBlock(trees: Trees, hash: ObjectHash, node: TreeNode, name: Bytes, prefix: Bytes,
                                      d: nat)
    requires ReadsBack(trees, hash, node) && name in node.children
    requires Complete(trees, NodeEntries(hash, node), d) && AllNamesValid(node)
    ensures var child := node.children[name];
            var e := TreeEntry(TreeMode.Tree, name, NodeId(hash, child));
            && e in NodeEntries(hash, node) && d > 0 && ReadsBack(trees, hash, child) && AllNamesValid(child)
            && Complete(trees, NodeEntries(hash, child), d - 1) && Complete(trees, [e], d)
            && Block(trees, e, prefix, d) == Flatten(trees, NodeEntries(hash, child), prefix + name + [SLASH], d - 1)
  {
    hide Flatten, ListOf;
    NodeEntriesList(hash, node);
    var e := TreeEntry(TreeMode.Tree, name, NodeId(hash, node.children[name]));
    assert e in ChildSet(hash, node, node.children.Keys);
    BlockInFlatten(trees, NodeEntries(hash, node), prefix, d, e, TreeIndexEntry([], e.id, IndexMode.File));
    assert [e][0] == e;
  }

  lemma {:induction false} LeafEntry(hash: ObjectHash, node: TreeNode, name: Bytes)
    requires AllNamesValid(node) && name in node.leaves
    ensures TreeEntry(node.leaves[name].mode.ToTreeMode(), name, node.leaves[name].id) in NodeEntries(hash, node)
  {
    NodeEntriesList(hash, node);
    assert TreeEntry(node.leaves[name].mode.ToTreeMode(), name, node.leaves[name].id) in LeafSet(node);
  }

  /** Every entry of a stored node is a sub-directory or a leaf. */
  lemma {:induction false} EntryCases(hash: ObjectHash, node: TreeNode, e: TreeEntry)
    requires AllNamesValid(node) && e in NodeEntries(hash, node)
    ensures ValidName(e.name)
    ensures if e.mode == TreeMode.Tree then e.name in node.children && e.id == NodeId(hash, node.children[e.name])
            else e.name in node.leaves && node.leaves[e.name] == Leaf(FromTreeMode(e.mode).value, e.id)
  {
    NodeEntriesList(hash, node);
    assert e in ChildSet(hash, node, node.children.Keys) + LeafSet(node);
  }

  /** Whatever a stored node flattens to is a file it holds ... */
  lemma {:induction false} OnlyNodeFiles(trees: Trees, hash: ObjectHash, node: TreeNode, prefix: Bytes, d: nat,
                                         x: IndexEntry)
    requires ReadsBack(trees, hash, node) && AllNamesValid(node)
    requires Complete(trees, NodeEntries(hash, node), d)
    requires x in Flatten(trees, NodeEntries(hash, node), prefix, d)
    ensures IsFileOf(node, prefix, x)
    decreases node
  {
    hide IsFileOf, Flatten, ListOf, NodeEntries, ReadsBack;
    var e := FlattenFromBlock(trees, NodeEntries(hash, node), prefix, d, x);
    EntryCases(hash, node, e);
    if e.mode == TreeMode.Tree {
      ChildBlock(trees, hash, node, e.name, prefix, d);
      OnlyNodeFiles(trees, hash, node.children[e.name], prefix + e.name + [SLASH], d - 1, x);
      FlattenPaths(trees, NodeEntries(hash, node.children[e.name]), prefix + e.name + [SLASH], d - 1);
      ChildFile(node, prefix, e.name, x);
    } else {
      FileBlock(trees, e, prefix, d);
      LeafFile(node, prefix, e.name);
    }
  }

  /** ... and every file it holds is there. */
  lemma {:induction false} AllNodeFiles(trees: Trees, hash: ObjectHash, node: TreeNode, prefix: Bytes, d: nat,
                                        x: IndexEntry)
    requires ReadsBack(trees, hash, node) && AllNamesValid(node)
    requires Complete(trees, NodeEntries(hash, node), d)
    requires IsFileOf(node, prefix, x)
    ensures x in Flatten(trees, NodeEntries(hash, node), prefix, d)
    decreases node
  {
    hide Flatten, ListOf, NodeEntries, ReadsBack, NodeId, Split;
    var parts := Split(x.path[|prefix|..], SLASH);
    var name := parts[0];
    assert x.path == prefix + x.path[|prefix|..];
    if |parts| == 1 {
      var e := TreeEntry(node.leaves[name].mode.ToTreeMode(), name, node.leaves[name].id);
      LeafEntry(hash, node, name);
      FileBlock(trees, e, prefix, d);
      BlockInFlatten(trees, NodeEntries(hash, node), prefix, d, e, x);
    } else {
      var child := node.children[name];
      var rest := Join(parts[1..], SLASH);
      assert x.path == (prefix + name + [SLASH]) + rest by { ConcatAssoc(prefix, name + [SLASH], rest); }
      ChildFile(node, prefix, name, x);
      ChildBlock(trees, hash, node, name, prefix, d);
      AllNodeFiles(trees, hash, child, prefix + name + [SLASH], d - 1, x);
      BlockInFlatten(trees, NodeEntries(hash, node), prefix, d, TreeEntry(TreeMode.Tree, name, NodeId(hash, child)), x);
    }
  }

  // ---- The round trip ----------------------------------------------------------------------

  /** An index entry as a tree walk would produce it: path, mode and id, without the rest. */
  function Bare(e: IndexEntry): IndexEntry
  {
    TreeIndexEntry(e.path, e.id, e.mode)
  }

  function BareAll(entries: seq<IndexEntry>): (r: seq<IndexEntry>)
    ensures |r| == |entries| && forall i :: 0 <= i < |r| ==> r[i] == Bare(entries[i])
  {
    seq(|entries|, i requires 0 <= i < |entries| => Bare(entries[i]))
  }

  lemma {:induction false} SortedSameMembers(xs: seq<IndexEntry>, ys: seq<IndexEntry>)
    requires PathSorted(xs) && PathSorted(ys) && forall x :: x in xs <==> x in ys
    ensures xs == ys
    decreases |xs|
  {
    assert (xs == [] || xs[0] in ys) && (ys == [] || ys[0] in xs);
    if xs != [] && ys != [] {
      if xs[0] != ys[0] {
        assert Less(xs[0].path, ys[0].path) && Less(ys[0].path, xs[0].path);
        LessAsymmetric(xs[0].path, ys[0].path);
      } else {
        forall x ensures x in xs[1..] <==> x in ys[1..] {
          HeadOnce(xs, x);
          HeadOnce(ys, x);
        }
        SortedSameMembers(xs[1..], ys[1..]);
        assert xs == [xs[0]] + xs[1..] && ys == [ys[0]] + ys[1..];
      }
    }
  }

  lemma {:induction false} HeadOnce(xs: seq<IndexEntry>, x: IndexEntry)
    requires PathSorted(xs) && xs != []
    ensures x in xs[1..] <==> x in xs && x != xs[0]
  {
    if x in xs[1..] { LessIrreflexive(x.path); }
  }

  /** In a path-sorted index each path leads to its own entry. */
  lemma {:induction false} SortedLookup(entries: seq<IndexEntry>, e: IndexEntry)
    requires PathSorted(entries) && e in entries
    ensures LastAt(entries, Parts(e)) == Some(Leaf(e.mode, e.id))
  {
    var k := |entries| - 1;
    var last := entries[k];
    if Parts(last) == Parts(e) {
      assert Join(Parts(last), SLASH) == Join(Parts(e), SLASH);
      LessIrreflexive(e.path);
    } else {
      SortedLookup(entries[..k], e);
    }
  }

  lemma {:induction false} LookupMember(entries: seq<IndexEntry>, path: Bytes, leaf: Leaf) returns (e: IndexEntry)
    requires LastAt(entries, Split(path, SLASH)) == Some(leaf)
    ensures e in entries && e.path == path && e.mode == leaf.mode && e.id == leaf.id
  {
    var last := entries[|entries| - 1];
    if Parts(last) == Split(path, SLASH) {
      assert Join(Parts(last), SLASH) == Join(Split(path, SLASH), SLASH);
      e := last;
    } else {
      e := LookupMember(entries[..|entries| - 1], path, leaf);
    }
  }

  lemma {:induction false} EntryIsFile(node: TreeNode, entries: seq<IndexEntry>, x: IndexEntry)
    requires Represents(node, entries) && PathSorted(entries)
    ensures IsFileOf(node, [], x) <==> x in BareAll(entries)
  {
    var bare := BareAll(entries);
    var root: Bytes := [];
    assert x.path[|root|..] == x.path;
    if IsFileOf(node, [], x) {
      var e := LookupMember(entries, x.path, Leaf(x.mode, x.id));
      var i :| 0 <= i < |entries| && entries[i] == e;
      assert bare[i] == x;
    }
    if x in bare {
      var i :| 0 <= i < |bare| && bare[i] == x;
      SortedLookup(entries, entries[i]);
    }
  }

  /** Reading back the tree a sorted index was written as gives the index: same paths, modes and ids, same order. */
  lemma {:induction false} WrittenIsRead(trees: Trees, hash: ObjectHash, node: TreeNode, entries: seq<IndexEntry>,
                                         d: nat)
    requires ValidTrees(trees) && ReadsBack(trees, hash, node) && AllNamesValid(node)
    requires Represents(node, entries) && PathSorted(entries) && Height(node) <= d
    ensures WellSorted(trees, NodeId(hash, node), d)
    ensures Files(trees, NodeId(hash, node), d) == BareAll(entries)
  {
    hide IsFileOf, NodeEntries, Represents, NodeId, DeepSorted, Complete, Flatten, Height;
    NodeComplete(trees, hash, node, d);
    var files := Files(trees, NodeId(hash, node), d);
    FilesSorted(trees, NodeId(hash, node), d);
    forall x ensures x in files <==> x in BareAll(entries) {
      EntryIsFile(node, entries, x);
      if x in files { OnlyNodeFiles(trees, hash, node, [], d, x); }
      if IsFileOf(node, [], x) { AllNodeFiles(trees, hash, node, [], d, x); }
    }
    SortedSameMembers(files, BareAll(entries));
  }
}
