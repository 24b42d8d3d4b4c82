/** The explicit-stack writer of tree objects (`tree.rs`, write_tree_node) and write_tree_from_index. */
module TreeStackWrite {
  import opened Common
  import opened Objects
  import opened TreeCodec
  import opened Index
  import opened TreeWalk
  import opened TreeBuild
  import opened TreeWrite

  /** One directory being written: the children not yet visited and the entries gathered so far. */
  datatype Frame = Frame(nameInParent: Option<Bytes>, node: TreeNode, remaining: set<Bytes>, entries: seq<TreeEntry>)

  // ---- Termination -------------------------------------------------------------------------

  /** How many iterations a directory takes: one to enter it, one to leave it, and those of its children. */
  ghost function Size(node: TreeNode): nat
    decreases node, |node.children.Keys| + 1
  {
    2 + SizeOf(node, node.children.Keys)
  }

  ghost function SizeOf(node: TreeNode, names: set<Bytes>): nat
    requires names <= node.children.Keys
    decreases node, |names|
  {
    if names == {} then 0 else
    var n :| n in names;
    Size(node.children[n]) + SizeOf(node, names - {n})
  }

  lemma {:induction false} SizeOfTake(node: TreeNode, names: set<Bytes>, n: Bytes)
    requires names <= node.children.Keys && n in names
    ensures SizeOf(node, names) == Size(node.children[n]) + SizeOf(node, names - {n})
    decreases |names|
  {
    var m :| m in names && SizeOf(node, names) == Size(node.children[m]) + SizeOf(node, names - {m});
    if m != n {
      SizeOfTake(node, names - {m}, n);
      SizeOfTake(node, names - {n}, m);
      assert names - {m} - {n} == names - {n} - {m};
    }
  }

  ghost predicate FramesShape(stack: seq<Frame>)
  {
    forall i :: 0 <= i < |stack| ==> stack[i].remaining <= stack[i].node.children.Keys
  }

  ghost function StackSize(stack: seq<Frame>): nat
    requires FramesShape(stack)
  {
    if stack == [] then 0 else
    var k := |stack| - 1;
    1 + SizeOf(stack[k].node, stack[k].remaining) + StackSize(stack[..k])
  }

  lemma {:induction false} StackSizeTop(below: seq<Frame>, top: Frame)
    requires FramesShape(below) && top.remaining <= top.node.children.Keys
    ensures FramesShape(below + [top])
    ensures StackSize(below + [top]) == 1 + SizeOf(top.node, top.remaining) + StackSize(below)
  {
    assert (below + [top])[..|below|] == below;
  }

  // ---- What the frames hold ----------------------------------------------------------------

  /** What stays fixed while a root is written: the hash, the objects involved, and whether every name is valid. */
  ghost predicate Wanted(hash: ObjectHash, universe: set<Object>, allValid: bool, node: TreeNode)
  {
    NoSlash(node) && WrittenWithin(universe, hash, node) && (allValid ==> AllNamesValid(node))
  }

  ghost predicate Finished(objects: map<ObjectId, Object>, hash: ObjectHash, node: TreeNode, names: set<Bytes>)
    requires names <= node.children.Keys
  {
    forall n :: n in names ==>
        ValidName(n) && AllNamesValid(node.children[n]) && Present(objects, hash, node.children[n])
  }

  /** A frame whose children, all but `busy` and `remaining`, are written and listed in its entries. */
  ghost predicate FrameOk(objects: map<ObjectId, Object>, hash: ObjectHash, frame: Frame, busy: set<Bytes>)
  {
    && frame.remaining <= frame.node.children.Keys && busy <= frame.node.children.Keys
    && Elements(frame.entries) == ChildSet(hash, frame.node, frame.node.children.Keys - frame.remaining - busy)
    && DistinctKeys(frame.entries)
    && Finished(objects, hash, frame.node, frame.node.children.Keys - frame.remaining - busy)
  }

  /** `child` is the directory that `parent` is busy with. */
  ghost predicate Nested(parent: Frame, child: Frame)
  {
    && child.nameInParent.Some? && child.nameInParent.value in parent.node.children
    && child.nameInParent.value !in parent.remaining
    && child.node == parent.node.children[child.nameInParent.value]
  }

  /** The frames below `child`, down to the root. */
  ghost predicate Chain(objects: map<ObjectId, Object>, hash: ObjectHash, universe: set<Object>, allValid: bool,
                        root: TreeNode, below: seq<Frame>, child: Frame)
    decreases |below|
  {
    if below == [] then child.node == root && child.nameInParent.None? else
    var parent := below[|below| - 1];
    && Nested(parent, child) && Wanted(hash, universe, allValid, parent.node)
    && FrameOk(objects, hash, parent, {child.nameInParent.value})
    && Chain(objects, hash, universe, allValid, root, below[..|below| - 1], parent)
  }

  ghost predicate Writing(objects: map<ObjectId, Object>, hash: ObjectHash, universe: set<Object>, allValid: bool,
                          root: TreeNode, below: seq<Frame>, top: Frame)
  {
    && Within(objects, hash, universe)
    && Wanted(hash, universe, allValid, top.node) && FrameOk(objects, hash, top, {})
    && Chain(objects, hash, universe, allValid, root, below, top)
    && FramesShape(below)
  }

  lemma {:induction false} FinishedGrows(objects: map<ObjectId, Object>, objects': map<ObjectId, Object>,
                                         hash: ObjectHash,
                                         node: TreeNode, names: set<Bytes>)
    requires names <= node.children.Keys && Finished(objects, hash, node, names) && objects.Keys <= objects'.Keys
    ensures Finished(objects', hash, node, names)
  {
    forall n | n in names ensures Present(objects', hash, node.children[n]) {
      PresentGrows(objects, objects', hash, node.children[n]);
    }
  }

  lemma {:induction false} ChainGrows(objects: map<ObjectId, Object>, objects': map<ObjectId, Object>, hash: ObjectHash,
                                      universe: set<Object>, allValid: bool, root: TreeNode, below: seq<Frame>,
                                      child: Frame)
    requires Chain(objects, hash, universe, allValid, root, below, child) && objects.Keys <= objects'.Keys
    ensures Chain(objects', hash, universe, allValid, root, below, child)
    decreases |below|
  {
    if below != [] {
      var parent := below[|below| - 1];
      FinishedGrows(objects, objects', hash, parent.node,
                    parent.node.children.Keys - parent.remaining - {child.nameInParent.value});
      ChainGrows(objects, objects', hash, universe, allValid, root, below[..|below| - 1], parent);
    }
  }

  function Fresh(name: Option<Bytes>, node: TreeNode): Frame
  {
    Frame(name, node, node.children.Keys, [])
  }

  lemma {:induction false} WriteStarts(objects: map<ObjectId, Object>, hash: ObjectHash, universe: set<Object>,
                                       root: TreeNode)
    requires Within(objects, hash, universe) && WrittenWithin(universe, hash, root) && NoSlash(root)
    ensures Writing(objects, hash, universe, AllNamesValid(root), root, [], Fresh(None, root))
  {
  }

  /** Entering the next child. */
  lemma {:induction false} WriteEnters(objects: map<ObjectId, Object>, hash: ObjectHash, universe: set<Object>,
                                       allValid: bool,
                                       root: TreeNode, below: seq<Frame>, top: Frame, n: Bytes)
    requires Writing(objects, hash, universe, allValid, root, below, top) && n in top.remaining
    ensures var parent := top.(remaining := top.remaining - {n});
            var child := Fresh(Some(n), top.node.children[n]);
            && Writing(objects, hash, universe, allValid, root, below + [parent], child)
            && FramesShape(below + [top])
            && StackSize(below + [parent] + [child]) < StackSize(below + [top])
  {
    var parent := top.(remaining := top.remaining - {n});
    var child := Fresh(Some(n), top.node.children[n]);
    var stack := below + [parent];
    assert stack[..|stack| - 1] == below && stack[|stack| - 1] == parent;
    assert top.node.children.Keys - parent.remaining - {n} == top.node.children.Keys - top.remaining - {};
    assert FrameOk(objects, hash, parent, {n});
    assert child.node.children.Keys - child.remaining - {} == {};
    assert FrameOk(objects, hash, child, {});
    SizeOfTake(top.node, top.remaining, n);
    StackSizeTop(below, top);
    StackSizeTop(below, parent);
    StackSizeTop(stack, child);
  }

  // ---- Leaving a directory -----------------------------------------------------------------

  lemma {:induction false} AppendDistinct(entries: seq<TreeEntry>, e: TreeEntry)
    requires DistinctKeys(entries) && forall x :: x in entries ==> Key(x) != Key(e)
    ensures DistinctKeys(entries + [e]) && Elements(entries + [e]) == Elements(entries) + {e}
  {
  }

  /** The loop over the leaves of a finished directory; it fails on the first invalid name. */
  method CollectLeaves(ghost hash: ObjectHash, node: TreeNode, entries: seq<TreeEntry>)
    returns (r: Result<seq<TreeEntry>>)
    requires NoSlash(node) && DistinctKeys(entries) && Elements(entries) == ChildSet(hash, node, node.children.Keys)
    ensures r.Ok? <==> forall n :: n in node.leaves ==> ValidName(n)
    ensures r.Ok? ==>
            DistinctKeys(r.value) && Elements(r.value) == ChildSet(hash, node, node.children.Keys) + LeafSet(node)
  {
    var all, rest := entries, node.leaves.Keys;
    while rest != {}
      invariant rest <= node.leaves.Keys && DistinctKeys(all)
      invariant forall n :: n in node.leaves.Keys - rest ==> ValidName(n)
      invariant Elements(all) == ChildSet(hash, node, node.children.Keys) + LeavesOf(node, node.leaves.Keys - rest)
      decreases rest
    {
      var n :| n in rest;
      if !ValidName(n) {
        return Err(InvalidInput);
      }
      var entry := TreeEntry(node.leaves[n].mode.ToTreeMode(), n, node.leaves[n].id);
      LeafKeyFresh(hash, node, all, node.leaves.Keys - rest, n);
      AppendDistinct(all, entry);
      LeavesOfAdd(node, node.leaves.Keys - rest, n);
      all := all + [entry];
      assert node.leaves.Keys - rest + {n} == node.leaves.Keys - (rest - {n});
      rest := rest - {n};
    }
    assert node.leaves.Keys - {} == node.leaves.Keys && LeavesOf(node, node.leaves.Keys) == LeafSet(node);
    return Ok(all);
  }

  ghost function LeavesOf(node: TreeNode, names: set<Bytes>): set<TreeEntry>
    requires names <= node.leaves.Keys
  {
    set n | n in names :: TreeEntry(node.leaves[n].mode.ToTreeMode(), n, node.leaves[n].id)
  }

  lemma {:induction false} LeavesOfAdd(node: TreeNode, names: set<Bytes>, n: Bytes)
    requires names <= node.leaves.Keys && n in node.leaves
    ensures LeavesOf(node, names + {n})
            == LeavesOf(node, names) + {TreeEntry(node.leaves[n].mode.ToTreeMode(), n, node.leaves[n].id)}
  {
  }

  lemma {:induction false} LeafKeyFresh(hash: ObjectHash, node: TreeNode, all: seq<TreeEntry>, names: set<Bytes>,
                                        n: Bytes)
    requires NoSlash(node) && names <= node.leaves.Keys && n in node.leaves && n !in names
    requires Elements(all) == ChildSet(hash, node, node.children.Keys) + LeavesOf(node, names)
    ensures forall x :: x in all ==> Key(x) != n
  {
    forall x | x in all ensures Key(x) != n {
      assert x in Elements(all);
      if x in ChildSet(hash, node, node.children.Keys) {
        assert Key(x)[|x.name|] == SLASH;
      }
    }
  }

  /** The gathered entries of a finished directory, sorted, are the entries it is stored as. */
  lemma {:induction false} SortedIsStored(hash: ObjectHash, node: TreeNode, all: seq<TreeEntry>)
    requires DistinctKeys(all) && Elements(all) == ChildSet(hash, node, node.children.Keys) + LeafSet(node)
    ensures SortEntries(all) == NodeEntries(hash, node)
  {
    SortEntriesLists(all);
    ListsUnique(SortEntries(all), NodeEntries(hash, node), Elements(all));
  }

  lemma {:induction false} StoredNamesValid(hash: ObjectHash, node: TreeNode, all: seq<TreeEntry>)
    requires DistinctKeys(all) && Elements(all) == ChildSet(hash, node, node.children.Keys) + LeafSet(node)
    requires forall n :: n in node.children ==> ValidName(n)
    requires forall n :: n in node.leaves ==> ValidName(n)
    ensures ValidNames(SortEntries(all))
  {
    SortEntriesLists(all);
    var s := SortEntries(all);
    forall i | 0 <= i < |s| ensures ValidName(s[i].name) {
      assert s[i] in Elements(all);
    }
  }

  /** Writing the object of a finished directory. */
  lemma {:induction false} WriteLeaves(objects: map<ObjectId, Object>, objects': map<ObjectId, Object>,
                                       hash: ObjectHash,
                                       universe: set<Object>, allValid: bool, root: TreeNode, below: seq<Frame>,
                                       top: Frame)
    requires Writing(objects, hash, universe, allValid, root, below, top) && top.remaining == {}
    requires forall n :: n in top.node.leaves ==> ValidName(n)
    requires var id := NodeId(hash, top.node);
             objects' == if id in objects then objects else objects[id := NodeObject(hash, top.node)]
    ensures Within(objects', hash, universe) && Present(objects', hash, top.node) && AllNamesValid(top.node)
    ensures Chain(objects', hash, universe, allValid, root, below, top)
  {
    assert top.node.children.Keys - {} - {} == top.node.children.Keys;
    FinishedGrows(objects, objects', hash, top.node, top.node.children.Keys);
    ChainGrows(objects, objects', hash, universe, allValid, root, below, top);
  }

  function WithEntry(parent: Frame, e: TreeEntry): Frame
  {
    parent.(entries := parent.entries + [e])
  }

  lemma {:induction false} FrameGains(objects: map<ObjectId, Object>, hash: ObjectHash, parent: Frame, name: Bytes)
    requires FrameOk(objects, hash, parent, {name}) && name in parent.node.children && name !in parent.remaining
    requires ValidName(name) && AllNamesValid(parent.node.children[name])
             && Present(objects, hash, parent.node.children[name])
    ensures FrameOk(objects, hash,
                    WithEntry(parent, TreeEntry(TreeMode.Tree, name, NodeId(hash, parent.node.children[name]))), {})
  {
    hide Present, AllNamesValid, NodeId, ValidName;
    var entry := TreeEntry(TreeMode.Tree, name, NodeId(hash, parent.node.children[name]));
    var done := parent.node.children.Keys - parent.remaining - {name};
    forall x | x in parent.entries ensures Key(x) != Key(entry) {
      assert x in Elements(parent.entries);
      assert Key(x)[..|x.name|] == x.name && Key(entry)[..|name|] == name;
    }
    AppendDistinct(parent.entries, entry);
    assert parent.node.children.Keys - parent.remaining - {} == done + {name};
    assert ChildSet(hash, parent.node, done + {name}) == ChildSet(hash, parent.node, done) + {entry};
  }

  /** Back in the parent, whose entries gain the directory just written. */
  lemma {:induction false} WriteReturns(objects: map<ObjectId, Object>, hash: ObjectHash, universe: set<Object>,
                                        allValid: bool,
                                        root: TreeNode, below: seq<Frame>, top: Frame)
    requires Within(objects, hash, universe) && Chain(objects, hash, universe, allValid, root, below, top)
             && below != []
    requires Present(objects, hash, top.node) && AllNamesValid(top.node) && FramesShape(below + [top])
    ensures top.nameInParent.Some?
    ensures var name, parent := top.nameInParent.value, below[|below| - 1];
            if !ValidName(name) then !allValid else
            var parent' := WithEntry(parent, TreeEntry(TreeMode.Tree, name, NodeId(hash, top.node)));
            && Writing(objects, hash, universe, allValid, root, below[..|below| - 1], parent')
            && FramesShape(below[..|below| - 1] + [parent'])
            && StackSize(below[..|below| - 1] + [parent']) < StackSize(below + [top])
  {
    hide Present, NodeId, FrameOk;
    var name, parent := top.nameInParent.value, below[|below| - 1];
    var lower := below[..|below| - 1];
    if ValidName(name) {
      FrameGains(objects, hash, parent, name);
      var parent' := WithEntry(parent, TreeEntry(TreeMode.Tree, name, NodeId(hash, top.node)));
      assert below == lower + [parent];
      assert top.remaining <= top.node.children.Keys by { assert (below + [top])[|below|] == top; }
      assert FramesShape(below) by { assert forall i :: 0 <= i < |below| ==> (below + [top])[i] == below[i]; }
      StackSizeTop(lower, parent);
      StackSizeTop(lower, parent');
      StackSizeTop(below, top);
    }
  }

  ghost predicate Extends(objects: map<ObjectId, Object>, objects': map<ObjectId, Object>)
  {
    forall id :: id in objects ==> id in objects' && objects'[id] == objects[id]
  }

  /**
   * `write_tree_node`. Children are visited in the iteration order of the map; nothing depends on that order, so
   * the model takes any.
   */
  method WriteTreeNode(store: InMemoryObjectStore, root: TreeNode, ghost universe: set<Object>)
    returns (r: Result<ObjectId>)
    requires Within(store.objects, store.hash, universe) && WrittenWithin(universe, store.hash, root) && NoSlash(root)
    modifies store
    ensures Within(store.objects, store.hash, universe) && Extends(old(store.objects), store.objects)
    ensures r.Ok? <==> AllNamesValid(root)
    ensures r.Ok? ==> r.value == NodeId(store.hash, root) && Present(store.objects, store.hash, root)
  {
    hide Within, WrittenWithin, NoSlash, AllNamesValid, NodeId, NodeObject, NodeEntries, ListOf, Elements, ChildSet,
         LeafSet,
         DistinctKeys, SortEntries, ValidNames, EncodeEntries, Key, SizeOf, Finished, Present, StackSize;
    ghost var hash, allValid := store.hash, AllNamesValid(root);
    var stack := [Frame(None, root, root.children.Keys, [])];
    WriteStarts(store.objects, hash, universe, root);
    assert stack[..0] == [];
    while true
      invariant stack != [] && FramesShape(stack)
      invariant Extends(old(store.objects), store.objects)
      invariant Writing(store.objects, hash, universe, allValid, root, stack[..|stack| - 1], stack[|stack| - 1])
      decreases StackSize(stack)
    {
      var k := |stack| - 1;
      var frame := stack[k];
      ghost var below := stack[..k];
      assert stack == below + [frame];
      if frame.remaining != {} {
        var name :| name in frame.remaining;
        WriteEnters(store.objects, hash, universe, allValid, root, below, frame, name);
        var parent := frame.(remaining := frame.remaining - {name});
        var child := Frame(Some(name), frame.node.children[name], frame.node.children[name].children.Keys, []);
        stack := stack[..k] + [parent] + [child];
        assert stack[..|stack| - 1] == below + [parent];
      } else {
        assert frame.node.children.Keys - {} - {} == frame.node.children.Keys;
        var all := CollectLeaves(hash, frame.node, frame.entries);
        if all.Err? {
          LeafInvalid(frame.node);
          assert !allValid by { BelowRoot(store.objects, hash, universe, allValid, root, below, frame); }
          return Err(all.error);
        }
        SortedIsStored(hash, frame.node, all.value);
        ChildrenValid(store.objects, hash, frame);
        StoredNamesValid(hash, frame.node, all.value);
        var encoded := EncodeTree(SortEntries(all.value));
        EncodedIsObject(hash, frame.node, encoded.value);
        ghost var before := store.objects;
        var id := store.WriteObject(ObjectKind.Tree, encoded.value);
        WriteLeaves(before, store.objects, hash, universe, allValid, root, below, frame);
        if k == 0 {
          return Ok(id);
        }
        WriteReturns(store.objects, hash, universe, allValid, root, below, frame);
        var parent := stack[k - 1];
        if !ValidName(frame.nameInParent.value) {
          return Err(InvalidInput);
        }
        stack := stack[..k - 1]
            + [parent.(entries := parent.entries + [TreeEntry(TreeMode.Tree, frame.nameInParent.value, id)])];
        assert stack[..|stack| - 1] == below[..|below| - 1];
      }
    }
  }

  lemma {:induction false} LeafInvalid(node: TreeNode)
    requires !forall n :: n in node.leaves ==> ValidName(n)
    ensures !AllNamesValid(node)
  {
  }

  lemma {:induction false} BelowRoot(objects: map<ObjectId, Object>, hash: ObjectHash, universe: set<Object>,
                                     allValid: bool,
                                     root: TreeNode, below: seq<Frame>, top: Frame)
    requires Writing(objects, hash, universe, allValid, root, below, top)
    ensures allValid ==> AllNamesValid(top.node)
  {
  }

  lemma {:induction false} ChildrenValid(objects: map<ObjectId, Object>, hash: ObjectHash, frame: Frame)
    requires FrameOk(objects, hash, frame, {}) && frame.remaining == {}
    ensures forall n :: n in frame.node.children ==> ValidName(n)
  {
    assert frame.node.children.Keys - {} - {} == frame.node.children.Keys;
  }

  lemma {:induction false} EncodedIsObject(hash: ObjectHash, node: TreeNode, encoded: Bytes)
    requires encoded == EncodeEntries(NodeEntries(hash, node))
    ensures NodeObject(hash, node) == Object(ObjectKind.Tree, encoded)
    ensures NodeId(hash, node) == hash(ObjectKind.Tree, encoded)
  {
  }
}
