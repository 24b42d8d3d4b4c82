/** Reading a stored tree into an index (`tree.rs`, read_tree_to_index and its two stack walks). */
module TreeWalk {
  import opened Common
  import opened ByteOrder
  import opened Objects
  import opened TreeCodec
  import opened Index

  /** The name a tree entry sorts under: a directory sorts as its name followed by `/`. */
  function SortName(name: Bytes, isTree: bool): Bytes
  {
    if isTree then name + [SLASH] else name
  }

  function Key(e: TreeEntry): Bytes
  {
    SortName(e.name, e.mode == TreeMode.Tree)
  }

  /** `tree_name_byte`: the bytes of the sort name, without building it. */
  function NameByte(name: Bytes, isTree: bool, idx: nat): (r: Option<byte>)
    ensures r == if idx < |SortName(name, isTree)| then Some(SortName(name, isTree)[idx]) else None
  {
    if idx < |name| then Some(name[idx])
    else if idx == |name| && isTree then Some(SLASH)
    else None
  }

  /** `compare_tree_names`, which `diff.rs` repeats as `compare_tree_entry_names`. */
  method CompareTreeNames(left: Bytes, leftTree: bool, right: Bytes, rightTree: bool) returns (order: Ordering)
    ensures order == Compare(SortName(left, leftTree), SortName(right, rightTree))
  {
    var idx := 0;
    ghost var l, r := SortName(left, leftTree), SortName(right, rightTree);
    while true
      invariant idx <= |l| && idx <= |r| && l[..idx] == r[..idx]
      decreases |l| - idx
    {
      var leftByte := NameByte(left, leftTree, idx);
      var rightByte := NameByte(right, rightTree, idx);
      LessAt(l, r, idx);
      LessAt(r, l, idx);
      match (leftByte, rightByte) {
        case (None, None) =>
          assert l == l[..idx] == r;
          return Eq;
        case (None, Some(_)) =>
          return Lt;
        case (Some(_), None) =>
          LessAsymmetric(r, l);
          return Gt;
        case (Some(x), Some(y)) =>
          if x != y {
            if y < x { LessAsymmetric(r, l); }
            return if x < y then Lt else Gt;
          }
          idx := idx + 1;
      }
    }
  }

  ghost predicate TreeSorted(entries: seq<TreeEntry>)
  {
    forall i, j :: 0 <= i < j < |entries| ==> Less(Key(entries[i]), Key(entries[j]))
  }

  /**
   * Every chain of sub-trees that can be read below `entries` has at most `d` steps. Some `d` exists
   * unless the store holds a tree that contains itself, on which the program would not terminate.
   */
  ghost predicate Acyclic(trees: Trees, entries: seq<TreeEntry>, d: nat)
    decreases d
  {
    forall i :: 0 <= i < |entries| && entries[i].mode == TreeMode.Tree && entries[i].id in trees ==>
      d > 0 && Acyclic(trees, trees[entries[i].id], d - 1)
  }

  /** Every sub-tree below `entries` can be read. */
  ghost predicate Complete(trees: Trees, entries: seq<TreeEntry>, d: nat)
    decreases d
  {
    forall i :: 0 <= i < |entries| && entries[i].mode == TreeMode.Tree ==>
      d > 0 && entries[i].id in trees && Complete(trees, trees[entries[i].id], d - 1)
  }

  /** Every tree below `entries` is in strict tree order. */
  ghost predicate DeepSorted(trees: Trees, entries: seq<TreeEntry>, d: nat)
    requires Complete(trees, entries, d)
    decreases d
  {
    && TreeSorted(entries)
    && forall i :: 0 <= i < |entries| && entries[i].mode == TreeMode.Tree ==>
         DeepSorted(trees, trees[entries[i].id], d - 1)
  }

  /** The files below `entries`, depth first: the recursive flatten both stack walks have to produce. */
  ghost function Flatten(trees: Trees, entries: seq<TreeEntry>, prefix: Bytes, d: nat): seq<IndexEntry>
    requires Complete(trees, entries, d)
    decreases d, |entries|
  {
    if entries == [] then [] else
    Block(trees, entries[0], prefix, d) + Flatten(trees, entries[1..], prefix, d)
  }

  /** The files one tree entry contributes. */
  ghost function Block(trees: Trees, e: TreeEntry, prefix: Bytes, d: nat): seq<IndexEntry>
    requires Complete(trees, [e], d)
    decreases d, 0
  {
    if e.mode == TreeMode.Tree then
      assert [e][0] == e;
      Flatten(trees, trees[e.id], prefix + e.name + [SLASH], d - 1)
    else [TreeIndexEntry(prefix + e.name, e.id, FromTreeMode(e.mode).value)]
  }

  ghost predicate AcyclicFrom(trees: Trees, id: ObjectId, d: nat)
  {
    id in trees ==> Acyclic(trees, trees[id], d)
  }

  /** The tree `id` and everything below it can be read. */
  ghost predicate Readable(trees: Trees, id: ObjectId, d: nat)
  {
    id in trees && Complete(trees, trees[id], d)
  }

  /** All the files of the tree `id`. */
  ghost function Files(trees: Trees, id: ObjectId, d: nat): seq<IndexEntry>
    requires Readable(trees, id, d)
  {
    Flatten(trees, trees[id], [], d)
  }

  /** The tree `id` is readable and in strict tree order all the way down. */
  ghost predicate WellSorted(trees: Trees, id: ObjectId, d: nat)
  {
    Readable(trees, id, d) && DeepSorted(trees, trees[id], d)
  }

  lemma {:induction false} FilesSorted(trees: Trees, id: ObjectId, d: nat)
    requires ValidTrees(trees) && WellSorted(trees, id, d)
    ensures PathSorted(Files(trees, id, d))
  {
    FlattenSorted(trees, trees[id], [], d);
  }

  lemma {:induction false} CompleteSplits(trees: Trees, entries: seq<TreeEntry>, d: nat)
    requires entries != []
    ensures Complete(trees, entries, d) <==> Complete(trees, [entries[0]], d) && Complete(trees, entries[1..], d)
    ensures Acyclic(trees, entries, d) ==> Acyclic(trees, [entries[0]], d) && Acyclic(trees, entries[1..], d)
  {
    assert [entries[0]][0] == entries[0];
    forall i | 0 <= i < |entries| && Complete(trees, [entries[0]], d) && Complete(trees, entries[1..], d)
               && entries[i].mode == TreeMode.Tree
      ensures && d > 0 && entries[i].id in trees
              && Complete(trees, trees[entries[i].id], d - 1)
    {
      if i > 0 { assert entries[i] == entries[1..][i - 1]; }
    }
  }

  /** The block of a directory is what its tree flattens to. */
  lemma {:induction false} DirectoryBlock(trees: Trees, e: TreeEntry, prefix: Bytes, d: nat)
    requires e.mode == TreeMode.Tree && ValidTrees(trees) && Acyclic(trees, [e], d)
    ensures e.id !in trees ==> !Complete(trees, [e], d)
    ensures e.id in trees ==>
              && d > 0 && Acyclic(trees, trees[e.id], d - 1) && ValidNames(trees[e.id])
              && (Complete(trees, [e], d) <==> Complete(trees, trees[e.id], d - 1))
              && (Complete(trees, [e], d) ==>
                    Block(trees, e, prefix, d) == Flatten(trees, trees[e.id], prefix + e.name + [SLASH], d - 1))
  {
    assert [e][0] == e;
  }

  lemma {:induction false} FileBlock(trees: Trees, e: TreeEntry, prefix: Bytes, d: nat)
    requires e.mode != TreeMode.Tree
    ensures Complete(trees, [e], d)
    ensures Block(trees, e, prefix, d) == [TreeIndexEntry(prefix + e.name, e.id, FromTreeMode(e.mode).value)]
  {
  }

  /** The depth bound is only there for termination: a larger one gives the same files. */
  lemma {:induction false} DepthIrrelevant(trees: Trees, entries: seq<TreeEntry>, prefix: Bytes, d: nat, d': nat)
    requires Complete(trees, entries, d) && d <= d'
    ensures Complete(trees, entries, d')
    ensures Flatten(trees, entries, prefix, d') == Flatten(trees, entries, prefix, d)
    decreases d, |entries|
  {
    forall i | 0 <= i < |entries| && entries[i].mode == TreeMode.Tree
      ensures Complete(trees, trees[entries[i].id], d' - 1)
    {
      DepthIrrelevant(trees, trees[entries[i].id], prefix, d - 1, d' - 1);
    }
    if entries != [] {
      var e := entries[0];
      if e.mode == TreeMode.Tree {
        DepthIrrelevant(trees, trees[e.id], prefix + e.name + [SLASH], d - 1, d' - 1);
      }
      DepthIrrelevant(trees, entries[1..], prefix, d, d');
    }
  }

  lemma {:induction false} FlattenStageZero(trees: Trees, entries: seq<TreeEntry>, prefix: Bytes, d: nat)
    requires Complete(trees, entries, d)
    ensures forall x :: x in Flatten(trees, entries, prefix, d) ==> x.stage == 0
    decreases d, |entries|
  {
    if entries != [] {
      var e := entries[0];
      if e.mode == TreeMode.Tree {
        FlattenStageZero(trees, trees[e.id], prefix + e.name + [SLASH], d - 1);
      }
      FlattenStageZero(trees, entries[1..], prefix, d);
    }
  }

  // ---- Where the paths of a block lie -------------------------------------------------------

  lemma {:induction false} BlockPaths(trees: Trees, e: TreeEntry, prefix: Bytes, d: nat)
    requires Complete(trees, [e], d)
    ensures forall x :: x in Block(trees, e, prefix, d) ==> prefix + Key(e) <= x.path
    ensures e.mode != TreeMode.Tree ==> forall x :: x in Block(trees, e, prefix, d) ==> x.path == prefix + Key(e)
    decreases d, 0
  {
    if e.mode == TreeMode.Tree {
      assert [e][0] == e;
      FlattenPaths(trees, trees[e.id], prefix + e.name + [SLASH], d - 1);
      assert prefix + e.name + [SLASH] == prefix + Key(e);
    }
  }

  lemma {:induction false} FlattenPaths(trees: Trees, entries: seq<TreeEntry>, prefix: Bytes, d: nat)
    requires Complete(trees, entries, d)
    ensures forall x :: x in Flatten(trees, entries, prefix, d) ==> prefix <= x.path
    decreases d, |entries|
  {
    if entries != [] {
      BlockPaths(trees, entries[0], prefix, d);
      FlattenPaths(trees, entries[1..], prefix, d);
      forall x | x in Block(trees, entries[0], prefix, d) ensures prefix <= x.path {
        assert prefix <= prefix + Key(entries[0]) <= x.path;
      }
    }
  }

  /** A directory key is never a proper prefix of another key: names hold no `/`. */
  lemma {:induction false} DirectoryKeyNotPrefix(e: TreeEntry, f: TreeEntry)
    requires ValidName(e.name) && ValidName(f.name)
    requires e.mode == TreeMode.Tree && Key(e) <= Key(f)
    ensures Key(e) == Key(f)
  {
    assert Key(f)[|e.name|] == SLASH;
  }

  /** Equal keys belong to entries of the same sort: a file and a directory never compare as equal. */
  lemma {:induction false} EqualKeys(e: TreeEntry, f: TreeEntry)
    requires ValidName(e.name) && ValidName(f.name)
    requires Key(e) == Key(f)
    ensures e.name == f.name && (e.mode == TreeMode.Tree <==> f.mode == TreeMode.Tree)
  {
    assert e.mode == TreeMode.Tree ==> SLASH == Key(e)[|e.name|] == Key(f)[|e.name|];
    assert f.mode == TreeMode.Tree ==> SLASH == Key(f)[|f.name|] == Key(e)[|f.name|];
    assert Key(e)[..|e.name|] == e.name && Key(f)[..|f.name|] == f.name;
  }

  /** Tree order on entries is path order on everything they contain. */
  lemma {:induction false} BlocksOrdered(trees: Trees, e: TreeEntry, f: TreeEntry, prefix: Bytes, d: nat, x: IndexEntry,
                                         y: IndexEntry)
    requires Complete(trees, [e], d) && Complete(trees, [f], d)
    requires ValidName(e.name) && ValidName(f.name)
    requires Less(Key(e), Key(f))
    requires x in Block(trees, e, prefix, d) && y in Block(trees, f, prefix, d)
    ensures Less(x.path, y.path)
  {
    BlockPaths(trees, e, prefix, d);
    BlockPaths(trees, f, prefix, d);
    var ke, kf := Key(e), Key(f);
    var u, v := x.path[|prefix + ke|..], y.path[|prefix + kf|..];
    assert x.path == prefix + (ke + u) && y.path == prefix + (kf + v);
    LessUnderPrefix(prefix, ke + u, kf + v);
    if ke <= kf {
      LessAsymmetric(ke, kf);
      if e.mode == TreeMode.Tree {
        DirectoryKeyNotPrefix(e, f);
      } else {
        assert ke + u == ke && kf + v == ke + (kf[|ke|..] + v);
        LessThanExtension(ke, kf[|ke|..] + v);
      }
    } else {
      LessExtends(ke, kf, u, v);
    }
  }

  ghost predicate AllBefore(xs: seq<IndexEntry>, ys: seq<IndexEntry>)
  {
    forall x, y :: x in xs && y in ys ==> Less(x.path, y.path)
  }

  lemma {:induction false} BlockBeforeFlatten(trees: Trees, e: TreeEntry, entries: seq<TreeEntry>, prefix: Bytes,
                                              d: nat)
    requires Complete(trees, [e], d) && Complete(trees, entries, d)
    requires ValidName(e.name) && ValidNames(entries)
    requires forall i :: 0 <= i < |entries| ==> Less(Key(e), Key(entries[i]))
    ensures AllBefore(Block(trees, e, prefix, d), Flatten(trees, entries, prefix, d))
  {
    if entries != [] {
      BlockBeforeFlatten(trees, e, entries[1..], prefix, d);
      forall x, y | x in Block(trees, e, prefix, d) && y in Block(trees, entries[0], prefix, d)
        ensures Less(x.path, y.path)
      {
        BlocksOrdered(trees, e, entries[0], prefix, d, x, y);
      }
    }
  }

  /** Flattening a tree-sorted store gives strictly increasing paths. */
  lemma {:induction false} FlattenSorted(trees: Trees, entries: seq<TreeEntry>, prefix: Bytes, d: nat)
    requires Complete(trees, entries, d) && DeepSorted(trees, entries, d) && ValidNames(entries) && ValidTrees(trees)
    ensures PathSorted(Flatten(trees, entries, prefix, d))
    decreases d, |entries|
  {
    if entries != [] {
      var e := entries[0];
      if e.mode == TreeMode.Tree {
        FlattenSorted(trees, trees[e.id], prefix + e.name + [SLASH], d - 1);
      }
      FlattenSorted(trees, entries[1..], prefix, d);
      BlockBeforeFlatten(trees, e, entries[1..], prefix, d);
    }
  }
}
