/** The recursive tree diff that skips equal sub-trees (`diff.rs`, diff_trees). */
module TreeDiff {
  import opened Common
  import opened ByteOrder
  import opened Objects
  import opened TreeCodec
  import opened Index
  import opened TreeWalk
  import opened TreeStackWalk
  import opened Diff

  // ---- The flat diff of two flattened trees, entry by entry --------------------------------

  /** Both listings can be read in full and are in strict tree order all the way down. */
  ghost predicate Diffable(trees: Trees, olds: seq<TreeEntry>, news: seq<TreeEntry>, d: nat): (yes: bool)
    ensures yes ==> Complete(trees, olds, d) && Complete(trees, news, d)
  {
    && ValidNames(olds) && ValidNames(news)
    && Complete(trees, olds, d) && DeepSorted(trees, olds, d)
    && Complete(trees, news, d) && DeepSorted(trees, news, d)
  }

  /** The specification of the recursive diff: flatten both sides, then diff the listings. */
  ghost function FlattenedDiff(trees: Trees, olds: seq<TreeEntry>, news: seq<TreeEntry>, prefix: Bytes,
                               d: nat): seq<TreeDiffEntry>
    requires Complete(trees, olds, d) && Complete(trees, news, d)
  {
    FlatDiff(Flatten(trees, olds, prefix, d), Flatten(trees, news, prefix, d))
  }

  lemma {:induction false} DeepSortedTail(trees: Trees, entries: seq<TreeEntry>, d: nat)
    requires entries != [] && Complete(trees, entries, d) && DeepSorted(trees, entries, d) && ValidNames(entries)
    ensures Complete(trees, entries[1..], d) && DeepSorted(trees, entries[1..], d) && ValidNames(entries[1..])
    ensures Complete(trees, [entries[0]], d) && DeepSorted(trees, [entries[0]], d) && ValidName(entries[0].name)
    ensures forall i :: 0 <= i < |entries[1..]| ==> Less(Key(entries[0]), Key(entries[1..][i]))
  {
    CompleteSplits(trees, entries, d);
    assert [entries[0]][0] == entries[0];
  }

  lemma {:induction false} BeforeIsBelow(xs: seq<IndexEntry>, ys: seq<IndexEntry>)
    requires AllBefore(xs, ys)
    ensures Below(xs, ys)
  {
    forall x, y | x in xs && y in ys ensures Less(x.path, y.path) && !Less(y.path, x.path) {
      LessAsymmetric(x.path, y.path);
    }
  }

  /** An entry that sorts before the head of a sorted listing sorts before all of it. */
  lemma {:induction false} KeyBeforeAll(e: TreeEntry, entries: seq<TreeEntry>)
    requires TreeSorted(entries)
    requires entries != [] ==> Less(Key(e), Key(entries[0]))
    ensures forall i :: 0 <= i < |entries| ==> Less(Key(e), Key(entries[i]))
  {
    forall i | 0 <= i < |entries| ensures Less(Key(e), Key(entries[i])) {
      if i > 0 { LessTransitive(Key(e), Key(entries[0]), Key(entries[i])); }
    }
  }

  lemma {:induction false} BlockBelow(trees: Trees, e: TreeEntry, entries: seq<TreeEntry>, prefix: Bytes, d: nat)
    requires Complete(trees, [e], d) && Complete(trees, entries, d)
    requires ValidName(e.name) && ValidNames(entries)
    requires forall i :: 0 <= i < |entries| ==> Less(Key(e), Key(entries[i]))
    ensures Below(Block(trees, e, prefix, d), Flatten(trees, entries, prefix, d))
  {
    BlockBeforeFlatten(trees, e, entries, prefix, d);
    BeforeIsBelow(Block(trees, e, prefix, d), Flatten(trees, entries, prefix, d));
  }

  /** The next old entry comes first: its whole block is deleted. */
  lemma {:induction false} OldEntryFirst(trees: Trees, olds: seq<TreeEntry>, news: seq<TreeEntry>, prefix: Bytes,
                                         d: nat)
    requires Diffable(trees, olds, news, d) && olds != []
    requires news != [] ==> Less(Key(olds[0]), Key(news[0]))
    ensures Diffable(trees, olds[1..], news, d) && Complete(trees, [olds[0]], d)
    ensures FlattenedDiff(trees, olds, news, prefix, d)
            == EmitAll(Deleted, Block(trees, olds[0], prefix, d)) + FlattenedDiff(trees, olds[1..], news, prefix, d)
  {
    hide FlatDiff, EmitAll, Less, Block, Complete, ValidName;
    DeepSortedTail(trees, olds, d);
    KeyBeforeAll(olds[0], news);
    var block, rest, other := Block(trees, olds[0], prefix, d), Flatten(trees, olds[1..], prefix, d),
                              Flatten(trees, news, prefix, d);
    BlockBelow(trees, olds[0], olds[1..], prefix, d);
    BlockBelow(trees, olds[0], news, prefix, d);
    SplitDiff(block, rest, [], other);
    OneSided(block);
    assert [] + other == other;
  }

  /** The next new entry comes first: its whole block is added. */
  lemma {:induction false} NewEntryFirst(trees: Trees, olds: seq<TreeEntry>, news: seq<TreeEntry>, prefix: Bytes,
                                         d: nat)
    requires Diffable(trees, olds, news, d) && news != []
    requires olds != [] ==> Less(Key(news[0]), Key(olds[0]))
    ensures Diffable(trees, olds, news[1..], d) && Complete(trees, [news[0]], d)
    ensures FlattenedDiff(trees, olds, news, prefix, d)
            == EmitAll(Added, Block(trees, news[0], prefix, d)) + FlattenedDiff(trees, olds, news[1..], prefix, d)
  {
    hide FlatDiff, EmitAll, Less, Block, Complete, ValidName;
    DeepSortedTail(trees, news, d);
    KeyBeforeAll(news[0], olds);
    var block, rest, other := Block(trees, news[0], prefix, d), Flatten(trees, news[1..], prefix, d),
                              Flatten(trees, olds, prefix, d);
    BlockBelow(trees, news[0], news[1..], prefix, d);
    BlockBelow(trees, news[0], olds, prefix, d);
    SplitDiff([], other, block, rest);
    OneSided(block);
    assert [] + other == other;
  }

  /** Both entries have the same sort name: their blocks are diffed against each other. */
  lemma {:induction false} EntriesMatch(trees: Trees, olds: seq<TreeEntry>, news: seq<TreeEntry>, prefix: Bytes, d: nat)
    requires Diffable(trees, olds, news, d) && olds != [] && news != []
    requires Key(olds[0]) == Key(news[0])
    ensures Diffable(trees, olds[1..], news[1..], d) && Diffable(trees, [olds[0]], [news[0]], d)
    ensures FlattenedDiff(trees, olds, news, prefix, d)
            == FlatDiff(Block(trees, olds[0], prefix, d), Block(trees, news[0], prefix, d))
               + FlattenedDiff(trees, olds[1..], news[1..], prefix, d)
  {
    hide FlatDiff, Less, Block, Complete, ValidName;
    DeepSortedTail(trees, olds, d);
    DeepSortedTail(trees, news, d);
    var o, n := olds[0], news[0];
    BlockBelow(trees, o, olds[1..], prefix, d);
    BlockBelow(trees, o, news[1..], prefix, d);
    BlockBelow(trees, n, olds[1..], prefix, d);
    BlockBelow(trees, n, news[1..], prefix, d);
    SplitDiff(Block(trees, o, prefix, d), Flatten(trees, olds[1..], prefix, d),
              Block(trees, n, prefix, d), Flatten(trees, news[1..], prefix, d));
  }

  /** Two blocks of the same name and the same sub-tree do not differ. */
  lemma {:induction false} SameSubTree(trees: Trees, o: TreeEntry, n: TreeEntry, prefix: Bytes, d: nat)
    requires Diffable(trees, [o], [n], d) && Key(o) == Key(n)
    requires o.mode == n.mode == TreeMode.Tree && o.id == n.id
    ensures FlatDiff(Block(trees, o, prefix, d), Block(trees, n, prefix, d)) == []
  {
    assert [o][0] == o && [n][0] == n;
    EqualKeys(o, n);
    SelfDiff(Block(trees, o, prefix, d));
  }

  lemma {:induction false} FilesMatch(trees: Trees, o: TreeEntry, n: TreeEntry, prefix: Bytes, d: nat)
    requires o.mode != TreeMode.Tree && n.mode != TreeMode.Tree && o.name == n.name
    ensures Complete(trees, [o], d) && Complete(trees, [n], d)
    ensures FlatDiff(Block(trees, o, prefix, d), Block(trees, n, prefix, d))
            == if o.mode == n.mode && o.id == n.id then []
               else var path := prefix + n.name;
                    [TreeDiffEntry(Modified, path, Some(FileEntry(path, o.id, FromTreeMode(o.mode).value)),
                                   Some(FileEntry(path, n.id, FromTreeMode(n.mode).value)))]
  {
    FileBlock(trees, o, prefix, d);
    FileBlock(trees, n, prefix, d);
    LessIrreflexive(prefix + n.name);
    var x, y := Block(trees, o, prefix, d), Block(trees, n, prefix, d);
    assert x[1..] == [] && y[1..] == [];
  }

  /** Everything below a pair of sub-trees, as a diff of their entries. */
  lemma {:induction false} SubTreesMatch(trees: Trees, o: TreeEntry, n: TreeEntry, prefix: Bytes, d: nat)
    requires ValidTrees(trees) && Diffable(trees, [o], [n], d) && Key(o) == Key(n)
    requires o.mode == n.mode == TreeMode.Tree
    ensures d > 0 && o.id in trees && n.id in trees && Diffable(trees, trees[o.id], trees[n.id], d - 1)
    ensures FlatDiff(Block(trees, o, prefix, d), Block(trees, n, prefix, d))
            == FlattenedDiff(trees, trees[o.id], trees[n.id], prefix + o.name + [SLASH], d - 1)
  {
    hide FlatDiff;
    assert [o][0] == o && [n][0] == n;
    EqualKeys(o, n);
  }

  // ---- What has to be readable -------------------------------------------------------------

  /** A larger store with the same trees: it may also hold what cannot be read here. */
  ghost predicate Completes(full: Trees, trees: Trees)
  {
    ValidTrees(full) && ValidTrees(trees) && forall id :: id in trees ==> id in full && full[id] == trees[id]
  }

  predicate Lone(e: TreeEntry, others: seq<TreeEntry>)
  {
    forall i :: 0 <= i < |others| ==> Key(others[i]) != Key(e)
  }

  /**
   * Everything that the two listings do not share can be read: sub-trees without a counterpart in full, and of two
   * sub-trees of the same name whatever they do not share; nothing is asked of equal ones.
   */
  ghost predicate Comparable(trees: Trees, olds: seq<TreeEntry>, news: seq<TreeEntry>, d: nat)
    decreases d, 1
  {
    && (forall e :: e in olds && Lone(e, news) ==> Complete(trees, [e], d))
    && (forall e :: e in news && Lone(e, olds) ==> Complete(trees, [e], d))
    && (forall o, n :: o in olds && n in news && Key(o) == Key(n) ==> Matchable(trees, o, n, d))
  }

  ghost predicate Matchable(trees: Trees, o: TreeEntry, n: TreeEntry, d: nat)
    decreases d, 0
  {
    o.mode == TreeMode.Tree && n.mode == TreeMode.Tree && o.id != n.id ==>
      d > 0 && o.id in trees && n.id in trees && Comparable(trees, trees[o.id], trees[n.id], d - 1)
  }

  /** Listings that can be read in full are comparable. */
  lemma {:induction false} CompleteComparable(trees: Trees, olds: seq<TreeEntry>, news: seq<TreeEntry>, d: nat)
    requires Complete(trees, olds, d) && Complete(trees, news, d)
    ensures Comparable(trees, olds, news, d)
    decreases d
  {
    hide Key;
    forall o, n | o in olds && n in news && Key(o) == Key(n) ensures Matchable(trees, o, n, d) {
      if o.mode == TreeMode.Tree && n.mode == TreeMode.Tree {
        CompleteComparable(trees, trees[o.id], trees[n.id], d - 1);
      }
    }
  }

  lemma {:induction false} FullBlock(trees: Trees, full: Trees, e: TreeEntry, prefix: Bytes, d: nat)
    requires Completes(full, trees) && Complete(trees, [e], d)
    ensures Complete(full, [e], d) && Block(full, e, prefix, d) == Block(trees, e, prefix, d)
    decreases d, 0
  {
    assert [e][0] == e;
    if e.mode == TreeMode.Tree { FullFlatten(trees, full, trees[e.id], prefix + e.name + [SLASH], d - 1); }
  }

  /** Completing the store does not change what could be read before. */
  lemma {:induction false} FullFlatten(trees: Trees, full: Trees, entries: seq<TreeEntry>, prefix: Bytes, d: nat)
    requires Completes(full, trees) && Complete(trees, entries, d)
    ensures Complete(full, entries, d) && Flatten(full, entries, prefix, d) == Flatten(trees, entries, prefix, d)
    decreases d, |entries|
  {
    if entries != [] {
      CompleteSplits(trees, entries, d);
      assert [entries[0]][0] == entries[0];
      FullBlock(trees, full, entries[0], prefix, d);
      FullFlatten(trees, full, entries[1..], prefix, d);
      CompleteSplits(full, entries, d);
    }
  }

  /** An entry that sorts before all the others is alone. */
  lemma {:induction false} FirstIsLone(e: TreeEntry, others: seq<TreeEntry>)
    requires TreeSorted(others) && (others != [] ==> Less(Key(e), Key(others[0])))
    ensures Lone(e, others)
    ensures forall f :: f in others ==> Key(f) != Key(e)
  {
    hide Key;
    KeyBeforeAll(e, others);
    LessIrreflexive(Key(e));
  }

  lemma {:induction false} TailSorted(e: TreeEntry, entries: seq<TreeEntry>)
    requires TreeSorted([e] + entries)
    ensures TreeSorted(entries) && (entries != [] ==> Less(Key(e), Key(entries[0])))
  {
    hide Less, Key;
    var all := [e] + entries;
    assert all[0] == e && forall i :: 0 <= i < |entries| ==> entries[i] == all[i + 1];
    assert entries != [] ==> Less(Key(all[0]), Key(all[1]));
  }

  /** Taking a lone first entry away. */
  lemma {:induction false} ComparableLone(trees: Trees, e: TreeEntry, olds: seq<TreeEntry>, news: seq<TreeEntry>,
                                          d: nat)
    requires Lone(e, news) && forall f :: f in news ==> Key(f) != Key(e)
    ensures Comparable(trees, [e] + olds, news, d) <==> Complete(trees, [e], d) && Comparable(trees, olds, news, d)
    ensures Comparable(trees, news, [e] + olds, d) <==> Complete(trees, [e], d) && Comparable(trees, news, olds, d)
  {
    hide Key, Complete, Matchable;
    var all := [e] + olds;
    assert e in all && forall f :: f in all <==> f == e || f in olds;
    forall f | f in news ensures Lone(f, all) <==> Lone(f, olds) { LoneBehind(f, e, olds); }
  }

  lemma {:induction false} LoneBehind(f: TreeEntry, e: TreeEntry, others: seq<TreeEntry>)
    ensures Lone(f, [e] + others) <==> Key(e) != Key(f) && Lone(f, others)
  {
    hide Key;
    var all := [e] + others;
    assert all[0] == e && forall i :: 0 <= i < |others| ==> all[i + 1] == others[i];
    assert forall i :: 0 < i < |all| ==> all[i] == others[i - 1];
  }

  /** Taking two first entries of the same name away. */
  lemma {:induction false} ComparablePair(trees: Trees, o: TreeEntry, n: TreeEntry, olds: seq<TreeEntry>,
                                          news: seq<TreeEntry>, d: nat)
    requires Key(o) == Key(n)
    requires forall f :: f in olds || f in news ==> Key(f) != Key(o)
    ensures Comparable(trees, [o] + olds, [n] + news, d)
            <==> Matchable(trees, o, n, d) && Comparable(trees, olds, news, d)
  {
    hide Key, Complete, Matchable;
    var os, ns := [o] + olds, [n] + news;
    assert o in os && n in ns;
    assert forall f :: f in os <==> f == o || f in olds;
    assert forall f :: f in ns <==> f == n || f in news;
    LoneBehind(o, n, news);
    LoneBehind(n, o, olds);
    forall f | f in olds ensures Lone(f, ns) <==> Lone(f, news) { LoneBehind(f, n, news); }
    forall f | f in news ensures Lone(f, os) <==> Lone(f, olds) { LoneBehind(f, o, olds); }
  }

  /** `compare_tree_entries`, with an exhausted side sorting last. */
  ghost function HeadOrder(olds: seq<TreeEntry>, news: seq<TreeEntry>): Ordering
    requires olds != [] || news != []
  {
    if news == [] then Lt else if olds == [] then Gt
    else Compare(SortName(olds[0].name, olds[0].mode == TreeMode.Tree),
                 SortName(news[0].name, news[0].mode == TreeMode.Tree))
  }

  /** What one turn of the merge leaves to be read. */
  lemma {:induction false} ComparableStep(trees: Trees, olds: seq<TreeEntry>, news: seq<TreeEntry>, d: nat)
    requires TreeSorted(olds) && TreeSorted(news) && (olds != [] || news != [])
    ensures HeadOrder(olds, news) == Lt ==>
              olds != [] && (Comparable(trees, olds, news, d) <==>
                               Complete(trees, [olds[0]], d) && Comparable(trees, olds[1..], news, d))
    ensures HeadOrder(olds, news) == Gt ==>
              news != [] && (Comparable(trees, olds, news, d) <==>
                               Complete(trees, [news[0]], d) && Comparable(trees, olds, news[1..], d))
    ensures HeadOrder(olds, news) == Eq ==>
              olds != [] && news != [] && (Comparable(trees, olds, news, d) <==>
                                             Matchable(trees, olds[0], news[0], d)
                                                 && Comparable(trees, olds[1..], news[1..], d))
  {
    hide Comparable, Matchable, Complete, Less, Key, SortName, Lone, TreeSorted;
    if olds != [] && news != [] { HeadsCompared(olds, news); }
    if olds != [] {
      assert olds == [olds[0]] + olds[1..];
      TailSorted(olds[0], olds[1..]);
      FirstIsLone(olds[0], olds[1..]);
    }
    if news != [] {
      assert news == [news[0]] + news[1..];
      TailSorted(news[0], news[1..]);
      FirstIsLone(news[0], news[1..]);
    }
    match HeadOrder(olds, news)
    case Lt =>
      FirstIsLone(olds[0], news);
      ComparableLone(trees, olds[0], olds[1..], news, d);
    case Gt =>
      FirstIsLone(news[0], olds);
      ComparableLone(trees, news[0], news[1..], olds, d);
    case Eq =>
      ComparablePair(trees, olds[0], news[0], olds[1..], news[1..], d);
  }

  lemma {:induction false} HeadsCompared(olds: seq<TreeEntry>, news: seq<TreeEntry>)
    requires olds != [] && news != []
    ensures HeadOrder(olds, news) == Lt ==> Less(Key(olds[0]), Key(news[0]))
    ensures HeadOrder(olds, news) == Gt ==> Less(Key(news[0]), Key(olds[0]))
    ensures HeadOrder(olds, news) == Eq ==> Key(olds[0]) == Key(news[0])
  {
    LessTotal(Key(olds[0]), Key(news[0]));
  }

  lemma {:induction false} NothingToCompare(trees: Trees, olds: seq<TreeEntry>, news: seq<TreeEntry>, d: nat)
    requires olds == [] && news == []
    ensures Comparable(trees, olds, news, d)
  {
  }

  lemma {:induction false} DiffableSorted(trees: Trees, olds: seq<TreeEntry>, news: seq<TreeEntry>, d: nat)
    requires Diffable(trees, olds, news, d)
    ensures TreeSorted(olds) && TreeSorted(news)
  {
  }

  // ---- The program -------------------------------------------------------------------------

  /** `for_each_tree_diff` with the vector its visitor pushes into, and the path buffer the recursion shares. */
  class TreeDiffer {
    const cache: TreeObjectCache
    var path: Bytes
    var out: seq<TreeDiffEntry>

    constructor (cache: TreeObjectCache)
      ensures this.cache == cache && path == [] && out == []
    {
      this.cache := cache;
      path := [];
      out := [];
    }

    method EmitTreeEntry(entry: TreeEntry, status: DiffStatus, ghost d: nat) returns (r: Result<()>)
      requires cache.Valid() && Acyclic(TreesOf(cache.store), [entry], d)
      modifies this, cache
      ensures cache.Valid()
      ensures status == Added || status == Deleted ==> (r.Ok? <==> Complete(TreesOf(cache.store), [entry], d))
      ensures (status == Added || status == Deleted) && r.Ok? ==>
                path == old(path) && out == old(out) + EmitAll(status, Block(TreesOf(cache.store), entry, old(path), d))
      decreases d, 0
    {
      hide *;
      ghost var trees := TreesOf(cache.store);
      if entry.mode == TreeMode.Tree {
        DirectoryBlock(trees, entry, path, d);
        var pathLen := |path|;
        path := path + entry.name + [SLASH];
        var entries := cache.ReadTree(entry.id);
        if entries.Err? {
          return Err(entries.error);
        }
        r := EmitTreeEntries(entries.value, status, d - 1);
        if r.Err? {
          return r;
        }
        path := if pathLen <= |path| then path[..pathLen] else path;
        return Ok(());
      }
      FileBlock(trees, entry, path, d);
      OneFile(status, path + entry.name, entry.id, FromTreeMode(entry.mode).value);
      var filePath := path + entry.name;
      var file := FileEntry(filePath, entry.id, FromTreeMode(entry.mode).value);
      if status == Added {
        out := out + [TreeDiffEntry(status, filePath, None, Some(file))];
      } else if status == Deleted {
        out := out + [TreeDiffEntry(status, filePath, Some(file), None)];
      } else {
        return Err(InvalidInput);
      }
      return Ok(());
    }

    method EmitTreeEntries(entries: seq<TreeEntry>, status: DiffStatus, ghost d: nat) returns (r: Result<()>)
      requires cache.Valid() && Acyclic(TreesOf(cache.store), entries, d)
      modifies this, cache
      ensures cache.Valid()
      ensures status == Added || status == Deleted ==> (r.Ok? <==> Complete(TreesOf(cache.store), entries, d))
      ensures (status == Added || status == Deleted) && r.Ok? ==>
                path == old(path)
                    && out == old(out) + EmitAll(status, Flatten(TreesOf(cache.store), entries, old(path), d))
      decreases d, 1
    {
      hide *;
      ghost var trees := TreesOf(cache.store);
      ghost var known := status == Added || status == Deleted;
      assert entries[0..] == entries;
      for i := 0 to |entries|
        invariant cache.Valid() && Acyclic(trees, entries[i..], d)
        invariant known ==> path == old(path) && (Complete(trees, entries, d) <==> Complete(trees, entries[i..], d))
        invariant known && Complete(trees, entries, d) ==>
            && out + EmitAll(status, Flatten(trees, entries[i..], path, d))
               == old(out) + EmitAll(status, Flatten(trees, entries, path, d))
      {
        EmitNext(trees, entries[i..], status, path, d, out);
        assert entries[i..][1..] == entries[i + 1..] && entries[i..][0] == entries[i];
        r := EmitTreeEntry(entries[i], status, d);
        if r.Err? {
          return r;
        }
      }
      EmitNothing(trees, entries[|entries|..], status, path, d, out);
      return Ok(());
    }

    /**
     * Both entries have the same sort name; the two branches for a file against a directory are dead. `full` is any
     * store that completes this one.
     */
    method DiffMatchingTreeEntry(oldEntry: TreeEntry, newEntry: TreeEntry, ghost d: nat, ghost full: Trees)
      returns (r: Result<()>)
      requires cache.Valid() && Completes(full, TreesOf(cache.store))
      requires Acyclic(TreesOf(cache.store), [oldEntry], d) && Acyclic(TreesOf(cache.store), [newEntry], d)
      requires ValidName(oldEntry.name) && ValidName(newEntry.name) && Key(oldEntry) == Key(newEntry)
      modifies this, cache
      ensures cache.Valid()
      ensures Diffable(full, [oldEntry], [newEntry], d) ==>
              (r.Ok? <==> Matchable(TreesOf(cache.store), oldEntry, newEntry, d))
      ensures Diffable(full, [oldEntry], [newEntry], d) && r.Ok? ==>
                && path == old(path)
                && out == old(out) + FlatDiff(Block(full, oldEntry, old(path), d), Block(full, newEntry, old(path), d))
      decreases d, 2
    {
      hide *;
      ghost var trees := TreesOf(cache.store);
      ghost var whole := Diffable(full, [oldEntry], [newEntry], d);
      EqualKeys(oldEntry, newEntry);
      MatchableCases(trees, oldEntry, newEntry, d);
      if oldEntry.mode == TreeMode.Tree && newEntry.mode == TreeMode.Tree {
        if oldEntry.id == newEntry.id {
          if whole {
            SameSubTree(full, oldEntry, newEntry, path, d);
            assert out + [] == out;
          }
          return Ok(());
        }
        DirectoryBlock(trees, oldEntry, path, d);
        DirectoryBlock(trees, newEntry, path, d);
        CompletedTrees(full, trees);
        if whole { SubTreesMatch(full, oldEntry, newEntry, path, d); }
        var pathLen := |path|;
        path := path + oldEntry.name + [SLASH];
        var oldEntries := cache.ReadTree(oldEntry.id);
        if oldEntries.Err? {
          return Err(oldEntries.error);
        }
        var newEntries := cache.ReadTree(newEntry.id);
        if newEntries.Err? {
          return Err(newEntries.error);
        }
        r := DiffTreeEntriesAt(oldEntries.value, newEntries.value, d - 1, full);
        if r.Err? {
          return r;
        }
        path := if pathLen <= |path| then path[..pathLen] else path;
        return Ok(());
      }
      if oldEntry.mode == TreeMode.Tree || newEntry.mode == TreeMode.Tree {
        assert false;
      }
      FilesMatch(full, oldEntry, newEntry, path, d);
      if oldEntry.mode != newEntry.mode || oldEntry.id != newEntry.id {
        var filePath := path + newEntry.name;
        out := out + [TreeDiffEntry(Modified, filePath,
                                    Some(FileEntry(filePath, oldEntry.id, FromTreeMode(oldEntry.mode).value)),
                                    Some(FileEntry(filePath, newEntry.id, FromTreeMode(newEntry.mode).value)))];
      }
      assert old(out) + [] == old(out);
      return Ok(());
    }

    method DiffTreeEntriesAt(oldEntries: seq<TreeEntry>, newEntries: seq<TreeEntry>, ghost d: nat, ghost full: Trees)
      returns (r: Result<()>)
      requires cache.Valid() && Completes(full, TreesOf(cache.store))
      requires Acyclic(TreesOf(cache.store), oldEntries, d) && Acyclic(TreesOf(cache.store), newEntries, d)
      requires ValidNames(oldEntries) && ValidNames(newEntries)
      modifies this, cache
      ensures cache.Valid()
      ensures Diffable(full, oldEntries, newEntries, d) ==>
                (r.Ok? <==> Comparable(TreesOf(cache.store), oldEntries, newEntries, d))
      ensures Diffable(full, oldEntries, newEntries, d) && r.Ok? ==>
                path == old(path) && out == old(out) + FlattenedDiff(full, oldEntries, newEntries, old(path), d)
      decreases d, 3
    {
      hide FlatDiff, Flatten, Block, Complete, Acyclic, ValidName, ValidNames, EmitAll, Less, FlattenedDiff, Diffable,
           DeepSorted, TreesOf, ReadTree, Compare, SortName, Key, Completes, Comparable, Matchable, ValidTrees;
      ghost var trees := TreesOf(cache.store);
      ghost var whole := Diffable(full, oldEntries, newEntries, d);
      ghost var readable := Comparable(trees, oldEntries, newEntries, d);
      var oldIdx, newIdx := 0, 0;
      assert oldEntries[0..] == oldEntries && newEntries[0..] == newEntries;
      while oldIdx < |oldEntries| || newIdx < |newEntries|
        invariant oldIdx <= |oldEntries| && newIdx <= |newEntries| && cache.Valid()
        invariant Pair(trees, oldEntries[oldIdx..], newEntries[newIdx..], d)
        invariant whole ==>
            && Diffable(full, oldEntries[oldIdx..], newEntries[newIdx..], d) && path == old(path)
            && out + FlattenedDiff(full, oldEntries[oldIdx..], newEntries[newIdx..], path, d)
               == old(out) + FlattenedDiff(full, oldEntries, newEntries, path, d)
        invariant whole ==> (readable <==> Comparable(trees, oldEntries[oldIdx..], newEntries[newIdx..], d))
        decreases |oldEntries| - oldIdx + (|newEntries| - newIdx)
      {
        ghost var o, n := oldEntries[oldIdx..], newEntries[newIdx..];
        PairStep(trees, o, n, d);
        if whole { DiffStep(trees, full, o, n, path, d, out); }
        assert oldIdx < |oldEntries| ==> o[0] == oldEntries[oldIdx] && o[1..] == oldEntries[oldIdx + 1..];
        assert newIdx < |newEntries| ==> n[0] == newEntries[newIdx] && n[1..] == newEntries[newIdx + 1..];
        var order := if newIdx == |newEntries| then Lt else Gt;
        if oldIdx < |oldEntries| && newIdx < |newEntries| {
          var oldEntry, newEntry := oldEntries[oldIdx], newEntries[newIdx];
          order := CompareTreeNames(oldEntry.name, oldEntry.mode == TreeMode.Tree, newEntry.name,
                                    newEntry.mode == TreeMode.Tree);
        }
        match order {
          case Lt =>
            r := EmitTreeEntry(oldEntries[oldIdx], Deleted, d);
            oldIdx := oldIdx + 1;
          case Gt =>
            r := EmitTreeEntry(newEntries[newIdx], Added, d);
            newIdx := newIdx + 1;
          case Eq =>
            r := DiffMatchingTreeEntry(oldEntries[oldIdx], newEntries[newIdx], d, full);
            oldIdx := oldIdx + 1;
            newIdx := newIdx + 1;
        }
        if r.Err? {
          return r;
        }
      }
      NothingLeft(full, oldEntries[oldIdx..], newEntries[newIdx..], path, d, out);
      NothingToCompare(trees, oldEntries[oldIdx..], newEntries[newIdx..], d);
      return Ok(());
    }
  }

  lemma {:induction false} MatchableCases(trees: Trees, o: TreeEntry, n: TreeEntry, d: nat)
    ensures Matchable(trees, o, n, d) <==>
            (o.mode == TreeMode.Tree && n.mode == TreeMode.Tree && o.id != n.id ==>
               d > 0 && o.id in trees && n.id in trees && Comparable(trees, trees[o.id], trees[n.id], d - 1))
  {
    hide Comparable;
  }

  lemma {:induction false} CompletedTrees(full: Trees, trees: Trees)
    requires Completes(full, trees)
    ensures ValidTrees(full) && ValidTrees(trees)
    ensures forall id :: id in trees ==> id in full && full[id] == trees[id]
  {
    hide ValidNames;
  }

  ghost predicate Pair(trees: Trees, olds: seq<TreeEntry>, news: seq<TreeEntry>, d: nat)
  {
    Acyclic(trees, olds, d) && Acyclic(trees, news, d) && ValidNames(olds) && ValidNames(news)
  }

  /** One turn of the merge, whichever side it takes. */
  lemma {:induction false} PairStep(trees: Trees, olds: seq<TreeEntry>, news: seq<TreeEntry>, d: nat)
    requires Pair(trees, olds, news, d) && (olds != [] || news != [])
    ensures HeadOrder(olds, news) == Lt ==>
            olds != [] && Acyclic(trees, [olds[0]], d) && Pair(trees, olds[1..], news, d)
    ensures HeadOrder(olds, news) == Gt ==>
            news != [] && Acyclic(trees, [news[0]], d) && Pair(trees, olds, news[1..], d)
    ensures HeadOrder(olds, news) == Eq ==>
              && olds != [] && news != [] && Key(olds[0]) == Key(news[0])
              && ValidName(olds[0].name) && ValidName(news[0].name)
              && Acyclic(trees, [olds[0]], d) && Acyclic(trees, [news[0]], d) && Pair(trees, olds[1..], news[1..], d)
  {
    hide Acyclic, ValidName, Less;
    if olds != [] { CompleteSplits(trees, olds, d); }
    if news != [] { CompleteSplits(trees, news, d); }
    if olds != [] && news != [] { LessTotal(Key(olds[0]), Key(news[0])); }
  }

  /** What that turn adds to the output, and what it has to read for it. */
  lemma {:induction false} DiffStep(trees: Trees, full: Trees, olds: seq<TreeEntry>, news: seq<TreeEntry>,
                                    prefix: Bytes, d: nat,
                                    out: seq<TreeDiffEntry>)
    requires Completes(full, trees) && Diffable(full, olds, news, d) && (olds != [] || news != [])
    ensures HeadOrder(olds, news) == Lt ==>
              && olds != [] && Diffable(full, olds[1..], news, d)
              && (Comparable(trees, olds, news, d)
                  <==> Complete(trees, [olds[0]], d) && Comparable(trees, olds[1..], news, d))
              && (Complete(trees, [olds[0]], d) ==>
                    out + FlattenedDiff(full, olds, news, prefix, d)
                    == out + EmitAll(Deleted, Block(trees, olds[0], prefix, d))
                        + FlattenedDiff(full, olds[1..], news, prefix, d))
    ensures HeadOrder(olds, news) == Gt ==>
              && news != [] && Diffable(full, olds, news[1..], d)
              && (Comparable(trees, olds, news, d)
                  <==> Complete(trees, [news[0]], d) && Comparable(trees, olds, news[1..], d))
              && (Complete(trees, [news[0]], d) ==>
                    out + FlattenedDiff(full, olds, news, prefix, d)
                    == out + EmitAll(Added, Block(trees, news[0], prefix, d))
                        + FlattenedDiff(full, olds, news[1..], prefix, d))
    ensures HeadOrder(olds, news) == Eq ==>
              && olds != [] && news != [] && Diffable(full, olds[1..], news[1..], d)
                 && Diffable(full, [olds[0]], [news[0]], d)
              && (Comparable(trees, olds, news, d) <==>
                    Matchable(trees, olds[0], news[0], d) && Comparable(trees, olds[1..], news[1..], d))
              && out + FlattenedDiff(full, olds, news, prefix, d)
                 == out + FlatDiff(Block(full, olds[0], prefix, d), Block(full, news[0], prefix, d))
                    + FlattenedDiff(full, olds[1..], news[1..], prefix, d)
  {
    hide FlatDiff, Flatten, Block, Complete, Acyclic, ValidName, EmitAll, Less, FlattenedDiff, Diffable, Comparable,
         Matchable,
         Completes, TreeSorted, Key;
    DiffableSorted(full, olds, news, d);
    ComparableStep(trees, olds, news, d);
    if olds != [] && news != [] { HeadsCompared(olds, news); }
    match HeadOrder(olds, news)
    case Lt =>
      OldEntryFirst(full, olds, news, prefix, d);
      ConcatAssoc(out, EmitAll(Deleted, Block(full, olds[0], prefix, d)),
                  FlattenedDiff(full, olds[1..], news, prefix, d));
      if Complete(trees, [olds[0]], d) { FullBlock(trees, full, olds[0], prefix, d); }
    case Gt =>
      NewEntryFirst(full, olds, news, prefix, d);
      ConcatAssoc(out, EmitAll(Added, Block(full, news[0], prefix, d)),
                  FlattenedDiff(full, olds, news[1..], prefix, d));
      if Complete(trees, [news[0]], d) { FullBlock(trees, full, news[0], prefix, d); }
    case Eq =>
      EntriesMatch(full, olds, news, prefix, d);
      ConcatAssoc(out, FlatDiff(Block(full, olds[0], prefix, d), Block(full, news[0], prefix, d)),
              FlattenedDiff(full, olds[1..], news[1..], prefix, d));
  }

  lemma {:induction false} NothingLeft(trees: Trees, olds: seq<TreeEntry>, news: seq<TreeEntry>, prefix: Bytes, d: nat,
                                       out: seq<TreeDiffEntry>)
    requires olds == [] && news == []
    ensures Complete(trees, olds, d) && Complete(trees, news, d)
    ensures out + FlattenedDiff(trees, olds, news, prefix, d) == out
  {
  }

  lemma {:induction false} OneFile(status: DiffStatus, path: Bytes, id: ObjectId, mode: IndexMode)
    ensures EmitAll(status, [TreeIndexEntry(path, id, mode)])
            == [if status == Deleted then TreeDiffEntry(Deleted, path, Some(FileEntry(path, id, mode)), None)
                else TreeDiffEntry(Added, path, None, Some(FileEntry(path, id, mode)))]
  {
  }

  lemma {:induction false} EmitNext(trees: Trees, entries: seq<TreeEntry>, status: DiffStatus, prefix: Bytes, d: nat,
                                    out: seq<TreeDiffEntry>)
    requires entries != [] && Acyclic(trees, entries, d)
    ensures Acyclic(trees, [entries[0]], d) && Acyclic(trees, entries[1..], d)
    ensures Complete(trees, entries, d) <==> Complete(trees, [entries[0]], d) && Complete(trees, entries[1..], d)
    ensures Complete(trees, entries, d) ==>
              && out + EmitAll(status, Flatten(trees, entries, prefix, d))
                 == out + EmitAll(status, Block(trees, entries[0], prefix, d))
                    + EmitAll(status, Flatten(trees, entries[1..], prefix, d))
  {
    CompleteSplits(trees, entries, d);
    if Complete(trees, entries, d) {
      EmitAllConcat(status, Block(trees, entries[0], prefix, d), Flatten(trees, entries[1..], prefix, d));
    }
  }

  lemma {:induction false} EmitNothing(trees: Trees, entries: seq<TreeEntry>, status: DiffStatus, prefix: Bytes, d: nat,
                                       out: seq<TreeDiffEntry>)
    requires entries == []
    ensures Complete(trees, entries, d) && out + EmitAll(status, Flatten(trees, entries, prefix, d)) == out
  {
  }

  ghost function OldFiles(trees: Trees, oldTree: Option<ObjectId>, d: nat): seq<IndexEntry>
    requires oldTree.Some? ==> Readable(trees, oldTree.value, d)
  {
    if oldTree.None? then [] else Files(trees, oldTree.value, d)
  }

  /** `diff_trees` can read all it has to read. */
  ghost predicate TreesComparable(trees: Trees, oldTree: Option<ObjectId>, newTree: ObjectId, d: nat)
  {
    || oldTree == Some(newTree)
    || (newTree in trees
        && if oldTree.None? then Complete(trees, trees[newTree], d)
           else oldTree.value in trees && Comparable(trees, trees[oldTree.value], trees[newTree], d))
  }

  /** Both trees, all the way down, are there and in strict tree order. */
  ghost predicate BothSorted(trees: Trees, oldTree: Option<ObjectId>, newTree: ObjectId, d: nat)
  {
    (oldTree.Some? ==> WellSorted(trees, oldTree.value, d)) && WellSorted(trees, newTree, d)
  }

  /** Readable trees are comparable. */
  lemma {:induction false} ReadableComparable(trees: Trees, oldTree: Option<ObjectId>, newTree: ObjectId, d: nat)
    requires BothSorted(trees, oldTree, newTree, d)
    ensures TreesComparable(trees, oldTree, newTree, d)
  {
    hide Complete, DeepSorted, Comparable;
    if oldTree.Some? { CompleteComparable(trees, trees[oldTree.value], trees[newTree], d); }
  }

  /**
   * `diff_trees`. In any store `full` that completes this one with the trees missing from it, let both trees be
   * tree-sorted all the way down. Then the recursive diff succeeds exactly if this store has everything that the trees
   * do not share, and it gives the flat diff of the two flattened trees: same entries, same order, same ids and modes,
   * whatever the shared trees hold.
   */
  method DiffTrees(cache: TreeObjectCache, oldTree: Option<ObjectId>, newTree: ObjectId, ghost d: nat,
                   ghost full: Trees)
    returns (r: Result<seq<TreeDiffEntry>>)
    requires cache.Valid() && Completes(full, TreesOf(cache.store))
    requires oldTree.Some? ==> AcyclicFrom(TreesOf(cache.store), oldTree.value, d)
    requires AcyclicFrom(TreesOf(cache.store), newTree, d)
    modifies cache
    ensures cache.Valid()
    ensures BothSorted(full, oldTree, newTree, d) ==>
            (r.Ok? <==> TreesComparable(TreesOf(cache.store), oldTree, newTree, d))
    ensures BothSorted(full, oldTree, newTree, d) && r.Ok? ==>
              r.value == FlatDiff(OldFiles(full, oldTree, d), Files(full, newTree, d))
  {
    hide FlatDiff, Flatten, Complete, Acyclic, EmitAll, DeepSorted, TreesOf, ReadTree, Comparable, Completes;
    ghost var trees := TreesOf(cache.store);
    ghost var sorted := BothSorted(full, oldTree, newTree, d);
    if oldTree == Some(newTree) {
      if sorted { SelfDiff(Files(full, newTree, d)); }
      return Ok([]);
    }
    CompletedTrees(full, trees);
    var differ := new TreeDiffer(cache);
    var oldEntries: Result<seq<TreeEntry>> := Ok([]);
    if oldTree.Some? {
      oldEntries := cache.ReadTree(oldTree.value);
      if oldEntries.Err? {
        return Err(oldEntries.error);
      }
    }
    var newEntries := cache.ReadTree(newTree);
    if newEntries.Err? {
      return Err(newEntries.error);
    }
    var walked;
    if oldTree.Some? {
      walked := differ.DiffTreeEntriesAt(oldEntries.value, newEntries.value, d, full);
    } else {
      walked := differ.EmitTreeEntries(newEntries.value, Added, d);
      if walked.Ok? && sorted {
        FullFlatten(trees, full, newEntries.value, [], d);
        OneSided(Files(full, newTree, d));
      }
    }
    if walked.Err? {
      return Err(walked.error);
    }
    if sorted {
      ghost var diff := FlatDiff(OldFiles(full, oldTree, d), Files(full, newTree, d));
      assert [] + diff == diff;
    }
    return Ok(differ.out);
  }

  /** What that diff says: exactly the changes between the two sets of files, in strictly increasing path order. */
  lemma {:induction false} TreeDiffMeaning(trees: Trees, oldTree: ObjectId, newTree: ObjectId, d: nat)
    requires ValidTrees(trees) && WellSorted(trees, oldTree, d) && WellSorted(trees, newTree, d)
    ensures var olds, news := Files(trees, oldTree, d), Files(trees, newTree, d);
            && AllStageZero(olds) && AllStageZero(news)
            && DiffSorted(FlatDiff(olds, news))
            && forall x :: x in FlatDiff(olds, news) <==> IsChange(olds, news, x)
  {
    FlattenStageZero(trees, trees[oldTree], [], d);
    FlattenStageZero(trees, trees[newTree], [], d);
    FilesSorted(trees, oldTree, d);
    FilesSorted(trees, newTree, d);
    var olds, news := Files(trees, oldTree, d), Files(trees, newTree, d);
    FlatDiffSorted(olds, news);
    forall x ensures x in FlatDiff(olds, news) <==> IsChange(olds, news, x) {
      FlatDiffExact(olds, news, x);
    }
  }
}
