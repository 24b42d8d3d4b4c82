/** The tree cache and the two explicit-stack walks that turn a stored tree into index entries (`tree.rs`). */
module TreeStackWalk {
  import opened Common
  import opened Objects
  import opened TreeCodec
  import opened Index
  import opened TreeWalk

  const TREE_OBJECT_CACHE_ENTRY_LIMIT := 8192

  /** `TreeObjectCache`: decoded trees of one fixed store, dropped all at once when the limit is reached. */
  class TreeObjectCache {
    const store: Store
    const entryLimit: nat
    var trees: map<ObjectId, seq<TreeEntry>>

    ghost predicate Valid()
      reads this
    {
      && 1 <= entryLimit && |trees| <= entryLimit
      && forall id :: id in trees ==> TreeCodec.ReadTree(store, id) == Ok(trees[id])
    }

    constructor (store: Store)
      ensures Valid() && this.store == store && trees == map[]
    {
      this.store := store;
      entryLimit := TREE_OBJECT_CACHE_ENTRY_LIMIT;
      trees := map[];
    }

    /** The cached read is the direct read, whatever was read before. */
    method ReadTree(id: ObjectId) returns (r: Result<seq<TreeEntry>>)
      requires Valid()
      modifies this
      ensures Valid()
      ensures r == TreeCodec.ReadTree(store, id)
    {
      if id in trees {
        return Ok(trees[id]);
      }
      var found := ReadObject(store, id);
      if found.Err? {
        return Err(found.error);
      }
      if found.value.kind != ObjectKind.Tree {
        return Err(InvalidData);
      }
      var entries := DecodeTree(id.algorithm, found.value.content);
      if entries.Err? {
        return entries;
      }
      if |trees| >= entryLimit {
        trees := map[];
      }
      trees := trees[id := entries.value];
      return entries;
    }
  }

  /** One level of the walk: the entries of a tree, the next one to visit, and where its prefix ends in `path`. */
  datatype Frame = Frame(entries: seq<TreeEntry>, next: nat, pathLen: nat)

  /** What a frame still has to do, with the path prefix and the depth bound it works under. */
  datatype Level = Level(rest: seq<TreeEntry>, prefix: Bytes, d: nat)

  ghost predicate LevelsAcyclic(trees: Trees, levels: seq<Level>)
  {
    forall i :: 0 <= i < |levels| ==> Acyclic(trees, levels[i].rest, levels[i].d) && ValidNames(levels[i].rest)
  }

  ghost predicate LevelsComplete(trees: Trees, levels: seq<Level>)
  {
    forall i :: 0 <= i < |levels| ==> Complete(trees, levels[i].rest, levels[i].d)
  }

  /** How many iterations the walk spends on `entries`: one for each, and one more to leave each sub-tree. */
  ghost function Work(trees: Trees, entries: seq<TreeEntry>, d: nat): nat
    requires Acyclic(trees, entries, d)
    decreases d, |entries|
  {
    if entries == [] then 0 else
    var id := entries[0].id;
    (if entries[0].mode == TreeMode.Tree && id in trees then 2 + Work(trees, trees[id], d - 1) else 1)
      + Work(trees, entries[1..], d)
  }

  ghost function LevelsWork(trees: Trees, levels: seq<Level>): nat
    requires LevelsAcyclic(trees, levels)
  {
    if levels == [] then 0 else
    var k := |levels| - 1;
    1 + Work(trees, levels[k].rest, levels[k].d) + LevelsWork(trees, levels[..k])
  }

  /** What the levels still have to emit, top of the stack first. */
  ghost function Pending(trees: Trees, levels: seq<Level>): seq<IndexEntry>
    requires LevelsComplete(trees, levels)
  {
    if levels == [] then [] else
    var k := |levels| - 1;
    Flatten(trees, levels[k].rest, levels[k].prefix, levels[k].d) + Pending(trees, levels[..k])
  }

  /** The level a sub-tree opens. */
  function Descend(trees: Trees, top: Level): Level
    requires top.rest != [] && top.d > 0 && top.rest[0].id in trees
  {
    Level(trees[top.rest[0].id], top.prefix + top.rest[0].name + [SLASH], top.d - 1)
  }

  function Top(levels: seq<Level>): Level
    requires levels != []
  {
    levels[|levels| - 1]
  }

  function Pop(levels: seq<Level>): seq<Level>
    requires levels != []
  {
    levels[..|levels| - 1]
  }

  /** The levels once the top one has taken its first entry. */
  function Next(levels: seq<Level>): seq<Level>
    requires levels != [] && Top(levels).rest != []
  {
    Pop(levels) + [Top(levels).(rest := Top(levels).rest[1..])]
  }

  lemma {:induction false} WorkOfTop(trees: Trees, levels: seq<Level>, top: Level)
    requires LevelsAcyclic(trees, levels + [top])
    ensures LevelsAcyclic(trees, levels) && Acyclic(trees, top.rest, top.d)
    ensures LevelsWork(trees, levels + [top]) == 1 + Work(trees, top.rest, top.d) + LevelsWork(trees, levels)
  {
    var all := levels + [top];
    assert all[..|all| - 1] == levels && all[|all| - 1] == top;
    forall i | 0 <= i < |levels| ensures Acyclic(trees, levels[i].rest, levels[i].d) && ValidNames(levels[i].rest) {
      assert all[i] == levels[i];
    }
  }

  lemma {:induction false} PendingOfTop(trees: Trees, levels: seq<Level>, top: Level)
    ensures LevelsComplete(trees, levels + [top]) <==> LevelsComplete(trees, levels) && Complete(trees, top.rest, top.d)
    ensures LevelsComplete(trees, levels + [top]) ==>
              Pending(trees, levels + [top]) == Flatten(trees, top.rest, top.prefix, top.d) + Pending(trees, levels)
  {
    var all := levels + [top];
    assert all[..|all| - 1] == levels && all[|all| - 1] == top;
    if LevelsComplete(trees, all) {
      forall i | 0 <= i < |levels| ensures Complete(trees, levels[i].rest, levels[i].d) {
        assert all[i] == levels[i];
      }
    }
  }

  /** The loop invariant of both walks: emitted and pending entries are exactly the flattened tree. */
  ghost predicate Walking(trees: Trees, root: Level, levels: seq<Level>, out: seq<IndexEntry>)
  {
    && LevelsAcyclic(trees, levels)
    && (Complete(trees, root.rest, root.d) <==> LevelsComplete(trees, levels))
    && (LevelsComplete(trees, levels) ==>
          out + Pending(trees, levels) == Flatten(trees, root.rest, root.prefix, root.d))
  }

  lemma {:induction false} WalkStarts(trees: Trees, root: Level)
    requires Acyclic(trees, root.rest, root.d) && ValidNames(root.rest)
    ensures Walking(trees, root, [root], [])
  {
    hide Flatten, Complete, Acyclic;
    PendingOfTop(trees, [], root);
    assert [] + [root] == [root];
    if LevelsComplete(trees, [root]) {
      var files := Flatten(trees, root.rest, root.prefix, root.d);
      assert [] + (files + []) == files;
    }
  }

  lemma {:induction false} WalkPops(trees: Trees, root: Level, levels: seq<Level>, out: seq<IndexEntry>)
    requires Walking(trees, root, levels, out) && levels != [] && Top(levels).rest == []
    ensures Walking(trees, root, Pop(levels), out)
    ensures LevelsWork(trees, Pop(levels)) < LevelsWork(trees, levels)
  {
    assert levels == Pop(levels) + [Top(levels)];
    WorkOfTop(trees, Pop(levels), Top(levels));
    PendingOfTop(trees, Pop(levels), Top(levels));
    if LevelsComplete(trees, Pop(levels)) {
      assert [] + Pending(trees, Pop(levels)) == Pending(trees, Pop(levels));
    }
  }

  lemma {:induction false} LevelsAcyclicPush(trees: Trees, levels: seq<Level>, top: Level)
    requires LevelsAcyclic(trees, levels) && Acyclic(trees, top.rest, top.d) && ValidNames(top.rest)
    ensures LevelsAcyclic(trees, levels + [top])
  {
  }

  /** Taking the first entry off the top level keeps the levels acyclic and takes its share of the work. */
  lemma {:induction false} TopAdvances(trees: Trees, levels: seq<Level>)
    requires LevelsAcyclic(trees, levels) && levels != [] && Top(levels).rest != []
    ensures var top := Top(levels);
            && Acyclic(trees, top.rest, top.d) && Acyclic(trees, top.rest[1..], top.d)
            && LevelsAcyclic(trees, Next(levels))
            && LevelsWork(trees, levels) - LevelsWork(trees, Next(levels))
               == Work(trees, top.rest, top.d) - Work(trees, top.rest[1..], top.d) > 0
  {
    var below, top := Pop(levels), Top(levels);
    var top' := top.(rest := top.rest[1..]);
    assert levels == below + [top];
    WorkOfTop(trees, below, top);
    CompleteSplits(trees, top.rest, top.d);
    LevelsAcyclicPush(trees, below, top');
    WorkOfTop(trees, below, top');
  }

  /** What the top level has pending is the block of its first entry and then the rest. */
  lemma {:induction false} TopPends(trees: Trees, levels: seq<Level>)
    requires levels != [] && Top(levels).rest != []
    ensures var top := Top(levels);
            && (LevelsComplete(trees, levels)
                <==> LevelsComplete(trees, Next(levels)) && Complete(trees, [top.rest[0]], top.d))
            && (LevelsComplete(trees, levels) ==>
                  Pending(trees, levels) == Block(trees, top.rest[0], top.prefix, top.d) + Pending(trees, Next(levels)))
  {
    var below, top := Pop(levels), Top(levels);
    var top' := top.(rest := top.rest[1..]);
    assert levels == below + [top];
    CompleteSplits(trees, top.rest, top.d);
    PendingOfTop(trees, below, top);
    PendingOfTop(trees, below, top');
    if LevelsComplete(trees, levels) {
      ConcatAssoc(Block(trees, top.rest[0], top.prefix, top.d),
                  Flatten(trees, top'.rest, top.prefix, top.d), Pending(trees, below));
    }
  }

  lemma {:induction false} WalkEmits(trees: Trees, root: Level, levels: seq<Level>, out: seq<IndexEntry>)
    requires Walking(trees, root, levels, out) && levels != []
    requires Top(levels).rest != [] && Top(levels).rest[0].mode != TreeMode.Tree
    ensures var e := Top(levels).rest[0];
            && Walking(trees, root, Next(levels),
                       out + [TreeIndexEntry(Top(levels).prefix + e.name, e.id, FromTreeMode(e.mode).value)])
            && LevelsWork(trees, Next(levels)) < LevelsWork(trees, levels)
  {
    TopAdvances(trees, levels);
    TopPends(trees, levels);
    var top, after := Top(levels), Next(levels);
    if LevelsComplete(trees, after) {
      var block := Block(trees, top.rest[0], top.prefix, top.d);
      assert out + (block + Pending(trees, after)) == (out + block) + Pending(trees, after);
    }
  }

  /** A sub-tree at the head of a level is exactly the level it opens. */
  lemma {:induction false} ChildLevel(trees: Trees, top: Level)
    requires Acyclic(trees, top.rest, top.d) && ValidTrees(trees) && top.rest != []
    requires top.rest[0].mode == TreeMode.Tree && top.rest[0].id in trees
    ensures top.d > 0
    ensures var child := Descend(trees, top);
            && Acyclic(trees, child.rest, child.d) && ValidNames(child.rest)
            && (Complete(trees, [top.rest[0]], top.d) <==> Complete(trees, child.rest, child.d))
            && (Complete(trees, [top.rest[0]], top.d) ==>
                  Block(trees, top.rest[0], top.prefix, top.d) == Flatten(trees, child.rest, child.prefix, child.d))
            && Work(trees, top.rest, top.d) == 2 + Work(trees, child.rest, child.d) + Work(trees, top.rest[1..], top.d)
  {
    CompleteSplits(trees, top.rest, top.d);
    DirectoryBlock(trees, top.rest[0], top.prefix, top.d);
  }

  lemma {:induction false} WalkDescends(trees: Trees, root: Level, levels: seq<Level>, out: seq<IndexEntry>)
    requires Walking(trees, root, levels, out) && levels != [] && Top(levels).rest != [] && ValidTrees(trees)
    requires Top(levels).rest[0].mode == TreeMode.Tree && Top(levels).rest[0].id in trees
    ensures Top(levels).d > 0
    ensures var after := Next(levels) + [Descend(trees, Top(levels))];
            && Walking(trees, root, after, out)
            && LevelsWork(trees, after) < LevelsWork(trees, levels)
  {
    hide Block, Flatten, Complete, Acyclic, Work, Pending, LevelsWork, LevelsAcyclic, LevelsComplete, Next, Descend;
    TopAdvances(trees, levels);
    TopPends(trees, levels);
    ChildLevel(trees, Top(levels));
    var child := Descend(trees, Top(levels));
    LevelsAcyclicPush(trees, Next(levels), child);
    WorkOfTop(trees, Next(levels), child);
    PendingOfTop(trees, Next(levels), child);
  }

  ghost predicate FrameShows(frame: Frame, level: Level)
  {
    && frame.next <= |frame.entries| && frame.entries[frame.next..] == level.rest
    && frame.pathLen == |level.prefix|
  }

  /** The frames and the path buffer of the program describe these levels, nested inside `base`. */
  ghost predicate Shows(stack: seq<Frame>, path: Bytes, levels: seq<Level>, base: Bytes)
  {
    && |stack| == |levels|
    && (if stack == [] then path == base else levels[0].prefix == base)
    && (forall i :: 0 <= i < |stack| ==> FrameShows(stack[i], levels[i]))
    && (forall i :: 0 <= i < |stack| ==> base <= levels[i].prefix <= path)
    && (forall i, j :: 0 <= i < j < |stack| ==> levels[i].prefix <= levels[j].prefix)
  }

  lemma {:induction false} ShowsPop(stack: seq<Frame>, path: Bytes, levels: seq<Level>, base: Bytes)
    requires Shows(stack, path, levels, base) && stack != []
    ensures var k := |stack| - 1;
            && path[..stack[k].pathLen] == Top(levels).prefix
            && Shows(stack[..k], path[..stack[k].pathLen], Pop(levels), base)
  {
    var k := |stack| - 1;
    assert FrameShows(stack[k], levels[k]);
  }

  lemma {:induction false} ShowsNext(stack: seq<Frame>, path: Bytes, levels: seq<Level>, base: Bytes, path': Bytes)
    requires Shows(stack, path, levels, base) && stack != []
    requires var k := |stack| - 1; stack[k].next < |stack[k].entries| && Top(levels).prefix <= path'
    ensures var k := |stack| - 1;
            && Top(levels).rest != [] && Top(levels).rest[0] == stack[k].entries[stack[k].next]
            && Shows(stack[..k] + [stack[k].(next := stack[k].next + 1)], path', Next(levels), base)
  {
    var k := |stack| - 1;
    var top := Top(levels);
    assert FrameShows(stack[k], levels[k]);
    assert FrameShows(stack[k].(next := stack[k].next + 1), top.(rest := top.rest[1..]));
  }

  lemma {:induction false} ShowsPush(stack: seq<Frame>, path: Bytes, levels: seq<Level>, base: Bytes, child: Level)
    requires Shows(stack, path, levels, base) && child.prefix == path
    ensures Shows(stack + [Frame(child.rest, 0, |path|)], path, levels + [child], base)
  {
    assert child.rest[0..] == child.rest;
    assert FrameShows(Frame(child.rest, 0, |path|), child);
  }

  /** The invariant of both loops. */
  ghost predicate Inv(trees: Trees, root: Level, stack: seq<Frame>, path: Bytes, levels: seq<Level>,
                      out: seq<IndexEntry>)
  {
    Shows(stack, path, levels, root.prefix) && Walking(trees, root, levels, out)
  }

  ghost predicate CanStep(trees: Trees, root: Level, stack: seq<Frame>, path: Bytes, levels: seq<Level>,
                          out: seq<IndexEntry>)
  {
    && ValidTrees(trees) && Inv(trees, root, stack, path, levels, out) && stack != []
    && stack[|stack| - 1].next < |stack[|stack| - 1].entries|
  }

  lemma {:induction false} Starts(trees: Trees, root: Level)
    requires Acyclic(trees, root.rest, root.d) && ValidNames(root.rest)
    ensures Inv(trees, root, [Frame(root.rest, 0, |root.prefix|)], root.prefix, [root], [])
    ensures LevelsAcyclic(trees, [root])
  {
    ShowsPush([], root.prefix, [], root.prefix, root);
    WalkStarts(trees, root);
  }

  lemma {:induction false} Ends(trees: Trees, root: Level, path: Bytes, levels: seq<Level>, out: seq<IndexEntry>)
    requires Inv(trees, root, [], path, levels, out)
    ensures path == root.prefix && Complete(trees, root.rest, root.d)
    ensures out == Flatten(trees, root.rest, root.prefix, root.d)
  {
  }

  lemma {:induction false} TopFrame(trees: Trees, root: Level, stack: seq<Frame>, path: Bytes, levels: seq<Level>,
                                    out: seq<IndexEntry>)
    requires Inv(trees, root, stack, path, levels, out) && stack != []
    ensures var frame := stack[|stack| - 1]; frame.next <= |frame.entries| && frame.pathLen <= |path|
  {
    assert FrameShows(stack[|stack| - 1], Top(levels));
  }

  lemma {:induction false} StepLeave(trees: Trees, root: Level, stack: seq<Frame>, path: Bytes, levels: seq<Level>,
                                     out: seq<IndexEntry>)
    requires Inv(trees, root, stack, path, levels, out) && stack != []
    requires stack[|stack| - 1].next == |stack[|stack| - 1].entries|
    ensures stack[|stack| - 1].pathLen <= |path| && levels != []
    ensures Inv(trees, root, stack[..|stack| - 1], path[..stack[|stack| - 1].pathLen], Pop(levels), out)
    ensures LevelsAcyclic(trees, Pop(levels)) && LevelsWork(trees, Pop(levels)) < LevelsWork(trees, levels)
  {
    ShowsPop(stack, path, levels, root.prefix);
    assert FrameShows(stack[|stack| - 1], Top(levels));
    WalkPops(trees, root, levels, out);
  }

  lemma {:induction false} StepEmit(trees: Trees, root: Level, stack: seq<Frame>, path: Bytes, levels: seq<Level>,
                                    out: seq<IndexEntry>,
                 path': Bytes)
    requires CanStep(trees, root, stack, path, levels, out)
    requires var frame := stack[|stack| - 1]; var e := frame.entries[frame.next];
             && e.mode != TreeMode.Tree && frame.pathLen <= |path| && path' == path[..frame.pathLen] + e.name
    ensures levels != [] && Top(levels).rest != []
    ensures var frame := stack[|stack| - 1]; var e := frame.entries[frame.next];
            Inv(trees, root, stack[..|stack| - 1] + [frame.(next := frame.next + 1)], path', Next(levels),
                out + [TreeIndexEntry(path', e.id, FromTreeMode(e.mode).value)])
    ensures LevelsAcyclic(trees, Next(levels)) && LevelsWork(trees, Next(levels)) < LevelsWork(trees, levels)
  {
    ShowsPop(stack, path, levels, root.prefix);
    ShowsNext(stack, path, levels, root.prefix, path');
    WalkEmits(trees, root, levels, out);
  }

  lemma {:induction false} StepDescend(trees: Trees, root: Level, stack: seq<Frame>, path: Bytes, levels: seq<Level>,
                                       out: seq<IndexEntry>,
                    path': Bytes)
    requires CanStep(trees, root, stack, path, levels, out)
    requires var frame := stack[|stack| - 1]; var e := frame.entries[frame.next];
             && e.mode == TreeMode.Tree && frame.pathLen <= |path| && path' == path[..frame.pathLen] + e.name + [SLASH]
    ensures var frame := stack[|stack| - 1]; var e := frame.entries[frame.next];
            if e.id !in trees then !Complete(trees, root.rest, root.d) else
            && levels != [] && Top(levels).rest != [] && Top(levels).d > 0 && Top(levels).rest[0] == e
            && Inv(trees, root,
                   stack[..|stack| - 1] + [frame.(next := frame.next + 1)] + [Frame(trees[e.id], 0, |path'|)],
                   path', Next(levels) + [Descend(trees, Top(levels))], out)
            && LevelsAcyclic(trees, Next(levels) + [Descend(trees, Top(levels))])
            && LevelsWork(trees, Next(levels) + [Descend(trees, Top(levels))]) < LevelsWork(trees, levels)
  {
    ShowsPop(stack, path, levels, root.prefix);
    ShowsNext(stack, path, levels, root.prefix, path');
    if Top(levels).rest[0].id !in trees {
    } else {
      WalkDescends(trees, root, levels, out);
      ShowsPush(stack[..|stack| - 1] + [stack[|stack| - 1].(next := stack[|stack| - 1].next + 1)], path',
                Next(levels), root.prefix, Descend(trees, Top(levels)));
    }
  }

  /** `collect_tree_index_entries_uncached`. The path buffer is handed back as it came. */
  method CollectUncached(store: Store, rootEntries: seq<TreeEntry>, initialPath: Bytes, ghost d: nat)
    returns (r: Result<seq<IndexEntry>>, path: Bytes)
    requires Acyclic(TreesOf(store), rootEntries, d) && ValidNames(rootEntries)
    ensures r.Ok? <==> Complete(TreesOf(store), rootEntries, d)
    ensures r.Ok? ==> r.value == Flatten(TreesOf(store), rootEntries, initialPath, d) && path == initialPath
  {
    hide *;
    ghost var trees := TreesOf(store);
    path := initialPath;
    var entries := [];
    var stack := [Frame(rootEntries, 0, |path|)];
    ghost var root := Level(rootEntries, initialPath, d);
    ghost var levels := [root];
    Starts(trees, root);
    while stack != []
      invariant Inv(trees, root, stack, path, levels, entries) && LevelsAcyclic(trees, levels)
      decreases LevelsWork(trees, levels)
    {
      var k := |stack| - 1;
      var frame := stack[k];
      TopFrame(trees, root, stack, path, levels, entries);
      if frame.next == |frame.entries| {
        StepLeave(trees, root, stack, path, levels, entries);
        stack := stack[..k];
        path := path[..frame.pathLen];
        levels := Pop(levels);
      } else {
        var entry := frame.entries[frame.next];
        ghost var before := path;
        path := path[..frame.pathLen];
        path := path + entry.name;
        if entry.mode == TreeMode.Tree {
          path := path + [SLASH];
          StepDescend(trees, root, stack, before, levels, entries, path);
          var child := ReadTree(store, entry.id);
          if child.Err? {
            return Err(child.error), path;
          }
          levels := Next(levels) + [Descend(trees, Top(levels))];
          stack := stack[..k] + [frame.(next := frame.next + 1)];
          stack := stack + [Frame(child.value, 0, |path|)];
        } else {
          StepEmit(trees, root, stack, before, levels, entries, path);
          levels := Next(levels);
          stack := stack[..k] + [frame.(next := frame.next + 1)];
          entries := entries + [TreeIndexEntry(path, entry.id, FromTreeMode(entry.mode).value)];
        }
      }
    }
    Ends(trees, root, path, levels, entries);
    return Ok(entries), path;
  }

  /** `collect_tree_index_entries`: the same walk, reading its sub-trees through the cache. */
  method CollectCached(cache: TreeObjectCache, rootEntries: seq<TreeEntry>, initialPath: Bytes, ghost d: nat)
    returns (r: Result<seq<IndexEntry>>, path: Bytes)
    requires cache.Valid()
    requires Acyclic(TreesOf(cache.store), rootEntries, d) && ValidNames(rootEntries)
    modifies cache
    ensures cache.Valid()
    ensures r.Ok? <==> Complete(TreesOf(cache.store), rootEntries, d)
    ensures r.Ok? ==> r.value == Flatten(TreesOf(cache.store), rootEntries, initialPath, d) && path == initialPath
  {
    hide *;
    ghost var trees := TreesOf(cache.store);
    path := initialPath;
    var entries := [];
    var stack := [Frame(rootEntries, 0, |path|)];
    ghost var root := Level(rootEntries, initialPath, d);
    ghost var levels := [root];
    Starts(trees, root);
    while stack != []
      invariant cache.Valid()
      invariant Inv(trees, root, stack, path, levels, entries) && LevelsAcyclic(trees, levels)
      decreases LevelsWork(trees, levels)
    {
      var k := |stack| - 1;
      var frame := stack[k];
      TopFrame(trees, root, stack, path, levels, entries);
      if frame.next == |frame.entries| {
        StepLeave(trees, root, stack, path, levels, entries);
        stack := stack[..k];
        path := path[..frame.pathLen];
        levels := Pop(levels);
      } else {
        var entry := frame.entries[frame.next];
        ghost var before := path;
        path := path[..frame.pathLen];
        path := path + entry.name;
        if entry.mode == TreeMode.Tree {
          path := path + [SLASH];
          StepDescend(trees, root, stack, before, levels, entries, path);
          var child := cache.ReadTree(entry.id);
          if child.Err? {
            return Err(child.error), path;
          }
          levels := Next(levels) + [Descend(trees, Top(levels))];
          stack := stack[..k] + [frame.(next := frame.next + 1)];
          stack := stack + [Frame(child.value, 0, |path|)];
        } else {
          StepEmit(trees, root, stack, before, levels, entries, path);
          levels := Next(levels);
          stack := stack[..k] + [frame.(next := frame.next + 1)];
          entries := entries + [TreeIndexEntry(path, entry.id, FromTreeMode(entry.mode).value)];
        }
      }
    }
    Ends(trees, root, path, levels, entries);
    return Ok(entries), path;
  }

  /** `read_tree_to_index_uncached`. */
  method ReadTreeToIndexUncached(store: Store, id: ObjectId, ghost d: nat) returns (r: Result<seq<IndexEntry>>)
    requires AcyclicFrom(TreesOf(store), id, d)
    ensures r.Ok? <==> Readable(TreesOf(store), id, d)
    ensures r.Ok? ==> r.value == Files(TreesOf(store), id, d)
    ensures WellSorted(TreesOf(store), id, d) ==> PathSorted(r.value)
  {
    hide Acyclic, Complete, DeepSorted, Flatten, PathSorted;
    var root := ReadTree(store, id);
    if root.Err? {
      return Err(root.error);
    }
    var path;
    r, path := CollectUncached(store, root.value, [], d);
    if WellSorted(TreesOf(store), id, d) {
      FilesSorted(TreesOf(store), id, d);
    }
  }

  /** `TreeObjectCache::read_tree_to_index`: what the cache holds never shows in the result. */
  method ReadTreeToIndex(cache: TreeObjectCache, id: ObjectId, ghost d: nat) returns (r: Result<seq<IndexEntry>>)
    requires cache.Valid() && AcyclicFrom(TreesOf(cache.store), id, d)
    modifies cache
    ensures cache.Valid()
    ensures r.Ok? <==> Readable(TreesOf(cache.store), id, d)
    ensures r.Ok? ==> r.value == Files(TreesOf(cache.store), id, d)
    ensures WellSorted(TreesOf(cache.store), id, d) ==> PathSorted(r.value)
  {
    hide Acyclic, Complete, DeepSorted, Flatten, PathSorted;
    var root := cache.ReadTree(id);
    if root.Err? {
      return Err(root.error);
    }
    var path;
    r, path := CollectCached(cache, root.value, [], d);
    if WellSorted(TreesOf(cache.store), id, d) {
      FilesSorted(TreesOf(cache.store), id, d);
    }
  }
}
