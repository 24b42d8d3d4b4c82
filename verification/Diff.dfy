/** Diffs of two flat, path-sorted listings (`diff.rs`, diff_indexes). */
module Diff {
  import opened Common
  import opened ByteOrder
  import opened Objects
  import opened Index

  datatype DiffStatus = Added | Copied | Deleted | Modified | Renamed

  datatype FileEntry = FileEntry(path: Bytes, id: ObjectId, mode: IndexMode)

  datatype TreeDiffEntry = TreeDiffEntry(
    status: DiffStatus, path: Bytes, oldEntry: Option<FileEntry>, newEntry: Option<FileEntry>)

  datatype IndexDiffEntry = IndexDiffEntry(
    status: DiffStatus, path: Bytes, oldPath: Option<Bytes>, similarity: Option<nat>)

  function FileOf(e: IndexEntry): FileEntry
  {
    FileEntry(e.path, e.id, e.mode)
  }

  function DeletedEntry(e: IndexEntry): TreeDiffEntry
  {
    TreeDiffEntry(Deleted, e.path, Some(FileOf(e)), None)
  }

  function AddedEntry(e: IndexEntry): TreeDiffEntry
  {
    TreeDiffEntry(Added, e.path, None, Some(FileOf(e)))
  }

  function ModifiedEntry(o: IndexEntry, n: IndexEntry): TreeDiffEntry
  {
    TreeDiffEntry(Modified, n.path, Some(FileOf(o)), Some(FileOf(n)))
  }

  /** `entry_identity`. */
  predicate SameIdentity(o: IndexEntry, n: IndexEntry)
  {
    o.mode == n.mode && o.id == n.id
  }

  /** The merge of two listings by path. */
  function FlatDiff(olds: seq<IndexEntry>, news: seq<IndexEntry>): seq<TreeDiffEntry>
    decreases |olds| + |news|
  {
    if olds == [] && news == [] then []
    else if news == [] || (olds != [] && Less(olds[0].path, news[0].path)) then
      [DeletedEntry(olds[0])] + FlatDiff(olds[1..], news)
    else if olds == [] || Less(news[0].path, olds[0].path) then
      [AddedEntry(news[0])] + FlatDiff(olds, news[1..])
    else
      (if SameIdentity(olds[0], news[0]) then [] else [ModifiedEntry(olds[0], news[0])])
      + FlatDiff(olds[1..], news[1..])
  }

  // ---- What a flat diff says ---------------------------------------------------------------

  ghost predicate HasPath(entries: seq<IndexEntry>, path: Bytes)
  {
    exists e :: e in entries && e.path == path
  }

  /** `x` is a change between the two listings, said without merging them. */
  ghost predicate IsChange(olds: seq<IndexEntry>, news: seq<IndexEntry>, x: TreeDiffEntry)
  {
    || (exists o :: o in olds && x == DeletedEntry(o) && !HasPath(news, o.path))
    || (exists n :: n in news && x == AddedEntry(n) && !HasPath(olds, n.path))
    || (exists o, n :: o in olds && n in news && o.path == n.path && !SameIdentity(o, n) && x == ModifiedEntry(o, n))
  }

  ghost predicate DiffSorted(diff: seq<TreeDiffEntry>)
  {
    forall i, j :: 0 <= i < j < |diff| ==> Less(diff[i].path, diff[j].path)
  }

  lemma {:induction false} HeadBelow(p: Bytes, entries: seq<IndexEntry>)
    requires PathSorted(entries)
    requires entries != [] ==> Less(p, entries[0].path)
    ensures forall e :: e in entries ==> Less(p, e.path)
    ensures !HasPath(entries, p)
  {
    forall e | e in entries ensures Less(p, e.path) && e.path != p {
      if e != entries[0] {
        LessTransitive(p, entries[0].path, e.path);
      }
      LessAsymmetric(p, e.path);
    }
  }

  lemma {:induction false} HeadApart(p: Bytes, entries: seq<IndexEntry>)
    requires forall e :: e in entries ==> Less(p, e.path)
    ensures forall e :: e in entries ==> e.path != p
  {
    forall e | e in entries ensures e.path != p {
      LessAsymmetric(p, e.path);
    }
  }

  /** Every path a diff mentions comes from one of the listings. */
  lemma {:induction false} DiffPaths(olds: seq<IndexEntry>, news: seq<IndexEntry>, p: Bytes)
    requires forall e :: e in olds ==> Less(p, e.path)
    requires forall e :: e in news ==> Less(p, e.path)
    ensures forall x :: x in FlatDiff(olds, news) ==> Less(p, x.path)
    decreases |olds| + |news|
  {
    if olds == [] && news == [] {
    } else if news == [] || (olds != [] && Less(olds[0].path, news[0].path)) {
      DiffPaths(olds[1..], news, p);
    } else if olds == [] || Less(news[0].path, olds[0].path) {
      DiffPaths(olds, news[1..], p);
    } else {
      DiffPaths(olds[1..], news[1..], p);
    }
  }

  /** A flat diff lists its changes in strictly increasing path order. */
  lemma {:induction false} FlatDiffSorted(olds: seq<IndexEntry>, news: seq<IndexEntry>)
    requires PathSorted(olds) && PathSorted(news)
    ensures DiffSorted(FlatDiff(olds, news))
    decreases |olds| + |news|
  {
    if olds == [] && news == [] {
    } else if news == [] || (olds != [] && Less(olds[0].path, news[0].path)) {
      HeadBelow(olds[0].path, news);
      DiffPaths(olds[1..], news, olds[0].path);
      FlatDiffSorted(olds[1..], news);
    } else if olds == [] || Less(news[0].path, olds[0].path) {
      HeadBelow(news[0].path, olds);
      DiffPaths(olds, news[1..], news[0].path);
      FlatDiffSorted(olds, news[1..]);
    } else {
      LessTotal(olds[0].path, news[0].path);
      DiffPaths(olds[1..], news[1..], news[0].path);
      FlatDiffSorted(olds[1..], news[1..]);
    }
  }

  /** A flat diff of sorted listings holds exactly the changes between them. */
  lemma {:induction false} FlatDiffExact(olds: seq<IndexEntry>, news: seq<IndexEntry>, x: TreeDiffEntry)
    requires PathSorted(olds) && PathSorted(news)
    ensures x in FlatDiff(olds, news) <==> IsChange(olds, news, x)
    decreases |olds| + |news|
  {
    if olds == [] && news == [] {
    } else if news == [] || (olds != [] && Less(olds[0].path, news[0].path)) {
      FlatDiffExact(olds[1..], news, x);
      HeadBelow(olds[0].path, news);
      HeadApart(olds[0].path, news);
    } else if olds == [] || Less(news[0].path, olds[0].path) {
      FlatDiffExact(olds, news[1..], x);
      HeadBelow(news[0].path, olds);
      HeadApart(news[0].path, olds);
    } else {
      FlatDiffExact(olds[1..], news[1..], x);
      LessTotal(olds[0].path, news[0].path);
      HeadApart(olds[0].path, olds[1..]);
      HeadApart(olds[0].path, news[1..]);
      DropBoth(olds, news, x);
    }
  }

  lemma {:induction false} DropBoth(olds: seq<IndexEntry>, news: seq<IndexEntry>, x: TreeDiffEntry)
    requires olds != [] && news != [] && olds[0].path == news[0].path
    requires !HasPath(olds[1..], olds[0].path) && !HasPath(news[1..], olds[0].path)
    ensures IsChange(olds, news, x) <==>
              || (!SameIdentity(olds[0], news[0]) && x == ModifiedEntry(olds[0], news[0]))
              || IsChange(olds[1..], news[1..], x)
  {
    assert forall p :: HasPath(olds, p) <==> p == olds[0].path || HasPath(olds[1..], p) by { }
    assert forall p :: HasPath(news, p) <==> p == news[0].path || HasPath(news[1..], p) by { }
    assert forall o :: o in olds <==> o == olds[0] || o in olds[1..];
    assert forall n :: n in news <==> n == news[0] || n in news[1..];
  }

  // ---- Diffing block by block --------------------------------------------------------------

  /** One entry for each file of a block that exists on one side only. */
  function EmitAll(status: DiffStatus, entries: seq<IndexEntry>): seq<TreeDiffEntry>
  {
    if entries == [] then []
    else
      [if status == Deleted then DeletedEntry(entries[0]) else AddedEntry(entries[0])] + EmitAll(status, entries[1..])
  }

  lemma {:induction false} EmitAllConcat(status: DiffStatus, xs: seq<IndexEntry>, ys: seq<IndexEntry>)
    ensures EmitAll(status, xs + ys) == EmitAll(status, xs) + EmitAll(status, ys)
  {
    if xs == [] {
      assert xs + ys == ys;
    } else {
      EmitAllConcat(status, xs[1..], ys);
      assert (xs + ys)[1..] == xs[1..] + ys;
      var head := [if status == Deleted then DeletedEntry(xs[0]) else AddedEntry(xs[0])];
      assert head + (EmitAll(status, xs[1..]) + EmitAll(status, ys))
             == head + EmitAll(status, xs[1..]) + EmitAll(status, ys);
    }
  }

  lemma {:induction false} OneSided(entries: seq<IndexEntry>)
    ensures FlatDiff(entries, []) == EmitAll(Deleted, entries)
    ensures FlatDiff([], entries) == EmitAll(Added, entries)
  {
    if entries != [] { OneSided(entries[1..]); }
  }

  /** A listing does not differ from itself: what makes skipping equal sub-trees sound. */
  lemma {:induction false} SelfDiff(entries: seq<IndexEntry>)
    ensures FlatDiff(entries, entries) == []
  {
    if entries != [] {
      LessIrreflexive(entries[0].path);
      SelfDiff(entries[1..]);
    }
  }

  ghost predicate Below(xs: seq<IndexEntry>, ys: seq<IndexEntry>)
  {
    forall x, y :: x in xs && y in ys ==> Less(x.path, y.path) && !Less(y.path, x.path)
  }

  /** Which side the merge takes next. */
  predicate OldFirst(olds: seq<IndexEntry>, news: seq<IndexEntry>)
  {
    olds != [] && (news == [] || Less(olds[0].path, news[0].path))
  }

  predicate NewFirst(olds: seq<IndexEntry>, news: seq<IndexEntry>)
  {
    news != [] && (olds == [] || (!Less(olds[0].path, news[0].path) && Less(news[0].path, olds[0].path)))
  }

  lemma {:induction false} MergeStep(olds: seq<IndexEntry>, news: seq<IndexEntry>)
    ensures OldFirst(olds, news) ==> FlatDiff(olds, news) == [DeletedEntry(olds[0])] + FlatDiff(olds[1..], news)
    ensures NewFirst(olds, news) ==> FlatDiff(olds, news) == [AddedEntry(news[0])] + FlatDiff(olds, news[1..])
    ensures (olds != [] || news != []) && !OldFirst(olds, news) && !NewFirst(olds, news) ==>
              && olds != [] && news != []
              && FlatDiff(olds, news)
                 == (if SameIdentity(olds[0], news[0]) then [] else [ModifiedEntry(olds[0], news[0])])
                    + FlatDiff(olds[1..], news[1..])
  {
  }

  /** Two listings that split at the same point can be diffed part by part. */
  lemma {:induction false} SplitDiff(olds: seq<IndexEntry>, olds': seq<IndexEntry>, news: seq<IndexEntry>,
                                     news': seq<IndexEntry>)
    requires Below(olds, olds') && Below(olds, news') && Below(news, olds') && Below(news, news')
    ensures FlatDiff(olds + olds', news + news') == FlatDiff(olds, news) + FlatDiff(olds', news')
    decreases |olds| + |news|
  {
    hide FlatDiff;
    var o, n := olds + olds', news + news';
    var rest := FlatDiff(olds', news');
    MergeStep(olds, news);
    MergeStep(o, n);
    if olds == [] && news == [] {
      assert o == olds' && n == news';
      OneSided([]);
      assert [] + rest == rest;
    } else if OldFirst(olds, news) {
      assert OldFirst(o, n);
      SplitDiff(olds[1..], olds', news, news');
      assert o[1..] == olds[1..] + olds';
      assert [DeletedEntry(olds[0])] + (FlatDiff(olds[1..], news) + rest)
             == [DeletedEntry(olds[0])] + FlatDiff(olds[1..], news) + rest;
    } else if NewFirst(olds, news) {
      assert NewFirst(o, n);
      SplitDiff(olds, olds', news[1..], news');
      assert n[1..] == news[1..] + news';
      assert [AddedEntry(news[0])] + (FlatDiff(olds, news[1..]) + rest)
             == [AddedEntry(news[0])] + FlatDiff(olds, news[1..]) + rest;
    } else {
      assert !OldFirst(o, n) && !NewFirst(o, n);
      SplitDiff(olds[1..], olds', news[1..], news');
      assert o[1..] == olds[1..] + olds' && n[1..] == news[1..] + news';
      var head := if SameIdentity(olds[0], news[0]) then [] else [ModifiedEntry(olds[0], news[0])];
      assert head + (FlatDiff(olds[1..], news[1..]) + rest) == head + FlatDiff(olds[1..], news[1..]) + rest;
    }
  }

  // ---- The program's merge loop ------------------------------------------------------------

  function IndexDiffOf(x: TreeDiffEntry): IndexDiffEntry
  {
    IndexDiffEntry(x.status, x.path, None, None)
  }

  /** The (status, path) listing of a diff. */
  function IndexDiffs(diff: seq<TreeDiffEntry>): (r: seq<IndexDiffEntry>)
    ensures |r| == |diff| && forall i :: 0 <= i < |diff| ==> r[i] == IndexDiffOf(diff[i])
  {
    seq(|diff|, i requires 0 <= i < |diff| => IndexDiffOf(diff[i]))
  }

  predicate AllStageZero(entries: seq<IndexEntry>)
  {
    forall i :: 0 <= i < |entries| ==> entries[i].stage == 0
  }

  /** The next entry of the listing. */
  lemma {:induction false} ListStep(diff: seq<IndexDiffEntry>, olds: seq<IndexEntry>, news: seq<IndexEntry>)
    ensures OldFirst(olds, news) ==>
              diff + IndexDiffs(FlatDiff(olds, news))
              == diff + [IndexDiffEntry(Deleted, olds[0].path, None, None)] + IndexDiffs(FlatDiff(olds[1..], news))
    ensures NewFirst(olds, news) ==>
              diff + IndexDiffs(FlatDiff(olds, news))
              == diff + [IndexDiffEntry(Added, news[0].path, None, None)] + IndexDiffs(FlatDiff(olds, news[1..]))
    ensures (olds != [] || news != []) && !OldFirst(olds, news) && !NewFirst(olds, news) ==>
              && olds != [] && news != []
              && diff + IndexDiffs(FlatDiff(olds, news))
                 == (if SameIdentity(olds[0], news[0]) then diff
                     else diff + [IndexDiffEntry(Modified, news[0].path, None, None)])
                    + IndexDiffs(FlatDiff(olds[1..], news[1..]))
  {
    hide FlatDiff, OldFirst, NewFirst, SameIdentity;
    MergeStep(olds, news);
  }

  /** What is still to be listed from the two cursors on. */
  function RestFrom(olds: seq<IndexEntry>, news: seq<IndexEntry>, i: nat, j: nat): seq<IndexDiffEntry>
    requires i <= |olds| && j <= |news|
  {
    IndexDiffs(FlatDiff(olds[i..], news[j..]))
  }

  lemma {:induction false} CursorStep(diff: seq<IndexDiffEntry>, olds: seq<IndexEntry>, news: seq<IndexEntry>, i: nat,
                                      j: nat)
    requires i <= |olds| && j <= |news| && (i < |olds| || j < |news|)
    ensures var less := i < |olds| && (j == |news| || Less(olds[i].path, news[j].path));
            var more := j < |news| && (i == |olds| || Less(news[j].path, olds[i].path));
            && (less ==> diff + RestFrom(olds, news, i, j)
                         == diff + [IndexDiffEntry(Deleted, olds[i].path, None, None)] + RestFrom(olds, news, i + 1, j))
            && (!less && more ==>
                  diff + RestFrom(olds, news, i, j)
                  == diff + [IndexDiffEntry(Added, news[j].path, None, None)] + RestFrom(olds, news, i, j + 1))
            && (!less && !more ==>
                  && i < |olds| && j < |news|
                  && diff + RestFrom(olds, news, i, j)
                     == (if SameIdentity(olds[i], news[j]) then diff
                         else diff + [IndexDiffEntry(Modified, news[j].path, None, None)])
                        + RestFrom(olds, news, i + 1, j + 1))
  {
    hide FlatDiff, IndexDiffs, Less, SameIdentity;
    var o, n := olds[i..], news[j..];
    ListStep(diff, o, n);
    if i < |olds| { assert o[1..] == olds[i + 1..]; }
    if j < |news| { assert n[1..] == news[j + 1..]; }
  }

  /** `diff_indexes`: two cursors moving over the entries of the two indexes. */
  method DiffIndexes(olds: seq<IndexEntry>, news: seq<IndexEntry>) returns (r: Result<seq<IndexDiffEntry>>)
    ensures r == if AllStageZero(olds) && AllStageZero(news) then Ok(IndexDiffs(FlatDiff(olds, news)))
                 else Err(InvalidInput)
  {
    if !AllStageZero(olds) || !AllStageZero(news) {
      return Err(InvalidInput);
    }
    hide FlatDiff, IndexDiffs, AllStageZero, Less, SameIdentity, RestFrom;
    var diff := [];
    var oldIdx, newIdx := 0, 0;
    AllIsLeft(olds, news);
    while oldIdx < |olds| || newIdx < |news|
      invariant oldIdx <= |olds| && newIdx <= |news|
      invariant diff + RestFrom(olds, news, oldIdx, newIdx) == IndexDiffs(FlatDiff(olds, news))
      decreases |olds| - oldIdx + (|news| - newIdx)
    {
      CursorStep(diff, olds, news, oldIdx, newIdx);
      if newIdx == |news| || (oldIdx < |olds| && Less(olds[oldIdx].path, news[newIdx].path)) {
        diff := diff + [IndexDiffEntry(Deleted, olds[oldIdx].path, None, None)];
        oldIdx := oldIdx + 1;
      } else if oldIdx == |olds| || Less(news[newIdx].path, olds[oldIdx].path) {
        diff := diff + [IndexDiffEntry(Added, news[newIdx].path, None, None)];
        newIdx := newIdx + 1;
      } else {
        if !SameIdentity(olds[oldIdx], news[newIdx]) {
          diff := diff + [IndexDiffEntry(Modified, news[newIdx].path, None, None)];
        }
        oldIdx := oldIdx + 1;
        newIdx := newIdx + 1;
      }
    }
    NothingIsLeft(diff, olds, news);
    return Ok(diff);
  }

  lemma {:induction false} AllIsLeft(olds: seq<IndexEntry>, news: seq<IndexEntry>)
    ensures [] + RestFrom(olds, news, 0, 0) == IndexDiffs(FlatDiff(olds, news))
  {
    hide FlatDiff;
    assert olds[0..] == olds && news[0..] == news;
  }

  lemma {:induction false} NothingIsLeft(diff: seq<IndexDiffEntry>, olds: seq<IndexEntry>, news: seq<IndexEntry>)
    ensures diff + RestFrom(olds, news, |olds|, |news|) == diff
  {
  }

  /** A path that one listing has and the other has not, or both have with different id or mode. */
  ghost predicate PathChange(olds: seq<IndexEntry>, news: seq<IndexEntry>, status: DiffStatus, path: Bytes)
  {
    || (status == Deleted && HasPath(olds, path) && !HasPath(news, path))
    || (status == Added && HasPath(news, path) && !HasPath(olds, path))
    || (status == Modified && exists o, n :: o in olds && n in news && o.path == n.path == path
                                             && (o.mode != n.mode || o.id != n.id))
  }

  /** The listing of a diff names exactly the changed paths, and nothing else about them. */
  lemma {:induction false} IndexDiffMeans(olds: seq<IndexEntry>, news: seq<IndexEntry>, x: IndexDiffEntry)
    requires PathSorted(olds) && PathSorted(news)
    ensures x in IndexDiffs(FlatDiff(olds, news)) <==>
            x.oldPath.None? && x.similarity.None? && PathChange(olds, news, x.status, x.path)
  {
    hide FlatDiff;
    var diff := FlatDiff(olds, news);
    if x in IndexDiffs(diff) {
      var i :| 0 <= i < |diff| && IndexDiffs(diff)[i] == x;
      FlatDiffExact(olds, news, diff[i]);
    }
    if x.oldPath.None? && x.similarity.None? && PathChange(olds, news, x.status, x.path) {
      var y := ChangeAt(olds, news, x.status, x.path);
      FlatDiffExact(olds, news, y);
      var i :| 0 <= i < |diff| && diff[i] == y;
      assert IndexDiffs(diff)[i] == x;
    }
  }

  lemma {:induction false} ChangeAt(olds: seq<IndexEntry>, news: seq<IndexEntry>, status: DiffStatus, path: Bytes)
    returns (y: TreeDiffEntry)
    requires PathChange(olds, news, status, path)
    ensures IsChange(olds, news, y) && y.status == status && y.path == path
  {
    if status == Deleted {
      var o :| o in olds && o.path == path;
      y := TreeDiffEntry(Deleted, path, Some(FileEntry(path, o.id, o.mode)), None);
    } else if status == Added {
      var n :| n in news && n.path == path;
      y := TreeDiffEntry(Added, path, None, Some(FileEntry(path, n.id, n.mode)));
    } else {
      var o, n :| o in olds && n in news && o.path == n.path == path && (o.mode != n.mode || o.id != n.id);
      y := TreeDiffEntry(Modified, path, Some(FileEntry(path, o.id, o.mode)), Some(FileEntry(path, n.id, n.mode)));
    }
  }
}
