/** Exact rename and copy detection on an index diff (`diff.rs`). */
module Renames {
  import opened Common
  import opened ByteOrder
  import opened Objects
  import opened Index
  import opened Diff

  datatype Identity = Identity(mode: IndexMode, id: ObjectId)

  /** `index_map`: what is at a path. */
  function IdentityOf(entries: seq<IndexEntry>, path: Bytes): Option<Identity>
  {
    if entries == [] then None
    else if entries[0].path == path then Some(Identity(entries[0].mode, entries[0].id))
    else IdentityOf(entries[1..], path)
  }

  /** A path of the old index and a path of the new one hold the same content with the same mode. */
  predicate SameFile(olds: seq<IndexEntry>, news: seq<IndexEntry>, oldPath: Bytes, newPath: Bytes)
  {
    IdentityOf(olds, oldPath).Some? && IdentityOf(olds, oldPath) == IdentityOf(news, newPath)
  }

  /** In sorted listings: both paths have an entry, and the two have the same mode and the same id. */
  lemma {:induction false} SameFileMeans(olds: seq<IndexEntry>, news: seq<IndexEntry>, oldPath: Bytes, newPath: Bytes)
    requires PathSorted(olds) && PathSorted(news)
    ensures SameFile(olds, news, oldPath, newPath) <==>
            exists o, n ::
              o in olds && n in news && o.path == oldPath && n.path == newPath && o.mode == n.mode && o.id == n.id
  {
    hide IdentityOf, PathSorted;
    var x, y := IdentityOf(olds, oldPath), IdentityOf(news, newPath);
    if SameFile(olds, news, oldPath, newPath) {
      IdentityOfFile(olds, oldPath, x.value);
      IdentityOfFile(news, newPath, y.value);
      var i :| 0 <= i < |olds| && olds[i].path == oldPath && Identity(olds[i].mode, olds[i].id) == x.value;
      var j :| 0 <= j < |news| && news[j].path == newPath && Identity(news[j].mode, news[j].id) == y.value;
      assert olds[i] in olds && news[j] in news;
    }
    if o, n :| o in olds && n in news && o.path == oldPath && n.path == newPath && o.mode == n.mode && o.id == n.id {
      FileIn(olds, o);
      FileIn(news, n);
      IdentityOfFile(olds, oldPath, Identity(o.mode, o.id));
      IdentityOfFile(news, newPath, Identity(n.mode, n.id));
    }
  }

  lemma {:induction false} FileIn(entries: seq<IndexEntry>, e: IndexEntry)
    requires e in entries
    ensures HasFile(entries, e.path, Identity(e.mode, e.id))
  {
    var i :| 0 <= i < |entries| && entries[i] == e;
  }

  ghost predicate Distinct<T>(xs: seq<T>)
  {
    forall i, j :: 0 <= i < j < |xs| ==> xs[i] != xs[j]
  }

  ghost predicate DistinctPaths(diff: seq<IndexDiffEntry>)
  {
    forall i, j :: 0 <= i < j < |diff| ==> diff[i].path != diff[j].path
  }

  ghost predicate SortedByPath(diff: seq<IndexDiffEntry>)
  {
    forall i, j :: 0 <= i < j < |diff| ==> Less(diff[i].path, diff[j].path)
  }

  function Deletion(path: Bytes): IndexDiffEntry
  {
    IndexDiffEntry(Deleted, path, None, None)
  }

  function Addition(path: Bytes): IndexDiffEntry
  {
    IndexDiffEntry(Added, path, None, None)
  }

  function Renaming(oldPath: Bytes, newPath: Bytes): IndexDiffEntry
  {
    IndexDiffEntry(Renamed, newPath, Some(oldPath), Some(100))
  }

  function Copying(oldPath: Bytes, newPath: Bytes): IndexDiffEntry
  {
    IndexDiffEntry(Copied, newPath, Some(oldPath), Some(100))
  }

  predicate Plain(x: IndexDiffEntry)
  {
    x == Deletion(x.path) || x == Addition(x.path) || x == IndexDiffEntry(Modified, x.path, None, None)
  }

  predicate AllPlain(diff: seq<IndexDiffEntry>)
  {
    forall i :: 0 <= i < |diff| ==> Plain(diff[i])
  }

  // ---- What a diff says without renames and copies -----------------------------------------

  function Parts(x: IndexDiffEntry): multiset<IndexDiffEntry>
  {
    match x.status
    case Renamed => if x.oldPath.Some? then multiset{Deletion(x.oldPath.value), Addition(x.path)} else multiset{x}
    case Copied => multiset{Addition(x.path)}
    case _ => multiset{x}
  }

  /** Every renaming taken as a deletion and an addition, and every copy as an addition. */
  function Expanded(diff: seq<IndexDiffEntry>): multiset<IndexDiffEntry>
  {
    if diff == [] then multiset{} else Parts(diff[0]) + Expanded(diff[1..])
  }

  lemma {:induction false} ExpandedConcat(xs: seq<IndexDiffEntry>, ys: seq<IndexDiffEntry>)
    ensures Expanded(xs + ys) == Expanded(xs) + Expanded(ys)
  {
    hide Parts;
    if xs == [] {
      assert xs + ys == ys;
    } else {
      ExpandedConcat(xs[1..], ys);
      assert (xs + ys)[1..] == xs[1..] + ys;
    }
  }

  lemma {:induction false} ExpandedPlain(diff: seq<IndexDiffEntry>)
    requires AllPlain(diff)
    ensures Expanded(diff) == multiset(diff)
  {
    if diff != [] {
      ExpandedPlain(diff[1..]);
      assert diff == [diff[0]] + diff[1..];
    }
  }

  // ---- Sorting -----------------------------------------------------------------------------

  function Insert(x: IndexDiffEntry, diff: seq<IndexDiffEntry>): seq<IndexDiffEntry>
  {
    if diff == [] || !Less(diff[0].path, x.path) then [x] + diff else [diff[0]] + Insert(x, diff[1..])
  }

  /** The stable sort by path. */
  function SortByPath(diff: seq<IndexDiffEntry>): seq<IndexDiffEntry>
  {
    if diff == [] then [] else Insert(diff[0], SortByPath(diff[1..]))
  }

  lemma {:induction false} InsertMembers(x: IndexDiffEntry, diff: seq<IndexDiffEntry>)
    ensures multiset(Insert(x, diff)) == multiset{x} + multiset(diff)
  {
    hide Less;
    if diff != [] && Less(diff[0].path, x.path) {
      InsertMembers(x, diff[1..]);
      assert diff == [diff[0]] + diff[1..];
    }
  }

  lemma {:induction false} InsertExpanded(x: IndexDiffEntry, diff: seq<IndexDiffEntry>)
    ensures Expanded(Insert(x, diff)) == Parts(x) + Expanded(diff)
  {
    hide Less, Parts;
    if diff == [] || !Less(diff[0].path, x.path) {
      assert ([x] + diff)[1..] == diff;
    } else {
      InsertExpanded(x, diff[1..]);
      assert ([diff[0]] + Insert(x, diff[1..]))[1..] == Insert(x, diff[1..]);
    }
  }

  lemma {:induction false} InsertSorts(x: IndexDiffEntry, diff: seq<IndexDiffEntry>)
    requires SortedByPath(diff) && forall i :: 0 <= i < |diff| ==> diff[i].path != x.path
    ensures SortedByPath(Insert(x, diff))
  {
    hide Less;
    if diff == [] || !Less(diff[0].path, x.path) {
      forall i | 0 <= i < |diff| ensures Less(x.path, diff[i].path) {
        LessTotal(x.path, diff[0].path);
        if i > 0 { LessTransitive(x.path, diff[0].path, diff[i].path); }
      }
    } else {
      var rest := Insert(x, diff[1..]);
      InsertSorts(x, diff[1..]);
      InsertMembers(x, diff[1..]);
      forall i | 0 <= i < |rest| ensures Less(diff[0].path, rest[i].path) {
        assert rest[i] in multiset(rest);
        assert rest[i] == x || rest[i] in diff[1..];
      }
    }
  }

  lemma {:induction false} SortKeeps(diff: seq<IndexDiffEntry>)
    requires DistinctPaths(diff)
    ensures SortedByPath(SortByPath(diff)) && multiset(SortByPath(diff)) == multiset(diff)
    ensures Expanded(SortByPath(diff)) == Expanded(diff)
  {
    hide Parts, Insert;
    if diff != [] {
      var rest := SortByPath(diff[1..]);
      SortKeeps(diff[1..]);
      forall i | 0 <= i < |rest| ensures rest[i].path != diff[0].path {
        assert rest[i] in multiset(rest);
        assert rest[i] in diff[1..];
      }
      InsertSorts(diff[0], rest);
      InsertMembers(diff[0], rest);
      InsertExpanded(diff[0], rest);
      assert diff == [diff[0]] + diff[1..];
    }
  }

  // ---- Filtering ---------------------------------------------------------------------------

  /** The entries of one status, in order. */
  function Select(diff: seq<IndexDiffEntry>, status: DiffStatus): (r: seq<IndexDiffEntry>)
    ensures forall x :: x in r <==> x in diff && x.status == status
  {
    if diff == [] then []
    else
      var init, last := diff[..|diff| - 1], diff[|diff| - 1];
      assert diff == init + [last];
      if last.status == status then Select(init, status) + [last] else Select(init, status)
  }

  lemma {:induction false} SelectDistinct(diff: seq<IndexDiffEntry>, status: DiffStatus)
    requires DistinctPaths(diff)
    ensures DistinctPaths(Select(diff, status))
  {
    if diff != [] {
      var init, last := diff[..|diff| - 1], diff[|diff| - 1];
      SelectDistinct(init, status);
      var r := Select(init, status);
      forall i | 0 <= i < |r| ensures r[i].path != last.path {
        assert r[i] in init;
        var k :| 0 <= k < |init| && init[k] == r[i];
        assert diff[k].path != diff[|diff| - 1].path;
      }
    }
  }

  /** A deletion or an addition that a renaming has replaced. */
  predicate Replaced(x: IndexDiffEntry, renamedOld: seq<Bytes>, renamedNew: seq<Bytes>)
  {
    (x.status == Deleted && x.path in renamedOld) || (x.status == Added && x.path in renamedNew)
  }

  function Retained(diff: seq<IndexDiffEntry>, renamedOld: seq<Bytes>, renamedNew: seq<Bytes>): (r: seq<IndexDiffEntry>)
    ensures forall x :: x in r <==> x in diff && !Replaced(x, renamedOld, renamedNew)
  {
    if diff == [] then []
    else
      var init, last := diff[..|diff| - 1], diff[|diff| - 1];
      assert diff == init + [last];
      if Replaced(last, renamedOld, renamedNew) then Retained(init, renamedOld, renamedNew)
      else Retained(init, renamedOld, renamedNew) + [last]
  }

  function Dropped(diff: seq<IndexDiffEntry>, renamedOld: seq<Bytes>, renamedNew: seq<Bytes>): (r: seq<IndexDiffEntry>)
    ensures forall x :: x in r <==> x in diff && Replaced(x, renamedOld, renamedNew)
  {
    if diff == [] then []
    else
      var init, last := diff[..|diff| - 1], diff[|diff| - 1];
      assert diff == init + [last];
      if Replaced(last, renamedOld, renamedNew) then Dropped(init, renamedOld, renamedNew) + [last]
      else Dropped(init, renamedOld, renamedNew)
  }

  lemma {:induction false} RetainedAndDropped(diff: seq<IndexDiffEntry>, renamedOld: seq<Bytes>, renamedNew: seq<Bytes>)
    requires DistinctPaths(diff)
    ensures multiset(diff)
            == multiset(Retained(diff, renamedOld, renamedNew)) + multiset(Dropped(diff, renamedOld, renamedNew))
    ensures DistinctPaths(Retained(diff, renamedOld, renamedNew))
            && DistinctPaths(Dropped(diff, renamedOld, renamedNew))
  {
    hide Replaced;
    if diff != [] {
      var init, last := diff[..|diff| - 1], diff[|diff| - 1];
      RetainedAndDropped(init, renamedOld, renamedNew);
      assert diff == init + [last];
      NewPath(diff, Retained(init, renamedOld, renamedNew));
      NewPath(diff, Dropped(init, renamedOld, renamedNew));
    }
  }

  lemma {:induction false} NewPath(diff: seq<IndexDiffEntry>, part: seq<IndexDiffEntry>)
    requires DistinctPaths(diff) && diff != [] && DistinctPaths(part)
    requires forall x :: x in part ==> x in diff[..|diff| - 1]
    ensures DistinctPaths(part + [diff[|diff| - 1]])
  {
    var n := |diff| - 1;
    forall i | 0 <= i < |part| ensures part[i].path != diff[n].path {
      assert part[i] in part;
      var k :| 0 <= k < n && diff[k] == part[i];
    }
  }

  lemma {:induction false} SameMultiset<T>(xs: seq<T>, ys: seq<T>)
    requires Distinct(xs) && Distinct(ys) && forall x :: x in xs <==> x in ys
    ensures multiset(xs) == multiset(ys)
  {
    forall x ensures multiset(xs)[x] == multiset(ys)[x] {
      CountOnce(xs, x);
      CountOnce(ys, x);
    }
  }

  lemma {:induction false} CountOnce<T>(xs: seq<T>, x: T)
    requires Distinct(xs)
    ensures multiset(xs)[x] == if x in xs then 1 else 0
  {
    if xs != [] {
      var init := xs[..|xs| - 1];
      CountOnce(init, x);
      assert xs == init + [xs[|xs| - 1]];
    }
  }

  // ---- Renames -----------------------------------------------------------------------------

  function Deletions(paths: seq<Bytes>): (r: seq<IndexDiffEntry>)
    ensures |r| == |paths| && forall i :: 0 <= i < |paths| ==> r[i] == Deletion(paths[i])
  {
    seq(|paths|, i requires 0 <= i < |paths| => Deletion(paths[i]))
  }

  function Additions(paths: seq<Bytes>): (r: seq<IndexDiffEntry>)
    ensures |r| == |paths| && forall i :: 0 <= i < |paths| ==> r[i] == Addition(paths[i])
  {
    seq(|paths|, i requires 0 <= i < |paths| => Addition(paths[i]))
  }

  function Renamings(renamedOld: seq<Bytes>, renamedNew: seq<Bytes>): (r: seq<IndexDiffEntry>)
    requires |renamedOld| == |renamedNew|
    ensures |r| == |renamedOld| && forall i :: 0 <= i < |r| ==> r[i] == Renaming(renamedOld[i], renamedNew[i])
  {
    seq(|renamedOld|, i requires 0 <= i < |renamedOld| => Renaming(renamedOld[i], renamedNew[i]))
  }

  /** The renamings found among the first `i` deletions: real changes, no path twice, each between equal files. */
  ghost predicate Matched(olds: seq<IndexEntry>, news: seq<IndexEntry>, deleted: seq<IndexDiffEntry>,
                          added: seq<IndexDiffEntry>,
                          renamedOld: seq<Bytes>, renamedNew: seq<Bytes>, i: nat)
  {
    && i <= |deleted| && |renamedOld| == |renamedNew| && Distinct(renamedOld) && Distinct(renamedNew)
    && (forall k :: 0 <= k < |renamedOld| ==> HasPathBefore(deleted, i, renamedOld[k]))
    && (forall k :: 0 <= k < |renamedNew| ==> HasPathBefore(added, |added|, renamedNew[k]))
    && (forall k :: 0 <= k < |renamedOld| ==> SameFile(olds, news, renamedOld[k], renamedNew[k]))
  }

  /** An unmatched deletion has no equal addition left. */
  ghost predicate Exhausted(olds: seq<IndexEntry>, news: seq<IndexEntry>, deleted: seq<IndexDiffEntry>,
                            added: seq<IndexDiffEntry>,
                            renamedOld: seq<Bytes>, renamedNew: seq<Bytes>, i: nat)
    requires i <= |deleted|
  {
    forall j, k :: 0 <= j < i && 0 <= k < |added| && SameFile(olds, news, deleted[j].path, added[k].path) ==>
      deleted[j].path in renamedOld || added[k].path in renamedNew
  }

  ghost predicate HasPathBefore(diff: seq<IndexDiffEntry>, i: nat, path: Bytes)
    requires i <= |diff|
  {
    exists j :: 0 <= j < i && diff[j].path == path
  }

  /** The first unclaimed addition that is the same file. */
  method FindAddition(olds: seq<IndexEntry>, news: seq<IndexEntry>, added: seq<IndexDiffEntry>, claimed: seq<Bytes>,
                      oldPath: Bytes)
    returns (at: nat)
    ensures at <= |added|
    ensures at < |added| ==> SameFile(olds, news, oldPath, added[at].path) && added[at].path !in claimed
    ensures forall k :: 0 <= k < at && SameFile(olds, news, oldPath, added[k].path) ==> added[k].path in claimed
  {
    hide SameFile;
    at := 0;
    while at < |added|
      invariant at <= |added|
      invariant forall k :: 0 <= k < at && SameFile(olds, news, oldPath, added[k].path) ==> added[k].path in claimed
    {
      if added[at].path !in claimed && SameFile(olds, news, oldPath, added[at].path) {
        return;
      }
      at := at + 1;
    }
  }

  lemma {:induction false} MatchNext(olds: seq<IndexEntry>, news: seq<IndexEntry>, deleted: seq<IndexDiffEntry>,
                                     added: seq<IndexDiffEntry>,
                                     renamedOld: seq<Bytes>, renamedNew: seq<Bytes>, i: nat, at: nat)
    requires DistinctPaths(deleted) && i < |deleted| && at < |added|
    requires Matched(olds, news, deleted, added, renamedOld, renamedNew, i)
    requires Exhausted(olds, news, deleted, added, renamedOld, renamedNew, i)
    requires SameFile(olds, news, deleted[i].path, added[at].path) && added[at].path !in renamedNew
    ensures Matched(olds, news, deleted, added, renamedOld + [deleted[i].path], renamedNew + [added[at].path], i + 1)
    ensures Exhausted(olds, news, deleted, added, renamedOld + [deleted[i].path], renamedNew + [added[at].path], i + 1)
  {
    hide SameFile, HasPathBefore, Distinct, DistinctPaths;
    var o, n := renamedOld + [deleted[i].path], renamedNew + [added[at].path];
    FreshPath(deleted, renamedOld, i);
    DistinctSnoc(renamedOld, deleted[i].path);
    DistinctSnoc(renamedNew, added[at].path);
    PathAt(deleted, i + 1, i);
    PathAt(added, |added|, at);
    assert forall p :: p in renamedOld ==> p in o;
    assert forall p :: p in renamedNew ==> p in n;
    assert o[|renamedOld|] == deleted[i].path;
  }

  lemma {:induction false} PathAt(diff: seq<IndexDiffEntry>, i: nat, k: nat)
    requires k < i <= |diff|
    ensures HasPathBefore(diff, i, diff[k].path)
  {
  }

  lemma {:induction false} FreshPath(deleted: seq<IndexDiffEntry>, renamedOld: seq<Bytes>, i: nat)
    requires DistinctPaths(deleted) && i < |deleted| && forall k :: 0 <= k < |renamedOld| ==>
             HasPathBefore(deleted, i, renamedOld[k])
    ensures deleted[i].path !in renamedOld
    ensures forall k :: 0 <= k < |renamedOld| ==> HasPathBefore(deleted, i + 1, renamedOld[k])
  {
    forall k | 0 <= k < |renamedOld|
      ensures renamedOld[k] != deleted[i].path && HasPathBefore(deleted, i + 1, renamedOld[k]) {
      assert HasPathBefore(deleted, i, renamedOld[k]);
      var j :| 0 <= j < i && deleted[j].path == renamedOld[k];
    }
  }

  lemma {:induction false} DistinctSnoc<T>(xs: seq<T>, x: T)
    requires Distinct(xs) && x !in xs
    ensures Distinct(xs + [x])
  {
  }

  lemma {:induction false} MatchSkips(olds: seq<IndexEntry>, news: seq<IndexEntry>, deleted: seq<IndexDiffEntry>,
                                      added: seq<IndexDiffEntry>,
                                      renamedOld: seq<Bytes>, renamedNew: seq<Bytes>, i: nat)
    requires i < |deleted| && Matched(olds, news, deleted, added, renamedOld, renamedNew, i)
    requires Exhausted(olds, news, deleted, added, renamedOld, renamedNew, i)
    requires forall k :: 0 <= k < |added| && SameFile(olds, news, deleted[i].path, added[k].path) ==>
             added[k].path in renamedNew
    ensures Matched(olds, news, deleted, added, renamedOld, renamedNew, i + 1)
    ensures Exhausted(olds, news, deleted, added, renamedOld, renamedNew, i + 1)
  {
    hide SameFile;
    forall k | 0 <= k < |renamedOld| ensures HasPathBefore(deleted, i + 1, renamedOld[k]) {
      assert HasPathBefore(deleted, i, renamedOld[k]);
    }
  }

  /** What rename detection promises about its result. */
  ghost predicate RenamesFound(olds: seq<IndexEntry>, news: seq<IndexEntry>, diff: seq<IndexDiffEntry>,
                               out: seq<IndexDiffEntry>)
  {
    && SortedByPath(out) && Expanded(out) == multiset(diff)
    && (forall x :: x in out ==>
          || Plain(x)
          || (&& x.oldPath.Some? && x == Renaming(x.oldPath.value, x.path)
              && SameFile(olds, news, x.oldPath.value, x.path)))
    && NoPairLeft(olds, news, out)
  }

  /** No deletion and addition of the same file are left. */
  ghost predicate NoPairLeft(olds: seq<IndexEntry>, news: seq<IndexEntry>, out: seq<IndexDiffEntry>)
  {
    forall d, a :: d in out && a in out && d.status == Deleted && a.status == Added ==>
        !SameFile(olds, news, d.path, a.path)
  }

  lemma {:induction false} ReplacedAreParts(olds: seq<IndexEntry>, news: seq<IndexEntry>, diff: seq<IndexDiffEntry>,
                                            renamedOld: seq<Bytes>, renamedNew: seq<Bytes>)
    requires DistinctPaths(diff) && AllPlain(diff)
    requires var d, a := Select(diff, Deleted), Select(diff, Added);
             Matched(olds, news, d, a, renamedOld, renamedNew, |d|)
    ensures multiset(Dropped(diff, renamedOld, renamedNew))
            == multiset(Deletions(renamedOld)) + multiset(Additions(renamedNew))
  {
    hide SameFile, Select, Dropped, Replaced, Matched, Plain;
    var gone, parts := Dropped(diff, renamedOld, renamedNew), Deletions(renamedOld) + Additions(renamedNew);
    RetainedAndDropped(diff, renamedOld, renamedNew);
    PartsDistinct(olds, news, diff, renamedOld, renamedNew);
    forall x | x in parts ensures x in gone {
      PartIsDropped(olds, news, diff, renamedOld, renamedNew, x);
    }
    forall x | x in gone ensures x in parts {
      DroppedIsPart(diff, renamedOld, renamedNew, x);
    }
    SameMultiset(gone, parts);
  }

  lemma {:induction false} PartsDistinct(olds: seq<IndexEntry>, news: seq<IndexEntry>, diff: seq<IndexDiffEntry>,
                                         renamedOld: seq<Bytes>, renamedNew: seq<Bytes>)
    requires var d, a := Select(diff, Deleted), Select(diff, Added);
             Matched(olds, news, d, a, renamedOld, renamedNew, |d|)
    ensures Distinct(Deletions(renamedOld) + Additions(renamedNew))
  {
    hide SameFile, Select, HasPathBefore;
    var parts, n := Deletions(renamedOld) + Additions(renamedNew), |renamedOld|;
    forall i, j | 0 <= i < j < |parts| ensures parts[i] != parts[j] {
      if j < n {
        assert parts[i].path == renamedOld[i] && parts[j].path == renamedOld[j];
      } else if n <= i {
        assert parts[i].path == renamedNew[i - n] && parts[j].path == renamedNew[j - n];
      }
    }
  }

  lemma {:induction false} PartIsDropped(olds: seq<IndexEntry>, news: seq<IndexEntry>, diff: seq<IndexDiffEntry>,
                                         renamedOld: seq<Bytes>, renamedNew: seq<Bytes>, x: IndexDiffEntry)
    requires AllPlain(diff) && x in Deletions(renamedOld) + Additions(renamedNew)
    requires var d, a := Select(diff, Deleted), Select(diff, Added);
             Matched(olds, news, d, a, renamedOld, renamedNew, |d|)
    ensures x in Dropped(diff, renamedOld, renamedNew)
  {
    hide SameFile, Select, Dropped, Replaced, Plain, HasPathBefore, Distinct;
    if x in Deletions(renamedOld) {
      var k :| 0 <= k < |renamedOld| && x == Deletion(renamedOld[k]);
      FoundIn(diff, Deleted, renamedOld[k]);
      DroppedIf(diff, renamedOld, renamedNew, x);
    } else {
      var k :| 0 <= k < |renamedNew| && x == Addition(renamedNew[k]);
      FoundIn(diff, Added, renamedNew[k]);
      DroppedIf(diff, renamedOld, renamedNew, x);
    }
  }

  lemma {:induction false} FoundIn(diff: seq<IndexDiffEntry>, status: DiffStatus, path: Bytes)
    requires AllPlain(diff) && HasPathBefore(Select(diff, status), |Select(diff, status)|, path)
    ensures status == Deleted ==> Deletion(path) in diff
    ensures status == Added ==> Addition(path) in diff
  {
    hide Select, Plain;
    var part := Select(diff, status);
    var j :| 0 <= j < |part| && part[j].path == path;
    PlainOf(diff, part[j]);
  }

  lemma {:induction false} DroppedIf(diff: seq<IndexDiffEntry>, renamedOld: seq<Bytes>, renamedNew: seq<Bytes>,
                                     x: IndexDiffEntry)
    requires x in diff
             && ((x == Deletion(x.path) && x.path in renamedOld) || (x == Addition(x.path) && x.path in renamedNew))
    ensures x in Dropped(diff, renamedOld, renamedNew)
  {
    hide Dropped;
  }

  lemma {:induction false} PlainOf(diff: seq<IndexDiffEntry>, x: IndexDiffEntry)
    requires AllPlain(diff) && x in diff
    ensures x.status == Deleted ==> x == Deletion(x.path)
    ensures x.status == Added ==> x == Addition(x.path)
  {
  }

  lemma {:induction false} DroppedIsPart(diff: seq<IndexDiffEntry>, renamedOld: seq<Bytes>, renamedNew: seq<Bytes>,
                                         x: IndexDiffEntry)
    requires AllPlain(diff) && x in Dropped(diff, renamedOld, renamedNew)
    ensures x in Deletions(renamedOld) + Additions(renamedNew)
  {
    hide Dropped, Plain;
    PlainOf(diff, x);
    if x.status == Deleted {
      var k :| 0 <= k < |renamedOld| && renamedOld[k] == x.path;
      assert Deletions(renamedOld)[k] == x;
    } else {
      var k :| 0 <= k < |renamedNew| && renamedNew[k] == x.path;
      assert Additions(renamedNew)[k] == x;
    }
  }

  lemma {:induction false} ExpandedRenamings(renamedOld: seq<Bytes>, renamedNew: seq<Bytes>)
    requires |renamedOld| == |renamedNew|
    ensures Expanded(Renamings(renamedOld, renamedNew))
            == multiset(Deletions(renamedOld)) + multiset(Additions(renamedNew))
  {
    hide Parts, Deletions, Additions, Renamings, Deletion, Addition, Renaming;
    if renamedOld == [] {
    } else {
      var o, n := renamedOld[0], renamedNew[0];
      ExpandedRenamings(renamedOld[1..], renamedNew[1..]);
      FirstRenaming(renamedOld, renamedNew);
      ExpandedConcat([Renaming(o, n)], Renamings(renamedOld[1..], renamedNew[1..]));
      PartsOfRenaming(o, n);
    }
  }

  lemma {:induction false} FirstRenaming(renamedOld: seq<Bytes>, renamedNew: seq<Bytes>)
    requires |renamedOld| == |renamedNew| && renamedOld != []
    ensures Renamings(renamedOld, renamedNew)
            == [Renaming(renamedOld[0], renamedNew[0])] + Renamings(renamedOld[1..], renamedNew[1..])
    ensures Deletions(renamedOld) == [Deletion(renamedOld[0])] + Deletions(renamedOld[1..])
    ensures Additions(renamedNew) == [Addition(renamedNew[0])] + Additions(renamedNew[1..])
  {
    hide Deletion, Addition, Renaming, Deletions, Additions, Renamings;
  }

  lemma {:induction false} PartsOfRenaming(o: Bytes, n: Bytes)
    ensures Expanded([Renaming(o, n)]) == multiset{Deletion(o), Addition(n)}
  {
    var x: seq<IndexDiffEntry> := [Renaming(o, n)];
    assert Expanded(x[1..]) == multiset{};
    assert Expanded(x) == Parts(x[0]) + Expanded(x[1..]);
  }

  // The program's rename detection.

  lemma {:induction false} RenamedDistinct(olds: seq<IndexEntry>, news: seq<IndexEntry>, diff: seq<IndexDiffEntry>,
                                           renamedOld: seq<Bytes>, renamedNew: seq<Bytes>)
    requires DistinctPaths(diff)
    requires var d, a := Select(diff, Deleted), Select(diff, Added);
             Matched(olds, news, d, a, renamedOld, renamedNew, |d|)
    ensures DistinctPaths(Retained(diff, renamedOld, renamedNew) + Renamings(renamedOld, renamedNew))
  {
    hide SameFile, Select, Retained, Replaced;
    var kept, renamed := Retained(diff, renamedOld, renamedNew), Renamings(renamedOld, renamedNew);
    RetainedAndDropped(diff, renamedOld, renamedNew);
    forall i, k | 0 <= i < |kept| && 0 <= k < |renamed| ensures kept[i].path != renamed[k].path {
      KeptPathsDiffer(olds, news, diff, renamedOld, renamedNew, kept[i], k);
    }
    assert forall k :: 0 <= k < |renamed| ==> renamed[k].path == renamedNew[k];
    assert forall i, j :: 0 <= i < j < |renamed| ==> renamedNew[i] != renamedNew[j];
  }

  lemma {:induction false} KeptPathsDiffer(olds: seq<IndexEntry>, news: seq<IndexEntry>, diff: seq<IndexDiffEntry>,
                                           renamedOld: seq<Bytes>, renamedNew: seq<Bytes>, x: IndexDiffEntry, k: nat)
    requires DistinctPaths(diff) && x in diff && !Replaced(x, renamedOld, renamedNew) && k < |renamedNew|
    requires var d, a := Select(diff, Deleted), Select(diff, Added);
             Matched(olds, news, d, a, renamedOld, renamedNew, |d|)
    ensures x.path != renamedNew[k]
  {
    hide SameFile, Select;
    var added := Select(diff, Added);
    assert HasPathBefore(added, |added|, renamedNew[k]);
    var j :| 0 <= j < |added| && added[j].path == renamedNew[k];
    assert added[j] in diff;
    var m :| 0 <= m < |diff| && diff[m] == added[j];
    var n :| 0 <= n < |diff| && diff[n] == x;
    assert x.path == renamedNew[k] ==> m == n;
  }

  lemma {:induction false} RenamesConserve(olds: seq<IndexEntry>, news: seq<IndexEntry>, diff: seq<IndexDiffEntry>,
                                           renamedOld: seq<Bytes>, renamedNew: seq<Bytes>)
    requires DistinctPaths(diff) && AllPlain(diff)
    requires var d, a := Select(diff, Deleted), Select(diff, Added);
             Matched(olds, news, d, a, renamedOld, renamedNew, |d|)
    ensures Expanded(Retained(diff, renamedOld, renamedNew) + Renamings(renamedOld, renamedNew)) == multiset(diff)
  {
    hide SameFile, Select, Retained, Replaced, Dropped, Matched, Plain, DistinctPaths, Expanded, Deletions, Additions,
         Renamings;
    MatchedLengths(olds, news, Select(diff, Deleted), Select(diff, Added), renamedOld, renamedNew);
    var kept := Retained(diff, renamedOld, renamedNew);
    RetainedAndDropped(diff, renamedOld, renamedNew);
    ExpandedConcat(kept, Renamings(renamedOld, renamedNew));
    assert forall i :: 0 <= i < |kept| ==> kept[i] in kept;
    ExpandedPlain(kept);
    ExpandedRenamings(renamedOld, renamedNew);
    ReplacedAreParts(olds, news, diff, renamedOld, renamedNew);
  }

  lemma {:induction false} SortedMembers(xs: seq<IndexDiffEntry>, ys: seq<IndexDiffEntry>)
    requires DistinctPaths(xs + ys)
    ensures forall x :: x in SortByPath(xs + ys) <==> x in xs || x in ys
  {
    hide SortByPath, DistinctPaths;
    SortKeeps(xs + ys);
    forall x ensures x in SortByPath(xs + ys) <==> x in xs || x in ys {
      assert x in SortByPath(xs + ys) <==> x in multiset(xs + ys);
    }
  }

  lemma {:induction false} RenameDetectionCorrect(olds: seq<IndexEntry>, news: seq<IndexEntry>,
                                                  diff: seq<IndexDiffEntry>,
                                                  renamedOld: seq<Bytes>, renamedNew: seq<Bytes>)
    requires DistinctPaths(diff) && AllPlain(diff)
    requires var d, a := Select(diff, Deleted), Select(diff, Added);
             Matched(olds, news, d, a, renamedOld, renamedNew, |d|)
                 && Exhausted(olds, news, d, a, renamedOld, renamedNew, |d|)
    ensures RenamesFound(olds, news, diff,
                         SortByPath(Retained(diff, renamedOld, renamedNew) + Renamings(renamedOld, renamedNew)))
  {
    hide SameFile, Select, Retained, Replaced, Matched, Exhausted, Plain, DistinctPaths, SortByPath, Expanded,
         Renamings, SortedByPath;
    MatchedLengths(olds, news, Select(diff, Deleted), Select(diff, Added), renamedOld, renamedNew);
    var kept, renamed := Retained(diff, renamedOld, renamedNew), Renamings(renamedOld, renamedNew);
    var out := SortByPath(kept + renamed);
    RenamedDistinct(olds, news, diff, renamedOld, renamedNew);
    SortKeeps(kept + renamed);
    RenamesConserve(olds, news, diff, renamedOld, renamedNew);
    SortedMembers(kept, renamed);
    RenamingsSound(olds, news, diff, renamedOld, renamedNew);
    forall d, a | d in out && a in out && d.status == Deleted && a.status == Added
      ensures !SameFile(olds, news, d.path, a.path) {
      NothingLeft(olds, news, diff, renamedOld, renamedNew, d, a);
    }
  }

  lemma {:induction false} RenamingsSound(olds: seq<IndexEntry>, news: seq<IndexEntry>, diff: seq<IndexDiffEntry>,
                                          renamedOld: seq<Bytes>, renamedNew: seq<Bytes>)
    requires var d, a := Select(diff, Deleted), Select(diff, Added);
             Matched(olds, news, d, a, renamedOld, renamedNew, |d|)
    ensures forall x :: x in Renamings(renamedOld, renamedNew) ==>
              x.oldPath.Some? && x == Renaming(x.oldPath.value, x.path) && SameFile(olds, news, x.oldPath.value, x.path)
  {
    hide SameFile, Select;
  }

  lemma {:induction false} NothingLeft(olds: seq<IndexEntry>, news: seq<IndexEntry>, diff: seq<IndexDiffEntry>,
                                       renamedOld: seq<Bytes>, renamedNew: seq<Bytes>, d: IndexDiffEntry,
                                       a: IndexDiffEntry)
    requires var ds, as' := Select(diff, Deleted), Select(diff, Added);
             Exhausted(olds, news, ds, as', renamedOld, renamedNew, |ds|)
    requires d in diff && a in diff && d.status == Deleted && a.status == Added
    requires !Replaced(d, renamedOld, renamedNew) && !Replaced(a, renamedOld, renamedNew)
    ensures !SameFile(olds, news, d.path, a.path)
  {
    hide SameFile, Select;
    var deleted, added := Select(diff, Deleted), Select(diff, Added);
    assert d in deleted && a in added;
    var j :| 0 <= j < |deleted| && deleted[j] == d;
    var k :| 0 <= k < |added| && added[k] == a;
  }

  // The order of the pairing.

  /**
   * Each renaming has taken the first addition that was left for it, the old paths come in order, and an unmatched
   * deletion comes behind all renamed ones of the same file.
   */
  ghost predicate InOrder(olds: seq<IndexEntry>, news: seq<IndexEntry>, deleted: seq<IndexDiffEntry>,
                          added: seq<IndexDiffEntry>, renamedOld: seq<Bytes>, renamedNew: seq<Bytes>, i: nat)
  {
    && i <= |deleted| && |renamedOld| == |renamedNew|
    && (forall k, a :: 0 <= k < |renamedOld| && 0 <= a < |added| && Less(added[a].path, renamedNew[k]) ==>
          SameFile(olds, news, renamedOld[k], added[a].path) ==> added[a].path in renamedNew[..k])
    && (forall j, k :: 0 <= j < k < |renamedOld| ==> Less(renamedOld[j], renamedOld[k]))
    && (forall j, k :: 0 <= j < i && 0 <= k < |renamedNew| && deleted[j].path !in renamedOld ==>
          SameFile(olds, news, deleted[j].path, renamedNew[k]) ==> Less(renamedOld[k], deleted[j].path))
  }

  /** Of equal files, the first deletion goes with the first addition, the second with the second, and so on. */
  ghost predicate PairedInOrder(olds: seq<IndexEntry>, news: seq<IndexEntry>, out: seq<IndexDiffEntry>)
  {
    forall x, y :: x in out && y in out && x.status == Renamed ==>
      && x.oldPath.Some? && x.similarity == Some(100)
      && (y.status == Renamed && y.oldPath.Some? && Less(x.path, y.path) ==>
            SameFile(olds, news, x.oldPath.value, y.path) ==> Less(x.oldPath.value, y.oldPath.value))
      && ((y.status == Added || y.status == Copied) && SameFile(olds, news, x.oldPath.value, y.path) ==>
            Less(x.path, y.path))
      && (y.status == Deleted && SameFile(olds, news, y.path, x.path) ==> Less(x.oldPath.value, y.path))
  }

  lemma {:induction false} SelectSorted(diff: seq<IndexDiffEntry>, status: DiffStatus)
    requires SortedByPath(diff)
    ensures SortedByPath(Select(diff, status))
  {
    hide Less;
    if diff != [] {
      var init, last := diff[..|diff| - 1], diff[|diff| - 1];
      SelectSorted(init, status);
      var r := Select(init, status);
      forall i | 0 <= i < |r| ensures Less(r[i].path, last.path) {
        assert r[i] in init;
      }
    }
  }

  /** Whether the next deletion finds an addition or not. */
  lemma {:induction false} OrderNext(olds: seq<IndexEntry>, news: seq<IndexEntry>, deleted: seq<IndexDiffEntry>,
                                     added: seq<IndexDiffEntry>, renamedOld: seq<Bytes>, renamedNew: seq<Bytes>, i: nat,
                                     at: nat)
    requires SortedByPath(deleted) && SortedByPath(added) && i < |deleted| && at <= |added|
    requires Matched(olds, news, deleted, added, renamedOld, renamedNew, i)
    requires Exhausted(olds, news, deleted, added, renamedOld, renamedNew, i)
    requires InOrder(olds, news, deleted, added, renamedOld, renamedNew, i)
    requires at < |added| ==> added[at].path !in renamedNew
    requires forall k :: 0 <= k < at && SameFile(olds, news, deleted[i].path, added[k].path) ==>
             added[k].path in renamedNew
    ensures at == |added| ==> InOrder(olds, news, deleted, added, renamedOld, renamedNew, i + 1)
    ensures at < |added| ==>
              InOrder(olds, news, deleted, added, renamedOld + [deleted[i].path], renamedNew + [added[at].path], i + 1)
  {
    hide SameFile, Less, Distinct;
    OldsBefore(deleted, renamedOld, i);
    if at < |added| {
      var o, n, m := renamedOld + [deleted[i].path], renamedNew + [added[at].path], |renamedOld|;
      forall k, a | 0 <= k < |o| && 0 <= a < |added| && SameFile(olds, news, o[k], added[a].path)
                    && Less(added[a].path, n[k])
        ensures added[a].path in n[..k]
      {
        if k < m {
          assert n[..k] == renamedNew[..k];
        } else {
          assert n[..k] == renamedNew;
          if at <= a { NotBefore(added, at, a); }
        }
      }
      forall j, k | 0 <= j < i + 1 && 0 <= k < |n| && SameFile(olds, news, deleted[j].path, n[k])
                    && deleted[j].path !in o
        ensures Less(o[k], deleted[j].path)
      {
        assert o[m] == deleted[i].path;
        assert forall p :: p in renamedOld ==> p in o;
      }
    }
  }

  lemma {:induction false} NotBefore(added: seq<IndexDiffEntry>, at: nat, a: nat)
    requires SortedByPath(added) && at <= a < |added|
    ensures !Less(added[a].path, added[at].path)
  {
    hide Less;
    LessIrreflexive(added[at].path);
    if at < a && Less(added[a].path, added[at].path) {
      LessTransitive(added[a].path, added[at].path, added[a].path);
      LessIrreflexive(added[a].path);
    }
  }

  lemma {:induction false} OldsBefore(deleted: seq<IndexDiffEntry>, renamedOld: seq<Bytes>, i: nat)
    requires SortedByPath(deleted) && i < |deleted|
    requires forall k :: 0 <= k < |renamedOld| ==> HasPathBefore(deleted, i, renamedOld[k])
    ensures forall k :: 0 <= k < |renamedOld| ==> Less(renamedOld[k], deleted[i].path)
  {
    hide Less;
    forall k | 0 <= k < |renamedOld| ensures Less(renamedOld[k], deleted[i].path) {
      var j :| 0 <= j < i && deleted[j].path == renamedOld[k];
    }
  }

  lemma {:induction false} PairingOrdered(olds: seq<IndexEntry>, news: seq<IndexEntry>, diff: seq<IndexDiffEntry>,
                                          renamedOld: seq<Bytes>, renamedNew: seq<Bytes>)
    requires DistinctPaths(diff) && AllPlain(diff)
    requires var d, a := Select(diff, Deleted), Select(diff, Added);
             && Matched(olds, news, d, a, renamedOld, renamedNew, |d|)
             && InOrder(olds, news, d, a, renamedOld, renamedNew, |d|)
    ensures PairedInOrder(olds, news,
                          SortByPath(Retained(diff, renamedOld, renamedNew) + Renamings(renamedOld, renamedNew)))
  {
    hide SameFile, Select, Retained, Replaced, Matched, InOrder, Plain, DistinctPaths, SortByPath, Renamings, Less;
    MatchedLengths(olds, news, Select(diff, Deleted), Select(diff, Added), renamedOld, renamedNew);
    var kept, renamed := Retained(diff, renamedOld, renamedNew), Renamings(renamedOld, renamedNew);
    RenamedDistinct(olds, news, diff, renamedOld, renamedNew);
    SortedMembers(kept, renamed);
    forall x, y | (x in kept || x in renamed) && (y in kept || y in renamed) && x.status == Renamed
      ensures x.oldPath.Some? && x.similarity == Some(100)
      ensures y.status == Renamed && y.oldPath.Some? && Less(x.path, y.path) ==>
                SameFile(olds, news, x.oldPath.value, y.path) ==> Less(x.oldPath.value, y.oldPath.value)
      ensures (y.status == Added || y.status == Copied) && SameFile(olds, news, x.oldPath.value, y.path) ==>
                Less(x.path, y.path)
      ensures y.status == Deleted && SameFile(olds, news, y.path, x.path) ==> Less(x.oldPath.value, y.path)
    {
      KeptIsPlain(diff, x);
      var k :| 0 <= k < |renamed| && renamed[k] == x;
      if y in kept {
        KeptIsPlain(diff, y);
        KeptBehind(olds, news, diff, renamedOld, renamedNew, k, y);
      } else {
        var j :| 0 <= j < |renamed| && renamed[j] == y;
        RenamedInOrder(olds, news, diff, renamedOld, renamedNew, k, j);
      }
    }
  }

  lemma {:induction false} KeptIsPlain(diff: seq<IndexDiffEntry>, x: IndexDiffEntry)
    requires AllPlain(diff)
    ensures x in diff ==> x.status != Renamed && x.status != Copied
  {
  }

  lemma {:induction false} KeptBehind(olds: seq<IndexEntry>, news: seq<IndexEntry>, diff: seq<IndexDiffEntry>,
                                      renamedOld: seq<Bytes>, renamedNew: seq<Bytes>, k: nat, y: IndexDiffEntry)
    requires var d, a := Select(diff, Deleted), Select(diff, Added);
             && Matched(olds, news, d, a, renamedOld, renamedNew, |d|)
             && InOrder(olds, news, d, a, renamedOld, renamedNew, |d|)
    requires k < |renamedOld| == |renamedNew| && y in diff && !Replaced(y, renamedOld, renamedNew)
    ensures y.status == Added && SameFile(olds, news, renamedOld[k], y.path) ==> Less(renamedNew[k], y.path)
    ensures y.status == Deleted && SameFile(olds, news, y.path, renamedNew[k]) ==> Less(renamedOld[k], y.path)
  {
    hide SameFile, Select, Less, Matched;
    var deleted, added := Select(diff, Deleted), Select(diff, Added);
    if y.status == Added {
      assert y in added;
      var a :| 0 <= a < |added| && added[a] == y;
      LessTotal(y.path, renamedNew[k]);
    } else if y.status == Deleted {
      assert y in deleted;
      var j :| 0 <= j < |deleted| && deleted[j] == y;
    }
  }

  lemma {:induction false} RenamedInOrder(olds: seq<IndexEntry>, news: seq<IndexEntry>, diff: seq<IndexDiffEntry>,
                                          renamedOld: seq<Bytes>, renamedNew: seq<Bytes>, k: nat, j: nat)
    requires var d, a := Select(diff, Deleted), Select(diff, Added);
             && Matched(olds, news, d, a, renamedOld, renamedNew, |d|)
             && InOrder(olds, news, d, a, renamedOld, renamedNew, |d|)
    requires k < |renamedOld| == |renamedNew| && j < |renamedOld|
    ensures SameFile(olds, news, renamedOld[k], renamedNew[j]) && Less(renamedNew[k], renamedNew[j]) ==>
              Less(renamedOld[k], renamedOld[j])
  {
    hide Select, Less, IdentityOf;
    var added := Select(diff, Added);
    if SameFile(olds, news, renamedOld[k], renamedNew[j]) && Less(renamedNew[k], renamedNew[j]) {
      assert HasPathBefore(added, |added|, renamedNew[k]);
      var a :| 0 <= a < |added| && added[a].path == renamedNew[k];
      assert SameFile(olds, news, renamedOld[j], added[a].path);
      assert added[a].path in renamedNew[..j];
      var m :| 0 <= m < j && renamedNew[m] == renamedNew[k];
    }
  }

  /** `detect_exact_renames`. */
  method DetectExactRenames(olds: seq<IndexEntry>, news: seq<IndexEntry>, diff: seq<IndexDiffEntry>)
    returns (out: seq<IndexDiffEntry>)
    requires DistinctPaths(diff) && AllPlain(diff)
    ensures RenamesFound(olds, news, diff, out)
    ensures SortedByPath(diff) ==> PairedInOrder(olds, news, out)
  {
    hide SameFile, Select, RenamesFound, Matched, Exhausted, Plain, DistinctPaths, SortedByPath, InOrder, PairedInOrder;
    var deleted := Select(diff, Deleted);
    var added := Select(diff, Added);
    SelectDistinct(diff, Deleted);
    var renamedOld, renamedNew: seq<Bytes> := [], [];
    NoMatches(olds, news, deleted, added);
    ghost var sorted := SortedByPath(diff);
    if sorted {
      SelectSorted(diff, Deleted);
      SelectSorted(diff, Added);
    }
    for i := 0 to |deleted|
      invariant Matched(olds, news, deleted, added, renamedOld, renamedNew, i)
      invariant Exhausted(olds, news, deleted, added, renamedOld, renamedNew, i)
      invariant sorted ==> InOrder(olds, news, deleted, added, renamedOld, renamedNew, i)
    {
      var at := FindAddition(olds, news, added, renamedNew, deleted[i].path);
      if sorted { OrderNext(olds, news, deleted, added, renamedOld, renamedNew, i, at); }
      if at == |added| {
        MatchSkips(olds, news, deleted, added, renamedOld, renamedNew, i);
        continue;
      }
      MatchNext(olds, news, deleted, added, renamedOld, renamedNew, i, at);
      renamedOld := renamedOld + [deleted[i].path];
      renamedNew := renamedNew + [added[at].path];
    }
    RenameDetectionCorrect(olds, news, diff, renamedOld, renamedNew);
    if sorted { PairingOrdered(olds, news, diff, renamedOld, renamedNew); }
    MatchedLengths(olds, news, deleted, added, renamedOld, renamedNew);
    out := SortByPath(Retained(diff, renamedOld, renamedNew) + Renamings(renamedOld, renamedNew));
  }

  lemma {:induction false} MatchedLengths(olds: seq<IndexEntry>, news: seq<IndexEntry>, deleted: seq<IndexDiffEntry>,
                                          added: seq<IndexDiffEntry>,
                                          renamedOld: seq<Bytes>, renamedNew: seq<Bytes>)
    requires Matched(olds, news, deleted, added, renamedOld, renamedNew, |deleted|)
    ensures |renamedOld| == |renamedNew|
  {
  }

  lemma {:induction false} NoMatches(olds: seq<IndexEntry>, news: seq<IndexEntry>, deleted: seq<IndexDiffEntry>,
                                     added: seq<IndexDiffEntry>)
    ensures Matched(olds, news, deleted, added, [], [], 0) && Exhausted(olds, news, deleted, added, [], [], 0)
    ensures InOrder(olds, news, deleted, added, [], [], 0)
  {
  }

  // ---- Copies ------------------------------------------------------------------------------

  /** A path whose old content is gone or changed. */
  predicate ChangedPath(diff: seq<IndexDiffEntry>, path: Bytes)
  {
    exists i :: 0 <= i < |diff| && diff[i].path == path && (diff[i].status == Deleted || diff[i].status == Modified)
  }

  /** The first old path with the wanted content, among the changed paths or among all of them. */
  function CopySource(olds: seq<IndexEntry>, wanted: Identity, diff: seq<IndexDiffEntry>, harder: bool): Option<Bytes>
  {
    if olds == [] then None
    else if Identity(olds[0].mode, olds[0].id) == wanted && (harder || ChangedPath(diff, olds[0].path)) then
      Some(olds[0].path)
    else CopySource(olds[1..], wanted, diff, harder)
  }

  /** What copy detection makes of one entry. */
  function CopyOf(olds: seq<IndexEntry>, news: seq<IndexEntry>, diff: seq<IndexDiffEntry>, harder: bool,
                  x: IndexDiffEntry): (r: IndexDiffEntry)
    ensures r.path == x.path
    ensures x.status != Added ==> r == x
  {
    var wanted := IdentityOf(news, x.path);
    if x.status != Added || wanted.None? then x else
    var source := CopySource(olds, wanted.value, diff, harder);
    if source.None? then x else x.(status := Copied, oldPath := source, similarity := Some(100))
  }

  method FindSource(olds: seq<IndexEntry>, wanted: Identity, diff: seq<IndexDiffEntry>, harder: bool)
    returns (source: Option<Bytes>)
    ensures source == CopySource(olds, wanted, diff, harder)
  {
    hide ChangedPath;
    assert olds[0..] == olds;
    for i := 0 to |olds|
      invariant CopySource(olds, wanted, diff, harder) == CopySource(olds[i..], wanted, diff, harder)
    {
      assert olds[i..][1..] == olds[i + 1..];
      if Identity(olds[i].mode, olds[i].id) == wanted && (harder || ChangedPath(diff, olds[i].path)) {
        return Some(olds[i].path);
      }
    }
    return None;
  }

  method FindAdded(diff: seq<IndexDiffEntry>, path: Bytes) returns (at: nat)
    ensures at <= |diff| && (at < |diff| ==> diff[at].status == Added && diff[at].path == path)
    ensures forall i :: 0 <= i < at ==> !(diff[i].status == Added && diff[i].path == path)
  {
    at := 0;
    while at < |diff|
      invariant at <= |diff|
      invariant forall i :: 0 <= i < at ==> !(diff[i].status == Added && diff[i].path == path)
    {
      if diff[at].status == Added && diff[at].path == path {
        return;
      }
      at := at + 1;
    }
  }

  /** The additions among the first `k` have been looked at. */
  ghost predicate CopiesDone(olds: seq<IndexEntry>, news: seq<IndexEntry>, diff: seq<IndexDiffEntry>, harder: bool,
                             added: seq<IndexDiffEntry>, k: nat, out: seq<IndexDiffEntry>)
    requires k <= |added|
  {
    && |out| == |diff|
    && forall i :: 0 <= i < |diff| ==>
         out[i] == if HasPathBefore(added, k, diff[i].path) then CopyOf(olds, news, diff, harder, diff[i]) else diff[i]
  }

  lemma {:induction false} CopyStep(olds: seq<IndexEntry>, news: seq<IndexEntry>, diff: seq<IndexDiffEntry>,
                                    harder: bool,
                                    added: seq<IndexDiffEntry>, k: nat, out: seq<IndexDiffEntry>) returns (m: nat)
    requires DistinctPaths(diff) && DistinctPaths(added) && k < |added| && added[k] in diff && added[k].status == Added
    requires CopiesDone(olds, news, diff, harder, added, k, out)
    ensures m < |diff| == |out| && diff[m] == added[k] && out[m] == added[k]
    ensures forall i :: 0 <= i < |out| && i != m ==> out[i].path != added[k].path
    ensures CopiesDone(olds, news, diff, harder, added, k + 1, out[m := CopyOf(olds, news, diff, harder, added[k])])
  {
    hide CopyOf;
    var p := added[k].path;
    m :| 0 <= m < |diff| && diff[m] == added[k];
    assert !HasPathBefore(added, k, p);
    forall i | 0 <= i < |diff| && i != m
      ensures diff[i].path != p
              && (HasPathBefore(added, k + 1, diff[i].path) <==> HasPathBefore(added, k, diff[i].path))
    {
    }
  }

  /** `detect_exact_copies`: the additions are edited where they stand. */
  method DetectExactCopies(olds: seq<IndexEntry>, news: seq<IndexEntry>, diff: seq<IndexDiffEntry>, harder: bool)
    returns (out: seq<IndexDiffEntry>)
    requires DistinctPaths(diff)
    ensures |out| == |diff|
    ensures forall i :: 0 <= i < |diff| ==> out[i] == CopyOf(olds, news, diff, harder, diff[i])
  {
    hide IdentityOf, CopySource, ChangedPath, DistinctPaths, CopiesDone, Select;
    var added := Select(diff, Added);
    SelectDistinct(diff, Added);
    out := diff;
    NoCopies(olds, news, diff, harder, added);
    for k := 0 to |added|
      invariant CopiesDone(olds, news, diff, harder, added, k, out)
    {
      assert added[k] in added;
      ghost var m := CopyStep(olds, news, diff, harder, added, k, out);
      var wanted := IdentityOf(news, added[k].path);
      assert out[m := out[m]] == out;
      if wanted.None? {
        continue;
      }
      var source := FindSource(olds, wanted.value, diff, harder);
      if source.None? {
        continue;
      }
      var at := FindAdded(out, added[k].path);
      assert at == m;
      out := out[at := out[at].(status := Copied, oldPath := source, similarity := Some(100))];
    }
    AllCopiesDone(olds, news, diff, harder, added, out);
  }

  lemma {:induction false} NoCopies(olds: seq<IndexEntry>, news: seq<IndexEntry>, diff: seq<IndexDiffEntry>,
                                    harder: bool,
                                    added: seq<IndexDiffEntry>)
    ensures CopiesDone(olds, news, diff, harder, added, 0, diff)
  {
  }

  lemma {:induction false} AllCopiesDone(olds: seq<IndexEntry>, news: seq<IndexEntry>, diff: seq<IndexDiffEntry>,
                                         harder: bool,
                                         added: seq<IndexDiffEntry>, out: seq<IndexDiffEntry>)
    requires added == Select(diff, Added) && CopiesDone(olds, news, diff, harder, added, |added|, out)
    ensures |out| == |diff| && forall i :: 0 <= i < |diff| ==> out[i] == CopyOf(olds, news, diff, harder, diff[i])
  {
    hide CopyOf, Select;
    forall i | 0 <= i < |diff| && diff[i].status == Added ensures HasPathBefore(added, |added|, diff[i].path) {
      assert diff[i] in added;
      var j :| 0 <= j < |added| && added[j] == diff[i];
    }
  }

  // ---- What copy detection means -----------------------------------------------------------

  /**
   * The source of a copy is the first old file with the same mode and id that was deleted or modified, or any first
   * one.
   */
  lemma {:induction false} SourceIsFirst(olds: seq<IndexEntry>, wanted: Identity, diff: seq<IndexDiffEntry>,
                                         harder: bool, i: nat)
    requires i < |olds| && olds[i].mode == wanted.mode && olds[i].id == wanted.id
    requires harder || exists y :: y in diff && y.path == olds[i].path && (y.status == Deleted || y.status == Modified)
    requires forall j :: 0 <= j < i && olds[j].mode == wanted.mode && olds[j].id == wanted.id ==>
               !harder
               && forall y :: y in diff && y.path == olds[j].path ==> y.status != Deleted && y.status != Modified
    ensures CopySource(olds, wanted, diff, harder) == Some(olds[i].path)
  {
    ChangedMeans(diff, olds[i].path);
    if i > 0 {
      ChangedMeans(diff, olds[0].path);
      SourceIsFirst(olds[1..], wanted, diff, harder, i - 1);
    }
  }

  lemma {:induction false} ChangedMeans(diff: seq<IndexDiffEntry>, path: Bytes)
    ensures ChangedPath(diff, path) <==>
            exists y :: y in diff && y.path == path && (y.status == Deleted || y.status == Modified)
  {
    if ChangedPath(diff, path) {
      var k :| 0 <= k < |diff| && diff[k].path == path && (diff[k].status == Deleted || diff[k].status == Modified);
      assert diff[k] in diff;
    }
  }

  lemma {:induction false} SourceMeaning(olds: seq<IndexEntry>, wanted: Identity, diff: seq<IndexDiffEntry>,
                                         harder: bool)
    ensures var source := CopySource(olds, wanted, diff, harder);
            && (source.Some? ==> HasFile(olds, source.value, wanted) && (harder || ChangedPath(diff, source.value)))
            && (source.None? ==> forall p :: HasFile(olds, p, wanted) ==> !harder && !ChangedPath(diff, p))
  {
    hide ChangedPath;
    if olds != [] {
      SourceMeaning(olds[1..], wanted, diff, harder);
      assert forall i :: 0 <= i < |olds| - 1 ==> olds[1..][i] == olds[i + 1];
      forall p | HasFile(olds, p, wanted)
        ensures HasFile(olds[1..], p, wanted) || (olds[0].path == p && Identity(olds[0].mode, olds[0].id) == wanted) {
        var i :| 0 <= i < |olds| && olds[i].path == p && Identity(olds[i].mode, olds[i].id) == wanted;
        if i > 0 { assert olds[1..][i - 1] == olds[i]; }
      }
      forall p | HasFile(olds[1..], p, wanted) ensures HasFile(olds, p, wanted) {
        var i :| 0 <= i < |olds| - 1 && olds[1..][i].path == p
                 && Identity(olds[1..][i].mode, olds[1..][i].id) == wanted;
        assert olds[i + 1] == olds[1..][i];
      }
    }
  }

  predicate HasFile(entries: seq<IndexEntry>, path: Bytes, identity: Identity)
  {
    exists i :: 0 <= i < |entries| && entries[i].path == path && Identity(entries[i].mode, entries[i].id) == identity
  }

  /** In a sorted listing every path has one identity. */
  lemma {:induction false} IdentityOfFile(entries: seq<IndexEntry>, path: Bytes, identity: Identity)
    requires PathSorted(entries)
    ensures HasFile(entries, path, identity) <==> IdentityOf(entries, path) == Some(identity)
  {
    if entries != [] {
      IdentityOfFile(entries[1..], path, identity);
      assert forall i :: 0 <= i < |entries| - 1 ==> entries[1..][i] == entries[i + 1];
      if entries[0].path == path {
        forall i | 0 < i < |entries| ensures entries[i].path != path {
          LessIrreflexive(path);
        }
      } else if HasFile(entries[1..], path, identity) {
        var i :| 0 <= i < |entries| - 1 && entries[1..][i].path == path
                 && Identity(entries[1..][i].mode, entries[1..][i].id) == identity;
        assert entries[i + 1].path == path;
      }
    }
  }

  /** Copies change nothing about what a diff says once copies are taken as additions. */
  lemma {:induction false} CopiesConserve(olds: seq<IndexEntry>, news: seq<IndexEntry>, base: seq<IndexDiffEntry>,
                                          harder: bool,
                                          diff: seq<IndexDiffEntry>, out: seq<IndexDiffEntry>)
    requires |out| == |diff| && forall i :: 0 <= i < |diff| ==> out[i] == CopyOf(olds, news, base, harder, diff[i])
    requires forall i :: 0 <= i < |diff| && diff[i].status == Added ==> diff[i] == Addition(diff[i].path)
    ensures Expanded(out) == Expanded(diff)
  {
    hide IdentityOf, CopySource;
    if diff != [] {
      CopiesConserve(olds, news, base, harder, diff[1..], out[1..]);
      assert Parts(out[0]) == Parts(diff[0]);
    }
  }

  /** What the whole detection promises: nothing is lost, every pairing is exact, and nothing pairable is left. */
  ghost predicate Detected(olds: seq<IndexEntry>, news: seq<IndexEntry>, harder: bool, out: seq<IndexDiffEntry>)
  {
    && SortedByPath(out) && Expanded(out) == multiset(IndexDiffs(FlatDiff(olds, news)))
    && (forall x :: x in out && x.status == Renamed ==>
          x.oldPath.Some? && x == Renaming(x.oldPath.value, x.path) && SameFile(olds, news, x.oldPath.value, x.path))
    && PairedInOrder(olds, news, out)
    && (forall x :: x in out && x.status == Copied ==>
          x.oldPath.Some? && x == Copying(x.oldPath.value, x.path) && SameFile(olds, news, x.oldPath.value, x.path))
    && (forall d, a :: d in out && a in out && d.status == Deleted && (a.status == Added || a.status == Copied) ==>
          !SameFile(olds, news, d.path, a.path))
    && (forall x :: x in out && x.status == Copied && !harder ==>
        exists m :: m in out && m.status == Modified && m.path == x.oldPath.value)
    && (forall a, p :: a in out && a.status == Added && SameFile(olds, news, p, a.path) ==>
          !harder && !exists m :: m in out && m.status == Modified && m.path == p)
  }

  ghost predicate CopiedFrom(olds: seq<IndexEntry>, news: seq<IndexEntry>, harder: bool, diff: seq<IndexDiffEntry>,
                             out: seq<IndexDiffEntry>)
  {
    |out| == |diff| && forall i :: 0 <= i < |diff| ==> out[i] == CopyOf(olds, news, diff, harder, diff[i])
  }

  /** Where an entry of the result comes from, and that all but additions are kept. */
  lemma {:induction false} Origin(olds: seq<IndexEntry>, news: seq<IndexEntry>, harder: bool, diff: seq<IndexDiffEntry>,
                                  out: seq<IndexDiffEntry>, x: IndexDiffEntry)
    requires CopiedFrom(olds, news, harder, diff, out)
    ensures x in out ==> exists y :: y in diff && x == CopyOf(olds, news, diff, harder, y)
    ensures x in diff && x.status != Added ==> x in out
  {
    hide CopyOf;
    if x in out {
      var i :| 0 <= i < |out| && out[i] == x;
      assert diff[i] in diff;
    }
    if x in diff && x.status != Added {
      var i :| 0 <= i < |diff| && diff[i] == x;
      assert out[i] == x;
    }
  }

  lemma {:induction false} CopySound(olds: seq<IndexEntry>, news: seq<IndexEntry>, base: seq<IndexDiffEntry>,
                                     harder: bool,
                                     diff: seq<IndexDiffEntry>, y: IndexDiffEntry)
    requires PathSorted(olds) && RenamesFound(olds, news, base, diff) && y in diff && y.status == Added
    ensures var x := CopyOf(olds, news, diff, harder, y);
            && (x.status == Added || x.status == Copied)
            && (x.status == Copied ==>
                  && x.oldPath.Some? && x == Copying(x.oldPath.value, x.path)
                     && SameFile(olds, news, x.oldPath.value, x.path)
                  && (!harder ==> exists m :: m in diff && m.status == Modified && m.path == x.oldPath.value))
            && (x.status == Added ==> forall p :: SameFile(olds, news, p, x.path) ==>
                  !harder && !exists m :: m in diff && m.status == Modified && m.path == p)
  {
    hide CopySource, IdentityOf, SortedByPath, Expanded;
    var wanted := IdentityOf(news, y.path);
    if wanted.Some? {
      SourceMeaning(olds, wanted.value, diff, harder);
      var source := CopySource(olds, wanted.value, diff, harder);
      if source.Some? {
        IdentityOfFile(olds, source.value, wanted.value);
        if !harder {
          var i :| 0 <= i < |diff| && diff[i].path == source.value
                   && (diff[i].status == Deleted || diff[i].status == Modified);
          assert diff[i] in diff;
        }
      } else {
        forall p | SameFile(olds, news, p, y.path)
          ensures !harder && !exists m :: m in diff && m.status == Modified && m.path == p {
          IdentityOfFile(olds, p, wanted.value);
          assert HasFile(olds, p, wanted.value);
        }
      }
    }
  }

  /** The facts about an addition, copied or not, in terms of the diff before copy detection. */
  ghost predicate Copyable(olds: seq<IndexEntry>, news: seq<IndexEntry>, harder: bool, diff: seq<IndexDiffEntry>,
                           x: IndexDiffEntry)
  {
    && (exists y :: y in diff && y.status == Added && y.path == x.path)
    && (x.status == Copied ==>
          && x.oldPath.Some? && x == Copying(x.oldPath.value, x.path) && SameFile(olds, news, x.oldPath.value, x.path)
          && (!harder ==> exists m :: m in diff && m.status == Modified && m.path == x.oldPath.value))
    && (x.status == Added ==> forall p :: SameFile(olds, news, p, x.path) ==>
          !harder && !exists m :: m in diff && m.status == Modified && m.path == p)
  }

  /** Every entry of the result is an addition, copied or not, or was there before. */
  lemma {:induction false} EveryEntry(olds: seq<IndexEntry>, news: seq<IndexEntry>, base: seq<IndexDiffEntry>,
                                      harder: bool,
                                      diff: seq<IndexDiffEntry>, out: seq<IndexDiffEntry>, x: IndexDiffEntry)
    requires PathSorted(olds) && RenamesFound(olds, news, base, diff) && CopiedFrom(olds, news, harder, diff, out)
             && x in out
    ensures if x.status == Added || x.status == Copied then Copyable(olds, news, harder, diff, x) else x in diff
  {
    hide SameFile, CopyOf, CopySource, Expanded, SortedByPath, CopiedFrom;
    Origin(olds, news, harder, diff, out, x);
    var y :| y in diff && x == CopyOf(olds, news, diff, harder, y);
    if y.status == Added {
      CopySound(olds, news, base, harder, diff, y);
    } else {
      assert y.status != Copied;
    }
  }

  lemma {:induction false} PathsKept(olds: seq<IndexEntry>, news: seq<IndexEntry>, harder: bool,
                                     diff: seq<IndexDiffEntry>, out: seq<IndexDiffEntry>)
    requires CopiedFrom(olds, news, harder, diff, out) && SortedByPath(diff)
    ensures SortedByPath(out)
  {
    hide CopyOf, Less;
    forall i, j | 0 <= i < j < |out| ensures Less(out[i].path, out[j].path) {
      assert Less(diff[i].path, diff[j].path);
    }
  }

  lemma {:induction false} SameExpansion(olds: seq<IndexEntry>, news: seq<IndexEntry>, base: seq<IndexDiffEntry>,
                                         harder: bool,
                                         diff: seq<IndexDiffEntry>, out: seq<IndexDiffEntry>)
    requires RenamesFound(olds, news, base, diff) && CopiedFrom(olds, news, harder, diff, out)
    ensures Expanded(out) == multiset(base)
  {
    hide SameFile, CopyOf, Expanded, SortedByPath;
    forall i | 0 <= i < |diff| && diff[i].status == Added ensures diff[i] == Addition(diff[i].path) {
      assert diff[i] in diff;
    }
    CopiesConserve(olds, news, diff, harder, diff, out);
  }

  lemma {:induction false} DetectionCorrect(olds: seq<IndexEntry>, news: seq<IndexEntry>, harder: bool,
                                            diff: seq<IndexDiffEntry>, out: seq<IndexDiffEntry>)
    requires PathSorted(olds) && RenamesFound(olds, news, IndexDiffs(FlatDiff(olds, news)), diff)
    requires CopiedFrom(olds, news, harder, diff, out) && PairedInOrder(olds, news, diff)
    ensures Detected(olds, news, harder, out)
  {
    hide PairedInOrder, SameFile, Expanded, IndexDiffs, FlatDiff, SortedByPath, CopiedFrom, PathSorted;
    var base := IndexDiffs(FlatDiff(olds, news));
    SameExpansion(olds, news, base, harder, diff, out);
    PathsKept(olds, news, harder, diff, out);
    forall x | x in out
      ensures if x.status == Added || x.status == Copied then Copyable(olds, news, harder, diff, x) else x in diff
    {
      EveryEntry(olds, news, base, harder, diff, out, x);
    }
    forall x | x in diff && x.status != Added ensures x in out {
      Origin(olds, news, harder, diff, out, x);
    }
    PairingsSound(olds, news, base, harder, diff, out);
  }

  lemma {:induction false} PairingsSound(olds: seq<IndexEntry>, news: seq<IndexEntry>, base: seq<IndexDiffEntry>,
                                         harder: bool,
                                         diff: seq<IndexDiffEntry>, out: seq<IndexDiffEntry>)
    requires RenamesFound(olds, news, base, diff) && SortedByPath(out) && Expanded(out) == multiset(base)
    requires base == IndexDiffs(FlatDiff(olds, news)) && PairedInOrder(olds, news, diff)
    requires forall x :: x in out ==>
             if x.status == Added || x.status == Copied then Copyable(olds, news, harder, diff, x) else x in diff
    requires forall x :: x in diff && x.status != Added ==> x in out
    ensures Detected(olds, news, harder, out)
  {
    hide SameFile, Expanded, IndexDiffs, FlatDiff, SortedByPath, PairedInOrder;
    OrderKept(olds, news, harder, diff, out);
    forall d, a | d in out && a in out && d.status == Deleted && (a.status == Added || a.status == Copied)
      ensures !SameFile(olds, news, d.path, a.path)
    {
      assert Copyable(olds, news, harder, diff, a);
      var y :| y in diff && y.status == Added && y.path == a.path;
      assert NoPairLeft(olds, news, diff);
    }
    forall x | x in out && x.status == Copied
      ensures x.oldPath.Some? && x == Copying(x.oldPath.value, x.path) && SameFile(olds, news, x.oldPath.value, x.path)
      ensures !harder ==> exists m :: m in out && m.status == Modified && m.path == x.oldPath.value
    {
      assert Copyable(olds, news, harder, diff, x);
    }
    forall a, p | a in out && a.status == Added && SameFile(olds, news, p, a.path)
      ensures !harder && !exists m :: m in out && m.status == Modified && m.path == p
    {
      assert Copyable(olds, news, harder, diff, a);
    }
  }

  lemma {:induction false} OrderKept(olds: seq<IndexEntry>, news: seq<IndexEntry>, harder: bool,
                                     diff: seq<IndexDiffEntry>, out: seq<IndexDiffEntry>)
    requires PairedInOrder(olds, news, diff)
    requires forall x :: x in out ==>
             if x.status == Added || x.status == Copied then Copyable(olds, news, harder, diff, x) else x in diff
    ensures PairedInOrder(olds, news, out)
  {
    hide SameFile, Less;
    forall x, y | x in out && y in out && x.status == Renamed
      ensures (y.status == Added || y.status == Copied) ==>
                exists z :: z in diff && z.status == Added && z.path == y.path {
      if y.status == Added || y.status == Copied { assert Copyable(olds, news, harder, diff, y); }
    }
  }

  lemma {:induction false} FlatDiffIsPlain(olds: seq<IndexEntry>, news: seq<IndexEntry>)
    requires PathSorted(olds) && PathSorted(news)
    ensures AllPlain(IndexDiffs(FlatDiff(olds, news))) && DistinctPaths(IndexDiffs(FlatDiff(olds, news)))
    ensures SortedByPath(IndexDiffs(FlatDiff(olds, news)))
  {
    hide FlatDiff, Less;
    var flat := FlatDiff(olds, news);
    FlatDiffSorted(olds, news);
    forall i | 0 <= i < |flat| ensures Plain(IndexDiffOf(flat[i])) {
      assert flat[i] in flat;
      FlatDiffExact(olds, news, flat[i]);
    }
    forall i, j | 0 <= i < j < |flat| ensures flat[i].path != flat[j].path {
      LessIrreflexive(flat[j].path);
    }
  }

  lemma {:induction false} SortedAreDistinct(diff: seq<IndexDiffEntry>)
    requires SortedByPath(diff)
    ensures DistinctPaths(diff)
  {
    forall i, j | 0 <= i < j < |diff| ensures diff[i].path != diff[j].path {
      LessIrreflexive(diff[j].path);
    }
  }

  /** Without conflict stages the paths themselves are strictly sorted. */
  lemma {:induction false} StageZeroSorted(entries: seq<IndexEntry>)
    requires StrictlySorted(entries) && AllStageZero(entries)
    ensures PathSorted(entries)
  {
    hide Less;
    forall i, j | 0 <= i < j < |entries| ensures Less(entries[i].path, entries[j].path) {
      assert EntryLess(entries[i], entries[j]);
    }
  }

  /** `diff_indexes_with_exact_renames_and_copies`. */
  method DiffIndexesWithRenamesAndCopies(olds: seq<IndexEntry>, news: seq<IndexEntry>, harder: bool)
    returns (r: Result<seq<IndexDiffEntry>>)
    requires StrictlySorted(olds) && StrictlySorted(news)
    ensures r.Ok? <==> AllStageZero(olds) && AllStageZero(news)
    ensures r.Err? ==> r.error == InvalidInput
    ensures r.Ok? ==> Detected(olds, news, harder, r.value)
  {
    hide RenamesFound, Detected, PairedInOrder, SortedByPath, CopyOf, AllPlain, DistinctPaths, AllStageZero,
         FlatDiff, IndexDiffs, PathSorted,
         StrictlySorted;
    var diff := DiffIndexes(olds, news);
    if diff.Err? {
      return diff;
    }
    StageZeroSorted(olds);
    StageZeroSorted(news);
    FlatDiffIsPlain(olds, news);
    var renamed := DetectExactRenames(olds, news, diff.value);
    RenamedPaths(olds, news, diff.value, renamed);
    var out := DetectExactCopies(olds, news, renamed, harder);
    DetectionCorrect(olds, news, harder, renamed, out);
    return Ok(out);
  }

  lemma {:induction false} RenamedPaths(olds: seq<IndexEntry>, news: seq<IndexEntry>, base: seq<IndexDiffEntry>,
                                        diff: seq<IndexDiffEntry>)
    requires RenamesFound(olds, news, base, diff)
    ensures DistinctPaths(diff)
  {
    SortedAreDistinct(diff);
  }
}
