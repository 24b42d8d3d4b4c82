/** The objects reachable from a set of roots (`reachable.rs`). */
module Reachable {
  import opened Common
  import opened Objects
  import opened TreeCodec
  import opened Graphs
  import Commits = CommitCodec
  import Tags = TagCodec

  /** The entries of a tree that name objects of this repository. */
  function OwnIds(entries: seq<TreeEntry>): seq<ObjectId>
  {
    if entries == [] then []
    else if entries[0].mode == Gitlink then OwnIds(entries[1..])
    else [entries[0].id] + OwnIds(entries[1..])
  }

  /** The objects that one object refers to, or why it cannot be read. */
  function LinksOf(store: Store, id: ObjectId): Result<seq<ObjectId>>
  {
    var found := ReadObject(store, id);
    if found.Err? then Err(found.error) else
    match found.value.kind
    case Blob => Ok([])
    case Tree => TreeLinks(DecodeEntries(id.algorithm, found.value.content))
    case Commit => CommitLinks(Commits.CommitOf(id.algorithm, found.value.content))
    case Tag => TagLinks(Tags.TagOf(id.algorithm, found.value.content))
  }

  function TreeLinks(entries: Result<seq<TreeEntry>>): Result<seq<ObjectId>>
  {
    if entries.Err? then Err(entries.error) else Ok(OwnIds(entries.value))
  }

  function CommitLinks(commit: Result<Commits.CommitObject>): Result<seq<ObjectId>>
  {
    if commit.Err? then Err(commit.error) else Ok([commit.value.tree] + commit.value.parents)
  }

  function TagLinks(tag: Result<Tags.TagObject>): Result<seq<ObjectId>>
  {
    if tag.Err? then Err(tag.error) else Ok([tag.value.target])
  }

  /** The links of every readable object. */
  ghost function LinkGraph(store: Store): (edges: Edges<ObjectId>)
    ensures forall id :: id in edges <==> LinksOf(store, id).Ok?
    ensures forall id :: id in edges ==> edges[id] == LinksOf(store, id).value
  {
    map id | id in store.objects && LinksOf(store, id).Ok? :: LinksOf(store, id).value
  }

  /** What a store may say about an object without reading it (`object_kind_hint`). */
  type KindHint = ObjectId -> Result<Option<ObjectKind>>

  ghost predicate Truthful(store: Store, hint: KindHint)
  {
    forall id ::
      match hint(id)
      case Err(e) => ReadObject(store, id) == Err(e)
      case Ok(None) => true
      case Ok(Some(kind)) => ReadObject(store, id).Ok? && ReadObject(store, id).value.kind == kind
  }

  ghost predicate FromRoots(edges: Edges<ObjectId>, roots: seq<ObjectId>, id: ObjectId)
  {
    exists root :: root in roots && Reaches(edges, root, id)
  }

  // ---- What it means to be reachable -------------------------------------------------------

  /**
   * `x` refers to `y`: a commit to its tree and its parents, a tree to all its entries but those of other
   * repositories, a tag to its target.
   */
  ghost predicate LeadsTo(store: Store, x: ObjectId, y: ObjectId)
  {
    var found := ReadObject(store, x);
    found.Ok? && match found.value.kind
      case Blob => false
      case Tree =>
        var entries := DecodeEntries(x.algorithm, found.value.content);
        entries.Ok? && exists i ::
          0 <= i < |entries.value| && entries.value[i].mode != TreeMode.Gitlink && entries.value[i].id == y
      case Commit =>
        var commit := Commits.CommitOf(x.algorithm, found.value.content);
        && commit.Ok?
        && (y == commit.value.tree || exists i :: 0 <= i < |commit.value.parents| && commit.value.parents[i] == y)
      case Tag =>
        var tag := Tags.TagOf(x.algorithm, found.value.content);
        tag.Ok? && y == tag.value.target
  }

  /** The object is there and can be decoded. */
  ghost predicate Intact(store: Store, x: ObjectId)
  {
    var found := ReadObject(store, x);
    found.Ok? && match found.value.kind
      case Blob => true
      case Tree => DecodeEntries(x.algorithm, found.value.content).Ok?
      case Commit => Commits.CommitOf(x.algorithm, found.value.content).Ok?
      case Tag => Tags.TagOf(x.algorithm, found.value.content).Ok?
  }

  /** A set with the roots and with everything that its members refer to. */
  ghost predicate Complete(store: Store, roots: seq<ObjectId>, ids: iset<ObjectId>)
  {
    && (forall root :: root in roots ==> root in ids)
    && forall x, y :: x in ids && LeadsTo(store, x, y) ==> y in ids
  }

  /** Reachable is what every such set has to contain. */
  ghost predicate IsReachable(store: Store, roots: seq<ObjectId>, id: ObjectId)
  {
    forall ids: iset<ObjectId> :: Complete(store, roots, ids) ==> id in ids
  }

  lemma {:induction false} OwnIdsMeans(entries: seq<TreeEntry>, y: ObjectId)
    ensures y in OwnIds(entries) <==>
            exists i :: 0 <= i < |entries| && entries[i].mode != TreeMode.Gitlink && entries[i].id == y
  {
    if entries != [] {
      OwnIdsMeans(entries[1..], y);
      if y in OwnIds(entries[1..]) {
        var i :| 0 <= i < |entries[1..]| && entries[1..][i].mode != TreeMode.Gitlink && entries[1..][i].id == y;
        assert entries[i + 1] == entries[1..][i];
      }
      if i :| 0 < i < |entries| && entries[i].mode != TreeMode.Gitlink && entries[i].id == y {
        assert entries[1..][i - 1] == entries[i];
      }
    }
  }

  lemma {:induction false} LinksMean(store: Store, x: ObjectId, y: ObjectId)
    ensures LinksOf(store, x).Ok? <==> Intact(store, x)
    ensures LeadsTo(store, x, y) <==> LinksOf(store, x).Ok? && y in LinksOf(store, x).value
  {
    hide Commits.CommitOf, Tags.TagOf, DecodeEntries, OwnIds;
    var found := ReadObject(store, x);
    if found.Ok? && found.value.kind == ObjectKind.Tree {
      var entries := DecodeEntries(x.algorithm, found.value.content);
      if entries.Ok? { OwnIdsMeans(entries.value, y); }
    }
  }

  /** The paths of the link graph reach exactly that. */
  lemma {:induction false} ReachableMeans(store: Store, roots: seq<ObjectId>, id: ObjectId)
    ensures IsReachable(store, roots, id) <==> FromRoots(LinkGraph(store), roots, id)
  {
    hide LeadsTo, LinksOf, Intact, Reaches;
    var edges := LinkGraph(store);
    forall x, y ensures LeadsTo(store, x, y) <==> x in edges && y in edges[x] { LinksMean(store, x, y); }
    if FromRoots(edges, roots, id) {
      var root :| root in roots && Reaches(edges, root, id);
      forall ids: iset<ObjectId> | Complete(store, roots, ids) ensures id in ids {
        ClosedContains(edges, ids, root, id);
      }
    }
    if IsReachable(store, roots, id) {
      var ids := iset x | FromRoots(edges, roots, x);
      forall root | root in roots ensures root in ids { ReachesSelf(edges, root); }
      forall x, y | x in ids && LeadsTo(store, x, y) ensures y in ids { RootsReach(edges, roots, x, y); }
      assert Complete(store, roots, ids);
    }
  }

  /** Everything reachable can be read. */
  ghost predicate AllIntact(store: Store, roots: seq<ObjectId>)
  {
    forall id :: IsReachable(store, roots, id) ==> Intact(store, id)
  }

  lemma {:induction false} AllMeans(store: Store, roots: seq<ObjectId>)
    ensures AllIntact(store, roots) <==> forall id :: FromRoots(LinkGraph(store), roots, id) ==> LinksOf(store, id).Ok?
    ensures forall id :: IsReachable(store, roots, id) <==> FromRoots(LinkGraph(store), roots, id)
  {
    hide FromRoots, LinksOf, IsReachable, Intact;
    forall id
      ensures IsReachable(store, roots, id) <==> FromRoots(LinkGraph(store), roots, id)
      ensures Intact(store, id) <==> LinksOf(store, id).Ok?
    {
      ReachableMeans(store, roots, id);
      LinksMean(store, id, id);
    }
  }

  // ---- Scheduling --------------------------------------------------------------------------

  datatype Worklist = Worklist(seen: set<ObjectId>, pending: seq<ObjectId>)

  function Schedule(w: Worklist, id: ObjectId): Worklist
  {
    if id in w.seen then w else Worklist(w.seen + {id}, w.pending + [id])
  }

  function ScheduleAll(w: Worklist, ids: seq<ObjectId>): Worklist
    decreases ids
  {
    if ids == [] then w else ScheduleAll(Schedule(w, ids[0]), ids[1..])
  }

  /** An id waits or is done once it has been seen, never both and never twice. */
  ghost predicate Scheduled(w: Worklist, done: set<ObjectId>)
  {
    && (forall x :: x in w.seen <==> x in done || x in w.pending)
    && (forall i, j :: 0 <= i < j < |w.pending| ==> w.pending[i] != w.pending[j])
    && (forall i :: 0 <= i < |w.pending| ==> w.pending[i] !in done)
  }

  lemma {:induction false} ScheduleKeeps(w: Worklist, done: set<ObjectId>, id: ObjectId)
    requires Scheduled(w, done)
    ensures Scheduled(Schedule(w, id), done)
  {
    var next := Schedule(w, id);
    forall x ensures x in next.seen <==> x in done || x in next.pending {
      assert id !in w.seen ==> (x in next.pending <==> x in w.pending || x == id);
    }
  }

  lemma {:induction false} ScheduleAllKeeps(w: Worklist, done: set<ObjectId>, ids: seq<ObjectId>)
    requires Scheduled(w, done)
    ensures Scheduled(ScheduleAll(w, ids), done)
    ensures forall x :: x in ScheduleAll(w, ids).seen <==> x in w.seen || x in ids
    decreases ids
  {
    hide Scheduled;
    if ids != [] {
      ScheduleKeeps(w, done, ids[0]);
      ScheduleAllKeeps(Schedule(w, ids[0]), done, ids[1..]);
      assert ids == [ids[0]] + ids[1..];
    }
  }

  /** Scheduling entry by entry while the tree is still being parsed. */
  lemma {:induction false} ScheduleNextEntry(algorithm: HashAlgorithm, w: Worklist, bytes: Bytes)
    requires bytes != []
    ensures var first := ParseEntry(algorithm, bytes);
            var all := TreeLinks(DecodeEntries(algorithm, bytes));
            if first.Err? then all == Err(first.error) else
              var next := if first.value.0.mode == Gitlink then w else Schedule(w, first.value.0.id);
              var rest := TreeLinks(DecodeEntries(algorithm, bytes[first.value.1..]));
              (rest.Err? ==> all == rest)
              && (rest.Ok? ==> all.Ok? && ScheduleAll(w, all.value) == ScheduleAll(next, rest.value))
  {
    hide ParseEntry;
    var first := ParseEntry(algorithm, bytes);
    if first.Ok? {
      var rest := DecodeEntries(algorithm, bytes[first.value.1..]);
      if rest.Ok? {
        assert ([first.value.0] + rest.value)[1..] == rest.value;
        assert ([first.value.0.id] + OwnIds(rest.value))[1..] == OwnIds(rest.value);
      }
    }
  }

  lemma {:induction false} NoEntriesLeft(algorithm: HashAlgorithm, w: Worklist)
    ensures TreeLinks(DecodeEntries(algorithm, [])) == Ok([]) && ScheduleAll(w, []) == w
  {
  }

  class Reachability {
    const store: Store
    const hint: KindHint
    var seen: set<ObjectId>
    var pending: seq<ObjectId>

    constructor (store: Store, hint: KindHint)
      ensures this.store == store && this.hint == hint && State() == Worklist({}, [])
    {
      this.store := store;
      this.hint := hint;
      seen := {};
      pending := [];
    }

    ghost function State(): Worklist
      reads this
    {
      Worklist(seen, pending)
    }

    method ScheduleReachableObject(id: ObjectId) returns (inserted: bool)
      modifies this
      ensures State() == Schedule(old(State()), id)
      ensures inserted == (id !in old(seen))
    {
      inserted := id !in seen;
      if inserted {
        seen := seen + {id};
        pending := pending + [id];
      }
    }

    /** Schedules everything that `id` refers to, or reports why it cannot be read. */
    method MarkReachableObject(id: ObjectId) returns (failure: Option<Error>)
      requires Truthful(store, hint)
      modifies this
      ensures match LinksOf(store, id)
              case Ok(links) => failure == None && State() == ScheduleAll(old(State()), links)
              case Err(e) => failure == Some(e)
    {
      hide Commits.CommitOf, Tags.TagOf, DecodeEntries, ScheduleAll;
      var kind := hint(id);
      if kind.Err? {
        return Some(kind.error);
      }
      NoEntriesLeft(id.algorithm, old(State()));
      if kind.value == Some(Blob) {
        return None;
      }
      var found := ReadObject(store, id);
      if found.Err? {
        return Some(found.error);
      }
      match found.value.kind {
        case Blob =>
          return None;
        case Tree =>
          failure := MarkTree(id.algorithm, found.value.content);
        case Commit =>
          var commit := Commits.DecodeCommitLinks(id.algorithm, found.value.content);
          if commit.Err? {
            return Some(commit.error);
          }
          failure := None;
          MarkCommit(commit.value.tree, commit.value.parents);
        case Tag =>
          var tag := Tags.DecodeTag(id.algorithm, found.value.content);
          if tag.Err? {
            return Some(tag.error);
          }
          failure := None;
          ScheduleOne(old(State()), tag.value.target);
          var inserted := ScheduleReachableObject(tag.value.target);
      }
    }

    /** The visitor of `for_each_tree_object_ref`: entries before a broken one are scheduled all the same. */
    method MarkTree(algorithm: HashAlgorithm, content: Bytes) returns (failure: Option<Error>)
      modifies this
      ensures match TreeLinks(DecodeEntries(algorithm, content))
              case Ok(links) => failure == None && State() == ScheduleAll(old(State()), links)
              case Err(e) => failure == Some(e)
    {
      hide DecodeEntries, TreeLinks, ParseEntry, ScheduleAll, Schedule;
      var rest := content;
      while rest != []
        invariant match TreeLinks(DecodeEntries(algorithm, rest))
                  case Err(e) => TreeLinks(DecodeEntries(algorithm, content)) == Err(e)
                  case Ok(links) =>
                    && TreeLinks(DecodeEntries(algorithm, content)).Ok?
                    && ScheduleAll(old(State()), TreeLinks(DecodeEntries(algorithm, content)).value)
                       == ScheduleAll(State(), links)
        decreases |rest|
      {
        ScheduleNextEntry(algorithm, State(), rest);
        var entry := ParseEntry(algorithm, rest);
        if entry.Err? {
          return Some(entry.error);
        }
        if entry.value.0.mode != Gitlink {
          var inserted := ScheduleReachableObject(entry.value.0.id);
        }
        rest := rest[entry.value.1..];
      }
      NoEntriesLeft(algorithm, State());
      return None;
    }

    method MarkCommit(tree: ObjectId, parents: seq<ObjectId>)
      modifies this
      ensures State() == ScheduleAll(old(State()), [tree] + parents)
    {
      hide Schedule;
      ghost var ids := [tree] + parents;
      var inserted := ScheduleReachableObject(tree);
      assert ids[1..] == parents[0..];
      for i := 0 to |parents|
        invariant ScheduleAll(old(State()), ids) == ScheduleAll(State(), parents[i..])
      {
        assert parents[i..][1..] == parents[i + 1..];
        inserted := ScheduleReachableObject(parents[i]);
      }
    }
  }

  lemma {:induction false} ScheduleOne(w: Worklist, id: ObjectId)
    ensures ScheduleAll(w, [id]) == Schedule(w, id)
  {
    var none: seq<ObjectId> := [];
    assert [id][1..] == none;
    assert ScheduleAll(Schedule(w, id), none) == Schedule(w, id);
  }

  // ---- The worklist ------------------------------------------------------------------------

  /** Everything done has all its links seen, and nothing has been seen that no root reaches. */
  ghost predicate Searching(edges: Edges<ObjectId>, roots: seq<ObjectId>, w: Worklist, done: set<ObjectId>)
  {
    && Scheduled(w, done)
    && (forall x :: x in done ==> x in edges && forall y :: y in edges[x] ==> y in w.seen)
    && (forall x :: x in w.seen ==> FromRoots(edges, roots, x))
  }

  lemma {:induction false} SearchRoot(edges: Edges<ObjectId>, roots: seq<ObjectId>, w: Worklist, done: set<ObjectId>,
                                      root: ObjectId)
    requires Searching(edges, roots, w, done) && root in roots
    ensures Searching(edges, roots, Schedule(w, root), done)
  {
    ScheduleKeeps(w, done, root);
    ReachesSelf(edges, root);
    assert FromRoots(edges, roots, root);
  }

  /** The id taken from the stack is a fresh one. */
  lemma {:induction false} SearchPops(edges: Edges<ObjectId>, roots: seq<ObjectId>, w: Worklist, done: set<ObjectId>)
    requires Searching(edges, roots, w, done) && w.pending != []
    ensures var id := w.pending[|w.pending| - 1];
            && id !in done && FromRoots(edges, roots, id)
            && Scheduled(Worklist(w.seen, w.pending[..|w.pending| - 1]), done + {id})
  {
    var id, rest := w.pending[|w.pending| - 1], w.pending[..|w.pending| - 1];
    assert w.pending == rest + [id];
    forall x ensures x in w.seen <==> x in done + {id} || x in rest {
      assert x in w.pending <==> x in rest || x == id;
    }
  }

  lemma {:induction false} SearchMarks(edges: Edges<ObjectId>, roots: seq<ObjectId>, w: Worklist, done: set<ObjectId>)
    requires Searching(edges, roots, w, done) && w.pending != []
    requires w.pending[|w.pending| - 1] in edges
    ensures var id, rest := w.pending[|w.pending| - 1], w.pending[..|w.pending| - 1];
            Searching(edges, roots, ScheduleAll(Worklist(w.seen, rest), edges[id]), done + {id})
  {
    hide Schedule, ScheduleAll, Scheduled, FromRoots;
    var id, rest := w.pending[|w.pending| - 1], w.pending[..|w.pending| - 1];
    SearchPops(edges, roots, w, done);
    ScheduleAllKeeps(Worklist(w.seen, rest), done + {id}, edges[id]);
    forall y | y in edges[id] ensures FromRoots(edges, roots, y) {
      RootsReach(edges, roots, id, y);
    }
  }

  lemma {:induction false} RootsReach(edges: Edges<ObjectId>, roots: seq<ObjectId>, x: ObjectId, y: ObjectId)
    requires FromRoots(edges, roots, x) && x in edges && y in edges[x]
    ensures FromRoots(edges, roots, y)
  {
    var root :| root in roots && Reaches(edges, root, x);
    ReachesThen(edges, root, x, y);
  }

  /** An empty stack leaves a closed set: exactly what the roots reach. */
  lemma {:induction false} SearchEnds(edges: Edges<ObjectId>, roots: seq<ObjectId>, w: Worklist, done: set<ObjectId>)
    requires Searching(edges, roots, w, done) && w.pending == []
    requires forall i :: 0 <= i < |roots| ==> roots[i] in w.seen
    ensures forall id :: id in w.seen <==> FromRoots(edges, roots, id)
    ensures forall id :: FromRoots(edges, roots, id) ==> id in edges
  {
    var nodes := iset x | x in w.seen;
    assert Closed(edges, nodes);
    forall id | FromRoots(edges, roots, id) ensures id in w.seen {
      var root :| root in roots && Reaches(edges, root, id);
      ClosedContains(edges, nodes, root, id);
    }
  }

  lemma {:induction false} FewerLeft(all: set<ObjectId>, done: set<ObjectId>, id: ObjectId)
    requires id in all && id !in done
    ensures |all - (done + {id})| < |all - done|
  {
    assert all - done == (all - (done + {id})) + {id};
  }

  /**
   * `collect_reachable_objects_from_roots`: succeeds exactly when every reachable object can be read, and then returns
   * exactly the reachable ids: the smallest set with the roots and with everything that its members refer to.
   */
  method CollectReachableObjectsFromRoots(store: Store, hint: KindHint, roots: seq<ObjectId>)
    returns (r: Result<set<ObjectId>>)
    requires Truthful(store, hint)
    ensures r.Ok? <==> forall id :: FromRoots(LinkGraph(store), roots, id) ==> LinksOf(store, id).Ok?
    ensures r.Ok? ==> forall id :: id in r.value <==> FromRoots(LinkGraph(store), roots, id)
    ensures r.Err? ==> exists id :: FromRoots(LinkGraph(store), roots, id) && LinksOf(store, id) == Err(r.error)
    ensures r.Ok? <==> AllIntact(store, roots)
    ensures r.Ok? ==> forall id :: id in r.value <==> IsReachable(store, roots, id)
  {
    hide FromRoots, LinksOf, IsReachable, AllIntact, Schedule, ScheduleAll, Truthful, Scheduled, Searching;
    ghost var edges := LinkGraph(store);
    ghost var done: set<ObjectId> := {};
    var search := new Reachability(store, hint);
    SearchStarts(edges, roots);
    var next := |roots|;
    while next > 0
      invariant 0 <= next <= |roots|
      invariant search.store == store && search.hint == hint
      invariant search.pending == [] && Searching(edges, roots, search.State(), done)
      invariant forall i :: next <= i < |roots| ==> roots[i] in search.seen
      invariant done <= edges.Keys
    {
      next := next - 1;
      SearchRoot(edges, roots, search.State(), done, roots[next]);
      RootSeen(search.State(), roots[next]);
      ghost var before := search.seen;
      var inserted := search.ScheduleReachableObject(roots[next]);
      if !inserted {
        continue;
      }
      while search.pending != []
        invariant search.store == store && search.hint == hint
        invariant Searching(edges, roots, search.State(), done)
        invariant before <= search.seen && roots[next] in search.seen
        invariant done <= edges.Keys
        decreases |edges.Keys - done|
      {
        ghost var w := search.State();
        var id := search.pending[|search.pending| - 1];
        search.pending := search.pending[..|search.pending| - 1];
        SearchPops(edges, roots, w, done);
        var failure := search.MarkReachableObject(id);
        if failure.Some? {
          AllMeans(store, roots);
          return Err(failure.value);
        }
        SearchMarks(edges, roots, w, done);
        ScheduleAllKeeps(Worklist(w.seen, w.pending[..|w.pending| - 1]), done + {id}, edges[id]);
        FewerLeft(edges.Keys, done, id);
        done := done + {id};
      }
    }
    SearchEnds(edges, roots, search.State(), done);
    AllMeans(store, roots);
    return Ok(search.seen);
  }

  lemma {:induction false} SearchStarts(edges: Edges<ObjectId>, roots: seq<ObjectId>)
    ensures Searching(edges, roots, Worklist({}, []), {})
  {
  }

  lemma {:induction false} RootSeen(w: Worklist, root: ObjectId)
    ensures root in Schedule(w, root).seen && w.seen <= Schedule(w, root).seen
    ensures root in w.seen ==> Schedule(w, root) == w
  {
  }
}
