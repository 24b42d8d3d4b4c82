/** The two-level commit cache (`commit.rs`, CommitObjectCache). */
module CommitCache {
  import opened Common
  import opened Objects
  import opened CommitCodec

  /** Reading a commit without any cache. */
  function DirectCommit(store: Store, id: ObjectId): Result<CommitObject>
  {
    var found := ReadObject(store, id);
    if found.Err? then Err(found.error)
    else if found.value.kind != ObjectKind.Commit then Err(InvalidData)
    else CommitOf(id.algorithm, found.value.content)
  }

  class CommitObjectCache {
    const store: Store
    var commits: map<ObjectId, CommitObject>
    var commitLinks: map<ObjectId, CommitLinks>

    /** Both maps only hold what direct decoding of the store gives. */
    ghost predicate Valid()
      reads this
    {
      && (forall id :: id in commits ==> DirectCommit(store, id) == Ok(commits[id]))
      && (forall id :: id in commitLinks ==> Links(DirectCommit(store, id)) == Ok(commitLinks[id]))
    }

    constructor (store: Store)
      ensures this.store == store && Valid()
    {
      this.store := store;
      commits := map[];
      commitLinks := map[];
    }

    method ReadCommit(id: ObjectId) returns (r: Result<CommitObject>)
      requires Valid()
      modifies this
      ensures Valid() && r == DirectCommit(store, id)
      ensures forall x :: x in old(commits) ==> x in commits
      ensures r.Ok? ==> id in commits
    {
      hide CommitOf;
      if id in commits {
        return Ok(commits[id]);
      }
      var loaded := ReadObject(store, id);
      if loaded.Err? {
        return Err(loaded.error);
      }
      r := ReadLoadedCommit(id, loaded.value);
    }

    /** For an object that the caller has already loaded from the same store. */
    method ReadLoadedCommit(id: ObjectId, loaded: Object) returns (r: Result<CommitObject>)
      requires Valid() && ReadObject(store, id) == Ok(loaded)
      modifies this
      ensures Valid() && r == DirectCommit(store, id)
      ensures forall x :: x in old(commits) ==> x in commits
      ensures r.Ok? ==> id in commits
    {
      hide CommitOf;
      if id in commits {
        return Ok(commits[id]);
      }
      if id in commitLinks {
        var links := commitLinks[id];
        var decoded := DecodeCommit(id.algorithm, loaded.content);
        if decoded.Err? {
          assert false;
        }
        var commit := CommitObject(links.tree, links.parents, decoded.value.author, decoded.value.committer,
                                   decoded.value.message);
        commits := commits[id := commit];
        return Ok(commit);
      }
      if loaded.kind != ObjectKind.Commit {
        return Err(InvalidData);
      }
      r := DecodeCommit(id.algorithm, loaded.content);
      if r.Ok? {
        commits := commits[id := r.value];
        commitLinks := commitLinks[id := CommitLinks(r.value.tree, r.value.parents)];
      }
    }

    method ReadCommitLinks(id: ObjectId) returns (r: Result<CommitLinks>)
      requires Valid()
      modifies this
      ensures Valid() && r == Links(DirectCommit(store, id))
      ensures commits == old(commits)
      ensures r.Ok? ==> id in commitLinks
    {
      hide CommitOf;
      if id in commitLinks {
        return Ok(commitLinks[id]);
      }
      if id in commits {
        var links := CommitLinks(commits[id].tree, commits[id].parents);
        commitLinks := commitLinks[id := links];
        return Ok(links);
      }
      var loaded := ReadObject(store, id);
      if loaded.Err? {
        return Err(loaded.error);
      }
      if loaded.value.kind != ObjectKind.Commit {
        return Err(InvalidData);
      }
      r := DecodeCommitLinks(id.algorithm, loaded.value.content);
      if r.Ok? {
        commitLinks := commitLinks[id := r.value];
      }
    }
  }

  /** Only objects of the kind commit are read as commits. */
  lemma {:induction false} DirectCommitMeans(store: Store, id: ObjectId, c: CommitObject)
    ensures DirectCommit(store, id) == Ok(c) <==>
            id.algorithm == store.algorithm && id in store.objects && store.objects[id].kind == ObjectKind.Commit
            && CommitOf(id.algorithm, store.objects[id].content) == Ok(c)
  {
    hide CommitOf;
  }
}
