/** Object lookup through alternates (`loose.rs`): depth-first searches over a possibly cyclic graph of directories. */
module Alternates {
  import opened Common
  import opened Objects
  import opened ObjectText
  import opened Graphs

  /** A canonical directory path. */
  type Dir = nat

  /** What one objects directory holds; a damaged object is present but reads as an error. */
  datatype ObjectDir = ObjectDir(
    loose: map<ObjectId, Result<Object>>, packed: map<ObjectId, Result<Object>>, alternates: seq<Dir>)

  /** All objects directories; one that is not listed does not exist and counts as empty. */
  datatype Repository = Repository(algorithm: HashAlgorithm, dirs: map<Dir, ObjectDir>) {
    function At(dir: Dir): ObjectDir {
      if dir in dirs then dirs[dir] else ObjectDir(map[], map[], [])
    }

    ghost function Edges(): (edges: Edges<Dir>)
      ensures forall d :: d in edges <==> d in dirs
      ensures forall d :: d in edges ==> edges[d] == dirs[d].alternates
    {
      map d | d in dirs :: dirs[d].alternates
    }

    predicate Holds(dir: Dir, id: ObjectId) {
      id in At(dir).loose || id in At(dir).packed
    }

    /** What reading `id` in this one directory gives: a loose object hides a packed one. */
    function Local(dir: Dir, id: ObjectId): Result<Object> {
      if id in At(dir).loose then At(dir).loose[id]
      else if id in At(dir).packed then At(dir).packed[id]
      else Err(NotFound)
    }

    /** Reading an object that is there never reports it as missing. */
    ghost predicate Valid() {
      forall dir, id :: Holds(dir, id) ==> Local(dir, id) != Err(NotFound)
    }
  }

  /** The directories a search from `root` may look into. */
  ghost predicate InClosure(repo: Repository, root: Dir, dir: Dir)
  {
    Reaches(repo.Edges(), root, dir)
  }

  /**
   * The search has finished with every directory that it entered since `before`: it found nothing there, and it has
   * entered all of its alternates.
   */
  ghost predicate Explored(repo: Repository, before: set<Dir>, after: set<Dir>, clean: iset<Dir>)
  {
    && before <= after
    && forall x :: x in after && x !in before ==>
         x in clean && forall y :: y in repo.At(x).alternates ==> y in after
  }

  /** Entering one more directory, whose alternates have been entered up to the `k`-th. */
  ghost predicate Exploring(repo: Repository, dir: Dir, before: set<Dir>, after: set<Dir>, clean: iset<Dir>, k: nat)
  {
    && dir in after && before <= after && dir in clean && k <= |repo.At(dir).alternates|
    && (forall i :: 0 <= i < k ==> repo.At(dir).alternates[i] in after)
    && forall x :: x in after && x !in before && x != dir ==>
         x in clean && forall y :: y in repo.At(x).alternates ==> y in after
  }

  lemma {:induction false} ExploreNext(repo: Repository, dir: Dir, before: set<Dir>, now: set<Dir>, after: set<Dir>,
                                       clean: iset<Dir>, k: nat)
    requires Exploring(repo, dir, before, now, clean, k) && k < |repo.At(dir).alternates|
    requires Explored(repo, now, after, clean) && repo.At(dir).alternates[k] in after
    ensures Exploring(repo, dir, before, after, clean, k + 1)
  {
  }

  lemma {:induction false} ExploreEnds(repo: Repository, dir: Dir, before: set<Dir>, after: set<Dir>, clean: iset<Dir>)
    requires dir !in before && Exploring(repo, dir, before, after, clean, |repo.At(dir).alternates|)
    ensures Explored(repo, before, after, clean)
  {
    forall y | y in repo.At(dir).alternates ensures y in after {
    }
  }

  /** A search that started with nothing visited and found nothing has seen the whole closure. */
  lemma {:induction false} ClosureExplored(repo: Repository, root: Dir, after: set<Dir>, clean: iset<Dir>)
    requires Explored(repo, {}, after, clean) && root in after
    ensures forall dir :: InClosure(repo, root, dir) ==> dir in clean
  {
    var nodes := iset x | x in after;
    assert Closed(repo.Edges(), nodes) by {
      forall x, y | x in nodes && x in repo.Edges() && y in repo.Edges()[x] ensures y in nodes {
        assert y in repo.At(x).alternates;
      }
    }
    forall dir | InClosure(repo, root, dir) ensures dir in clean {
      ClosedContains(repo.Edges(), nodes, root, dir);
    }
  }

  lemma {:induction false} ClosureStep(repo: Repository, dir: Dir, k: nat, far: Dir)
    requires k < |repo.At(dir).alternates| && InClosure(repo, repo.At(dir).alternates[k], far)
    ensures InClosure(repo, dir, far)
  {
    ReachesEdge(repo.Edges(), dir, repo.At(dir).alternates[k], far);
  }

  lemma {:induction false} ClosureSelf(repo: Repository, dir: Dir)
    ensures InClosure(repo, dir, dir)
  {
    ReachesSelf(repo.Edges(), dir);
  }

  lemma {:induction false} FewerDirs(all: set<Dir>, visited: set<Dir>, dir: Dir)
    requires dir in all && dir !in visited
    ensures |all - (visited + {dir})| < |all - visited|
  {
    assert all - visited == (all - (visited + {dir})) + {dir};
  }

  lemma {:induction false} NotMoreDirs(all: set<Dir>, before: set<Dir>, after: set<Dir>)
    requires before <= after
    ensures |all - after| <= |all - before|
  {
    assert all - before == (all - after) + (all * after - before);
  }

  /** The directories without `id`. */
  ghost function Without(repo: Repository, id: ObjectId): iset<Dir>
  {
    iset dir | !repo.Holds(dir, id)
  }

  class AlternatesSearch {
    const repo: Repository
    var visited: set<Dir>

    constructor (repo: Repository)
      ensures this.repo == repo && visited == {}
    {
      this.repo := repo;
      visited := {};
    }

    /** `contains_object_inner` with its loop over the alternates. */
    method ContainsObjectInner(dir: Dir, id: ObjectId) returns (r: Result<bool>)
      modifies this
      ensures id.algorithm != repo.algorithm ==> r == Err(InvalidInput)
      ensures id.algorithm == repo.algorithm ==> r.Ok?
      ensures r == Ok(true) ==> exists far :: InClosure(repo, dir, far) && repo.Holds(far, id)
      ensures r == Ok(false) ==> dir in visited && Explored(repo, old(visited), visited, Without(repo, id))
      ensures old(visited) <= visited
      decreases |repo.dirs.Keys - visited|, 1
    {
      hide InClosure, Exploring, Explored;
      if id.algorithm != repo.algorithm {
        return Err(InvalidInput);
      }
      if dir in visited {
        NothingExplored(repo, visited, Without(repo, id));
        return Ok(false);
      }
      visited := visited + {dir};
      ClosureSelf(repo, dir);
      if id in repo.At(dir).loose {
        return Ok(true);
      }
      if id in repo.At(dir).packed {
        return Ok(true);
      }
      ExploreStarts(repo, dir, old(visited), Without(repo, id));
      for k := 0 to |repo.At(dir).alternates|
        invariant old(visited) + {dir} <= visited
        invariant Exploring(repo, dir, old(visited), visited, Without(repo, id), k)
      {
        ghost var now := visited;
        FewerDirs(repo.dirs.Keys, old(visited), dir);
        NotMoreDirs(repo.dirs.Keys, old(visited) + {dir}, visited);
        var found := ContainsObjectInner(repo.At(dir).alternates[k], id);
        if found.value {
          ghost var far :| InClosure(repo, repo.At(dir).alternates[k], far) && repo.Holds(far, id);
          ClosureStep(repo, dir, k, far);
          return Ok(true);
        }
        ExploreNext(repo, dir, old(visited), now, visited, Without(repo, id), k);
      }
      ExploreEnds(repo, dir, old(visited), visited, Without(repo, id));
      return Ok(false);
    }

    /** `read_object_inner` with its loop over the alternates. */
    method ReadObjectInner(dir: Dir, id: ObjectId) returns (r: Result<Object>)
      requires repo.Valid()
      modifies this
      ensures id.algorithm != repo.algorithm ==> r == Err(InvalidInput)
      ensures id.algorithm == repo.algorithm && r != Err(NotFound) ==>
                exists far :: InClosure(repo, dir, far) && repo.Holds(far, id) && r == repo.Local(far, id)
      ensures id.algorithm == repo.algorithm && r == Err(NotFound) ==>
                dir in visited && Explored(repo, old(visited), visited, Without(repo, id))
      ensures old(visited) <= visited
      decreases |repo.dirs.Keys - visited|, 1
    {
      hide InClosure, Exploring, Explored;
      if id.algorithm != repo.algorithm {
        return Err(InvalidInput);
      }
      if dir in visited {
        NothingExplored(repo, visited, Without(repo, id));
        return Err(NotFound);
      }
      visited := visited + {dir};
      ClosureSelf(repo, dir);
      if id in repo.At(dir).loose {
        assert repo.Holds(dir, id);
        return repo.At(dir).loose[id];
      }
      if id in repo.At(dir).packed {
        assert repo.Holds(dir, id);
        return repo.At(dir).packed[id];
      }
      ExploreStarts(repo, dir, old(visited), Without(repo, id));
      for k := 0 to |repo.At(dir).alternates|
        invariant old(visited) + {dir} <= visited
        invariant Exploring(repo, dir, old(visited), visited, Without(repo, id), k)
      {
        ghost var now := visited;
        FewerDirs(repo.dirs.Keys, old(visited), dir);
        NotMoreDirs(repo.dirs.Keys, old(visited) + {dir}, visited);
        r := ReadObjectInner(repo.At(dir).alternates[k], id);
        if r != Err(NotFound) {
          ghost var far :| InClosure(repo, repo.At(dir).alternates[k], far) && repo.Holds(far, id)
                           && r == repo.Local(far, id);
          ClosureStep(repo, dir, k, far);
          return;
        }
        ExploreNext(repo, dir, old(visited), now, visited, Without(repo, id), k);
      }
      ExploreEnds(repo, dir, old(visited), visited, Without(repo, id));
      return Err(NotFound);
    }
  }

  lemma {:induction false} NothingExplored(repo: Repository, visited: set<Dir>, clean: iset<Dir>)
    ensures Explored(repo, visited, visited, clean)
  {
  }

  lemma {:induction false} ExploreStarts(repo: Repository, dir: Dir, before: set<Dir>, clean: iset<Dir>)
    requires dir in clean
    ensures Exploring(repo, dir, before, before + {dir}, clean, 0)
  {
  }

  /** Some directory of the closure holds the object. */
  ghost predicate Available(repo: Repository, root: Dir, id: ObjectId)
  {
    exists dir :: InClosure(repo, root, dir) && repo.Holds(dir, id)
  }

  /** `contains_object` looks through the whole closure, whatever cycles the alternates form. */
  method ContainsObject(repo: Repository, root: Dir, id: ObjectId) returns (r: Result<bool>)
    ensures r == if id.algorithm != repo.algorithm then Err(InvalidInput) else Ok(Available(repo, root, id))
  {
    hide InClosure;
    var search := new AlternatesSearch(repo);
    r := search.ContainsObjectInner(root, id);
    if r.Ok? {
      if !r.value { ClosureExplored(repo, root, search.visited, Without(repo, id)); }
      assert r.value == Available(repo, root, id);
    }
  }

  /** `read_object` finds an object exactly when `contains_object` does. */
  method ReadThroughAlternates(repo: Repository, root: Dir, id: ObjectId) returns (r: Result<Object>)
    requires repo.Valid()
    ensures id.algorithm != repo.algorithm ==> r == Err(InvalidInput)
    ensures id.algorithm == repo.algorithm ==> (r == Err(NotFound) <==> !Available(repo, root, id))
    ensures id.algorithm == repo.algorithm && Available(repo, root, id) ==>
              exists dir :: InClosure(repo, root, dir) && repo.Holds(dir, id) && r == repo.Local(dir, id)
  {
    hide InClosure;
    var search := new AlternatesSearch(repo);
    r := search.ReadObjectInner(root, id);
    if r == Err(NotFound) { ClosureExplored(repo, root, search.visited, Without(repo, id)); }
  }

  // ---- Abbreviated ids ---------------------------------------------------------------------

  predicate IsHexDigit(b: byte)
  {
    HexNibble(b).Some?
  }

  /** `validate_hex_prefix`. */
  predicate ValidPrefix(prefix: Bytes, algorithm: HashAlgorithm)
  {
    4 <= |prefix| <= algorithm.DigestLen() * 2 && forall i :: 0 <= i < |prefix| ==> IsHexDigit(prefix[i])
  }

  /** Four to forty hexadecimal digits of either case, or up to sixty-four for the longer ids. */
  lemma {:induction false} PrefixMeans(prefix: Bytes, algorithm: HashAlgorithm)
    ensures ValidPrefix(prefix, algorithm) <==>
            && 4 <= |prefix| <= (if algorithm == Sha1 then 40 else 64)
            && forall b :: b in prefix ==> 48 <= b <= 57 || 65 <= b <= 70 || 97 <= b <= 102
  {
    assert forall i :: 0 <= i < |prefix| ==> prefix[i] in prefix;
    if ValidPrefix(prefix, algorithm) {
      forall b | b in prefix ensures 48 <= b <= 57 || 65 <= b <= 70 || 97 <= b <= 102 {
        var i :| 0 <= i < |prefix| && prefix[i] == b;
      }
    }
  }

  function Lower(s: Bytes): (t: Bytes)
    ensures |t| == |s|
  {
    seq(|s|, i requires 0 <= i < |s| => LowerCase(s[i]))
  }

  /** Loose files are matched by name, and their names are lower case; pack indexes are matched by value. */
  predicate Matches(dir: ObjectDir, prefix: Bytes, id: ObjectId)
  {
    (id in dir.loose && prefix <= Hex(id.digest)) || (id in dir.packed && Lower(prefix) <= Hex(id.digest))
  }

  ghost predicate Candidate(repo: Repository, root: Dir, prefix: Bytes, id: ObjectId)
  {
    exists dir :: InClosure(repo, root, dir) && Matches(repo.At(dir), prefix, id)
  }

  /** What an abbreviation stands for: an object of the closure whose printed id starts with it, whatever the case. */
  ghost predicate Abbreviates(repo: Repository, root: Dir, prefix: Bytes, id: ObjectId)
  {
    Available(repo, root, id) && Lower(prefix) <= Hex(id.digest)
  }

  predicate HasUpperCase(prefix: Bytes)
  {
    exists k :: 0 <= k < |prefix| && 65 <= prefix[k] <= 90
  }

  /**
   * In all repositories the candidates are the abbreviated objects if and only if the abbreviation has no upper-case
   * digit.
   */
  lemma {:induction false} ExactForPrefix(algorithm: HashAlgorithm, prefix: Bytes)
    requires ValidPrefix(prefix, algorithm)
    ensures (forall repo: Repository, root, id :: repo.algorithm == algorithm ==>
               (Candidate(repo, root, prefix, id) <==> Abbreviates(repo, root, prefix, id)))
            <==> !HasUpperCase(prefix)
  {
    hide InClosure, Candidate, Abbreviates, ValidPrefix;
    if HasUpperCase(prefix) {
      var id := UpperCaseMissesObject(algorithm, prefix);
    } else {
      forall repo: Repository, root, id
        ensures Candidate(repo, root, prefix, id) <==> Abbreviates(repo, root, prefix, id)
      {
        LowerCaseMatches(repo, root, prefix, id);
      }
    }
  }

  lemma {:induction false} LowerCaseMatches(repo: Repository, root: Dir, prefix: Bytes, id: ObjectId)
    requires !HasUpperCase(prefix)
    ensures Candidate(repo, root, prefix, id) <==> Abbreviates(repo, root, prefix, id)
  {
    hide InClosure, Hex;
    assert Lower(prefix) == prefix;
  }

  /** A repository with one object, which is loose. */
  ghost function OneLoose(algorithm: HashAlgorithm, id: ObjectId): Repository
  {
    Repository(algorithm, map[0 := ObjectDir(map[id := Ok(Object(Blob, []))], map[], [])])
  }

  /**
   * Every abbreviation with an upper-case digit abbreviates some loose object that it does not find: nothing is a
   * candidate, so `ResolvePrefix` answers that there is no such object, unless it is given all digits of the id.
   */
  lemma {:induction false} UpperCaseMissesObject(algorithm: HashAlgorithm, prefix: Bytes) returns (id: ObjectId)
    requires ValidPrefix(prefix, algorithm) && HasUpperCase(prefix)
    ensures Abbreviates(OneLoose(algorithm, id), 0, prefix, id)
    ensures forall other :: !Candidate(OneLoose(algorithm, id), 0, prefix, other)
  {
    hide InClosure, FromHex, Hex;
    id := ObjectWithPrefix(algorithm, prefix);
    ClosureSelf(OneLoose(algorithm, id), 0);
    NotWritten(prefix, id);
    assert OneLoose(algorithm, id).Holds(0, id);
  }

  /** No printed id starts with such an abbreviation. */
  lemma {:induction false} NotWritten(prefix: Bytes, id: ObjectId)
    requires HasUpperCase(prefix)
    ensures !(prefix <= Hex(id.digest))
  {
    var k :| 0 <= k < |prefix| && 65 <= prefix[k] <= 90;
    HexIsLower(id.digest);
  }

  /** The object whose id is the abbreviation, filled up with zeros. */
  lemma {:induction false} ObjectWithPrefix(algorithm: HashAlgorithm, prefix: Bytes) returns (id: ObjectId)
    requires ValidPrefix(prefix, algorithm)
    ensures Lower(prefix) <= Hex(id.digest)
  {
    hide HexNibble, Hex, Unhex;
    var text: Bytes := prefix + seq(algorithm.DigestLen() * 2 - |prefix|, _ => 48);
    assert HexNibble(48).Some? by { DigitZero(); }
    DigitsUnhex(text);
    HexNormalizes(text);
    id := ObjectId(algorithm, Unhex(text).value);
    assert Lower(prefix) == Hex(id.digest)[..|prefix|];
  }

  lemma {:induction false} DigitZero()
    ensures HexNibble(48).Some?
  {
  }

  lemma {:induction false} DigitsUnhex(s: Bytes)
    requires |s| % 2 == 0 && forall i :: 0 <= i < |s| ==> HexNibble(s[i]).Some?
    ensures Unhex(s).Some?
  {
    if s != [] { DigitsUnhex(s[2..]); }
  }

  lemma {:induction false} HexIsLower(digest: Bytes)
    ensures forall i :: 0 <= i < |Hex(digest)| ==> !(65 <= Hex(digest)[i] <= 90)
  {
    if digest != [] { HexIsLower(digest[1..]); }
  }

  /** No directory of this set has a candidate other than `resolved`. */
  ghost function Settled(repo: Repository, prefix: Bytes, resolved: Option<ObjectId>): iset<Dir>
  {
    iset dir | forall id :: Matches(repo.At(dir), prefix, id) ==> resolved == Some(id)
  }

  class PrefixSearch {
    const repo: Repository
    const prefix: Bytes
    var visited: set<Dir>
    var resolved: Option<ObjectId>

    constructor (repo: Repository, prefix: Bytes)
      ensures this.repo == repo && this.prefix == prefix && visited == {} && resolved == None
    {
      this.repo := repo;
      this.prefix := prefix;
      visited := {};
      resolved := None;
    }

    /** `record_prefix_candidate`: the first candidate is kept, a different one is an error. */
    method RecordCandidate(candidate: ObjectId) returns (ambiguous: bool)
      modifies this
      ensures visited == old(visited)
      ensures resolved == if old(resolved) == None then Some(candidate) else old(resolved)
      ensures ambiguous <==> old(resolved).Some? && old(resolved).value != candidate
    {
      match resolved {
        case Some(existing) =>
          return existing != candidate;
        case None =>
          resolved := Some(candidate);
          return false;
      }
    }

    /** `collect_loose_prefix` and the pack lookup: every match of one directory, in whatever order it is listed. */
    method CollectLocal(dir: Dir) returns (ambiguous: bool)
      modifies this
      ensures visited == old(visited)
      ensures old(resolved).Some? ==> resolved == old(resolved)
      ensures old(resolved).None? && resolved.Some? ==> Matches(repo.At(dir), prefix, resolved.value)
      ensures !ambiguous ==> dir in Settled(repo, prefix, resolved)
      ensures ambiguous ==> resolved.Some? && exists id :: Matches(repo.At(dir), prefix, id) && id != resolved.value
    {
      hide Hex, Lower;
      var rest := repo.At(dir).loose.Keys;
      while rest != {}
        invariant visited == old(visited) && rest <= repo.At(dir).loose.Keys
        invariant old(resolved).Some? ==> resolved == old(resolved)
        invariant old(resolved).None? && resolved.Some? ==> Matches(repo.At(dir), prefix, resolved.value)
        invariant forall id :: id in repo.At(dir).loose && id !in rest && prefix <= Hex(id.digest) ==>
                  resolved == Some(id)
      {
        var id :| id in rest;
        rest := rest - {id};
        if prefix <= Hex(id.digest) {
          ambiguous := RecordCandidate(id);
          if ambiguous {
            assert Matches(repo.At(dir), prefix, id);
            return true;
          }
        }
      }
      rest := repo.At(dir).packed.Keys;
      while rest != {}
        invariant visited == old(visited) && rest <= repo.At(dir).packed.Keys
        invariant old(resolved).Some? ==> resolved == old(resolved)
        invariant old(resolved).None? && resolved.Some? ==> Matches(repo.At(dir), prefix, resolved.value)
        invariant forall id :: id in repo.At(dir).loose && prefix <= Hex(id.digest) ==> resolved == Some(id)
        invariant forall id :: id in repo.At(dir).packed && id !in rest && Lower(prefix) <= Hex(id.digest) ==>
                  resolved == Some(id)
      {
        var id :| id in rest;
        rest := rest - {id};
        if Lower(prefix) <= Hex(id.digest) {
          ambiguous := RecordCandidate(id);
          if ambiguous {
            assert Matches(repo.At(dir), prefix, id);
            return true;
          }
        }
      }
      return false;
    }

    /** `collect_prefix_inner`. */
    method CollectPrefixInner(dir: Dir) returns (ambiguous: bool)
      modifies this
      ensures old(visited) <= visited
      ensures old(resolved).Some? ==> resolved == old(resolved)
      ensures old(resolved).None? && resolved.Some? ==> Candidate(repo, dir, prefix, resolved.value)
      ensures !ambiguous ==> dir in visited && Explored(repo, old(visited), visited, Settled(repo, prefix, resolved))
      ensures ambiguous ==> resolved.Some? && exists id :: Candidate(repo, dir, prefix, id) && id != resolved.value
      decreases |repo.dirs.Keys - visited|, 1
    {
      hide InClosure, Exploring, Explored, Matches, Settled, Candidate;
      if dir in visited {
        NothingExplored(repo, visited, Settled(repo, prefix, resolved));
        return false;
      }
      visited := visited + {dir};
      ambiguous := CollectLocal(dir);
      LocalCandidates(repo, dir, prefix);
      if ambiguous {
        return;
      }
      ExploreStarts(repo, dir, old(visited), Settled(repo, prefix, resolved));
      for k := 0 to |repo.At(dir).alternates|
        invariant old(visited) + {dir} <= visited
        invariant old(resolved).Some? ==> resolved == old(resolved)
        invariant old(resolved).None? && resolved.Some? ==> Candidate(repo, dir, prefix, resolved.value)
        invariant Exploring(repo, dir, old(visited), visited, Settled(repo, prefix, resolved), k)
      {
        ghost var now, known := visited, resolved;
        FewerDirs(repo.dirs.Keys, old(visited), dir);
        NotMoreDirs(repo.dirs.Keys, old(visited) + {dir}, visited);
        AlternateCandidates(repo, dir, k, prefix);
        ambiguous := CollectPrefixInner(repo.At(dir).alternates[k]);
        if ambiguous {
          return;
        }
        SettledGrows(repo, prefix, known, resolved, dir, old(visited), now, k);
        ExploreNext(repo, dir, old(visited), now, visited, Settled(repo, prefix, resolved), k);
      }
      ExploreEnds(repo, dir, old(visited), visited, Settled(repo, prefix, resolved));
      return false;
    }
  }

  lemma {:induction false} LocalCandidates(repo: Repository, dir: Dir, prefix: Bytes)
    ensures forall id :: Matches(repo.At(dir), prefix, id) ==> Candidate(repo, dir, prefix, id)
  {
    hide Matches, InClosure;
    ClosureSelf(repo, dir);
  }

  lemma {:induction false} AlternateCandidates(repo: Repository, dir: Dir, k: nat, prefix: Bytes)
    requires k < |repo.At(dir).alternates|
    ensures forall id :: Candidate(repo, repo.At(dir).alternates[k], prefix, id) ==> Candidate(repo, dir, prefix, id)
  {
    hide Matches, InClosure;
    forall id | Candidate(repo, repo.At(dir).alternates[k], prefix, id) ensures Candidate(repo, dir, prefix, id) {
      var far :| InClosure(repo, repo.At(dir).alternates[k], far) && Matches(repo.At(far), prefix, id);
      ClosureStep(repo, dir, k, far);
    }
  }

  /** Directories without any candidate stay settled when the first candidate is found elsewhere. */
  lemma {:induction false} SettledGrows(repo: Repository, prefix: Bytes, known: Option<ObjectId>,
                                        resolved: Option<ObjectId>,
                                        dir: Dir, before: set<Dir>, now: set<Dir>, k: nat)
    requires known.Some? ==> resolved == known
    requires Exploring(repo, dir, before, now, Settled(repo, prefix, known), k)
    ensures Exploring(repo, dir, before, now, Settled(repo, prefix, resolved), k)
  {
    hide Matches;
    assert forall x :: x in Settled(repo, prefix, known) ==> x in Settled(repo, prefix, resolved);
  }

  /**
   * `resolve_prefix`: an abbreviation resolves exactly when the closure has one distinct candidate; a full-length id is
   * returned unchecked.
   */
  method ResolvePrefix(repo: Repository, root: Dir, prefix: Bytes) returns (r: Result<ObjectId>)
    ensures !ValidPrefix(prefix, repo.algorithm) ==> r == Err(InvalidInput)
    ensures ValidPrefix(prefix, repo.algorithm) && |prefix| == repo.algorithm.DigestLen() * 2 ==>
            r == FromHex(repo.algorithm, prefix)
    ensures ValidPrefix(prefix, repo.algorithm) && |prefix| < repo.algorithm.DigestLen() * 2 ==>
              && (forall id :: r == Ok(id) <==>
                    && Candidate(repo, root, prefix, id)
                    && forall other :: Candidate(repo, root, prefix, other) ==> other == id)
              && (r == Err(NotFound) <==> forall id :: !Candidate(repo, root, prefix, id))
              && (r == Err(InvalidInput) <==>
                    exists id, other ::
                        Candidate(repo, root, prefix, id) && Candidate(repo, root, prefix, other) && id != other)
  {
    hide FromHex, Candidate;
    if !ValidPrefix(prefix, repo.algorithm) {
      return Err(InvalidInput);
    }
    if |prefix| == repo.algorithm.DigestLen() * 2 {
      return FromHex(repo.algorithm, prefix);
    }
    var search := new PrefixSearch(repo, prefix);
    var ambiguous := search.CollectPrefixInner(root);
    if ambiguous {
      return Err(InvalidInput);
    }
    AllSettled(repo, root, prefix, search.visited, search.resolved);
    if search.resolved.None? {
      return Err(NotFound);
    }
    return Ok(search.resolved.value);
  }

  lemma {:induction false} AllSettled(repo: Repository, root: Dir, prefix: Bytes, visited: set<Dir>,
                                      resolved: Option<ObjectId>)
    requires root in visited && Explored(repo, {}, visited, Settled(repo, prefix, resolved))
    ensures forall id :: Candidate(repo, root, prefix, id) ==> resolved == Some(id)
  {
    hide Matches, InClosure;
    ClosureExplored(repo, root, visited, Settled(repo, prefix, resolved));
  }
}
