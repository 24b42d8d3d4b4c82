/** Object ids, kinds and stores (`object.rs`, `object_store.rs`). */
module Objects {
  import opened Common

  datatype HashAlgorithm = Sha1 | Sha256 {
    function DigestLen(): nat {
      if Sha1? then 20 else 32
    }
  }

  datatype ObjectKind = Blob | Tree | Commit | Tag

  datatype RawObjectId = ObjectId(algorithm: HashAlgorithm, digest: Bytes)

  type ObjectId = id: RawObjectId | |id.digest| == id.algorithm.DigestLen()
    witness RawObjectId.ObjectId(Sha1, seq(20, _ => 0))

  datatype Object = Object(kind: ObjectKind, content: Bytes)

  /** A fixed snapshot of a store: what every read of the reading algorithms sees. */
  datatype Store = Store(algorithm: HashAlgorithm, objects: map<ObjectId, Object>)

  function ReadObject(store: Store, id: ObjectId): Result<Object>
  {
    if id.algorithm != store.algorithm then Err(InvalidInput)
    else if id !in store.objects then Err(NotFound)
    else Ok(store.objects[id])
  }

  /** The content hash of an object (`hash_object`), left abstract: it only has to produce ids of `algorithm`. */
  type ObjectHash = (ObjectKind, Bytes) -> ObjectId

  ghost predicate HashesInto(hash: ObjectHash, algorithm: HashAlgorithm)
  {
    forall kind, content :: hash(kind, content).algorithm == algorithm
  }

  /** No two of these objects share an id. */
  ghost predicate CollisionFree(hash: ObjectHash, objects: set<Object>)
  {
    forall x, y :: x in objects && y in objects && hash(x.kind, x.content) == hash(y.kind, y.content) ==> x == y
  }

  /** Every object is stored under its own hash. */
  ghost predicate ContentAddressed(store: Store, hash: ObjectHash)
  {
    forall id :: id in store.objects ==> hash(store.objects[id].kind, store.objects[id].content) == id
  }

  class InMemoryObjectStore {
    const algorithm: HashAlgorithm
    const hash: ObjectHash
    var objects: map<ObjectId, Object>

    constructor (algorithm: HashAlgorithm, hash: ObjectHash)
      ensures this.algorithm == algorithm && this.hash == hash && objects == map[]
    {
      this.algorithm := algorithm;
      this.hash := hash;
      objects := map[];
    }

    function Snapshot(): Store
      reads this
    {
      Store(algorithm, objects)
    }

    /** Insert if absent: an id that is already present keeps its object. */
    method WriteObject(kind: ObjectKind, content: Bytes) returns (id: ObjectId)
      modifies this
      ensures id == hash(kind, content)
      ensures objects == if id in old(objects) then old(objects) else old(objects)[id := Object(kind, content)]
    {
      id := hash(kind, content);
      if id !in objects {
        objects := objects[id := Object(kind, content)];
      }
    }
  }
}
