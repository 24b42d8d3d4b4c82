/** The commit-graph file: lookup and parents (`commit_graph.rs`; gitformat-commit-graph(5)). */
module CommitGraphFile {
  import opened Common
  import opened ByteOrder
  import opened Objects
  import opened Graphs
  import opened Words

  const DIGEST_LEN := 20
  const ROW_LEN := 36
  const GRAPH_PARENT_NONE := 0x7000_0000
  /** `value & 0x7fff_ffff` is `value % 0x8000_0000`; the top bit is set exactly from `0x8000_0000` on. */
  const TOP_BIT := 0x8000_0000

  /** `CommitGraphIndex`: the file and where its chunks are. `digest_len` is always that of SHA-1. */
  datatype CommitGraphIndex = CommitGraphIndex(
    bytes: Bytes, oidfStart: nat, oidlStart: nat, cdatStart: nat, edge: Option<(nat, nat)>, count: nat)

  /** The chunks lie inside the file: what `from_bytes` checks. */
  ghost predicate Shape(g: CommitGraphIndex)
  {
    && g.oidfStart + 1024 <= |g.bytes|
    && g.oidlStart + g.count * DIGEST_LEN <= |g.bytes|
    && g.cdatStart + g.count * ROW_LEN <= |g.bytes|
    && (g.edge.Some? ==> g.edge.value.1 <= |g.bytes|)
  }

  function Fanout(g: CommitGraphIndex, b: nat): nat
    requires Shape(g) && b < 256
  {
    ReadU32(g.bytes, g.oidfStart + b * 4)
  }

  function OidAt(g: CommitGraphIndex, p: nat): (oid: Bytes)
    requires Shape(g) && p < g.count
    ensures |oid| == DIGEST_LEN
  {
    g.bytes[g.oidlStart + p * DIGEST_LEN..g.oidlStart + p * DIGEST_LEN + DIGEST_LEN]
  }

  function IdAt(g: CommitGraphIndex, p: nat): Option<ObjectId>
    requires Shape(g)
  {
    if p >= g.count then None else Some(ObjectId(Sha1, OidAt(g, p)))
  }

  // ---- Position lookup ---------------------------------------------------------------------

  /** No fanout value points past the id table. */
  ghost predicate FanoutInRange(g: CommitGraphIndex)
    requires Shape(g)
  {
    forall b :: 0 <= b < 256 ==> Fanout(g, b) <= g.count
  }

  /** The id table is strictly sorted and the fanout counts the ids up to each first byte. */
  ghost predicate SortedIds(g: CommitGraphIndex)
    requires Shape(g)
  {
    && (forall p, q :: 0 <= p < q < g.count ==> Less(OidAt(g, p), OidAt(g, q)))
    && (forall b, p :: 0 <= b < 256 && 0 <= p < g.count ==> (OidAt(g, p)[0] <= b <==> p < Fanout(g, b)))
  }

  /** `position`: a binary search between two fanout counts. On a sorted table it is the inverse of `id_at`. */
  method Position(g: CommitGraphIndex, id: ObjectId) returns (r: Option<nat>)
    requires Shape(g) && FanoutInRange(g)
    ensures r.Some? ==> r.value < g.count && IdAt(g, r.value) == Some(id)
    ensures SortedIds(g) ==> forall p :: r == Some(p) <==> 0 <= p < g.count && IdAt(g, p) == Some(id)
  {
    hide Less;
    if id.algorithm != Sha1 {
      return None;
    }
    var first := id.digest[0];
    var start := if first == 0 then 0 else Fanout(g, first - 1);
    var end := Fanout(g, first);
    var low: nat, high: nat := start, end;
    while low < high
      invariant low <= g.count && high <= g.count
      invariant SortedIds(g) ==> forall p :: 0 <= p < g.count && OidAt(g, p) == id.digest ==> low <= p < high
    {
      var mid := low + (high - low) / 2;
      var order := Compare(OidAt(g, mid), id.digest);
      match order {
        case Lt =>
          if SortedIds(g) { LowHalf(g, id.digest, mid); }
          low := mid + 1;
        case Gt =>
          if SortedIds(g) { HighHalf(g, id.digest, mid); }
          high := mid;
        case Eq =>
          if SortedIds(g) { OnlyPosition(g, mid); }
          return Some(mid);
      }
    }
    return None;
  }

  lemma {:induction false} LowHalf(g: CommitGraphIndex, digest: Bytes, mid: nat)
    requires Shape(g) && SortedIds(g) && mid < g.count && Less(OidAt(g, mid), digest)
    ensures forall p :: 0 <= p < g.count && OidAt(g, p) == digest ==> mid < p
  {
    forall p | 0 <= p <= mid && OidAt(g, p) == digest ensures false {
      LessIrreflexive(digest);
      if p < mid { LessTransitive(OidAt(g, p), OidAt(g, mid), digest); }
    }
  }

  lemma {:induction false} HighHalf(g: CommitGraphIndex, digest: Bytes, mid: nat)
    requires Shape(g) && SortedIds(g) && mid < g.count && Compare(OidAt(g, mid), digest) == Gt
    ensures forall p :: 0 <= p < g.count && OidAt(g, p) == digest ==> p < mid
  {
    LessTotal(OidAt(g, mid), digest);
    forall p | mid <= p < g.count && OidAt(g, p) == digest ensures false {
    }
  }

  lemma {:induction false} OnlyPosition(g: CommitGraphIndex, mid: nat)
    requires Shape(g) && SortedIds(g) && mid < g.count
    ensures forall p :: 0 <= p < g.count && OidAt(g, p) == OidAt(g, mid) ==> p == mid
  {
    forall p | 0 <= p < g.count && OidAt(g, p) == OidAt(g, mid) ensures p == mid {
      LessIrreflexive(OidAt(g, mid));
    }
  }

  // ---- Commit data -------------------------------------------------------------------------

  /** The generation number shares its word with two bits of the commit date. */
  function Generation(g: CommitGraphIndex, p: nat): Option<nat>
    requires Shape(g)
  {
    if p >= g.count then None else Some(ReadU32(g.bytes, g.cdatStart + p * ROW_LEN + DIGEST_LEN + 8) / 4)
  }

  /** The parents from the third on, up to the entry with the top bit set. */
  function EdgeList(g: CommitGraphIndex, cursor: nat, end: nat): Result<seq<nat>>
    requires end <= |g.bytes|
    decreases end - cursor
  {
    if cursor + 4 > end then Err(InvalidData) else
    var edge := ReadU32(g.bytes, cursor);
    if edge >= TOP_BIT then Ok([edge % TOP_BIT]) else
    var rest := EdgeList(g, cursor + 4, end);
    if rest.Err? then rest else Ok([edge % TOP_BIT] + rest.value)
  }

  /** The parents of a commit: two in its row, or one in its row and the others in the EDGE chunk. */
  function Parents(g: CommitGraphIndex, p: nat): Result<seq<nat>>
    requires Shape(g)
  {
    if p >= g.count then Err(InvalidData) else
    var first := ReadU32(g.bytes, g.cdatStart + p * ROW_LEN + DIGEST_LEN);
    var second := ReadU32(g.bytes, g.cdatStart + p * ROW_LEN + DIGEST_LEN + 4);
    var head := if first != GRAPH_PARENT_NONE then [first % TOP_BIT] else [];
    if second == GRAPH_PARENT_NONE then Ok(head)
    else if second < TOP_BIT then Ok(head + [second % TOP_BIT])
    else if g.edge.None? then Err(InvalidData)
    else
      var rest := EdgeList(g, g.edge.value.0 + (second % TOP_BIT) * 4, g.edge.value.1);
      if rest.Err? then rest else Ok(head + rest.value)
  }

  method ParentPositions(g: CommitGraphIndex, p: nat) returns (r: Result<seq<nat>>)
    requires Shape(g)
    ensures r == Parents(g, p)
  {
    if p >= g.count {
      return Err(InvalidData);
    }
    var row := g.cdatStart + p * ROW_LEN;
    var first := ReadU32(g.bytes, row + DIGEST_LEN);
    var second := ReadU32(g.bytes, row + DIGEST_LEN + 4);
    var out := [];
    if first != GRAPH_PARENT_NONE {
      out := [first % TOP_BIT];
    }
    if second == GRAPH_PARENT_NONE {
      return Ok(out);
    }
    if second < TOP_BIT {
      return Ok(out + [second % TOP_BIT]);
    }
    if g.edge.None? {
      return Err(InvalidData);
    }
    var edgeEnd := g.edge.value.1;
    var cursor := g.edge.value.0 + (second % TOP_BIT) * 4;
    ghost var head, start := out, cursor;
    while cursor + 4 <= edgeEnd
      invariant var whole, rest := EdgeList(g, start, edgeEnd), EdgeList(g, cursor, edgeEnd);
                if rest.Err? then whole.Err? && whole == rest else whole.Ok? && head + whole.value == out + rest.value
      decreases edgeEnd - cursor
    {
      var edge := ReadU32(g.bytes, cursor);
      ghost var rest := EdgeList(g, cursor + 4, edgeEnd);
      if rest.Ok? { ConcatAssoc(out, [edge % TOP_BIT], rest.value); }
      assert edge >= TOP_BIT ==> EdgeList(g, cursor, edgeEnd) == Ok([edge % TOP_BIT]);
      out := out + [edge % TOP_BIT];
      cursor := cursor + 4;
      if edge >= TOP_BIT {
        return Ok(out);
      }
    }
    return Err(InvalidData);
  }

  // ---- Ancestry ----------------------------------------------------------------------------

  /** A topological order of the parent edges: there is one exactly when the graph has no cycle. */
  ghost predicate Ranked(g: CommitGraphIndex, rank: seq<nat>)
    requires Shape(g)
  {
    && |rank| == g.count
    && forall p: nat, q: nat {:trigger q in Parents(g, p).value} ::
         p < g.count && q < g.count && Parents(g, p).Ok? && q in Parents(g, p).value ==> rank[q] < rank[p]
  }

  /** Every row decodes, every parent exists, and no parent has a larger generation number. */
  ghost predicate Consistent(g: CommitGraphIndex)
    requires Shape(g)
  {
    && (forall p: nat :: p < g.count ==> Parents(g, p).Ok?)
    && (forall p: nat, q: nat {:trigger q in Parents(g, p).value} :: p < g.count && q in Parents(g, p).value ==>
          q < g.count && Generation(g, q).value <= Generation(g, p).value)
  }

  ghost function ParentEdges(g: CommitGraphIndex): (edges: Edges<nat>)
    requires Shape(g) && Consistent(g)
    ensures forall p :: p in edges <==> 0 <= p < g.count
    ensures forall p :: p in edges ==> edges[p] == Parents(g, p).value
  {
    map p | 0 <= p < g.count :: Parents(g, p).value
  }

  /** `a` is `d` or one of its ancestors. */
  ghost predicate IsAncestorOf(g: CommitGraphIndex, a: nat, d: nat)
    requires Shape(g) && Consistent(g)
  {
    Reaches(ParentEdges(g), d, a)
  }

  ghost function Generations(g: CommitGraphIndex): (gens: seq<nat>)
    requires Shape(g)
    ensures |gens| == g.count && forall p :: 0 <= p < g.count ==> Generation(g, p) == Some(gens[p])
  {
    seq(g.count, p requires 0 <= p < g.count => Generation(g, p).value)
  }
}
