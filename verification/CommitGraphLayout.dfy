/**
 * What a commit-graph file says about a table of commits (gitformat-commit-graph(5)): `commit_graph.rs` reads back ids,
 * parents and generations, and its ancestry is that of the table.
 */
module CommitGraphLayout {
  import opened Common
  import opened ByteOrder
  import opened Objects
  import opened Graphs
  import opened Words
  import opened CommitGraphFile

  /** A commit of the table; its parents are positions. */
  datatype Row = Row(id: Bytes, tree: Bytes, parents: seq<nat>, generation: nat, date: nat)

  /** Everything fits into the fields of the file, and every parent is a row of the table. */
  ghost predicate Fits(table: seq<Row>)
  {
    && |table| <= 0x7000_0000
    && forall p :: 0 <= p < |table| ==>
         && |table[p].id| == 20 && |table[p].tree| == 20
         && table[p].generation < 0x4000_0000 && table[p].date < 0x4_0000_0000
         && forall i :: 0 <= i < |table[p].parents| ==> table[p].parents[i] < |table|
  }

  /** `part` stands in the file at this place. */
  predicate At(bytes: Bytes, at: nat, part: Bytes)
  {
    at + |part| <= |bytes| && bytes[at..at + |part|] == part
  }

  /** The number of ids whose first byte is at most `b`. */
  function IdsUpTo(table: seq<Row>, b: nat): (n: nat)
    requires forall p :: 0 <= p < |table| ==> |table[p].id| == 20
    ensures n <= |table|
  {
    if table == [] then 0
    else IdsUpTo(table[..|table| - 1], b) + if table[|table| - 1].id[0] <= b then 1 else 0
  }

  function FirstParentWord(parents: seq<nat>): nat
  {
    if parents == [] then 0x7000_0000 else parents[0]
  }

  /** `start` is where the list of the further parents begins in the EDGE chunk. */
  function SecondParentWord(parents: seq<nat>, start: nat): nat
  {
    if |parents| <= 1 then 0x7000_0000 else if |parents| == 2 then parents[1] else 0x8000_0000 + start
  }

  /** Parent `i` of a list in the EDGE chunk; the top bit marks the last one. */
  function EdgeWord(parents: seq<nat>, i: nat): nat
    requires i < |parents|
  {
    parents[i] + if i == |parents| - 1 then 0x8000_0000 else 0
  }

  /** The four words of a row behind the id of its tree. */
  ghost predicate RowAt(bytes: Bytes, at: nat, row: Row, start: nat)
    requires row.generation < 0x4000_0000 && row.date < 0x4_0000_0000 && start < 0x8000_0000
    requires forall i :: 0 <= i < |row.parents| ==> row.parents[i] < 0x7000_0000
  {
    && At(bytes, at, row.tree)
    && At(bytes, at + 20, U32(FirstParentWord(row.parents)))
    && At(bytes, at + 24, U32(SecondParentWord(row.parents, start)))
    && At(bytes, at + 28, U32(row.generation * 4 + row.date / 0x1_0000_0000))
    && At(bytes, at + 32, U32(row.date % 0x1_0000_0000))
  }

  /** The parents of a commit from the second on, in the EDGE chunk that starts at `edge`. */
  ghost predicate EdgesAt(bytes: Bytes, edge: nat, end: nat, parents: seq<nat>, start: nat)
    requires forall i :: 0 <= i < |parents| ==> parents[i] < 0x7000_0000
  {
    && edge + (start + |parents|) * 4 <= end + 4
    && forall i {:trigger EdgeWord(parents, i)} :: 1 <= i < |parents| ==>
         At(bytes, edge + (start + i - 1) * 4, U32(EdgeWord(parents, i)))
  }

  /** The file holds this table; `starts` says where each list of further parents begins. */
  ghost predicate LaidOut(g: CommitGraphIndex, table: seq<Row>, starts: seq<nat>)
    requires Fits(table)
  {
    && Shape(g) && g.count == |table| == |starts|
    && (forall p :: 0 <= p < |table| ==> starts[p] < 0x8000_0000)
    && (forall b: nat :: b < 256 ==> At(g.bytes, g.oidfStart + 4 * b, U32(IdsUpTo(table, b))))
    && (forall p :: 0 <= p < |table| ==> At(g.bytes, g.oidlStart + 20 * p, table[p].id))
    && (forall p :: 0 <= p < |table| ==> RowAt(g.bytes, g.cdatStart + 36 * p, table[p], starts[p]))
    && (forall p :: 0 <= p < |table| && |table[p].parents| > 2 ==>
          g.edge.Some? && EdgesAt(g.bytes, g.edge.value.0, g.edge.value.1, table[p].parents, starts[p]))
  }

  // ---- Reading the file --------------------------------------------------------------------

  lemma {:induction false} ReadAt(bytes: Bytes, at: nat, v: u32)
    requires At(bytes, at, U32(v))
    ensures at + 4 <= |bytes| && ReadU32(bytes, at) == v
  {
    hide U32, ReadU32;
    assert bytes == bytes[..at] + U32(v) + bytes[at + 4..];
    ReadOfU32(v, bytes[..at], bytes[at + 4..]);
  }

  lemma {:induction false} EdgeListRead(g: CommitGraphIndex, parents: seq<nat>, start: nat, k: nat)
    requires Shape(g) && g.edge.Some? && 1 <= k < |parents|
    requires forall i :: 0 <= i < |parents| ==> parents[i] < 0x7000_0000
    requires EdgesAt(g.bytes, g.edge.value.0, g.edge.value.1, parents, start)
    ensures EdgeList(g, g.edge.value.0 + (start + k - 1) * 4, g.edge.value.1) == Ok(parents[k..])
    decreases |parents| - k
  {
    hide U32, ReadU32;
    var cursor := g.edge.value.0 + (start + k - 1) * 4;
    var word := EdgeWord(parents, k);
    ReadAt(g.bytes, cursor, word);
    assert parents[k..] == [parents[k]] + parents[k + 1..];
    if k + 1 < |parents| {
      EdgeListRead(g, parents, start, k + 1);
    } else {
      assert parents[k..] == [parents[k]];
    }
  }

  /** Every row gives back its parents, however many they are, its generation and its id. */
  lemma {:induction false} RowRead(g: CommitGraphIndex, table: seq<Row>, starts: seq<nat>, p: nat)
    requires Fits(table) && LaidOut(g, table, starts) && p < |table|
    ensures Parents(g, p) == Ok(table[p].parents)
    ensures Generation(g, p) == Some(table[p].generation)
    ensures IdAt(g, p) == Some(ObjectId(Sha1, table[p].id))
  {
    hide U32, ReadU32, EdgeList, EdgesAt;
    var row, at := table[p], g.cdatStart + 36 * p;
    assert RowAt(g.bytes, at, row, starts[p]);
    ReadAt(g.bytes, at + 20, FirstParentWord(row.parents));
    ReadAt(g.bytes, at + 24, SecondParentWord(row.parents, starts[p]));
    ReadAt(g.bytes, at + 28, row.generation * 4 + row.date / 0x1_0000_0000);
    assert At(g.bytes, g.oidlStart + 20 * p, row.id);
    if |row.parents| > 2 {
      EdgeListRead(g, row.parents, starts[p], 1);
      assert row.parents == [row.parents[0]] + row.parents[1..];
    } else if |row.parents| == 2 {
      assert row.parents == [row.parents[0]] + [row.parents[1]];
    } else if |row.parents| == 1 {
      assert row.parents == [row.parents[0]];
    }
  }

  // ---- The table as a graph ----------------------------------------------------------------

  /** Strictly sorted ids, and no parent with a larger generation number. */
  ghost predicate WellOrdered(table: seq<Row>)
    requires Fits(table)
  {
    && (forall p, q :: 0 <= p < q < |table| ==> Less(table[p].id, table[q].id))
    && forall p: nat, q: nat {:trigger q in table[p].parents} ::
         p < |table| && q in table[p].parents ==> table[q].generation <= table[p].generation
  }

  ghost function TableEdges(table: seq<Row>): Edges<nat>
  {
    map p: nat | p < |table| :: table[p].parents
  }

  /** A topological order of the table. */
  ghost predicate TableRanked(table: seq<Row>, rank: seq<nat>)
  {
    |rank| == |table| && forall p: nat, q: nat {:trigger q in table[p].parents} ::
      p < |table| && q < |table| && q in table[p].parents ==> rank[q] < rank[p]
  }

  lemma {:induction false} FanoutRead(g: CommitGraphIndex, table: seq<Row>, starts: seq<nat>, b: nat)
    requires Fits(table) && LaidOut(g, table, starts) && b < 256
    ensures Fanout(g, b) == IdsUpTo(table, b)
  {
    hide U32, ReadU32, IdsUpTo;
    assert At(g.bytes, g.oidfStart + 4 * b, U32(IdsUpTo(table, b)));
    ReadAt(g.bytes, g.oidfStart + 4 * b, IdsUpTo(table, b));
  }

  /** In a sorted table the count of the small ids is where they end. */
  lemma {:induction false} SmallIdsFirst(table: seq<Row>, b: nat, p: nat)
    requires forall q :: 0 <= q < |table| ==> |table[q].id| == 20
    requires forall q, r :: 0 <= q < r < |table| ==> Less(table[q].id, table[r].id)
    requires p < |table|
    ensures table[p].id[0] <= b <==> p < IdsUpTo(table, b)
  {
    var n := |table| - 1;
    var init := table[..n];
    if p < n {
      SmallIdsFirst(init, b, p);
    } else if n > 0 {
      SmallIdsFirst(init, b, n - 1);
      FirstBytes(table[n - 1].id, table[n].id);
    }
  }

  lemma {:induction false} FirstBytes(a: Bytes, b: Bytes)
    requires Less(a, b) && a != []
    ensures b != [] && a[0] <= b[0]
  {
  }

  /**
   * A file that holds a well-ordered table is sorted, consistent and acyclic, and its ancestry is that of the table.
   */
  lemma {:induction false} AncestryOfTable(g: CommitGraphIndex, table: seq<Row>, starts: seq<nat>)
    requires Fits(table) && LaidOut(g, table, starts) && WellOrdered(table)
    ensures FanoutInRange(g) && SortedIds(g) && Consistent(g)
    ensures ParentEdges(g) == TableEdges(table)
    ensures forall rank :: TableRanked(table, rank) ==> Ranked(g, rank)
    ensures forall p: nat :: IdAt(g, p) == if p < |table| then Some(ObjectId(Sha1, table[p].id)) else None
  {
    hide LaidOut, Parents, Generation, Fanout, OidAt, IdsUpTo, Less;
    LaidOutShape(g, table, starts);
    forall p: nat | p < |table|
      ensures Parents(g, p) == Ok(table[p].parents) && Generation(g, p) == Some(table[p].generation)
      ensures OidAt(g, p) == table[p].id
    {
      RowRead(g, table, starts, p);
    }
    forall b: nat | b < 256 ensures Fanout(g, b) <= g.count {
      FanoutRead(g, table, starts, b);
    }
    forall b: nat, p: nat | b < 256 && p < g.count ensures OidAt(g, p)[0] <= b <==> p < Fanout(g, b) {
      FanoutRead(g, table, starts, b);
      SmallIdsFirst(table, b, p);
    }
    forall p: nat, q: nat | p < g.count && q in Parents(g, p).value
      ensures q < g.count && Generation(g, q).value <= Generation(g, p).value
    {
      assert q in table[p].parents;
    }
    assert Consistent(g);
    assert ParentEdges(g) == TableEdges(table);
    forall rank: seq<nat> | TableRanked(table, rank) ensures Ranked(g, rank) {
      forall p: nat, q: nat | p < g.count && q < g.count && Parents(g, p).Ok? && q in Parents(g, p).value
        ensures rank[q] < rank[p]
      {
        assert q in table[p].parents;
      }
    }
  }

  lemma {:induction false} LaidOutShape(g: CommitGraphIndex, table: seq<Row>, starts: seq<nat>)
    requires Fits(table) && LaidOut(g, table, starts)
    ensures Shape(g) && g.count == |table|
  {
  }

  // ---- A file for every table --------------------------------------------------------------

  function Blocks(blocks: seq<Bytes>): Bytes
  {
    if blocks == [] then [] else Blocks(blocks[..|blocks| - 1]) + blocks[|blocks| - 1]
  }

  lemma {:induction false} BlockAt(before: Bytes, blocks: seq<Bytes>, after: Bytes, n: nat, i: nat)
    requires forall k :: 0 <= k < |blocks| ==> |blocks[k]| == n
    ensures |Blocks(blocks)| == n * |blocks|
    ensures i < |blocks| ==> At(before + Blocks(blocks) + after, |before| + n * i, blocks[i])
  {
    if blocks != [] {
      var m := |blocks| - 1;
      var init, last := Blocks(blocks[..m]), blocks[m];
      BlockAt(before, blocks[..m], last + after, n, i);
      OneMore(n, m);
      assert before + Blocks(blocks) + after == before + init + (last + after);
      if i == m {
        assert before + Blocks(blocks) + after == before + init + last + after;
        LastAt(before + init, last, after);
      }
    }
  }

  lemma {:induction false} OneMore(n: nat, m: nat)
    ensures n * (m + 1) == n * m + n
  {
  }

  lemma {:induction false} LastAt(before: Bytes, part: Bytes, after: Bytes)
    ensures At(before + part + after, |before|, part)
  {
  }

  function RowText(row: Row, start: nat): (s: Bytes)
    requires |row.tree| == 20 && row.generation < 0x4000_0000 && row.date < 0x4_0000_0000 && start < 0x8000_0000
    requires forall i :: 0 <= i < |row.parents| ==> row.parents[i] < 0x7000_0000
    ensures |s| == 36
  {
    row.tree + U32(FirstParentWord(row.parents)) + U32(SecondParentWord(row.parents, start))
    + U32(row.generation * 4 + row.date / 0x1_0000_0000) + U32(row.date % 0x1_0000_0000)
  }

  /** The words for the parents of a commit from the second on, if there are more than two. */
  function EdgeTexts(parents: seq<nat>, k: nat): (blocks: seq<Bytes>)
    requires 1 <= k && forall i :: 0 <= i < |parents| ==> parents[i] < 0x7000_0000
    ensures forall i :: 0 <= i < |blocks| ==> |blocks[i]| == 4
    ensures |blocks| == if k < |parents| then |parents| - k else 0
    ensures forall i :: 0 <= i < |blocks| ==> blocks[i] == U32(EdgeWord(parents, k + i))
    decreases |parents| - k
  {
    if k >= |parents| then [] else [U32(EdgeWord(parents, k))] + EdgeTexts(parents, k + 1)
  }

  /** The EDGE chunk for the first `n` commits. */
  function EdgeBlocks(table: seq<Row>, n: nat): (blocks: seq<Bytes>)
    requires Fits(table) && n <= |table|
    ensures forall i :: 0 <= i < |blocks| ==> |blocks[i]| == 4
  {
    if n == 0 then []
    else EdgeBlocks(table, n - 1) + if |table[n - 1].parents| > 2 then EdgeTexts(table[n - 1].parents, 1) else []
  }

  lemma {:induction false} EdgeBlocksGrow(table: seq<Row>, m: nat, n: nat)
    requires Fits(table) && m <= n <= |table|
    ensures EdgeBlocks(table, m) <= EdgeBlocks(table, n)
    decreases n
  {
    if m < n { EdgeBlocksGrow(table, m, n - 1); }
  }

  ghost function Starts(table: seq<Row>): (starts: seq<nat>)
    requires Fits(table)
    ensures |starts| == |table|
  {
    seq(|table|, p requires 0 <= p < |table| => |EdgeBlocks(table, p)|)
  }

  /** Every table that fits is held by some file. */
  lemma {:induction false} EveryTableHasFile(table: seq<Row>) returns (g: CommitGraphIndex)
    requires Fits(table) && |EdgeBlocks(table, |table|)| < 0x8000_0000
    ensures LaidOut(g, table, Starts(table))
  {
    hide U32, IdsUpTo, EdgeBlocks, RowAt, EdgesAt, Blocks, At, RowText;
    var n, starts := |table|, Starts(table);
    forall p | 0 <= p < n ensures starts[p] < 0x8000_0000 { EdgeBlocksGrow(table, p, n); }
    var counts := seq(256, b requires 0 <= b < 256 => U32(IdsUpTo(table, b)));
    var ids := seq(n, p requires 0 <= p < n => table[p].id);
    var rows := seq(n, p requires 0 <= p < n => RowText(table[p], starts[p]));
    var edges := EdgeBlocks(table, n);
    var a, b, c, d := Blocks(counts), Blocks(ids), Blocks(rows), Blocks(edges);
    var bytes := a + b + c + d;
    BlockAt([], counts, b + c + d, 4, 256);
    BlockAt(a, ids, c + d, 20, n);
    BlockAt(a + b, rows, d, 36, n);
    BlockAt(a + b + c, edges, [], 4, |edges|);
    assert |a| == 1024 && |b| == 20 * n && |c| == 36 * n && |d| == 4 * |edges|;
    g := CommitGraphIndex(bytes, 0, 1024, 1024 + 20 * n, Some((1024 + 56 * n, |bytes|)), n);
    forall k: nat | k < 256 ensures At(bytes, 4 * k, U32(IdsUpTo(table, k))) {
      BlockAt([], counts, b + c + d, 4, k);
      assert [] + a + (b + c + d) == bytes;
    }
    forall p | 0 <= p < n ensures At(bytes, 1024 + 20 * p, table[p].id) {
      BlockAt(a, ids, c + d, 20, p);
      assert a + b + (c + d) == bytes;
    }
    forall p | 0 <= p < n ensures RowAt(bytes, 1024 + 20 * n + 36 * p, table[p], starts[p]) {
      BlockAt(a + b, rows, d, 36, p);
      RowWritten(bytes, 1024 + 20 * n + 36 * p, table[p], starts[p]);
    }
    forall p | 0 <= p < n && |table[p].parents| > 2
      ensures EdgesAt(bytes, 1024 + 56 * n, |bytes|, table[p].parents, starts[p])
    {
      assert a + b + c + d + [] == bytes;
      EdgesWritten(table, a + b + c, p);
    }
  }

  lemma {:induction false} RowWritten(bytes: Bytes, at: nat, row: Row, start: nat)
    requires |row.tree| == 20 && row.generation < 0x4000_0000 && row.date < 0x4_0000_0000 && start < 0x8000_0000
    requires forall i :: 0 <= i < |row.parents| ==> row.parents[i] < 0x7000_0000
    requires At(bytes, at, RowText(row, start))
    ensures RowAt(bytes, at, row, start)
  {
    hide U32;
    var text := RowText(row, start);
    assert text[0..20] == row.tree;
    assert text[20..24] == U32(FirstParentWord(row.parents));
    assert text[24..28] == U32(SecondParentWord(row.parents, start));
    assert text[28..32] == U32(row.generation * 4 + row.date / 0x1_0000_0000);
    assert text[32..36] == U32(row.date % 0x1_0000_0000);
    PartAt(bytes, at, text, 0, row.tree);
    PartAt(bytes, at, text, 20, U32(FirstParentWord(row.parents)));
    PartAt(bytes, at, text, 24, U32(SecondParentWord(row.parents, start)));
    PartAt(bytes, at, text, 28, U32(row.generation * 4 + row.date / 0x1_0000_0000));
    PartAt(bytes, at, text, 32, U32(row.date % 0x1_0000_0000));
  }

  lemma {:induction false} PartAt(bytes: Bytes, at: nat, text: Bytes, i: nat, part: Bytes)
    requires At(bytes, at, text) && i + |part| <= |text| && text[i..i + |part|] == part
    ensures At(bytes, at + i, part)
  {
    SliceOfSlice(bytes, at, at + |text|, i, i + |part|);
  }

  lemma {:induction false} EdgesWritten(table: seq<Row>, before: Bytes, p: nat)
    requires Fits(table) && p < |table| && |table[p].parents| > 2
    ensures var bytes := before + Blocks(EdgeBlocks(table, |table|)) + [];
            EdgesAt(bytes, |before|, |bytes|, table[p].parents, |EdgeBlocks(table, p)|)
  {
    hide U32, Blocks, At;
    var parents, all, start := table[p].parents, EdgeBlocks(table, |table|), |EdgeBlocks(table, p)|;
    EdgeBlocksGrow(table, p + 1, |table|);
    BlockAt(before, all, [], 4, 0);
    var upTo := EdgeBlocks(table, p) + EdgeTexts(parents, 1);
    assert upTo == EdgeBlocks(table, p + 1) <= all;
    forall i | 1 <= i < |parents|
      ensures At(before + Blocks(all) + [], |before| + (start + i - 1) * 4, U32(EdgeWord(parents, i)))
    {
      assert all[start + i - 1] == upTo[start + i - 1] == EdgeTexts(parents, 1)[i - 1];
      BlockAt(before, all, [], 4, start + i - 1);
    }
  }
}
