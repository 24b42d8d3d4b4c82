/**
 * Gathering index entries into nested directories (`tree.rs`, TreeNode::insert and the loop of write_tree_from_index).
 */
module TreeBuild {
  import opened Common
  import opened Objects
  import opened TreeCodec
  import opened Index

  datatype Leaf = Leaf(mode: IndexMode, id: ObjectId)

  /** A directory being built: `TreeNode` with its two ordered maps. */
  datatype TreeNode = TreeNode(children: map<Bytes, TreeNode>, leaves: map<Bytes, Leaf>)

  const EMPTY_NODE := TreeNode(map[], map[])

  /** `TreeNode::insert` on the components of a path. */
  function Insert(node: TreeNode, parts: seq<Bytes>, leaf: Leaf): Result<TreeNode>
    requires parts != []
    decreases |parts|
  {
    var part := parts[0];
    if part == [] then Err(InvalidInput)
    else if |parts| == 1 then
      if part in node.children then Err(InvalidInput) else Ok(node.(leaves := node.leaves[part := leaf]))
    else if part in node.leaves then Err(InvalidInput)
    else
      var child := Insert(if part in node.children then node.children[part] else EMPTY_NODE, parts[1..], leaf);
      if child.Err? then child else Ok(node.(children := node.children[part := child.value]))
  }

  /** The file a node holds at a path. */
  function Lookup(node: TreeNode, parts: seq<Bytes>): Option<Leaf>
    decreases |parts|
  {
    if parts == [] then None
    else if |parts| == 1 then (if parts[0] in node.leaves then Some(node.leaves[parts[0]]) else None)
    else if parts[0] in node.children then Lookup(node.children[parts[0]], parts[1..])
    else None
  }

  predicate HasDir(node: TreeNode, parts: seq<Bytes>)
    decreases |parts|
  {
    parts == [] || (parts[0] in node.children && HasDir(node.children[parts[0]], parts[1..]))
  }

  ghost predicate NoFileAbove(node: TreeNode, parts: seq<Bytes>)
  {
    forall k :: 0 < k < |parts| ==> Lookup(node, parts[..k]).None?
  }

  predicate NoEmptyPart(parts: seq<Bytes>)
  {
    forall i :: 0 <= i < |parts| ==> parts[i] != []
  }

  predicate ProperPrefix(p: seq<Bytes>, q: seq<Bytes>)
  {
    p <= q && |p| < |q|
  }

  /**
   * Insertion is refused for an empty component, a directory in the way, or a file in the way, and for nothing else.
   */
  lemma {:induction false} InsertAccepts(node: TreeNode, parts: seq<Bytes>, leaf: Leaf)
    requires parts != []
    ensures Insert(node, parts, leaf).Ok? <==> NoEmptyPart(parts) && !HasDir(node, parts) && NoFileAbove(node, parts)
    decreases |parts|
  {
    if |parts| == 1 {
      assert HasDir(node, parts) <==> parts[0] in node.children;
    } else {
      var part, rest := parts[0], parts[1..];
      var child := if part in node.children then node.children[part] else EMPTY_NODE;
      InsertAccepts(child, rest, leaf);
      assert NoEmptyPart(parts) <==> part != [] && NoEmptyPart(rest) by {
        if part != [] && NoEmptyPart(rest) {
          forall i | 0 <= i < |parts| ensures parts[i] != [] {
            if i > 0 { assert parts[i] == rest[i - 1]; }
          }
        }
      }
      assert HasDir(node, parts) <==> HasDir(child, rest);
      NoFileAboveStep(node, parts, child);
    }
  }

  lemma {:induction false} NoFileAboveStep(node: TreeNode, parts: seq<Bytes>, child: TreeNode)
    requires |parts| > 1
    requires child == if parts[0] in node.children then node.children[parts[0]] else EMPTY_NODE
    ensures NoFileAbove(node, parts) <==> parts[0] !in node.leaves && NoFileAbove(child, parts[1..])
  {
    var rest := parts[1..];
    forall k | 0 < k < |parts|
      ensures Lookup(node, parts[..k]) == if k == 1 then Lookup(node, [parts[0]]) else Lookup(child, rest[..k - 1])
    {
      assert k > 1 ==> parts[..k][1..] == rest[..k - 1];
      assert k == 1 ==> parts[..k] == [parts[0]];
    }
    if NoFileAbove(node, parts) {
      assert Lookup(node, parts[..1]).None?;
      forall k | 0 < k < |rest| ensures Lookup(child, rest[..k]).None? {
        assert Lookup(node, parts[..k + 1]).None?;
      }
    }
  }

  /** A successful insertion changes one path and adds the directories above it. */
  lemma {:induction false} InsertEffect(node: TreeNode, parts: seq<Bytes>, leaf: Leaf, q: seq<Bytes>)
    requires parts != [] && Insert(node, parts, leaf).Ok?
    ensures var after := Insert(node, parts, leaf).value;
            && Lookup(after, q) == (if q == parts then Some(leaf) else Lookup(node, q))
            && (HasDir(after, q) <==> HasDir(node, q) || ProperPrefix(q, parts))
    decreases |parts|
  {
    if |parts| > 1 && q != [] {
      if q[0] == parts[0] {
        var child := if parts[0] in node.children then node.children[parts[0]] else EMPTY_NODE;
        InsertEffect(child, parts[1..], leaf, q[1..]);
        assert q == [q[0]] + q[1..] && parts == [parts[0]] + parts[1..];
        assert ProperPrefix(q, parts) <==> ProperPrefix(q[1..], parts[1..]);
      }
    } else if |parts| == 1 && |q| == 1 {
      assert q[0] == parts[0] ==> q == parts;
    }
  }

  // ---- The names and ids a node holds --------------------------------------------------------

  ghost predicate AllNamesValid(node: TreeNode)
  {
    && (forall n :: n in node.children ==> ValidName(n) && AllNamesValid(node.children[n]))
    && (forall n :: n in node.leaves ==> ValidName(n))
  }

  ghost predicate NoSlash(node: TreeNode)
  {
    && (forall n :: n in node.children ==> SLASH !in n && NoSlash(node.children[n]))
    && (forall n :: n in node.leaves ==> SLASH !in n)
  }

  ghost predicate IdsUse(node: TreeNode, algorithm: HashAlgorithm)
  {
    && (forall n :: n in node.children ==> IdsUse(node.children[n], algorithm))
    && (forall n :: n in node.leaves ==> node.leaves[n].id.algorithm == algorithm)
  }

  ghost predicate PartsValid(parts: seq<Bytes>)
  {
    forall i :: 0 <= i < |parts| ==> ValidName(parts[i])
  }

  lemma {:induction false} InsertNoSlash(node: TreeNode, parts: seq<Bytes>, leaf: Leaf)
    requires parts != [] && Insert(node, parts, leaf).Ok?
    requires NoSlash(node) && forall i :: 0 <= i < |parts| ==> SLASH !in parts[i]
    ensures NoSlash(Insert(node, parts, leaf).value)
    decreases |parts|
  {
    if |parts| > 1 {
      var child := if parts[0] in node.children then node.children[parts[0]] else EMPTY_NODE;
      InsertNoSlash(child, parts[1..], leaf);
    }
  }

  lemma {:induction false} PartsValidSplits(parts: seq<Bytes>)
    requires parts != []
    ensures PartsValid(parts) <==> ValidName(parts[0]) && PartsValid(parts[1..])
  {
    forall i | 0 <= i < |parts| && ValidName(parts[0]) && PartsValid(parts[1..]) ensures ValidName(parts[i]) {
      if i > 0 { assert parts[i] == parts[1..][i - 1]; }
    }
  }

  /** Insertion adds the components of the path to the names of the node, and takes none away. */
  lemma {:induction false} InsertNames(node: TreeNode, parts: seq<Bytes>, leaf: Leaf)
    requires parts != [] && Insert(node, parts, leaf).Ok?
    ensures AllNamesValid(Insert(node, parts, leaf).value) <==> AllNamesValid(node) && PartsValid(parts)
    decreases |parts|
  {
    hide ValidName, PartsValid;
    var after := Insert(node, parts, leaf).value;
    var part, rest := parts[0], parts[1..];
    PartsValidSplits(parts);
    if |parts| == 1 {
      assert PartsValid(rest) by { NoPartsValid(); }
      assert after.children == node.children && after.leaves.Keys == node.leaves.Keys + {part};
    } else {
      var child := if part in node.children then node.children[part] else EMPTY_NODE;
      InsertNames(child, rest, leaf);
      ChildUpdated(node, part, child, Insert(child, rest, leaf).value, PartsValid(rest));
    }
  }

  lemma {:induction false} ChildUpdated(node: TreeNode, part: Bytes, child: TreeNode, child': TreeNode, valid: bool)
    requires child == if part in node.children then node.children[part] else EMPTY_NODE
    requires AllNamesValid(child') <==> AllNamesValid(child) && valid
    ensures AllNamesValid(node.(children := node.children[part := child']))
            <==> AllNamesValid(node) && ValidName(part) && valid
  {
    hide ValidName;
    var after := node.(children := node.children[part := child']);
    assert AllNamesValid(EMPTY_NODE);
    if AllNamesValid(after) {
      assert part in after.children && after.children[part] == child';
      forall n | n in node.children ensures ValidName(n) && AllNamesValid(node.children[n]) {
        assert n in after.children && (n != part ==> after.children[n] == node.children[n]);
      }
    }
  }

  lemma {:induction false} NoPartsValid()
    ensures PartsValid([])
  {
  }

  lemma {:induction false} InsertIds(node: TreeNode, parts: seq<Bytes>, leaf: Leaf, algorithm: HashAlgorithm)
    requires parts != [] && Insert(node, parts, leaf).Ok?
    requires IdsUse(node, algorithm) && leaf.id.algorithm == algorithm
    ensures IdsUse(Insert(node, parts, leaf).value, algorithm)
    decreases |parts|
  {
    if |parts| > 1 {
      var child := if parts[0] in node.children then node.children[parts[0]] else EMPTY_NODE;
      InsertIds(child, parts[1..], leaf, algorithm);
    }
  }

  // ---- The whole index -------------------------------------------------------------------------

  function Parts(e: IndexEntry): (parts: seq<Bytes>)
    ensures parts != []
  {
    Split(e.path, SLASH)
  }

  /** What the entries say about a path; a later duplicate wins. */
  function LastAt(entries: seq<IndexEntry>, q: seq<Bytes>): Option<Leaf>
  {
    if entries == [] then None else
    var last := entries[|entries| - 1];
    if Parts(last) == q then Some(Leaf(last.mode, last.id)) else LastAt(entries[..|entries| - 1], q)
  }

  ghost predicate DirOf(entries: seq<IndexEntry>, q: seq<Bytes>)
  {
    q == [] || exists e :: e in entries && ProperPrefix(q, Parts(e))
  }

  /** The nested directories hold exactly the files of the entries. */
  ghost predicate Represents(node: TreeNode, entries: seq<IndexEntry>)
  {
    && (forall q :: Lookup(node, q) == LastAt(entries, q))
    && (forall q :: HasDir(node, q) <==> DirOf(entries, q))
  }

  /** An index that can be written: merged, no empty component, no path below another path. */
  ghost predicate Writable(entries: seq<IndexEntry>)
  {
    && (forall e :: e in entries ==> e.stage == 0 && NoEmptyPart(Parts(e)))
    && (forall e, f :: e in entries && f in entries ==> !ProperPrefix(Parts(e), Parts(f)))
  }

  lemma {:induction false} LastAtNone(entries: seq<IndexEntry>, q: seq<Bytes>)
    ensures LastAt(entries, q).None? <==> forall e :: e in entries ==> Parts(e) != q
  {
    if entries != [] {
      var k := |entries| - 1;
      LastAtNone(entries[..k], q);
      assert entries == entries[..k] + [entries[k]];
    }
  }

  /** One more entry fits exactly when the longer list is still writable. */
  lemma {:induction false} NextFits(node: TreeNode, done: seq<IndexEntry>, e: IndexEntry)
    requires Represents(node, done) && Writable(done) && e.stage == 0
    ensures Insert(node, Parts(e), Leaf(e.mode, e.id)).Ok? <==> Writable(done + [e])
    ensures Insert(node, Parts(e), Leaf(e.mode, e.id)).Ok? ==>
              Represents(Insert(node, Parts(e), Leaf(e.mode, e.id)).value, done + [e])
  {
    var leaf, parts := Leaf(e.mode, e.id), Parts(e);
    InsertAccepts(node, parts, leaf);
    FileAboveMeans(node, done, e);
    if Writable(done + [e]) {
      assert e in done + [e] && forall f :: f in done ==> f in done + [e];
      assert !HasDir(node, parts);
    } else if Insert(node, parts, leaf).Ok? {
      assert !DirOf(done, parts);
      assert Writable(done + [e]);
    }
    if Insert(node, parts, leaf).Ok? {
      var after := Insert(node, parts, leaf).value;
      assert (done + [e])[..|done|] == done;
      forall q
        ensures Lookup(after, q) == LastAt(done + [e], q)
        ensures HasDir(after, q) <==> DirOf(done + [e], q)
      {
        InsertEffect(node, parts, leaf, q);
        assert forall f :: f in done + [e] <==> f in done || f == e;
      }
    }
  }

  lemma {:induction false} FileAboveMeans(node: TreeNode, done: seq<IndexEntry>, e: IndexEntry)
    requires Represents(node, done)
    ensures NoFileAbove(node, Parts(e)) <==> forall f :: f in done ==> !ProperPrefix(Parts(f), Parts(e))
  {
    var parts := Parts(e);
    if NoFileAbove(node, parts) {
      forall f | f in done ensures !ProperPrefix(Parts(f), parts) {
        if ProperPrefix(Parts(f), parts) {
          assert Parts(f) == parts[..|Parts(f)|];
          LastAtNone(done, Parts(f));
        }
      }
    }
    if forall f :: f in done ==> !ProperPrefix(Parts(f), parts) {
      forall k | 0 < k < |parts| ensures Lookup(node, parts[..k]).None? {
        LastAtNone(done, parts[..k]);
      }
    }
  }

  /** The loop of `write_tree_from_index`: it succeeds exactly on writable indexes. */
  method BuildTree(entries: seq<IndexEntry>) returns (r: Result<TreeNode>)
    ensures r.Ok? <==> Writable(entries)
    ensures r.Ok? ==> Represents(r.value, entries) && NoSlash(r.value)
    ensures r.Ok? ==> (AllNamesValid(r.value) <==> forall e :: e in entries ==> PartsValid(Parts(e)))
    ensures forall a :: r.Ok? && (forall e :: e in entries ==> e.id.algorithm == a) ==> IdsUse(r.value, a)
  {
    hide Insert, Lookup, HasDir, LastAt, Split, NoSlash, AllNamesValid, PartsValid, IdsUse;
    var root := EMPTY_NODE;
    NothingInserted();
    assert entries[..0] == [];
    for i := 0 to |entries|
      invariant Writable(entries[..i]) && Represents(root, entries[..i]) && NoSlash(root)
      invariant AllNamesValid(root) <==> forall e :: e in entries[..i] ==> PartsValid(Parts(e))
      invariant forall a :: (forall e :: e in entries[..i] ==> e.id.algorithm == a) ==> IdsUse(root, a)
    {
      var entry := entries[i];
      assert entries[..i + 1] == entries[..i] + [entry];
      if entry.stage != 0 {
        return Err(InvalidInput);
      }
      NextFits(root, entries[..i], entry);
      var next := Insert(root, Parts(entry), Leaf(entry.mode, entry.id));
      if next.Err? {
        return Err(next.error);
      }
      InsertNames(root, Parts(entry), Leaf(entry.mode, entry.id));
      InsertNoSlash(root, Parts(entry), Leaf(entry.mode, entry.id));
      forall a | forall e :: e in entries[..i + 1] ==> e.id.algorithm == a ensures IdsUse(next.value, a) {
        assert entry in entries[..i + 1] && forall e :: e in entries[..i] ==> e in entries[..i + 1];
        InsertIds(root, Parts(entry), Leaf(entry.mode, entry.id), a);
      }
      root := next.value;
    }
    assert entries[..|entries|] == entries;
    return Ok(root);
  }

  lemma {:induction false} NothingInserted()
    ensures Represents(EMPTY_NODE, []) && Writable([]) && NoSlash(EMPTY_NODE) && AllNamesValid(EMPTY_NODE)
    ensures forall a :: IdsUse(EMPTY_NODE, a)
  {
  }
}
