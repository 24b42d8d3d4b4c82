/** Writing nested directories as tree objects, children first (`tree.rs`, write_tree_node). */
module TreeWrite {
  import opened Common
  import opened ByteOrder
  import opened Objects
  import opened TreeCodec
  import opened Index
  import opened TreeWalk
  import opened TreeBuild

  // ---- Sorting tree entries ----------------------------------------------------------------

  ghost predicate DistinctKeys(entries: seq<TreeEntry>)
  {
    forall i, j :: 0 <= i < j < |entries| ==> Key(entries[i]) != Key(entries[j])
  }

  /** `s` lists exactly the entries of `entries`, in strict tree order. */
  ghost predicate Lists(s: seq<TreeEntry>, entries: set<TreeEntry>)
  {
    TreeSorted(s) && forall e :: e in s <==> e in entries
  }

  /** There is only one such list. */
  lemma {:induction false} ListsUnique(s: seq<TreeEntry>, t: seq<TreeEntry>, entries: set<TreeEntry>)
    requires Lists(s, entries) && Lists(t, entries)
    ensures s == t
    decreases |s|
  {
    assert (forall e :: e in s ==> e in t) && (forall e :: e in t ==> e in s);
    assert (s == [] || s[0] in s) && (t == [] || t[0] in t);
    if s != [] && t != [] {
      if s[0] != t[0] { LessAsymmetric(Key(s[0]), Key(t[0])); }
      TailLists(s, entries);
      TailLists(t, entries);
      ListsUnique(s[1..], t[1..], entries - {s[0]});
      assert s == [s[0]] + s[1..] && t == [t[0]] + t[1..];
    }
  }

  lemma {:induction false} TailLists(s: seq<TreeEntry>, entries: set<TreeEntry>)
    requires Lists(s, entries) && s != []
    ensures Lists(s[1..], entries - {s[0]})
  {
    forall i | 1 <= i < |s| ensures s[i] != s[0] {
      LessAsymmetric(Key(s[0]), Key(s[i]));
    }
  }

  function InsertSorted(e: TreeEntry, s: seq<TreeEntry>): seq<TreeEntry>
  {
    if s == [] || Compare(Key(e), Key(s[0])) != Gt then [e] + s else [s[0]] + InsertSorted(e, s[1..])
  }

  /** `sort_by(tree_entry_cmp)`. */
  function SortEntries(entries: seq<TreeEntry>): seq<TreeEntry>
  {
    if entries == [] then [] else InsertSorted(entries[0], SortEntries(entries[1..]))
  }

  lemma {:induction false} InsertSortedLists(e: TreeEntry, s: seq<TreeEntry>, entries: set<TreeEntry>)
    requires Lists(s, entries) && forall x :: x in entries ==> Key(x) != Key(e)
    ensures Lists(InsertSorted(e, s), entries + {e})
    decreases |s|
  {
    if s != [] {
      assert s[0] in entries;
      LessTotal(Key(e), Key(s[0]));
      TailLists(s, entries);
      if Less(Key(e), Key(s[0])) {
        forall i | 0 <= i < |s| ensures Less(Key(e), Key(s[i])) {
          if i > 0 { LessTransitive(Key(e), Key(s[0]), Key(s[i])); }
        }
      } else {
        var rest := InsertSorted(e, s[1..]);
        InsertSortedLists(e, s[1..], entries - {s[0]});
        forall x | x in rest ensures Less(Key(s[0]), Key(x)) {
        }
      }
    }
  }

  ghost function Elements(entries: seq<TreeEntry>): set<TreeEntry>
  {
    set e | e in entries
  }

  lemma {:induction false} SortEntriesLists(entries: seq<TreeEntry>)
    requires DistinctKeys(entries)
    ensures Lists(SortEntries(entries), Elements(entries))
  {
    if entries != [] {
      SortEntriesLists(entries[1..]);
      InsertSortedLists(entries[0], SortEntries(entries[1..]), Elements(entries[1..]));
      assert Elements(entries) == Elements(entries[1..]) + {entries[0]};
    }
  }

  // ---- What a node is stored as ------------------------------------------------------------

  ghost function ListOf(entries: set<TreeEntry>): (s: seq<TreeEntry>)
    ensures (exists t :: Lists(t, entries)) ==> Lists(s, entries)
  {
    if exists t :: Lists(t, entries) then var t :| Lists(t, entries); t else []
  }

  /** The entries of the sub-directories `names` of a node. */
  ghost function ChildSet(hash: ObjectHash, node: TreeNode, names: set<Bytes>): set<TreeEntry>
    requires names <= node.children.Keys
    decreases node, 0
  {
    set n | n in names :: TreeEntry(TreeMode.Tree, n, NodeId(hash, node.children[n]))
  }

  ghost function LeafSet(node: TreeNode): set<TreeEntry>
  {
    set n | n in node.leaves :: TreeEntry(node.leaves[n].mode.ToTreeMode(), n, node.leaves[n].id)
  }

  ghost function NodeEntries(hash: ObjectHash, node: TreeNode): seq<TreeEntry>
    decreases node, 1
  {
    ListOf(ChildSet(hash, node, node.children.Keys) + LeafSet(node))
  }

  ghost function NodeObject(hash: ObjectHash, node: TreeNode): Object
    decreases node, 2
  {
    Object(ObjectKind.Tree, EncodeEntries(NodeEntries(hash, node)))
  }

  /** The id a node is written under. */
  ghost function NodeId(hash: ObjectHash, node: TreeNode): ObjectId
    decreases node, 3
  {
    hash(ObjectKind.Tree, EncodeEntries(NodeEntries(hash, node)))
  }

  /** Every object the node is written as lies in `universe`. */
  ghost predicate WrittenWithin(universe: set<Object>, hash: ObjectHash, node: TreeNode)
  {
    && NodeObject(hash, node) in universe
    && forall n :: n in node.children ==> WrittenWithin(universe, hash, node.children[n])
  }

  ghost predicate Present(objects: map<ObjectId, Object>, hash: ObjectHash, node: TreeNode)
  {
    && NodeId(hash, node) in objects
    && forall n :: n in node.children ==> Present(objects, hash, node.children[n])
  }

  /** The node and everything below it can be read back from the store. */
  ghost predicate Stored(objects: map<ObjectId, Object>, hash: ObjectHash, node: TreeNode)
  {
    && NodeId(hash, node) in objects && objects[NodeId(hash, node)] == NodeObject(hash, node)
    && forall n :: n in node.children ==> Stored(objects, hash, node.children[n])
  }

  /** Every stored object is in `universe`, under its own hash. */
  ghost predicate Within(objects: map<ObjectId, Object>, hash: ObjectHash, universe: set<Object>)
  {
    forall id :: id in objects ==> objects[id] in universe && hash(objects[id].kind, objects[id].content) == id
  }

  /** Without a collision, an object that is present is the right one. */
  lemma {:induction false} PresentIsStored(objects: map<ObjectId, Object>, hash: ObjectHash, node: TreeNode,
                                           universe: set<Object>)
    requires CollisionFree(hash, universe) && Within(objects, hash, universe)
    requires WrittenWithin(universe, hash, node) && Present(objects, hash, node)
    ensures Stored(objects, hash, node)
  {
    forall n | n in node.children ensures Stored(objects, hash, node.children[n]) {
      PresentIsStored(objects, hash, node.children[n], universe);
    }
  }

  lemma {:induction false} PresentGrows(objects: map<ObjectId, Object>, objects': map<ObjectId, Object>,
                                        hash: ObjectHash, node: TreeNode)
    requires Present(objects, hash, node) && objects.Keys <= objects'.Keys
    ensures Present(objects', hash, node)
  {
    forall n | n in node.children ensures Present(objects', hash, node.children[n]) {
      PresentGrows(objects, objects', hash, node.children[n]);
    }
  }
}
