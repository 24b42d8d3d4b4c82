/** The operations of `GitIndex` (`index.rs`): a strictly sorted vector that behaves like a map. */
module IndexOps {
  import opened Common
  import opened ByteOrder
  import opened Index

  type Key = (Bytes, nat)

  type Contents = map<Key, IndexEntry>

  function KeyOf(e: IndexEntry): Key
  {
    (e.path, e.stage)
  }

  predicate KeyLess(k: Key, l: Key)
  {
    Less(k.0, l.0) || (k.0 == l.0 && k.1 < l.1)
  }

  /** The entries are exactly the values of the map, each under its own key. */
  ghost predicate Represents(entries: seq<IndexEntry>, m: Contents)
  {
    && (forall i :: 0 <= i < |entries| ==> KeyOf(entries[i]) in m && m[KeyOf(entries[i])] == entries[i])
    && forall k :: k in m ==> HasKey(entries, k)
  }

  ghost predicate HasKey(entries: seq<IndexEntry>, k: Key)
  {
    exists i :: 0 <= i < |entries| && KeyOf(entries[i]) == k
  }

  /** Strictly sorted entries are determined by the map they represent. */
  lemma {:induction false} SortedIsCanonical(xs: seq<IndexEntry>, ys: seq<IndexEntry>, m: Contents)
    requires StrictlySorted(xs) && StrictlySorted(ys) && Represents(xs, m) && Represents(ys, m)
    ensures xs == ys
  {
    hide Represents, StrictlySorted;
    if xs == [] {
      NoKeys(ys, m);
    } else if ys == [] {
      NoKeys(xs, m);
    } else {
      SameLast(xs, ys, m);
      var j, n := |xs| - 1, |ys| - 1;
      var rest := m - {KeyOf(xs[j])};
      WithoutLast(xs, m);
      WithoutLast(ys, m);
      SortedIsCanonical(xs[..j], ys[..n], rest);
      assert xs == xs[..j] + [xs[j]] && ys == ys[..n] + [ys[n]];
    }
  }

  lemma {:induction false} NoKeys(entries: seq<IndexEntry>, m: Contents)
    requires Represents(entries, m) && Represents([], m)
    ensures entries == []
  {
    assert |entries| > 0 ==> KeyOf(entries[0]) in m && HasKey([], KeyOf(entries[0]));
  }

  lemma {:induction false} SameLast(xs: seq<IndexEntry>, ys: seq<IndexEntry>, m: Contents)
    requires StrictlySorted(xs) && StrictlySorted(ys) && xs != [] && ys != []
    requires Represents(xs, m) && Represents(ys, m)
    ensures xs[|xs| - 1] == ys[|ys| - 1]
  {
    hide EntryLess;
    var x, y := xs[|xs| - 1], ys[|ys| - 1];
    assert HasKey(ys, KeyOf(x)) && HasKey(xs, KeyOf(y));
    var i :| 0 <= i < |ys| && KeyOf(ys[i]) == KeyOf(x);
    var k :| 0 <= k < |xs| && KeyOf(xs[k]) == KeyOf(y);
    if i < |ys| - 1 && k < |xs| - 1 {
      assert EntryLess(ys[i], y) && EntryLess(xs[k], x);
      EntryLessTransitive(x, y, x);
      EntryLessIrreflexive(x);
    }
  }

  lemma {:induction false} WithoutLast(entries: seq<IndexEntry>, m: Contents)
    requires StrictlySorted(entries) && entries != [] && Represents(entries, m)
    ensures var n := |entries| - 1;
            StrictlySorted(entries[..n]) && Represents(entries[..n], m - {KeyOf(entries[n])})
  {
    hide EntryLess;
    var n := |entries| - 1;
    var init, rest := entries[..n], m - {KeyOf(entries[n])};
    forall i | 0 <= i < n ensures KeyOf(init[i]) in rest && rest[KeyOf(init[i])] == init[i] {
      DistinctKeys(entries, i, n);
    }
    forall k | k in rest ensures HasKey(init, k) {
      assert HasKey(entries, k);
      var i :| 0 <= i < |entries| && KeyOf(entries[i]) == k;
      assert KeyOf(init[i]) == k;
    }
  }

  lemma {:induction false} DistinctKeys(entries: seq<IndexEntry>, i: nat, k: nat)
    requires StrictlySorted(entries) && i < k < |entries|
    ensures KeyOf(entries[i]) != KeyOf(entries[k])
  {
    assert EntryLess(entries[i], entries[k]);
    LessIrreflexive(entries[i].path);
  }

  // ---- Searching ---------------------------------------------------------------------------

  /** `binary_search_by`: the position of the key, or where it would have to be inserted. */
  method Search(entries: seq<IndexEntry>, key: Key) returns (found: bool, at: nat)
    requires StrictlySorted(entries)
    ensures at <= |entries|
    ensures found ==> at < |entries| && KeyOf(entries[at]) == key
    ensures forall i :: 0 <= i < at ==> KeyLess(KeyOf(entries[i]), key)
    ensures forall i :: (if found then at < i else at <= i) && i < |entries| ==> KeyLess(key, KeyOf(entries[i]))
  {
    hide Less;
    var low, high := 0, |entries|;
    while low < high
      invariant 0 <= low <= high <= |entries|
      invariant forall i :: 0 <= i < low ==> KeyLess(KeyOf(entries[i]), key)
      invariant forall i :: high <= i < |entries| ==> KeyLess(key, KeyOf(entries[i]))
    {
      var mid := low + (high - low) / 2;
      Around(entries, mid, key);
      if KeyLess(KeyOf(entries[mid]), key) {
        low := mid + 1;
      } else if KeyOf(entries[mid]) == key {
        return true, mid;
      } else {
        high := mid;
      }
    }
    return false, low;
  }

  /** What comparing one entry says about all entries on either side of it. */
  lemma {:induction false} Around(entries: seq<IndexEntry>, mid: nat, key: Key)
    requires StrictlySorted(entries) && mid < |entries|
    ensures var k := KeyOf(entries[mid]);
            && (KeyLess(k, key) || k == key ==> forall i :: 0 <= i < mid ==> KeyLess(KeyOf(entries[i]), key))
            && (!KeyLess(k, key) && k != key ==> forall i :: mid <= i < |entries| ==> KeyLess(key, KeyOf(entries[i])))
            && (k == key ==> forall i :: mid < i < |entries| ==> KeyLess(key, KeyOf(entries[i])))
  {
    hide Less;
    var k := KeyOf(entries[mid]);
    KeyTotal(k, key);
    forall i | 0 <= i < mid && KeyLess(k, key) ensures KeyLess(KeyOf(entries[i]), key) {
      assert EntryLess(entries[i], entries[mid]);
      KeyTransitive(KeyOf(entries[i]), k, key);
    }
    forall i | mid <= i < |entries| && KeyLess(key, k) ensures KeyLess(key, KeyOf(entries[i])) {
      if mid < i {
        assert EntryLess(entries[mid], entries[i]);
        KeyTransitive(key, k, KeyOf(entries[i]));
      }
    }
    assert forall i :: 0 <= i < mid ==> EntryLess(entries[i], entries[mid]);
    assert forall i :: mid < i < |entries| ==> EntryLess(entries[mid], entries[i]);
  }

  lemma {:induction false} KeyTotal(k: Key, l: Key)
    ensures KeyLess(k, l) || k == l || KeyLess(l, k)
  {
    LessTotal(k.0, l.0);
  }

  lemma {:induction false} KeyTransitive(k: Key, l: Key, m: Key)
    requires KeyLess(k, l) && KeyLess(l, m)
    ensures KeyLess(k, m)
  {
    if Less(k.0, l.0) && Less(l.0, m.0) { LessTransitive(k.0, l.0, m.0); }
  }

  /** `partition_point` from `start` on, for a predicate that holds on a prefix. */
  method PartitionPoint(entries: seq<IndexEntry>, start: nat, holds: IndexEntry -> bool) returns (end: nat)
    requires start <= |entries|
    requires forall i, j :: start <= i < j < |entries| && holds(entries[j]) ==> holds(entries[i])
    ensures start <= end <= |entries|
    ensures forall i :: start <= i < end ==> holds(entries[i])
    ensures forall i :: end <= i < |entries| ==> !holds(entries[i])
  {
    var low, high := start, |entries|;
    while low < high
      invariant start <= low <= high <= |entries|
      invariant forall i :: start <= i < low ==> holds(entries[i])
      invariant forall i :: high <= i < |entries| ==> !holds(entries[i])
    {
      var mid := low + (high - low) / 2;
      if holds(entries[mid]) {
        low := mid + 1;
      } else {
        high := mid;
      }
    }
    return low;
  }

  // ---- Paths below a directory -------------------------------------------------------------

  /** Nothing below `p` starts with it. */
  lemma {:induction false} PrefixNotLess(p: Bytes, a: Bytes)
    requires p <= a
    ensures !Less(a, p)
  {
    if p != [] {
      assert p[0] == a[0];
      PrefixNotLess(p[1..], a[1..]);
    }
  }

  /** Between `p` and something that starts with `p`, everything starts with `p`. */
  lemma {:induction false} PrefixContiguous(p: Bytes, a: Bytes, b: Bytes)
    requires !Less(a, p) && (Less(a, b) || a == b) && p <= b
    ensures p <= a
  {
    if p != [] {
      assert p[0] == b[0];
      if a[0] == p[0] {
        PrefixContiguous(p[1..], a[1..], b[1..]);
        assert a == [a[0]] + a[1..] && p == [p[0]] + p[1..];
      }
    }
  }

  // ---- Changing the vector -----------------------------------------------------------------

  function Inserted(entries: seq<IndexEntry>, at: nat, e: IndexEntry): seq<IndexEntry>
    requires at <= |entries|
  {
    entries[..at] + [e] + entries[at..]
  }

  /** The position is the one that `Search` reports for a new key. */
  ghost predicate FitsAt(entries: seq<IndexEntry>, at: nat, key: Key)
  {
    && at <= |entries|
    && (forall i :: 0 <= i < at ==> KeyLess(KeyOf(entries[i]), key))
    && forall i :: at <= i < |entries| ==> KeyLess(key, KeyOf(entries[i]))
  }

  lemma {:induction false} InsertSorted(entries: seq<IndexEntry>, at: nat, e: IndexEntry)
    requires StrictlySorted(entries) && FitsAt(entries, at, KeyOf(e))
    ensures StrictlySorted(Inserted(entries, at, e))
  {
    hide Less;
    var result := Inserted(entries, at, e);
    forall i, j | 0 <= i < j < |result| ensures EntryLess(result[i], result[j]) {
      if i != at && j != at {
        var i', j' := if i < at then i else i - 1, if j < at then j else j - 1;
        assert EntryLess(entries[i'], entries[j']);
      }
    }
  }

  lemma {:induction false} InsertRepresents(entries: seq<IndexEntry>, m: Contents, at: nat, e: IndexEntry)
    requires Represents(entries, m) && FitsAt(entries, at, KeyOf(e))
    ensures Represents(Inserted(entries, at, e), m[KeyOf(e) := e])
  {
    hide Less;
    var result, m' := Inserted(entries, at, e), m[KeyOf(e) := e];
    LessIrreflexive(e.path);
    forall i | 0 <= i < |result| ensures KeyOf(result[i]) in m' && m'[KeyOf(result[i])] == result[i] {
      if i != at {
        assert result[i] == entries[if i < at then i else i - 1];
      }
    }
    forall k | k in m' ensures HasKey(result, k) {
      if k == KeyOf(e) {
        assert KeyOf(result[at]) == k;
      } else {
        assert HasKey(entries, k);
        var i :| 0 <= i < |entries| && KeyOf(entries[i]) == k;
        assert KeyOf(result[if i < at then i else i + 1]) == k;
      }
    }
  }

  lemma {:induction false} ReplaceKeeps(entries: seq<IndexEntry>, m: Contents, at: nat, e: IndexEntry)
    requires StrictlySorted(entries) && Represents(entries, m) && at < |entries| && KeyOf(entries[at]) == KeyOf(e)
    ensures StrictlySorted(entries[at := e]) && Represents(entries[at := e], m[KeyOf(e) := e])
  {
    hide Less;
    var result, m' := entries[at := e], m[KeyOf(e) := e];
    forall i, j | 0 <= i < j < |result| ensures EntryLess(result[i], result[j]) {
      assert EntryLess(entries[i], entries[j]);
    }
    forall i | 0 <= i < |result| ensures KeyOf(result[i]) in m' && m'[KeyOf(result[i])] == result[i] {
      if i < at { DistinctKeys(entries, i, at); }
      if at < i { DistinctKeys(entries, at, i); }
    }
    forall k | k in m' ensures HasKey(result, k) {
      assert k in m ==> HasKey(entries, k);
      var i :| 0 <= i < |entries| && KeyOf(entries[i]) == k;
      assert KeyOf(result[i]) == k;
    }
  }

  function Drained(entries: seq<IndexEntry>, start: nat, end: nat): seq<IndexEntry>
    requires start <= end <= |entries|
  {
    entries[..start] + entries[end..]
  }

  /** The map without the paths that satisfy a predicate. */
  ghost function Except(m: Contents, gone: Bytes -> bool): Contents
  {
    map k | k in m && !gone(k.0) :: m[k]
  }

  /** Draining a range removes exactly the paths that make it up. */
  lemma {:induction false} DrainKeeps(entries: seq<IndexEntry>, m: Contents, start: nat, end: nat, gone: Bytes -> bool)
    requires StrictlySorted(entries) && Represents(entries, m) && start <= end <= |entries|
    requires forall i :: 0 <= i < |entries| ==> (gone(entries[i].path) <==> start <= i < end)
    ensures StrictlySorted(Drained(entries, start, end)) && Represents(Drained(entries, start, end), Except(m, gone))
  {
    hide EntryLess, Represents, StrictlySorted;
    DrainSorted(entries, start, end);
    DrainRepresents(entries, m, start, end, gone);
  }

  /** Where an entry of the drained vector comes from. */
  lemma {:induction false} DrainedAt(entries: seq<IndexEntry>, start: nat, end: nat, i: nat)
    requires start <= end <= |entries| && i < |Drained(entries, start, end)|
    ensures (if i < start then i else i + end - start) < |entries|
    ensures Drained(entries, start, end)[i] == entries[if i < start then i else i + end - start]
  {
  }

  lemma {:induction false} DrainSorted(entries: seq<IndexEntry>, start: nat, end: nat)
    requires StrictlySorted(entries) && start <= end <= |entries|
    ensures StrictlySorted(Drained(entries, start, end))
  {
    hide EntryLess, Drained;
    var result, n := Drained(entries, start, end), end - start;
    forall i, j | 0 <= i < j < |result| ensures EntryLess(result[i], result[j]) {
      DrainedAt(entries, start, end, i);
      DrainedAt(entries, start, end, j);
      assert EntryLess(entries[if i < start then i else i + n], entries[if j < start then j else j + n]);
    }
  }

  lemma {:induction false} DrainRepresents(entries: seq<IndexEntry>, m: Contents, start: nat, end: nat,
                                           gone: Bytes -> bool)
    requires Represents(entries, m) && start <= end <= |entries|
    requires forall i :: 0 <= i < |entries| ==> (gone(entries[i].path) <==> start <= i < end)
    ensures Represents(Drained(entries, start, end), Except(m, gone))
  {
    var result, m', n := Drained(entries, start, end), Except(m, gone), end - start;
    forall i | 0 <= i < |result| ensures KeyOf(result[i]) in m' && m'[KeyOf(result[i])] == result[i] {
      DrainedAt(entries, start, end, i);
    }
    forall k | k in m' ensures HasKey(result, k) {
      assert HasKey(entries, k);
      var i :| 0 <= i < |entries| && KeyOf(entries[i]) == k;
      assert KeyOf(result[if i < start then i else i - n]) == k;
    }
  }

  /** The entries of one path, and those below one directory, stand next to each other. */
  lemma {:induction false} PathRange(entries: seq<IndexEntry>, path: Bytes)
    requires StrictlySorted(entries)
    ensures forall i, j :: 0 <= i < j < |entries| && Less(entries[j].path, path) ==> Less(entries[i].path, path)
    ensures forall i, j :: 0 <= i < j < |entries| && !Less(entries[i].path, path) && entries[j].path == path ==>
            entries[i].path == path
    ensures forall i, j :: 0 <= i < j < |entries| && !Less(entries[i].path, path) && path <= entries[j].path ==>
            path <= entries[i].path
  {
    hide Less;
    forall i, j | 0 <= i < j < |entries|
      ensures Less(entries[j].path, path) ==> Less(entries[i].path, path)
      ensures !Less(entries[i].path, path) && entries[j].path == path ==> entries[i].path == path
      ensures !Less(entries[i].path, path) && path <= entries[j].path ==> path <= entries[i].path
    {
      var a, b := entries[i].path, entries[j].path;
      assert EntryLess(entries[i], entries[j]);
      if Less(a, b) && Less(b, path) { LessTransitive(a, b, path); }
      if !Less(a, path) && path <= b { PrefixContiguous(path, a, b); }
    }
  }

  // ---- The index ---------------------------------------------------------------------------

  class GitIndex {
    var entries: seq<IndexEntry>
    /** What the vector means. */
    ghost var contents: Contents

    ghost predicate Valid()
      reads this
    {
      StrictlySorted(entries) && Represents(entries, contents) && ValidIndexEntries(entries)
    }

    constructor ()
      ensures Valid() && contents == map[]
    {
      entries := [];
      contents := map[];
    }

    /** `entry`. */
    method Entry(path: Bytes, stage: nat) returns (r: Option<IndexEntry>)
      requires Valid()
      ensures r == if (path, stage) in contents then Some(contents[(path, stage)]) else None
    {
      hide KeyLess, EntryLess, ValidIndexPath;
      var found, at := Search(entries, (path, stage));
      if found {
        return Some(entries[at]);
      }
      NotThere(entries, contents, at, (path, stage));
      return None;
    }

    method Upsert(e: IndexEntry) returns (failure: Option<Error>)
      requires Valid()
      modifies this
      ensures Valid()
      ensures failure == if ValidIndexPath(e.path) && e.stage <= 3 then None else Some(InvalidInput)
      ensures contents == if ValidIndexEntry(e) then old(contents)[KeyOf(e) := e] else old(contents)
    {
      hide KeyLess, EntryLess, ValidIndexPath, Represents, StrictlySorted;
      if !ValidIndexPath(e.path) {
        return Some(InvalidInput);
      }
      if e.stage > 3 {
        return Some(InvalidInput);
      }
      var found, at := Search(entries, KeyOf(e));
      if found {
        ReplaceKeeps(entries, contents, at, e);
        entries := entries[at := e];
      } else {
        InsertSorted(entries, at, e);
        InsertRepresents(entries, contents, at, e);
        entries := Inserted(entries, at, e);
      }
      contents := contents[KeyOf(e) := e];
      return None;
    }

    /** All stages of one path. */
    method RemovePath(path: Bytes) returns (r: Result<bool>)
      requires Valid()
      modifies this
      ensures Valid()
      ensures !ValidIndexPath(path) ==> r == Err(InvalidInput) && contents == old(contents)
      ensures ValidIndexPath(path) ==>
                && contents == Except(old(contents), p => p == path)
                && r == Ok(exists k :: k in old(contents) && k.0 == path)
    {
      hide Less, EntryLess, ValidIndexPath, Represents, StrictlySorted;
      if !ValidIndexPath(path) {
        return Err(InvalidInput);
      }
      ghost var gone := (p: Bytes) => p == path;
      PathRange(entries, path);
      LessIrreflexive(path);
      var start := PartitionPoint(entries, 0, (e: IndexEntry) => Less(e.path, path));
      var end := PartitionPoint(entries, start, (e: IndexEntry) => e.path == path);
      RangeGone(entries, contents, start, end, gone);
      contents := Except(contents, gone);
      if start == end {
        return Ok(false);
      }
      entries := Drained(entries, start, end);
      return Ok(true);
    }

    /** Everything below one directory, but not an entry with the directory's own name. */
    method RemoveDir(path: Bytes) returns (r: Result<bool>)
      requires Valid()
      modifies this
      ensures Valid()
      ensures !ValidIndexPath(path) ==> r == Err(InvalidInput) && contents == old(contents)
      ensures ValidIndexPath(path) ==>
                && contents == Except(old(contents), p => path + [SLASH] <= p)
                && r == Ok(exists k :: k in old(contents) && path + [SLASH] <= k.0)
    {
      hide Less, EntryLess, ValidIndexPath, Represents, StrictlySorted;
      if !ValidIndexPath(path) {
        return Err(InvalidInput);
      }
      var prefix := path + [SLASH];
      ghost var gone := (p: Bytes) => prefix <= p;
      PathRange(entries, prefix);
      NothingBelowPrefix(entries, prefix);
      var start := PartitionPoint(entries, 0, (e: IndexEntry) => Less(e.path, prefix));
      var end := PartitionPoint(entries, start, (e: IndexEntry) => prefix <= e.path);
      RangeGone(entries, contents, start, end, gone);
      contents := Except(contents, gone);
      if start == end {
        return Ok(false);
      }
      entries := Drained(entries, start, end);
      return Ok(true);
    }
  }

  lemma {:induction false} NotThere(entries: seq<IndexEntry>, m: Contents, at: nat, key: Key)
    requires Represents(entries, m) && FitsAt(entries, at, key)
    ensures key !in m
  {
    hide Less;
    LessIrreflexive(key.0);
    assert key in m ==> HasKey(entries, key);
  }

  lemma {:induction false} NothingBelowPrefix(entries: seq<IndexEntry>, prefix: Bytes)
    ensures forall i :: 0 <= i < |entries| && Less(entries[i].path, prefix) ==> !(prefix <= entries[i].path)
  {
    forall i | 0 <= i < |entries| && prefix <= entries[i].path ensures !Less(entries[i].path, prefix) {
      PrefixNotLess(prefix, entries[i].path);
    }
  }

  /** Draining keeps the index valid, and an empty range means that there was nothing to remove. */
  lemma {:induction false} RangeGone(entries: seq<IndexEntry>, m: Contents, start: nat, end: nat, gone: Bytes -> bool)
    requires StrictlySorted(entries) && Represents(entries, m) && ValidIndexEntries(entries)
             && start <= end <= |entries|
    requires forall i :: 0 <= i < |entries| ==> (gone(entries[i].path) <==> start <= i < end)
    ensures StrictlySorted(Drained(entries, start, end)) && Represents(Drained(entries, start, end), Except(m, gone))
    ensures ValidIndexEntries(Drained(entries, start, end))
    ensures start == end <==> !exists k :: k in m && gone(k.0)
    ensures start == end ==> Drained(entries, start, end) == entries
  {
    hide EntryLess, ValidIndexEntry;
    DrainKeeps(entries, m, start, end, gone);
    if start < end {
      assert KeyOf(entries[start]) in m && gone(KeyOf(entries[start]).0);
    }
    if k :| k in m && gone(k.0) {
      assert HasKey(entries, k);
    }
  }

  // ---- Runs of operations ------------------------------------------------------------------

  datatype Operation = UpsertOf(entry: IndexEntry) | RemovePathOf(path: Bytes) | RemoveDirOf(path: Bytes)

  /** What one operation does to the map; a refused one does nothing. */
  ghost function Applied(m: Contents, op: Operation): Contents
  {
    match op
    case UpsertOf(e) => if ValidIndexEntry(e) then m[KeyOf(e) := e] else m
    case RemovePathOf(path) => if ValidIndexPath(path) then Except(m, p => p == path) else m
    case RemoveDirOf(path) => if ValidIndexPath(path) then Except(m, p => path + [SLASH] <= p) else m
  }

  ghost function AppliedAll(m: Contents, ops: seq<Operation>): Contents
  {
    if ops == [] then m else Applied(AppliedAll(m, ops[..|ops| - 1]), ops[|ops| - 1])
  }

  /** Any sequence of operations keeps the index strictly sorted and in step with the map. */
  method RunAll(index: GitIndex, ops: seq<Operation>)
    requires index.Valid()
    modifies index
    ensures index.Valid() && index.contents == AppliedAll(old(index.contents), ops)
  {
    hide ValidIndexEntry, ValidIndexPath, Except, StrictlySorted, Represents;
    for i := 0 to |ops|
      invariant index.Valid() && index.contents == AppliedAll(old(index.contents), ops[..i])
    {
      assert ops[..i + 1][..i] == ops[..i];
      match ops[i] {
        case UpsertOf(e) =>
          var failure := index.Upsert(e);
        case RemovePathOf(path) =>
          var removed := index.RemovePath(path);
        case RemoveDirOf(path) =>
          var removed := index.RemoveDir(path);
      }
    }
    assert ops[..|ops|] == ops;
  }
}
