/** The files and directories below `refs`, in which a name is either a file or a directory (`refs.rs`). */
module RefTree {
  import opened Common
  import opened RefFormat

  /** The ref files of a repository: the loose ones by name, their directories, and the lines of packed-refs. */
  datatype RefFiles = RefFiles(loose: map<RefName, Bytes>, dirs: set<Bytes>, packed: seq<Bytes>)

  /** `path` lies below the directory `dir`. */
  predicate Under(dir: Bytes, path: Bytes)
  {
    dir + [SLASH] <= path
  }

  lemma {:induction false} UnderMeans(dir: Bytes, path: Bytes)
    ensures Under(dir, path) <==> |dir| < |path| && path[|dir|] == SLASH && path[..|dir|] == dir
  {
    var front := dir + [SLASH];
    if Under(dir, path) {
      assert path[..|front|] == front && path[..|dir|] == front[..|dir|] && front[|dir|] == SLASH;
    }
    if |dir| < |path| && path[|dir|] == SLASH && path[..|dir|] == dir {
      assert path[..|dir| + 1] == front;
    }
  }

  lemma {:induction false} UnderTransitive(a: Bytes, b: Bytes, c: Bytes)
    requires Under(a, b) && Under(b, c)
    ensures Under(a, c)
  {
    hide Under;
    UnderMeans(a, b);
    UnderMeans(b, c);
    UnderMeans(a, c);
    assert c[..|a|] == c[..|b|][..|a|] && c[|a|] == c[..|b|][|a|];
  }

  /** Of two directories on one path, the shorter one lies above the longer one. */
  lemma {:induction false} UnderChain(a: Bytes, b: Bytes, path: Bytes)
    requires Under(a, path) && Under(b, path)
    ensures |a| < |b| ==> Under(a, b)
    ensures |a| == |b| ==> a == b
  {
    hide Under;
    UnderMeans(a, path);
    UnderMeans(b, path);
    UnderMeans(a, b);
    if |a| < |b| {
      assert b[..|a|] == path[..|b|][..|a|] == path[..|a|] && b[|a|] == path[..|b|][|a|];
    }
  }

  /** All directories above a path. */
  function Above(path: Bytes): set<Bytes>
  {
    set i | 0 <= i < |path| && path[i] == SLASH :: path[..i]
  }

  lemma {:induction false} AboveMeans(path: Bytes, dir: Bytes)
    ensures dir in Above(path) <==> Under(dir, path)
  {
    hide Under;
    UnderMeans(dir, path);
    if dir in Above(path) {
      var i :| 0 <= i < |path| && path[i] == SLASH && path[..i] == dir;
      assert |path[..i]| == i;
    }
  }

  /** Everything lies in a directory that is there, and nothing is a file and a directory. */
  ghost predicate FileTree(files: RefFiles)
  {
    && (forall n :: n in files.loose ==> ValidRefName(n) && n !in files.dirs)
    && (forall n, d :: n in files.loose && Under(d, n) ==> d in files.dirs)
    && (forall n, d :: n in files.dirs && Under(d, n) ==> d in files.dirs)
  }

  /** A file stands where the path needs a directory. */
  predicate BehindFile(files: RefFiles, path: Bytes)
  {
    exists f :: f in files.loose && Under(f, path)
  }

  /** What the system reports when a file with this name is opened that is not there. */
  function InTheWay(files: RefFiles, name: RefName): Option<Error>
  {
    if name in files.dirs then Some(IsADirectory)
    else if BehindFile(files, name) then Some(NotADirectory)
    else None
  }

  lemma {:induction false} FilesAreFree(files: RefFiles, name: RefName)
    requires FileTree(files) && (name in files.loose || name in files.dirs)
    ensures !BehindFile(files, name)
    ensures name in files.loose ==> InTheWay(files, name).None?
  {
    hide Under, ValidRefName;
  }

  /** A path lies behind one file at most. */
  lemma {:induction false} OneFileInTheWay(files: RefFiles, f: RefName, g: RefName, path: Bytes)
    requires FileTree(files) && f in files.loose && g in files.loose && Under(f, path) && Under(g, path)
    ensures f == g
  {
    hide Under, ValidRefName;
    UnderChain(f, g, path);
    UnderChain(g, f, path);
  }

  // ---- Writing a file ----------------------------------------------------------------------

  /** The file is there, and so are all directories above it. */
  function WithFile(files: RefFiles, name: RefName, content: Bytes): RefFiles
  {
    files.(loose := files.loose[name := content], dirs := files.dirs + Above(name))
  }

  /** Why a file cannot be written: `create_dir_all` meets a file, or `rename` meets a directory. */
  function WriteObstacle(files: RefFiles, name: RefName): Option<Error>
    requires ValidRefName(name)
  {
    NameHasParent(name);
    if Parent(name) in files.loose then Some(AlreadyExists) else InTheWay(files, name)
  }

  lemma {:induction false} NoObstacle(files: RefFiles, name: RefName)
    requires ValidRefName(name)
    ensures WriteObstacle(files, name).None? <==> InTheWay(files, name).None?
  {
    hide ValidRefName;
    NameHasParent(name);
  }

  lemma {:induction false} WithFileTree(files: RefFiles, name: RefName, content: Bytes)
    requires FileTree(files) && ValidRefName(name) && InTheWay(files, name).None?
    ensures FileTree(WithFile(files, name, content))
  {
    hide Under, ValidRefName, Above;
    var after := WithFile(files, name, content);
    forall d ensures d in Above(name) <==> Under(d, name) { AboveMeans(name, d); }
    UnderMeans(name, name);
    forall n, d | n in after.dirs && Under(d, n) ensures d in after.dirs {
      if n in Above(name) { UnderTransitive(d, n, name); }
    }
  }

  /** What writing a file puts in the way of others: it hides what lies above and below it. */
  lemma {:induction false} WithFileHides(files: RefFiles, name: RefName, content: Bytes, n: RefName)
    requires FileTree(files) && InTheWay(files, name).None? && n != name
    ensures var after := WithFile(files, name, content);
            && (n in after.loose <==> n in files.loose)
            && (Under(n, name) ==> n !in files.loose && InTheWay(after, n) == Some(IsADirectory))
            && (Under(name, n) && name !in files.loose ==>
                n !in files.loose && InTheWay(after, n) == Some(NotADirectory))
            && (!Under(n, name) && !(Under(name, n) && name !in files.loose) ==>
                InTheWay(after, n) == InTheWay(files, n))
  {
    hide Under, ValidRefName, Above;
    var after := WithFile(files, name, content);
    AboveMeans(name, n);
    if Under(name, n) {
      UnderMeans(name, n);
      UnderMeans(n, name);
      assert name in after.loose;
    }
    assert BehindFile(after, n) <==> BehindFile(files, n) || Under(name, n) by {
      if BehindFile(files, n) {
        var f :| f in files.loose && Under(f, n);
        assert f in after.loose;
      }
    }
  }

  // ---- Removing files ----------------------------------------------------------------------

  function WithoutFiles(files: RefFiles, names: set<RefName>): RefFiles
  {
    files.(loose := files.loose - names)
  }

  lemma {:induction false} WithoutFilesTree(files: RefFiles, names: set<RefName>)
    requires FileTree(files)
    ensures FileTree(WithoutFiles(files, names))
  {
    hide Under, ValidRefName;
  }

  /** Removing files opens the way to what lies below their names, and to nothing else. */
  lemma {:induction false} WithoutFilesOpens(files: RefFiles, names: set<RefName>, n: RefName)
    requires FileTree(files) && names <= files.loose.Keys
    ensures var after := WithoutFiles(files, names);
            && (n in names ==> InTheWay(files, n).None? && InTheWay(after, n).None?)
            && (forall f :: f in names && Under(f, n) ==>
                  n !in files.loose && InTheWay(files, n) == Some(NotADirectory) && InTheWay(after, n).None?)
            && ((forall f :: f in names ==> !Under(f, n)) ==> InTheWay(after, n) == InTheWay(files, n))
  {
    hide Under, ValidRefName;
    var after := WithoutFiles(files, names);
    if n in names { FilesAreFree(files, n); }
    assert forall f :: f in after.loose <==> f in files.loose && f !in names;
    if f :| f in names && Under(f, n) {
      forall g | g in files.loose && Under(g, n) ensures g == f { OneFileInTheWay(files, f, g, n); }
    } else if BehindFile(files, n) {
      var f :| f in files.loose && Under(f, n);
      assert f in after.loose;
    }
  }

  // ---- Pruning empty directories -----------------------------------------------------------

  /** Not `refs` itself and not one of its own sub-directories, which always stay. */
  predicate Deep(dir: Bytes)
  {
    REFS <= dir && SLASH in dir[|REFS|..]
  }

  /** `Path::parent`. */
  function Parent(path: Bytes): (dir: Bytes)
    requires SLASH in path
    ensures Under(dir, path) && |dir| < |path|
    ensures forall d :: Under(d, path) ==> |d| <= |dir|
  {
    var k := LastSlash(path);
    assert forall d :: Under(d, path) ==> |d| <= k by {
      forall d | Under(d, path) ensures |d| <= k { UnderMeans(d, path); }
    }
    UnderMeans(path[..k], path);
    path[..k]
  }

  function LastSlash(path: Bytes): (k: nat)
    requires SLASH in path
    ensures k < |path| && path[k] == SLASH && forall j :: k < j < |path| ==> path[j] != SLASH
  {
    if path[|path| - 1] == SLASH then |path| - 1 else LastSlash(path[..|path| - 1])
  }

  /** Something lies below the directory. */
  predicate Occupied(files: RefFiles, dir: Bytes)
  {
    (exists n :: n in files.loose && Under(dir, n)) || (exists d :: d in files.dirs && Under(dir, d))
  }

  /** Nothing lies below `dir` but the directories on the way to `name`, where a file has just been removed. */
  predicate OnlyWay(files: RefFiles, name: RefName, dir: Bytes)
  {
    && (forall n :: n in files.loose ==> !Under(dir, n))
    && (forall d :: d in files.dirs && Under(dir, d) ==> Under(d, name))
  }

  /** The directories that have become empty: the deep ones above `name` that hold nothing else. */
  function Emptied(files: RefFiles, name: RefName): (gone: set<Bytes>)
    ensures gone <= files.dirs
  {
    set d | d in files.dirs && Under(d, name) && Deep(d) && OnlyWay(files, name, d)
  }

  lemma {:induction false} DeepHasParent(dir: Bytes)
    requires Deep(dir)
    ensures SLASH in dir
  {
    assert dir[|REFS|..][IndexOf(dir[|REFS|..], SLASH)] == SLASH;
  }

  lemma {:induction false} DeepBelow(a: Bytes, b: Bytes)
    requires Under(a, b) && Deep(a)
    ensures Deep(b)
  {
    UnderMeans(a, b);
    assert a == b[..|a|];
    assert b[..|REFS|] == a[..|REFS|];
    var k := IndexOf(a[|REFS|..], SLASH);
    assert b[|REFS|..][k] == b[|REFS| + k] == a[|REFS| + k] == SLASH;
  }

  lemma {:induction false} NameHasParent(name: RefName)
    requires ValidRefName(name)
    ensures SLASH in name
  {
    assert name[4] == REFS[4];
  }

  /** Without the emptied directories the rest is still a tree. */
  lemma {:induction false} EmptiedTree(files: RefFiles, name: RefName)
    requires FileTree(files)
    ensures FileTree(files.(dirs := files.dirs - Emptied(files, name)))
  {
    hide Under, ValidRefName, Deep;
    var gone := Emptied(files, name);
    forall n, d | n in files.dirs - gone && Under(d, n) ensures d !in gone {
      if d in gone {
        assert Under(n, name);
        DeepBelow(d, n);
        forall x | x in files.dirs && Under(n, x) ensures Under(x, name) { UnderTransitive(d, n, x); }
        forall x | x in files.loose ensures !Under(n, x) {
          if Under(n, x) { UnderTransitive(d, n, x); }
        }
      }
    }
  }

  /** Pruning opens the way to the emptied directories' own names, and to nothing else. */
  lemma {:induction false} EmptiedOpens(files: RefFiles, name: RefName, n: RefName)
    requires FileTree(files)
    ensures var gone := Emptied(files, name);
            InTheWay(files.(dirs := files.dirs - gone), n) == if n in gone then None else InTheWay(files, n)
  {
    hide Under, ValidRefName, Emptied;
    var gone := Emptied(files, name);
    var after := files.(dirs := files.dirs - gone);
    assert BehindFile(after, n) <==> BehindFile(files, n);
    if n in gone { FilesAreFree(files, n); }
  }

  /** How far the loop has come: everything emptied below `dir` is gone, and nothing but that. */
  ghost predicate Pruning(before: RefFiles, name: RefName, dirs: set<Bytes>, dir: Bytes)
  {
    && Under(dir, name)
    && dirs == before.dirs - (set d | d in before.dirs && Under(d, name) && |d| > |dir|)
    && forall d :: d in before.dirs && Under(d, name) && |d| > |dir| ==> d in Emptied(before, name)
  }

  lemma {:induction false} PruningStarts(before: RefFiles, name: RefName)
    requires FileTree(before) && ValidRefName(name)
    ensures SLASH in name && Pruning(before, name, before.dirs, Parent(name))
  {
    hide Under, ValidRefName, Emptied;
    NameHasParent(name);
  }

  lemma {:induction false} PruningStep(before: RefFiles, name: RefName, dirs: set<Bytes>, dir: Bytes)
    requires FileTree(before) && Pruning(before, name, dirs, dir) && dir in before.dirs
    requires Deep(dir) && !Occupied(before.(dirs := dirs), dir)
    ensures SLASH in dir && Pruning(before, name, dirs - {dir}, Parent(dir))
  {
    hide Under, ValidRefName, Deep;
    DeepHasParent(dir);
    var parent := Parent(dir);
    UnderTransitive(parent, dir, name);
    forall d | Under(d, name) && |d| > |parent| ensures |d| > |dir| || d == dir {
      UnderChain(d, dir, name);
    }
    assert OnlyWay(before, name, dir) by {
      forall d | d in before.dirs && Under(dir, d) ensures Under(d, name) {
        assert d !in dirs;
      }
    }
  }

  lemma {:induction false} PruningEnds(before: RefFiles, name: RefName, dirs: set<Bytes>, dir: Bytes)
    requires FileTree(before) && Pruning(before, name, dirs, dir)
    requires !Deep(dir) || Occupied(before.(dirs := dirs), dir)
    ensures dirs == before.dirs - Emptied(before, name)
  {
    hide Under, ValidRefName, Deep;
    forall d | d in Emptied(before, name) ensures |d| > |dir| {
      UnderChain(d, dir, name);
      if |d| <= |dir| {
        if Under(d, dir) { DeepBelow(d, dir); }
        assert Deep(dir);
        Unpruned(before, name, dirs, dir, d);
      }
    }
  }

  lemma {:induction false} Unpruned(before: RefFiles, name: RefName, dirs: set<Bytes>, dir: Bytes, d: Bytes)
    requires Pruning(before, name, dirs, dir) && Occupied(before.(dirs := dirs), dir)
    requires d == dir || Under(d, dir)
    ensures !OnlyWay(before, name, d)
  {
    hide Under, Emptied;
    if n :| n in before.loose && Under(dir, n) {
      if d != dir { UnderTransitive(d, dir, n); }
    } else {
      var x :| x in dirs && Under(dir, x);
      if d != dir { UnderTransitive(d, dir, x); }
      UnderMeans(dir, x);
      assert x in before.dirs && !Under(x, name);
    }
  }

  /** The directories that may be pruned have two or more components behind `refs`. */
  lemma {:induction false} DeepMeans(dir: Bytes)
    ensures Deep(dir) <==> |Split(dir, 47)| >= 3 && Split(dir, 47)[0] == [114, 101, 102, 115]
  {
    hide Split;
    var k := IndexOf(dir, 47);
    if k < |dir| {
      assert dir == dir[..k] + [47] + dir[k + 1..];
      SplitFirst(dir[..k], 47, dir[k + 1..]);
      MoreParts(dir[k + 1..]);
      if dir[..k] == [114, 101, 102, 115] { assert dir[..5] == REFS && dir[5..] == dir[k + 1..]; }
      if REFS <= dir {
        assert forall i :: 0 <= i < 5 ==> dir[i] == REFS[i];
        SlashAt(dir, 4);
        assert dir[..4] == REFS[..4];
      }
    } else {
      assert dir[..k] == dir;
      SplitFirst(dir, 47, []);
      SlashInRefs(dir);
    }
  }

  lemma {:induction false} SlashInRefs(dir: Bytes)
    ensures REFS <= dir ==> 47 in dir
  {
    assert REFS <= dir ==> dir[4] == REFS[4] == 47;
  }

  lemma {:induction false} SlashAt(s: Bytes, k: nat)
    requires k < |s| && s[k] == 47 && forall i :: 0 <= i < k ==> s[i] != 47
    ensures IndexOf(s, 47) == k
  {
    assert s == s[..k] + [47] + s[k + 1..];
    IndexOfFirst(s[..k], 47, s[k + 1..]);
  }

  lemma {:induction false} MoreParts(s: Bytes)
    ensures |Split(s, 47)| >= 2 <==> 47 in s
  {
    var k := IndexOf(s, 47);
    if k == |s| { assert s[..k] == s; } else { assert s[k] == 47; }
  }
}
