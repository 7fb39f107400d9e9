/** `path_list_to_tree` and `_recurse`, which `sls_api/endpoints/tools/files.py`
    and `sls_api/endpoints/tools_files.py` define identically: the output of
    `git ls-files` turned into nested dictionaries, a file mapping to `None`
    and a directory to the dictionary of its entries. */
module FileTree {
  import opened Wrappers
  import opened PyStrings
  import opened Json

  /** A value of the nested dictionary: `None` for a file, a dictionary
      for a directory. */
  datatype Node = File | Dir(children: map<string, Node>)

  type Tree = map<string, Node>

  /** The node reached from `tree` along the segments `q`, if any. */
  function Get(tree: Tree, q: seq<string>): Option<Node>
    requires |q| >= 1
    decreases |q|
  {
    if q[0] !in tree then None
    else if |q| == 1 then Some(tree[q[0]])
    else match tree[q[0]]
      case File => None
      case Dir(c) => Get(c, q[1..])
  }

  /** Some proper prefix of `parts` is a file: a later segment would have
      to be stored inside `None`. */
  ghost predicate Blocked(tree: Tree, parts: seq<string>) {
    exists i :: 1 <= i < |parts| && Get(tree, parts[..i]) == Some(File)
  }

  /** `parts` is a file of `tree`, every proper prefix a directory, and
      nothing lies below it. */
  ghost predicate Installed(tree: Tree, parts: seq<string>)
    requires |parts| >= 1
  {
    Get(tree, parts) == Some(File)
    && (forall i :: 1 <= i < |parts| ==> Get(tree, parts[..i]).Some? && Get(tree, parts[..i]).value.Dir?)
    && (forall q :: |q| > |parts| && q[..|parts|] == parts ==> Get(tree, q).None?)
  }

  /** `q` and `parts` part ways at some segment. */
  ghost predicate Diverges(q: seq<string>, parts: seq<string>) {
    exists i :: 0 <= i < |q| && i < |parts| && q[i] != parts[i]
  }

  /** Every path that parts ways with `parts` reaches the same node in
      both trees. */
  ghost predicate Unchanged(before: Tree, after: Tree, parts: seq<string>) {
    forall q :: |q| >= 1 && Diverges(q, parts) ==> Get(after, q) == Get(before, q)
  }

  /** `_recurse` on a path already split into segments: the last segment
      becomes a file, each earlier one a directory, an existing directory
      being reused; storing below a file is Python's `TypeError` on `None`. */
  function Insert(parts: seq<string>, tree: Tree): (r: Result<Tree, PyError>)
    requires |parts| >= 1
    ensures r.Failure? ==> r.error == TypeError
    ensures r.Success? ==> r.value.Keys == tree.Keys + {parts[0]}
    ensures r.Success? ==> forall k :: k in tree && k != parts[0] ==> r.value[k] == tree[k]
    decreases |parts|
  {
    var head := parts[0];
    if |parts| == 1 then Success(tree[head := File])
    else
      var sub := if head in tree then tree[head] else Dir(map[]);
      match sub
      case File => Failure(TypeError)
      case Dir(c) =>
        var r :- Insert(parts[1..], c);
        Success(tree[head := Dir(r)])
  }

  /** Inserting fails exactly when a proper prefix is a file; otherwise
      the path becomes a file with its prefixes directories, whatever was
      below it is gone, and every path that parts ways with it is
      untouched, so an existing directory keeps its other entries. */
  lemma {:induction false} InsertSpec(parts: seq<string>, tree: Tree)
    requires |parts| >= 1
    ensures Insert(parts, tree).Failure? <==> Blocked(tree, parts)
    ensures Insert(parts, tree).Success? ==> Installed(Insert(parts, tree).value, parts)
    ensures Insert(parts, tree).Success? ==> Unchanged(tree, Insert(parts, tree).value, parts)
    decreases |parts|
  {
    var head := parts[0];
    if |parts| == 1 {
      var t := tree[head := File];
      forall q | |q| >= 1 && Diverges(q, parts)
        ensures Get(t, q) == Get(tree, q)
      {
        assert q[0] != head;
      }
    } else {
      var sub := if head in tree then tree[head] else Dir(map[]);
      if sub.File? {
        assert parts[..1] == [head];
        assert Get(tree, parts[..1]) == Some(File);
      } else {
        var c := sub.children;
        var rest := parts[1..];
        InsertSpec(rest, c);
        BlockedBelow(parts, tree, c);
        if Insert(rest, c).Success? {
          var r := Insert(rest, c).value;
          InstalledBelow(parts, tree, c, r);
          UnchangedBelow(parts, tree, c, r);
        }
      }
    }
  }

  /** Below an existing or new directory `parts[0]`, a proper prefix of
      `parts` is a file exactly when one of the rest is in it. */
  lemma BlockedBelow(parts: seq<string>, tree: Tree, c: Tree)
    requires |parts| >= 2
    requires parts[0] in tree ==> tree[parts[0]] == Dir(c)
    requires parts[0] !in tree ==> c == map[]
    ensures Blocked(tree, parts) <==> Blocked(c, parts[1..])
  {
    var head := parts[0];
    var rest := parts[1..];
    forall i | 2 <= i < |parts|
      ensures Get(tree, parts[..i]) == Get(c, rest[..i - 1])
    {
      GetThrough(tree, head, c, parts[..i]);
      assert parts[..i][1..] == rest[..i - 1];
    }
    assert Get(tree, parts[..1]) != Some(File) by {
      assert parts[..1] == [head];
    }
    if Blocked(c, rest) {
      var j :| 1 <= j < |rest| && Get(c, rest[..j]) == Some(File);
      assert Get(tree, parts[..j + 1]) == Some(File);
    }
  }

  /** Storing the rest as installed below `parts[0]` installs `parts`. */
  lemma InstalledBelow(parts: seq<string>, tree: Tree, c: Tree, r: Tree)
    requires |parts| >= 2
    requires Installed(r, parts[1..])
    ensures Installed(tree[parts[0] := Dir(r)], parts)
  {
    var head := parts[0];
    var rest := parts[1..];
    var t := tree[head := Dir(r)];
    assert Get(t, parts) == Get(r, rest);
    forall i | 1 <= i < |parts|
      ensures Get(t, parts[..i]).Some? && Get(t, parts[..i]).value.Dir?
    {
      if i >= 2 {
        assert parts[..i][1..] == rest[..i - 1];
        assert Get(t, parts[..i]) == Get(r, rest[..i - 1]);
      } else {
        assert parts[..i] == [head];
      }
    }
    forall q | |q| > |parts| && q[..|parts|] == parts
      ensures Get(t, q).None?
    {
      assert q[0] == head;
      assert q[1..][..|rest|] == rest;
      assert Get(t, q) == Get(r, q[1..]);
    }
  }

  /** Storing the rest below `parts[0]` without touching the paths that
      part ways with it there leaves every path that parts ways with
      `parts` untouched. */
  lemma UnchangedBelow(parts: seq<string>, tree: Tree, c: Tree, r: Tree)
    requires |parts| >= 2
    requires parts[0] in tree ==> tree[parts[0]] == Dir(c)
    requires parts[0] !in tree ==> c == map[]
    requires Unchanged(c, r, parts[1..])
    ensures Unchanged(tree, tree[parts[0] := Dir(r)], parts)
  {
    var head := parts[0];
    var rest := parts[1..];
    var t := tree[head := Dir(r)];
    forall q | |q| >= 1 && Diverges(q, parts)
      ensures Get(t, q) == Get(tree, q)
    {
      if q[0] == head {
        var i :| 0 <= i < |q| && i < |parts| && q[i] != parts[i];
        assert q[1..][i - 1] != rest[i - 1];
        assert Diverges(q[1..], rest);
        GetThrough(tree, head, c, q);
        assert Get(t, q) == Get(r, q[1..]);
      }
    }
  }

  /** Below `head`, a path is looked up in the directory stored there (an
      absent directory being the empty one `_recurse` creates). */
  lemma GetThrough(tree: Tree, head: string, c: Tree, q: seq<string>)
    requires head in tree ==> tree[head] == Dir(c)
    requires head !in tree ==> c == map[]
    requires |q| >= 2 && q[0] == head
    ensures Get(tree, q) == Get(c, q[1..])
  {
  }

  /** `_recurse(path, container)`: the path split on "/". */
  function Recurse(path: string, tree: Tree): (r: Result<Tree, PyError>)
    ensures r.Failure? ==> r.error == TypeError
    ensures r.Success? ==> r.value.Keys == tree.Keys + {Split(path, "/")[0]}
  {
    Insert(Split(path, "/"), tree)
  }

  /** `Recurse` satisfies the recursion of `_recurse`: a path without "/"
      is stored as a file, otherwise the rest of the path, re-joined with
      "/", goes into the directory named by the first segment. */
  lemma RecurseUnfolds(path: string, tree: Tree)
    ensures var parts := Split(path, "/");
      var head := parts[0];
      var tail := parts[1..];
      Recurse(path, tree) ==
        if |tail| == 0 then Success(tree[head := File])
        else
          var sub := if head in tree then tree[head] else Dir(map[]);
          if sub.File? then Failure(TypeError)
          else match Recurse(Join(tail, "/"), sub.children)
            case Success(r) => Success(tree[head := Dir(r)])
            case Failure(e) => Failure(e)
  {
    var parts := Split(path, "/");
    if |parts| > 1 {
      SplitPiecesFree(path, "/");
      forall k | 0 <= k < |parts[1..]|
        ensures '/' !in parts[1..][k]
      {
        ContainsChar(parts[1..][k], '/');
      }
      SplitJoinChar(parts[1..], '/');
    }
  }

  /** `path_list_to_tree`: the paths stored one after the other into an
      empty dictionary. */
  function PathListToTree(paths: seq<string>): (r: Result<Tree, PyError>)
    ensures |paths| == 0 ==> r == Success(map[])
  {
    InsertAll(paths, map[])
  }

  /** The paths stored one after the other into `tree`: the top-level
      entries are the earlier ones plus the first segment of every path. */
  function InsertAll(paths: seq<string>, tree: Tree): (r: Result<Tree, PyError>)
    ensures r.Failure? ==> r.error == TypeError
    ensures r.Success? ==> r.value.Keys == tree.Keys + set k | 0 <= k < |paths| :: Split(paths[k], "/")[0]
    decreases |paths|
  {
    if |paths| == 0 then Success(tree)
    else
      var t :- Recurse(paths[0], tree);
      InsertAll(paths[1..], t)
  }

  /** The last path of a list that is turned into a tree is a file of the
      tree, each of its prefixes a directory. */
  lemma {:induction false} LastPathInstalled(paths: seq<string>, tree: Tree)
    requires |paths| >= 1
    requires InsertAll(paths, tree).Success?
    ensures Installed(InsertAll(paths, tree).value, Split(paths[|paths| - 1], "/"))
    decreases |paths|
  {
    var t := Recurse(paths[0], tree).value;
    if |paths| == 1 {
      InsertSpec(Split(paths[0], "/"), tree);
    } else {
      LastPathInstalled(paths[1..], t);
    }
  }

  /** Two files in one directory share the directory's node; a path equal
      to a directory replaces the directory by a file; and a path below a
      file is a `TypeError`. */
  lemma TreeExamples()
    ensures PathListToTree(["a/b", "a/c"]) == Success(map["a" := Dir(map["b" := File, "c" := File])])
    ensures PathListToTree(["a/b", "a"]) == Success(map["a" := File])
    ensures PathListToTree(["a", "a/b"]) == Failure(TypeError)
  {
    FirstFile();
    SecondFile();
    FileOverDirectory();
    FileBelowFile();
    var t1 := map["a" := Dir(map["b" := File])];
    assert PathListToTree(["a/b", "a/c"]) == InsertAll(["a/c"], t1);
    assert PathListToTree(["a/b", "a"]) == InsertAll(["a"], t1);
  }

  lemma FirstFile()
    ensures Recurse("a/b", map[]) == Success(map["a" := Dir(map["b" := File])])
  {
    SplitTwo("a", "b");
    assert "a/b" == "a" + "/" + "b";
    assert Insert(["b"], map[]) == Success(map["b" := File]);
  }

  lemma SecondFile()
    ensures Recurse("a/c", map["a" := Dir(map["b" := File])]) == Success(map["a" := Dir(map["b" := File, "c" := File])])
  {
    SplitTwo("a", "c");
    assert "a/c" == "a" + "/" + "c";
    var t1 := map["a" := Dir(map["b" := File])];
    assert Insert(["c"], map["b" := File]) == Success(map["b" := File, "c" := File]);
    assert ["a", "c"][1..] == ["c"] && ["a", "c"][0] == "a";
    assert t1["a" := Dir(map["b" := File, "c" := File])] == map["a" := Dir(map["b" := File, "c" := File])];
  }

  lemma FileOverDirectory()
    ensures Recurse("a", map["a" := Dir(map["b" := File])]) == Success(map["a" := File])
  {
    SplitOne("a");
    var t1 := map["a" := Dir(map["b" := File])];
    assert t1["a" := File] == map["a" := File];
  }

  lemma FileBelowFile()
    ensures PathListToTree(["a", "a/b"]) == Failure(TypeError)
  {
    SplitOne("a");
    SplitTwo("a", "b");
    assert "a/b" == "a" + "/" + "b";
    assert Recurse("a", map[]) == Success(map["a" := File]);
    assert Recurse("a/b", map["a" := File]) == Failure(TypeError);
  }

  lemma SplitOne(a: string)
    requires '/' !in a
    ensures Split(a, "/") == [a]
  {
    ContainsChar(a, '/');
    SplitWithoutSep(a, "/");
  }

  lemma SplitTwo(a: string, b: string)
    requires '/' !in a && '/' !in b
    ensures Split(a + "/" + b, "/") == [a, b]
  {
    assert a + "/" + b == a + ['/'] + b;
    SplitAtChar(a, '/', b);
    SplitOne(a);
    SplitOne(b);
  }
}
