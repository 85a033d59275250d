/**
 The virtual file system: a tree of nodes in one map keyed by absolute path, and a table of open
 files over it. The locks around both are the subject of module IrqLock.
 */
module Vfs {
  import opened Wrappers

  datatype Error = NotFound | AlreadyExists | NotADirectory | IsADirectory | InvalidPath

  datatype Result<T> = Ok(value: T) | Err(error: Error)

  datatype Kind = FileKind | DirKind

  datatype Metadata = Metadata(kind: Kind, size: nat)

  datatype Node = File(content: seq<Byte>) | Dir

  type Tree = map<string, Node>

  // ----- paths

  function LastSlash(s: string): (i: int)
    ensures -1 <= i < |s| && (i >= 0 ==> s[i] == '/') && forall k :: i < k < |s| ==> s[k] != '/'
  {
    if |s| == 0 then -1 else if s[|s| - 1] == '/' then |s| - 1 else LastSlash(s[..|s| - 1])
  }

  /** An absolute path without one redundant slash at its end. */
  function Clean(path: string): (r: Result<string>)
    ensures r.Ok? ==> |r.value| > 0 && r.value[0] == '/' && r.value <= path
  {
    if |path| == 0 || path[0] != '/' then Err(InvalidPath)
    else if |path| > 1 && path[|path| - 1] == '/' then Ok(path[..|path| - 1])
    else Ok(path)
  }

  function ParentOf(path: string): string {
    var i := LastSlash(path);
    if i <= 0 then "/" else path[..i]
  }

  function BaseName(path: string): string {
    path[LastSlash(path) + 1..]
  }

  predicate IsAbsolute(path: string) {
    |path| > 0 && path[0] == '/'
  }

  /** One slash behind an absolute path is redundant; a path is clean exactly when it is the root or ends in none. */
  lemma CleanRemovesOne(p: string)
    requires IsAbsolute(p)
    ensures Clean(p + "/") == Ok(p)
    ensures Clean(p) == Ok(p) <==> p == "/" || p[|p| - 1] != '/'
  {
    assert (p + "/")[..|p|] == p;
    assert |p| == 1 ==> p == "/";
  }

  /** Cleaning is not always final: it is exactly for paths that do not end in two slashes, the path of two slashes aside. */
  lemma CleanStableIff(path: string)
    requires IsAbsolute(path)
    ensures Clean(Clean(path).value) == Clean(path) <==> |path| <= 2 || path[|path| - 1] != '/' || path[|path| - 2] != '/'
  {
    CleanRemovesOne(Clean(path).value);
    assert |path| == 2 && path[1] == '/' ==> path[..1] == "/";
  }

  /** A parent is a shorter absolute path. */
  lemma ParentIsShorter(path: string)
    requires IsAbsolute(path) && path != "/"
    ensures IsAbsolute(ParentOf(path)) && |ParentOf(path)| < |path|
  {
    var i := LastSlash(path);
    if i > 0 {
      assert path[..i][0] == path[0];
    } else {
      assert |path| == 1 ==> path == "/";
    }
  }

  /** The keys whose parent is `path`, by name: one of them, but at the root both "/x" and "//x". */
  lemma ChildForms(k: string, path: string)
    requires IsAbsolute(k) && k != path && IsAbsolute(path)
    ensures ParentOf(k) == path <==>
            if path == "/" then k == "/" + BaseName(k) || k == "//" + BaseName(k) else k == path + "/" + BaseName(k)
    ensures '/' !in BaseName(k)
  {
    var i := LastSlash(k);
    var x := BaseName(k);
    assert i >= 0 && k == k[..i] + "/" + x && '/' !in x;
    if i == 0 {
      assert k == "/" + x;
      assert path != "/" ==> k != path + "/" + x by {
        assert |path + "/" + x| > |k|;
      }
    } else {
      assert k[..i][0] == '/';
      if path == k[..i] {
        assert k == path + "/" + x;
        assert path == "/" ==> k == "//" + x;
      } else {
        assert |path| == i ==> (path + "/" + x)[..i] == path;
        assert k == "//" + x ==> i == 1;
      }
    }
  }

  // ----- the tree

  /** The root is a directory and so is the parent of every other node. */
  ghost predicate Closed(t: Tree) {
    && "/" in t && t["/"].Dir?
    && forall k :: k in t ==> IsAbsolute(k) && (k != "/" ==> ParentOf(k) in t && t[ParentOf(k)].Dir?)
  }

  /** Going from parent to parent, through directories, ends at the root. */
  ghost predicate ReachesRoot(t: Tree, k: string)
    requires IsAbsolute(k)
    decreases |k|
  {
    k == "/" ||
    (ParentIsShorter(k);
     k in t && ParentOf(k) in t && t[ParentOf(k)].Dir? && ReachesRoot(t, ParentOf(k)))
  }

  lemma {:induction false} NodesReachRoot(t: Tree, k: string)
    requires Closed(t) && k in t
    ensures IsAbsolute(k) && ReachesRoot(t, k)
    decreases |k|
  {
    if k != "/" {
      ParentIsShorter(k);
      NodesReachRoot(t, ParentOf(k));
    }
  }

  function Lookup(t: Tree, path: string): Result<Node> {
    match Clean(path)
    case Err(e) => Err(e)
    case Ok(p) => if p in t then Ok(t[p]) else Err(NotFound)
  }

  function CreateIn(t: Tree, path: string, kind: Kind): Result<Tree> {
    match Clean(path)
    case Err(e) => Err(e)
    case Ok(p) =>
      if p in t then Err(AlreadyExists)
      else if ParentOf(p) !in t then Err(NotFound)
      else if t[ParentOf(p)].File? then Err(NotADirectory)
      else Ok(t[p := if kind.FileKind? then File([]) else Dir])
  }

  function WriteIn(t: Tree, path: string, data: seq<Byte>): Result<Tree> {
    match Lookup(t, path)
    case Err(e) => Err(e)
    case Ok(Dir) => Err(IsADirectory)
    case Ok(File(_)) => Ok(t[Clean(path).value := File(data)])
  }

  /** Creation succeeds exactly for a new path under a directory, adds one empty node, and keeps the tree closed. */
  lemma CreateGrows(t: Tree, path: string, kind: Kind)
    requires Closed(t)
    ensures CreateIn(t, path, kind).Ok? <==>
            Lookup(t, path) == Err(NotFound) && (var up := ParentOf(Clean(path).value); up in t && t[up].Dir?)
    ensures var r := CreateIn(t, path, kind);
            r.Ok? ==> && Closed(r.value) && r.value.Keys == t.Keys + {Clean(path).value}
                      && Lookup(r.value, path) == Ok(if kind.FileKind? then File([]) else Dir)
                      && forall k :: k in t ==> r.value[k] == t[k]
  {
  }

  lemma WriteReplaces(t: Tree, path: string, data: seq<Byte>)
    requires Closed(t)
    ensures WriteIn(t, path, data).Ok? <==> Lookup(t, path).Ok? && Lookup(t, path).value.File?
    ensures var r := WriteIn(t, path, data);
            r.Ok? ==> && Closed(r.value) && r.value.Keys == t.Keys && Lookup(r.value, path) == Ok(File(data))
                      && forall k :: k in t && k != Clean(path).value ==> r.value[k] == t[k]
  {
  }

  /** Which error a creation gives, each in its own case. */
  lemma CreateErrors(t: Tree, path: string, kind: Kind)
    requires Closed(t)
    ensures CreateIn(t, path, kind) == Err(InvalidPath) <==> !IsAbsolute(path)
    ensures CreateIn(t, path, kind) == Err(AlreadyExists) <==> IsAbsolute(path) && Clean(path).value in t
    ensures CreateIn(t, path, kind) == Err(NotFound) <==>
            IsAbsolute(path) && Clean(path).value !in t && ParentOf(Clean(path).value) !in t
    ensures CreateIn(t, path, kind) == Err(NotADirectory) <==>
            IsAbsolute(path) && Clean(path).value !in t && ParentOf(Clean(path).value) in t && t[ParentOf(Clean(path).value)].File?
  {
  }

  /** Which error a lookup gives, and a write. */
  lemma LookupErrors(t: Tree, path: string, data: seq<Byte>)
    ensures Lookup(t, path) == Err(InvalidPath) <==> !IsAbsolute(path)
    ensures Lookup(t, path) == Err(NotFound) <==> IsAbsolute(path) && Clean(path).value !in t
    ensures IsAbsolute(path) && Clean(path).value in t ==> Lookup(t, path) == Ok(t[Clean(path).value])
    ensures WriteIn(t, path, data) == Err(IsADirectory) <==> Lookup(t, path) == Ok(Dir)
    ensures Lookup(t, path).Err? ==> WriteIn(t, path, data) == Err(Lookup(t, path).error)
  {
  }

  // ----- listing

  ghost function Children(t: Tree, path: string): set<string> {
    set k | k in t && k != path && ParentOf(k) == path
  }

  /** `names` are the base names of the keys of `among`, one for each key. */
  ghost predicate NamesOf(names: seq<string>, keys: seq<string>, among: set<string>) {
    && |names| == |keys| && (forall i :: 0 <= i < |keys| ==> keys[i] in among && names[i] == BaseName(keys[i]))
    && (forall k :: k in among ==> k in keys)
    && (forall i, j :: 0 <= i < j < |keys| ==> keys[i] != keys[j])
  }

  ghost predicate HasRepeat(names: seq<string>) {
    exists i, j :: 0 <= i < j < |names| && names[i] == names[j]
  }

  /** The name has no slash and both "/x" and "//x" are nodes, which have the root for parent alike. */
  ghost predicate IsTwice(t: Tree, x: string) {
    x != "" && '/' !in x && "/" + x in t && "//" + x in t
  }

  lemma RootChild(x: string)
    requires '/' !in x
    ensures x != "" ==> ParentOf("/" + x) == "/" && BaseName("/" + x) == x
    ensures ParentOf("//" + x) == "/" && BaseName("//" + x) == x
  {
    SlashBefore("", x);
    SlashBefore("/", x);
    assert "" + "/" + x == "/" + x && "/" + "/" + x == "//" + x;
  }

  lemma LastSlashIs(k: string, i: nat)
    requires i < |k| && k[i] == '/' && forall m :: i < m < |k| ==> k[m] != '/'
    ensures LastSlash(k) == i
  {
    hide LastSlash;
  }

  lemma NoSlashBehind(front: string, x: string)
    requires forall i :: 0 <= i < |x| ==> x[i] != '/'
    ensures forall m :: |front| <= m < |front + x| ==> (front + x)[m] != '/'
  {
    forall m | |front| <= m < |front + x|
      ensures (front + x)[m] != '/'
    {
      assert (front + x)[m] == x[m - |front|];
    }
  }

  lemma SlashBefore(s: string, x: string)
    requires forall i :: 0 <= i < |x| ==> x[i] != '/'
    ensures LastSlash(s + "/" + x) == |s|
  {
    hide LastSlash;
    var front := s + "/";
    assert front[|s|] == '/' && |front| == |s| + 1;
    NoSlashBehind(front, x);
    assert (front + x)[|s|] == front[|s|];
    LastSlashIs(front + x, |s|);
  }

  /** A listing gives a name twice exactly at the root, for a node reached both as "/x" and as "//x". */
  lemma ListRepeatsIff(t: Tree, path: string, names: seq<string>, keys: seq<string>)
    requires Closed(t) && IsAbsolute(path) && NamesOf(names, keys, Children(t, path))
    ensures HasRepeat(names) <==> path == "/" && exists x :: IsTwice(t, x)
  {
    if i, j :| 0 <= i < j < |names| && names[i] == names[j] {
      ChildForms(keys[i], path);
      ChildForms(keys[j], path);
      assert IsTwice(t, names[i]);
    }
    if path == "/" {
      if x :| IsTwice(t, x) {
        RootChild(x);
        var a, b := "/" + x, "//" + x;
        assert a in Children(t, path) && b in Children(t, path) && |a| != |b|;
        var i :| 0 <= i < |keys| && keys[i] == a;
        var j :| 0 <= j < |keys| && keys[j] == b;
        assert names[i] == names[j];
      }
    }
  }

  /** Such a pair is two creations away from an empty tree. */
  lemma RepeatIsReachable(x: string)
    requires x != "" && forall i :: 0 <= i < |x| ==> x[i] != '/'
    ensures var s := Run(State(None, None), [Mount, Create("/" + x, FileKind), Create("//" + x, FileKind)]);
            s.root.Some? && Closed(s.root.value) && IsTwice(s.root.value, x)
  {
    var ops := [Mount, Create("/" + x, FileKind), Create("//" + x, FileKind)];
    assert ops[..2] == [Mount, Create("/" + x, FileKind)] && ops[..2][..1] == [Mount];
    var t0: Tree := map["/" := Dir];
    var t1 := t0["/" + x := File([])];
    hide LastSlash;
    RootChild(x);
    assert Run(State(None, None), [Mount]) == State(Some(t0), None);
    assert CreateIn(t0, "/" + x, FileKind) == Ok(t1);
    assert Run(State(None, None), ops[..2]) == State(Some(t1), None);
    assert |"//" + x| != |"/" + x|;
    assert CreateIn(t1, "//" + x, FileKind) == Ok(t1["//" + x := File([])]);
    RunStaysClosed(State(None, None), ops);
  }

  lemma ListOnce(t: Tree, path: string, names: seq<string>, keys: seq<string>)
    requires Closed(t) && IsAbsolute(path) && NamesOf(names, keys, Children(t, path))
    requires forall k :: k in t && |k| > 1 ==> k[1] != '/'
    ensures !HasRepeat(names)
  {
    ListRepeatsIff(t, path, names, keys);
    forall x
      ensures !IsTwice(t, x)
    {
      assert ("//" + x)[1] == '/';
    }
  }

  // ----- the order of the sorted map

  /** Character by character, a proper prefix first. */
  predicate Below(a: string, b: string) {
    |b| > 0 && (|a| == 0 || a[0] < b[0] || (a[0] == b[0] && Below(a[1..], b[1..])))
  }

  lemma {:induction false} BelowOneWay(a: string, b: string)
    ensures a == b || Below(a, b) || Below(b, a)
    ensures !(Below(a, b) && (a == b || Below(b, a)))
  {
    if |a| == 0 || |b| == 0 || a[0] != b[0] {
      assert |a| == 0 && |b| == 0 ==> a == b;
    } else {
      BelowOneWay(a[1..], b[1..]);
      assert a == [a[0]] + a[1..] && b == [b[0]] + b[1..];
    }
  }

  lemma {:induction false} BelowChains(a: string, b: string, c: string)
    requires Below(a, b) && Below(b, c)
    ensures Below(a, c)
  {
    if |a| > 0 && a[0] == b[0] == c[0] {
      BelowChains(a[1..], b[1..], c[1..]);
    }
  }

  predicate IsFirst(k: string, keys: set<string>) {
    k in keys && forall j :: j in keys && j != k ==> Below(k, j)
  }

  lemma {:induction false} FirstExists(keys: set<string>)
    requires keys != {}
    ensures exists k :: IsFirst(k, keys)
  {
    var x :| x in keys;
    var rest := keys - {x};
    if rest == {} {
      assert keys == {x};
      assert IsFirst(x, keys);
    } else {
      FirstExists(rest);
      var k :| IsFirst(k, rest);
      FirstOfMore(k, rest, x);
      assert keys == rest + {x};
    }
  }

  lemma FirstOfMore(k: string, rest: set<string>, x: string)
    requires IsFirst(k, rest) && x !in rest
    ensures exists f :: IsFirst(f, rest + {x})
  {
    BelowOneWay(k, x);
    if Below(k, x) {
      assert IsFirst(k, rest + {x});
    } else {
      forall j | j in rest && j != k
        ensures Below(x, j)
      {
        BelowChains(x, k, j);
      }
      assert IsFirst(x, rest + {x});
    }
  }

  /** The first key of the sorted map. */
  function FirstKey(keys: set<string>): (k: string)
    requires keys != {}
    ensures IsFirst(k, keys)
  {
    FirstExists(keys);
    FirstUnique(keys);
    var k :| k in keys && IsFirst(k, keys);
    k
  }

  lemma FirstUnique(keys: set<string>)
    ensures forall j, k :: IsFirst(j, keys) && IsFirst(k, keys) ==> j == k
  {
    forall j, k | IsFirst(j, keys) && IsFirst(k, keys)
      ensures j == k
    {
      BelowOneWay(j, k);
    }
  }

  ghost predicate Ascending(keys: seq<string>) {
    forall i, j :: 0 <= i < j < |keys| ==> Below(keys[i], keys[j])
  }

  ghost predicate AllBelow(keys: seq<string>, pending: set<string>) {
    forall i, k :: 0 <= i < |keys| && k in pending ==> Below(keys[i], k)
  }

  lemma FirstIsMember(k: string, keys: set<string>)
    requires IsFirst(k, keys)
    ensures k in keys
  {
  }

  lemma NextInOrder(keys: seq<string>, pending: set<string>, key: string)
    requires Ascending(keys) && AllBelow(keys, pending) && IsFirst(key, pending)
    ensures Ascending(keys + [key]) && AllBelow(keys + [key], pending - {key}) && AllBelow(keys, pending - {key})
  {
  }

  lemma NoNames(among: set<string>)
    requires among == {}
    ensures NamesOf([], [], among)
  {
  }

  lemma NamesStep(names: seq<string>, keys: seq<string>, all: set<string>, pending: set<string>, key: string)
    requires key in pending && NamesOf(names, keys, all - pending)
    ensures if key in all then NamesOf(names + [BaseName(key)], keys + [key], all - (pending - {key}))
            else NamesOf(names, keys, all - (pending - {key}))
  {
    hide BaseName;
    if key in all {
      var longer := keys + [key];
      assert all - (pending - {key}) == all - pending + {key};
      assert forall k :: k in keys ==> k in longer;
      assert longer[|keys|] == key;
    } else {
      assert all - (pending - {key}) == all - pending;
    }
  }

  class TmpFs {
    var nodes: Tree

    constructor ()
      ensures nodes == map["/" := Dir] && Closed(nodes)
    {
      nodes := map["/" := Dir];
    }

    method Create(path: string, kind: Kind) returns (r: Result<()>)
      requires Closed(nodes)
      modifies this
      ensures Closed(nodes)
      ensures match CreateIn(old(nodes), path, kind)
              case Ok(t) => r == Ok(()) && nodes == t
              case Err(e) => r == Err(e) && nodes == old(nodes)
    {
      CreateGrows(nodes, path, kind);
      if Clean(path).Err? {
        return Err(Clean(path).error);
      }
      var p := Clean(path).value;
      if p in nodes {
        return Err(AlreadyExists);
      }
      var up := ParentOf(p);
      if up !in nodes {
        return Err(NotFound);
      }
      if nodes[up].File? {
        return Err(NotADirectory);
      }
      nodes := nodes[p := match kind case FileKind => File([]) case DirKind => Dir];
      r := Ok(());
    }

    method Write(path: string, data: seq<Byte>) returns (r: Result<nat>)
      requires Closed(nodes)
      modifies this
      ensures Closed(nodes)
      ensures match WriteIn(old(nodes), path, data)
              case Ok(t) => r == Ok(|data|) && nodes == t
              case Err(e) => r == Err(e) && nodes == old(nodes)
    {
      WriteReplaces(nodes, path, data);
      match Clean(path) {
        case Err(e) => return Err(e);
        case Ok(p) =>
          if p !in nodes {
            return Err(NotFound);
          }
          if nodes[p].Dir? {
            return Err(IsADirectory);
          }
          nodes := nodes[p := File(data)];
          r := Ok(|data|);
      }
    }

    /** Copies the start of a file into `out` and leaves the rest of `out` alone. */
    method Read(path: string, out: array<Byte>) returns (r: Result<nat>)
      modifies out
      ensures match Lookup(nodes, path)
              case Ok(File(content)) =>
                && r == Ok(Min(|content|, out.Length))
                && out[..] == content[..Min(|content|, out.Length)] + old(out[..])[Min(|content|, out.Length)..]
              case Ok(Dir) => r == Err(IsADirectory) && out[..] == old(out[..])
              case Err(e) => r == Err(e) && out[..] == old(out[..])
    {
      match Clean(path) {
        case Err(e) => return Err(e);
        case Ok(p) =>
          if p !in nodes {
            return Err(NotFound);
          }
          match nodes[p] {
            case Dir => return Err(IsADirectory);
            case File(content) =>
              var n := Min(|content|, out.Length);
              CopyTo(out, content, 0, n);
              return Ok(n);
          }
      }
    }

    /** The names of the children, one for each child, in the order of their full paths. */
    method List(path: string) returns (r: Result<seq<string>>, ghost keys: seq<string>)
      ensures match Lookup(nodes, path)
              case Ok(Dir) => r.Ok? && NamesOf(r.value, keys, Children(nodes, Clean(path).value)) && Ascending(keys)
              case Ok(File(_)) => r == Err(NotADirectory)
              case Err(e) => r == Err(e)
    {
      keys := [];
      match Clean(path) {
        case Err(e) => return Err(e), keys;
        case Ok(p) =>
          if p !in nodes {
            return Err(NotFound), keys;
          }
          if nodes[p].File? {
            return Err(NotADirectory), keys;
          }
          hide NamesOf, Below, IsFirst;
          var out, pending := [], nodes.Keys;
          NoNames(Children(nodes, p) - pending);
          while pending != {}
            invariant pending <= nodes.Keys && NamesOf(out, keys, Children(nodes, p) - pending)
            invariant Ascending(keys) && AllBelow(keys, pending)
            decreases |pending|
          {
            var key := FirstKey(pending);
            FirstIsMember(key, pending);
            NamesStep(out, keys, Children(nodes, p), pending, key);
            NextInOrder(keys, pending, key);
            pending := pending - {key};
            if key != p && ParentOf(key) == p {
              out, keys := out + [BaseName(key)], keys + [key];
            }
          }
          assert Children(nodes, p) - pending == Children(nodes, p);
          return Ok(out), keys;
      }
    }

    method Exists(path: string) returns (r: bool)
      ensures r <==> Lookup(nodes, path).Ok?
    {
      match Clean(path) {
        case Ok(p) => return p in nodes;
        case Err(_) => return false;
      }
    }

    method Stat(path: string) returns (r: Result<Metadata>)
      ensures match Lookup(nodes, path)
              case Ok(File(content)) => r == Ok(Metadata(FileKind, |content|))
              case Ok(Dir) => r == Ok(Metadata(DirKind, 0))
              case Err(e) => r == Err(e)
    {
      match Clean(path) {
        case Err(e) => return Err(e);
        case Ok(p) =>
          if p !in nodes {
            return Err(NotFound);
          }
          match nodes[p] {
            case File(content) => return Ok(Metadata(FileKind, |content|));
            case Dir => return Ok(Metadata(DirKind, 0));
          }
      }
    }

    method Contents(path: string) returns (r: Option<seq<Byte>>)
      ensures r == ContentOf(nodes, path)
    {
      match Clean(path) {
        case Err(_) => return None;
        case Ok(p) =>
          if p in nodes && nodes[p].File? {
            return Some(nodes[p].content);
          }
          return None;
      }
    }
  }

  function ContentOf(t: Tree, path: string): Option<seq<Byte>> {
    match Lookup(t, path)
    case Ok(File(content)) => Some(content)
    case _ => None
  }

  method CopyTo(out: array<Byte>, content: seq<Byte>, from: nat, n: nat)
    requires from + n <= |content| && n <= out.Length
    modifies out
    ensures out[..] == content[from..from + n] + old(out[..])[n..]
  {
    for i := 0 to n
      invariant forall k :: 0 <= k < out.Length ==> out[k] == if k < i then content[from + k] else old(out[k])
    {
      out[i] := content[from + i];
    }
  }

  // ----- open files

  datatype Handle = Handle(path: string, offset: nat)

  /** What the two locked globals hold. */
  datatype State = State(root: Option<Tree>, fds: Option<map<int, Handle>>)

  datatype Op =
    | Mount
    | Create(path: string, kind: Kind)
    | Write(path: string, data: seq<Byte>)
    | Open(path: string)
    | Read(fd: int, len: nat)
    | Close(fd: int)

  const FIRST_FD := 3

  function FdsFrom(table: map<int, Handle>, fd: int): set<int> {
    set k | k in table && k >= fd
  }

  lemma FewerFrom(table: map<int, Handle>, fd: int)
    requires fd in table
    ensures FdsFrom(table, fd + 1) < FdsFrom(table, fd)
  {
    assert fd in FdsFrom(table, fd);
  }

  /** The lowest free descriptor from `fd` on. */
  function FreeFd(table: map<int, Handle>, fd: int): (r: int)
    ensures r >= fd && r !in table && forall k :: fd <= k < r ==> k in table
    decreases FdsFrom(table, fd)
  {
    if fd in table then
      FewerFrom(table, fd);
      FreeFd(table, fd + 1)
    else fd
  }

  /** What a read hands out: the next bytes of the file, none at its end, and no answer for a bad descriptor. */
  function Reply(s: State, fd: int, len: nat): Option<seq<Byte>> {
    if s.fds.None? || fd !in s.fds.value || s.root.None? then None
    else
      var h := s.fds.value[fd];
      match ContentOf(s.root.value, h.path)
      case None => None
      case Some(content) =>
        if h.offset >= |content| then Some([]) else Some(content[h.offset..h.offset + Min(len, |content| - h.offset)])
  }

  function Apply(s: State, op: Op): State {
    match op
    case Mount => s.(root := Some(map["/" := Dir]))
    case Create(path, kind) =>
      if s.root.Some? && CreateIn(s.root.value, path, kind).Ok?
      then s.(root := Some(CreateIn(s.root.value, path, kind).value)) else s
    case Write(path, data) =>
      if s.root.Some? && WriteIn(s.root.value, path, data).Ok?
      then s.(root := Some(WriteIn(s.root.value, path, data).value)) else s
    case Open(path) =>
      if s.root.Some? && ContentOf(s.root.value, path).Some? && s.fds.Some?
      then s.(fds := Some(s.fds.value[FreeFd(s.fds.value, FIRST_FD) := Handle(path, 0)])) else s
    case Read(fd, len) =>
      var r := Reply(s, fd, len);
      if r.Some? then
        var h := s.fds.value[fd];
        s.(fds := Some(s.fds.value[fd := h.(offset := h.offset + |r.value|)]))
      else s
    case Close(fd) => if s.fds.Some? then s.(fds := Some(s.fds.value - {fd})) else s
  }

  ghost function Run(s: State, ops: seq<Op>): State {
    if |ops| == 0 then s else Apply(Run(s, ops[..|ops| - 1]), ops[|ops| - 1])
  }

  ghost predicate WellFormed(s: State) {
    s.root.Some? ==> Closed(s.root.value)
  }

  /** Every tree reachable from a closed one is closed. */
  lemma {:induction false} RunStaysClosed(s: State, ops: seq<Op>)
    requires WellFormed(s)
    ensures WellFormed(Run(s, ops))
  {
    if |ops| == 0 {
    } else {
      RunStaysClosed(s, ops[..|ops| - 1]);
      ApplyStaysClosed(Run(s, ops[..|ops| - 1]), ops[|ops| - 1]);
    }
  }

  lemma ApplyStaysClosed(s: State, op: Op)
    requires WellFormed(s)
    ensures WellFormed(Apply(s, op))
  {
    hide Closed, CreateIn, WriteIn;
    match op {
      case Mount => RootAloneIsClosed();
      case Create(path, kind) => if s.root.Some? { CreateGrows(s.root.value, path, kind); }
      case Write(path, data) => if s.root.Some? { WriteReplaces(s.root.value, path, data); }
      case _ =>
    }
  }

  lemma RootAloneIsClosed()
    ensures Closed(map["/" := Dir])
  {
  }

  // ----- reading a file in pieces

  /** Descriptor `fd` is open on a file with this content, read up to `offset`. */
  ghost predicate IsReading(s: State, fd: int, path: string, content: seq<Byte>, offset: nat) {
    && s.root.Some? && s.fds.Some? && fd in s.fds.value && s.fds.value[fd] == Handle(path, offset)
    && ContentOf(s.root.value, path) == Some(content) && offset <= |content|
  }

  /** The operation neither closes the descriptor, nor writes its file, nor replaces the tree. */
  predicate Spares(op: Op, fd: int, path: string) {
    match op
    case Mount => false
    case Write(p, _) => Clean(p) != Clean(path)
    case Close(f) => f != fd
    case _ => true
  }

  /** What the reads of one descriptor in a run hand out, put together. */
  ghost function Stream(s: State, ops: seq<Op>, fd: int): seq<Byte> {
    if |ops| == 0 then []
    else
      var before, op := ops[..|ops| - 1], ops[|ops| - 1];
      Stream(s, before, fd) +
      if op.Read? && op.fd == fd && Reply(Run(s, before), fd, op.len).Some?
      then Reply(Run(s, before), fd, op.len).value else []
  }

  ghost function Asked(ops: seq<Op>, fd: int): nat {
    if |ops| == 0 then 0
    else
      var op := ops[|ops| - 1];
      Asked(ops[..|ops| - 1], fd) + if op.Read? && op.fd == fd then op.len else 0
  }

  lemma OffsetInside(s: State, fd: int, path: string, content: seq<Byte>, offset: nat)
    requires IsReading(s, fd, path, content, offset)
    ensures offset <= |content|
  {
  }

  lemma SparedStep(s: State, op: Op, fd: int, path: string, content: seq<Byte>, offset: nat)
    requires IsReading(s, fd, path, content, offset) && Spares(op, fd, path)
    ensures var more := if op.Read? && op.fd == fd then Min(op.len, |content| - offset) else 0;
            && IsReading(Apply(s, op), fd, path, content, offset + more)
            && (op.Read? && op.fd == fd ==> Reply(s, fd, op.len) == Some(content[offset..offset + more]))
  {
  }

  /**
     Reads of any sizes, with anything between them that spares the file and the descriptor, give
     the file's bytes in order from where the descriptor stood: as many as were asked for, and
     none past the end.
   */
  lemma {:induction false} ReadsConcatenate(s: State, ops: seq<Op>, fd: int, path: string, content: seq<Byte>, offset: nat)
    requires IsReading(s, fd, path, content, offset)
    requires forall k :: 0 <= k < |ops| ==> Spares(ops[k], fd, path)
    ensures var end := Min(|content|, offset + Asked(ops, fd));
            Stream(s, ops, fd) == content[offset..end] && IsReading(Run(s, ops), fd, path, content, end)
  {
    hide IsReading, Reply, Spares, Apply;
    OffsetInside(s, fd, path, content, offset);
    if |ops| == 0 {
    } else {
      var n := |ops| - 1;
      ReadsConcatenate(s, ops[..n], fd, path, content, offset);
      SparedStep(Run(s, ops[..n]), ops[n], fd, path, content, Min(|content|, offset + Asked(ops[..n], fd)));
    }
  }

  /** Once the whole file was asked for, it is what was read, and every further read gives nothing. */
  lemma WholeFileThenNothing(s: State, ops: seq<Op>, fd: int, path: string, content: seq<Byte>, len: nat)
    requires IsReading(s, fd, path, content, 0) && Asked(ops, fd) >= |content|
    requires forall k :: 0 <= k < |ops| ==> Spares(ops[k], fd, path)
    ensures Stream(s, ops, fd) == content && Reply(Run(s, ops), fd, len) == Some([])
  {
    ReadsConcatenate(s, ops, fd, path, content, 0);
    assert content[0..|content|] == content;
    SparedStep(Run(s, ops), Read(fd, len), fd, path, content, |content|);
  }

  /** A fresh descriptor is the lowest free one from 3 on, and reads its file from the start; the others stay. */
  lemma OpenStarts(s: State, path: string)
    requires s.root.Some? && s.fds.Some? && ContentOf(s.root.value, path).Some?
    ensures var fd := FreeFd(s.fds.value, 3);
            && fd !in s.fds.value && (forall k :: 3 <= k < fd ==> k in s.fds.value)
            && IsReading(Apply(s, Open(path)), fd, path, ContentOf(s.root.value, path).value, 0)
            && forall f :: f in s.fds.value ==> f in Apply(s, Open(path)).fds.value && Apply(s, Open(path)).fds.value[f] == s.fds.value[f]
  {
  }

  /** What was written is what a descriptor opened behind it reads. */
  lemma WrittenIsRead(s: State, path: string, data: seq<Byte>)
    requires s.root.Some? && s.fds.Some? && ContentOf(s.root.value, path).Some?
    ensures var t := Run(s, [Write(path, data), Open(path)]);
            IsReading(t, FreeFd(s.fds.value, 3), path, data, 0)
  {
    var ops := [Write(path, data), Open(path)];
    assert ops[..1] == [Write(path, data)];
    assert Run(s, [Write(path, data)]) == Apply(s, Write(path, data));
    OpenStarts(Apply(s, Write(path, data)), path);
  }

  /**
   A closed descriptor is gone and no other changes. When all lower ones from 3 on are in use, it is
   the one the next open gives out, and reads from the start of its file.
   */
  lemma CloseFrees(s: State, fd: int, len: nat, path: string)
    requires s.fds.Some?
    ensures var t := Apply(s, Close(fd));
            && Reply(t, fd, len) == None && t.root == s.root
            && t.fds.Some? && fd !in t.fds.value
            && (forall f :: f != fd ==> (f in t.fds.value <==> f in s.fds.value))
            && (forall f :: f in t.fds.value ==> t.fds.value[f] == s.fds.value[f])
            && (s.root.Some? && ContentOf(s.root.value, path).Some? && fd >= 3 && (forall k :: 3 <= k < fd ==> k in s.fds.value)
                ==> IsReading(Apply(t, Open(path)), fd, path, ContentOf(s.root.value, path).value, 0))
  {
    var t := Apply(s, Close(fd));
    if s.root.Some? && ContentOf(s.root.value, path).Some? {
      OpenStarts(t, path);
    }
  }

  /** Until a file is opened again, a descriptor that is not open answers no read, whatever else happens. */
  lemma {:induction false} ClosedStaysClosed(s: State, ops: seq<Op>, fd: int, len: nat)
    requires s.fds.Some? && fd !in s.fds.value && forall k :: 0 <= k < |ops| ==> !ops[k].Open?
    ensures var t := Run(s, ops); t.fds.Some? && fd !in t.fds.value && Reply(t, fd, len) == None
  {
    if |ops| > 0 {
      ClosedStaysClosed(s, ops[..|ops| - 1], fd, len);
      NotOpened(Run(s, ops[..|ops| - 1]), ops[|ops| - 1], fd);
    }
  }

  lemma NotOpened(s: State, op: Op, fd: int)
    requires s.fds.Some? && fd !in s.fds.value && !op.Open?
    ensures Apply(s, op).fds.Some? && fd !in Apply(s, op).fds.value
  {
  }

  lemma DefaultPaths()
    ensures ParentOf("/etc") == "/" && ParentOf("/etc/motd") == "/etc"
    ensures Clean("/etc") == Ok("/etc") && Clean("/etc/motd") == Ok("/etc/motd")
  {
    hide LastSlash;
    SlashBefore("", "etc");
    SlashBefore("/etc", "motd");
    assert "" + "/" + "etc" == "/etc" && "/etc" + "/" + "motd" == "/etc/motd";
    assert "/etc/motd"[..4] == "/etc";
  }

  class Vfs {
    var root: TmpFs?
    var fds: Option<map<int, Handle>>

    ghost function Now(): State
      reads this, if root != null then {root} else {}
    {
      State(if root != null then Some(root.nodes) else None, fds)
    }

    constructor ()
      ensures Now() == State(None, None)
    {
      root, fds := null, None;
    }

    method MountTmpfsRoot()
      modifies this`root
      ensures root != null && fresh(root) && root.nodes == map["/" := Dir] && fds == old(fds)
      ensures Now() == Apply(old(Now()), Mount)
    {
      root := new TmpFs();
    }

    method InitDefault()
      modifies this
      ensures WellFormed(Now()) && fds == Some(map[])
      ensures Now().root.Some? && ContentOf(Now().root.value, "/etc/motd")
              == Some([77, 117, 110, 117, 120, 32, 118, 48, 46, 52, 10])
    {
      hide LastSlash;
      MountTmpfsRoot();
      RootAloneIsClosed();
      DefaultPaths();
      var r := root.Create("/etc", DirKind);
      var q := root.Create("/etc/motd", FileKind);
      var w := root.Write("/etc/motd", Motd());
      fds := Some(map[]);
    }

    method FdOpen(path: string) returns (fd: int)
      modifies this`fds
      ensures Now() == Apply(old(Now()), Open(path))
      ensures if old(Now()).root.Some? && ContentOf(old(Now()).root.value, path).Some? && old(fds).Some?
              then fd == FreeFd(old(fds).value, FIRST_FD) else fd == -1
    {
      if root == null {
        return -1;
      }
      var content := root.Contents(path);
      if content.None? || fds.None? {
        return -1;
      }
      var table := fds.value;
      fd := FIRST_FD;
      while fd in table
        invariant fd >= FIRST_FD && FreeFd(table, fd) == FreeFd(table, FIRST_FD)
        decreases FdsFrom(table, fd)
      {
        FewerFrom(table, fd);
        fd := fd + 1;
      }
      fds := Some(table[fd := Handle(path, 0)]);
    }

    method FdRead(fd: int, out: array<Byte>) returns (n: int)
      modifies this`fds, out
      ensures Now() == Apply(old(Now()), Read(fd, out.Length))
      ensures match Reply(old(Now()), fd, out.Length)
              case None => n == -1 && out[..] == old(out[..])
              case Some(bytes) => n == |bytes| <= out.Length && out[..] == bytes + old(out[..])[n..]
    {
      if fds.None? || fd !in fds.value {
        return -1;
      }
      var h := fds.value[fd];
      if root == null {
        return -1;
      }
      var content := root.Contents(h.path);
      if content.None? {
        return -1;
      }
      if h.offset >= |content.value| {
        assert fds.value[fd := h.(offset := h.offset + 0)] == fds.value;
        return 0;
      }
      n := Min(out.Length, |content.value| - h.offset);
      CopyTo(out, content.value, h.offset, n);
      fds := Some(fds.value[fd := h.(offset := h.offset + n)]);
    }

    method FdClose(fd: int) returns (r: int)
      modifies this`fds
      ensures Now() == Apply(old(Now()), Close(fd))
      ensures r == if old(fds).Some? && fd in old(fds).value then 0 else -1
    {
      if fds.Some? && fd in fds.value {
        fds := Some(fds.value - {fd});
        return 0;
      }
      assert fds.Some? ==> fds.value - {fd} == fds.value;
      return -1;
    }
  }

  /** "Munux v0.4" and a newline. */
  function Motd(): seq<Byte> {
    [77, 117, 110, 117, 120, 32, 118, 48, 46, 52, 10]
  }
}
