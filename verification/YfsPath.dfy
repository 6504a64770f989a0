/** Path names, the bytes a path exports, and how adding one file changes them. */
module YfsPath {
  import opened YfsTree
  import opened YfsState
  import opened YfsData

  type Names = map<nat, map<string, nat>>

  datatype PathResult = Found(ino: nat) | NotFound | TooLong | NotDirectory

  /** Length of the first component of a path that does not start with a slash. */
  function NameLen(p: string): (n: nat)
    ensures n <= |p|
    ensures forall k :: 0 <= k < n ==> p[k] != '/'
    ensures n < |p| ==> p[n] == '/'
  {
    if p == "" || p[0] == '/' then 0 else 1 + NameLen(p[1..])
  }

  /** Which inode a path names, starting in directory cur; slashes may repeat. */
  function ResolvePath(dirs: Names, cur: nat, p: string): PathResult
    decreases |p|
  {
    if p == "" then Found(cur)
    else if p[0] == '/' then ResolvePath(dirs, cur, p[1..])
    else ResolveName(dirs, cur, p[..NameLen(p)], p[NameLen(p)..])
  }

  /** One component, followed by the rest of the path. */
  function ResolveName(dirs: Names, cur: nat, name: string, rest: string): PathResult
    decreases |name| + |rest|, 0
    requires name != ""
  {
    if |name| >= NAME_MAX then TooLong
    else if cur !in dirs then NotDirectory
    else if name !in dirs[cur] then NotFound
    else if rest != "" && dirs[cur][name] !in dirs then NotFound
    else ResolvePath(dirs, dirs[cur][name], rest)
  }

  /** Names lead to inodes; the walk never leaves a directory through a file. */
  lemma {:induction false} ResolveInUse(s: Snap, cur: nat, p: string)
    requires Inv(s) && cur in s.inos && (cur in s.dirs || p == "")
    ensures ResolvePath(s.dirs, cur, p) != NotDirectory
    ensures ResolvePath(s.dirs, cur, p).Found? ==> ResolvePath(s.dirs, cur, p).ino in s.inos
    decreases |p|
  {
    hide Inv;
    if p == "" {
    } else if p[0] == '/' {
      ResolveInUse(s, cur, p[1..]);
    } else {
      var name, rest := p[..NameLen(p)], p[NameLen(p)..];
      if |name| < NAME_MAX && name in s.dirs[cur] {
        ChildInUse(s, cur, name);
        if rest == "" || s.dirs[cur][name] in s.dirs {
          ResolveInUse(s, s.dirs[cur][name], rest);
        }
      }
    }
  }

  lemma ChildInUse(s: Snap, d: nat, name: string)
    requires Inv(s) && d in s.dirs && name in s.dirs[d]
    ensures s.dirs[d][name] in s.inos && s.dirs[d][name] != 0 && GetInode(s, s.dirs[d][name]).kind in {FILE, DIR}
  {
    hide EntryAt, HasEntry;
    DirInUse(s, d);
  }

  /** Adding a file under a new name leaves every path as it was, except those that now reach the file. */
  lemma {:induction false} PathsKept(dirs: Names, d: nat, name: string, ino: nat, cur: nat, p: string)
    requires d in dirs && name !in dirs[d] && ino !in dirs
    ensures ResolvePath(WithName(dirs, d, name, ino), cur, p) == ResolvePath(dirs, cur, p)
         || (ResolvePath(WithName(dirs, d, name, ino), cur, p) == Found(ino) && ResolvePath(dirs, cur, p) == NotFound)
    decreases |p|
  {
    if p == "" {
    } else if p[0] == '/' {
      PathsKept(dirs, d, name, ino, cur, p[1..]);
    } else {
      var n, rest := p[..NameLen(p)], p[NameLen(p)..];
      var dirs2 := WithName(dirs, d, name, ino);
      assert ResolvePath(dirs, cur, p) == ResolveName(dirs, cur, n, rest);
      assert ResolvePath(dirs2, cur, p) == ResolveName(dirs2, cur, n, rest);
      if cur in dirs && n in dirs[cur] {
        PathsKept(dirs, d, name, ino, dirs[cur][n], rest);
      } else {
        assert ResolvePath(dirs2, ino, "") == Found(ino);
      }
    }
  }

  /** A name that is empty or holds a slash is never a path component: no path reaches its entry. */
  lemma {:induction false} HiddenName(dirs: Names, d: nat, name: string, ino: nat, cur: nat, p: string)
    requires d in dirs && name !in dirs[d] && (name == "" || '/' in name)
    ensures ResolvePath(WithName(dirs, d, name, ino), cur, p) == ResolvePath(dirs, cur, p)
    decreases |p|
  {
    if p == "" {
    } else if p[0] == '/' {
      HiddenName(dirs, d, name, ino, cur, p[1..]);
    } else {
      var n, rest := p[..NameLen(p)], p[NameLen(p)..];
      assert n != name;
      assert ResolvePath(dirs, cur, p) == ResolveName(dirs, cur, n, rest);
      assert ResolvePath(WithName(dirs, d, name, ino), cur, p)
             == ResolveName(WithName(dirs, d, name, ino), cur, n, rest);
      if cur in dirs && n in dirs[cur] {
        HiddenName(dirs, d, name, ino, dirs[cur][n], rest);
      }
    }
  }

  // ------------------------------------------------------------------
  // Export
  // ------------------------------------------------------------------

  /** What op_export writes for a path. */
  function Exported(s: Snap, path: string): Result<seq<Byte>> {
    match ResolvePath(s.dirs, 1, path)
    case Found(ino) =>
      if GetInode(s, ino).kind != FILE then Panic("Not a file")
      else if FileNode(GetInode(s, ino)) then Ok(Content(s.disk, GetInode(s, ino)))
      else Panic("File too large")
    case NotFound => Panic("Path not found in image")
    case TooLong => Panic("Path component too long")
    case NotDirectory => Panic("not a directory")
  }

  lemma FileInUse(s: Snap, ino: nat)
    requires Inv(s) && ino in s.inos
    ensures FileNode(GetInode(s, ino)) && ino < s.sb.totalInodes
    ensures GetInode(s, ino).kind == DIR <==> ino in s.dirs
  {
  }

  /** A path that still names the same, untouched inode exports the same bytes. */
  lemma SameExport(s: Snap, s2: Snap, except: nat, path: string)
    requires Inv(s) && Inv(s2) && FilesKept(s, s2, except)
    requires ResolvePath(s2.dirs, 1, path) == ResolvePath(s.dirs, 1, path) != Found(except)
    ensures Exported(s2, path) == Exported(s, path)
  {
    hide Inv, ResolvePath, Content, SameBlocks, FileNode;
    RootInUse(s);
    ResolveInUse(s, 1, path);
    match ResolvePath(s.dirs, 1, path)
    case Found(ino) =>
      FileInUse(s, ino);
      FileInUse(s2, ino);
      if ino !in s.dirs {
        assert SameFile(s, s2, ino);
        SameContent(s.disk, s2.disk, GetInode(s, ino));
      }
    case _ =>
  }

  lemma RootInUse(s: Snap)
    requires Inv(s)
    ensures 1 in s.inos && 1 in s.dirs && 0 !in s.dirs
  {
  }

  // ------------------------------------------------------------------
  // Import destinations
  // ------------------------------------------------------------------

  predicate HasPrefix(p: string, pre: string) {
    |pre| <= |p| && p[..|pre|] == pre
  }

  /** The file name op_import enters: what follows "/bin/", "/home/" or a leading slash. */
  function ImportName(osPath: string): string {
    if HasPrefix(osPath, "/bin/") then osPath[5..]
    else if HasPrefix(osPath, "/home/") then osPath[6..]
    else if osPath != "" && osPath[0] == '/' then osPath[1..]
    else osPath
  }

  /** The directory op_import enters it in; 0 when "bin" or "home" is missing. */
  function ImportParent(dirs: Names, osPath: string): nat
    requires 1 in dirs
  {
    if HasPrefix(osPath, "/bin/") then NameIn(dirs, 1, "bin")
    else if HasPrefix(osPath, "/home/") then NameIn(dirs, 1, "home")
    else 1
  }

  /** The names for which a later export finds the file again. */
  predicate PlainName(name: string) {
    0 < |name| < NAME_MAX && forall k :: 0 <= k < |name| ==> name[k] != '/'
  }

  /** Some directory enters the inode under a name that paths can spell. */
  ghost predicate Named(dirs: Names, ino: nat) {
    exists d, n :: d in dirs && n in dirs[d] && dirs[d][n] == ino && PlainName(n)
  }

  /** What a path leads to, other than where it starts, is entered under a name that paths can spell. */
  lemma {:induction false} FoundByName(dirs: Names, cur: nat, p: string, ino: nat)
    requires ResolvePath(dirs, cur, p) == Found(ino) && ino != cur
    ensures Named(dirs, ino)
    decreases |p|
  {
    if p[0] == '/' {
      FoundByName(dirs, cur, p[1..], ino);
    } else {
      var name, rest := p[..NameLen(p)], p[NameLen(p)..];
      assert ResolvePath(dirs, cur, p) == ResolveName(dirs, cur, name, rest);
      assert PlainName(name);
      if dirs[cur][name] != ino {
        FoundByName(dirs, dirs[cur][name], rest, ino);
      }
    }
  }

  /** No file is entered twice. */
  ghost predicate NamedOnce(dirs: Names) {
    forall d, n, d2, n2 ::
      (d in dirs && n in dirs[d] && d2 in dirs && n2 in dirs[d2] && dirs[d][n] == dirs[d2][n2]
        && dirs[d][n] !in dirs) ==>
        d == d2 && n == n2
  }

  lemma PlainNameLen(name: string)
    requires forall k :: 0 <= k < |name| ==> name[k] != '/'
    ensures NameLen(name) == |name|
  {
  }

  lemma ResolvePlain(dirs: Names, d: nat, name: string)
    requires d in dirs && PlainName(name) && name in dirs[d]
    ensures ResolvePath(dirs, d, name) == Found(dirs[d][name])
  {
    PlainNameLen(name);
    assert name[..|name|] == name && name[|name|..] == "";
    assert ResolvePath(dirs, d, name) == ResolveName(dirs, d, name, "");
    assert ResolvePath(dirs, dirs[d][name], "") == Found(dirs[d][name]);
  }

  lemma ResolveIn(dirs: Names, dirName: string, name: string)
    requires 1 in dirs && PlainName(dirName) && dirName in dirs[1] && dirs[1][dirName] in dirs
    requires PlainName(name) && name in dirs[dirs[1][dirName]]
    ensures ResolvePath(dirs, 1, "/" + dirName + "/" + name) == Found(dirs[dirs[1][dirName]][name])
  {
    var p := "/" + dirName + "/" + name;
    assert p[1..] == dirName + "/" + name;
    var q := dirName + "/" + name;
    assert NameLen(q) == |dirName| by {
      assert q[|dirName|] == '/';
      assert forall k :: 0 <= k < |dirName| ==> q[k] == dirName[k];
    }
    assert q[..|dirName|] == dirName && q[|dirName|..] == "/" + name;
    assert ("/" + name)[1..] == name;
    assert ResolvePath(dirs, 1, p) == ResolvePath(dirs, 1, q) == ResolveName(dirs, 1, dirName, "/" + name);
    assert ResolvePath(dirs, dirs[1][dirName], "/" + name) == ResolvePath(dirs, dirs[1][dirName], name);
    ResolvePlain(dirs, dirs[1][dirName], name);
  }

  /** The path given to import leads to the entry that import made. */
  lemma ImportPathResolves(dirs: Names, osPath: string)
    requires 1 in dirs && ImportParent(dirs, osPath) in dirs && PlainName(ImportName(osPath))
    requires ImportParent(dirs, osPath) != 0
    requires ImportName(osPath) in dirs[ImportParent(dirs, osPath)]
    ensures ResolvePath(dirs, 1, osPath) == Found(dirs[ImportParent(dirs, osPath)][ImportName(osPath)])
  {
    var name := ImportName(osPath);
    if HasPrefix(osPath, "/bin/") {
      assert osPath == "/" + "bin" + "/" + name;
      ResolveIn(dirs, "bin", name);
    } else if HasPrefix(osPath, "/home/") {
      assert osPath == "/" + "home" + "/" + name;
      ResolveIn(dirs, "home", name);
    } else {
      ResolvePlain(dirs, 1, name);
    }
  }

  // ------------------------------------------------------------------
  // Steps of the character loop of path_resolve
  // ------------------------------------------------------------------

  lemma SlashSkipped(dirs: Names, cur: nat, path: string, pos: nat)
    requires pos < |path| && path[pos] == '/'
    ensures ResolvePath(dirs, cur, path[pos..]) == ResolvePath(dirs, cur, path[pos + 1..])
  {
    assert path[pos..][1..] == path[pos + 1..];
  }

  lemma PathEnds(dirs: Names, cur: nat, path: string)
    ensures ResolvePath(dirs, cur, path[|path|..]) == Found(cur)
  {
  }

  lemma ComponentRead(dirs: Names, cur: nat, path: string, start: nat, pos: nat)
    requires start < pos <= |path| && (pos < |path| ==> path[pos] == '/')
    requires forall k :: start <= k < pos ==> path[k] != '/'
    ensures ResolvePath(dirs, cur, path[start..]) == ResolveName(dirs, cur, path[start..pos], path[pos..])
  {
    var p := path[start..];
    assert NameLen(p) == pos - start by {
      assert forall k :: 0 <= k < pos - start ==> p[k] == path[start + k];
    }
    assert p[..pos - start] == path[start..pos] && p[pos - start..] == path[pos..];
  }

  lemma NameStep(dirs: Names, cur: nat, name: string, rest: string)
    requires name != ""
    ensures ResolveName(dirs, cur, name, rest) ==
            if |name| >= NAME_MAX then TooLong
            else if cur !in dirs then NotDirectory
            else if name !in dirs[cur] then NotFound
            else if rest != "" && dirs[cur][name] !in dirs then NotFound
            else ResolvePath(dirs, dirs[cur][name], rest)
  {
  }

  lemma NameAbsent(s: Snap, d: nat, name: string)
    requires Inv(s) && d in s.dirs && NameIn(s.dirs, d, name) == 0
    ensures name !in s.dirs[d]
  {
    hide Inv;
    if name in s.dirs[d] {
      ChildInUse(s, d, name);
    }
  }

  lemma {:induction false} NeverZero(s: Snap, cur: nat, p: string)
    requires Inv(s) && cur != 0
    ensures ResolvePath(s.dirs, cur, p) != Found(0)
    decreases |p|
  {
    hide Inv;
    if p == "" {
    } else if p[0] == '/' {
      NeverZero(s, cur, p[1..]);
    } else {
      var name, rest := p[..NameLen(p)], p[NameLen(p)..];
      assert ResolvePath(s.dirs, cur, p) == ResolveName(s.dirs, cur, name, rest);
      if cur in s.dirs && name in s.dirs[cur] {
        ChildInUse(s, cur, name);
        NeverZero(s, s.dirs[cur][name], rest);
      }
    }
  }
}
