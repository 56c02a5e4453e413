/** The lookup loops of `VfsRoot` and the file handles of `FileBackedVfs`
    (`crates/sb_fs/virtual_fs.rs`), proved against the meaning of a path. */
module VfsFind {
  import opened Common
  import opened VfsTree
  import opened VfsBuilding
  import opened VfsRuns
  import opened VfsLookup

  /** `find_entry_no_follow_inner`. */
  method FindNoFollowInner(dir: VfsEntry, path: Path, seen: set<Path>, ghost n: nat)
    returns (o: Outcome, entry: VfsEntry, seen': set<Path>)
    requires dir.Dir? && Sorted(dir) && WalkSeen(dir, [], path, seen, n).0 != Deep
    ensures (o, seen') == WalkSeen(dir, [], path, seen, n)
    ensures o.Found? ==> EntryAt(dir, o.path) == Some(entry)
    decreases n, 0
  {
    var finalPath: Path := [];
    entry, seen' := dir, seen;
    for i := 0 to |path|
      invariant EntryAt(dir, finalPath) == Some(entry) && Sorted(entry)
      invariant WalkSeen(dir, [], path, seen, n) == WalkSeen(dir, finalPath, path[i..], seen', n)
    {
      assert path[i..][0] == path[i] && path[i..][1..] == path[i + 1..];
      if entry.Symlink? {
        o, entry, seen' := FindInner(dir, entry.destParts, seen', n - 1);
        if !o.Found? { return; }
        finalPath := o.path;
      }
      if !entry.Dir? { return NotFound, entry, seen'; }
      EntryBelow(dir, finalPath, path[i]);
      var found, index := BinarySearch(entry.entries, path[i]);
      if !found { return NotFound, entry, seen'; }
      finalPath := finalPath + [path[i]];
      entry := entry.entries[index];
    }
    assert path[|path|..] == [];
    o := Found(finalPath);
  }

  lemma {:induction false} EntryBelow(dir: VfsEntry, path: Path, name: string)
    requires Sorted(dir) && EntryAt(dir, path).Some? && EntryAt(dir, path).value.Dir?
    ensures EntryAt(dir, path + [name]) == Child(EntryAt(dir, path).value.entries, name)
    ensures Sorted(EntryAt(dir, path).value)
    decreases |path|
  {
    if path == [] {
      assert ([] + [name])[0] == name && ([] + [name])[1..] == [];
    } else {
      var i := ChildSome(dir.entries, path[0]);
      assert (path + [name])[0] == path[0] && (path + [name])[1..] == path[1..] + [name];
      EntryBelow(dir.entries[i], path[1..], name);
    }
  }

  /** `find_entry_inner`. It ends wherever the specified lookup does, circular links included. */
  method FindInner(dir: VfsEntry, path0: Path, seen: set<Path>, ghost n0: nat)
    returns (o: Outcome, entry: VfsEntry, seen': set<Path>)
    requires dir.Dir? && Sorted(dir) && FollowSeen(dir, path0, seen, n0).0 != Deep
    ensures (o, seen') == FollowSeen(dir, path0, seen, n0)
    ensures o.Found? ==> EntryAt(dir, o.path) == Some(entry) && !entry.Symlink? && Sorted(entry)
    decreases n0, 1
  {
    var path := path0;
    ghost var n: nat := n0;
    seen' := seen;
    while true
      invariant n <= n0
      invariant FollowSeen(dir, path0, seen, n0) == FollowSeen(dir, path, seen', n)
      decreases n
    {
      o, entry, seen' := FindNoFollowInner(dir, path, seen', n);
      if !o.Found? { return; }
      if !entry.Symlink? {
        if entry.Dir? { EntryBelow(dir, o.path, ""); }
        return;
      }
      if path in seen' { return Circular, entry, seen'; }
      seen' := seen' + {path};
      path := entry.destParts;
      n := n - 1;
    }
  }

  datatype IoError = PathNotFound | CircularSymlinks | PathIsADirectory | NoContent

  /** `FileBackedVfs` with its `VfsRoot`. */
  datatype FileBackedVfs = FileBackedVfs(dir: VfsEntry, root: Path) {

    ghost predicate Valid() {
      dir.Dir? && Sorted(dir)
    }

    /** `find_entry`, for every path on which it ends: an entry that is no link, where the path leads, or one of
        two errors. */
    method FindEntry(path: Path) returns (r: Result<(Path, VfsEntry), IoError>)
      requires Valid() && (root <= path ==> Answer(dir, path[|root|..]) != Deep)
      ensures r.Ok? ==> root <= path && root <= r.value.0
                        && Answer(dir, path[|root|..]) == Meaning(dir, path[|root|..]) == Found(r.value.0[|root|..])
                        && EntryAt(dir, r.value.0[|root|..]) == Some(r.value.1) && !r.value.1.Symlink?
      ensures r == Err(PathNotFound) <==> !(root <= path) || Answer(dir, path[|root|..]) == NotFound
      ensures r == Err(CircularSymlinks) <==> root <= path && Answer(dir, path[|root|..]) == Circular
      ensures r.Err? ==> r.error in {PathNotFound, CircularSymlinks}
    {
      if !(root <= path) { return Err(PathNotFound); }
      var rel := path[|root|..];
      ghost var n: nat :| FollowSeen(dir, rel, {}, n).0 != Deep;
      AnswerAt(dir, rel, n);
      AnswerAgrees(dir, rel);
      var o, entry, _ := FindInner(dir, rel, {}, n);
      if o.NotFound? { return Err(PathNotFound); }
      if o.Circular? { return Err(CircularSymlinks); }
      assert (root + o.path)[|root|..] == o.path;
      return Ok((root + o.path, entry));
    }

    /** `canonicalize`: the answer is where the path leads and canonicalises to itself. */
    method Canonicalize(path: Path) returns (r: Result<Path, IoError>)
      requires Valid() && (root <= path ==> Answer(dir, path[|root|..]) != Deep)
      ensures r.Ok? ==> root <= path && root <= r.value
                        && Meaning(dir, path[|root|..]) == Found(r.value[|root|..])
                        && Answer(dir, r.value[|root|..]) == Found(r.value[|root|..])
      ensures r == Err(PathNotFound) <==> !(root <= path) || Answer(dir, path[|root|..]) == NotFound
      ensures r == Err(CircularSymlinks) <==> root <= path && Answer(dir, path[|root|..]) == Circular
      ensures r.Err? ==> r.error in {PathNotFound, CircularSymlinks}
    {
      var found := FindEntry(path);
      if found.Err? { return Err(found.error); }
      FoundIsFixed(dir, path[|root|..]);
      return Ok(found.value.0);
    }

    /** `open_file`: a fresh handle at position 0. */
    method OpenFile(path: Path) returns (r: Result<FileHandle, IoError>)
      requires Valid() && (root <= path ==> Answer(dir, path[|root|..]) != Deep)
      ensures r.Ok? ==> fresh(r.value) && r.value.pos == 0 && root <= path
                        && Answer(dir, path[|root|..]) == Meaning(dir, path[|root|..])
                        && Meaning(dir, path[|root|..]).Found?
                        && NodeAt(dir, Meaning(dir, path[|root|..]).path)
                           == Some(FileNode(r.value.offset, r.value.len, r.value.content))
      ensures r.Err? ==> match r.error
                         case PathNotFound => !(root <= path) || Answer(dir, path[|root|..]) == NotFound
                         case CircularSymlinks => root <= path && Answer(dir, path[|root|..]) == Circular
                         case PathIsADirectory => root <= path && Answer(dir, path[|root|..]).Found?
                                                  && NodeAt(dir, Answer(dir, path[|root|..]).path) == Some(DirNode)
                         case NoContent => false
    {
      var found := FindEntry(path);
      if found.Err? { return Err(found.error); }
      match found.value.1 {
        case Dir(_, _) => return Err(PathIsADirectory);
        case File(_, offset, len, content) =>
          var h := new FileHandle(offset, len, content);
          return Ok(h);
      }
    }
  }

  /** Where a path leads is looked up as itself. */
  lemma FoundIsFixed(dir: VfsEntry, path: Path)
    requires dir.Dir? && Meaning(dir, path).Found?
    ensures Answer(dir, Meaning(dir, path).path) == Meaning(dir, path)
  {
    var n: nat :| Resolve(dir, path, n) != Deep;
    MeaningAt(dir, path, n);
    ResolvedIsCanonical(dir, path, n);
    ExistingIsAnswered(dir, Meaning(dir, path).path);
  }

  /** A path that holds something other than a link is looked up as itself. */
  lemma ExistingIsAnswered(dir: VfsEntry, p: Path)
    requires dir.Dir? && NodeAt(dir, p).Some? && !NodeAt(dir, p).value.LinkNode?
    ensures Answer(dir, p) == Meaning(dir, p) == Found(p)
  {
    forall k | 0 <= k <= |p| ensures !(NodeAt(dir, p[..k]).Some? && NodeAt(dir, p[..k]).value.LinkNode?) {
      if k < |p| { PrefixIsDir(dir, p, k); } else { assert p[..k] == p; }
    }
    FollowWithoutLinks(dir, p, {}, 0);
    AnswerAt(dir, p, 0);
    AnswerAgrees(dir, p);
  }

  /** `FileBackedVfsFile`: the entry and a position. */
  class FileHandle {
    const offset: nat
    const len: nat
    const content: Option<seq<byte>>
    var pos: nat

    constructor (offset: nat, len: nat, content: Option<seq<byte>>)
      ensures this.offset == offset && this.len == len && this.content == content && pos == 0
    {
      this.offset, this.len, this.content, pos := offset, len, content, 0;
    }

    /** `read_to_end`. The bytes always come from the front of the content: `read_file` ignores the position. */
    method ReadToEnd() returns (r: Result<seq<byte>, IoError>)
      requires content.Some? ==> len == |content.value|
      modifies this
      ensures pos == if old(pos) < len then len else old(pos)
      ensures old(pos) > len ==> r == Ok([])
      ensures old(pos) <= len ==> r == if content.None? then Err(NoContent) else Ok(content.value[..len - old(pos)])
    {
      var readPos := pos;
      if pos < len { pos := len; }
      if readPos > len { return Ok([]); }
      if content.None? { return Err(NoContent); }
      var size := len - readPos;
      var readLength := if size < |content.value| then size else |content.value|;
      return Ok(content.value[..readLength]);
    }
  }

  lemma CanonicalTreeOfMap(dir: VfsEntry, tree: map<Path, Node>)
    requires Represents(dir, tree) && CanonicalTargets(tree)
    ensures CanonicalLinks(dir)
  {
    forall p: Path | NodeAt(dir, p).Some? && NodeAt(dir, p).value.LinkNode?
      ensures NoLinkOn(dir, NodeAt(dir, p).value.dest)
    {
      var d := NodeAt(dir, p).value.dest;
      forall k | 0 <= k <= |d| ensures !(NodeAt(dir, d[..k]).Some? && NodeAt(dir, d[..k]).value.LinkNode?) {
        assert d[..k] <= d;
      }
    }
  }

  /** A file that was added is what its path means in any tree that represents the map. */
  lemma AddedFileIsAnswered(checksum: Checksum, root: Path, ops: seq<Op>, i: nat, dir: VfsEntry)
    requires i < |ops| && StatusOf(checksum, root, ops, i) == Done && ops[i].AddFile?
    requires dir.Dir? && Represents(dir, Run(checksum, root, ops).tree)
    ensures root <= ops[i].path
    ensures var rel, data := ops[i].path[|root|..], ops[i].data;
            && Answer(dir, rel) == Meaning(dir, rel) == Found(rel)
            && NodeAt(dir, rel).Some? && NodeAt(dir, rel).value.FileNode?
            && NodeAt(dir, rel).value.content == Some(data) && NodeAt(dir, rel).value.len == |data|
  {
    AddedIsFound(checksum, root, ops, i);
    var rel := ops[i].path[|root|..];
    assert NodeAt(dir, rel) == Some(Run(checksum, root, ops).tree[rel]);
    ExistingIsAnswered(dir, rel);
  }

  /** Building, opening and reading: every file added by a successful call of any run is read back byte for byte. */
  method ReadBack(root: Path, name: string, checksum: Checksum, ops: seq<Op>, i: nat)
    returns (r: Result<seq<byte>, IoError>)
    requires i < |ops| && StatusOf(checksum, root, ops, i) == Done && ops[i].AddFile?
    ensures r == Ok(ops[i].data)
  {
    var b := Build(root, name, checksum, ops);
    AddedFileIsAnswered(checksum, root, ops, i, b.rootDir);
    r := ReadAll(FileBackedVfs(b.rootDir, root), ops[i].path, ops[i].data);
  }

  /** Opening and reading a path that means a file with content. */
  method ReadAll(vfs: FileBackedVfs, path: Path, ghost data: seq<byte>) returns (r: Result<seq<byte>, IoError>)
    requires vfs.Valid() && vfs.root <= path
    requires var rel := path[|vfs.root|..];
             && Answer(vfs.dir, rel) == Meaning(vfs.dir, rel) == Found(rel) && NodeAt(vfs.dir, rel).Some?
             && (var node := NodeAt(vfs.dir, rel).value;
                 node.FileNode? && node.content == Some(data) && node.len == |data|)
    ensures r == Ok(data)
  {
    var h := vfs.OpenFile(path);
    assert h.Ok?;
    r := h.value.ReadToEnd();
    assert data[..|data|] == data;
  }

  /** And every directory that was added is found as one. */
  lemma AddedDirectoryIsAnswered(checksum: Checksum, root: Path, ops: seq<Op>, i: nat, dir: VfsEntry)
    requires i < |ops| && StatusOf(checksum, root, ops, i) == Done && ops[i].AddDir?
    requires dir.Dir? && Represents(dir, Run(checksum, root, ops).tree)
    ensures root <= ops[i].path
    ensures var rel := ops[i].path[|root|..]; Answer(dir, rel) == Found(rel) && NodeAt(dir, rel) == Some(DirNode)
  {
    AddedIsFound(checksum, root, ops, i);
    var rel := ops[i].path[|root|..];
    assert NodeAt(dir, rel) == Some(Run(checksum, root, ops).tree[rel]);
    ExistingIsAnswered(dir, rel);
  }

  /** Building from canonicalised link targets, then canonicalising any path: the answer is what the
      path means in the built map, never a circular-links report. */
  method CanonicalizeBuilt(root: Path, name: string, checksum: Checksum, ops: seq<Op>, path: Path)
    returns (dir: VfsEntry, r: Result<Path, IoError>)
    requires CanonicalOps(ops)
    ensures dir.Dir? && Sorted(dir) && Represents(dir, Run(checksum, root, ops).tree)
    ensures match r
            case Ok(p) => root <= path && root <= p && Meaning(dir, path[|root|..]) == Found(p[|root|..])
                          && p[|root|..] in Run(checksum, root, ops).tree
                          && !Run(checksum, root, ops).tree[p[|root|..]].LinkNode?
            case Err(e) => e == PathNotFound && (root <= path ==> Meaning(dir, path[|root|..]) == NotFound)
  {
    var b := Build(root, name, checksum, ops);
    CanonicalOpsGiveCanonicalTargets(checksum, root, ops);
    CanonicalTreeOfMap(b.rootDir, b.tree);
    dir := b.rootDir;
    if root <= path { CanonicalAnswer(dir, path[|root|..]); }
    var vfs := FileBackedVfs(dir, root);
    r := vfs.Canonicalize(path);
  }

  lemma CanonicalAnswer(dir: VfsEntry, path: Path)
    requires dir.Dir? && CanonicalLinks(dir)
    ensures Answer(dir, path) == Meaning(dir, path)
    ensures Answer(dir, path).Found? || Answer(dir, path).NotFound?
    ensures Answer(dir, path).Found? ==>
              var node := NodeAt(dir, Answer(dir, path).path); node.Some? && !node.value.LinkNode?
  {
    CanonicalLookup(dir, path, 1);
    AnswerAt(dir, path, 1);
    MeaningAt(dir, path, 1);
    if Resolve(dir, path, 1).Found? { ResolvedIsCanonical(dir, path, 1); }
  }
}
