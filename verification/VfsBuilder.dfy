/** `VfsBuilder` of `crates/sb_fs/virtual_fs.rs`: the operations that fill the tree and pack file
    contents into offsets, as a class over the sorted tree and as a pure model over a path map. */
module VfsBuilding {
  import opened Common
  import opened VfsTree

  type Digest = string

  datatype Op =
    | AddDir(path: Path)
    | AddFile(path: Path, data: seq<byte>)
    | AddSymlink(path: Path, target: Path)

  /** `Unreachable` stands for the source's `unreachable!()` and `unwrap()` panics. */
  datatype Status = Done | StripRootError | Unreachable

  datatype Model = Model(root: Path, tree: map<Path, Node>, current: nat, offsets: map<Digest, nat>)

  // ----- the plain map -----

  function Get<K, V>(m: map<K, V>, k: K): Option<V> {
    if k in m then Some(m[k]) else None
  }

  function Prefixes(p: Path): set<Path> {
    set k | 0 <= k <= |p| :: p[..k]
  }

  predicate BlockedIn(tree: map<Path, Node>, rel: Path) {
    exists p <- Prefixes(rel) :: p in tree && tree[p] != DirNode
  }

  function WithDirs(tree: map<Path, Node>, rel: Path): map<Path, Node> {
    tree + map p <- Prefixes(rel) :: DirNode
  }

  /** Ensures the directories of `parent`, then stores `node` as `name` in the last one. */
  function Store(tree: map<Path, Node>, parent: Path, name: string, node: Node): Option<map<Path, Node>> {
    if BlockedIn(tree, parent) || parent + [name] in tree then None
    else Some(WithDirs(tree, parent)[parent + [name] := node])
  }

  function StoreBelow(s: Model, path: Path, node: Node): (Status, Model) {
    if path == [] then (Unreachable, s)
    else
      var parent, name := path[..|path| - 1], path[|path| - 1];
      if !(s.root <= parent) then (StripRootError, s)
      else
        match Store(s.tree, parent[|s.root|..], name, node)
        case None => (Unreachable, s)
        case Some(tree) => (Done, s.(tree := tree))
  }

  /** One builder call on the model. `add_file` records the digest before anything can fail. */
  function Apply(checksum: seq<byte> -> Digest, s: Model, op: Op): (Status, Model) {
    match op
    case AddDir(path) =>
      if !(s.root <= path) then (StripRootError, s)
      else if BlockedIn(s.tree, path[|s.root|..]) then (Unreachable, s)
      else (Done, s.(tree := WithDirs(s.tree, path[|s.root|..])))
    case AddFile(path, data) =>
      var digest := checksum(data);
      var offset := if digest in s.offsets then s.offsets[digest] else s.current;
      var r := StoreBelow(s.(offsets := s.offsets[digest := offset]), path, FileNode(offset, |data|, Some(data)));
      if r.0.Done? && s.current == offset then (Done, r.1.(current := s.current + |data|)) else r
    case AddSymlink(path, target) =>
      if !(s.root <= target) then (StripRootError, s)
      else StoreBelow(s, path, LinkNode(target[|s.root|..]))
  }

  function Initial(root: Path): Model {
    Model(root, map[[] := DirNode], 0, map[])
  }

  /** The model after a run; the last call is the outermost one. */
  function Run(checksum: seq<byte> -> Digest, root: Path, ops: seq<Op>): Model {
    if ops == [] then Initial(root)
    else Apply(checksum, Run(checksum, root, ops[..|ops| - 1]), ops[|ops| - 1]).1
  }

  function StatusOf(checksum: seq<byte> -> Digest, root: Path, ops: seq<Op>, i: nat): Status
    requires i < |ops|
  {
    Apply(checksum, Run(checksum, root, ops[..i]), ops[i]).0
  }

  ghost predicate AllDone(checksum: seq<byte> -> Digest, root: Path, ops: seq<Op>) {
    forall i :: 0 <= i < |ops| ==> StatusOf(checksum, root, ops, i) == Done
  }

  lemma AllDonePrefix(checksum: seq<byte> -> Digest, root: Path, ops: seq<Op>)
    requires ops != [] && AllDone(checksum, root, ops)
    ensures AllDone(checksum, root, ops[..|ops| - 1])
    ensures StatusOf(checksum, root, ops, |ops| - 1) == Done
  {
    var init := ops[..|ops| - 1];
    forall i | 0 <= i < |init| ensures StatusOf(checksum, root, init, i) == Done {
      assert init[..i] == ops[..i];
      assert StatusOf(checksum, root, ops, i) == Done;
    }
  }

  // ----- the builder refines the map -----

  ghost predicate Represents(dir: VfsEntry, tree: map<Path, Node>) {
    forall p: Path :: NodeAt(dir, p) == Get(tree, p)
  }

  lemma BlockedAgrees(dir: VfsEntry, tree: map<Path, Node>, rel: Path)
    requires Represents(dir, tree)
    ensures Blocked(dir, rel) <==> BlockedIn(tree, rel)
  {
    if Blocked(dir, rel) {
      var k :| 0 <= k <= |rel| && NodeAt(dir, rel[..k]).Some? && NodeAt(dir, rel[..k]) != Some(DirNode);
      assert rel[..k] in Prefixes(rel);
    }
    if BlockedIn(tree, rel) {
      var p :| p in Prefixes(rel) && p in tree && tree[p] != DirNode;
      var k :| 0 <= k <= |rel| && p == rel[..k];
      assert NodeAt(dir, rel[..k]) == Some(tree[p]);
    }
  }

  lemma PrefixesAreSlices(rel: Path, p: Path)
    ensures p in Prefixes(rel) <==> p <= rel
  {
    if p <= rel { assert p == rel[..|p|]; }
  }

  lemma ExtensionRepresents(dir: VfsEntry, tree: map<Path, Node>, rel: Path, leaf: Option<VfsEntry>, dir': VfsEntry)
    requires Represents(dir, tree) && IsExtension(dir, rel, leaf, dir')
    ensures Represents(dir', if leaf.None? then WithDirs(tree, rel)
                             else WithDirs(tree, rel)[rel + [leaf.value.name] := View(leaf.value)])
  {
    forall p: Path { PrefixesAreSlices(rel, p); }
  }

  class VfsBuilder {
    const root: Path
    const checksum: seq<byte> -> Digest
    var rootDir: VfsEntry
    var currentOffset: nat
    var fileOffsets: map<Digest, nat>
    ghost var tree: map<Path, Node>

    /** Every directory is strictly sorted and the tree is exactly the path map. */
    ghost predicate Valid()
      reads this
    {
      rootDir.Dir? && Sorted(rootDir) && Represents(rootDir, tree)
    }

    ghost function State(): Model
      reads this
    {
      Model(root, tree, currentOffset, fileOffsets)
    }

    constructor (root: Path, name: string, checksum: seq<byte> -> Digest)
      ensures Valid() && State() == Initial(root) && this.checksum == checksum
    {
      this.root := root;
      this.checksum := checksum;
      rootDir := Dir(name, []);
      currentOffset := 0;
      fileOffsets := map[];
      tree := map[[] := DirNode];
    }

    /** The tail shared by `add_file` and `add_symlink`. */
    method PlaceBelow(path: Path, leaf: VfsEntry) returns (status: Status)
      requires Valid() && !leaf.Dir? && (path != [] ==> leaf.name == path[|path| - 1])
      modifies this`rootDir, this`tree
      ensures Valid() && (status, State()) == StoreBelow(old(State()), path, View(leaf))
    {
      if path == [] { return Unreachable; }
      var parent := path[..|path| - 1];
      if !(root <= parent) { return StripRootError; }
      var rel := parent[|root|..];
      BlockedAgrees(rootDir, tree, rel);
      var ok, dir := Place(rootDir, rel, Some(leaf));
      if !ok { return Unreachable; }
      ExtensionRepresents(rootDir, tree, rel, Some(leaf), dir);
      rootDir := dir;
      tree := WithDirs(tree, rel)[rel + [leaf.name] := View(leaf)];
      return Done;
    }

    method AddDir(path: Path) returns (status: Status)
      requires Valid()
      modifies this`rootDir, this`tree
      ensures Valid() && (status, State()) == Apply(checksum, old(State()), Op.AddDir(path))
    {
      if !(root <= path) { return StripRootError; }
      var rel := path[|root|..];
      BlockedAgrees(rootDir, tree, rel);
      var ok, dir := Place(rootDir, rel, None);
      if !ok { return Unreachable; }
      ExtensionRepresents(rootDir, tree, rel, None, dir);
      rootDir := dir;
      tree := WithDirs(tree, rel);
      return Done;
    }

    method AddFile(path: Path, data: seq<byte>) returns (status: Status)
      requires Valid()
      modifies this
      ensures Valid() && (status, State()) == Apply(checksum, old(State()), Op.AddFile(path, data))
    {
      var digest := checksum(data);
      var offset;
      if digest in fileOffsets {
        offset := fileOffsets[digest];
      } else {
        offset := currentOffset;
        fileOffsets := fileOffsets[digest := offset];
      }
      assert fileOffsets == old(fileOffsets)[digest := offset];
      var name := if path == [] then "" else path[|path| - 1];
      status := PlaceBelow(path, File(name, offset, |data|, Some(data)));
      if status.Done? && currentOffset == offset {
        currentOffset := currentOffset + |data|;
      }
    }

    method AddSymlink(path: Path, target: Path) returns (status: Status)
      requires Valid()
      modifies this`rootDir, this`tree
      ensures Valid() && (status, State()) == Apply(checksum, old(State()), Op.AddSymlink(path, target))
    {
      if !(root <= target) { return StripRootError; }
      var name := if path == [] then "" else path[|path| - 1];
      status := PlaceBelow(path, Symlink(name, target[|root|..]));
    }
  }

  /** Any sequence of calls on a fresh builder: the tree stays sorted and is the model's map. */
  method Build(root: Path, name: string, checksum: seq<byte> -> Digest, ops: seq<Op>) returns (b: VfsBuilder)
    ensures fresh(b) && b.Valid() && b.State() == Run(checksum, root, ops)
  {
    b := new VfsBuilder(root, name, checksum);
    for i := 0 to |ops|
      invariant fresh(b) && b.Valid() && b.checksum == checksum
      invariant b.State() == Run(checksum, root, ops[..i])
    {
      assert ops[..i + 1][..i] == ops[..i];
      var status;
      match ops[i] {
        case AddDir(path) => status := b.AddDir(path);
        case AddFile(path, data) => status := b.AddFile(path, data);
        case AddSymlink(path, target) => status := b.AddSymlink(path, target);
      }
    }
    assert ops[..|ops|] == ops;
  }
}
