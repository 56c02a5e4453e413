/** The tree of `crates/sb_fs/virtual_fs.rs`: name-sorted directories, searched and extended by
    binary search, seen from outside as a plain map from relative paths to nodes. */
module VfsTree {
  import opened Common

  type Path = seq<string>

  datatype VfsEntry =
    | Dir(name: string, entries: seq<VfsEntry>)
    | File(name: string, offset: nat, len: nat, content: Option<seq<byte>>)
    | Symlink(name: string, destParts: Path)

  /** What a path holds, without the name under which it is stored. */
  datatype Node =
    | DirNode
    | FileNode(offset: nat, len: nat, content: Option<seq<byte>>)
    | LinkNode(dest: Path)

  function View(e: VfsEntry): Node {
    match e
    case Dir(_, _) => DirNode
    case File(_, offset, len, content) => FileNode(offset, len, content)
    case Symlink(_, dest) => LinkNode(dest)
  }

  // ----- the order of names -----

  /** `str::cmp` gives `Less`: lexicographic order of the characters. */
  predicate Less(a: string, b: string) {
    b != [] && (a == [] || a[0] < b[0] || (a[0] == b[0] && Less(a[1..], b[1..])))
  }

  lemma {:induction false} LessIrreflexive(a: string)
    ensures !Less(a, a)
  {
    if a != [] { LessIrreflexive(a[1..]); }
  }

  lemma {:induction false} LessTransitive(a: string, b: string, c: string)
    requires Less(a, b) && Less(b, c)
    ensures Less(a, c)
  {
    if a != [] && a[0] == b[0] && b[0] == c[0] {
      LessTransitive(a[1..], b[1..], c[1..]);
    }
  }

  lemma {:induction false} LessTotal(a: string, b: string)
    ensures a == b || Less(a, b) || Less(b, a)
  {
    if a != [] && b != [] && a[0] == b[0] {
      LessTotal(a[1..], b[1..]);
      assert a == [a[0]] + a[1..] && b == [b[0]] + b[1..];
    }
  }

  // ----- sorted directories -----

  predicate SortedNames(es: seq<VfsEntry>) {
    forall i, j :: 0 <= i < j < |es| ==> Less(es[i].name, es[j].name)
  }

  /** Every directory of the tree is strictly sorted by name. */
  predicate Sorted(e: VfsEntry) {
    e.Dir? ==> SortedNames(e.entries) && forall c <- e.entries :: Sorted(c)
  }

  /** The entry a plain scan of a directory finds under a name. */
  function Child(es: seq<VfsEntry>, name: string): Option<VfsEntry> {
    if es == [] then None
    else if es[0].name == name then Some(es[0])
    else Child(es[1..], name)
  }

  /** The entry at a relative path, by plain scans. */
  function EntryAt(e: VfsEntry, path: Path): Option<VfsEntry>
    decreases |path|
  {
    if path == [] then Some(e)
    else if !e.Dir? then None
    else
      match Child(e.entries, path[0])
      case None => None
      case Some(c) => EntryAt(c, path[1..])
  }

  /** The tree read as a map from paths to nodes. */
  function NodeAt(e: VfsEntry, path: Path): Option<Node> {
    match EntryAt(e, path)
    case None => None
    case Some(c) => Some(View(c))
  }

  lemma {:induction false} ChildFound(es: seq<VfsEntry>, i: nat)
    requires SortedNames(es) && i < |es|
    ensures Child(es, es[i].name) == Some(es[i])
  {
    if i > 0 {
      LessIrreflexive(es[i].name);
      ChildFound(es[1..], i - 1);
    }
  }

  lemma {:induction false} ChildMissing(es: seq<VfsEntry>, name: string)
    requires forall i :: 0 <= i < |es| ==> es[i].name != name
    ensures Child(es, name) == None
  {
    if es != [] { ChildMissing(es[1..], name); }
  }

  lemma {:induction false} ChildSome(es: seq<VfsEntry>, name: string) returns (i: nat)
    requires Child(es, name).Some?
    ensures i < |es| && es[i].name == name && Child(es, name) == Some(es[i])
  {
    if es[0].name == name {
      i := 0;
    } else {
      i := ChildSome(es[1..], name);
      i := i + 1;
    }
  }

  /** `slice::binary_search_by` over the names of a directory. */
  method BinarySearch(es: seq<VfsEntry>, name: string) returns (found: bool, index: nat)
    requires SortedNames(es)
    ensures index <= |es|
    ensures found ==> index < |es| && es[index].name == name && Child(es, name) == Some(es[index])
    ensures !found ==> Child(es, name) == None
    ensures !found ==> forall i :: 0 <= i < index ==> Less(es[i].name, name)
    ensures !found ==> forall i :: index <= i < |es| ==> Less(name, es[i].name)
  {
    var lo, hi := 0, |es|;
    while lo < hi
      invariant 0 <= lo <= hi <= |es|
      invariant forall i :: 0 <= i < lo ==> Less(es[i].name, name)
      invariant forall i :: hi <= i < |es| ==> Less(name, es[i].name)
    {
      var mid := lo + (hi - lo) / 2;
      if es[mid].name == name {
        ChildFound(es, mid);
        return true, mid;
      }
      LessTotal(es[mid].name, name);
      if Less(es[mid].name, name) {
        forall i | 0 <= i < mid ensures Less(es[i].name, name) {
          LessTransitive(es[i].name, es[mid].name, name);
        }
        lo := mid + 1;
      } else {
        forall i | mid < i < |es| ensures Less(name, es[i].name) {
          LessTransitive(name, es[mid].name, es[i].name);
        }
        hi := mid;
      }
    }
    LessIrreflexive(name);
    ChildMissing(es, name);
    return false, lo;
  }

  // ----- insertion -----

  /** The entries of a directory after `child` replaced the entry of the same name, or was inserted. */
  function Placed(es: seq<VfsEntry>, found: bool, index: nat, child: VfsEntry): seq<VfsEntry>
    requires if found then index < |es| else index <= |es|
  {
    if found then es[index := child] else es[..index] + [child] + es[index..]
  }

  /** `index` is where a binary search for `name` ends. */
  predicate SearchResult(es: seq<VfsEntry>, name: string, found: bool, index: nat) {
    if found then index < |es| && es[index].name == name
    else
      && index <= |es|
      && (forall i :: 0 <= i < index ==> Less(es[i].name, name))
      && (forall i :: index <= i < |es| ==> Less(name, es[i].name))
  }

  lemma PlacedSorted(es: seq<VfsEntry>, found: bool, index: nat, child: VfsEntry)
    requires SortedNames(es) && SearchResult(es, child.name, found, index)
    ensures SortedNames(Placed(es, found, index, child))
  {
    var ps := Placed(es, found, index, child);
    forall i, j | 0 <= i < j < |ps| ensures Less(ps[i].name, ps[j].name) {
      if !found {
        if i < index && j > index {
          assert ps[i] == es[i] && ps[j] == es[j - 1];
        } else if j < index {
          assert ps[i] == es[i] && ps[j] == es[j];
        } else if i > index {
          assert ps[i] == es[i - 1] && ps[j] == es[j - 1];
        }
      }
    }
  }

  /** Placing a child changes what one name finds and nothing else. */
  lemma PlacedChild(es: seq<VfsEntry>, found: bool, index: nat, child: VfsEntry, name: string)
    requires SortedNames(es) && SearchResult(es, child.name, found, index)
    ensures Child(Placed(es, found, index, child), name)
         == if name == child.name then Some(child) else Child(es, name)
  {
    var ps := Placed(es, found, index, child);
    PlacedSorted(es, found, index, child);
    assert ps[index] == child;
    if name == child.name {
      ChildFound(ps, index);
    } else if Child(es, name).Some? {
      var i := ChildSome(es, name);
      var j := if found || i < index then i else i + 1;
      assert ps[j] == es[i];
      ChildFound(ps, j);
    } else {
      if Child(ps, name).Some? {
        var j := ChildSome(ps, name);
        var i := if found || j < index then j else j - 1;
        assert ps[j] == es[i];
        ChildFound(es, i);
        assert false;
      }
    }
  }

  /** Some proper or improper prefix of `path` holds something other than a directory. */
  predicate Blocked(e: VfsEntry, path: Path) {
    exists k :: 0 <= k <= |path| && NodeAt(e, path[..k]).Some? && NodeAt(e, path[..k]) != Some(DirNode)
  }

  /** What every path holds after the directories of `path` were ensured and `leaf` put below them. */
  function Extended(before: Option<Node>, path: Path, leaf: Option<VfsEntry>, p: Path): Option<Node> {
    if leaf.Some? && p == path + [leaf.value.name] then Some(View(leaf.value))
    else if p <= path then Some(DirNode)
    else before
  }

  ghost predicate IsExtension(e: VfsEntry, path: Path, leaf: Option<VfsEntry>, e': VfsEntry) {
    forall p: Path :: NodeAt(e', p) == Extended(NodeAt(e, p), path, leaf, p)
  }

  predicate CanPlace(e: VfsEntry, path: Path, leaf: Option<VfsEntry>) {
    !Blocked(e, path) && (leaf.Some? ==> NodeAt(e, path + [leaf.value.name]) == None)
  }

  lemma NodeBelow(e: VfsEntry, path: Path, k: nat)
    requires e.Dir? && path != [] && 0 < k <= |path|
    ensures NodeAt(e, path[..k])
         == match Child(e.entries, path[0]) case None => None case Some(c) => NodeAt(c, path[1..][..k - 1])
  {
    assert path[..k][0] == path[0] && path[..k][1..] == path[1..][..k - 1];
  }

  /** Being blocked is decided by the child on the path; a missing child blocks nothing. */
  lemma BlockedBelow(e: VfsEntry, path: Path)
    requires e.Dir? && path != []
    ensures Blocked(e, path)
       <==> Child(e.entries, path[0]).Some? && Blocked(Child(e.entries, path[0]).value, path[1..])
  {
    var c := Child(e.entries, path[0]);
    if Blocked(e, path) {
      var k :| 0 <= k <= |path| && NodeAt(e, path[..k]).Some? && NodeAt(e, path[..k]) != Some(DirNode);
      assert k > 0;
      NodeBelow(e, path, k);
      assert Blocked(c.value, path[1..]);
    }
    if c.Some? && Blocked(c.value, path[1..]) {
      var k :| 0 <= k <= |path[1..]| && NodeAt(c.value, path[1..][..k]).Some?
               && NodeAt(c.value, path[1..][..k]) != Some(DirNode);
      NodeBelow(e, path, k + 1);
      assert NodeAt(e, path[..k + 1]).Some?;
    }
  }

  lemma EmptyDirNotBlocked(name: string, path: Path)
    ensures !Blocked(Dir(name, []), path)
  {
    if path != [] { BlockedBelow(Dir(name, []), path); }
  }

  lemma CanPlaceBelow(e: VfsEntry, path: Path, leaf: Option<VfsEntry>)
    requires e.Dir? && path != []
    ensures CanPlace(e, path, leaf)
       <==> CanPlace(if Child(e.entries, path[0]).Some? then Child(e.entries, path[0]).value else Dir(path[0], []),
                     path[1..], leaf)
  {
    BlockedBelow(e, path);
    EmptyDirNotBlocked(path[0], path[1..]);
    if leaf.Some? {
      assert (path + [leaf.value.name])[1..] == path[1..] + [leaf.value.name];
    }
  }

  /** Replacing the child on the path by an extension of it extends the directory. */
  lemma ExtensionBelow(e: VfsEntry, path: Path, leaf: Option<VfsEntry>, found: bool, index: nat,
                       child: VfsEntry, child': VfsEntry)
    requires e.Dir? && path != [] && SortedNames(e.entries)
    requires SearchResult(e.entries, path[0], found, index)
    requires child == if found then e.entries[index] else Dir(path[0], [])
    requires Child(e.entries, path[0]) == if found then Some(child) else None
    requires child'.name == path[0] && IsExtension(child, path[1..], leaf, child')
    ensures IsExtension(e, path, leaf, Dir(e.name, Placed(e.entries, found, index, child')))
  {
    var e' := Dir(e.name, Placed(e.entries, found, index, child'));
    forall p: Path ensures NodeAt(e', p) == Extended(NodeAt(e, p), path, leaf, p) {
      if p != [] {
        PlacedChild(e.entries, found, index, child', p[0]);
        if p[0] == path[0] {
          assert NodeAt(e', p) == NodeAt(child', p[1..]);
          assert !found && p[1..] != [] ==> NodeAt(child, p[1..]) == None;
          assert p <= path <==> p[1..] <= path[1..];
          if leaf.Some? {
            var full := path + [leaf.value.name];
            assert full[0] == path[0] && full[1..] == path[1..] + [leaf.value.name];
            assert p == full <==> p[1..] == full[1..] by {
              assert p == [p[0]] + p[1..] && full == [full[0]] + full[1..];
            }
          }
        } else {
          assert NodeAt(e', p) == NodeAt(e, p);
        }
      }
    }
  }

  /** Putting a leaf into a directory that has no entry of that name. */
  lemma LeafExtension(e: VfsEntry, leaf: VfsEntry, index: nat)
    requires e.Dir? && SortedNames(e.entries) && !leaf.Dir?
    requires SearchResult(e.entries, leaf.name, false, index)
    ensures IsExtension(e, [], Some(leaf), Dir(e.name, Placed(e.entries, false, index, leaf)))
  {
    var e' := Dir(e.name, Placed(e.entries, false, index, leaf));
    LessIrreflexive(leaf.name);
    ChildMissing(e.entries, leaf.name);
    forall p: Path ensures NodeAt(e', p) == Extended(NodeAt(e, p), [], Some(leaf), p) {
      if p != [] {
        PlacedChild(e.entries, false, index, leaf, p[0]);
        assert p == [p[0]] + p[1..];
        assert [] + [leaf.name] == [leaf.name];
        if p[0] == leaf.name {
          assert EntryAt(e', p) == EntryAt(leaf, p[1..]);
          assert p == [leaf.name] <==> p[1..] == [];
        }
      }
    }
  }

  lemma PlacedSubtreesSorted(e: VfsEntry, found: bool, index: nat, child: VfsEntry)
    requires e.Dir? && Sorted(e) && Sorted(child) && SearchResult(e.entries, child.name, found, index)
    ensures Sorted(Dir(e.name, Placed(e.entries, found, index, child)))
  {
    PlacedSorted(e.entries, found, index, child);
    var ps := Placed(e.entries, found, index, child);
    forall c | c in ps ensures Sorted(c) {
      assert c == child || c in e.entries;
    }
  }

  /** The descent shared by `add_dir`, `add_file` and `add_symlink`: ensure the directories of `path`,
      then put `leaf` into the last one. `ok` is false where the source reaches `unreachable!()`. */
  method Place(e: VfsEntry, path: Path, leaf: Option<VfsEntry>) returns (ok: bool, e': VfsEntry)
    requires e.Dir? && Sorted(e) && (leaf.Some? ==> !leaf.value.Dir?)
    ensures ok == CanPlace(e, path, leaf)
    ensures ok ==> e'.Dir? && e'.name == e.name && Sorted(e') && IsExtension(e, path, leaf, e')
    ensures !ok ==> e' == e
    decreases |path|
  {
    if path == [] {
      if leaf.None? {
        return true, e;
      }
      var taken, at := BinarySearch(e.entries, leaf.value.name);
      assert [] + [leaf.value.name] == [leaf.value.name];
      if taken {
        ghost var one := [leaf.value.name];
        assert EntryAt(e.entries[at], one[1..]) == Some(e.entries[at]);
        assert EntryAt(e, one) == Some(e.entries[at]);
        return false, e;
      }
      LeafExtension(e, leaf.value, at);
      PlacedSubtreesSorted(e, false, at, leaf.value);
      return true, Dir(e.name, Placed(e.entries, false, at, leaf.value));
    }
    var found, index := BinarySearch(e.entries, path[0]);
    var child := if found then e.entries[index] else Dir(path[0], []);
    CanPlaceBelow(e, path, leaf);
    if !child.Dir? {
      assert NodeAt(child, path[1..][..0]) != Some(DirNode);
      return false, e;
    }
    var child';
    ok, child' := Place(child, path[1..], leaf);
    if !ok {
      return false, e;
    }
    ExtensionBelow(e, path, leaf, found, index, child, child');
    PlacedSubtreesSorted(e, found, index, child');
    e' := Dir(e.name, Placed(e.entries, found, index, child'));
  }
}
