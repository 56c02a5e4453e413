/** What whole runs of builder calls guarantee: nothing stored is lost or changed, link targets stay
    canonical, and file contents are packed without overlap. */
module VfsRuns {
  import opened Common
  import opened VfsTree
  import opened VfsBuilding

  type Checksum = seq<byte> -> Digest

  // ----- what one call does -----

  /** Nothing but directories is at or above the path. */
  ghost predicate IsOpen(tree: map<Path, Node>, rel: Path) {
    forall p | p <= rel :: p in tree ==> tree[p] == DirNode
  }

  lemma OpenIff(tree: map<Path, Node>, rel: Path)
    ensures IsOpen(tree, rel) <==> !BlockedIn(tree, rel)
  {
    forall p | p <= rel { PrefixesAreSlices(rel, p); }
    if BlockedIn(tree, rel) {
      var p :| p in Prefixes(rel) && p in tree && tree[p] != DirNode;
      PrefixesAreSlices(rel, p);
    }
  }

  /** What a call stores at its own path: a directory, the file's bytes, or the link's target below the root. */
  ghost predicate IsStored(root: Path, op: Op, node: Node) {
    match op
    case AddDir(_) => node == DirNode
    case AddFile(_, data) => node.FileNode? && node.content == Some(data) && node.len == |data|
    case AddSymlink(_, target) => root <= target && node == LinkNode(target[|root|..])
  }

  /** The call may be made: what it names is in the root, only directories are above its path, and at its path
      there is nothing yet, or a directory if it is one. */
  ghost predicate Fits(root: Path, tree: map<Path, Node>, op: Op) {
    && (op.AddSymlink? ==> root <= op.target)
    && if op.AddDir? then root <= op.path && IsOpen(tree, op.path[|root|..])
       else
         && root < op.path && op.path[|root|..] !in tree
         && IsOpen(tree, op.path[..|op.path| - 1][|root|..])
  }

  /** A call succeeds exactly when it may be made. Its path then holds what it stores, every path above it in the
      root is a directory, and all other paths are as before; a call that fails changes no path. */
  lemma CallIff(checksum: Checksum, s: Model, op: Op)
    ensures Apply(checksum, s, op).0 == Done <==> Fits(s.root, s.tree, op)
    ensures Apply(checksum, s, op).0 != Done ==> Apply(checksum, s, op).1.tree == s.tree
    ensures Apply(checksum, s, op).0 == Done ==> Stores(s, op, Apply(checksum, s, op).1.tree)
    ensures Apply(checksum, s, op).1.root == s.root
  {
    assert s.root < op.path ==> s.root <= op.path[..|op.path| - 1];
    if op.AddDir? {
      if s.root <= op.path { DirectoryIsAdded(checksum, s, op); }
    } else if op.path != [] && s.root <= op.path[..|op.path| - 1] {
      LeafIsAdded(checksum, s, op);
    }
  }

  /** The tree after a call that succeeded. */
  ghost predicate Stores(s: Model, op: Op, tree: map<Path, Node>) {
    && s.root <= op.path
    && (var rel := op.path[|s.root|..];
        && rel in tree && IsStored(s.root, op, tree[rel])
        && (forall p | p < rel :: p in tree && tree[p] == DirNode)
        && (forall p | !(p <= rel) :: Get(tree, p) == Get(s.tree, p)))
  }

  lemma DirectoryIsAdded(checksum: Checksum, s: Model, op: Op)
    requires op.AddDir? && s.root <= op.path
    ensures Apply(checksum, s, op).0 == Done <==> IsOpen(s.tree, op.path[|s.root|..])
    ensures Apply(checksum, s, op).0 != Done ==> Apply(checksum, s, op).1.tree == s.tree
    ensures Apply(checksum, s, op).0 == Done ==> Stores(s, op, Apply(checksum, s, op).1.tree)
  {
    var rel := op.path[|s.root|..];
    OpenIff(s.tree, rel);
    forall p ensures p in Prefixes(rel) <==> p <= rel { PrefixesAreSlices(rel, p); }
  }

  /** The tree with a leaf stored below its parent's directories. */
  lemma LeafIsStored(tree: map<Path, Node>, parent: Path, name: string, node: Node)
    ensures Store(tree, parent, name, node).Some? <==> IsOpen(tree, parent) && parent + [name] !in tree
    ensures var rel := parent + [name];
            match Store(tree, parent, name, node)
            case None => true
            case Some(t) =>
              && rel in t && t[rel] == node
              && (forall p | p < rel :: p in t && t[p] == DirNode)
              && (forall p | !(p <= rel) :: Get(t, p) == Get(tree, p))
  {
    OpenIff(tree, parent);
    forall p ensures p in Prefixes(parent) <==> p < parent + [name] {
      PrefixesAreSlices(parent, p);
      BelowLeaf(parent, parent + [name], p);
    }
  }

  /** What is stored for a leaf. */
  function LeafNode(checksum: Checksum, s: Model, op: Op): Node
    requires !op.AddDir? && (op.AddSymlink? ==> s.root <= op.target)
  {
    match op
    case AddFile(_, data) =>
      FileNode(if checksum(data) in s.offsets then s.offsets[checksum(data)] else s.current, |data|, Some(data))
    case AddSymlink(_, target) => LinkNode(target[|s.root|..])
  }

  lemma LeafIsAdded(checksum: Checksum, s: Model, op: Op)
    requires !op.AddDir? && op.path != [] && s.root <= op.path[..|op.path| - 1]
    ensures s.root < op.path
    ensures Apply(checksum, s, op).0 == Done <==> Fits(s.root, s.tree, op)
    ensures Apply(checksum, s, op).0 != Done ==> Apply(checksum, s, op).1.tree == s.tree
    ensures Apply(checksum, s, op).0 == Done ==> Stores(s, op, Apply(checksum, s, op).1.tree)
  {
    BelowRoot(s.root, op.path);
    if op.AddSymlink? ==> s.root <= op.target {
      var parent, name := op.path[..|op.path| - 1][|s.root|..], op.path[|op.path| - 1];
      var node := LeafNode(checksum, s, op);
      assert IsStored(s.root, op, node);
      LeafIsStored(s.tree, parent, name, node);
    }
  }

  lemma BelowLeaf(parent: Path, rel: Path, p: Path)
    requires rel != [] && rel == parent + [rel[|rel| - 1]]
    ensures p <= parent <==> p < rel
  {
    if p < rel { assert p == rel[..|p|] && parent == rel[..|parent|]; }
    if p <= parent { assert p == parent[..|p|]; }
  }

  // ----- stored entries are stable -----

  /** A call changes no path that already held something. */
  lemma CallKeepsEntries(checksum: Checksum, s: Model, op: Op, p: Path)
    requires p in s.tree
    ensures Get(Apply(checksum, s, op).1.tree, p) == Some(s.tree[p])
  {
    CallIff(checksum, s, op);
    if Apply(checksum, s, op).0 == Done && p <= op.path[|s.root|..] {
      var rel := op.path[|s.root|..];
      assert p < rel || p == rel;
      assert s.tree[p] == DirNode by {
        if !op.AddDir? {
          var parent := op.path[..|op.path| - 1][|s.root|..];
          BelowRoot(s.root, op.path);
          BelowLeaf(parent, rel, p);
          assert IsOpen(s.tree, parent) && p <= parent;
        }
      }
    }
  }

  lemma RunStep(checksum: Checksum, root: Path, ops: seq<Op>, i: nat)
    requires i < |ops|
    ensures Run(checksum, root, ops[..i + 1]) == Apply(checksum, Run(checksum, root, ops[..i]), ops[i]).1
  {
    assert ops[..i + 1][..i] == ops[..i];
  }

  lemma {:induction false} RunRoot(checksum: Checksum, root: Path, ops: seq<Op>)
    ensures Run(checksum, root, ops).root == root
  {
    if ops != [] { RunRoot(checksum, root, ops[..|ops| - 1]); }
  }

  /** In any run an entry, once stored, is there unchanged at the end. */
  lemma {:induction false} EntriesSurvive(checksum: Checksum, root: Path, ops: seq<Op>, i: nat, p: Path)
    requires i <= |ops| && p in Run(checksum, root, ops[..i]).tree
    ensures Get(Run(checksum, root, ops).tree, p) == Some(Run(checksum, root, ops[..i]).tree[p])
    decreases |ops| - i
  {
    if i == |ops| {
      assert ops[..i] == ops;
    } else {
      RunStep(checksum, root, ops, i);
      CallKeepsEntries(checksum, Run(checksum, root, ops[..i]), ops[i], p);
      EntriesSurvive(checksum, root, ops, i + 1, p);
    }
  }

  /** What every successful call of a run stored is found at the end: its directory, file or link at its path, and
      directories at all paths above it in the root. */
  lemma AddedIsFound(checksum: Checksum, root: Path, ops: seq<Op>, i: nat)
    requires i < |ops| && StatusOf(checksum, root, ops, i) == Done
    ensures root <= ops[i].path && (!ops[i].AddDir? ==> root < ops[i].path)
    ensures var tree, rel := Run(checksum, root, ops).tree, ops[i].path[|root|..];
            && rel in tree && IsStored(root, ops[i], tree[rel])
            && forall p | p < rel :: p in tree && tree[p] == DirNode
  {
    var s := Run(checksum, root, ops[..i]);
    RunRoot(checksum, root, ops[..i]);
    CallIff(checksum, s, ops[i]);
    RunStep(checksum, root, ops, i);
    StoredSurvives(checksum, root, ops, i + 1, ops[i], ops[i].path[|root|..]);
  }

  lemma StoredSurvives(checksum: Checksum, root: Path, ops: seq<Op>, i: nat, op: Op, rel: Path)
    requires i <= |ops|
    requires var tree := Run(checksum, root, ops[..i]).tree;
             && rel in tree && IsStored(root, op, tree[rel])
             && forall p | p < rel :: p in tree && tree[p] == DirNode
    ensures var tree := Run(checksum, root, ops).tree;
            && rel in tree && IsStored(root, op, tree[rel])
            && forall p | p < rel :: p in tree && tree[p] == DirNode
  {
    EntriesSurvive(checksum, root, ops, i, rel);
    forall p | p < rel ensures p in Run(checksum, root, ops).tree && Run(checksum, root, ops).tree[p] == DirNode {
      EntriesSurvive(checksum, root, ops, i, p);
    }
  }

  /** What is at `p` comes from the call: it stored it there, or made it a directory above its own path. */
  ghost predicate ComesFrom(root: Path, op: Op, p: Path, node: Node) {
    && root <= op.path
    && ((p == op.path[|root|..] && IsStored(root, op, node)) || (p < op.path[|root|..] && node == DirNode))
  }

  lemma NewComesFrom(checksum: Checksum, s: Model, op: Op, p: Path)
    requires p !in s.tree && p in Apply(checksum, s, op).1.tree
    ensures Apply(checksum, s, op).0 == Done && ComesFrom(s.root, op, p, Apply(checksum, s, op).1.tree[p])
  {
    CallIff(checksum, s, op);
    var rel := op.path[|s.root|..];
    assert Stores(s, op, Apply(checksum, s, op).1.tree) && !(p <= rel) ==>
             Get(Apply(checksum, s, op).1.tree, p) == Get(s.tree, p);
  }

  /** And nothing else is: whatever the tree holds below the root was stored by a successful call, at its own path
      or as a directory above it. */
  lemma {:induction false} FoundWasAdded(checksum: Checksum, root: Path, ops: seq<Op>, p: Path) returns (i: nat)
    requires p in Run(checksum, root, ops).tree && p != []
    ensures i < |ops| && StatusOf(checksum, root, ops, i) == Done
    ensures ComesFrom(root, ops[i], p, Run(checksum, root, ops).tree[p])
    decreases |ops|
  {
    var n := |ops| - 1;
    var before := Run(checksum, root, ops[..n]);
    RunRoot(checksum, root, ops[..n]);
    if p in before.tree {
      i := FoundWasAdded(checksum, root, ops[..n], p);
      assert ops[..n][..i] == ops[..i];
      CallKeepsEntries(checksum, before, ops[n], p);
    } else {
      i := n;
      NewComesFrom(checksum, before, ops[n], p);
    }
  }

  // ----- link targets -----

  /** A link that one call brings in is the one it adds. */
  lemma NewLinkIsAdded(checksum: Checksum, s: Model, op: Op, p: Path)
    requires var t := Apply(checksum, s, op).1.tree; p in t && t[p].LinkNode? && Get(s.tree, p) != Some(t[p])
    ensures op == AddSymlink(s.root + p, s.root + Apply(checksum, s, op).1.tree[p].dest)
  {
    assert op.AddSymlink?;
    var path := op.path;
    BelowRoot(s.root, path);
    assert op.target == s.root + op.target[|s.root|..];
  }

  /** The directory of a path below the root, and its last name. */
  lemma BelowRoot(root: Path, path: Path)
    requires path != [] && root <= path[..|path| - 1]
    ensures path[..|path| - 1][|root|..] + [path[|path| - 1]] == path[|root|..] && path == root + path[|root|..]
  {
  }

  /** Links of the final map come from `add_symlink` calls. */
  lemma {:induction false} LinkOrigin(checksum: Checksum, root: Path, ops: seq<Op>, p: Path) returns (i: nat)
    requires p in Run(checksum, root, ops).tree && Run(checksum, root, ops).tree[p].LinkNode?
    ensures i < |ops| && ops[i] == AddSymlink(root + p, root + Run(checksum, root, ops).tree[p].dest)
  {
    var init := ops[..|ops| - 1];
    var s, op := Run(checksum, root, init), ops[|ops| - 1];
    RunRoot(checksum, root, init);
    var t := Apply(checksum, s, op).1.tree;
    if Get(s.tree, p) == Some(t[p]) {
      i := LinkOrigin(checksum, root, init, p);
    } else {
      NewLinkIsAdded(checksum, s, op, p);
      i := |ops| - 1;
    }
  }

  /** No link lies on the way to, or at, the target of a link. */
  ghost predicate CanonicalTargets(tree: map<Path, Node>) {
    forall p, q :: p in tree && tree[p].LinkNode? && q in tree && tree[q].LinkNode? ==> !(q <= tree[p].dest)
  }

  /** The targets handed to `add_symlink` were canonicalised against the links that were added. */
  predicate CanonicalOps(ops: seq<Op>) {
    forall i, j :: 0 <= i < |ops| && 0 <= j < |ops| && ops[i].AddSymlink? && ops[j].AddSymlink?
      ==> !(ops[j].path <= ops[i].target)
  }

  lemma CanonicalOpsGiveCanonicalTargets(checksum: Checksum, root: Path, ops: seq<Op>)
    requires CanonicalOps(ops)
    ensures CanonicalTargets(Run(checksum, root, ops).tree)
  {
    var tree := Run(checksum, root, ops).tree;
    forall p, q | p in tree && tree[p].LinkNode? && q in tree && tree[q].LinkNode? ensures !(q <= tree[p].dest) {
      var i := LinkOrigin(checksum, root, ops, p);
      var j := LinkOrigin(checksum, root, ops, q);
    }
  }

  // ----- packing of contents -----

  /** The contents handed to `add_file`, stored or not. */
  function Tried(ops: seq<Op>): seq<seq<byte>> {
    if ops == [] then []
    else
      var op := ops[|ops| - 1];
      Tried(ops[..|ops| - 1]) + if op.AddFile? then [op.data] else []
  }

  /** The contents of the `add_file` calls that succeeded. */
  function Stored(checksum: Checksum, root: Path, ops: seq<Op>): seq<seq<byte>> {
    if ops == [] then []
    else
      var n := |ops| - 1;
      Stored(checksum, root, ops[..n])
      + if ops[n].AddFile? && StatusOf(checksum, root, ops, n) == Done then [ops[n].data] else []
  }

  function DistinctBytes(contents: seq<seq<byte>>): nat {
    if contents == [] then 0
    else
      var n := |contents| - 1;
      DistinctBytes(contents[..n]) + if contents[n] in contents[..n] then 0 else |contents[n]|
  }

  ghost predicate NoCollision(checksum: Checksum, contents: seq<seq<byte>>) {
    forall a, b :: a in contents && b in contents && checksum(a) == checksum(b) ==> a == b
  }

  /** Two contents occupy disjoint byte ranges. */
  predicate Disjoint(checksum: Checksum, offsets: map<Digest, nat>, a: seq<byte>, b: seq<byte>)
    requires checksum(a) in offsets && checksum(b) in offsets
  {
    offsets[checksum(a)] + |a| <= offsets[checksum(b)] || offsets[checksum(b)] + |b| <= offsets[checksum(a)]
  }

  ghost predicate AllDisjoint(checksum: Checksum, offsets: map<Digest, nat>, contents: seq<seq<byte>>)
    requires forall a <- contents :: checksum(a) in offsets
  {
    forall a, b :: a in contents && b in contents && a != b ==> Disjoint(checksum, offsets, a, b)
  }

  /** A digest left behind by a failed `add_file` is used for bytes after the offset has moved on. */
  ghost predicate StaleReuse(checksum: Checksum, current: nat, offsets: map<Digest, nat>, stored: seq<seq<byte>>,
                             data: seq<byte>)
  {
    data != [] && data !in stored && checksum(data) in offsets && offsets[checksum(data)] != current
  }

  /** A stored content starts, with at least one byte, at `offset`. */
  ghost predicate StartsHere(checksum: Checksum, offsets: map<Digest, nat>, stored: seq<seq<byte>>, offset: nat) {
    exists b <- stored :: b != [] && checksum(b) in offsets && offsets[checksum(b)] == offset
  }

  /** The bookkeeping invariant. A digest with no stored content still points at the running offset,
      or at the start of some stored content. */
  ghost predicate Packed(checksum: Checksum, current: nat, offsets: map<Digest, nat>, stored: seq<seq<byte>>) {
    && Below(checksum, current, offsets, stored)
    && AllDisjoint(checksum, offsets, stored)
    && current == DistinctBytes(stored)
    && Anchored(checksum, current, offsets, stored)
  }

  ghost predicate Below(checksum: Checksum, current: nat, offsets: map<Digest, nat>, stored: seq<seq<byte>>) {
    forall a <- stored :: checksum(a) in offsets && offsets[checksum(a)] + |a| <= current
  }

  ghost predicate Anchored(checksum: Checksum, current: nat, offsets: map<Digest, nat>, stored: seq<seq<byte>>) {
    forall k <- offsets ::
      offsets[k] == current || (offsets[k] < current && StartsHere(checksum, offsets, stored, offsets[k]))
  }

  /** A start stays a start when contents and digests are only added. */
  lemma StartKept(checksum: Checksum, offsets: map<Digest, nat>, stored: seq<seq<byte>>, offset: nat,
                  offsets': map<Digest, nat>, stored': seq<seq<byte>>)
    requires StartsHere(checksum, offsets, stored, offset)
    requires forall a <- stored :: a in stored'
    requires forall a <- stored ::
               checksum(a) in offsets && checksum(a) in offsets' && offsets'[checksum(a)] == offsets[checksum(a)]
    ensures StartsHere(checksum, offsets', stored', offset)
  {
    var b :| b in stored && b != [] && checksum(b) in offsets && offsets[checksum(b)] == offset;
    assert b in stored' && checksum(b) in offsets' && offsets'[checksum(b)] == offset;
  }

  lemma DistinctBytesStep(stored: seq<seq<byte>>, data: seq<byte>)
    ensures DistinctBytes(stored + [data]) == DistinctBytes(stored) + if data in stored then 0 else |data|
  {
    assert (stored + [data])[..|stored|] == stored;
  }

  lemma PackNewDisjoint(checksum: Checksum, current: nat, offsets: map<Digest, nat>, stored: seq<seq<byte>>,
                        data: seq<byte>)
    requires Below(checksum, current, offsets, stored) && AllDisjoint(checksum, offsets, stored)
    requires forall a <- stored :: checksum(a) != checksum(data)
    ensures Below(checksum, current + |data|, offsets[checksum(data) := current], stored + [data])
    ensures AllDisjoint(checksum, offsets[checksum(data) := current], stored + [data])
  {
    var offsets': map<Digest, nat>, stored' := offsets[checksum(data) := current], stored + [data];
    assert forall a <- stored' :: a == data || a in stored;
    forall a, b | a in stored' && b in stored' && a != b ensures Disjoint(checksum, offsets', a, b) {
      if a in stored && b in stored {
        assert Disjoint(checksum, offsets, a, b);
      }
    }
  }

  /** New bytes go to the running offset, whether or not the digest was left behind there. */
  lemma PackNew(checksum: Checksum, current: nat, offsets: map<Digest, nat>, stored: seq<seq<byte>>, data: seq<byte>)
    requires Packed(checksum, current, offsets, stored) && NoCollision(checksum, stored + [data])
    requires data !in stored && (checksum(data) in offsets ==> offsets[checksum(data)] == current)
    ensures Packed(checksum, current + |data|, offsets[checksum(data) := current], stored + [data])
  {
    var offsets': map<Digest, nat>, stored' := offsets[checksum(data) := current], stored + [data];
    DistinctBytesStep(stored, data);
    forall a | a in stored ensures a in stored' && checksum(a) != checksum(data) {
      assert a in stored' && data in stored';
    }
    PackNewDisjoint(checksum, current, offsets, stored, data);
    assert Anchored(checksum, current + |data|, offsets', stored') by {
      forall k | k in offsets' && offsets'[k] != current + |data|
        ensures offsets'[k] < current + |data| && StartsHere(checksum, offsets', stored', offsets'[k])
      {
        if offsets'[k] == current {
          assert data in stored' && offsets'[checksum(data)] == current;
        } else {
          StartKept(checksum, offsets, stored, offsets[k], offsets', stored');
        }
      }
    }
  }

  /** Bytes stored before keep their offset, and the offset-equality test adds nothing for them. */
  lemma PackKnown(checksum: Checksum, current: nat, offsets: map<Digest, nat>, stored: seq<seq<byte>>, data: seq<byte>)
    requires Packed(checksum, current, offsets, stored) && data in stored
    ensures Packed(checksum, current, offsets, stored + [data])
    ensures offsets[checksum(data)] == current ==> data == []
  {
    DistinctBytesStep(stored, data);
    forall k | k in offsets && offsets[k] < current ensures StartsHere(checksum, offsets, stored + [data], offsets[k]) {
      StartKept(checksum, offsets, stored, offsets[k], offsets, stored + [data]);
    }
  }

  /** An empty content may sit at a left-behind offset. */
  lemma PackEmpty(checksum: Checksum, current: nat, offsets: map<Digest, nat>, stored: seq<seq<byte>>)
    requires Packed(checksum, current, offsets, stored) && [] !in stored
    requires checksum([]) in offsets && offsets[checksum([])] < current
    ensures Packed(checksum, current, offsets, stored + [[]])
  {
    DistinctBytesStep(stored, []);
    var off := offsets[checksum([])];
    assert StartsHere(checksum, offsets, stored, off);
    var b0 :| b0 in stored && b0 != [] && offsets[checksum(b0)] == off;
    forall a | a in stored ensures Disjoint(checksum, offsets, a, []) {
      assert a != b0 ==> Disjoint(checksum, offsets, a, b0);
    }
    forall k | k in offsets && offsets[k] < current ensures StartsHere(checksum, offsets, stored + [[]], offsets[k]) {
      StartKept(checksum, offsets, stored, offsets[k], offsets, stored + [[]]);
    }
  }

  /** What one `add_file` call does to the packing, whatever happens in the tree. */
  lemma FileEffect(checksum: Checksum, s: Model, op: Op)
    requires op.AddFile?
    ensures var (status, s') := Apply(checksum, s, op);
            var digest := checksum(op.data);
            var offset := if digest in s.offsets then s.offsets[digest] else s.current;
            && s'.offsets == s.offsets[digest := offset]
            && s'.current == (if status.Done? && s.current == offset then s.current + |op.data| else s.current)
  {
  }

  /** One `add_file` call keeps the packing unless it reuses a stale digest, and then two contents overlap. */
  lemma PackingStep(checksum: Checksum, s: Model, stored: seq<seq<byte>>, op: Op)
    requires Packed(checksum, s.current, s.offsets, stored) && op.AddFile? && NoCollision(checksum, stored + [op.data])
    ensures var (status, s') := Apply(checksum, s, op);
            if status.Done? && StaleReuse(checksum, s.current, s.offsets, stored, op.data)
            then
              && (forall a <- stored + [op.data] :: checksum(a) in s'.offsets)
              && !AllDisjoint(checksum, s'.offsets, stored + [op.data])
            else Packed(checksum, s'.current, s'.offsets, stored + if status.Done? then [op.data] else [])
  {
    var (status, s') := Apply(checksum, s, op);
    var data := op.data;
    var digest := checksum(data);
    FileEffect(checksum, s, op);
    if digest in s.offsets { assert s.offsets[digest := s.offsets[digest]] == s.offsets; }
    if !status.Done? {
      PackFailed(checksum, s.current, s.offsets, stored, data);
      assert stored + [] == stored;
    } else if data in stored {
      PackKnown(checksum, s.current, s.offsets, stored, data);
    } else if digest !in s.offsets || s.offsets[digest] == s.current {
      PackNew(checksum, s.current, s.offsets, stored, data);
    } else if data == [] {
      PackEmpty(checksum, s.current, s.offsets, stored);
    } else {
      assert StartsHere(checksum, s.offsets, stored, s.offsets[digest]);
      var b :| b in stored && b != [] && s.offsets[checksum(b)] == s.offsets[digest];
      assert b in stored + [data] && data in stored + [data] && !Disjoint(checksum, s'.offsets, data, b);
    }
  }

  /** A failed call leaves at most one new digest behind, at the running offset. */
  lemma PackFailed(checksum: Checksum, current: nat, offsets: map<Digest, nat>, stored: seq<seq<byte>>, data: seq<byte>)
    requires Packed(checksum, current, offsets, stored)
    ensures var offset := if checksum(data) in offsets then offsets[checksum(data)] else current;
            Packed(checksum, current, offsets[checksum(data) := offset], stored)
  {
    var digest := checksum(data);
    if digest in offsets {
      assert offsets[digest := offsets[digest]] == offsets;
    } else {
      NewDigest(checksum, current, offsets, stored, digest);
    }
  }

  /** A new digest at the running offset moves no other. */
  lemma NewDigest(checksum: Checksum, current: nat, offsets: map<Digest, nat>, stored: seq<seq<byte>>, digest: Digest)
    requires Packed(checksum, current, offsets, stored) && digest !in offsets
    ensures Packed(checksum, current, offsets[digest := current], stored)
  {
    var offsets': map<Digest, nat> := offsets[digest := current];
    assert forall a <- stored :: checksum(a) in offsets && offsets'[checksum(a)] == offsets[checksum(a)];
    forall k <- offsets'
      ensures offsets'[k] == current || (offsets'[k] < current && StartsHere(checksum, offsets', stored, offsets'[k]))
    {
      if k != digest && offsets[k] != current {
        StartKept(checksum, offsets, stored, offsets[k], offsets', stored);
      }
    }
  }

  // ----- packing over whole runs -----

  /** No successful `add_file` of the run reuses a stale digest. */
  ghost predicate NoStaleReuse(checksum: Checksum, root: Path, ops: seq<Op>) {
    ops == [] ||
    var n := |ops| - 1;
    var s := Run(checksum, root, ops[..n]);
    && NoStaleReuse(checksum, root, ops[..n])
    && (ops[n].AddFile? && StatusOf(checksum, root, ops, n) == Done ==>
          !StaleReuse(checksum, s.current, s.offsets, Stored(checksum, root, ops[..n]), ops[n].data))
  }

  lemma {:induction false} StoredWereTried(checksum: Checksum, root: Path, ops: seq<Op>)
    ensures forall a <- Stored(checksum, root, ops) :: a in Tried(ops)
    ensures AllDone(checksum, root, ops) ==> Stored(checksum, root, ops) == Tried(ops)
  {
    if ops != [] {
      StoredWereTried(checksum, root, ops[..|ops| - 1]);
      if AllDone(checksum, root, ops) { AllDonePrefix(checksum, root, ops); }
    }
  }

  /** Digests are never moved, and a stored content always has one. */
  lemma {:induction false} StoredHaveOffsets(checksum: Checksum, root: Path, ops: seq<Op>)
    ensures forall a <- Stored(checksum, root, ops) :: checksum(a) in Run(checksum, root, ops).offsets
    ensures ops != [] ==> forall k <- Run(checksum, root, ops[..|ops| - 1]).offsets ::
              k in Run(checksum, root, ops).offsets
              && Run(checksum, root, ops).offsets[k] == Run(checksum, root, ops[..|ops| - 1]).offsets[k]
  {
    if ops != [] {
      var n := |ops| - 1;
      StoredHaveOffsets(checksum, root, ops[..n]);
      if ops[n].AddFile? { FileEffect(checksum, Run(checksum, root, ops[..n]), ops[n]); }
    }
  }

  lemma OverlapPersists(checksum: Checksum, offsets: map<Digest, nat>, stored: seq<seq<byte>>,
                        offsets': map<Digest, nat>, stored': seq<seq<byte>>)
    requires forall a <- stored :: a in stored' && checksum(a) in offsets
    requires forall a <- stored' :: checksum(a) in offsets'
    requires forall k <- offsets :: k in offsets' && offsets'[k] == offsets[k]
    requires !AllDisjoint(checksum, offsets, stored)
    ensures !AllDisjoint(checksum, offsets', stored')
  {
    var a, b :| a in stored && b in stored && a != b && !Disjoint(checksum, offsets, a, b);
    assert a in stored' && b in stored' && !Disjoint(checksum, offsets', a, b);
  }

  /** Over any run, failed calls included: stored contents are pairwise disjoint exactly when no call
      reused a stale digest, and then the running offset is the size of the distinct contents. */
  lemma {:induction false} PackingOfRun(checksum: Checksum, root: Path, ops: seq<Op>)
    requires NoCollision(checksum, Tried(ops))
    ensures forall a <- Stored(checksum, root, ops) :: checksum(a) in Run(checksum, root, ops).offsets
    ensures AllDisjoint(checksum, Run(checksum, root, ops).offsets, Stored(checksum, root, ops))
       <==> NoStaleReuse(checksum, root, ops)
    ensures NoStaleReuse(checksum, root, ops) ==>
              Packed(checksum, Run(checksum, root, ops).current, Run(checksum, root, ops).offsets,
                     Stored(checksum, root, ops))
  {
    StoredHaveOffsets(checksum, root, ops);
    if ops != [] {
      var init := ops[..|ops| - 1];
      assert forall a <- Tried(init) :: a in Tried(ops);
      PackingOfRun(checksum, root, init);
      if !NoStaleReuse(checksum, root, init) {
        OverlapPersists(checksum, Run(checksum, root, init).offsets, Stored(checksum, root, init),
                        Run(checksum, root, ops).offsets, Stored(checksum, root, ops));
      } else {
        PackingOfLast(checksum, root, ops);
      }
    }
  }

  lemma OtherCallsKeepPacking(checksum: Checksum, s: Model, op: Op)
    requires !op.AddFile?
    ensures var s' := Apply(checksum, s, op).1; s'.current == s.current && s'.offsets == s.offsets
  {
  }

  lemma StoredStep(checksum: Checksum, root: Path, ops: seq<Op>)
    requires ops != []
    ensures var n := |ops| - 1;
            var done := Apply(checksum, Run(checksum, root, ops[..n]), ops[n]).0.Done?;
            Stored(checksum, root, ops)
            == Stored(checksum, root, ops[..n]) + if ops[n].AddFile? && done then [ops[n].data] else []
  {
  }

  lemma PackingOfLast(checksum: Checksum, root: Path, ops: seq<Op>)
    requires ops != [] && NoCollision(checksum, Tried(ops))
    requires Packed(checksum, Run(checksum, root, ops[..|ops| - 1]).current,
                    Run(checksum, root, ops[..|ops| - 1]).offsets, Stored(checksum, root, ops[..|ops| - 1]))
    requires NoStaleReuse(checksum, root, ops[..|ops| - 1])
    ensures if NoStaleReuse(checksum, root, ops)
            then Packed(checksum, Run(checksum, root, ops).current, Run(checksum, root, ops).offsets,
                        Stored(checksum, root, ops))
            else
              && (forall a <- Stored(checksum, root, ops) :: checksum(a) in Run(checksum, root, ops).offsets)
              && !AllDisjoint(checksum, Run(checksum, root, ops).offsets, Stored(checksum, root, ops))
  {
    var n := |ops| - 1;
    var op := ops[n];
    var s, stored := Run(checksum, root, ops[..n]), Stored(checksum, root, ops[..n]);
    StoredStep(checksum, root, ops);
    if op.AddFile? {
      StoredWereTried(checksum, root, ops[..n]);
      assert NoCollision(checksum, stored + [op.data]) by {
        assert Tried(ops) == Tried(ops[..n]) + [op.data];
      }
      PackingStep(checksum, s, stored, op);
    } else {
      OtherCallsKeepPacking(checksum, s, op);
      assert stored + [] == stored;
    }
  }

  /** Every recorded digest is that of a content handed to `add_file`. */
  lemma {:induction false} DigestsWereTried(checksum: Checksum, root: Path, ops: seq<Op>, k: Digest)
    requires k in Run(checksum, root, ops).offsets
    ensures exists a <- Tried(ops) :: checksum(a) == k
  {
    var n := |ops| - 1;
    var s := Run(checksum, root, ops[..n]);
    if k in s.offsets {
      DigestsWereTried(checksum, root, ops[..n], k);
      var a :| a in Tried(ops[..n]) && checksum(a) == k;
      assert a in Tried(ops);
    } else {
      assert ops[n].AddFile? && k == checksum(ops[n].data);
      assert ops[n].data in Tried(ops);
    }
  }

  /** When every call succeeds no digest is stale. */
  lemma {:induction false} AllDoneNotStale(checksum: Checksum, root: Path, ops: seq<Op>)
    requires AllDone(checksum, root, ops) && NoCollision(checksum, Tried(ops))
    ensures NoStaleReuse(checksum, root, ops)
  {
    if ops != [] {
      var n := |ops| - 1;
      AllDonePrefix(checksum, root, ops);
      assert forall a <- Tried(ops[..n]) :: a in Tried(ops);
      AllDoneNotStale(checksum, root, ops[..n]);
      StoredWereTried(checksum, root, ops[..n]);
      if ops[n].AddFile? {
        var k := checksum(ops[n].data);
        assert ops[n].data in Tried(ops);
        if k in Run(checksum, root, ops[..n]).offsets {
          DigestsWereTried(checksum, root, ops[..n], k);
        }
      }
    }
  }

  /** A file of the map holds stored bytes, at the offset of their digest. */
  lemma {:induction false} FileNodesAreStored(checksum: Checksum, root: Path, ops: seq<Op>, p: Path)
    requires Get(Run(checksum, root, ops).tree, p).Some? && Run(checksum, root, ops).tree[p].FileNode?
    ensures var s := Run(checksum, root, ops);
            && s.tree[p].content.Some?
            && s.tree[p].content.value in Stored(checksum, root, ops)
            && s.tree[p].len == |s.tree[p].content.value|
            && Get(s.offsets, checksum(s.tree[p].content.value)) == Some(s.tree[p].offset)
  {
    if ops != [] {
      var n := |ops| - 1;
      var s, s' := Run(checksum, root, ops[..n]), Run(checksum, root, ops);
      if p in s.tree && s.tree[p] == s'.tree[p] {
        FileNodesAreStored(checksum, root, ops[..n], p);
        StoredHaveOffsets(checksum, root, ops);
      } else {
        assert ops[n].AddFile?;
        FileEffect(checksum, s, ops[n]);
      }
    }
  }

  /** The packing theorem: after a run of successful calls, files with equal contents share their
      offset, files with different contents lie in disjoint ranges, and the running offset is the
      number of distinct bytes. */
  lemma FilesArePacked(checksum: Checksum, root: Path, ops: seq<Op>, p: Path, q: Path)
    requires AllDone(checksum, root, ops) && NoCollision(checksum, Tried(ops))
    requires p in Run(checksum, root, ops).tree && Run(checksum, root, ops).tree[p].FileNode?
    requires q in Run(checksum, root, ops).tree && Run(checksum, root, ops).tree[q].FileNode?
    ensures var s := Run(checksum, root, ops);
            var f, g := s.tree[p], s.tree[q];
            && (f.content == g.content ==> f.offset == g.offset && f.len == g.len)
            && (f.content != g.content ==> f.offset + f.len <= g.offset || g.offset + g.len <= f.offset)
            && f.offset + f.len <= s.current == DistinctBytes(Tried(ops))
  {
    AllDoneNotStale(checksum, root, ops);
    PackingOfRun(checksum, root, ops);
    StoredWereTried(checksum, root, ops);
    FileNodesAreStored(checksum, root, ops, p);
    FileNodesAreStored(checksum, root, ops, q);
    var s := Run(checksum, root, ops);
    var a, b := s.tree[p].content.value, s.tree[q].content.value;
    assert a != b ==> Disjoint(checksum, s.offsets, a, b);
  }

  /** Why the calls must succeed: a rejected `add_file` makes two later files share their bytes. */
  lemma RejectedFileBreaksPacking(checksum: Checksum, a: seq<byte>, b: seq<byte>)
    requires a != [] && b != [] && checksum(a) != checksum(b)
    ensures var ops := [AddFile(["out", "a"], a), AddFile(["r", "b"], b), AddFile(["r", "a"], a)];
            var s := Run(checksum, ["r"], ops);
            && StatusOf(checksum, ["r"], ops, 0) == StripRootError
            && StatusOf(checksum, ["r"], ops, 1) == StatusOf(checksum, ["r"], ops, 2) == Done
            && Get(s.tree, ["a"]) == Some(FileNode(0, |a|, Some(a)))
            && Get(s.tree, ["b"]) == Some(FileNode(0, |b|, Some(b)))
  {
    var root := ["r"];
    var op0, op1, op2 := AddFile(["out", "a"], a), AddFile(["r", "b"], b), AddFile(["r", "a"], a);
    var ops := [op0, op1, op2];
    var s0 := Initial(root);
    assert op0.path[..1] == ["out"] && |root[0]| != |["out"][0]|;
    var s1 := s0.(offsets := s0.offsets[checksum(a) := 0]);
    assert Apply(checksum, s0, op0) == (StripRootError, s1);
    StoreAtRoot(s1.(offsets := s1.offsets[checksum(b) := 0]), "b", FileNode(0, |b|, Some(b)));
    var s2 := Apply(checksum, s1, op1).1;
    assert s2.tree == map[[] := DirNode, ["b"] := FileNode(0, |b|, Some(b))];
    StoreAtRoot(s2.(offsets := s2.offsets[checksum(a) := 0]), "a", FileNode(0, |a|, Some(a)));
    assert ops[..0] == [] && ops[..1] == [op0] && ops[..2] == [op0, op1];
    assert [op0, op1][..1] == [op0] && [op0][..0] == [];
    assert Run(checksum, root, ops[..1]) == s1;
    assert Run(checksum, root, ops[..2]) == s2;
  }

  lemma StoreAtRoot(s: Model, name: string, node: Node)
    requires s.root == ["r"] && Get(s.tree, []) == Some(DirNode) && [name] !in s.tree
    ensures StoreBelow(s, ["r", name], node) == (Done, s.(tree := s.tree[[name] := node]))
  {
    var path := ["r", name];
    assert path[..1] == ["r"] && ["r"][1..] == [] && [] + [name] == [name];
    forall p: Path { PrefixesAreSlices([], p); }
    assert WithDirs(s.tree, []) == s.tree;
  }
}
