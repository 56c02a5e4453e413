/** Lookup in the virtual file system (`VfsRoot` and `FileBackedVfs` of `crates/sb_fs/virtual_fs.rs`):
    a walk by binary search that follows symbolic links, and what the resolved path means. Paths are
    relative to the root once the root prefix has been stripped. */
module VfsLookup {
  import opened Common
  import opened VfsTree

  /** `Deep` is no answer of the source: more links than `n` would have to be followed. */
  datatype Outcome = Found(path: Path) | NotFound | Circular | Deep

  // ----- what a path means -----

  /** Walks `comps` from `cur`, following links on the way but not a link at the end. */
  function Walk(dir: VfsEntry, cur: Path, comps: Path, n: nat): Outcome
    decreases n, 0, |comps|
  {
    if comps == [] then Found(cur)
    else
      var base := match NodeAt(dir, cur)
        case Some(DirNode) => Found(cur)
        case Some(LinkNode(d)) => if n == 0 then Deep else AsDir(dir, Resolve(dir, d, n - 1))
        case _ => NotFound;
      if !base.Found? then base
      else if NodeAt(dir, base.path + [comps[0]]).None? then NotFound
      else Walk(dir, base.path + [comps[0]], comps[1..], n)
  }

  function AsDir(dir: VfsEntry, o: Outcome): Outcome {
    if o.Found? && NodeAt(dir, o.path) != Some(DirNode) then NotFound else o
  }

  /** The path with every link followed, at most `n` deep. */
  function Resolve(dir: VfsEntry, path: Path, n: nat): Outcome
    decreases n, 1
  {
    var o := Walk(dir, [], path, n);
    if !o.Found? then o
    else
      match NodeAt(dir, o.path)
      case Some(LinkNode(d)) => if n == 0 then Deep else Resolve(dir, d, n - 1)
      case _ => o
  }

  /** Everything on the way to an existing entry is a directory, so no link lies on it. */
  lemma {:induction false} PrefixIsDir(dir: VfsEntry, path: Path, k: nat)
    requires NodeAt(dir, path).Some? && k < |path|
    ensures NodeAt(dir, path[..k]) == Some(DirNode)
    decreases |path|
  {
    if k > 0 {
      var c := Child(dir.entries, path[0]).value;
      PrefixIsDir(c, path[1..], k - 1);
      NodeBelow(dir, path, k);
    }
  }

  /** An existing path is walked to itself, whatever the depth allowed. */
  lemma {:induction false} WalkExisting(dir: VfsEntry, path: Path, k: nat, n: nat)
    requires NodeAt(dir, path).Some? && k <= |path|
    ensures Walk(dir, path[..k], path[k..], n) == Found(path)
    decreases |path| - k
  {
    if k == |path| {
      assert path[..k] == path;
    } else {
      PrefixIsDir(dir, path, k);
      assert path[..k] + [path[k..][0]] == path[..k + 1] && path[k..][1..] == path[k + 1..];
      if k + 1 < |path| { PrefixIsDir(dir, path, k + 1); } else { assert path[..k + 1] == path; }
      WalkExisting(dir, path, k + 1, n);
    }
  }

  lemma {:induction false} WalkEndsSomewhere(dir: VfsEntry, cur: Path, comps: Path, n: nat)
    requires NodeAt(dir, cur).Some? && Walk(dir, cur, comps, n).Found?
    ensures NodeAt(dir, Walk(dir, cur, comps, n).path).Some?
    decreases |comps|
  {
    if comps != [] {
      var base := match NodeAt(dir, cur)
        case Some(DirNode) => Found(cur)
        case Some(LinkNode(d)) => if n == 0 then Deep else AsDir(dir, Resolve(dir, d, n - 1))
        case _ => NotFound;
      WalkEndsSomewhere(dir, base.path + [comps[0]], comps[1..], n);
    }
  }

  /** A resolved path holds something that is no link, has only directories on its way, and resolves
      to itself at any depth: canonicalising is idempotent. */
  lemma {:induction false} ResolvedIsCanonical(dir: VfsEntry, path: Path, n: nat)
    requires dir.Dir? && Resolve(dir, path, n).Found?
    ensures var r := Resolve(dir, path, n).path;
            && NodeAt(dir, r).Some? && !NodeAt(dir, r).value.LinkNode?
            && (forall k :: 0 <= k < |r| ==> NodeAt(dir, r[..k]) == Some(DirNode))
            && (forall m :: Resolve(dir, r, m) == Found(r))
    decreases n
  {
    var o := Walk(dir, [], path, n);
    WalkEndsSomewhere(dir, [], path, n);
    var node := NodeAt(dir, o.path).value;
    if node.LinkNode? {
      ResolvedIsCanonical(dir, node.dest, n - 1);
    } else {
      forall k | 0 <= k < |o.path| { PrefixIsDir(dir, o.path, k); }
      forall m: nat ensures Resolve(dir, o.path, m) == o {
        WalkExisting(dir, o.path, 0, m);
        assert o.path[..0] == [] && o.path[0..] == o.path;
      }
    }
  }

  // ----- depth -----

  lemma {:induction false} MoreDepthWalk(dir: VfsEntry, cur: Path, comps: Path, n: nat, m: nat)
    requires n <= m && Walk(dir, cur, comps, n) != Deep
    ensures Walk(dir, cur, comps, m) == Walk(dir, cur, comps, n)
    decreases n, 0, |comps|
  {
    if comps != [] {
      var node := NodeAt(dir, cur);
      if node.Some? && node.value.LinkNode? {
        MoreDepth(dir, node.value.dest, n - 1, m - 1);
      }
      var base := match node
        case Some(DirNode) => Found(cur)
        case Some(LinkNode(d)) => AsDir(dir, Resolve(dir, d, n - 1))
        case _ => NotFound;
      if base.Found? && NodeAt(dir, base.path + [comps[0]]).Some? {
        MoreDepthWalk(dir, base.path + [comps[0]], comps[1..], n, m);
      }
    }
  }

  /** Allowing more links changes no answer. */
  lemma {:induction false} MoreDepth(dir: VfsEntry, path: Path, n: nat, m: nat)
    requires n <= m && Resolve(dir, path, n) != Deep
    ensures Resolve(dir, path, m) == Resolve(dir, path, n)
    decreases n, 1
  {
    MoreDepthWalk(dir, [], path, n, m);
    var o := Walk(dir, [], path, n);
    if o.Found? {
      match NodeAt(dir, o.path) {
        case Some(LinkNode(d)) => MoreDepth(dir, d, n - 1, m - 1);
        case _ =>
      }
    }
  }

  /** Link targets are well-founded: each resolves within `n` links. */
  ghost predicate WellFounded(dir: VfsEntry, n: nat) {
    forall p: Path :: NodeAt(dir, p).Some? && NodeAt(dir, p).value.LinkNode?
      ==> Resolve(dir, NodeAt(dir, p).value.dest, n) != Deep
  }

  lemma {:induction false} WalkNotDeep(dir: VfsEntry, cur: Path, comps: Path, n: nat)
    requires WellFounded(dir, n)
    ensures Walk(dir, cur, comps, n + 1) != Deep
    decreases |comps|
  {
    if comps != [] {
      var base := match NodeAt(dir, cur)
        case Some(DirNode) => Found(cur)
        case Some(LinkNode(d)) => AsDir(dir, Resolve(dir, d, n))
        case _ => NotFound;
      if base.Found? { WalkNotDeep(dir, base.path + [comps[0]], comps[1..], n); }
    }
  }

  /** If every link target resolves within `n` links, every path does within `n + 1`. */
  lemma AllPathsResolve(dir: VfsEntry, path: Path, n: nat)
    requires WellFounded(dir, n)
    ensures Resolve(dir, path, n + 1) != Deep
  {
    WalkNotDeep(dir, [], path, n);
  }

  // ----- the source's bookkeeping of seen paths -----

  /** `find_entry_no_follow_inner`, threading the set of seen paths. */
  function WalkSeen(dir: VfsEntry, cur: Path, comps: Path, seen: set<Path>, n: nat): (Outcome, set<Path>)
    decreases n, 0, |comps|
  {
    if comps == [] then (Found(cur), seen)
    else
      var (base, seen1) := match NodeAt(dir, cur)
        case Some(DirNode) => (Found(cur), seen)
        case Some(LinkNode(d)) =>
          if n == 0 then (Deep, seen)
          else var (o, s) := FollowSeen(dir, d, seen, n - 1); (AsDir(dir, o), s)
        case _ => (NotFound, seen);
      if !base.Found? then (base, seen1)
      else if NodeAt(dir, base.path + [comps[0]]).None? then (NotFound, seen1)
      else WalkSeen(dir, base.path + [comps[0]], comps[1..], seen1, n)
  }

  /** `find_entry_inner`: only a link at the end of a path is recorded, under the path that was asked. */
  function FollowSeen(dir: VfsEntry, path: Path, seen: set<Path>, n: nat): (Outcome, set<Path>)
    decreases n, 1
  {
    var (o, seen1) := WalkSeen(dir, [], path, seen, n);
    if !o.Found? then (o, seen1)
    else
      match NodeAt(dir, o.path)
      case Some(LinkNode(d)) =>
        if path in seen1 then (Circular, seen1)
        else if n == 0 then (Deep, seen1)
        else FollowSeen(dir, d, seen1 + {path}, n - 1)
      case _ => (o, seen1)
  }

  lemma {:induction false} WalkSeenAgrees(dir: VfsEntry, cur: Path, comps: Path, seen: set<Path>, n: nat)
    ensures WalkSeen(dir, cur, comps, seen, n).0 in {Circular, Walk(dir, cur, comps, n)}
    decreases n, 0, |comps|
  {
    if comps != [] {
      var node := NodeAt(dir, cur);
      if node.Some? && node.value.LinkNode? && n > 0 {
        FollowSeenAgrees(dir, node.value.dest, seen, n - 1);
      }
      var (base, seen1) := match node
        case Some(DirNode) => (Found(cur), seen)
        case Some(LinkNode(d)) =>
          if n == 0 then (Deep, seen)
          else var (o, s) := FollowSeen(dir, d, seen, n - 1); (AsDir(dir, o), s)
        case _ => (NotFound, seen);
      if base.Found? { WalkSeenAgrees(dir, base.path + [comps[0]], comps[1..], seen1, n); }
    }
  }

  /** The source answers what the path means, or reports circular links. */
  lemma {:induction false} FollowSeenAgrees(dir: VfsEntry, path: Path, seen: set<Path>, n: nat)
    ensures FollowSeen(dir, path, seen, n).0 in {Circular, Resolve(dir, path, n)}
    decreases n, 1
  {
    WalkSeenAgrees(dir, [], path, seen, n);
    var (o, seen1) := WalkSeen(dir, [], path, seen, n);
    if o.Found? {
      match NodeAt(dir, o.path) {
        case Some(LinkNode(d)) => if n > 0 { FollowSeenAgrees(dir, d, seen1 + {path}, n - 1); }
        case _ =>
      }
    }
  }

  /** Walking one component of the root. */
  lemma WalkOne(dir: VfsEntry, name: string, seen: set<Path>, n: nat)
    requires dir.Dir? && NodeAt(dir, [name]).Some?
    ensures Walk(dir, [], [name], n) == Found([name])
    ensures WalkSeen(dir, [], [name], seen, n) == (Found([name]), seen)
  {
    assert [] + [[name][0]] == [name] && [name][1..] == [];
    assert Walk(dir, [name], [], n) == Found([name]);
    assert WalkSeen(dir, [name], [], seen, n) == (Found([name]), seen);
  }

  lemma FollowLinkToDir(dir: VfsEntry, link: string, target: string, seen: set<Path>)
    requires dir.Dir? && NodeAt(dir, [link]) == Some(LinkNode([target])) && NodeAt(dir, [target]) == Some(DirNode)
    ensures Resolve(dir, [link], 1) == Found([target])
    ensures FollowSeen(dir, [link], seen, 1)
         == if [link] in seen then (Circular, seen) else (Found([target]), seen + {[link]})
  {
    WalkOne(dir, link, seen, 1);
    WalkOne(dir, target, seen + {[link]}, 0);
  }

  /** The report can be wrong when targets are links: two ways through the same link are enough. */
  lemma CircularWithoutACycle(dir: VfsEntry)
    requires dir.Dir?
    requires NodeAt(dir, ["m"]) == Some(LinkNode(["x"])) && NodeAt(dir, ["x"]) == Some(LinkNode(["d"]))
    requires NodeAt(dir, ["d"]) == Some(DirNode) && NodeAt(dir, ["d", "n"]) == Some(LinkNode(["x"]))
    requires NodeAt(dir, ["d", "f"]).Some? && NodeAt(dir, ["d", "f"]).value.FileNode?
    ensures Resolve(dir, ["m", "n", "f"], 2) == Found(["d", "f"])
    ensures FollowSeen(dir, ["m", "n", "f"], {}, 2).0 == Circular
  {
    var path := ["m", "n", "f"];
    assert path[1..] == ["n", "f"] && [] + ["m"] == ["m"] && ["n", "f"][1..] == ["f"] && ["f"][1..] == [];
    assert ["d"] + ["n"] == ["d", "n"] && ["d"] + ["f"] == ["d", "f"] && {} + {["x"]} == {["x"]};
    FollowLinkToDir(dir, "x", "d", {});
    FollowLinkToDir(dir, "x", "d", {["x"]});
    assert Walk(dir, [], path, 2) == Walk(dir, ["m"], ["n", "f"], 2);
    assert Walk(dir, ["m"], ["n", "f"], 2) == Walk(dir, ["d", "n"], ["f"], 2);
    assert Walk(dir, ["d", "n"], ["f"], 2) == Walk(dir, ["d", "f"], [], 2);
    assert WalkSeen(dir, [], path, {}, 2) == WalkSeen(dir, ["m"], ["n", "f"], {}, 2);
    assert WalkSeen(dir, ["m"], ["n", "f"], {}, 2) == WalkSeen(dir, ["d", "n"], ["f"], {["x"]}, 2);
  }

  /** Why a hypothesis on targets is needed: a link whose target lies below itself is followed without
      end, since only links at the end of a path are recorded. */
  lemma {:induction false} SelfNestedLinkNeverEnds(dir: VfsEntry, seen: set<Path>, n: nat)
    requires dir.Dir? && NodeAt(dir, ["a"]) == Some(LinkNode(["a", "b"]))
    ensures FollowSeen(dir, ["a", "b"], seen, n).0 == Deep
  {
    var p := ["a", "b"];
    assert [] + [p[0]] == ["a"] && p[1..] == ["b"];
    assert WalkSeen(dir, [], p, seen, n) == WalkSeen(dir, ["a"], ["b"], seen, n);
    if n > 0 { SelfNestedLinkNeverEnds(dir, seen, n - 1); }
  }

  // ----- answers without a depth -----

  lemma {:induction false} MoreDepthWalkSeen(dir: VfsEntry, cur: Path, comps: Path, seen: set<Path>, n: nat, m: nat)
    requires n <= m && WalkSeen(dir, cur, comps, seen, n).0 != Deep
    ensures WalkSeen(dir, cur, comps, seen, m) == WalkSeen(dir, cur, comps, seen, n)
    decreases n, 0, |comps|
  {
    if comps != [] {
      var node := NodeAt(dir, cur);
      if node.Some? && node.value.LinkNode? {
        MoreDepthSeen(dir, node.value.dest, seen, n - 1, m - 1);
      }
      var (base, seen1) := match node
        case Some(DirNode) => (Found(cur), seen)
        case Some(LinkNode(d)) => var (o, s) := FollowSeen(dir, d, seen, n - 1); (AsDir(dir, o), s)
        case _ => (NotFound, seen);
      if base.Found? && NodeAt(dir, base.path + [comps[0]]).Some? {
        MoreDepthWalkSeen(dir, base.path + [comps[0]], comps[1..], seen1, n, m);
      }
    }
  }

  lemma {:induction false} MoreDepthSeen(dir: VfsEntry, path: Path, seen: set<Path>, n: nat, m: nat)
    requires n <= m && FollowSeen(dir, path, seen, n).0 != Deep
    ensures FollowSeen(dir, path, seen, m) == FollowSeen(dir, path, seen, n)
    decreases n, 1
  {
    MoreDepthWalkSeen(dir, [], path, seen, n, m);
    var (o, seen1) := WalkSeen(dir, [], path, seen, n);
    if o.Found? && path !in seen1 {
      match NodeAt(dir, o.path) {
        case Some(LinkNode(d)) => MoreDepthSeen(dir, d, seen1 + {path}, n - 1, m - 1);
        case _ =>
      }
    }
  }

  /** The answer of a call of `find_entry_inner` and the paths recorded after it; `Deep` if it never ends. */
  ghost function Ended(dir: VfsEntry, path: Path, seen: set<Path>): (Outcome, set<Path>) {
    if exists n: nat :: FollowSeen(dir, path, seen, n).0 != Deep then
      var n: nat :| FollowSeen(dir, path, seen, n).0 != Deep;
      FollowSeen(dir, path, seen, n)
    else (Deep, seen)
  }

  lemma EndedAt(dir: VfsEntry, path: Path, seen: set<Path>, n: nat)
    requires FollowSeen(dir, path, seen, n).0 != Deep
    ensures Ended(dir, path, seen) == FollowSeen(dir, path, seen, n)
  {
    var m: nat :| FollowSeen(dir, path, seen, m).0 != Deep && Ended(dir, path, seen) == FollowSeen(dir, path, seen, m);
    MoreDepthSeen(dir, path, seen, n, n + m);
    MoreDepthSeen(dir, path, seen, m, n + m);
  }

  /** What `find_entry` answers; `Deep` if it never ends. */
  ghost function Answer(dir: VfsEntry, path: Path): Outcome {
    Ended(dir, path, {}).0
  }

  /** What the path means: where it leads when every link is followed; `Deep` if they never end. */
  ghost function Meaning(dir: VfsEntry, path: Path): Outcome {
    if exists n: nat :: Resolve(dir, path, n) != Deep then
      var n: nat :| Resolve(dir, path, n) != Deep;
      Resolve(dir, path, n)
    else Deep
  }

  lemma AnswerAt(dir: VfsEntry, path: Path, n: nat)
    requires FollowSeen(dir, path, {}, n).0 != Deep
    ensures Answer(dir, path) == FollowSeen(dir, path, {}, n).0
  {
    EndedAt(dir, path, {}, n);
  }

  lemma MeaningAt(dir: VfsEntry, path: Path, n: nat)
    requires Resolve(dir, path, n) != Deep
    ensures Meaning(dir, path) == Resolve(dir, path, n)
  {
    var m: nat :| Resolve(dir, path, m) != Deep && Meaning(dir, path) == Resolve(dir, path, m);
    MoreDepth(dir, path, n, n + m);
    MoreDepth(dir, path, m, n + m);
  }

  /** The source answers what the path means, or reports circular links; a path that means nothing because
      its links never end has no other answer. */
  lemma AnswerAgrees(dir: VfsEntry, path: Path)
    ensures Answer(dir, path) in {Circular, Meaning(dir, path)}
  {
    if n: nat :| FollowSeen(dir, path, {}, n).0 != Deep {
      AnswerAt(dir, path, n);
      FollowSeenAgrees(dir, path, {}, n);
      if FollowSeen(dir, path, {}, n).0 == Resolve(dir, path, n) { MeaningAt(dir, path, n); }
    } else if n: nat :| Resolve(dir, path, n) != Deep {
      FollowSeenAgrees(dir, path, {}, n);
      assert false;
    }
  }

  // ----- canonical targets -----

  /** No link lies on the way to, or at, a link target: what the builder's canonicalised targets give. */
  ghost predicate CanonicalLinks(dir: VfsEntry) {
    forall p: Path :: NodeAt(dir, p).Some? && NodeAt(dir, p).value.LinkNode?
      ==> NoLinkOn(dir, NodeAt(dir, p).value.dest)
  }

  ghost predicate NoLinkOn(dir: VfsEntry, path: Path) {
    forall k :: 0 <= k <= |path| ==> !(NodeAt(dir, path[..k]).Some? && NodeAt(dir, path[..k]).value.LinkNode?)
  }

  lemma {:induction false} WalkWithoutLinks(dir: VfsEntry, path: Path, k: nat, seen: set<Path>, n: nat)
    requires NoLinkOn(dir, path) && k <= |path| && NodeAt(dir, path[..k]).Some?
    ensures WalkSeen(dir, path[..k], path[k..], seen, n)
         == (if NodeAt(dir, path).Some? then Found(path) else NotFound, seen)
    decreases |path| - k
  {
    if k == |path| {
      assert path[..k] == path;
    } else {
      assert path[..k] + [path[k..][0]] == path[..k + 1] && path[k..][1..] == path[k + 1..];
      assert k + 1 == |path| ==> path[..k + 1] == path;
      if NodeAt(dir, path).Some? {
        PrefixIsDir(dir, path, k);
        if k + 1 < |path| { PrefixIsDir(dir, path, k + 1); }
      }
      if NodeAt(dir, path[..k]) == Some(DirNode) && NodeAt(dir, path[..k + 1]).Some? {
        WalkWithoutLinks(dir, path, k + 1, seen, n);
      }
    }
  }

  /** A target without links on it is looked up without touching the seen paths. */
  lemma FollowWithoutLinks(dir: VfsEntry, path: Path, seen: set<Path>, n: nat)
    requires dir.Dir? && NoLinkOn(dir, path)
    ensures FollowSeen(dir, path, seen, n) == (if NodeAt(dir, path).Some? then Found(path) else NotFound, seen)
  {
    assert path[..0] == [] && path[0..] == path && path[..|path|] == path;
    WalkWithoutLinks(dir, path, 0, seen, n);
  }

  lemma {:induction false} CanonicalWalk(dir: VfsEntry, cur: Path, comps: Path, seen: set<Path>, n: nat)
    requires dir.Dir? && CanonicalLinks(dir) && n > 0
    ensures WalkSeen(dir, cur, comps, seen, n).1 == seen
    ensures WalkSeen(dir, cur, comps, seen, n).0.Found? || WalkSeen(dir, cur, comps, seen, n).0.NotFound?
    decreases |comps|
  {
    if comps != [] {
      var node := NodeAt(dir, cur);
      if node.Some? && node.value.LinkNode? { FollowWithoutLinks(dir, node.value.dest, seen, n - 1); }
      var base := match node
        case Some(DirNode) => Found(cur)
        case Some(LinkNode(d)) => AsDir(dir, FollowSeen(dir, d, seen, n - 1).0)
        case _ => NotFound;
      if base.Found? { CanonicalWalk(dir, base.path + [comps[0]], comps[1..], seen, n); }
    }
  }

  /** With canonical targets a lookup follows at most one link at a time, never reports circular links,
      and its answer is exactly what the path means. */
  lemma CanonicalLookup(dir: VfsEntry, path: Path, n: nat)
    requires dir.Dir? && CanonicalLinks(dir) && n > 0
    ensures FollowSeen(dir, path, {}, n).0 == Resolve(dir, path, n)
    ensures Resolve(dir, path, n).Found? || Resolve(dir, path, n).NotFound?
    ensures WellFounded(dir, 0)
  {
    CanonicalWalk(dir, [], path, {}, n);
    FollowSeenAgrees(dir, path, {}, n);
    var o := WalkSeen(dir, [], path, {}, n).0;
    if o.Found? {
      match NodeAt(dir, o.path) {
        case Some(LinkNode(d)) => FollowWithoutLinks(dir, d, {} + {path}, n - 1);
        case _ =>
      }
    }
    forall p: Path | NodeAt(dir, p).Some? && NodeAt(dir, p).value.LinkNode?
      ensures Resolve(dir, NodeAt(dir, p).value.dest, 0) != Deep
    {
      FollowWithoutLinks(dir, NodeAt(dir, p).value.dest, {}, 0);
      FollowSeenAgrees(dir, NodeAt(dir, p).value.dest, {}, 0);
    }
  }
}
