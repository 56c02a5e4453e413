/** When the lookup of `crates/sb_fs/virtual_fs.rs` reports circular links, and what recording the paths
    that end at a link is good for. */
module VfsCircular {
  import opened Common
  import opened VfsTree
  import opened VfsLookup

  // ----- the links a lookup records -----

  /** The asked paths that end at a link, in order, while `comps` is walked from `cur`. */
  function WalkTrace(dir: VfsEntry, cur: Path, comps: Path, n: nat): seq<Path>
    decreases n, 0, |comps|
  {
    if comps == [] then []
    else
      var (base, trace) := match NodeAt(dir, cur)
        case Some(DirNode) => (Found(cur), [])
        case Some(LinkNode(d)) =>
          if n == 0 then (Deep, []) else (AsDir(dir, Resolve(dir, d, n - 1)), FollowTrace(dir, d, n - 1))
        case _ => (NotFound, []);
      if !base.Found? || NodeAt(dir, base.path + [comps[0]]).None? then trace
      else trace + WalkTrace(dir, base.path + [comps[0]], comps[1..], n)
  }

  /** The asked paths that end at a link, in order, while `path` is resolved. No path is left out for
      having been met before. */
  function FollowTrace(dir: VfsEntry, path: Path, n: nat): seq<Path>
    decreases n, 1
  {
    var o := Walk(dir, [], path, n);
    var trace := WalkTrace(dir, [], path, n);
    if !o.Found? then trace
    else
      match NodeAt(dir, o.path)
      case Some(LinkNode(d)) => trace + if n == 0 then [path] else [path] + FollowTrace(dir, d, n - 1)
      case _ => trace
  }

  function Elements(trace: seq<Path>): set<Path> {
    set p | p in trace
  }

  /** No path comes twice or was seen before. */
  predicate Fresh(trace: seq<Path>, seen: set<Path>) {
    Distinct(trace) && forall p <- trace :: p !in seen
  }

  lemma FreshConcat(a: seq<Path>, b: seq<Path>, seen: set<Path>)
    ensures Fresh(a + b, seen) <==> Fresh(a, seen) && Fresh(b, seen + Elements(a))
    ensures seen + Elements(a + b) == seen + Elements(a) + Elements(b)
  {
    var t := a + b;
    assert forall i | 0 <= i < |a| :: t[i] == a[i] && a[i] in a;
    assert forall i | 0 <= i < |b| :: t[|a| + i] == b[i] && b[i] in b;
    if Fresh(t, seen) {
      forall i, j | 0 <= i < j < |b| ensures b[i] != b[j] { assert t[|a| + i] != t[|a| + j]; }
      forall i, j | 0 <= i < |a| && 0 <= j < |b| ensures a[i] != b[j] { assert t[i] != t[|a| + j]; }
    }
  }

  lemma FreshThrough(a: seq<Path>, path: Path, b: seq<Path>, seen: set<Path>)
    ensures var seen1 := seen + Elements(a);
            && (Fresh(a + ([path] + b), seen) <==>
                  Fresh(a, seen) && path !in seen1 && Fresh(b, seen1 + {path}))
            && seen + Elements(a + ([path] + b)) == seen1 + {path} + Elements(b)
  {
    assert Elements([path]) == {path};
    FreshConcat(a, [path] + b, seen);
    FreshConcat([path], b, seen + Elements(a));
  }

  // ----- the exact condition -----

  /** The walk keeps its meaning while the trace is fresh, and reports circular links as soon as it is not. */
  lemma {:induction false} WalkCircular(dir: VfsEntry, cur: Path, comps: Path, seen: set<Path>, n: nat)
    requires Walk(dir, cur, comps, n) != Deep
    ensures Walk(dir, cur, comps, n) != Circular
    ensures var trace := WalkTrace(dir, cur, comps, n);
            if Fresh(trace, seen)
            then WalkSeen(dir, cur, comps, seen, n) == (Walk(dir, cur, comps, n), seen + Elements(trace))
            else WalkSeen(dir, cur, comps, seen, n).0 == Circular
    decreases n, 0, |comps|
  {
    if comps == [] {
      assert seen + Elements([]) == seen;
    } else {
      var node := NodeAt(dir, cur);
      if node.Some? && node.value.LinkNode? {
        FollowCircular(dir, node.value.dest, seen, n - 1);
      }
      var (base, trace) := match node
        case Some(DirNode) => (Found(cur), [])
        case Some(LinkNode(d)) => (AsDir(dir, Resolve(dir, d, n - 1)), FollowTrace(dir, d, n - 1))
        case _ => (NotFound, []);
      assert seen + Elements([]) == seen;
      if base.Found? && NodeAt(dir, base.path + [comps[0]]).Some? {
        var rest := WalkTrace(dir, base.path + [comps[0]], comps[1..], n);
        FreshConcat(trace, rest, seen);
        WalkCircular(dir, base.path + [comps[0]], comps[1..], seen + Elements(trace), n);
      }
    }
  }

  /** When the links of a path end, the lookup reports circular links exactly when a path that ends at a
      link is asked twice on the way, or was seen before; otherwise it answers what the path means and has
      recorded those paths. */
  lemma {:induction false} FollowCircular(dir: VfsEntry, path: Path, seen: set<Path>, n: nat)
    requires Resolve(dir, path, n) != Deep
    ensures Resolve(dir, path, n) != Circular
    ensures var trace := FollowTrace(dir, path, n);
            if Fresh(trace, seen) then FollowSeen(dir, path, seen, n) == (Resolve(dir, path, n), seen + Elements(trace))
            else FollowSeen(dir, path, seen, n).0 == Circular
    decreases n, 1
  {
    WalkCircular(dir, [], path, seen, n);
    var o := Walk(dir, [], path, n);
    if o.Found? {
      match NodeAt(dir, o.path) {
        case Some(LinkNode(d)) =>
          var trace, rest := WalkTrace(dir, [], path, n), FollowTrace(dir, d, n - 1);
          FreshThrough(trace, path, rest, seen);
          FollowCircular(dir, d, seen + Elements(trace) + {path}, n - 1);
        case _ =>
      }
    }
  }

  /** The answer of `find_entry` for a path whose links end. */
  lemma CircularIff(dir: VfsEntry, path: Path, n: nat)
    requires Resolve(dir, path, n) != Deep
    ensures Meaning(dir, path) == Resolve(dir, path, n)
    ensures Answer(dir, path) == if Distinct(FollowTrace(dir, path, n)) then Meaning(dir, path) else Circular
  {
    FollowCircular(dir, path, {}, n);
    MeaningAt(dir, path, n);
    AnswerAt(dir, path, n);
  }

  // ----- what recording is good for -----

  /** No link lies on the way to a link target; the target itself may be a link. */
  ghost predicate DirectTargets(dir: VfsEntry) {
    forall p: Path :: NodeAt(dir, p).Some? && NodeAt(dir, p).value.LinkNode? ==>
      NoLinkBefore(dir, NodeAt(dir, p).value.dest)
  }

  ghost predicate NoLinkBefore(dir: VfsEntry, path: Path) {
    forall k :: 0 <= k < |path| ==> !(NodeAt(dir, path[..k]).Some? && NodeAt(dir, path[..k]).value.LinkNode?)
  }

  /** The targets of all links below an entry. */
  function Targets(e: VfsEntry): set<Path> {
    match e
    case Symlink(_, dest) => {dest}
    case File(_, _, _, _) => {}
    case Dir(_, entries) => set i, d | 0 <= i < |entries| && d in Targets(entries[i]) :: d
  }

  lemma {:induction false} TargetIsListed(e: VfsEntry, p: Path)
    requires NodeAt(e, p).Some? && NodeAt(e, p).value.LinkNode?
    ensures NodeAt(e, p).value.dest in Targets(e)
    decreases |p|
  {
    if p != [] {
      var i := ChildSome(e.entries, p[0]);
      TargetIsListed(e.entries[i], p[1..]);
    }
  }

  lemma {:induction false} DirectWalk(dir: VfsEntry, path: Path, k: nat, seen: set<Path>, n: nat)
    requires NoLinkBefore(dir, path) && k <= |path| && NodeAt(dir, path[..k]).Some?
    ensures WalkSeen(dir, path[..k], path[k..], seen, n).1 == seen
    ensures WalkSeen(dir, path[..k], path[k..], seen, n).0 in {Found(path), NotFound}
    decreases |path| - k
  {
    if k == |path| {
      assert path[..k] == path;
    } else {
      assert path[..k] + [path[k..][0]] == path[..k + 1] && path[k..][1..] == path[k + 1..];
      if NodeAt(dir, path[..k]) == Some(DirNode) && NodeAt(dir, path[..k + 1]).Some? {
        DirectWalk(dir, path, k + 1, seen, n);
      }
    }
  }

  lemma FewerUnseen(targets: set<Path>, seen: set<Path>, p: Path)
    requires p in targets && p !in seen
    ensures |targets - (seen + {p})| < |targets - seen|
  {
    assert targets - seen == (targets - (seen + {p})) + {p};
  }

  /** There is a link at the path that was not recorded before. */
  predicate MustFollow(dir: VfsEntry, d: Path, seen: set<Path>) {
    NodeAt(dir, d).Some? && NodeAt(dir, d).value.LinkNode? && d !in seen
  }

  /** One round of following a direct target. */
  lemma DirectRound(dir: VfsEntry, d: Path, seen: set<Path>, n: nat)
    requires dir.Dir? && NoLinkBefore(dir, d)
    ensures FollowSeen(dir, d, seen, n).0 != Deep || MustFollow(dir, d, seen)
    ensures MustFollow(dir, d, seen) && n > 0 && FollowSeen(dir, d, seen, n).0 == Deep ==>
              FollowSeen(dir, NodeAt(dir, d).value.dest, seen + {d}, n - 1).0 == Deep
  {
    assert d[..0] == [] && d[0..] == d;
    DirectWalk(dir, d, 0, seen, n);
  }

  /** Paths without a link on the way, closed under following a link at the end. */
  ghost predicate DirectSet(dir: VfsEntry, targets: set<Path>) {
    forall d <- targets :: NoLinkBefore(dir, d) && (MustFollow(dir, d, {}) ==> NodeAt(dir, d).value.dest in targets)
  }

  /** Following a direct target ends: each round records a target that was not recorded before. */
  lemma {:induction false} TargetEnds(dir: VfsEntry, targets: set<Path>, d: Path, seen: set<Path>, n: nat)
    requires dir.Dir? && DirectSet(dir, targets) && d in targets && n >= |targets - seen|
    ensures FollowSeen(dir, d, seen, n).0 != Deep
    decreases n
  {
    DirectRound(dir, d, seen, n);
    if MustFollow(dir, d, seen) {
      FewerUnseen(targets, seen, d);
      TargetEnds(dir, targets, NodeAt(dir, d).value.dest, seen + {d}, n - 1);
    }
  }

  lemma LinkEnds(dir: VfsEntry, p: Path, seen: set<Path>)
    requires dir.Dir? && DirectTargets(dir) && NodeAt(dir, p).Some? && NodeAt(dir, p).value.LinkNode?
    ensures FollowSeen(dir, NodeAt(dir, p).value.dest, seen, |Targets(dir)|).0 != Deep
  {
    var targets := set d | d in Targets(dir) && NoLinkBefore(dir, d);
    forall d | d in targets && MustFollow(dir, d, {}) ensures NodeAt(dir, d).value.dest in targets {
      TargetIsListed(dir, d);
    }
    TargetIsListed(dir, p);
    SubsetSize(targets - seen, Targets(dir));
    TargetEnds(dir, targets, NodeAt(dir, p).value.dest, seen, |Targets(dir)|);
  }

  lemma {:induction false} WalkEnds(dir: VfsEntry, cur: Path, comps: Path, seen: set<Path>)
    requires dir.Dir? && DirectTargets(dir)
    ensures WalkSeen(dir, cur, comps, seen, |Targets(dir)| + 1).0 != Deep
    decreases |comps|
  {
    var n := |Targets(dir)| + 1;
    if comps != [] {
      var node := NodeAt(dir, cur);
      if node.Some? && node.value.LinkNode? { LinkEnds(dir, cur, seen); }
      var (base, seen1) := match node
        case Some(DirNode) => (Found(cur), seen)
        case Some(LinkNode(d)) => var (o, s) := FollowSeen(dir, d, seen, n - 1); (AsDir(dir, o), s)
        case _ => (NotFound, seen);
      if base.Found? { WalkEnds(dir, base.path + [comps[0]], comps[1..], seen1); }
    }
  }

  /** If no link lies on the way to a link target, every lookup ends, however links lead to each other: cycles
      are always reported, since there are finitely many targets to record. */
  lemma DirectTargetsEnd(dir: VfsEntry, path: Path)
    requires dir.Dir? && DirectTargets(dir)
    ensures Answer(dir, path) != Deep
    ensures Meaning(dir, path) == Deep ==> Answer(dir, path) == Circular
  {
    var n := |Targets(dir)| + 1;
    WalkEnds(dir, [], path, {});
    var (o, seen1) := WalkSeen(dir, [], path, {}, n);
    if o.Found? && path !in seen1 {
      match NodeAt(dir, o.path) {
        case Some(LinkNode(d)) => LinkEnds(dir, o.path, seen1 + {path});
        case _ =>
      }
    }
    AnswerAt(dir, path, n);
    AnswerAgrees(dir, path);
  }
}
