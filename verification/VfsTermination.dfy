/** When a lookup of `crates/sb_fs/virtual_fs.rs` never ends: exactly when a call of `find_entry_inner` comes
    to be asked again inside itself, for the same path and with the same paths recorded. */
module VfsTermination {
  import opened Common
  import opened VfsTree
  import opened VfsLookup
  import opened VfsCircular

  /** A call of `find_entry_inner`. */
  datatype Call = Call(path: Path, seen: set<Path>)

  /** The answer of a call of `find_entry_no_follow_inner`; `Deep` if it never ends. */
  ghost function WalkEnded(dir: VfsEntry, path: Path, seen: set<Path>): (Outcome, set<Path>) {
    if exists n: nat :: WalkSeen(dir, [], path, seen, n).0 != Deep then
      var n: nat :| WalkSeen(dir, [], path, seen, n).0 != Deep;
      WalkSeen(dir, [], path, seen, n)
    else (Deep, seen)
  }

  lemma WalkEndedAt(dir: VfsEntry, path: Path, seen: set<Path>, n: nat)
    requires WalkSeen(dir, [], path, seen, n).0 != Deep
    ensures WalkEnded(dir, path, seen) == WalkSeen(dir, [], path, seen, n)
  {
    var m: nat :| WalkSeen(dir, [], path, seen, m).0 != Deep
               && WalkEnded(dir, path, seen) == WalkSeen(dir, [], path, seen, m);
    MoreDepthWalkSeen(dir, [], path, seen, n, n + m);
    MoreDepthWalkSeen(dir, [], path, seen, m, n + m);
  }

  // ----- the calls a call makes -----

  /** `c` is the call for a link that is met while `comps` is walked from `cur`. */
  ghost predicate WalkAsks(dir: VfsEntry, cur: Path, comps: Path, seen: set<Path>, c: Call)
    decreases |comps|
  {
    && comps != []
    && match NodeAt(dir, cur)
       case Some(DirNode) => WalkAsks(dir, cur + [comps[0]], comps[1..], seen, c)
       case Some(LinkNode(d)) =>
         || c == Call(d, seen)
         || (var (o, seen1) := Ended(dir, d, seen);
             var base := AsDir(dir, o);
             base.Found? && WalkAsks(dir, base.path + [comps[0]], comps[1..], seen1, c))
       case _ => false
  }

  /** `c'` is the call for the link at the end of the path of `c`, which is recorded first. */
  ghost predicate EndAsks(dir: VfsEntry, c: Call, c': Call) {
    var (o, seen1) := WalkEnded(dir, c.path, c.seen);
    && o.Found? && c.path !in seen1
    && match NodeAt(dir, o.path)
       case Some(LinkNode(d)) => c' == Call(d, seen1 + {c.path})
       case _ => false
  }

  /** While `c` runs it makes the call `c'`. */
  ghost predicate Asks(dir: VfsEntry, c: Call, c': Call) {
    WalkAsks(dir, [], c.path, c.seen, c') || EndAsks(dir, c, c')
  }

  /** Calls, each made by the one before it. */
  ghost predicate Nested(dir: VfsEntry, calls: seq<Call>) {
    forall i :: 0 <= i < |calls| - 1 ==> Asks(dir, calls[i], calls[i + 1])
  }

  predicate EndsIn(dir: VfsEntry, c: Call, n: nat) {
    FollowSeen(dir, c.path, c.seen, n).0 != Deep
  }

  // ----- a call outlasts the calls it makes -----

  lemma {:induction false} WalkOutlasts(dir: VfsEntry, cur: Path, comps: Path, seen: set<Path>, c: Call, n: nat)
    requires WalkSeen(dir, cur, comps, seen, n).0 != Deep && WalkAsks(dir, cur, comps, seen, c)
    ensures n > 0 && EndsIn(dir, c, n - 1)
    decreases |comps|
  {
    match NodeAt(dir, cur)
    case Some(DirNode) => WalkOutlasts(dir, cur + [comps[0]], comps[1..], seen, c, n);
    case Some(LinkNode(d)) =>
      EndedAt(dir, d, seen, n - 1);
      if c != Call(d, seen) {
        var (o, seen1) := Ended(dir, d, seen);
        WalkOutlasts(dir, o.path + [comps[0]], comps[1..], seen1, c, n);
      }
  }

  /** A call that ends follows more links than any call it makes. */
  lemma Outlasts(dir: VfsEntry, c: Call, c': Call, n: nat)
    requires EndsIn(dir, c, n) && Asks(dir, c, c')
    ensures n > 0 && EndsIn(dir, c', n - 1)
  {
    if WalkAsks(dir, [], c.path, c.seen, c') {
      WalkOutlasts(dir, [], c.path, c.seen, c', n);
    } else {
      WalkEndedAt(dir, c.path, c.seen, n);
    }
  }

  lemma {:induction false} NestedOutlasts(dir: VfsEntry, calls: seq<Call>, i: nat, j: nat, n: nat)
    requires Nested(dir, calls) && i <= j < |calls| && EndsIn(dir, calls[i], n)
    ensures n >= j - i && EndsIn(dir, calls[j], n - (j - i))
    decreases j - i
  {
    if i < j {
      Outlasts(dir, calls[i], calls[i + 1], n);
      NestedOutlasts(dir, calls, i + 1, j, n - 1);
    }
  }

  /** A call that is asked again inside itself never ends. */
  lemma {:induction false} RepeatedNeverEnds(dir: VfsEntry, calls: seq<Call>, i: nat, j: nat, n: nat)
    requires Nested(dir, calls) && i < j < |calls| && calls[i] == calls[j]
    ensures !EndsIn(dir, calls[i], n)
    decreases n
  {
    if EndsIn(dir, calls[i], n) {
      NestedOutlasts(dir, calls, i, j, n);
      RepeatedNeverEnds(dir, calls, i, j, n - (j - i));
    }
  }

  // ----- a call that does not end makes one that does not -----

  lemma {:induction false} WalkDeeper(dir: VfsEntry, cur: Path, comps: Path, seen: set<Path>, n: nat) returns (c: Call)
    requires n > 0 && WalkSeen(dir, cur, comps, seen, n).0 == Deep
    ensures WalkAsks(dir, cur, comps, seen, c) && !EndsIn(dir, c, n - 1)
    decreases |comps|
  {
    match NodeAt(dir, cur)
    case Some(DirNode) => c := WalkDeeper(dir, cur + [comps[0]], comps[1..], seen, n);
    case Some(LinkNode(d)) =>
      c := Call(d, seen);
      if EndsIn(dir, c, n - 1) {
        EndedAt(dir, d, seen, n - 1);
        var (o, seen1) := Ended(dir, d, seen);
        c := WalkDeeper(dir, o.path + [comps[0]], comps[1..], seen1, n);
      }
  }

  lemma Deeper(dir: VfsEntry, c: Call, n: nat) returns (c': Call)
    requires n > 0 && !EndsIn(dir, c, n)
    ensures Asks(dir, c, c') && !EndsIn(dir, c', n - 1)
  {
    var (o, seen1) := WalkSeen(dir, [], c.path, c.seen, n);
    if o == Deep {
      c' := WalkDeeper(dir, [], c.path, c.seen, n);
    } else {
      WalkEndedAt(dir, c.path, c.seen, n);
      c' := Call(NodeAt(dir, o.path).value.dest, seen1 + {c.path});
    }
  }

  /** A call that does not end within `n` links makes a chain of `n` calls. */
  lemma {:induction false} DeepNest(dir: VfsEntry, c: Call, n: nat) returns (calls: seq<Call>)
    requires !EndsIn(dir, c, n)
    ensures |calls| == n + 1 && calls[0] == c && Nested(dir, calls)
    decreases n
  {
    if n == 0 {
      calls := [c];
    } else {
      var c' := Deeper(dir, c, n);
      var rest := DeepNest(dir, c', n - 1);
      calls := [c] + rest;
    }
  }

  // ----- there are finitely many calls -----

  /** The path and everything recorded come from the universe. */
  predicate Within(c: Call, universe: set<Path>) {
    c.path in universe && c.seen <= universe
  }

  ghost function CallsWithin(universe: set<Path>): set<Call> {
    set path, seen | path in universe && seen <= universe :: Call(path, seen)
  }

  lemma {:induction false} WalkRecords(dir: VfsEntry, cur: Path, comps: Path, seen: set<Path>, n: nat,
                                       universe: set<Path>)
    requires Targets(dir) <= universe && seen <= universe
    ensures WalkSeen(dir, cur, comps, seen, n).1 <= universe
    decreases n, 0, |comps|
  {
    if comps != [] {
      var node := NodeAt(dir, cur);
      if node.Some? && node.value.LinkNode? && n > 0 {
        TargetIsListed(dir, cur);
        Records(dir, Call(node.value.dest, seen), n - 1, universe);
      }
      var (base, seen1) := match node
        case Some(DirNode) => (Found(cur), seen)
        case Some(LinkNode(d)) =>
          if n == 0 then (Deep, seen)
          else var (o, s) := FollowSeen(dir, d, seen, n - 1); (AsDir(dir, o), s)
        case _ => (NotFound, seen);
      if base.Found? { WalkRecords(dir, base.path + [comps[0]], comps[1..], seen1, n, universe); }
    }
  }

  /** Only link targets and the asked path are recorded. */
  lemma {:induction false} Records(dir: VfsEntry, c: Call, n: nat, universe: set<Path>)
    requires Targets(dir) <= universe && Within(c, universe)
    ensures FollowSeen(dir, c.path, c.seen, n).1 <= universe
    decreases n, 1
  {
    WalkRecords(dir, [], c.path, c.seen, n, universe);
    var (o, seen1) := WalkSeen(dir, [], c.path, c.seen, n);
    if o.Found? && n > 0 {
      match NodeAt(dir, o.path)
      case Some(LinkNode(d)) =>
        TargetIsListed(dir, o.path);
        Records(dir, Call(d, seen1 + {c.path}), n - 1, universe);
      case _ =>
    }
  }

  lemma {:induction false} WalkAsksWithin(dir: VfsEntry, cur: Path, comps: Path, seen: set<Path>, c: Call,
                                          universe: set<Path>)
    requires Targets(dir) <= universe && seen <= universe && WalkAsks(dir, cur, comps, seen, c)
    ensures Within(c, universe)
    decreases |comps|
  {
    match NodeAt(dir, cur)
    case Some(DirNode) => WalkAsksWithin(dir, cur + [comps[0]], comps[1..], seen, c, universe);
    case Some(LinkNode(d)) =>
      TargetIsListed(dir, cur);
      if c != Call(d, seen) {
        var (o, seen1) := Ended(dir, d, seen);
        var n: nat :| FollowSeen(dir, d, seen, n).0 != Deep && (o, seen1) == FollowSeen(dir, d, seen, n);
        Records(dir, Call(d, seen), n, universe);
        WalkAsksWithin(dir, o.path + [comps[0]], comps[1..], seen1, c, universe);
      }
  }

  lemma AsksWithin(dir: VfsEntry, c: Call, c': Call, universe: set<Path>)
    requires Targets(dir) <= universe && Within(c, universe) && Asks(dir, c, c')
    ensures Within(c', universe)
  {
    if WalkAsks(dir, [], c.path, c.seen, c') {
      WalkAsksWithin(dir, [], c.path, c.seen, c', universe);
    } else {
      var (o, seen1) := WalkEnded(dir, c.path, c.seen);
      var n: nat :| WalkSeen(dir, [], c.path, c.seen, n).0 != Deep
                 && (o, seen1) == WalkSeen(dir, [], c.path, c.seen, n);
      WalkRecords(dir, [], c.path, c.seen, n, universe);
      TargetIsListed(dir, o.path);
    }
  }

  lemma {:induction false} NestedWithin(dir: VfsEntry, calls: seq<Call>, i: nat, universe: set<Path>)
    requires Targets(dir) <= universe && Nested(dir, calls) && i < |calls| && Within(calls[0], universe)
    ensures Within(calls[i], universe)
    decreases i
  {
    if i > 0 {
      NestedWithin(dir, calls, i - 1, universe);
      AsksWithin(dir, calls[i - 1], calls[i], universe);
    }
  }

  // ----- the exact condition -----

  /** Looking the path up comes to a call that is asked again inside itself. */
  ghost predicate AsksItself(dir: VfsEntry, path: Path) {
    exists calls: seq<Call> :: calls != [] && calls[0] == Call(path, {}) && Nested(dir, calls) && !Distinct(calls)
  }

  /** As many links as there are calls that can differ. */
  ghost function EnoughLinks(dir: VfsEntry, path: Path): nat {
    |CallsWithin(Targets(dir) + {path})|
  }

  lemma NoRepeatNoEnd(dir: VfsEntry, path: Path, n: nat)
    requires AsksItself(dir, path)
    ensures FollowSeen(dir, path, {}, n).0 == Deep
  {
    var calls: seq<Call> :| calls != [] && calls[0] == Call(path, {}) && Nested(dir, calls) && !Distinct(calls);
    var i, j :| 0 <= i < j < |calls| && calls[i] == calls[j];
    if EndsIn(dir, calls[0], n) {
      NestedOutlasts(dir, calls, 0, i, n);
      RepeatedNeverEnds(dir, calls, i, j, n - i);
    }
  }

  lemma ManyCallsRepeat(dir: VfsEntry, path: Path)
    requires FollowSeen(dir, path, {}, EnoughLinks(dir, path)).0 == Deep
    ensures AsksItself(dir, path)
  {
    var universe, n := Targets(dir) + {path}, EnoughLinks(dir, path);
    var calls := DeepNest(dir, Call(path, {}), n);
    forall i | 0 <= i < |calls| ensures calls[i] in CallsWithin(universe) {
      NestedWithin(dir, calls, i, universe);
    }
    if Distinct(calls) { DistinctSize(calls, CallsWithin(universe)); }
  }

  /** A lookup never ends exactly when it comes to a call that is asked again inside itself with the same
      recorded paths, and exactly when it has not ended after as many links as there are different calls. */
  lemma NeverEndsIff(dir: VfsEntry, path: Path)
    ensures Answer(dir, path) == Deep <==> AsksItself(dir, path)
    ensures Answer(dir, path) == Deep <==> FollowSeen(dir, path, {}, EnoughLinks(dir, path)).0 == Deep
  {
    var n := EnoughLinks(dir, path);
    if AsksItself(dir, path) {
      forall m: nat ensures FollowSeen(dir, path, {}, m).0 == Deep { NoRepeatNoEnd(dir, path, m); }
    } else {
      if FollowSeen(dir, path, {}, n).0 == Deep { ManyCallsRepeat(dir, path); }
      AnswerAt(dir, path, n);
    }
  }
}
