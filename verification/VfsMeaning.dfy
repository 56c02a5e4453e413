/** The laws of what a path means in the virtual file system: an entry means itself, a link what its target means,
    and a longer path is looked up where the shorter one leads. They determine the meaning of every path. */
module VfsMeaning {
  import opened Common
  import opened VfsTree
  import opened VfsLookup

  // ----- walking in two parts -----

  /** Where a walk goes on from `cur`. */
  function Base(dir: VfsEntry, cur: Path, n: nat): Outcome {
    match NodeAt(dir, cur)
    case Some(DirNode) => Found(cur)
    case Some(LinkNode(d)) => if n == 0 then Deep else AsDir(dir, Resolve(dir, d, n - 1))
    case _ => NotFound
  }

  lemma {:induction false} WalkConcat(dir: VfsEntry, cur: Path, a: Path, b: Path, n: nat)
    ensures Walk(dir, cur, a + b, n)
         == if Walk(dir, cur, a, n).Found? then Walk(dir, Walk(dir, cur, a, n).path, b, n) else Walk(dir, cur, a, n)
    decreases |a|
  {
    if a == [] {
      assert a + b == b;
    } else {
      assert (a + b)[0] == a[0] && (a + b)[1..] == a[1..] + b;
      var base := Base(dir, cur, n);
      if base.Found? && NodeAt(dir, base.path + [a[0]]).Some? {
        WalkConcat(dir, base.path + [a[0]], a[1..], b, n);
      }
    }
  }

  lemma WalkOneMore(dir: VfsEntry, path: Path, x: string, n: nat)
    ensures var o := Walk(dir, [], path, n);
            Walk(dir, [], path + [x], n)
            == if !o.Found? then o
               else if !Base(dir, o.path, n).Found? then Base(dir, o.path, n)
               else if NodeAt(dir, Base(dir, o.path, n).path + [x]).None? then NotFound
               else Found(Base(dir, o.path, n).path + [x])
  {
    WalkConcat(dir, [], path, [x], n);
    assert [x][1..] == [];
  }

  /** What a path resolves to, one name further. */
  lemma ResolveOneMore(dir: VfsEntry, path: Path, x: string, n: nat)
    requires dir.Dir?
    ensures var o := AsDir(dir, Resolve(dir, path, n));
            Resolve(dir, path + [x], n)
            == if !o.Found? then o
               else if NodeAt(dir, o.path + [x]).None? then NotFound
               else Resolve(dir, o.path + [x], n)
  {
    WalkOneMore(dir, path, x, n);
    var walked, o := Walk(dir, [], path, n), AsDir(dir, Resolve(dir, path, n));
    if walked.Found? {
      WalkEndsSomewhere(dir, [], path, n);
      assert Base(dir, walked.path, n) == o;
      if o.Found? && NodeAt(dir, o.path + [x]).Some? {
        WalkExisting(dir, o.path + [x], 0, n);
        assert (o.path + [x])[..0] == [] && (o.path + [x])[0..] == o.path + [x];
      }
    }
  }

  lemma MeaningIs(dir: VfsEntry, path: Path) returns (n: nat)
    ensures Meaning(dir, path) != Deep ==> Resolve(dir, path, n) == Meaning(dir, path)
  {
    n := 0;
    if m: nat :| Resolve(dir, path, m) != Deep {
      n := m;
      MeaningAt(dir, path, m);
    }
  }

  // ----- the laws -----

  /** A file or directory means itself. */
  lemma EntryMeansItself(dir: VfsEntry, path: Path)
    requires NodeAt(dir, path).Some? && !NodeAt(dir, path).value.LinkNode?
    ensures Meaning(dir, path) == Found(path)
  {
    WalkExisting(dir, path, 0, 0);
    assert path[..0] == [] && path[0..] == path;
    MeaningAt(dir, path, 0);
  }

  /** A link means what its target means. */
  lemma LinkMeansItsTarget(dir: VfsEntry, path: Path)
    requires NodeAt(dir, path).Some? && NodeAt(dir, path).value.LinkNode?
    ensures Meaning(dir, path) == Meaning(dir, NodeAt(dir, path).value.dest)
  {
    var d := NodeAt(dir, path).value.dest;
    forall n: nat ensures Resolve(dir, path, n + 1) == Resolve(dir, d, n) {
      WalkExisting(dir, path, 0, n + 1);
      assert path[..0] == [] && path[0..] == path;
    }
    var n := MeaningIs(dir, d);
    var m := MeaningIs(dir, path);
    if Meaning(dir, d) != Deep {
      assert Resolve(dir, path, n + 1) != Deep;
      MeaningAt(dir, path, n + 1);
    } else if Meaning(dir, path) != Deep {
      MoreDepth(dir, path, m, m + 1);
      assert Resolve(dir, d, m) != Deep;
      MeaningAt(dir, d, m);
      assert false;
    }
  }

  /** A longer path is looked up in the directory where the shorter one leads. */
  lemma LookedUpWhereItLeads(dir: VfsEntry, path: Path, x: string)
    requires dir.Dir? && Meaning(dir, path).Found? && NodeAt(dir, Meaning(dir, path).path) == Some(DirNode)
    ensures var q := Meaning(dir, path).path;
            Meaning(dir, path + [x]) == if NodeAt(dir, q + [x]).None? then NotFound else Meaning(dir, q + [x])
  {
    var q := Meaning(dir, path).path;
    var n := MeaningIs(dir, path);
    if NodeAt(dir, q + [x]).None? {
      ResolveOneMore(dir, path, x, n);
      MeaningAt(dir, path + [x], n);
    } else {
      SameFurther(dir, path, q, x, n);
    }
  }

  lemma SameFurther(dir: VfsEntry, path: Path, q: Path, x: string, n: nat)
    requires dir.Dir? && Resolve(dir, path, n) == Found(q) && NodeAt(dir, q) == Some(DirNode)
    requires NodeAt(dir, q + [x]).Some?
    ensures Meaning(dir, path + [x]) == Meaning(dir, q + [x])
  {
    forall m: nat | m >= n ensures Resolve(dir, path + [x], m) == Resolve(dir, q + [x], m) {
      MoreDepth(dir, path, n, m);
      ResolveOneMore(dir, path, x, m);
    }
    var k := MeaningIs(dir, path + [x]);
    var l := MeaningIs(dir, q + [x]);
    if Meaning(dir, q + [x]) != Deep {
      MoreDepth(dir, q + [x], l, l + n);
      assert Resolve(dir, path + [x], l + n) != Deep;
      MeaningAt(dir, path + [x], l + n);
    } else if Meaning(dir, path + [x]) != Deep {
      MoreDepth(dir, path + [x], k, k + n);
      assert false;
    }
  }

  /** Nothing is below a file or below what is not there. */
  lemma NothingBelow(dir: VfsEntry, path: Path, x: string)
    requires dir.Dir?
    requires Meaning(dir, path) == NotFound
             || (Meaning(dir, path).Found? && NodeAt(dir, Meaning(dir, path).path) != Some(DirNode))
    ensures Meaning(dir, path + [x]) == NotFound
  {
    var n := MeaningIs(dir, path);
    ResolveOneMore(dir, path, x, n);
    MeaningAt(dir, path + [x], n);
  }

  /** And below what never ends nothing ends. */
  lemma EndlessBelow(dir: VfsEntry, path: Path, x: string)
    requires dir.Dir? && Meaning(dir, path) == Deep
    ensures Meaning(dir, path + [x]) == Deep
  {
    var n := MeaningIs(dir, path + [x]);
    if Meaning(dir, path + [x]) != Deep {
      ResolveOneMore(dir, path, x, n);
      MeaningAt(dir, path, n);
      assert false;
    }
  }
}
