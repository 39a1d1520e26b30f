/** Cropping a working copy to a depth (libsvn_wc/crop.c). The working copy
    is a map from directory path to that directory's entries table; the
    entry under ThisDir ("") is the directory's own, the others its
    children's. Removal from revision control is a collaborator whose
    outcome is given; its effect on the tables is modelled. */
module Crop {
  import opened Wrappers

  /** svn_depth_t */
  datatype Depth = Unknown | Exclude | Empty | Files | Immediates | Infinity

  /** The numeric values of svn_depth_t, which the comparisons in crop.c use. */
  function Rank(d: Depth): int
  {
    match d
    case Unknown => -2
    case Exclude => -1
    case Empty => 0
    case Files => 1
    case Immediates => 2
    case Infinity => 3
  }

  /** svn_node_kind_t */
  datatype NodeKind = NoKind | FileKind | DirKind | UnknownKind

  /** svn_wc_schedule_t */
  datatype Schedule = Normal | Add | Delete | Replace

  /** The fields of svn_wc_entry_t that cropping reads or writes. */
  datatype Entry = Entry(kind: NodeKind, depth: Depth, schedule: Schedule, copied: bool)

  type Path = seq<string>
  type Table = map<string, Entry>
  type Tables = map<Path, Table>

  /** SVN_WC_ENTRY_THIS_DIR */
  const ThisDir: string := ""

  datatype CropError =
    | NodeUnknownKind(path: Path)
    | NotLocked(path: Path)
    | RemovalError(path: Path, code: int)

  /** What svn_wc_remove_from_revision_control reports for a path. */
  datatype Removal = Removed | LeftLocalMod | RemovalFailed(code: int)

  type Remover = Path -> Removal

  /** IGNORE_LOCAL_MOD: LEFT_LOCAL_MOD is no error, every other error is. */
  function IgnoreLocalMod(r: Removal, path: Path): (err: Option<CropError>)
    ensures err.None? <==> r.Removed? || r.LeftLocalMod?
    ensures r.RemovalFailed? ==> err == Some(RemovalError(path, r.code))
  {
    if r.RemovalFailed? then Some(RemovalError(path, r.code)) else None
  }

  /** Every directory has its own entry. */
  ghost predicate WellFormed(T: Tables)
  {
    forall p :: p in T ==> ThisDir in T[p]
  }

  /** p is root or lies below it. */
  predicate Under(p: Path, root: Path)
  {
    |root| <= |p| && p[..|root|] == root
  }

  function Children(t: Table): set<string>
  {
    t.Keys - {ThisDir}
  }

  // ---------------------------------------------------------------------
  // The removal collaborator's effect

  /** A directory removed from revision control takes its whole subtree of
      administrative areas with it, and its entry in the parent's table
      unless that entry marks it excluded. A path with no last component
      (or an empty one, which never names a child) has no such entry. */
  function RemoveDir(T: Tables, path: Path): Tables
  {
    var rest := map p | p in T && !Under(p, path) :: T[p];
    if |path| == 0 then rest
    else
      var parent := path[..|path| - 1];
      var name := path[|path| - 1];
      if name != ThisDir && parent in rest && name in rest[parent] && rest[parent][name].depth != Exclude
      then rest[parent := rest[parent] - {name}]
      else rest
  }

  // ---------------------------------------------------------------------
  // The rules of crop_children, one child at a time

  /** The child's entry leaves the directory's table. */
  predicate DropsEntry(e: Entry, d: Depth)
  {
    (e.kind == FileKind && d == Empty) || (e.kind == DirKind && Rank(d) < Rank(Immediates))
  }

  /** The child is a directory removed from revision control. */
  predicate RemovesSubtree(e: Entry, d: Depth)
  {
    e.kind == DirKind && e.depth != Exclude && Rank(d) < Rank(Immediates)
  }

  /** The child is a directory cropped to empty in turn. */
  predicate DescendsInto(e: Entry, d: Depth)
  {
    e.kind == DirKind && e.depth != Exclude && Rank(d) >= Rank(Immediates)
  }

  /** The child is reported deleted. */
  predicate Notified(e: Entry, d: Depth)
  {
    (e.kind == FileKind && d == Empty) || RemovesSubtree(e, d)
  }

  /** The directory's own depth after cropping: lowered, never raised. */
  function Lowered(t: Table, d: Depth): Table
    requires ThisDir in t
  {
    if Rank(t[ThisDir].depth) > Rank(d) then t[ThisDir := t[ThisDir].(depth := d)] else t
  }

  /** The directory's table once the children in done are handled. */
  function CropTable(t: Table, d: Depth, done: set<string>): Table
    requires ThisDir in t
  {
    var l := Lowered(t, d);
    map k | k in l && !(k in done && k != ThisDir && DropsEntry(l[k], d)) :: l[k]
  }

  /** Whether path p, below child p[|dir|] of dir, survives that child's handling. */
  predicate SurvivesBelow(T0: Tables, dir: Path, d: Depth, p: Path)
    requires dir in T0 && |p| > |dir|
  {
    var c := p[|dir|];
    c !in T0[dir] || c == ThisDir ||
    (!RemovesSubtree(T0[dir][c], d) &&
     !(DescendsInto(T0[dir][c], d) && |p| > |dir| + 1 && GrandchildRemoved(T0, dir + [c], p[|dir| + 1])))
  }

  /** Cropping child to empty removes its subdirectory g. */
  predicate GrandchildRemoved(T0: Tables, child: Path, g: string)
  {
    child in T0 && g in T0[child] && g != ThisDir && RemovesSubtree(T0[child][g], Empty)
  }

  predicate Survives(T0: Tables, dir: Path, d: Depth, done: set<string>, p: Path)
    requires dir in T0
  {
    !(|p| > |dir| && p[..|dir|] == dir && p[|dir|] in done) || SurvivesBelow(T0, dir, d, p)
  }

  /** Child p of dir was descended into. */
  predicate Descended(T0: Tables, dir: Path, d: Depth, done: set<string>, p: Path)
    requires dir in T0
  {
    |p| == |dir| + 1 && p[..|dir|] == dir && p[|dir|] in done && p[|dir|] != ThisDir
    && p[|dir|] in T0[dir] && DescendsInto(T0[dir][p[|dir|]], d)
  }

  /** The table at path p once crop_children(dir, d) has handled the children in done. */
  function NewTable(T0: Tables, dir: Path, d: Depth, done: set<string>, p: Path): Table
    requires WellFormed(T0) && dir in T0 && p in T0
  {
    if p == dir then CropTable(T0[dir], d, done)
    else if Descended(T0, dir, d, done, p) then CropTable(T0[p], Empty, Children(T0[p]))
    else T0[p]
  }

  /** The working copy once crop_children(dir, d) has handled the children
      in done, starting from T0. */
  function Cropped(T0: Tables, dir: Path, d: Depth, done: set<string>): Tables
    requires WellFormed(T0) && dir in T0
  {
    map p | p in T0 && Survives(T0, dir, d, done, p) :: NewTable(T0, dir, d, done, p)
  }

  /** Handling child c of dir reports path q deleted: c itself when it is
      removed, or a child of c when c is cropped to empty in turn. */
  predicate NotedAt(T0: Tables, dir: Path, c: string, d: Depth, q: Path)
    requires dir in T0 && c in T0[dir]
  {
    var e := T0[dir][c];
    var child := dir + [c];
    (q == child && Notified(e, d))
    || (DescendsInto(e, d) && child in T0 && |q| == |child| + 1 && q[..|child|] == child
        && q[|child|] in Children(T0[child]) && Notified(T0[child][q[|child|]], Empty))
  }

  /** crop_children(dir, d) reports q deleted while handling the children in done. */
  predicate Noted(T0: Tables, dir: Path, d: Depth, done: set<string>, q: Path)
    requires dir in T0
  {
    |q| > |dir| && q[..|dir|] == dir && q[|dir|] in done && q[|dir|] in Children(T0[dir])
    && NotedAt(T0, dir, q[|dir|], d, q)
  }

  /** crop_children(dir, d) succeeds: the directory is locked and every
      child can be handled. */
  predicate CropOk(T0: Tables, dir: Path, d: Depth, remover: Remover)
    decreases Rank(d) + 2, 1
  {
    dir in T0 && forall c :: c in Children(T0[dir]) ==> ChildOk(T0, dir, c, d, remover)
  }

  predicate ChildOk(T0: Tables, dir: Path, c: string, d: Depth, remover: Remover)
    requires dir in T0 && c in T0[dir]
    decreases Rank(d) + 2, 0
  {
    var e := T0[dir][c];
    var path := dir + [c];
    match e.kind
    case FileKind => d == Empty ==> !remover(path).RemovalFailed?
    case DirKind =>
      if e.depth == Exclude then true
      else if Rank(d) < Rank(Immediates) then path in T0 && !remover(path).RemovalFailed?
      else CropOk(T0, path, Empty, remover)
    case _ => false
  }

  /** What handling child c (entry e) does when it does not descend. */
  function ChildEffect(T: Tables, dir: Path, c: string, e: Entry, d: Depth): Tables
    requires dir in T
  {
    if RemovesSubtree(e, d) then RemoveDir(T, dir + [c])
    else if DropsEntry(e, d) then T[dir := T[dir] - {c}]
    else T
  }

  // ---------------------------------------------------------------------
  // Lemmas that let the loop in crop_children be proved against Cropped

  lemma UnderChild(p: Path, dir: Path, c: string)
    ensures Under(p, dir + [c]) <==> |p| > |dir| && p[..|dir|] == dir && p[|dir|] == c
  {
    if |p| > |dir| {
      assert p[..|dir| + 1] == p[..|dir|] + [p[|dir|]];
    }
  }

  lemma CroppedAt(T0: Tables, dir: Path, d: Depth, done: set<string>, p: Path)
    requires WellFormed(T0) && dir in T0
    ensures p in Cropped(T0, dir, d, done) <==> p in T0 && Survives(T0, dir, d, done, p)
    ensures p in Cropped(T0, dir, d, done) ==> Cropped(T0, dir, d, done)[p] == NewTable(T0, dir, d, done, p)
  {
  }

  lemma CroppedWellFormed(T0: Tables, dir: Path, d: Depth, done: set<string>)
    requires WellFormed(T0) && dir in T0
    ensures WellFormed(Cropped(T0, dir, d, done)) && dir in Cropped(T0, dir, d, done)
    ensures Cropped(T0, dir, d, done)[dir] == CropTable(T0[dir], d, done)
  {
    CroppedAt(T0, dir, d, done, dir);
  }

  lemma CroppedStart(T0: Tables, dir: Path, d: Depth)
    requires WellFormed(T0) && dir in T0
    ensures Cropped(T0, dir, d, {}) == T0[dir := Lowered(T0[dir], d)]
  {
    var l := Lowered(T0[dir], d);
    assert CropTable(T0[dir], d, {}) == l;
  }

  /** A child not yet handled still has its entry, and its subtree is as it was. */
  lemma CroppedUnhandled(T0: Tables, dir: Path, d: Depth, done: set<string>, c: string)
    requires WellFormed(T0) && dir in T0 && c in Children(T0[dir]) && c !in done
    ensures var T := Cropped(T0, dir, d, done);
      && c in T[dir] && T[dir][c] == T0[dir][c]
      && forall p :: Under(p, dir + [c]) ==> (p in T <==> p in T0) && (p in T ==> T[p] == T0[p])
  {
    CroppedWellFormed(T0, dir, d, done);
    forall p | Under(p, dir + [c])
      ensures var T := Cropped(T0, dir, d, done); (p in T <==> p in T0) && (p in T ==> T[p] == T0[p])
    {
      UnderChild(p, dir, c);
      CroppedAt(T0, dir, d, done, p);
    }
  }

  lemma CropTableStep(t: Table, d: Depth, done: set<string>, c: string)
    requires ThisDir in t && c in t && c != ThisDir
    ensures DropsEntry(t[c], d) ==> CropTable(t, d, done + {c}) == CropTable(t, d, done) - {c}
    ensures !DropsEntry(t[c], d) ==> CropTable(t, d, done + {c}) == CropTable(t, d, done)
  {
  }

  lemma RemoveDirAt(T: Tables, path: Path, p: Path)
    requires |path| > 0
    ensures p in RemoveDir(T, path) <==> p in T && !Under(p, path)
    ensures p in RemoveDir(T, path) && p != path[..|path| - 1] ==> RemoveDir(T, path)[p] == T[p]
  {
  }

  /** Handling a child that does not descend, seen at one path. */
  lemma CroppedStepAt(T0: Tables, dir: Path, d: Depth, done: set<string>, c: string, p: Path)
    requires WellFormed(T0) && dir in T0 && c in Children(T0[dir]) && c !in done
    requires !DescendsInto(T0[dir][c], d) && p != dir
    ensures var T := Cropped(T0, dir, d, done);
      var T' := Cropped(T0, dir, d, done + {c});
      var E := ChildEffect(T, dir, c, T0[dir][c], d);
      (p in E <==> p in T') && (p in E ==> E[p] == T'[p])
  {
    var T := Cropped(T0, dir, d, done);
    var e := T0[dir][c];
    CroppedWellFormed(T0, dir, d, done);
    CroppedAt(T0, dir, d, done, p);
    CroppedAt(T0, dir, d, done + {c}, p);
    UnderChild(p, dir, c);
    if RemovesSubtree(e, d) {
      RemoveDirAt(T, dir + [c], p);
      assert (dir + [c])[..|dir + [c]| - 1] == dir;
    }
    if Under(p, dir + [c]) {
      assert p[|dir|] == c;
    } else if |p| > |dir| && p[..|dir|] == dir {
      assert p[|dir|] != c;
    }
  }

  /** Handling a child that does not descend is ChildEffect. */
  lemma CroppedStep(T0: Tables, dir: Path, d: Depth, done: set<string>, c: string)
    requires WellFormed(T0) && dir in T0 && c in Children(T0[dir]) && c !in done
    requires !DescendsInto(T0[dir][c], d)
    ensures dir in Cropped(T0, dir, d, done)
    ensures Cropped(T0, dir, d, done + {c}) == ChildEffect(Cropped(T0, dir, d, done), dir, c, T0[dir][c], d)
  {
    var T := Cropped(T0, dir, d, done);
    var T' := Cropped(T0, dir, d, done + {c});
    var e := T0[dir][c];
    CroppedWellFormed(T0, dir, d, done);
    CroppedWellFormed(T0, dir, d, done + {c});
    CroppedUnhandled(T0, dir, d, done, c);
    CropTableStep(T0[dir], d, done, c);
    var E := ChildEffect(T, dir, c, e, d);
    assert dir in E && E[dir] == T'[dir] by {
      if RemovesSubtree(e, d) {
        RemoveDirAt(T, dir + [c], dir);
        assert !Under(dir, dir + [c]);
        assert (dir + [c])[..|dir + [c]| - 1] == dir;
      }
    }
    forall p
      ensures (p in E <==> p in T') && (p in E ==> E[p] == T'[p])
    {
      if p != dir {
        CroppedStepAt(T0, dir, d, done, c, p);
      }
    }
    assert E == T';
  }

  /** Handling a child that descends, seen at one path. */
  lemma CroppedDescendAt(T0: Tables, dir: Path, d: Depth, done: set<string>, c: string, p: Path)
    requires WellFormed(T0) && dir in T0 && c in Children(T0[dir]) && c !in done
    requires DescendsInto(T0[dir][c], d) && dir + [c] in T0
    requires WellFormed(Cropped(T0, dir, d, done)) && dir + [c] in Cropped(T0, dir, d, done)
    ensures var T := Cropped(T0, dir, d, done);
      var T' := Cropped(T0, dir, d, done + {c});
      var R := Cropped(T, dir + [c], Empty, Children(T[dir + [c]]));
      (p in R <==> p in T') && (p in R ==> R[p] == T'[p])
  {
    var child := dir + [c];
    var T := Cropped(T0, dir, d, done);
    CroppedUnhandled(T0, dir, d, done, c);
    CroppedAt(T0, dir, d, done, p);
    CroppedAt(T0, dir, d, done + {c}, p);
    CroppedAt(T, child, Empty, Children(T[child]), p);
    UnderChild(p, dir, c);
    if p == dir {
      CropTableStep(T0[dir], d, done, c);
    } else if Under(p, child) {
      if |p| > |child| {
        assert p[..|child|] == child;
        assert p[|child|] == p[|dir| + 1];
      }
    } else if |p| > |dir| && p[..|dir|] == dir {
      assert p[|dir|] != c;
      assert !(|p| > |child| && p[..|child|] == child);
    }
  }

  /** Handling a child that descends is cropping it to empty. */
  lemma CroppedDescend(T0: Tables, dir: Path, d: Depth, done: set<string>, c: string)
    requires WellFormed(T0) && dir in T0 && c in Children(T0[dir]) && c !in done
    requires DescendsInto(T0[dir][c], d) && dir + [c] in T0
    ensures var T := Cropped(T0, dir, d, done);
      && WellFormed(T) && dir + [c] in T
      && Cropped(T, dir + [c], Empty, Children(T[dir + [c]])) == Cropped(T0, dir, d, done + {c})
  {
    var child := dir + [c];
    var T := Cropped(T0, dir, d, done);
    var T' := Cropped(T0, dir, d, done + {c});
    CroppedWellFormed(T0, dir, d, done);
    CroppedUnhandled(T0, dir, d, done, c);
    assert Under(child, child);
    var R := Cropped(T, child, Empty, Children(T[child]));
    forall p
      ensures (p in R <==> p in T') && (p in R ==> R[p] == T'[p])
    {
      CroppedDescendAt(T0, dir, d, done, c, p);
    }
    assert R == T';
  }

  lemma ChildEffectWellFormed(T: Tables, dir: Path, c: string, e: Entry, d: Depth)
    requires WellFormed(T) && dir in T && c != ThisDir
    ensures WellFormed(ChildEffect(T, dir, c, e, d))
  {
  }

  /** What cropping a child to empty reports is what handling it reports. */
  lemma NotedBelow(T0: Tables, dir: Path, c: string, d: Depth, q: Path)
    requires dir in T0 && c in Children(T0[dir]) && DescendsInto(T0[dir][c], d) && dir + [c] in T0
    ensures Noted(T0, dir + [c], Empty, Children(T0[dir + [c]]), q) <==> NotedAt(T0, dir, c, d, q)
  {
    var child := dir + [c];
    if |q| == |child| + 1 && q[..|child|] == child {
      assert q == child + [q[|child|]];
    }
  }

  lemma NotedStep(T0: Tables, dir: Path, d: Depth, done: set<string>, c: string, q: Path)
    requires dir in T0 && c in Children(T0[dir])
    ensures Noted(T0, dir, d, done + {c}, q) <==> Noted(T0, dir, d, done, q) || NotedAt(T0, dir, c, d, q)
  {
    if NotedAt(T0, dir, c, d, q) {
      assert q[..|dir| + 1] == dir + [c] by {
        if q != dir + [c] {
          assert q[..|dir| + 1] == q[..|dir + [c]|];
        }
      }
      assert q[..|dir|] == (q[..|dir| + 1])[..|dir|];
    }
  }

  lemma NotedAppend(T0: Tables, dir: Path, d: Depth, done: set<string>, c: string, s: seq<Path>, t: seq<Path>)
    requires dir in T0 && c in Children(T0[dir])
    requires forall q :: q in s <==> Noted(T0, dir, d, done, q)
    requires forall q :: q in t <==> NotedAt(T0, dir, c, d, q)
    ensures forall q :: q in s + t <==> Noted(T0, dir, d, done + {c}, q)
  {
    forall q
      ensures q in s + t <==> Noted(T0, dir, d, done + {c}, q)
    {
      NotedStep(T0, dir, d, done, c, q);
    }
  }

  lemma AppendAssoc(a: seq<Path>, b: seq<Path>, c: seq<Path>)
    ensures (a + b) + c == a + (b + c)
  {
  }

  /** The state of crop_children's loop once the children in done are handled. */
  ghost predicate Handled(T0: Tables, dir: Path, d: Depth, remover: Remover, done: set<string>, T: Tables, news: seq<Path>)
  {
    && WellFormed(T0) && dir in T0 && done <= Children(T0[dir])
    && T == Cropped(T0, dir, d, done) && WellFormed(T)
    && (forall q :: q in news <==> Noted(T0, dir, d, done, q))
    && (forall c :: c in done ==> ChildOk(T0, dir, c, d, remover))
  }

  lemma HandledStart(T0: Tables, dir: Path, d: Depth, remover: Remover)
    requires WellFormed(T0) && dir in T0
    ensures Handled(T0, dir, d, remover, {}, Cropped(T0, dir, d, {}), [])
  {
    CroppedWellFormed(T0, dir, d, {});
  }

  lemma HandledStep(T0: Tables, dir: Path, d: Depth, remover: Remover, done: set<string>, c: string,
                    T: Tables, T': Tables, news: seq<Path>, added: seq<Path>)
    requires Handled(T0, dir, d, remover, done, T, news)
    requires c in Children(T0[dir]) && c !in done
    requires ChildOk(T0, dir, c, d, remover) && WellFormed(T')
    requires T' == Cropped(T0, dir, d, done + {c})
    requires forall q :: q in added <==> NotedAt(T0, dir, c, d, q)
    ensures Handled(T0, dir, d, remover, done + {c}, T', news + added)
  {
    NotedAppend(T0, dir, d, done, c, news, added);
  }

  lemma HandledEnd(T0: Tables, dir: Path, d: Depth, remover: Remover, T: Tables, news: seq<Path>)
    requires dir in T0 && Handled(T0, dir, d, remover, Children(T0[dir]), T, news)
    ensures CropOk(T0, dir, d, remover) && WellFormed(T)
    ensures T == Cropped(T0, dir, d, Children(T0[dir]))
    ensures forall q :: q in news <==> Noted(T0, dir, d, Children(T0[dir]), q)
  {
  }

  /** Cropping a directory to empty looks only at its own subtree. */
  lemma EmptyCropLocal(T: Tables, T0: Tables, child: Path, remover: Remover)
    requires child in T0
    requires forall p :: Under(p, child) ==> (p in T <==> p in T0) && (p in T ==> T[p] == T0[p])
    ensures child in T && T[child] == T0[child]
    ensures CropOk(T, child, Empty, remover) <==> CropOk(T0, child, Empty, remover)
    ensures forall q :: Noted(T, child, Empty, Children(T[child]), q) <==> Noted(T0, child, Empty, Children(T0[child]), q)
  {
    assert Under(child, child);
    forall g | g in Children(T0[child])
      ensures ChildOk(T, child, g, Empty, remover) == ChildOk(T0, child, g, Empty, remover)
    {
      UnderChild(child + [g], child, g);
      assert Under(child + [g], child);
    }
  }

  // ---------------------------------------------------------------------
  // What cropping a directory promises

  /** Cropping changes nothing outside the directory's subtree. */
  lemma CropOnlyBelow(T0: Tables, dir: Path, d: Depth, p: Path)
    requires WellFormed(T0) && dir in T0 && p in T0 && !Under(p, dir)
    ensures var R := Cropped(T0, dir, d, Children(T0[dir])); p in R && R[p] == T0[p]
  {
    CroppedAt(T0, dir, d, Children(T0[dir]), p);
  }

  /** The directory's own depth is lowered to d when deeper, and otherwise kept. */
  lemma CropDepthLowered(T0: Tables, dir: Path, d: Depth)
    requires WellFormed(T0) && dir in T0
    ensures var R := Cropped(T0, dir, d, Children(T0[dir]));
      var before := T0[dir][ThisDir].depth;
      var after := R[dir][ThisDir].depth;
      && dir in R && ThisDir in R[dir]
      && Rank(after) <= Rank(before)
      && (Rank(before) > Rank(d) ==> after == d)
      && (Rank(before) <= Rank(d) ==> after == before)
  {
    CroppedWellFormed(T0, dir, d, Children(T0[dir]));
  }

  /** A file child stays exactly when the depth is not empty, and is reported
      deleted exactly when it goes. */
  lemma CropFileChild(T0: Tables, dir: Path, d: Depth, f: string)
    requires WellFormed(T0) && dir in T0 && f in Children(T0[dir]) && T0[dir][f].kind == FileKind
    ensures var R := Cropped(T0, dir, d, Children(T0[dir]));
      && (f in R[dir] <==> d != Empty)
      && (f in R[dir] ==> R[dir][f] == T0[dir][f])
      && (Noted(T0, dir, d, Children(T0[dir]), dir + [f]) <==> d == Empty)
  {
    CroppedWellFormed(T0, dir, d, Children(T0[dir]));
    assert (dir + [f])[..|dir|] == dir;
  }

  /** An excluded subdirectory's entry stays exactly when the depth is at
      least immediates; it is never reported. */
  lemma CropExcludedChild(T0: Tables, dir: Path, d: Depth, c: string)
    requires WellFormed(T0) && dir in T0 && c in Children(T0[dir])
    requires T0[dir][c].kind == DirKind && T0[dir][c].depth == Exclude
    ensures var R := Cropped(T0, dir, d, Children(T0[dir]));
      && (c in R[dir] <==> Rank(d) >= Rank(Immediates))
      && !Noted(T0, dir, d, Children(T0[dir]), dir + [c])
  {
    CroppedWellFormed(T0, dir, d, Children(T0[dir]));
    assert (dir + [c])[..|dir|] == dir;
  }

  /** Below immediates, a subdirectory goes with its whole subtree and is
      reported deleted. */
  lemma CropRemovedSubdir(T0: Tables, dir: Path, d: Depth, c: string)
    requires WellFormed(T0) && dir in T0 && c in Children(T0[dir])
    requires T0[dir][c].kind == DirKind && T0[dir][c].depth != Exclude && Rank(d) < Rank(Immediates)
    ensures var R := Cropped(T0, dir, d, Children(T0[dir]));
      && c !in R[dir]
      && (forall p :: Under(p, dir + [c]) ==> p !in R)
      && Noted(T0, dir, d, Children(T0[dir]), dir + [c])
  {
    var R := Cropped(T0, dir, d, Children(T0[dir]));
    CroppedWellFormed(T0, dir, d, Children(T0[dir]));
    assert (dir + [c])[..|dir|] == dir;
    forall p | Under(p, dir + [c])
      ensures p !in R
    {
      UnderChild(p, dir, c);
      CroppedAt(T0, dir, d, Children(T0[dir]), p);
    }
  }

  /** At immediates or deeper, a subdirectory keeps its entry and is itself
      cropped to empty: its depth is at most empty and no file or directory
      entry is left in it. It is not reported. */
  lemma CropDescendedSubdir(T0: Tables, dir: Path, d: Depth, c: string)
    requires WellFormed(T0) && dir in T0 && c in Children(T0[dir]) && dir + [c] in T0
    requires T0[dir][c].kind == DirKind && T0[dir][c].depth != Exclude && Rank(d) >= Rank(Immediates)
    ensures var R := Cropped(T0, dir, d, Children(T0[dir]));
      var child := dir + [c];
      && c in R[dir] && R[dir][c] == T0[dir][c]
      && child in R && ThisDir in R[child] && Rank(R[child][ThisDir].depth) <= Rank(Empty)
      && (forall g :: g in Children(R[child]) ==> R[child][g].kind != FileKind && R[child][g].kind != DirKind)
      && !Noted(T0, dir, d, Children(T0[dir]), child)
  {
    var child := dir + [c];
    CroppedWellFormed(T0, dir, d, Children(T0[dir]));
    CroppedAt(T0, dir, d, Children(T0[dir]), child);
    assert child[..|dir|] == dir;
  }

  /** A child of any other kind makes cropping fail. */
  lemma CropUnknownKindFails(T0: Tables, dir: Path, d: Depth, c: string, remover: Remover)
    requires dir in T0 && c in Children(T0[dir])
    requires T0[dir][c].kind != FileKind && T0[dir][c].kind != DirKind
    ensures !CropOk(T0, dir, d, remover)
  {
    assert !ChildOk(T0, dir, c, d, remover);
  }

  /** Only paths strictly below the directory are reported. */
  lemma NotedBelowDir(T0: Tables, dir: Path, d: Depth, done: set<string>, q: Path)
    requires dir in T0 && Noted(T0, dir, d, done, q)
    ensures Under(q, dir) && q != dir
  {
  }

  // ---------------------------------------------------------------------
  // svn_wc_crop_tree

  /** Only a restrictive depth (exclude up to immediates) crops anything. */
  predicate Restrictive(d: Depth)
  {
    Rank(Exclude) <= Rank(d) < Rank(Infinity)
  }

  /** svn_path_join of the anchor and the target. */
  function FullPath(anchor: Path, target: string): Path
  {
    if target == ThisDir then anchor else anchor + [target]
  }

  /** The target has an entry and it is a directory. */
  predicate IsDirTarget(T: Tables, anchor: Path, target: string)
  {
    anchor in T && target in T[anchor] && T[anchor][target].kind == DirKind
  }

  /** An entry scheduled for addition without history is not in the repository. */
  predicate InRepos(e: Entry)
  {
    !((e.schedule == Add || e.schedule == Replace) && !e.copied)
  }

  /** Excluding records the exclusion in the parent when the target is not a
      working-copy root, exists in the repository and the parent's depth is
      deeper than files. */
  predicate RecordsExclusion(T: Tables, anchor: Path, target: string, isRoot: bool)
    requires anchor in T && target in T[anchor]
  {
    !isRoot && InRepos(T[anchor][target]) && ThisDir in T[anchor]
    && Rank(T[anchor][ThisDir].depth) > Rank(Files)
  }

  /** svn_path_basename: the last component, "" for the empty path. */
  function Basename(p: Path): string
  {
    if |p| == 0 then ThisDir else p[|p| - 1]
  }

  /** The entry the exclusion is recorded on is looked up in the anchor's
      table under the basename of the full path. For an empty target that is
      the anchor's own name, looked up in the anchor's own table; when no
      such entry exists the C code dereferences the NULL it gets. */
  predicate ExcludeDefined(T: Tables, anchor: Path, target: string, isRoot: bool)
    requires anchor in T && target in T[anchor]
  {
    RecordsExclusion(T, anchor, target, isRoot) ==> Basename(FullPath(anchor, target)) in T[anchor]
  }

  function MarkExcluded(T: Tables, anchor: Path, target: string, isRoot: bool): Tables
    requires anchor in T && target in T[anchor] && ExcludeDefined(T, anchor, target, isRoot)
  {
    var key := Basename(FullPath(anchor, target));
    if RecordsExclusion(T, anchor, target, isRoot)
    then T[anchor := T[anchor][key := T[anchor][key].(depth := Exclude)]]
    else T
  }

  /** After an exclude, the target's subtree is gone; its entry in the parent
      stays, marked excluded, exactly when the exclusion is recorded (or it
      was marked already); every other table is as it was. */
  lemma ExcludeOutcome(T: Tables, anchor: Path, target: string, isRoot: bool)
    requires anchor in T && target in T[anchor] && target != ThisDir
    ensures var full := anchor + [target];
      var R := RemoveDir(MarkExcluded(T, anchor, target, isRoot), full);
      && (forall p :: Under(p, full) ==> p !in R)
      && anchor in R
      && (target in R[anchor] <==> RecordsExclusion(T, anchor, target, isRoot) || T[anchor][target].depth == Exclude)
      && (target in R[anchor] ==> R[anchor][target].depth == Exclude)
      && (forall p :: p in T && !Under(p, full) && p != anchor ==> p in R && R[p] == T[p])
  {
    var full := anchor + [target];
    assert full[..|full| - 1] == anchor && full[|full| - 1] == target;
    assert !Under(anchor, full);
  }

  /** Excluding the anchor itself (an empty target) never records the
      exclusion: whatever entry of the anchor's own table is marked goes with
      the anchor's tables, and the anchor's entry in its parent's table is not
      marked, so it is removed unless it was excluded already. */
  lemma ExcludeAnchorRecordsNothing(T: Tables, anchor: Path, isRoot: bool)
    requires anchor in T && ThisDir in T[anchor] && ExcludeDefined(T, anchor, ThisDir, isRoot)
    ensures var R := RemoveDir(MarkExcluded(T, anchor, ThisDir, isRoot), anchor);
      && R == RemoveDir(T, anchor)
      && (forall p :: Under(p, anchor) ==> p !in R)
      && (|anchor| > 0 && Basename(anchor) != ThisDir
            && anchor[..|anchor| - 1] in R && Basename(anchor) in R[anchor[..|anchor| - 1]] ==>
            T[anchor[..|anchor| - 1]][Basename(anchor)].depth == Exclude)
  {
    var M := MarkExcluded(T, anchor, ThisDir, isRoot);
    assert Under(anchor, anchor);
    assert M.Keys == T.Keys;
    forall p | p != anchor
      ensures (p in M && M[p] == T[p]) || (p !in M && p !in T)
    {
    }
    var R := RemoveDir(T, anchor);
    assert RemoveDir(M, anchor) == R;
    if |anchor| > 0 {
      var parent := anchor[..|anchor| - 1];
      assert !Under(parent, anchor);
      assert parent in R ==> R[parent] == T[parent] || R[parent] == T[parent] - {Basename(anchor)};
    }
  }

  // ---------------------------------------------------------------------
  // The working copy

  class WorkingCopy {
    var tables: Tables
    /** The paths reported to the notification callback, in order. */
    var notified: seq<Path>

    ghost predicate Valid()
      reads this
    {
      WellFormed(tables)
    }

    constructor (tables: Tables)
      requires WellFormed(tables)
      ensures Valid() && this.tables == tables && notified == []
    {
      this.tables := tables;
      notified := [];
    }

    /** svn_wc__entry_remove, then svn_wc__entries_write. */
    method EntryRemove(dir: Path, name: string)
      requires Valid() && dir in tables && name != ThisDir
      modifies this
      ensures Valid() && notified == old(notified)
      ensures tables == old(tables)[dir := old(tables)[dir] - {name}]
    {
      tables := tables[dir := tables[dir] - {name}];
    }

    /** svn_wc_remove_from_revision_control on the file or directory name in
        dir, or, with name ThisDir, on dir itself. */
    method RemoveFromRevisionControl(dir: Path, name: string, isDir: bool, remover: Remover) returns (r: Removal)
      requires Valid() && dir in tables && (name == ThisDir ==> isDir)
      modifies this
      ensures Valid() && notified == old(notified)
      ensures r == remover(FullPath(dir, name))
      ensures r.RemovalFailed? ==> tables == old(tables)
      ensures !r.RemovalFailed? && isDir ==> tables == RemoveDir(old(tables), FullPath(dir, name))
      ensures !r.RemovalFailed? && !isDir ==> tables == old(tables)[dir := old(tables)[dir] - {name}]
    {
      r := remover(FullPath(dir, name));
      if r.RemovalFailed? {
        return;
      }
      if isDir {
        tables := RemoveDir(tables, FullPath(dir, name));
      } else {
        tables := tables[dir := tables[dir] - {name}];
      }
    }

    /** The notification callback, reporting svn_wc_notify_delete. */
    method Notify(path: Path)
      modifies this
      ensures tables == old(tables) && notified == old(notified) + [path]
    {
      notified := notified + [path];
    }

    /** crop_children. The paths reported deleted are appended to notified. */
    method CropChildren(dir: Path, d: Depth, remover: Remover) returns (err: Option<CropError>, ghost reported: seq<Path>)
      requires Valid()
      modifies this
      decreases Rank(d) + 2, 3
      ensures Valid() && notified == old(notified) + reported
      ensures err.None? <==> CropOk(old(tables), dir, d, remover)
      ensures err.None? ==> (dir in old(tables)
        && tables == Cropped(old(tables), dir, d, Children(old(tables)[dir]))
        && forall q :: q in reported <==> Noted(old(tables), dir, d, Children(old(tables)[dir]), q))
    {
      if dir !in tables {
        return Some(NotLocked(dir)), [];
      }
      ghost var T0 := tables;
      tables := tables[dir := Lowered(tables[dir], d)];
      CroppedStart(T0, dir, d);
      HandledStart(T0, dir, d, remover);
      err, reported := CropEntries(dir, d, remover, T0);
      if err.None? {
        HandledEnd(T0, dir, d, remover, tables, reported);
      }
    }

    /** The loop of crop_children over the directory's entries, once its own
        depth is lowered. */
    method CropEntries(dir: Path, d: Depth, remover: Remover, ghost T0: Tables)
      returns (err: Option<CropError>, ghost reported: seq<Path>)
      requires Handled(T0, dir, d, remover, {}, tables, [])
      modifies this
      decreases Rank(d) + 2, 2
      ensures Valid() && notified == old(notified) + reported
      ensures err.Some? ==> !CropOk(T0, dir, d, remover)
      ensures err.None? ==> Handled(T0, dir, d, remover, Children(T0[dir]), tables, reported)
    {
      reported := [];
      var todo := Children(tables[dir]);
      ghost var done: set<string> := {};
      while todo != {}
        invariant todo <= Children(T0[dir]) && done == Children(T0[dir]) - todo
        invariant Handled(T0, dir, d, remover, done, tables, reported)
        invariant notified == old(notified) + reported
        decreases |todo|
      {
        var c :| c in todo;
        err, reported := CropStep(dir, c, d, remover, T0, done, old(notified), reported);
        if err.Some? {
          return;
        }
        todo := todo - {c};
        done := done + {c};
      }
      assert done == Children(T0[dir]);
      return None, reported;
    }

    /** One turn of the loop in crop_children: child c is handled, and the
        loop's invariant is carried from done to done + {c}. */
    method CropStep(dir: Path, c: string, d: Depth, remover: Remover, ghost T0: Tables, ghost done: set<string>,
                    ghost before: seq<Path>, ghost reported: seq<Path>)
      returns (err: Option<CropError>, ghost reported': seq<Path>)
      requires Handled(T0, dir, d, remover, done, tables, reported) && notified == before + reported
      requires c in Children(T0[dir]) && c !in done
      modifies this
      decreases Rank(d) + 2, 1
      ensures Valid() && notified == before + reported'
      ensures err.Some? ==> !CropOk(T0, dir, d, remover)
      ensures err.None? ==> Handled(T0, dir, d, remover, done + {c}, tables, reported')
    {
      ghost var T := tables;
      ghost var added;
      err, added := CropChild(dir, c, d, remover, T0, done);
      AppendAssoc(before, reported, added);
      reported' := reported + added;
      if err.None? {
        HandledStep(T0, dir, d, remover, done, c, T, tables, reported, added);
      }
    }

    /** The body of the loop over the entries in crop_children, for child c. */
    method CropChild(dir: Path, c: string, d: Depth, remover: Remover, ghost T0: Tables, ghost done: set<string>)
      returns (err: Option<CropError>, ghost added: seq<Path>)
      requires WellFormed(T0) && dir in T0 && c in Children(T0[dir]) && c !in done
      requires tables == Cropped(T0, dir, d, done)
      modifies this
      decreases Rank(d) + 2, 0
      ensures Valid() && notified == old(notified) + added
      ensures err.None? <==> ChildOk(T0, dir, c, d, remover)
      ensures err.None? ==> (tables == Cropped(T0, dir, d, done + {c})
        && forall q :: q in added <==> NotedAt(T0, dir, c, d, q))
    {
      CroppedUnhandled(T0, dir, d, done, c);
      CroppedWellFormed(T0, dir, d, done);
      var path := dir + [c];
      var e := tables[dir][c];
      assert Under(path, path);
      added := [];
      if e.kind == FileKind {
        if d == Empty {
          var r := RemoveFromRevisionControl(dir, c, false, remover);
          err := IgnoreLocalMod(r, path);
          if err.Some? {
            return;
          }
          CroppedStep(T0, dir, d, done, c);
          Notify(path);
          added := [path];
        } else {
          CroppedStep(T0, dir, d, done, c);
          err := None;
        }
      } else if e.kind == DirKind {
        if e.depth == Exclude {
          if Rank(d) < Rank(Immediates) {
            EntryRemove(dir, c);
          }
          CroppedStep(T0, dir, d, done, c);
          err := None;
        } else if Rank(d) < Rank(Immediates) {
          if path !in tables {
            return Some(NotLocked(path)), [];
          }
          var r := RemoveFromRevisionControl(dir, c, true, remover);
          err := IgnoreLocalMod(r, path);
          if err.Some? {
            return;
          }
          CroppedStep(T0, dir, d, done, c);
          Notify(path);
          added := [path];
        } else {
          if path !in tables {
            return Some(NotLocked(path)), [];
          }
          ghost var T := tables;
          EmptyCropLocal(T, T0, path, remover);
          err, added := CropChildren(path, Empty, remover);
          if err.Some? {
            return;
          }
          CroppedDescend(T0, dir, d, done, c);
          forall q
            ensures Noted(T0, path, Empty, Children(T0[path]), q) <==> NotedAt(T0, dir, c, d, q)
          {
            NotedBelow(T0, dir, c, d, q);
          }
        }
      } else {
        return Some(NodeUnknownKind(path)), [];
      }
    }

    /** svn_wc_crop_tree. isRoot is what svn_wc_is_wc_root reports for the target. */
    method CropTree(anchor: Path, target: string, d: Depth, isRoot: bool, remover: Remover)
      returns (err: Option<CropError>, ghost reported: seq<Path>)
      requires Valid() && anchor in tables
      requires d == Exclude && IsDirTarget(tables, anchor, target) ==> ExcludeDefined(tables, anchor, target, isRoot)
      modifies this
      ensures Valid() && notified == old(notified) + reported
      ensures !Restrictive(d) || !IsDirTarget(old(tables), anchor, target) ==>
        err.None? && tables == old(tables) && reported == []
      ensures Restrictive(d) && IsDirTarget(old(tables), anchor, target) && d == Exclude ==>
        var full := FullPath(anchor, target);
        && (err.None? <==> full in old(tables) && !remover(full).RemovalFailed?)
        && (err.None? ==> tables == RemoveDir(MarkExcluded(old(tables), anchor, target, isRoot), full)
                          && reported == [full])
      ensures Restrictive(d) && IsDirTarget(old(tables), anchor, target) && d != Exclude ==>
        var full := FullPath(anchor, target);
        && (err.None? <==> CropOk(old(tables), full, d, remover))
        && (err.None? ==> (full in old(tables)
              && tables == Cropped(old(tables), full, d, Children(old(tables)[full]))
              && forall q :: q in reported <==> Noted(old(tables), full, d, Children(old(tables)[full]), q)))
    {
      reported := [];
      if !Restrictive(d) {
        return None, reported;
      }
      var full := FullPath(anchor, target);
      if target !in tables[anchor] || tables[anchor][target].kind != DirKind {
        return None, reported;
      }
      if d == Exclude {
        var entry := tables[anchor][target];
        if !isRoot && InRepos(entry) {
          if ThisDir in tables[anchor] && Rank(tables[anchor][ThisDir].depth) > Rank(Files) {
            var key := Basename(full);
            tables := tables[anchor := tables[anchor][key := tables[anchor][key].(depth := Exclude)]];
          }
        }
        assert tables == MarkExcluded(old(tables), anchor, target, isRoot);
        if full !in tables {
          return Some(NotLocked(full)), reported;
        }
        var r := RemoveFromRevisionControl(anchor, target, true, remover);
        err := IgnoreLocalMod(r, full);
        if err.Some? {
          return;
        }
        Notify(full);
        return None, [full];
      }
      err, reported := CropChildren(full, d, remover);
    }
  }
}
