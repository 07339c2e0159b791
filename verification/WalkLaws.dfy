/** Exactly which files of a tree leave the machine. */
module WalkLaws {
  import opened Text
  import opened IgnoreCompile
  import opened IgnoreVerdict
  import opened IgnoreFilter
  import opened Walk

  /** rel is a file of that kind in the tree. */
  predicate Holds(dir: Path, l: Listing, rel: Path, kind: Kind)
    decreases l
  {
    match l
    case End => false
    case File(name, k, next) => (At(dir, name) == rel && k == kind) || Holds(dir, next, rel, kind)
    case Dir(name, inside, next) => Holds(At(dir, name), inside, rel, kind) || Holds(dir, next, rel, kind)
  }

  /** Nothing keeps a file at rel back: the path is one the program carries,
      no directory above it is a mount of its own, neither the live rules nor
      the rules this device accepted ignore it, and the include list, if there
      is one, has it. The rule file itself is under the first condition only. */
  predicate MayLeave(p: Policy, s: Scope, rel: Path) {
    && NEWLINE !in rel && !p.unsafe(rel) && (forall part | part in SplitOn(rel, SLASH) :: !p.reservedDir(part))
    && (rel == IGNORE_FILE
        || (&& (forall k | 0 <= k < |rel| && rel[k] == SLASH :: rel[..k] !in s.mounts)
            && !Ignored(s.ignore, rel) && !Ignored(s.guard, rel)
            && (s.only == [] || exists pat | pat in s.only :: Match(pat, rel))))
  }

  lemma VerdictIs(p: Policy, s: Scope, rel: Path, kind: Kind)
    ensures FileVerdict(p, s, rel, kind)
         == if !MayLeave(p, s, rel) then SkipFile
            else match kind case Regular => Sync case Symlink => SyncLink case Special => SkipFile
  {
  }

  predicate Visited(visits: seq<Visit>, rel: Path, v: Verdict) {
    exists k | 0 <= k < |visits| :: visits[k].rel == rel && visits[k].verdict == v
  }

  lemma VisitedAppend(a: seq<Visit>, b: seq<Visit>, rel: Path, v: Verdict)
    ensures Visited(a + b, rel, v) <==> Visited(a, rel, v) || Visited(b, rel, v)
  {
    if Visited(a, rel, v) {
      var k :| 0 <= k < |a| && a[k].rel == rel && a[k].verdict == v;
      assert (a + b)[k] == a[k];
    }
    if Visited(b, rel, v) {
      var k :| 0 <= k < |b| && b[k].rel == rel && b[k].verdict == v;
      assert (a + b)[|a| + k] == b[k];
    }
  }

  lemma VisitedOne(x: Visit, rel: Path, v: Verdict)
    ensures Visited([x], rel, v) <==> x.rel == rel && x.verdict == v
  {
    assert [x][0] == x;
  }

  function Carried(kind: Kind): Verdict {
    match kind case Regular => Sync case Symlink => SyncLink case Special => SkipFile
  }

  /** What lies in a directory that is not entered does not leave. */
  lemma {:induction false} ClosedKeeps(p: Policy, s: Scope, dir: Path, name: Bytes, at: Path, l: Listing,
                                       rel: Path, kind: Kind)
    requires s.PruneSafeRules() && Named(name) && DirVerdict(p, s, At(dir, name), name) != Descend
    requires Proper(l) && AtOrBeneath(At(dir, name), at) && Holds(at, l, rel, kind)
    ensures FileVerdict(p, s, rel, kind) == SkipFile
    decreases l
  {
    match l
    case File(leaf, k, next) =>
      BeneathAt(dir, name, at, leaf);
      if At(at, leaf) == rel {
        ClosedSkips(p, s, dir, name, rel, kind);
      } else {
        ClosedKeeps(p, s, dir, name, at, next, rel, kind);
      }
    case Dir(leaf, inside, next) =>
      BeneathAt(dir, name, at, leaf);
      if Holds(At(at, leaf), inside, rel, kind) {
        ClosedKeeps(p, s, dir, name, At(at, leaf), inside, rel, kind);
      } else {
        ClosedKeeps(p, s, dir, name, at, next, rel, kind);
      }
  }

  lemma {:induction false} WalkShows(p: Policy, s: Scope, dir: Path, l: Listing, rel: Path, kind: Kind)
    requires s.PruneSafeRules() && Proper(l) && kind != Special
    ensures Visited(Visits(p, s, dir, l), rel, Carried(kind))
       <==> Holds(dir, l, rel, kind) && FileVerdict(p, s, rel, kind) == Carried(kind)
    decreases l
  {
    match l
    case End =>
    case File(name, k, next) =>
      var x := Visit(At(dir, name), FileVerdict(p, s, At(dir, name), k), 1);
      WalkShows(p, s, dir, next, rel, kind);
      VisitedAppend([x], Visits(p, s, dir, next), rel, Carried(kind));
      VisitedOne(x, rel, Carried(kind));
    case Dir(name, inside, next) =>
      var top := At(dir, name);
      var v := DirVerdict(p, s, top, name);
      var x := Visit(top, v, CountFiles(inside));
      var below := if v == Descend then Visits(p, s, top, inside) else [];
      WalkShows(p, s, dir, next, rel, kind);
      VisitedAppend([x] + below, Visits(p, s, dir, next), rel, Carried(kind));
      VisitedAppend([x], below, rel, Carried(kind));
      VisitedOne(x, rel, Carried(kind));
      if v == Descend {
        WalkShows(p, s, top, inside, rel, kind);
      } else if Holds(top, inside, rel, kind) {
        ClosedKeeps(p, s, dir, name, top, inside, rel, kind);
      }
  }

  /** A file leaves the machine exactly when it is in the tree and nothing
      keeps it back: a regular file as a file, a symbolic link as a link. */
  lemma WalkSyncsIff(p: Policy, s: Scope, l: Listing, rel: Path)
    requires s.PruneSafeRules() && Proper(l)
    ensures Visited(Visits(p, s, [], l), rel, Sync) <==> Holds([], l, rel, Regular) && MayLeave(p, s, rel)
    ensures Visited(Visits(p, s, [], l), rel, SyncLink) <==> Holds([], l, rel, Symlink) && MayLeave(p, s, rel)
  {
    WalkShows(p, s, [], l, rel, Regular);
    WalkShows(p, s, [], l, rel, Symlink);
    VerdictIs(p, s, rel, Regular);
    VerdictIs(p, s, rel, Symlink);
  }

  /** Whatever the rules, pruned safely or not, nothing leaves that the live
      rules or the accepted rules ignore, the rule file aside. */
  lemma {:induction false} SyncedMayLeave(p: Policy, s: Scope, dir: Path, l: Listing, rel: Path)
    requires rel in Synced(Visits(p, s, dir, l))
    ensures MayLeave(p, s, rel)
    ensures rel != IGNORE_FILE ==> !Ignored(s.ignore, rel) && !Ignored(s.guard, rel)
    decreases l
  {
    match l
    case File(name, kind, next) =>
      var top := At(dir, name);
      VerdictIs(p, s, top, kind);
      SyncedAppend([Visit(top, FileVerdict(p, s, top, kind), 1)], Visits(p, s, dir, next));
      if rel in Synced(Visits(p, s, dir, next)) {
        SyncedMayLeave(p, s, dir, next, rel);
      }
    case Dir(name, inside, next) =>
      var top := At(dir, name);
      var v := DirVerdict(p, s, top, name);
      var head := [Visit(top, v, CountFiles(inside))];
      var below := if v == Descend then Visits(p, s, top, inside) else [];
      SyncedAppend(head + below, Visits(p, s, dir, next));
      SyncedAppend(head, below);
      if rel in Synced(Visits(p, s, dir, next)) {
        SyncedMayLeave(p, s, dir, next, rel);
      } else {
        SyncedMayLeave(p, s, top, inside, rel);
      }
  }

  // ---- the directories ----

  /** The last name of a path is one the program keeps for itself. */
  predicate Reserved(p: Policy, rel: Path) {
    exists i | 0 <= i <= |rel| :: (i == 0 || rel[i - 1] == SLASH) && SLASH !in rel[i..] && p.reservedDir(rel[i..])
  }

  /** All of a directory can be left out: nothing in the rules or the include
      list brings a path back, and the rules ignore it. */
  predicate LeftOut(s: Scope, rel: Path) {
    (forall pat | pat in s.ignore :: !pat.negate) && s.only == [] && Ignored(s.ignore, rel + [SLASH])
  }

  lemma ReservedName(p: Policy, dir: Path, name: Bytes)
    requires Named(name)
    ensures Reserved(p, At(dir, name)) <==> p.reservedDir(name)
  {
    var rel := At(dir, name);
    var n := |rel| - |name|;
    assert rel[n..] == name && (n == 0 || rel[n - 1] == SLASH);
    forall i | 0 <= i < n ensures SLASH in rel[i..] {
      assert rel[i..][n - 1 - i] == SLASH;
    }
    forall k | n <= k < |rel| ensures rel[k] != SLASH {
      assert rel[k] == name[k - n];
    }
  }

  /** What becomes of a directory the walk comes to: nothing in it is seen if
      its name is reserved or its rules leave it out, and otherwise it is a
      mount of its own or entered. */
  lemma {:induction false} DirectoriesAre(p: Policy, s: Scope, dir: Path, l: Listing, v: Visit)
    requires Proper(l) && v in Visits(p, s, dir, l) && v.verdict in {Descend, PruneDir, Nested}
    ensures v.verdict == PruneDir <==> Reserved(p, v.rel) || LeftOut(s, v.rel)
    ensures v.verdict == Nested <==> v.rel in s.mounts && !Reserved(p, v.rel) && !LeftOut(s, v.rel)
    decreases l
  {
    match l
    case File(name, kind, next) => DirectoriesAre(p, s, dir, next, v);
    case Dir(name, inside, next) =>
      var top := At(dir, name);
      if v in Visits(p, s, dir, next) {
        DirectoriesAre(p, s, dir, next, v);
      } else if v == Visit(top, DirVerdict(p, s, top, name), CountFiles(inside)) {
        ReservedName(p, dir, name);
      } else {
        DirectoriesAre(p, s, top, inside, v);
      }
  }
}
