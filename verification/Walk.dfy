/** The one walk over a mount that decides what leaves the machine: every
    entry gets a verdict, and directories that cannot hold a syncing file are
    not entered. */
module Walk {
  import opened Text
  import opened IgnoreFilter

  datatype Kind = Regular | Symlink | Special

  /** A directory's entries, in the order the walk reads them. */
  datatype Listing =
    | End
    | File(name: Bytes, kind: Kind, next: Listing)
    | Dir(name: Bytes, inside: Listing, next: Listing)

  datatype Verdict = Descend | PruneDir | Nested | SkipFile | Sync | SyncLink

  /** One callback. size is what countFiles would answer for the entry. */
  datatype Visit = Visit(rel: Path, verdict: Verdict, size: nat)

  /** The rules built into the program: names of directories never carried,
      and paths it refuses for other reasons. */
  datatype Policy = Policy(reservedDir: Bytes -> bool, unsafe: Path -> bool)
  {
    /** !SafePath || ReservedPath. */
    predicate Barred(rel: Path) {
      NEWLINE in rel || unsafe(rel) || exists part | part in SplitOn(rel, SLASH) :: reservedDir(part)
    }
  }

  function At(dir: Path, name: Bytes): Path {
    if dir == [] then name else dir + [SLASH] + name
  }

  function FileVerdict(p: Policy, s: Scope, rel: Path, kind: Kind): Verdict {
    if p.Barred(rel) || s.SkipsUp(rel) then SkipFile
    else match kind
      case Symlink => SyncLink
      case Regular => Sync
      case Special => SkipFile
  }

  function DirVerdict(p: Policy, s: Scope, rel: Path, name: Bytes): Verdict {
    if p.reservedDir(name) || s.Prunes(rel) then PruneDir
    else if rel in s.mounts then Nested
    else Descend
  }

  function CountFiles(l: Listing): nat {
    match l
    case End => 0
    case File(_, _, next) => 1 + CountFiles(next)
    case Dir(_, inside, next) => CountFiles(inside) + CountFiles(next)
  }

  function Visits(p: Policy, s: Scope, dir: Path, l: Listing): seq<Visit>
    decreases l
  {
    match l
    case End => []
    case File(name, kind, next) =>
      var rel := At(dir, name);
      [Visit(rel, FileVerdict(p, s, rel, kind), 1)] + Visits(p, s, dir, next)
    case Dir(name, inside, next) =>
      var rel := At(dir, name);
      var v := DirVerdict(p, s, rel, name);
      [Visit(rel, v, CountFiles(inside))]
      + (if v == Descend then Visits(p, s, rel, inside) else [])
      + Visits(p, s, dir, next)
  }

  method JudgeFile(filter: Filter, p: Policy, rel: Path, kind: Kind) returns (v: Verdict)
    requires filter.Valid()
    modifies filter`nested, filter`nestedMiss
    ensures filter.Valid() && v == FileVerdict(p, filter.View(), rel, kind)
  {
    if p.Barred(rel) {
      return SkipFile;
    }
    var skip := filter.SkipUp(rel);
    if skip {
      return SkipFile;
    }
    v := match kind case Symlink => SyncLink case Regular => Sync case Special => SkipFile;
  }

  method JudgeDir(filter: Filter, p: Policy, rel: Path, name: Bytes) returns (v: Verdict)
    requires filter.Valid()
    modifies filter`nested
    ensures filter.Valid() && v == DirVerdict(p, filter.View(), rel, name)
  {
    if p.reservedDir(name) {
      return PruneDir;
    }
    var prune := filter.PruneDir(rel);
    if prune {
      return PruneDir;
    }
    if rel in filter.mounts {
      filter.AddNestedMount(rel);
      return Nested;
    }
    v := Descend;
  }

  /** The walk as it runs, teaching the filter the mounts it meets. */
  method WalkListing(filter: Filter, p: Policy, dir: Path, l: Listing) returns (visits: seq<Visit>)
    requires filter.Valid()
    modifies filter`nested, filter`nestedMiss
    ensures filter.Valid() && visits == Visits(p, filter.View(), dir, l)
    decreases l
  {
    match l
    case End =>
      visits := [];
    case File(name, kind, next) =>
      var rel := At(dir, name);
      var v := JudgeFile(filter, p, rel, kind);
      var rest := WalkListing(filter, p, dir, next);
      visits := [Visit(rel, v, 1)] + rest;
    case Dir(name, inside, next) =>
      var rel := At(dir, name);
      var v := JudgeDir(filter, p, rel, name);
      var below: seq<Visit> := [];
      if v == Descend {
        below := WalkListing(filter, p, rel, inside);
      }
      var rest := WalkListing(filter, p, dir, next);
      visits := [Visit(rel, v, CountFiles(inside))] + below + rest;
  }

  /** The paths that sync, as the walk reports them. */
  function Synced(visits: seq<Visit>): seq<Path> {
    if visits == [] then []
    else (if visits[0].verdict in {Sync, SyncLink} then [visits[0].rel] else []) + Synced(visits[1..])
  }

  lemma {:induction false} SyncedAppend(a: seq<Visit>, b: seq<Visit>)
    ensures Synced(a + b) == Synced(a) + Synced(b)
  {
    if a == [] {
      assert a + b == b;
    } else {
      assert (a + b)[1..] == a[1..] + b;
      SyncedAppend(a[1..], b);
    }
  }

  // ---- the walk leaves nothing out ----

  /** The same question put to every file of the tree, pruning nothing. */
  function SyncedEverywhere(p: Policy, s: Scope, dir: Path, l: Listing): seq<Path>
    decreases l
  {
    match l
    case End => []
    case File(name, kind, next) =>
      var rel := At(dir, name);
      (if FileVerdict(p, s, rel, kind) in {Sync, SyncLink} then [rel] else []) + SyncedEverywhere(p, s, dir, next)
    case Dir(name, inside, next) =>
      SyncedEverywhere(p, s, At(dir, name), inside) + SyncedEverywhere(p, s, dir, next)
  }

  predicate Named(name: Bytes) {
    name != [] && SLASH !in name
  }

  predicate Proper(l: Listing) {
    match l
    case End => true
    case File(name, _, next) => Named(name) && name !in Names(next) && Proper(next)
    case Dir(name, inside, next) => Named(name) && name !in Names(next) && Proper(inside) && Proper(next)
  }

  function Names(l: Listing): set<Bytes> {
    match l
    case End => {}
    case File(name, _, next) => {name} + Names(next)
    case Dir(name, _, next) => {name} + Names(next)
  }

  lemma LastPart(dir: Path, name: Bytes)
    requires Named(name)
    ensures name in SplitOn(At(dir, name), SLASH)
  {
    SplitFree(name, SLASH);
    if dir != [] {
      SplitAppend(dir, SLASH, name);
    }
    assert [name][0] == name;
  }

  /** No file beneath a directory that the walk does not enter syncs. */
  lemma ClosedSkips(p: Policy, s: Scope, dir: Path, name: Bytes, rel: Path, kind: Kind)
    requires s.PruneSafeRules() && Named(name) && DirVerdict(p, s, At(dir, name), name) != Descend
    requires Beneath(At(dir, name), rel) && rel != At(dir, name) + [SLASH]
    ensures FileVerdict(p, s, rel, kind) == SkipFile
  {
    var top := At(dir, name);
    var rest := rel[|top| + 1..];
    assert rel == top + [SLASH] + rest;
    if p.reservedDir(name) {
      LastPart(dir, name);
      SplitAppend(top, SLASH, rest);
      assert name in SplitOn(rel, SLASH);
    } else if NEWLINE !in rel {
      if s.Prunes(top) {
        PrunedIsSkipped(s, top, rel);
      } else {
        assert rel[|top|] == SLASH && rel[..|top|] == top;
        assert SLASH !in IGNORE_FILE;
        assert s.UnderMount(rel);
      }
    }
  }

  lemma {:induction false} ClosedIsSilent(p: Policy, s: Scope, dir: Path, name: Bytes, at: Path, l: Listing)
    requires s.PruneSafeRules() && Named(name) && DirVerdict(p, s, At(dir, name), name) != Descend
    requires Proper(l) && AtOrBeneath(At(dir, name), at) && at != At(dir, name) + [SLASH]
    ensures SyncedEverywhere(p, s, at, l) == []
    decreases l
  {
    match l
    case End =>
    case File(leaf, kind, next) =>
      BeneathAt(dir, name, at, leaf);
      ClosedSkips(p, s, dir, name, At(at, leaf), kind);
      ClosedIsSilent(p, s, dir, name, at, next);
    case Dir(leaf, inside, next) =>
      BeneathAt(dir, name, at, leaf);
      ClosedIsSilent(p, s, dir, name, At(at, leaf), inside);
      ClosedIsSilent(p, s, dir, name, at, next);
  }

  lemma BeneathAt(dir: Path, name: Bytes, at: Path, leaf: Bytes)
    requires Named(name) && Named(leaf) && AtOrBeneath(At(dir, name), at)
    ensures Beneath(At(dir, name), At(at, leaf)) && At(at, leaf) != At(dir, name) + [SLASH]
  {
    var top := At(dir, name);
    assert at != [] && At(at, leaf) == at + [SLASH] + leaf;
    if at == top {
      assert At(at, leaf) == top + [SLASH] + leaf;
    } else {
      assert at[..|top| + 1] == top + [SLASH];
    }
  }

  /** The pruned walk reports the files an exhaustive one would, in the same
      order. */
  lemma {:induction false} PruningLosesNothing(p: Policy, s: Scope, dir: Path, l: Listing)
    requires s.PruneSafeRules() && Proper(l)
    ensures Synced(Visits(p, s, dir, l)) == SyncedEverywhere(p, s, dir, l)
    decreases l
  {
    match l
    case End =>
    case File(name, kind, next) =>
      PruningLosesNothing(p, s, dir, next);
      SyncedAppend([Visit(At(dir, name), FileVerdict(p, s, At(dir, name), kind), 1)], Visits(p, s, dir, next));
    case Dir(name, inside, next) =>
      var rel := At(dir, name);
      var v := DirVerdict(p, s, rel, name);
      var head := [Visit(rel, v, CountFiles(inside))];
      var below := if v == Descend then Visits(p, s, rel, inside) else [];
      SyncedAppend(head + below, Visits(p, s, dir, next));
      SyncedAppend(head, below);
      PruningLosesNothing(p, s, dir, next);
      if v == Descend {
        PruningLosesNothing(p, s, rel, inside);
      } else {
        ClosedIsSilent(p, s, dir, name, rel, inside);
      }
  }

  // ---- the shape of the walk ----

  ghost predicate ParentsFirst(visits: seq<Visit>) {
    forall i, j | 0 <= i < j < |visits| :: !AtOrBeneath(visits[j].rel, visits[i].rel)
  }

  ghost predicate OnlyEntered(visits: seq<Visit>) {
    forall i, j | 0 <= i < |visits| && 0 <= j < |visits| && Beneath(visits[i].rel, visits[j].rel) ::
      visits[i].verdict == Descend
  }

  ghost predicate InNames(rel: Path, dir: Path, names: set<Bytes>) {
    exists n :: n in names && AtOrBeneath(At(dir, n), rel)
  }

  ghost predicate WithinNames(visits: seq<Visit>, dir: Path, names: set<Bytes>) {
    forall i | 0 <= i < |visits| :: InNames(visits[i].rel, dir, names)
  }

  function Inner(dir: Path, y: Path): Path {
    if dir == [] then y else if |y| > |dir| then y[|dir| + 1..] else []
  }

  /** A path in directory dir leads through one of its entries. */
  lemma FirstName(dir: Path, name: Bytes, y: Path)
    requires Named(name) && AtOrBeneath(At(dir, name), y)
    ensures SplitOn(Inner(dir, y), SLASH)[0] == name
  {
    var top := At(dir, name);
    SplitFree(name, SLASH);
    if y == top {
      assert Inner(dir, y) == name;
    } else {
      var rest := y[|top| + 1..];
      assert y == top + [SLASH] + rest;
      assert Inner(dir, y) == name + [SLASH] + rest;
      SplitAppend(name, SLASH, rest);
    }
  }

  lemma Chain(a: Path, b: Path, c: Path)
    requires AtOrBeneath(a, b) && AtOrBeneath(b, c)
    ensures AtOrBeneath(a, c)
    ensures Beneath(a, b) || Beneath(b, c) ==> Beneath(a, c)
  {
  }

  lemma Apart(dir: Path, m: Bytes, n: Bytes, x: Path, y: Path)
    requires Named(m) && Named(n) && m != n
    requires AtOrBeneath(At(dir, m), x) && AtOrBeneath(At(dir, n), y)
    ensures !AtOrBeneath(x, y) && !AtOrBeneath(y, x)
  {
    FirstName(dir, m, x);
    FirstName(dir, n, y);
    if AtOrBeneath(x, y) {
      Chain(At(dir, m), x, y);
      FirstName(dir, m, y);
    } else if AtOrBeneath(y, x) {
      Chain(At(dir, n), y, x);
      FirstName(dir, n, x);
    }
  }

  lemma {:induction false} VisitsShape(p: Policy, s: Scope, dir: Path, l: Listing)
    requires Proper(l)
    ensures WithinNames(Visits(p, s, dir, l), dir, Names(l))
    ensures ParentsFirst(Visits(p, s, dir, l)) && OnlyEntered(Visits(p, s, dir, l))
    decreases l
  {
    match l
    case End =>
    case File(name, kind, next) =>
      var rel := At(dir, name);
      NamesNamed(next);
      VisitsShape(p, s, dir, next);
      var head := [Visit(rel, FileVerdict(p, s, rel, kind), 1)];
      assert WithinNames(head, dir, {name});
      Glue(head, Visits(p, s, dir, next), dir, name, Names(next));
    case Dir(name, inside, next) =>
      var rel := At(dir, name);
      var v := DirVerdict(p, s, rel, name);
      var head := [Visit(rel, v, CountFiles(inside))];
      NamesNamed(next);
      NamesNamed(inside);
      VisitsShape(p, s, dir, next);
      if v == Descend {
        VisitsShape(p, s, rel, inside);
        Nest(head[0], Visits(p, s, rel, inside), dir, name, Names(inside));
        Glue(head + Visits(p, s, rel, inside), Visits(p, s, dir, next), dir, name, Names(next));
      } else {
        assert WithinNames(head, dir, {name});
        assert head + [] == head;
        Glue(head, Visits(p, s, dir, next), dir, name, Names(next));
      }
  }

  ghost predicate AllNamed(names: set<Bytes>) {
    forall n | n in names :: Named(n)
  }

  lemma {:induction l} NamesNamed(l: Listing)
    requires Proper(l)
    ensures AllNamed(Names(l))
  {
  }

  lemma InnerBeneath(dir: Path, name: Bytes, rel: Path, names: set<Bytes>)
    requires Named(name) && AllNamed(names)
    requires InNames(rel, At(dir, name), names)
    ensures Beneath(At(dir, name), rel) && !AtOrBeneath(rel, At(dir, name))
  {
    var n :| n in names && AtOrBeneath(At(At(dir, name), n), rel);
    BeneathAt(dir, name, At(dir, name), n);
  }

  /** A directory before what it holds. */
  lemma Nest(top: Visit, inner: seq<Visit>, dir: Path, name: Bytes, names: set<Bytes>)
    requires top.rel == At(dir, name) && top.verdict == Descend && Named(name) && AllNamed(names)
    requires WithinNames(inner, top.rel, names) && ParentsFirst(inner) && OnlyEntered(inner)
    ensures WithinNames([top] + inner, dir, {name})
    ensures ParentsFirst([top] + inner) && OnlyEntered([top] + inner)
  {
    forall i | 0 <= i < |inner| ensures Beneath(top.rel, inner[i].rel) && !AtOrBeneath(inner[i].rel, top.rel) {
      InnerBeneath(dir, name, inner[i].rel, names);
    }
    NestShape(top, inner);
    var all := [top] + inner;
    forall i | 0 <= i < |all| ensures InNames(all[i].rel, dir, {name}) {
      assert name in {name} && (i > 0 ==> all[i] == inner[i - 1]);
    }
  }

  lemma NestShape(top: Visit, inner: seq<Visit>)
    requires top.verdict == Descend && ParentsFirst(inner) && OnlyEntered(inner)
    requires forall i | 0 <= i < |inner| :: !AtOrBeneath(inner[i].rel, top.rel)
    ensures ParentsFirst([top] + inner) && OnlyEntered([top] + inner)
  {
    var all := [top] + inner;
    forall i, j | 0 <= i < j < |all| ensures !AtOrBeneath(all[j].rel, all[i].rel) {
      assert all[j] == inner[j - 1];
      assert i > 0 ==> all[i] == inner[i - 1];
    }
    forall i, j | 0 <= i < |all| && 0 <= j < |all| && Beneath(all[i].rel, all[j].rel)
      ensures all[i].verdict == Descend
    {
      assert i > 0 ==> all[i] == inner[i - 1];
      assert j > 0 ==> all[j] == inner[j - 1];
    }
  }

  lemma NamesApart(dir: Path, name: Bytes, names: set<Bytes>, x: Path, y: Path)
    requires Named(name) && name !in names && AllNamed(names)
    requires AtOrBeneath(At(dir, name), x) && InNames(y, dir, names)
    ensures !AtOrBeneath(x, y) && !AtOrBeneath(y, x)
  {
    var n :| n in names && AtOrBeneath(At(dir, n), y);
    Apart(dir, name, n, x, y);
  }

  /** What one name holds, before what other names hold. */
  lemma Glue(a: seq<Visit>, b: seq<Visit>, dir: Path, name: Bytes, names: set<Bytes>)
    requires Named(name) && name !in names && AllNamed(names)
    requires WithinNames(a, dir, {name}) && ParentsFirst(a) && OnlyEntered(a)
    requires WithinNames(b, dir, names) && ParentsFirst(b) && OnlyEntered(b)
    ensures WithinNames(a + b, dir, {name} + names)
    ensures ParentsFirst(a + b) && OnlyEntered(a + b)
  {
    var all := a + b;
    forall x, y | 0 <= x < |a| && 0 <= y < |b|
      ensures !AtOrBeneath(a[x].rel, b[y].rel) && !AtOrBeneath(b[y].rel, a[x].rel)
    {
      assert InNames(a[x].rel, dir, {name});
      NamesApart(dir, name, names, a[x].rel, b[y].rel);
    }
    forall i | 0 <= i < |all| ensures InNames(all[i].rel, dir, {name} + names) {
      assert InNames(if i < |a| then a[i].rel else b[i - |a|].rel, dir, if i < |a| then {name} else names);
    }
    forall i, j | 0 <= i < j < |all| ensures !AtOrBeneath(all[j].rel, all[i].rel) {
      assert all[i] == if i < |a| then a[i] else b[i - |a|];
      assert all[j] == if j < |a| then a[j] else b[j - |a|];
    }
    forall i, j | 0 <= i < |all| && 0 <= j < |all| && Beneath(all[i].rel, all[j].rel)
      ensures all[i].verdict == Descend
    {
      assert all[i] == if i < |a| then a[i] else b[i - |a|];
      assert all[j] == if j < |a| then a[j] else b[j - |a|];
    }
  }
}
