/** The list of what does not sync: directories with nothing to show collapse
    to one counted line. */
module Explain {
  import opened Text
  import opened Walk
  import opened Journal
  import IgnoreFilter

  datatype Entry = Entry(path: Path, files: nat, nested: bool)
  {
    predicate IsDir() { HasSuffix(path, [SLASH]) }
  }

  predicate IsDirectory(v: Visit) {
    v.verdict in {Descend, PruneDir, Nested}
  }

  /** What must stay visible: files that sync and mounts of their own. */
  predicate Shows(v: Visit) {
    v.verdict in {Sync, SyncLink, Nested}
  }

  /** How many unsynced files an entry of the walk stands for. */
  function Weight(v: Visit): nat {
    match v.verdict
    case SkipFile => 1
    case PruneDir => v.size
    case _ => 0
  }

  function Left(visits: seq<Visit>): nat {
    if visits == [] then 0 else Left(visits[..|visits| - 1]) + Weight(visits[|visits| - 1])
  }

  function LeftUnder(visits: seq<Visit>, dir: Path): nat {
    if visits == [] then 0
    else
      var last := visits[|visits| - 1];
      LeftUnder(visits[..|visits| - 1], dir) + if Beneath(dir, last.rel) then Weight(last) else 0
  }

  predicate Held(visits: seq<Visit>, dir: Path) {
    exists v | v in visits :: Shows(v) && Beneath(dir, v.rel)
  }

  predicate Covered(tops: seq<Visit>, rel: Path) {
    exists t | t in tops :: Beneath(t.rel, rel)
  }

  /** The directories that collapse, among the first entries of the walk. */
  function Tops(all: seq<Visit>, visits: seq<Visit>): seq<Visit> {
    if visits == [] then []
    else
      var front, last := Tops(all, visits[..|visits| - 1]), visits[|visits| - 1];
      if IsDirectory(last) && !Held(all, last.rel) && !Covered(front, last.rel) then front + [last] else front
  }

  function Line(all: seq<Visit>, t: Visit): Entry {
    Entry(t.rel + [SLASH],
      if t.verdict == Nested then 0
      else if t.verdict == PruneDir && t.size > 0 then t.size
      else LeftUnder(all, t.rel),
      t.verdict == Nested)
  }

  function DirLines(all: seq<Visit>, tops: seq<Visit>): seq<Entry> {
    if tops == [] then []
    else DirLines(all, tops[..|tops| - 1]) + [Line(all, tops[|tops| - 1])]
  }

  function SkippedRels(visits: seq<Visit>): seq<Path> {
    if visits == [] then []
    else
      var front, last := SkippedRels(visits[..|visits| - 1]), visits[|visits| - 1];
      if last.verdict == SkipFile then front + [last.rel] else front
  }

  function FileLines(tops: seq<Visit>, skipped: seq<Path>): seq<Entry> {
    if skipped == [] then []
    else
      var front, last := FileLines(tops, skipped[..|skipped| - 1]), skipped[|skipped| - 1];
      if Covered(tops, last) then front else front + [Entry(last, 0, false)]
  }

  function Lines(visits: seq<Visit>): seq<Entry> {
    DirLines(visits, Tops(visits, visits)) + FileLines(Tops(visits, visits), SkippedRels(visits))
  }

  function Files(entries: seq<Entry>): nat {
    if entries == [] then 0
    else
      var last := entries[|entries| - 1];
      Files(entries[..|entries| - 1]) + if last.IsDir() then last.files else 1
  }

  method NotSyncedFiles(notSynced: seq<Entry>) returns (n: nat)
    ensures n == Files(notSynced)
  {
    n := 0;
    for i := 0 to |notSynced|
      invariant n == Files(notSynced[..i])
    {
      assert notSynced[..i + 1][..i] == notSynced[..i];
      n := n + if notSynced[i].IsDir() then notSynced[i].files else 1;
    }
    assert notSynced[..|notSynced|] == notSynced;
  }

  /** Every directory above a walked path, nearest first. */
  method Ancestors(rel: Path) returns (dirs: seq<Path>)
    ensures forall a :: a in dirs <==> Beneath(a, rel)
    ensures forall i, j | 0 <= i < j < |dirs| :: dirs[i] != dirs[j]
  {
    dirs := [];
    var k := IgnoreFilter.LastSlash(rel, |rel|);
    while k >= 0
      invariant -1 <= k <= |rel|
      invariant k >= 0 ==> k < |rel| && rel[k] == SLASH
      invariant forall a | a in dirs :: |a| > k && Beneath(a, rel)
      invariant forall i | k < i < |rel| && rel[i] == SLASH :: rel[..i] in dirs
      invariant forall i, j | 0 <= i < j < |dirs| :: dirs[i] != dirs[j]
    {
      assert rel[..k + 1] == rel[..k] + [SLASH];
      dirs := dirs + [rel[..k]];
      k := IgnoreFilter.LastSlash(rel, k);
    }
    forall a | Beneath(a, rel) ensures a in dirs {
      assert rel[|a|] == (a + [SLASH])[|a|] && rel[..|a|] == a;
    }
  }

  method UnderCollapsed(rel: Path, collapsed: set<Path>) returns (yes: bool)
    ensures yes <==> exists c | c in collapsed :: Beneath(c, rel)
  {
    var above := Ancestors(rel);
    for i := 0 to |above|
      invariant forall j | 0 <= j < i :: above[j] !in collapsed
    {
      if above[i] in collapsed {
        assert above[i] in above;
        return true;
      }
    }
    yes := false;
  }

  // ---- the loops ----

  function Of(count: map<Path, nat>, dir: Path): nat {
    if dir in count then count[dir] else 0
  }

  ghost predicate KeepFits(keep: set<Path>, visits: seq<Visit>) {
    forall a :: a in keep <==> Held(visits, a)
  }

  ghost predicate CountFits(count: map<Path, nat>, visits: seq<Visit>) {
    forall a :: Of(count, a) == LeftUnder(visits, a)
  }

  lemma KeepAfter(keep: set<Path>, before: seq<Visit>, v: Visit, more: set<Path>)
    requires KeepFits(keep, before)
    requires forall a :: a in more <==> a in keep || (Shows(v) && Beneath(a, v.rel))
    ensures KeepFits(more, before + [v])
  {
    forall a ensures a in more <==> Held(before + [v], a) {
      if Held(before, a) {
        var u :| u in before && Shows(u) && Beneath(a, u.rel);
        assert u in before + [v];
      }
      assert v in before + [v];
    }
  }

  lemma CountAfter(count: map<Path, nat>, before: seq<Visit>, v: Visit, more: map<Path, nat>)
    requires CountFits(count, before)
    requires forall a :: Of(more, a) == Of(count, a) + if Beneath(a, v.rel) then Weight(v) else 0
    ensures CountFits(more, before + [v])
  {
    assert (before + [v])[..|before|] == before;
    forall a ensures Of(more, a) == LeftUnder(before + [v], a) {
      assert Of(count, a) == LeftUnder(before, a);
    }
  }

  /** count[a] += n for every directory a above rel. */
  method CountUp(count: map<Path, nat>, v: Visit, n: nat, ghost before: seq<Visit>)
    returns (more: map<Path, nat>)
    requires CountFits(count, before) && n == Weight(v)
    ensures CountFits(more, before + [v])
  {
    var above := Ancestors(v.rel);
    more := count;
    for i := 0 to |above|
      invariant forall a :: Of(more, a) == Of(count, a) + if a in above[..i] then n else 0
    {
      more := more[above[i] := Of(more, above[i]) + n];
    }
    assert above[..|above|] == above;
    CountAfter(count, before, v, more);
  }

  method KeepAll(keep: set<Path>, v: Visit, ghost before: seq<Visit>) returns (more: set<Path>)
    requires KeepFits(keep, before) && Shows(v)
    ensures KeepFits(more, before + [v])
  {
    var above := Ancestors(v.rel);
    more := keep;
    for i := 0 to |above|
      invariant forall a :: a in more <==> a in keep || a in above[..i]
    {
      more := more + {above[i]};
    }
    assert above[..|above|] == above;
    KeepAfter(keep, before, v, more);
  }

  function DirVisits(visits: seq<Visit>): seq<Visit> {
    if visits == [] then []
    else
      var front, last := DirVisits(visits[..|visits| - 1]), visits[|visits| - 1];
      if IsDirectory(last) then front + [last] else front
  }

  function EntryOf(v: Visit): Entry {
    Entry(v.rel + [SLASH], if v.verdict == PruneDir then v.size else 0, v.verdict == Nested)
  }

  function Rels(visits: seq<Visit>): seq<Path> {
    seq(|visits|, i requires 0 <= i < |visits| => visits[i].rel)
  }

  datatype Ledger = Ledger(synced: seq<Path>, skipped: seq<Path>, dirs: map<Path, Entry>,
                           dirOrder: seq<Path>, keep: set<Path>, count: map<Path, nat>)

  ghost predicate ListsFit(l: Ledger, visits: seq<Visit>) {
    l.synced == Synced(visits) && l.skipped == SkippedRels(visits) && l.dirOrder == Rels(DirVisits(visits))
  }

  ghost predicate DirsFit(l: Ledger, visits: seq<Visit>) {
    forall v | v in visits && IsDirectory(v) :: v.rel in l.dirs && l.dirs[v.rel] == EntryOf(v)
  }

  ghost predicate Books(l: Ledger, visits: seq<Visit>) {
    ListsFit(l, visits) && DirsFit(l, visits) && KeepFits(l.keep, visits) && CountFits(l.count, visits)
  }

  lemma ListsAfter(before: seq<Visit>, v: Visit)
    ensures Synced(before + [v]) == Synced(before) + if v.verdict in {Sync, SyncLink} then [v.rel] else []
    ensures SkippedRels(before + [v]) == SkippedRels(before) + if v.verdict == SkipFile then [v.rel] else []
    ensures Rels(DirVisits(before + [v])) == Rels(DirVisits(before)) + if IsDirectory(v) then [v.rel] else []
  {
    assert (before + [v])[..|before|] == before;
    SyncedAppend(before, [v]);
  }

  lemma DirsAfter(l: Ledger, before: seq<Visit>, v: Visit, m: Ledger)
    requires DirsFit(l, before) && forall u | u in before :: u.rel != v.rel
    requires m.dirs == if IsDirectory(v) then l.dirs[v.rel := EntryOf(v)] else l.dirs
    ensures DirsFit(m, before + [v])
  {
    assert forall u | u in before + [v] :: u in before || u == v;
  }

  /** What the walk's callback does with one entry. */
  method Note(l: Ledger, v: Visit, ghost before: seq<Visit>) returns (m: Ledger)
    requires Books(l, before) && forall u | u in before :: u.rel != v.rel
    ensures Books(m, before + [v])
  {
    ListsAfter(before, v);
    if !Shows(v) {
      KeepAfter(l.keep, before, v, l.keep);
    }
    if Weight(v) == 0 {
      CountAfter(l.count, before, v, l.count);
    }
    match v.verdict {
      case Sync | SyncLink =>
        var keep := KeepAll(l.keep, v, before);
        m := l.(synced := l.synced + [v.rel], keep := keep);
      case SkipFile =>
        var count := CountUp(l.count, v, 1, before);
        m := l.(skipped := l.skipped + [v.rel], count := count);
      case Descend =>
        m := l.(dirs := l.dirs[v.rel := Entry(v.rel + [SLASH], 0, false)], dirOrder := l.dirOrder + [v.rel]);
      case PruneDir =>
        var count := CountUp(l.count, v, v.size, before);
        m := l.(dirs := l.dirs[v.rel := Entry(v.rel + [SLASH], v.size, false)],
                dirOrder := l.dirOrder + [v.rel], count := count);
      case Nested =>
        var keep := KeepAll(l.keep, v, before);
        m := l.(dirs := l.dirs[v.rel := Entry(v.rel + [SLASH], 0, true)],
                dirOrder := l.dirOrder + [v.rel], keep := keep);
    }
    DirsAfter(l, before, v, m);
  }

  method Collect(visits: seq<Visit>) returns (l: Ledger)
    requires ParentsFirst(visits)
    ensures Books(l, visits)
  {
    l := Ledger([], [], map[], [], {}, map[]);
    for i := 0 to |visits|
      invariant Books(l, visits[..i])
    {
      forall u | u in visits[..i] ensures u.rel != visits[i].rel {
        var k :| 0 <= k < i && visits[k] == u;
        assert !AtOrBeneath(visits[i].rel, visits[k].rel);
      }
      assert visits[..i + 1] == visits[..i] + [visits[i]];
      l := Note(l, visits[i], visits[..i]);
    }
    assert visits[..|visits|] == visits;
  }

  lemma {:induction false} TopsOfDirs(all: seq<Visit>, visits: seq<Visit>)
    ensures Tops(all, visits) == Tops(all, DirVisits(visits))
  {
    if visits != [] {
      var front, last := visits[..|visits| - 1], visits[|visits| - 1];
      TopsOfDirs(all, front);
      if IsDirectory(last) {
        assert (DirVisits(front) + [last])[..|DirVisits(front)|] == DirVisits(front);
      }
    }
  }

  lemma {:induction false} DirVisitsIn(visits: seq<Visit>)
    ensures forall v :: v in DirVisits(visits) <==> v in visits && IsDirectory(v)
  {
    if visits != [] {
      assert visits == visits[..|visits| - 1] + [visits[|visits| - 1]];
      DirVisitsIn(visits[..|visits| - 1]);
    }
  }

  ghost predicate IsTops(collapsed: set<Path>, tops: seq<Visit>) {
    forall a :: a in collapsed <==> exists t | t in tops :: t.rel == a
  }

  /** The walk's directories, the first i of which are done. */
  ghost predicate Collapsing(visits: seq<Visit>, i: nat, collapsed: set<Path>, lines: seq<Entry>)
    requires i <= |DirVisits(visits)|
  {
    var tops := Tops(visits, DirVisits(visits)[..i]);
    IsTops(collapsed, tops) && lines == DirLines(visits, tops)
  }

  lemma TopsStep(visits: seq<Visit>, i: nat)
    requires i < |DirVisits(visits)|
    ensures var ds := DirVisits(visits);
            var tops, v := Tops(visits, ds[..i]), ds[i];
            && v in visits && IsDirectory(v)
            && Tops(visits, ds[..i + 1]) == if Held(visits, v.rel) || Covered(tops, v.rel) then tops else tops + [v]
  {
    var ds := DirVisits(visits);
    DirVisitsIn(visits);
    assert ds[i] in ds && ds[..i + 1][..i] == ds[..i];
  }

  lemma DirLinesMore(all: seq<Visit>, tops: seq<Visit>, v: Visit)
    ensures DirLines(all, tops + [v]) == DirLines(all, tops) + [Line(all, v)]
  {
    assert (tops + [v])[..|tops|] == tops;
  }

  lemma TopsMore(collapsed: set<Path>, tops: seq<Visit>, v: Visit)
    requires IsTops(collapsed, tops)
    ensures IsTops(collapsed + {v.rel}, tops + [v])
  {
    forall a ensures a in collapsed + {v.rel} <==> exists t | t in tops + [v] :: t.rel == a {
      if t :| t in tops && t.rel == a {
        assert t in tops + [v];
      }
      assert v in tops + [v];
    }
  }

  /** One directory of the collapse. */
  method CollapseDir(l: Ledger, ghost visits: seq<Visit>, i: nat, collapsed: set<Path>, lines: seq<Entry>)
    returns (c: set<Path>, ls: seq<Entry>)
    requires Books(l, visits) && i < |l.dirOrder| && Collapsing(visits, i, collapsed, lines)
    ensures Collapsing(visits, i + 1, c, ls)
  {
    var rel := l.dirOrder[i];
    ghost var v := DirVisits(visits)[i];
    ghost var tops := Tops(visits, DirVisits(visits)[..i]);
    TopsStep(visits, i);
    var under := UnderCollapsed(rel, collapsed);
    assert rel == v.rel && under == Covered(tops, rel);
    c, ls := collapsed, lines;
    if !(rel in l.keep || under) {
      var e := l.dirs[rel];
      if !e.nested && e.files == 0 {
        e := e.(files := Of(l.count, rel));
      }
      assert e == Line(visits, v);
      DirLinesMore(visits, tops, v);
      TopsMore(collapsed, tops, v);
      c, ls := collapsed + {rel}, lines + [e];
    }
  }

  method CollapseDirs(l: Ledger, ghost visits: seq<Visit>) returns (collapsed: set<Path>, lines: seq<Entry>)
    requires Books(l, visits)
    ensures IsTops(collapsed, Tops(visits, visits)) && lines == DirLines(visits, Tops(visits, visits))
  {
    collapsed, lines := {}, [];
    for i := 0 to |l.dirOrder|
      invariant Collapsing(visits, i, collapsed, lines)
    {
      collapsed, lines := CollapseDir(l, visits, i, collapsed, lines);
    }
    ghost var ds := DirVisits(visits);
    assert ds[..|ds|] == ds;
    TopsOfDirs(visits, visits);
  }

  method ListFiles(skipped: seq<Path>, collapsed: set<Path>, ghost tops: seq<Visit>) returns (lines: seq<Entry>)
    requires IsTops(collapsed, tops)
    ensures lines == FileLines(tops, skipped)
  {
    lines := [];
    for i := 0 to |skipped|
      invariant lines == FileLines(tops, skipped[..i])
    {
      assert skipped[..i + 1][..i] == skipped[..i];
      var under := UnderCollapsed(skipped[i], collapsed);
      assert under == Covered(tops, skipped[i]);
      if !under {
        lines := lines + [Entry(skipped[i], 0, false)];
      }
    }
    assert skipped[..|skipped|] == skipped;
  }

  // ---- the sorts ----

  /** No element comes after one whose key is greater. */
  ghost predicate Ordered<T>(key: T -> Path, xs: seq<T>) {
    forall i, j | 0 <= i < j < |xs| :: !BytesLess(key(xs[j]), key(xs[i]))
  }

  /** x in front of the first element with a greater key. */
  function Insert<T>(key: T -> Path, xs: seq<T>, x: T): (r: seq<T>)
    ensures |r| == |xs| + 1
  {
    if xs == [] then [x]
    else if BytesLess(key(x), key(xs[0])) then [x] + xs
    else [xs[0]] + Insert(key, xs[1..], x)
  }

  lemma {:induction false} InsertSame<T>(key: T -> Path, xs: seq<T>, x: T)
    ensures multiset(Insert(key, xs, x)) == multiset(xs) + multiset{x}
  {
    if xs != [] {
      InsertSame(key, xs[1..], x);
      assert xs == [xs[0]] + xs[1..];
    }
  }

  lemma NotLessTrans(a: Path, b: Path, c: Path)
    requires !BytesLess(b, a) && !BytesLess(c, b)
    ensures !BytesLess(c, a)
  {
    BytesLessTotal(a, b);
    BytesLessTotal(b, c);
    if BytesLess(c, a) && a != b && b != c {
      BytesLessTrans(b, c, a);
    }
  }

  lemma {:induction false} InsertOrdered<T>(key: T -> Path, xs: seq<T>, x: T)
    requires Ordered(key, xs)
    ensures Ordered(key, Insert(key, xs, x))
  {
    if xs != [] {
      var head, rest := xs[0], xs[1..];
      var r := Insert(key, rest, x);
      InsertOrdered(key, rest, x);
      BytesLessTotal(key(x), key(head));
      BytesLessTotal(key(head), key(head));
      if BytesLess(key(x), key(head)) {
        forall j | 0 <= j < |xs| ensures !BytesLess(key(xs[j]), key(x)) {
          NotLessTrans(key(x), key(head), key(xs[j]));
        }
      } else {
        InsertSame(key, rest, x);
        forall j | 0 <= j < |r| ensures !BytesLess(key(r[j]), key(head)) {
          assert r[j] in multiset(r);
          if r[j] != x {
            var k :| 0 <= k < |rest| && rest[k] == r[j];
            assert xs[k + 1] == r[j];
          }
        }
      }
    }
  }

  method SortBy<T>(key: T -> Path, xs: seq<T>) returns (r: seq<T>)
    ensures Ordered(key, r) && multiset(r) == multiset(xs)
  {
    r := [];
    for i := 0 to |xs|
      invariant Ordered(key, r) && multiset(r) == multiset(xs[..i])
    {
      InsertOrdered(key, r, xs[i]);
      InsertSame(key, r, xs[i]);
      r := Insert(key, r, xs[i]);
      assert xs[..i + 1] == xs[..i] + [xs[i]];
    }
    assert xs[..|xs|] == xs;
  }

  method Explain(visits: seq<Visit>) returns (synced: seq<Path>, notSynced: seq<Entry>)
    requires ParentsFirst(visits)
    ensures multiset(synced) == multiset(Synced(visits)) && Ordered((rel: Path) => rel, synced)
    ensures multiset(notSynced) == multiset(Lines(visits)) && Ordered((e: Entry) => e.path, notSynced)
  {
    var l := Collect(visits);
    var collapsed, dirLines := CollapseDirs(l, visits);
    var fileLines := ListFiles(l.skipped, collapsed, Tops(visits, visits));
    synced := SortBy((rel: Path) => rel, l.synced);
    notSynced := SortBy((e: Entry) => e.path, dirLines + fileLines);
  }
}
