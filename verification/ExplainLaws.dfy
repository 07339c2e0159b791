/** Nothing is counted twice, nothing is lost, and no collapsed directory hides
    a file that syncs. */
module ExplainLaws {
  import opened Text
  import opened IgnoreFilter
  import opened Walk
  import opened Explain

  // ---- the collapsed directories ----

  ghost predicate Antichain(tops: seq<Visit>) {
    forall i, j | 0 <= i < |tops| && 0 <= j < |tops| && i != j :: !AtOrBeneath(tops[i].rel, tops[j].rel)
  }

  lemma {:induction false} TopsAreDirs(all: seq<Visit>, visits: seq<Visit>)
    ensures forall t | t in Tops(all, visits) :: t in visits && IsDirectory(t) && !Held(all, t.rel)
  {
    if visits != [] {
      assert visits == visits[..|visits| - 1] + [visits[|visits| - 1]];
      TopsAreDirs(all, visits[..|visits| - 1]);
    }
  }

  lemma AntichainMore(tops: seq<Visit>, last: Visit)
    requires Antichain(tops) && !Covered(tops, last.rel)
    requires forall t | t in tops :: !AtOrBeneath(last.rel, t.rel)
    ensures Antichain(tops + [last])
  {
    var more := tops + [last];
    forall i, j | 0 <= i < |more| && 0 <= j < |more| && i != j ensures !AtOrBeneath(more[i].rel, more[j].rel) {
      assert i < |tops| ==> more[i] in tops;
      assert j < |tops| ==> more[j] in tops;
    }
  }

  lemma {:induction false} TopsAntichain(all: seq<Visit>, visits: seq<Visit>)
    requires ParentsFirst(visits)
    ensures Antichain(Tops(all, visits))
  {
    if visits != [] {
      var front, last := visits[..|visits| - 1], visits[|visits| - 1];
      TopsAntichain(all, front);
      TopsAreDirs(all, front);
      forall t | t in Tops(all, front) ensures !AtOrBeneath(last.rel, t.rel) {
        var k :| 0 <= k < |front| && front[k] == t;
        assert visits[k] == t;
      }
      if !Covered(Tops(all, front), last.rel) {
        AntichainMore(Tops(all, front), last);
      }
    }
  }

  lemma {:induction false} TopsCover(all: seq<Visit>, visits: seq<Visit>)
    ensures forall v | v in visits && IsDirectory(v) && !Held(all, v.rel) ::
              v in Tops(all, visits) || Covered(Tops(all, visits), v.rel)
  {
    if visits != [] {
      var front, last := visits[..|visits| - 1], visits[|visits| - 1];
      assert visits == front + [last];
      TopsCover(all, front);
      assert forall t | t in Tops(all, front) :: t in Tops(all, visits);
      forall v | v in visits && IsDirectory(v) && !Held(all, v.rel)
        ensures v in Tops(all, visits) || Covered(Tops(all, visits), v.rel)
      {
        if Covered(Tops(all, front), v.rel) {
          var t :| t in Tops(all, front) && Beneath(t.rel, v.rel);
          assert t in Tops(all, visits);
        }
      }
    }
  }

  lemma Comparable(a: Path, b: Path, p: Path)
    requires AtOrBeneath(a, p) && AtOrBeneath(b, p)
    ensures AtOrBeneath(a, b) || AtOrBeneath(b, a)
  {
    if |a| < |b| {
      assert b[..|a| + 1] == p[..|a| + 1] == a + [SLASH];
    } else if |b| < |a| {
      assert a[..|b| + 1] == p[..|b| + 1] == b + [SLASH];
    } else {
      assert a == p[..|a|] == b;
    }
  }

  /** How many collapsed directories hold p. */
  function Hits(tops: seq<Visit>, p: Path): nat {
    if tops == [] then 0
    else Hits(tops[..|tops| - 1], p) + if AtOrBeneath(tops[|tops| - 1].rel, p) then 1 else 0
  }

  lemma {:induction false} AtMostOne(tops: seq<Visit>, p: Path)
    requires Antichain(tops)
    ensures Hits(tops, p) == if exists t :: t in tops && AtOrBeneath(t.rel, p) then 1 else 0
  {
    if tops != [] {
      var front, last := tops[..|tops| - 1], tops[|tops| - 1];
      assert tops == front + [last];
      AtMostOne(front, p);
      if AtOrBeneath(last.rel, p) {
        forall k | 0 <= k < |front| ensures !AtOrBeneath(front[k].rel, p) {
          assert tops[k] == front[k];
          if AtOrBeneath(front[k].rel, p) {
            Comparable(front[k].rel, last.rel, p);
          }
        }
      }
    }
  }

  // ---- counting ----

  function LeftWithin(visits: seq<Visit>, dir: Path): nat {
    if visits == [] then 0
    else
      var last := visits[|visits| - 1];
      LeftWithin(visits[..|visits| - 1], dir) + if AtOrBeneath(dir, last.rel) then Weight(last) else 0
  }

  function LeftIn(tops: seq<Visit>, visits: seq<Visit>): nat {
    if tops == [] then 0 else LeftIn(tops[..|tops| - 1], visits) + LeftWithin(visits, tops[|tops| - 1].rel)
  }

  lemma {:induction false} LeftInStep(tops: seq<Visit>, front: seq<Visit>, last: Visit)
    ensures LeftIn(tops, front + [last]) == LeftIn(tops, front) + Hits(tops, last.rel) * Weight(last)
  {
    if tops != [] {
      LeftInStep(tops[..|tops| - 1], front, last);
      assert (front + [last])[..|front|] == front;
      var h := Hits(tops[..|tops| - 1], last.rel);
      assert (h + 1) * Weight(last) == h * Weight(last) + Weight(last);
    }
  }

  lemma {:induction false} LeftInNothing(tops: seq<Visit>)
    ensures LeftIn(tops, []) == 0
  {
    if tops != [] {
      LeftInNothing(tops[..|tops| - 1]);
    }
  }

  /** Every unsynced file is in exactly one collapsed directory or listed. */
  lemma {:induction false} EachCountedOnce(tops: seq<Visit>, visits: seq<Visit>)
    requires Antichain(tops)
    requires forall v | v in visits && v.verdict == PruneDir :: exists t :: t in tops && AtOrBeneath(t.rel, v.rel)
    requires forall v, t | v in visits && t in tops && v.verdict == SkipFile :: v.rel != t.rel
    ensures LeftIn(tops, visits) + |FileLines(tops, SkippedRels(visits))| == Left(visits)
  {
    if visits == [] {
      LeftInNothing(tops);
    } else {
      var front, last := visits[..|visits| - 1], visits[|visits| - 1];
      assert visits == front + [last];
      EachCountedOnce(tops, front);
      LeftInStep(tops, front, last);
      AtMostOne(tops, last.rel);
    }
  }

  lemma {:induction false} WithinIsOwnAndUnder(visits: seq<Visit>, t: Visit)
    requires ParentsFirst(visits) && forall v | v in visits && v.rel == t.rel :: v == t
    ensures LeftWithin(visits, t.rel) == LeftUnder(visits, t.rel) + if t in visits then Weight(t) else 0
  {
    if visits != [] {
      var front, last := visits[..|visits| - 1], visits[|visits| - 1];
      assert visits == front + [last];
      WithinIsOwnAndUnder(front, t);
      if last == t {
        assert t !in front by {
          forall k | 0 <= k < |front| ensures front[k] != t {
            assert visits[k] == front[k] && !AtOrBeneath(last.rel, visits[k].rel);
          }
        }
      }
    }
  }

  lemma {:induction false} NothingUnder(visits: seq<Visit>, dir: Path)
    requires forall v | v in visits :: !Beneath(dir, v.rel)
    ensures LeftUnder(visits, dir) == 0
  {
    if visits != [] {
      assert visits == visits[..|visits| - 1] + [visits[|visits| - 1]];
      NothingUnder(visits[..|visits| - 1], dir);
    }
  }

  /** The count on a collapsed line is all that is left out at or under it. */
  lemma LineCounts(all: seq<Visit>, t: Visit)
    requires ParentsFirst(all) && OnlyEntered(all) && t in all && IsDirectory(t)
    ensures Line(all, t).files == LeftWithin(all, t.rel)
  {
    var k :| 0 <= k < |all| && all[k] == t;
    forall v | v in all && v.rel == t.rel ensures v == t {
      if v != t {
        Distinct(all, v, t);
      }
    }
    WithinIsOwnAndUnder(all, t);
    if t.verdict != Descend {
      forall v | v in all ensures !Beneath(t.rel, v.rel) {
        var j :| 0 <= j < |all| && all[j] == v;
      }
      NothingUnder(all, t.rel);
    }
  }

  lemma {:induction false} FilesAppend(a: seq<Entry>, b: seq<Entry>)
    ensures Files(a + b) == Files(a) + Files(b)
  {
    if b == [] {
      assert a + b == a;
    } else {
      assert (a + b)[..|a + b| - 1] == a + b[..|b| - 1];
      FilesAppend(a, b[..|b| - 1]);
    }
  }

  lemma {:induction false} DirLinesFiles(all: seq<Visit>, tops: seq<Visit>)
    requires ParentsFirst(all) && OnlyEntered(all)
    requires forall t | t in tops :: t in all && IsDirectory(t)
    ensures Files(DirLines(all, tops)) == LeftIn(tops, all)
  {
    if tops != [] {
      var front, last := tops[..|tops| - 1], tops[|tops| - 1];
      assert tops == front + [last];
      DirLinesFiles(all, front);
      LineCounts(all, last);
      FilesAppend(DirLines(all, front), [Line(all, last)]);
      assert Line(all, last).IsDir();
      assert Files([Line(all, last)]) == Line(all, last).files;
    }
  }

  /** Walked paths do not end in a slash. */
  ghost predicate Trimmed(visits: seq<Visit>) {
    forall v | v in visits :: !HasSuffix(v.rel, [SLASH])
  }

  lemma {:induction false} FileLinesFiles(tops: seq<Visit>, skipped: seq<Path>)
    requires forall rel | rel in skipped :: !HasSuffix(rel, [SLASH])
    ensures Files(FileLines(tops, skipped)) == |FileLines(tops, skipped)|
  {
    if skipped != [] {
      var front, last := skipped[..|skipped| - 1], skipped[|skipped| - 1];
      assert skipped == front + [last];
      FileLinesFiles(tops, front);
      FilesAppend(FileLines(tops, front), [Entry(last, 0, false)]);
      assert !Entry(last, 0, false).IsDir();
      assert Files([Entry(last, 0, false)]) == 1;
    }
  }

  lemma {:induction false} SkippedAre(visits: seq<Visit>)
    ensures forall rel :: rel in SkippedRels(visits) <==>
              exists v :: v in visits && v.verdict == SkipFile && v.rel == rel
  {
    if visits != [] {
      assert visits == visits[..|visits| - 1] + [visits[|visits| - 1]];
      SkippedAre(visits[..|visits| - 1]);
    }
  }

  /** NotSyncedFiles of the collapsed list is exactly the files skipped plus
      the files in pruned directories. */
  lemma CollapseConserves(visits: seq<Visit>)
    requires ParentsFirst(visits) && OnlyEntered(visits) && Trimmed(visits)
    ensures Files(Lines(visits)) == Left(visits)
  {
    var tops := Tops(visits, visits);
    TopsAreDirs(visits, visits);
    TopsAntichain(visits, visits);
    TopsCover(visits, visits);
    forall v | v in visits && v.verdict == PruneDir ensures exists t :: t in tops && AtOrBeneath(t.rel, v.rel) {
      PrunedNotHeld(visits, v);
      if v in tops {
        assert AtOrBeneath(v.rel, v.rel);
      }
    }
    forall v, t | v in visits && t in tops && v.verdict == SkipFile ensures v.rel != t.rel {
      Distinct(visits, v, t);
    }
    EachCountedOnce(tops, visits);
    DirLinesFiles(visits, tops);
    SkippedAre(visits);
    FileLinesFiles(tops, SkippedRels(visits));
    FilesAppend(DirLines(visits, tops), FileLines(tops, SkippedRels(visits)));
  }

  lemma Distinct(visits: seq<Visit>, v: Visit, t: Visit)
    requires ParentsFirst(visits) && v in visits && t in visits && v != t
    ensures v.rel != t.rel
  {
    var j :| 0 <= j < |visits| && visits[j] == v;
    var k :| 0 <= k < |visits| && visits[k] == t;
    assert j < k ==> !AtOrBeneath(visits[k].rel, visits[j].rel);
    assert k < j ==> !AtOrBeneath(visits[j].rel, visits[k].rel);
  }

  lemma PrunedNotHeld(visits: seq<Visit>, v: Visit)
    requires OnlyEntered(visits) && v in visits && v.verdict != Descend
    ensures !Held(visits, v.rel)
  {
    var j :| 0 <= j < |visits| && visits[j] == v;
    forall u | u in visits ensures !Beneath(v.rel, u.rel) {
      var k :| 0 <= k < |visits| && visits[k] == u;
    }
  }

  // ---- what the lines show ----

  lemma {:induction false} DirLinesAre(all: seq<Visit>, tops: seq<Visit>)
    ensures forall e :: e in DirLines(all, tops) <==> exists t :: t in tops && e == Line(all, t)
  {
    if tops != [] {
      assert tops == tops[..|tops| - 1] + [tops[|tops| - 1]];
      DirLinesAre(all, tops[..|tops| - 1]);
    }
  }

  lemma {:induction false} FileLinesAre(tops: seq<Visit>, skipped: seq<Path>)
    ensures forall e :: e in FileLines(tops, skipped) <==>
              exists rel :: rel in skipped && !Covered(tops, rel) && e == Entry(rel, 0, false)
  {
    if skipped != [] {
      assert skipped == skipped[..|skipped| - 1] + [skipped[|skipped| - 1]];
      FileLinesAre(tops, skipped[..|skipped| - 1]);
    }
  }

  lemma LinesHideNothing(visits: seq<Visit>)
    requires ParentsFirst(visits) && OnlyEntered(visits) && Trimmed(visits)
    ensures forall e, v | e in Lines(visits) && e.IsDir() && v in visits && Shows(v) :: !(e.path <= v.rel)
    ensures forall v | v in visits && v.verdict == Nested :: Entry(v.rel + [SLASH], 0, true) in Lines(visits)
    ensures forall v | v in visits && v.verdict == SkipFile ::
              Entry(v.rel, 0, false) in Lines(visits)
              || exists e :: e in Lines(visits) && e.IsDir() && e.path <= v.rel
  {
    var tops := Tops(visits, visits);
    TopsAreDirs(visits, visits);
    TopsAntichain(visits, visits);
    TopsCover(visits, visits);
    DirLinesAre(visits, tops);
    SkippedAre(visits);
    FileLinesAre(tops, SkippedRels(visits));
    forall e, v | e in Lines(visits) && e.IsDir() && v in visits && Shows(v) ensures !(e.path <= v.rel) {
      if e in DirLines(visits, tops) {
        var t :| t in tops && e == Line(visits, t);
        assert !Held(visits, t.rel);
      }
    }
    forall v | v in visits && v.verdict == Nested ensures Entry(v.rel + [SLASH], 0, true) in Lines(visits) {
      PrunedNotHeld(visits, v);
      forall t | t in tops ensures !Beneath(t.rel, v.rel) {
        assert !Held(visits, t.rel);
      }
      assert Line(visits, v) == Entry(v.rel + [SLASH], 0, true);
    }
    forall v | v in visits && v.verdict == SkipFile
      ensures Entry(v.rel, 0, false) in Lines(visits)
              || exists e :: e in Lines(visits) && e.IsDir() && e.path <= v.rel
    {
      if Covered(tops, v.rel) {
        var t :| t in tops && Beneath(t.rel, v.rel);
        assert Line(visits, t) in Lines(visits) && Line(visits, t).IsDir();
      }
    }
  }

  /** A line that stands for a directory hides no file that syncs and no mount
      of its own; every such mount has its own line; every skipped file is on
      a line, its own or that of one directory above it. */
  lemma CollapseHidesNothing(visits: seq<Visit>, notSynced: seq<Entry>)
    requires ParentsFirst(visits) && OnlyEntered(visits) && Trimmed(visits)
    requires multiset(notSynced) == multiset(Lines(visits))
    ensures forall e, v | e in notSynced && e.IsDir() && v in visits && Shows(v) :: !(e.path <= v.rel)
    ensures forall v | v in visits && v.verdict == Nested :: Entry(v.rel + [SLASH], 0, true) in notSynced
    ensures forall v | v in visits && v.verdict == SkipFile ::
              Entry(v.rel, 0, false) in notSynced
              || exists e :: e in notSynced && e.IsDir() && e.path <= v.rel
  {
    LinesHideNothing(visits);
    forall e ensures e in notSynced <==> e in Lines(visits) {
      assert e in notSynced <==> e in multiset(notSynced);
      assert e in Lines(visits) <==> e in multiset(Lines(visits));
    }
  }

  /** A directory of the walk with nothing in it that syncs and no mount. */
  ghost predicate Hollow(visits: seq<Visit>, v: Visit) {
    && v in visits && v.verdict in {Descend, PruneDir, Nested}
    && forall u | u in visits && u.verdict in {Sync, SyncLink, Nested} :: !Beneath(v.rel, u.rel)
  }

  /** Not in another such directory. */
  ghost predicate Topmost(visits: seq<Visit>, rel: Path) {
    forall w | Hollow(visits, w) :: !Beneath(w.rel, rel)
  }

  lemma TopsAreTopmost(visits: seq<Visit>, v: Visit)
    requires ParentsFirst(visits)
    ensures v in Tops(visits, visits) <==> Hollow(visits, v) && Topmost(visits, v.rel)
  {
    var tops := Tops(visits, visits);
    TopsAreDirs(visits, visits);
    TopsAntichain(visits, visits);
    TopsCover(visits, visits);
    forall t | t in tops ensures Hollow(visits, t) {
      assert !Held(visits, t.rel);
    }
    if v in tops {
      forall w | Hollow(visits, w) ensures !Beneath(w.rel, v.rel) {
        HollowApart(visits, tops, w, v);
      }
    } else if Hollow(visits, v) {
      assert !Held(visits, v.rel);
      var t :| t in tops && Beneath(t.rel, v.rel);
      assert Hollow(visits, t);
    }
  }

  lemma HollowApart(visits: seq<Visit>, tops: seq<Visit>, w: Visit, v: Visit)
    requires Hollow(visits, w) && v in tops && Antichain(tops)
    requires Held(visits, w.rel) || w in tops || Covered(tops, w.rel)
    ensures !Beneath(w.rel, v.rel)
  {
    assert !Held(visits, w.rel);
    var t :| t in tops && AtOrBeneath(t.rel, w.rel);
    var i :| 0 <= i < |tops| && tops[i] == t;
    var j :| 0 <= j < |tops| && tops[j] == v;
    assert Beneath(w.rel, v.rel) ==> AtOrBeneath(t.rel, v.rel) && |t.rel| < |v.rel|;
  }

  /** What the list shows, and nothing else: the topmost directories of which
      nothing syncs, each with the number of files it leaves out, and the
      skipped files in none of these. */
  lemma CollapseIsTopmost(visits: seq<Visit>, notSynced: seq<Entry>, e: Entry)
    requires ParentsFirst(visits) && OnlyEntered(visits)
    requires multiset(notSynced) == multiset(Lines(visits))
    ensures e in notSynced <==>
              || (exists v :: Hollow(visits, v) && Topmost(visits, v.rel)
                    && e == Entry(v.rel + [SLASH], LeftWithin(visits, v.rel), v.verdict == Nested))
              || (exists v :: v in visits && v.verdict == SkipFile && Topmost(visits, v.rel)
                    && e == Entry(v.rel, 0, false))
  {
    var tops := Tops(visits, visits);
    DirLinesAre(visits, tops);
    SkippedAre(visits);
    FileLinesAre(tops, SkippedRels(visits));
    forall v ensures v in tops <==> Hollow(visits, v) && Topmost(visits, v.rel) {
      TopsAreTopmost(visits, v);
    }
    forall v | v in tops
      ensures Line(visits, v) == Entry(v.rel + [SLASH], LeftWithin(visits, v.rel), v.verdict == Nested)
    {
      LineCounts(visits, v);
    }
    forall rel ensures Covered(tops, rel) <==> !Topmost(visits, rel) {
      CoveredIff(visits, tops, rel);
    }
    assert e in notSynced <==> e in multiset(notSynced);
    assert e in Lines(visits) <==> e in multiset(Lines(visits));
  }

  lemma CoveredIff(visits: seq<Visit>, tops: seq<Visit>, rel: Path)
    requires ParentsFirst(visits) && tops == Tops(visits, visits)
    ensures Covered(tops, rel) <==> !Topmost(visits, rel)
  {
    TopsAreDirs(visits, visits);
    TopsCover(visits, visits);
    if Covered(tops, rel) {
      var t :| t in tops && Beneath(t.rel, rel);
      assert !Held(visits, t.rel) && Hollow(visits, t);
    }
    if w :| Hollow(visits, w) && Beneath(w.rel, rel) {
      assert !Held(visits, w.rel);
      assert w in tops || Covered(tops, w.rel);
    }
  }

  // ---- the order of the list does not matter ----

  function FilesOf(e: Entry): nat {
    if e.IsDir() then e.files else 1
  }

  lemma {:induction false} FilesWithout(entries: seq<Entry>, k: nat)
    requires k < |entries|
    ensures Files(entries) == Files(entries[..k] + entries[k + 1..]) + FilesOf(entries[k])
  {
    var n := |entries| - 1;
    var rest := entries[..k] + entries[k + 1..];
    if k == n {
      assert rest == entries[..n];
    } else {
      FilesWithout(entries[..n], k);
      assert rest[..n - 1] == entries[..n][..k] + entries[..n][k + 1..];
      assert rest[n - 1] == entries[n];
    }
  }

  lemma WithoutAt<T>(xs: seq<T>, k: nat)
    requires k < |xs|
    ensures multiset(xs[..k] + xs[k + 1..]) == multiset(xs) - multiset{xs[k]}
  {
    assert xs == xs[..k] + [xs[k]] + xs[k + 1..];
  }

  lemma LastElsewhere<T>(a: seq<T>, b: seq<T>) returns (k: nat)
    requires a != [] && multiset(a) == multiset(b)
    ensures k < |b| && b[k] == a[|a| - 1]
    ensures multiset(a[..|a| - 1]) == multiset(b[..k] + b[k + 1..])
  {
    var n := |a| - 1;
    WithoutAt(a, n);
    assert a[..n] + a[n + 1..] == a[..n];
    assert a[n] in multiset(b);
    k :| 0 <= k < |b| && b[k] == a[n];
    WithoutAt(b, k);
  }

  lemma {:induction false} FilesOfSame(a: seq<Entry>, b: seq<Entry>)
    requires multiset(a) == multiset(b)
    ensures Files(a) == Files(b)
    decreases |a|
  {
    if a == [] {
      assert |multiset(b)| == 0;
    } else {
      var k := LastElsewhere(a, b);
      FilesWithout(b, k);
      FilesOfSame(a[..|a| - 1], b[..k] + b[k + 1..]);
    }
  }

  // ---- over every tree ----

  lemma {:induction false} VisitsTrimmed(p: Policy, s: Scope, dir: Path, l: Listing)
    requires Proper(l)
    ensures Trimmed(Visits(p, s, dir, l))
    decreases l
  {
    match l
    case End =>
    case File(name, _, next) =>
      VisitsTrimmed(p, s, dir, next);
      assert At(dir, name)[|At(dir, name)| - 1] == name[|name| - 1];
    case Dir(name, inside, next) =>
      VisitsTrimmed(p, s, dir, next);
      VisitsTrimmed(p, s, At(dir, name), inside);
      assert At(dir, name)[|At(dir, name)| - 1] == name[|name| - 1];
  }

  function InMounts(visits: seq<Visit>): nat {
    if visits == [] then 0
    else
      var last := visits[|visits| - 1];
      InMounts(visits[..|visits| - 1]) + if last.verdict == Nested then last.size else 0
  }

  /** What a walk accounts for. */
  function Tally(visits: seq<Visit>): nat {
    |Synced(visits)| + Left(visits) + InMounts(visits)
  }

  lemma {:induction false} TallyAppend(a: seq<Visit>, b: seq<Visit>)
    ensures Tally(a + b) == Tally(a) + Tally(b)
  {
    if b == [] {
      assert a + b == a;
    } else {
      var front, last := b[..|b| - 1], b[|b| - 1];
      TallyAppend(a, front);
      assert b == front + [last];
      assert (a + b)[..|a + b| - 1] == a + front;
      assert a + b == (a + front) + [last];
      SyncedAppend(a + front, [last]);
      SyncedAppend(front, [last]);
    }
  }

  lemma TallyOne(v: Visit)
    ensures Tally([v]) == if v.verdict in {Sync, SyncLink, SkipFile} then 1
                          else if v.verdict in {PruneDir, Nested} then v.size else 0
  {
    var one := [v];
    assert one[..|one| - 1] == [] && one[1..] == [];
    assert Synced(one) == (if v.verdict in {Sync, SyncLink} then [v.rel] else []) + Synced([]);
    assert Left(one) == Weight(v) && InMounts(one) == if v.verdict == Nested then v.size else 0;
  }

  lemma {:induction false} VisitsTally(p: Policy, s: Scope, dir: Path, l: Listing)
    ensures Tally(Visits(p, s, dir, l)) == CountFiles(l)
    decreases l
  {
    match l
    case End =>
    case File(name, kind, next) =>
      var head := Visit(At(dir, name), FileVerdict(p, s, At(dir, name), kind), 1);
      VisitsTally(p, s, dir, next);
      TallyOne(head);
      TallyAppend([head], Visits(p, s, dir, next));
    case Dir(name, inside, next) =>
      var rel := At(dir, name);
      var v := DirVerdict(p, s, rel, name);
      var head := Visit(rel, v, CountFiles(inside));
      var below := if v == Descend then Visits(p, s, rel, inside) else [];
      VisitsTally(p, s, dir, next);
      VisitsTally(p, s, rel, inside);
      TallyOne(head);
      TallyAppend([head], below);
      TallyAppend([head] + below, Visits(p, s, dir, next));
  }

  /** Conservation: in every directory tree each file is counted exactly once,
      as synced, as not synced, or in a mount of its own. */
  lemma ExplainConserves(p: Policy, s: Scope, l: Listing, synced: seq<Path>, notSynced: seq<Entry>)
    requires Proper(l)
    requires var visits := Visits(p, s, [], l);
             multiset(synced) == multiset(Synced(visits)) && multiset(notSynced) == multiset(Lines(visits))
    ensures |synced| + Files(notSynced) + InMounts(Visits(p, s, [], l)) == CountFiles(l)
  {
    var visits := Visits(p, s, [], l);
    VisitsShape(p, s, [], l);
    VisitsTrimmed(p, s, [], l);
    CollapseConserves(visits);
    FilesOfSame(notSynced, Lines(visits));
    assert |synced| == |multiset(synced)| == |multiset(Synced(visits))| == |Synced(visits)|;
    VisitsTally(p, s, [], l);
  }
}
