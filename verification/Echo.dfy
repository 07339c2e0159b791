/** Which watcher events are only the echo of files the sync loop itself just
    wrote. An event is dropped when the disk shows what the cache remembers. */
module Echo {
  import opened Text
  import opened WatchQueue
  import opened WatchRuns
  import IgnoreFilter

  /** What Lstat says of a path; a symbolic link whose target cannot be read
      has none. */
  datatype Entry =
    | Directory
    | Regular(size: nat, mtime: int)
    | Symlink(target: Option<Bytes>, size: nat, mtime: int)
    | Other

  datatype Cached = Cached(link: Bytes, size: nat, mtime: int)

  type Cache = map<Path, Cached>

  /** A folder, by mount-relative path, and the paths on which a system call
      fails for a reason other than their absence. */
  datatype Disk = Disk(entries: map<Path, Entry>, faults: set<Path>)

  /** One callback of a directory walk. */
  datatype Visit = Visit(path: Path, failed: bool)

  /** Whatever holds an entry is a directory. */
  ghost predicate Tree(disk: Disk) {
    forall rel, p | p in disk.entries && Beneath(rel, p) :: rel in disk.entries && disk.entries[rel].Directory?
  }

  predicate Missing(disk: Disk, rel: Path) {
    rel !in disk.faults && rel !in disk.entries
  }

  predicate SameFile(disk: Disk, cache: Cache, rel: Path) {
    && rel in cache && rel !in disk.faults && rel in disk.entries
    && var c := cache[rel];
       match disk.entries[rel]
       case Symlink(target, size, mtime) => target == Some(c.link) && c.size == size && c.mtime == mtime
       case Regular(size, mtime) => c.link == [] && size == c.size && mtime == c.mtime
       case _ => false
  }

  predicate CachedBeneath(cache: Cache, rel: Path) {
    exists p | p in cache :: Beneath(rel, p)
  }

  predicate FileAt(disk: Disk, p: Path) {
    p in disk.entries && !disk.entries[p].Directory?
  }

  /** Every callback of WalkDir on rel: all that is there, or a failure. */
  ghost predicate WalkOf(disk: Disk, rel: Path, visits: seq<Visit>) {
    && (forall v | v in visits && !v.failed :: v.path in disk.entries && AtOrBeneath(rel, v.path))
    && ((exists v | v in visits :: v.failed)
        || (rel in disk.entries
            && forall p | p in disk.entries && AtOrBeneath(rel, p) :: Visit(p, false) in visits))
  }

  predicate WalkFailed(visits: seq<Visit>) {
    exists v | v in visits :: v.failed
  }

  /** A directory whose files are all as cached, with at least one, and with
      every cached file in it still there. */
  predicate Known(disk: Disk, cache: Cache, rel: Path) {
    && (exists p | p in disk.entries :: Beneath(rel, p) && FileAt(disk, p))
    && (forall p | p in disk.entries && Beneath(rel, p) && FileAt(disk, p) :: SameFile(disk, cache, p))
    && (forall p | p in cache && Beneath(rel, p) :: FileAt(disk, p))
  }

  method HasCachedDescendant(cache: Cache, rel: Path) returns (yes: bool)
    ensures yes == CachedBeneath(cache, rel)
  {
    var prefix := rel + [SLASH];
    var keys := cache.Keys;
    while keys != {}
      invariant keys <= cache.Keys
      invariant forall p | p in cache && p !in keys :: !Beneath(rel, p)
      decreases |keys|
    {
      var cachedRel :| cachedRel in keys;
      if prefix <= cachedRel {
        return true;
      }
      keys := keys - {cachedRel};
    }
    yes := false;
  }

  method KnownDirectory(disk: Disk, cache: Cache, rel: Path, visits: seq<Visit>) returns (yes: bool)
    requires Tree(disk) && WalkOf(disk, rel, visits)
    ensures yes <==> !WalkFailed(visits) && Known(disk, cache, rel)
  {
    var prefix := rel + [SLASH];
    var known := false;
    var found: set<Path> := {};
    for i := 0 to |visits|
      invariant forall j | 0 <= j < i :: !visits[j].failed
      invariant forall j | 0 <= j < i && visits[j].path != rel && FileAt(disk, visits[j].path) ::
                  SameFile(disk, cache, visits[j].path) && visits[j].path in found
      invariant forall p | p in found :: Beneath(rel, p) && FileAt(disk, p)
      invariant known <==> found != {}
    {
      var v := visits[i];
      if v.failed {
        assert v in visits;
        return false;
      }
      assert v in visits;
      if v.path != rel && !disk.entries[v.path].Directory? {
        if !(prefix <= v.path) || !SameFile(disk, cache, v.path) {
          return false;
        }
        known := true;
        found := found + {v.path};
      }
    }
    assert !WalkFailed(visits);
    assert forall p :: p in found <==> p in disk.entries && Beneath(rel, p) && FileAt(disk, p) by {
      forall p | p in disk.entries && Beneath(rel, p) && FileAt(disk, p) ensures p in found {
        assert Visit(p, false) in visits;
        var j :| 0 <= j < |visits| && visits[j] == Visit(p, false);
        assert p != rel;
      }
    }
    if !known {
      return false;
    }
    assert exists p :: p in found;
    yes := AllFound(cache, rel, found);
  }

  method AllFound(cache: Cache, rel: Path, found: set<Path>) returns (yes: bool)
    ensures yes <==> forall p | p in cache && Beneath(rel, p) :: p in found
  {
    var prefix := rel + [SLASH];
    var keys := cache.Keys;
    while keys != {}
      invariant keys <= cache.Keys
      invariant forall p | p in cache && p !in keys && Beneath(rel, p) :: p in found
      decreases |keys|
    {
      var cachedRel :| cachedRel in keys;
      if prefix <= cachedRel && cachedRel !in found {
        return false;
      }
      keys := keys - {cachedRel};
    }
    yes := true;
  }

  /** filepath.Rel for clean absolute paths, with "outside or the folder
      itself" as None. */
  function RelTo(folder: Path, path: Path): Option<Path> {
    var prefix := if folder == [SLASH] then folder else folder + [SLASH];
    if prefix <= path && prefix != path then Some(path[|prefix|..]) else None
  }

  lemma RelIs(folder: Path, path: Path, rel: Path)
    ensures RelTo(folder, path) == Some(rel) <==>
              rel != [] && path == (if folder == [SLASH] then [SLASH] + rel else folder + [SLASH] + rel)
  {
    var prefix := if folder == [SLASH] then folder else folder + [SLASH];
    assert prefix <= path ==> path == prefix + path[|prefix|..];
    assert (prefix + rel)[|prefix|..] == rel;
  }

  /** The outside world of one judgment: the disk, what LoadCache answered
      (nothing when it failed), and the walk that WalkDir makes of a path. */
  datatype Sight = Sight(folder: Path, disk: Disk, cache: Option<Cache>, walk: Path -> seq<Visit>)

  ghost predicate Fits(s: Sight) {
    Tree(s.disk) && forall rel :: WalkOf(s.disk, rel, s.walk(rel))
  }

  /** The verdict on one event: whether it must stay queued. */
  predicate Keeps(s: Sight, ev: Event) {
    match (s.cache, RelTo(s.folder, ev.path))
    case (Some(cache), Some(rel)) =>
      if rel == IgnoreFilter.IGNORE_FILE then true
      else if Remove in ev.op || Rename in ev.op then
        !(rel !in cache && !CachedBeneath(cache, rel) && Missing(s.disk, rel))
      else if ev.directory then WalkFailed(s.walk(rel)) || !Known(s.disk, cache, rel)
      else !SameFile(s.disk, cache, rel)
    case _ => true
  }

  method Keep(s: Sight, ev: Event) returns (keep: bool)
    requires Fits(s)
    ensures keep == Keeps(s, ev)
  {
    var rel := RelTo(s.folder, ev.path);
    if s.cache.None? || rel.None? || rel.value == IgnoreFilter.IGNORE_FILE {
      return true;
    }
    var cache := s.cache.value;
    if Remove in ev.op || Rename in ev.op {
      var below := HasCachedDescendant(cache, rel.value);
      return !(rel.value !in cache && !below && Missing(s.disk, rel.value));
    }
    if ev.directory {
      var known := KnownDirectory(s.disk, cache, rel.value, s.walk(rel.value));
      return !known;
    }
    keep := !SameFile(s.disk, cache, rel.value);
  }

  // ---- what a dropped event leaves unsaid: nothing ----

  predicate Agrees(entry: Entry, c: Cached) {
    match entry
    case Regular(size, mtime) => c == Cached([], size, mtime)
    case Symlink(target, size, mtime) => target.Some? && c == Cached(target.value, size, mtime)
    case _ => false
  }

  /** Disk and cache hold the same files at rel and everywhere beneath it,
      with the same sizes, times and link targets. */
  ghost predicate Settled(disk: Disk, cache: Cache, rel: Path) {
    forall p | AtOrBeneath(rel, p) ::
      && (FileAt(disk, p) <==> p in cache)
      && (FileAt(disk, p) && p in cache ==> Agrees(disk.entries[p], cache[p]))
  }

  /** No cached path lies under another. */
  ghost predicate CacheIsFiles(cache: Cache) {
    forall p | p in cache :: !CachedBeneath(cache, p)
  }

  /** For a dropped event, disk and cache agree on its path and everything
      beneath it exactly when the cache does not hold both the path and
      something beneath it. */
  lemma DroppedSettledIff(s: Sight, ev: Event)
    requires Fits(s) && !Keeps(s, ev)
    ensures s.cache.Some? && RelTo(s.folder, ev.path).Some? && RelTo(s.folder, ev.path).value != IgnoreFilter.IGNORE_FILE
    ensures var cache, rel := s.cache.value, RelTo(s.folder, ev.path).value;
            Settled(s.disk, cache, rel) <==> !(rel in cache && CachedBeneath(cache, rel))
  {
    var cache, rel := s.cache.value, RelTo(s.folder, ev.path).value;
    if rel in cache && CachedBeneath(cache, rel) {
      var p :| p in cache && Beneath(rel, p);
      assert !(FileAt(s.disk, rel) && FileAt(s.disk, p));
      assert AtOrBeneath(rel, rel) && AtOrBeneath(rel, p);
      assert !Settled(s.disk, cache, rel);
    } else {
      forall p | AtOrBeneath(rel, p)
        ensures FileAt(s.disk, p) <==> p in cache
        ensures FileAt(s.disk, p) && p in cache ==> Agrees(s.disk.entries[p], cache[p])
      {
        DroppedAt(s, ev, cache, rel, p);
      }
    }
  }

  lemma DroppedAt(s: Sight, ev: Event, cache: Cache, rel: Path, p: Path)
    requires Fits(s) && !Keeps(s, ev) && s.cache == Some(cache) && RelTo(s.folder, ev.path) == Some(rel)
    requires !(rel in cache && CachedBeneath(cache, rel)) && AtOrBeneath(rel, p)
    ensures FileAt(s.disk, p) <==> p in cache
    ensures FileAt(s.disk, p) && p in cache ==> Agrees(s.disk.entries[p], cache[p])
  {
    if Remove in ev.op || Rename in ev.op {
      assert p in s.disk.entries && p != rel ==> rel in s.disk.entries;
    } else if ev.directory {
      var q :| q in s.disk.entries && Beneath(rel, q) && FileAt(s.disk, q);
      assert SameFile(s.disk, cache, q);
    } else {
      assert p in s.disk.entries && p != rel ==> !FileAt(s.disk, rel);
    }
  }

  /** An event is dropped only when there is nothing to sync at or beneath
      its path. */
  lemma DroppedMeansSettled(s: Sight, ev: Event)
    requires Fits(s) && s.cache.Some? && CacheIsFiles(s.cache.value) && !Keeps(s, ev)
    ensures RelTo(s.folder, ev.path).Some?
    ensures Settled(s.disk, s.cache.value, RelTo(s.folder, ev.path).value)
  {
    DroppedSettledIff(s, ev);
  }

  const NAME_A: Path := [97]
  const UNDER_A: Path := [97, SLASH, 98]

  /** The cached-path hypothesis cannot be dropped: with "a" and "a/b" both
      cached, an event on an unchanged file "a" hides that "a/b" is gone. */
  lemma NestedCacheHidesALoss()
    ensures exists s, ev :: Fits(s) && s.cache.Some? && !Keeps(s, ev)
              && RelTo(s.folder, ev.path) == Some(NAME_A)
              && UNDER_A in s.cache.value && UNDER_A !in s.disk.entries
  {
    var cache: Cache := map[NAME_A := Cached([], 1, 2), UNDER_A := Cached([], 3, 4)];
    var disk := Disk(map[NAME_A := Regular(1, 2)], {});
    var folder: Path := [SLASH, 109];
    var path := folder + [SLASH] + NAME_A;
    var s := Sight(folder, disk, Some(cache), rel => [Visit(rel, true)]);
    var ev := Event(path, {Write}, false, 1);
    assert path[3..] == NAME_A && RelTo(folder, path) == Some(NAME_A);
    forall rel ensures WalkOf(disk, rel, s.walk(rel)) {
      assert Visit(rel, true) in s.walk(rel);
    }
    forall rel: Path ensures !Beneath(rel, NAME_A) {
      assert |rel + [SLASH]| == |rel| + 1 && (rel + [SLASH])[|rel|] == SLASH;
    }
    assert Tree(disk);
    assert SameFile(disk, cache, NAME_A);
    assert |IgnoreFilter.IGNORE_FILE| > 1;
    assert Fits(s) && !Keeps(s, ev);
  }

  /** What comes straight from the sync loop's own write is dropped: a file
      or link as cached, and a directory of such files. */
  lemma EchoesAreDropped(s: Sight, ev: Event, rel: Path)
    requires Fits(s) && s.cache.Some? && s.folder != [SLASH] && ev.path == s.folder + [SLASH] + rel
    requires rel != [] && rel != IgnoreFilter.IGNORE_FILE
    requires Settled(s.disk, s.cache.value, rel) && Remove !in ev.op && Rename !in ev.op
    requires forall p | AtOrBeneath(rel, p) :: p !in s.disk.faults
    requires ev.directory ==> !WalkFailed(s.walk(rel)) && CachedBeneath(s.cache.value, rel)
    requires !ev.directory ==> rel in s.cache.value
    ensures !Keeps(s, ev)
  {
    var cache := s.cache.value;
    RelIs(s.folder, ev.path, rel);
    if ev.directory {
      var q :| q in cache && Beneath(rel, q);
      assert FileAt(s.disk, q);
      forall p | p in s.disk.entries && Beneath(rel, p) && FileAt(s.disk, p) ensures SameFile(s.disk, cache, p) {
        assert AtOrBeneath(rel, p);
      }
    } else {
      assert AtOrBeneath(rel, rel);
    }
  }

  /** A removal or a rename is dropped exactly when nothing is left of its
      path, on the disk or in the cache, at it or beneath it. */
  lemma RemovalDroppedIff(s: Sight, ev: Event, cache: Cache, rel: Path)
    requires Fits(s) && s.cache == Some(cache) && s.folder != [SLASH] && ev.path == s.folder + [SLASH] + rel
    requires rel != [] && rel != IgnoreFilter.IGNORE_FILE && (Remove in ev.op || Rename in ev.op)
    ensures !Keeps(s, ev) <==>
              rel !in s.disk.faults && forall p | AtOrBeneath(rel, p) :: p !in s.disk.entries && p !in cache
  {
    RelIs(s.folder, ev.path, rel);
    assert AtOrBeneath(rel, rel);
    forall p | Beneath(rel, p) ensures p in s.disk.entries ==> rel in s.disk.entries {
    }
    forall p | p in cache && Beneath(rel, p) ensures AtOrBeneath(rel, p) {
    }
  }

  /** What each suppression of a run saw when it judged an event: the disk and
      the cache may differ from one event to the next. */
  type Sights = seq<Event -> Sight>

  ghost predicate JudgedBySight(w: World, sights: Sights) {
    && |sights| == |w.done|
    && forall i, ev | 0 <= i < |sights| && ev in w.done[i].pass.candidates ::
         && Fits(sights[i](ev))
         && (sights[i](ev).cache.Some? ==> CacheIsFiles(sights[i](ev).cache.value))
         && w.done[i].keep(ev) == Keeps(sights[i](ev), ev)
  }

  ghost predicate SettledAt(s: Sight, path: Path) {
    && s.cache.Some? && RelTo(s.folder, path).Some?
    && Settled(s.disk, s.cache.value, RelTo(s.folder, path).value)
  }

  ghost predicate SettledSince(w: World, sights: Sights, r: Record, n: nat) {
    exists i, e :: 0 <= i < |sights| && 0 <= i < |w.done| && w.done[i].pass.root == r.root
      && Removed(w.done[i], e) && Carries(e, r, n) && SettledAt(sights[i](e), r.path)
  }

  /** Over every run, a notification that no batch and no full scan accounts
      for was dropped when its path needed no sync. */
  lemma UnsyncedMeansSettled(roots: seq<Root>, actions: seq<Action>, sights: Sights, i: nat)
    requires i < |Run(roots, actions).log| && Run(roots, actions).log[i].root != []
    requires JudgedBySight(Run(roots, actions), sights)
    ensures var w := Run(roots, actions);
            var r := w.log[i];
            Waiting(w, r, i + 1) || Delivered(w, r, i + 1) || ScanOwed(w, r.root, i + 1)
            || SettledSince(w, sights, r, i + 1)
  {
    NothingIsLost(roots, actions);
    var w := Run(roots, actions);
    var r := w.log[i];
    if Suppressed(w, r, i + 1) {
      var d, e :| d in w.done && d.pass.root == r.root && Removed(d, e) && Carries(e, r, i + 1);
      var k :| 0 <= k < |w.done| && w.done[k] == d;
      DroppedSettledIff(sights[k](e), e);
      assert SettledAt(sights[k](e), r.path);
      assert SettledSince(w, sights, r, i + 1);
    }
  }
}
