/** Every interleaving of the watcher, the sync loop and any number of
    suppressions over one event queue. A suppression is two steps, because it
    judges its events between them with the queue unlocked. */
module WatchRuns {
  import opened Text
  import opened WatchQueue

  datatype Record = Record(root: Root, path: Path, op: set<Op>, directory: bool)

  /** A suppression between its two locked halves. */
  datatype Pass = Pass(root: Root, upto: nat, begun: nat, candidates: seq<Event>)

  /** A finished suppression: what it was told to keep, what it found. */
  datatype Done = Done(pass: Pass, keep: Event -> bool, before: seq<Event>)

  datatype Taken = Taken(root: Root, batch: Batch)

  datatype World = World(q: State, log: seq<Record>, taken: seq<Taken>, passes: seq<Pass>, done: seq<Done>)

  datatype Action =
    | Notice(record: Record)
    | TakeAll(root: Root)
    | Begin(root: Root, upto: nat)
    | Finish(which: nat, keep: Event -> bool)

  const START := World(State(map[], {}, 0), [], [], [], [])

  function Noted(r: Record): Event {
    Event(r.path, r.op, r.directory, 0)
  }

  ghost function Step(roots: seq<Root>, w: World, a: Action): World {
    match a
    case Notice(r) => w.(q := Added(roots, w.q, r.root, Noted(r)), log := w.log + [r])
    case TakeAll(root) => w.(q := Emptied(w.q, root), taken := w.taken + [Taken(root, BatchOf(w.q, root))])
    case Begin(root, upto) =>
      w.(passes := w.passes + [Pass(root, upto, w.q.sequence, Candidates(w.q.At(root), upto))])
    case Finish(i, keep) =>
      if i >= |w.passes| then w
      else
        var p := w.passes[i];
        w.(q := Thinned(w.q, p.root, Verdicts(p.candidates, keep)),
           passes := w.passes[..i] + w.passes[i + 1..],
           done := w.done + [Done(p, keep, w.q.At(p.root))])
  }

  ghost function Run(roots: seq<Root>, actions: seq<Action>): World {
    if actions == [] then START
    else Step(roots, Run(roots, actions[..|actions| - 1]), actions[|actions| - 1])
  }

  // ---- where a recorded event can be ----

  /** e stands for the n-th record: same path, nothing of it lost. */
  ghost predicate Carries(e: Event, r: Record, n: nat) {
    e.path == r.path && n <= e.stamp && r.op <= e.op && (r.directory ==> e.directory)
  }

  ghost predicate Waiting(w: World, r: Record, n: nat) {
    exists e :: e in w.q.At(r.root) && Carries(e, r, n)
  }

  ghost predicate Delivered(w: World, r: Record, n: nat) {
    exists t, e :: t in w.taken && t.root == r.root && e in t.batch.events && Carries(e, r, n)
  }

  /** A full flag makes the sync loop scan the whole folder. */
  ghost predicate ScanOwed(w: World, root: Root, n: nat) {
    || root in w.q.full
    || exists t :: t in w.taken && t.root == root && t.batch.full && n <= t.batch.fence
  }

  /** A suppression removed the event it had judged, not a later one. */
  ghost predicate Removed(d: Done, e: Event) {
    && e in d.before && e in d.pass.candidates && !d.keep(e)
    && e.stamp <= d.pass.upto && e.stamp <= d.pass.begun
  }

  ghost predicate Suppressed(w: World, r: Record, n: nat) {
    exists d, e :: d in w.done && d.pass.root == r.root && Removed(d, e) && Carries(e, r, n)
  }

  ghost predicate Accounted(roots: seq<Root>, w: World, r: Record, n: nat) {
    if r.root == [] then forall root | root in roots :: ScanOwed(w, root, n)
    else Waiting(w, r, n) || Delivered(w, r, n) || ScanOwed(w, r.root, n) || Suppressed(w, r, n)
  }

  // ---- what every step keeps ----

  /** Nothing in an event was invented: every flag was in some record of that
      path no later than the event's stamp. */
  ghost predicate Backed(log: seq<Record>, root: Root, e: Event) {
    && 1 <= e.stamp <= |log|
    && log[e.stamp - 1].root == root && log[e.stamp - 1].path == e.path
    && (forall o | o in e.op ::
          exists k :: 0 <= k < e.stamp && log[k].root == root && log[k].path == e.path && o in log[k].op)
    && (e.directory ==>
          exists k :: 0 <= k < e.stamp && log[k].root == root && log[k].path == e.path && log[k].directory)
  }

  ghost predicate ListFits(log: seq<Record>, root: Root, evs: seq<Event>) {
    UniquePaths(evs) && |evs| <= MAX_EVENTS && forall e | e in evs :: Backed(log, root, e)
  }

  ghost predicate QueueFits(w: World) {
    && w.q.sequence == |w.log|
    && forall root: Root :: ListFits(w.log, root, w.q.At(root)) && (root in w.q.full ==> w.q.At(root) == [])
  }

  /** A candidate's stamp names one version of its event. */
  ghost predicate PassFits(w: World, p: Pass) {
    && p.begun <= |w.log| && UniquePaths(p.candidates)
    && (forall c | c in p.candidates :: c.stamp <= p.upto && c.stamp <= p.begun)
    && (forall c, e | c in p.candidates && e in w.q.At(p.root) && c.path == e.path && c.stamp == e.stamp :: c == e)
  }

  ghost predicate PassesFit(w: World) {
    forall p | p in w.passes :: PassFits(w, p)
  }

  /** A batch holds what was recorded up to its fence, and the queue afterwards
      only what was recorded later: no event is handed out twice. */
  ghost predicate BatchesFit(w: World) {
    && (forall t | t in w.taken :: ListFits(w.log, t.root, t.batch.events) && t.batch.fence <= |w.log|)
    && (forall t, e | t in w.taken && e in t.batch.events :: e.stamp <= t.batch.fence)
    && (forall t, e | t in w.taken && e in w.q.At(t.root) :: t.batch.fence < e.stamp)
    && (forall i, j, e | 0 <= i < j < |w.taken| && w.taken[i].root == w.taken[j].root && e in w.taken[j].batch.events ::
          w.taken[i].batch.fence < e.stamp)
  }

  ghost predicate Sound(w: World) {
    QueueFits(w) && PassesFit(w) && BatchesFit(w)
  }

  // ---- one step at a time ----

  lemma BackedLonger(log: seq<Record>, more: seq<Record>, root: Root, e: Event)
    requires Backed(log, root, e)
    ensures Backed(log + more, root, e)
  {
    forall o | o in e.op
      ensures exists k :: 0 <= k < e.stamp && (log + more)[k].root == root && (log + more)[k].path == e.path
                          && o in (log + more)[k].op
    {
      var k :| 0 <= k < e.stamp && log[k].root == root && log[k].path == e.path && o in log[k].op;
      assert (log + more)[k] == log[k];
    }
    if e.directory {
      var k :| 0 <= k < e.stamp && log[k].root == root && log[k].path == e.path && log[k].directory;
      assert (log + more)[k] == log[k];
    }
  }

  lemma ListFitsLonger(log: seq<Record>, r: Record, root: Root, evs: seq<Event>)
    requires ListFits(log, root, evs)
    ensures ListFits(log + [r], root, evs)
  {
    forall e | e in evs ensures Backed(log + [r], root, e) {
      BackedLonger(log, [r], root, e);
    }
  }

  lemma JoinedBacked(log: seq<Record>, r: Record, e: Event)
    requires Backed(log, r.root, e) && e.path == r.path
    ensures Backed(log + [r], r.root, Joined(e, Noted(r).(stamp := |log| + 1)))
  {
    var j := Joined(e, Noted(r).(stamp := |log| + 1));
    BackedLonger(log, [r], r.root, e);
    assert (log + [r])[|log|] == r;
  }

  /** What a notification does to the list of its own folder. */
  lemma AddedList(roots: seq<Root>, w: World, r: Record)
    requires QueueFits(w) && r.root != []
    ensures var q := Added(roots, w.q, r.root, Noted(r));
            ListFits(w.log + [r], r.root, q.At(r.root)) && (r.root in q.full ==> q.At(r.root) == [])
  {
    var q := Added(roots, w.q, r.root, Noted(r));
    var e := Noted(r).(stamp := |w.log| + 1);
    var evs := w.q.At(r.root);
    var i := Find(evs, r.path);
    ListFitsLonger(w.log, r, r.root, evs);
    if r.root !in w.q.full {
      if i < |evs| {
        JoinedBacked(w.log, r, evs[i]);
      } else {
        assert Backed(w.log + [r], r.root, e) by {
          assert (w.log + [r])[|w.log|] == r;
        }
      }
    }
  }

  lemma NoticeKeepsQueue(roots: seq<Root>, w: World, r: Record)
    requires QueueFits(w)
    ensures QueueFits(Step(roots, w, Notice(r)))
  {
    var v := Step(roots, w, Notice(r));
    FilledIs(w.q.(sequence := w.q.sequence + 1), roots);
    forall root: Root
      ensures ListFits(v.log, root, v.q.At(root)) && (root in v.q.full ==> v.q.At(root) == [])
    {
      ListFitsLonger(w.log, r, root, w.q.At(root));
      if r.root != [] && root == r.root {
        AddedList(roots, w, r);
      } else if r.root == [] {
        assert v.q.At(root) == [] || v.q.At(root) == w.q.At(root);
      } else {
        assert v.q.At(root) == w.q.At(root);
      }
    }
  }

  /** A notification changes an event only by giving it a new stamp. */
  lemma NoticeFresh(roots: seq<Root>, w: World, r: Record, root: Root)
    requires QueueFits(w)
    ensures forall e :: e in Step(roots, w, Notice(r)).q.At(root) ==> e in w.q.At(root) || e.stamp == |w.log| + 1
  {
    FilledIs(w.q.(sequence := w.q.sequence + 1), roots);
  }

  lemma NoticeKeepsRest(roots: seq<Root>, w: World, r: Record)
    requires Sound(w)
    ensures PassesFit(Step(roots, w, Notice(r))) && BatchesFit(Step(roots, w, Notice(r)))
  {
    var v := Step(roots, w, Notice(r));
    forall p | p in v.passes ensures PassFits(v, p) {
      assert PassFits(w, p);
      NoticeFresh(roots, w, r, p.root);
    }
    forall t | t in v.taken ensures ListFits(v.log, t.root, t.batch.events) {
      ListFitsLonger(w.log, r, t.root, t.batch.events);
    }
    forall t, e | t in v.taken && e in v.q.At(t.root) ensures t.batch.fence < e.stamp {
      NoticeFresh(roots, w, r, t.root);
    }
  }

  lemma TakeKeeps(roots: seq<Root>, w: World, root: Root)
    requires Sound(w)
    ensures Sound(Step(roots, w, TakeAll(root)))
  {
    var v := Step(roots, w, TakeAll(root));
    assert ListFits(w.log, root, w.q.At(root));
    assert v.q.At(root) == [];
    forall other: Root
      ensures ListFits(v.log, other, v.q.At(other)) && (other in v.q.full ==> v.q.At(other) == [])
    {
      assert ListFits(w.log, other, w.q.At(other));
      assert other != root ==> v.q.At(other) == w.q.At(other);
    }
    forall p | p in v.passes ensures PassFits(v, p) {
      assert PassFits(w, p);
      assert p.root != root ==> v.q.At(p.root) == w.q.At(p.root);
    }
    assert BatchesFit(v) by {
      assert forall t | t in v.taken :: t in w.taken || t == Taken(root, BatchOf(w.q, root));
      assert forall t | t in w.taken && t.root != root :: v.q.At(t.root) == w.q.At(t.root);
      forall i, j, e | 0 <= i < j < |v.taken| && v.taken[i].root == v.taken[j].root && e in v.taken[j].batch.events
        ensures v.taken[i].batch.fence < e.stamp
      {
        assert v.taken[i] == w.taken[i];
        if j < |w.taken| {
          assert v.taken[j] == w.taken[j];
        } else {
          assert w.taken[i] in w.taken && e in w.q.At(root);
        }
      }
    }
  }

  lemma BeginKeeps(roots: seq<Root>, w: World, root: Root, upto: nat)
    requires Sound(w)
    ensures Sound(Step(roots, w, Begin(root, upto)))
  {
    var v := Step(roots, w, Begin(root, upto));
    assert ListFits(w.log, root, w.q.At(root));
    CandidatesAre(w.q.At(root), upto);
    CandidatesUnique(w.q.At(root), upto);
    forall p | p in v.passes ensures PassFits(v, p) {
      assert p in w.passes ==> PassFits(w, p);
    }
  }

  lemma ThinnedAt(s: State, root: Root, drop: map<Path, nat>, other: Root)
    ensures forall e :: e in Thinned(s, root, drop).At(other) ==> e in s.At(other)
    ensures |Thinned(s, root, drop).At(other)| <= |s.At(other)|
    ensures UniquePaths(s.At(other)) ==> UniquePaths(Thinned(s, root, drop).At(other))
    ensures forall e :: e in s.At(other) && e !in Thinned(s, root, drop).At(other) ==> other == root && Falls(e, drop)
  {
    KeptAre(s.At(root), drop);
    if UniquePaths(s.At(root)) {
      KeptUnique(s.At(root), drop);
    }
  }

  lemma FinishKeeps(roots: seq<Root>, w: World, i: nat, keep: Event -> bool)
    requires Sound(w)
    ensures Sound(Step(roots, w, Finish(i, keep)))
  {
    if i < |w.passes| {
      var v := Step(roots, w, Finish(i, keep));
      var drop := Verdicts(w.passes[i].candidates, keep);
      forall root: Root
        ensures ListFits(v.log, root, v.q.At(root)) && (root in v.q.full ==> v.q.At(root) == [])
      {
        assert ListFits(w.log, root, w.q.At(root));
        ThinnedAt(w.q, w.passes[i].root, drop, root);
      }
      forall p | p in v.passes ensures PassFits(v, p) {
        assert p in w.passes;
        assert PassFits(w, p);
        ThinnedAt(w.q, w.passes[i].root, drop, p.root);
      }
      forall t, e | t in v.taken && e in v.q.At(t.root) ensures t.batch.fence < e.stamp {
        ThinnedAt(w.q, w.passes[i].root, drop, t.root);
      }
    }
  }

  lemma StepKeepsSound(roots: seq<Root>, w: World, a: Action)
    requires Sound(w)
    ensures Sound(Step(roots, w, a))
  {
    match a
    case Notice(r) =>
      NoticeKeepsQueue(roots, w, r);
      NoticeKeepsRest(roots, w, r);
    case TakeAll(root) => TakeKeeps(roots, w, root);
    case Begin(root, upto) => BeginKeeps(roots, w, root, upto);
    case Finish(i, keep) => FinishKeeps(roots, w, i, keep);
  }

  lemma SamePath(evs: seq<Event>, c: Event, d: Event)
    requires UniquePaths(evs) && c in evs && d in evs && c.path == d.path
    ensures c == d
  {
    var j :| 0 <= j < |evs| && evs[j] == c;
    var k :| 0 <= k < |evs| && evs[k] == d;
    assert j == k;
  }

  lemma FallsIff(evs: seq<Event>, keep: Event -> bool, e: Event)
    requires UniquePaths(evs)
    requires forall c | c in evs && c.path == e.path && c.stamp == e.stamp :: c == e
    ensures Falls(e, Verdicts(evs, keep)) <==> e in evs && !keep(e)
  {
    VerdictsAre(evs, keep);
    forall c, d | c in evs && d in evs && c.path == d.path ensures c == d {
      SamePath(evs, c, d);
    }
  }

  lemma ThinnedRemoves(s: State, root: Root, drop: map<Path, nat>, e: Event)
    requires e in s.At(root)
    ensures e !in Thinned(s, root, drop).At(root) <==> Falls(e, drop)
  {
    KeptAre(s.At(root), drop);
  }

  /** A finished suppression removes from the queue exactly the events it had
      copied and judged droppable, if they are still there unchanged. */
  lemma FinishRemoves(roots: seq<Root>, w: World, i: nat, keep: Event -> bool, e: Event)
    requires Sound(w) && i < |w.passes| && e in w.q.At(w.passes[i].root)
    ensures e !in Step(roots, w, Finish(i, keep)).q.At(w.passes[i].root)
        <==> e in w.passes[i].candidates && !keep(e)
  {
    var p := w.passes[i];
    assert PassFits(w, p);
    FallsIff(p.candidates, keep, e);
    ThinnedRemoves(w.q, p.root, Verdicts(p.candidates, keep), e);
  }

  // ---- no record is lost ----

  lemma ScanOwedStays(roots: seq<Root>, w: World, a: Action, root: Root, n: nat)
    requires Sound(w) && ScanOwed(w, root, n) && n <= |w.log|
    ensures ScanOwed(Step(roots, w, a), root, n)
  {
    var v := Step(roots, w, a);
    if root in w.q.full {
      match a
      case Notice(r) =>
        FilledIs(w.q.(sequence := w.q.sequence + 1), roots);
      case TakeAll(other) =>
        if other == root {
          var t := Taken(root, BatchOf(w.q, root));
          assert t in v.taken && t.root == root && t.batch.full && n <= t.batch.fence;
        }
      case Begin(_, _) =>
      case Finish(_, _) =>
    } else {
      var t :| t in w.taken && t.root == root && t.batch.full && n <= t.batch.fence;
      assert t in v.taken;
    }
  }

  lemma WaitingMoves(roots: seq<Root>, w: World, a: Action, r: Record, n: nat)
    requires Sound(w) && Waiting(w, r, n) && r.root != [] && n <= |w.log|
    ensures Accounted(roots, Step(roots, w, a), r, n)
  {
    var v := Step(roots, w, a);
    var e :| e in w.q.At(r.root) && Carries(e, r, n);
    match a
    case Notice(s) => NoticeMoves(roots, w, s, r, n, e);
    case TakeAll(root) =>
      if root == r.root {
        var t := Taken(root, BatchOf(w.q, root));
        assert t in v.taken && t.root == r.root && e in t.batch.events;
        assert Delivered(v, r, n);
      } else {
        assert e in v.q.At(r.root);
      }
    case Begin(_, _) => assert e in v.q.At(r.root);
    case Finish(i, keep) =>
      if e in v.q.At(r.root) {
        assert Waiting(v, r, n);
      } else {
        assert i < |w.passes|;
        var p := w.passes[i];
        assert p in w.passes && PassFits(w, p);
        ThinnedAt(w.q, p.root, Verdicts(p.candidates, keep), r.root);
        FinishRemoves(roots, w, i, keep, e);
        var d := Done(p, keep, w.q.At(p.root));
        assert d in v.done && Removed(d, e);
        assert Suppressed(v, r, n);
      }
  }

  /** A notification for the folder that is not turned into a scan keeps what
      an event of the folder carries. */
  lemma NoticeCarries(w: World, s: Record, r: Record, n: nat, e: Event)
    requires Sound(w) && s.root == r.root && r.root !in w.q.full
    requires e in w.q.At(r.root) && Carries(e, r, n) && n <= |w.log|
    requires s.root != []
    ensures var evs := Added([], w.q, s.root, Noted(s)).At(r.root);
            |w.q.At(r.root)| < MAX_EVENTS || Find(w.q.At(r.root), s.path) < |w.q.At(r.root)| ==>
              exists f :: f in evs && Carries(f, r, n)
  {
    var evs := w.q.At(r.root);
    var now := Added([], w.q, s.root, Noted(s)).At(r.root);
    var i := Find(evs, s.path);
    if i < |evs| && evs[i] == e {
      assert Carries(now[i], r, n);
    } else if i < |evs| {
      var k :| 0 <= k < |evs| && evs[k] == e;
      assert now[k] == e;
    } else if |evs| < MAX_EVENTS {
      assert e in now;
    }
  }

  lemma NoticeMoves(roots: seq<Root>, w: World, s: Record, r: Record, n: nat, e: Event)
    requires Sound(w) && r.root != [] && n <= |w.log| && e in w.q.At(r.root) && Carries(e, r, n)
    ensures Accounted(roots, Step(roots, w, Notice(s)), r, n)
  {
    var v := Step(roots, w, Notice(s));
    var evs := w.q.At(r.root);
    FilledIs(w.q.(sequence := w.q.sequence + 1), roots);
    if s.root == [] {
      assert r.root in roots ==> r.root in v.q.full;
      assert r.root !in roots ==> e in v.q.At(r.root);
    } else if s.root != r.root || s.root in w.q.full {
      assert e in v.q.At(r.root);
    } else if |evs| < MAX_EVENTS || Find(evs, s.path) < |evs| {
      NoticeCarries(w, s, r, n, e);
      assert v.q == Added([], w.q, s.root, Noted(s));
    } else {
      assert r.root in v.q.full;
    }
  }

  lemma StillAccounted(roots: seq<Root>, w: World, a: Action, r: Record, n: nat)
    requires Sound(w) && Accounted(roots, w, r, n) && n <= |w.log|
    ensures Accounted(roots, Step(roots, w, a), r, n)
  {
    var v := Step(roots, w, a);
    if r.root == [] {
      forall root | root in roots ensures ScanOwed(v, root, n) {
        ScanOwedStays(roots, w, a, root, n);
      }
    } else if ScanOwed(w, r.root, n) {
      ScanOwedStays(roots, w, a, r.root, n);
    } else if Waiting(w, r, n) {
      WaitingMoves(roots, w, a, r, n);
    } else if Delivered(w, r, n) {
      var t, e :| t in w.taken && t.root == r.root && e in t.batch.events && Carries(e, r, n);
      assert t in v.taken;
      assert Delivered(v, r, n);
    } else {
      var d, e :| d in w.done && d.pass.root == r.root && Removed(d, e) && Carries(e, r, n);
      assert d in v.done;
      assert Suppressed(v, r, n);
    }
  }

  lemma NoticeAccounted(roots: seq<Root>, w: World, r: Record)
    requires Sound(w)
    ensures Accounted(roots, Step(roots, w, Notice(r)), r, |w.log| + 1)
  {
    var v := Step(roots, w, Notice(r));
    var e := Noted(r).(stamp := |w.log| + 1);
    var evs := w.q.At(r.root);
    var i := Find(evs, r.path);
    FilledIs(w.q.(sequence := w.q.sequence + 1), roots);
    if r.root != [] && r.root !in v.q.full {
      var now := if i < |evs| then Joined(evs[i], e) else e;
      assert v.q.At(r.root)[i] == now;
      assert now in v.q.At(r.root) && Carries(now, r, |w.log| + 1);
    }
  }

  ghost predicate AllAccounted(roots: seq<Root>, w: World) {
    forall i | 0 <= i < |w.log| :: Accounted(roots, w, w.log[i], i + 1)
  }

  lemma AccountedAfter(roots: seq<Root>, w: World, a: Action, i: nat)
    requires Sound(w) && i < |Step(roots, w, a).log|
    requires i < |w.log| ==> Accounted(roots, w, w.log[i], i + 1)
    ensures Accounted(roots, Step(roots, w, a), Step(roots, w, a).log[i], i + 1)
  {
    if i < |w.log| {
      StillAccounted(roots, w, a, w.log[i], i + 1);
    } else {
      NoticeAccounted(roots, w, a.record);
    }
  }

  lemma StepKeepsAccounts(roots: seq<Root>, w: World, a: Action)
    requires Sound(w) && AllAccounted(roots, w)
    ensures AllAccounted(roots, Step(roots, w, a))
  {
    var v := Step(roots, w, a);
    forall i | 0 <= i < |v.log| ensures Accounted(roots, v, v.log[i], i + 1) {
      AccountedAfter(roots, w, a, i);
    }
  }

  /** Over every run: the queue keeps its shape, and every notification ever
      recorded is still waiting, was handed to the sync loop, is covered by a
      full scan, or was dropped by a suppression that had judged an event
      carrying it, so never one that arrived while the queue was unlocked. */
  lemma {:induction false} NothingIsLost(roots: seq<Root>, actions: seq<Action>)
    ensures Sound(Run(roots, actions)) && AllAccounted(roots, Run(roots, actions))
  {
    if actions != [] {
      var front, a := actions[..|actions| - 1], actions[|actions| - 1];
      NothingIsLost(roots, front);
      StepKeepsSound(roots, Run(roots, front), a);
      StepKeepsAccounts(roots, Run(roots, front), a);
    }
  }

  /** A notification that arrives after a suppression copied its candidates
      survives that suppression. */
  lemma LateEventSurvives(roots: seq<Root>, w: World, i: nat, keep: Event -> bool, e: Event)
    requires Sound(w) && i < |w.passes| && e in w.q.At(w.passes[i].root) && w.passes[i].begun < e.stamp
    ensures e in Step(roots, w, Finish(i, keep)).q.At(w.passes[i].root)
  {
    FinishRemoves(roots, w, i, keep, e);
    assert w.passes[i] in w.passes;
    assert PassFits(w, w.passes[i]);
  }
}
