/** What the watcher's queue must do, beside losing nothing: a notification is
    queued and not turned into a scan, a batch is handed out whole, and a
    suppression removes what it may. */
module WatchLaws {
  import opened Text
  import opened WatchQueue
  import opened WatchRuns

  lemma FindPath(evs: seq<Event>, e: Event)
    requires UniquePaths(evs) && e in evs
    ensures Find(evs, e.path) < |evs| && evs[Find(evs, e.path)] == e
  {
    var k :| 0 <= k < |evs| && evs[k] == e;
    var i := Find(evs, e.path);
    assert i <= k;
  }

  predicate Queues(evs: seq<Event>, path: Path) {
    exists e :: e in evs && e.path == path
  }

  /** A notification for a folder that owes no scan, and has room or an event
      of that path, leaves every other event as it is and one event of its own
      path: newly stamped, with its operations and those the queue already had
      for the path. No scan is asked for. */
  lemma NoticeIsQueued(roots: seq<Root>, w: World, r: Record)
    requires Sound(w) && r.root != [] && r.root !in w.q.full
    requires |w.q.At(r.root)| < 4096 || Queues(w.q.At(r.root), r.path)
    ensures var v := Step(roots, w, Notice(r));
            var was, now := w.q.At(r.root), v.q.At(r.root);
            && v.q.full == w.q.full
            && (forall root | root != r.root :: v.q.At(root) == w.q.At(root))
            && (forall e: Event | e.path != r.path :: e in now <==> e in was)
            && (forall e | e in was && e.path == r.path ::
                  Event(r.path, e.op + r.op, e.directory || r.directory, |w.log| + 1) in now)
            && (!Queues(was, r.path) ==> Event(r.path, r.op, r.directory, |w.log| + 1) in now)
  {
    var v := Step(roots, w, Notice(r));
    var was, now := w.q.At(r.root), v.q.At(r.root);
    assert ListFits(w.log, r.root, was);
    var i := Find(was, r.path);
    var ev := Noted(r).(stamp := |w.log| + 1);
    if i < |was| {
      assert was[i] in was;
      NowIsUpdate(was, i, Joined(was[i], ev), now, r.path);
      forall e | e in was && e.path == r.path ensures e == was[i] {
        FindPath(was, e);
      }
    } else {
      assert !Queues(was, r.path);
      assert now == was + [ev] && now[|was|] == ev;
    }
  }

  lemma NowIsUpdate(was: seq<Event>, i: nat, e: Event, now: seq<Event>, path: Path)
    requires i < |was| && now == was[i := e] && e.path == path && was[i].path == path
    ensures e in now && forall f: Event | f.path != path :: f in now <==> f in was
  {
    assert now[i] == e;
    forall f: Event | f.path != path ensures f in now <==> f in was {
      if f in was {
        var k :| 0 <= k < |was| && was[k] == f;
        assert now[k] == f;
      }
    }
  }

  /** A folder comes to owe a scan only when the watcher lost track of all
      folders, or when its list is full and a further path is notified. */
  lemma ScanOnlyWhenDue(roots: seq<Root>, w: World, a: Action, root: Root)
    requires Sound(w) && root in Step(roots, w, a).q.full && root !in w.q.full
    ensures a.Notice?
    ensures (a.record.root == [] && root in roots)
            || (a.record.root == root && |w.q.At(root)| == 4096 && !Queues(w.q.At(root), a.record.path))
  {
    assert ListFits(w.log, root, w.q.At(root));
    match a
    case Notice(r) =>
      FilledIs(w.q.(sequence := w.q.sequence + 1), roots);
    case TakeAll(_) =>
    case Begin(_, _) =>
    case Finish(_, _) =>
  }

  /** How many notifications of a folder a run has. */
  function Notices(actions: seq<Action>, root: Root): nat {
    if actions == [] then 0
    else
      var last := actions[|actions| - 1];
      Notices(actions[..|actions| - 1], root) + if last.Notice? && last.record.root == root then 1 else 0
  }

  lemma NoticesGrow(w: World, roots: seq<Root>, a: Action, root: Root)
    requires Sound(w) && (a.Notice? ==> a.record.root != [])
    ensures |Step(roots, w, a).q.At(root)|
         <= |w.q.At(root)| + if a.Notice? && a.record.root == root then 1 else 0
  {
    if a.Finish? && a.which < |w.passes| {
      var p := w.passes[a.which];
      KeptAre(w.q.At(p.root), Verdicts(p.candidates, a.keep));
    }
  }

  /** Over every run: a folder with at most 4096 notifications, in a run where
      the watcher never lost track of all folders, never owes a full scan and
      is never handed out as one. */
  lemma {:induction false} NoNeedlessScan(roots: seq<Root>, actions: seq<Action>, root: Root)
    requires forall a | a in actions && a.Notice? :: a.record.root != []
    requires root != [] && Notices(actions, root) <= 4096
    ensures var w := Run(roots, actions);
            && |w.q.At(root)| <= Notices(actions, root)
            && root !in w.q.full
            && forall t | t in w.taken && t.root == root :: !t.batch.full
  {
    if actions != [] {
      var front, a := actions[..|actions| - 1], actions[|actions| - 1];
      assert actions == front + [a];
      NoNeedlessScan(roots, front, root);
      var w := Run(roots, front);
      NothingIsLost(roots, front);
      NoticesGrow(w, roots, a, root);
      if root in Step(roots, w, a).q.full {
        ScanOnlyWhenDue(roots, w, a, root);
      }
    }
  }

  /** A batch is all that is queued for a folder, with its flag and the number
      of the last notification; the folder is empty afterwards, and no other
      folder changes. */
  lemma TakeHandsOutAll(roots: seq<Root>, w: World, root: Root)
    ensures var v := Step(roots, w, TakeAll(root));
            && v.q.At(root) == [] && root !in v.q.full
            && v.taken == w.taken + [Taken(root, Batch(w.q.At(root), root in w.q.full, w.q.sequence))]
            && forall other | other != root ::
                 v.q.At(other) == w.q.At(other) && (other in v.q.full <==> other in w.q.full)
  {
  }

  /** A suppression that nothing interrupts removes exactly the events up to
      its bound that it is told not to keep. */
  lemma SuppressionRemoves(roots: seq<Root>, w: World, root: Root, upto: nat, keep: Event -> bool, e: Event)
    requires Sound(w) && e in w.q.At(root)
    ensures var begun := Step(roots, w, Begin(root, upto));
            e in Step(roots, begun, Finish(|w.passes|, keep)).q.At(root) <==> e.stamp > upto || keep(e)
  {
    var begun := Step(roots, w, Begin(root, upto));
    StepKeepsSound(roots, w, Begin(root, upto));
    assert begun.passes[|w.passes|] == Pass(root, upto, w.q.sequence, Candidates(w.q.At(root), upto));
    FinishRemoves(roots, begun, |w.passes|, keep, e);
    CandidatesAre(w.q.At(root), upto);
  }
}
