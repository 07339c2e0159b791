/** The local watcher's event queue: a coalescing list of at most a few
    thousand events for each mounted folder, filled by the file system's
    notifications, emptied by the sync loop, and thinned by a suppression that
    judges events while the queue is unlocked. */
module WatchQueue {
  import opened Text

  const MAX_EVENTS := 4096

  type Root = Path

  datatype Op = Create | Write | Remove | Rename | Chmod

  datatype Event = Event(path: Path, op: set<Op>, directory: bool, stamp: nat)

  datatype Batch = Batch(events: seq<Event>, full: bool, fence: nat)

  /** The three variables the closures share under one lock. */
  datatype State = State(pending: map<Root, seq<Event>>, full: set<Root>, sequence: nat)
  {
    /** A map read as Go reads it: a missing folder has no events. */
    function At(root: Root): seq<Event> {
      if root in pending then pending[root] else []
    }
  }

  function Find(evs: seq<Event>, path: Path): (i: nat)
    ensures i <= |evs| && (i < |evs| ==> evs[i].path == path)
    ensures forall j | 0 <= j < i :: evs[j].path != path
  {
    if evs == [] || evs[0].path == path then 0 else 1 + Find(evs[1..], path)
  }

  function Joined(had: Event, ev: Event): Event {
    had.(op := had.op + ev.op, directory := had.directory || ev.directory, stamp := ev.stamp)
  }

  function Filled(s: State, roots: seq<Root>): State
  {
    if roots == [] then s
    else
      var t := Filled(s, roots[..|roots| - 1]);
      var r := roots[|roots| - 1];
      t.(full := t.full + {r}, pending := t.pending[r := []])
  }

  function Added(roots: seq<Root>, s: State, root: Root, ev: Event): State {
    var t := s.(sequence := s.sequence + 1);
    var e := ev.(stamp := t.sequence);
    var evs := s.At(root);
    var i := Find(evs, e.path);
    if root == [] then Filled(t, roots)
    else if root in s.full then t
    else if i < |evs| then t.(pending := s.pending[root := evs[i := Joined(evs[i], e)]])
    else if |evs| >= MAX_EVENTS then t.(full := s.full + {root}, pending := s.pending[root := []])
    else t.(pending := s.pending[root := evs + [e]])
  }

  function BatchOf(s: State, root: Root): Batch {
    Batch(s.At(root), root in s.full, s.sequence)
  }

  function Emptied(s: State, root: Root): State {
    s.(pending := s.pending - {root}, full := s.full - {root})
  }

  /** What the first locked half of suppress copies out. */
  function Candidates(evs: seq<Event>, upto: nat): seq<Event> {
    if evs == [] then []
    else
      var front := Candidates(evs[..|evs| - 1], upto);
      var last := evs[|evs| - 1];
      if last.stamp <= upto then front + [last] else front
  }

  function Verdicts(evs: seq<Event>, keep: Event -> bool): map<Path, nat> {
    if evs == [] then map[]
    else
      var front := Verdicts(evs[..|evs| - 1], keep);
      var last := evs[|evs| - 1];
      if keep(last) then front else front[last.path := last.stamp]
  }

  predicate Falls(e: Event, drop: map<Path, nat>) {
    e.path in drop && e.stamp == drop[e.path]
  }

  function Kept(evs: seq<Event>, drop: map<Path, nat>): seq<Event> {
    if evs == [] then []
    else
      var front := Kept(evs[..|evs| - 1], drop);
      var last := evs[|evs| - 1];
      if Falls(last, drop) then front else front + [last]
  }

  function Thinned(s: State, root: Root, drop: map<Path, nat>): State {
    if drop == map[] then s else s.(pending := s.pending[root := Kept(s.At(root), drop)])
  }

  // ---- the queue itself ----

  class Queue {
    const rootList: seq<Root>
    var pending: map<Root, seq<Event>>
    var full: set<Root>
    var sequence: nat

    constructor (rootList: seq<Root>)
      ensures this.rootList == rootList && Now() == State(map[], {}, 0)
    {
      this.rootList := rootList;
      pending, full, sequence := map[], {}, 0;
    }

    function Now(): State
      reads this
    {
      State(pending, full, sequence)
    }

    method AddEvent(root: Root, ev: Event)
      modifies this
      ensures Now() == Added(rootList, old(Now()), root, ev)
    {
      sequence := sequence + 1;
      var e := ev.(stamp := sequence);
      if root == [] {
        ghost var s := Now();
        for i := 0 to |rootList|
          invariant Now() == Filled(s, rootList[..i])
        {
          assert rootList[..i + 1][..i] == rootList[..i];
          full := full + {rootList[i]};
          pending := pending[rootList[i] := []];
        }
        assert rootList[..|rootList|] == rootList;
        return;
      }
      if root in full {
        return;
      }
      var evs := if root in pending then pending[root] else [];
      for i := 0 to |evs|
        invariant forall j | 0 <= j < i :: evs[j].path != e.path
      {
        if evs[i].path == e.path {
          pending := pending[root := evs[i := Joined(evs[i], e)]];
          return;
        }
      }
      if |evs| >= MAX_EVENTS {
        full := full + {root};
        pending := pending[root := []];
        return;
      }
      pending := pending[root := evs + [e]];
    }

    method Take(root: Root) returns (b: Batch)
      modifies this
      ensures b == BatchOf(old(Now()), root)
      ensures Now() == Emptied(old(Now()), root)
    {
      b := Batch(if root in pending then pending[root] else [], root in full, sequence);
      pending := pending - {root};
      full := full - {root};
    }

    method Fence() returns (n: nat)
      ensures n == Now().sequence
    {
      n := sequence;
    }

    /** The locked first half of suppress. */
    method Snapshot(root: Root, upto: nat) returns (candidates: seq<Event>)
      ensures candidates == Candidates(Now().At(root), upto)
    {
      candidates := [];
      var evs := if root in pending then pending[root] else [];
      for i := 0 to |evs|
        invariant candidates == Candidates(evs[..i], upto)
      {
        assert evs[..i + 1][..i] == evs[..i];
        if evs[i].stamp <= upto {
          candidates := candidates + [evs[i]];
        }
      }
      assert evs[..|evs|] == evs;
    }

    /** The locked second half of suppress. */
    method Drop(root: Root, drop: map<Path, nat>)
      modifies this`pending
      ensures Now() == Thinned(old(Now()), root, drop)
    {
      if drop == map[] {
        return;
      }
      var kept: seq<Event> := [];
      var evs := if root in pending then pending[root] else [];
      for i := 0 to |evs|
        invariant kept == Kept(evs[..i], drop)
        invariant pending == old(pending)
      {
        assert evs[..i + 1][..i] == evs[..i];
        if !Falls(evs[i], drop) {
          kept := kept + [evs[i]];
        }
      }
      assert evs[..|evs|] == evs;
      pending := pending[root := kept];
    }
  }

  /** The unlocked middle of suppress: it touches no shared variable. */
  method Judge(candidates: seq<Event>, keep: Event -> bool) returns (drop: map<Path, nat>)
    ensures drop == Verdicts(candidates, keep)
  {
    drop := map[];
    for i := 0 to |candidates|
      invariant drop == Verdicts(candidates[..i], keep)
    {
      assert candidates[..i + 1][..i] == candidates[..i];
      if !keep(candidates[i]) {
        drop := drop[candidates[i].path := candidates[i].stamp];
      }
    }
    assert candidates[..|candidates|] == candidates;
  }

  // ---- what the list functions mean ----

  lemma {:induction false} CandidatesAre(evs: seq<Event>, upto: nat)
    ensures forall e :: e in Candidates(evs, upto) <==> e in evs && e.stamp <= upto
  {
    if evs != [] {
      var front, last := evs[..|evs| - 1], evs[|evs| - 1];
      assert evs == front + [last];
      CandidatesAre(front, upto);
    }
  }

  /** With at most one candidate for a path, the verdict on a path is the
      verdict on that candidate. */
  lemma {:induction false} VerdictsAre(evs: seq<Event>, keep: Event -> bool)
    ensures forall p :: p in Verdicts(evs, keep) ==>
              exists e :: e in evs && e.path == p && !keep(e) && e.stamp == Verdicts(evs, keep)[p]
    ensures (forall e, f | e in evs && f in evs && e.path == f.path :: e == f) ==>
              forall e | e in evs && !keep(e) :: Falls(e, Verdicts(evs, keep))
  {
    if evs != [] {
      var front, last := evs[..|evs| - 1], evs[|evs| - 1];
      assert evs == front + [last];
      VerdictsAre(front, keep);
      assert forall e | e in front :: e in evs;
      assert last in evs;
    }
  }

  lemma {:induction false} KeptAre(evs: seq<Event>, drop: map<Path, nat>)
    ensures forall e :: e in Kept(evs, drop) <==> e in evs && !Falls(e, drop)
    ensures |Kept(evs, drop)| <= |evs|
  {
    if evs != [] {
      var front, last := evs[..|evs| - 1], evs[|evs| - 1];
      assert evs == front + [last];
      KeptAre(front, drop);
    }
  }

  ghost predicate UniquePaths(evs: seq<Event>) {
    forall i, j | 0 <= i < j < |evs| :: evs[i].path != evs[j].path
  }

  lemma {:induction false} KeptUnique(evs: seq<Event>, drop: map<Path, nat>)
    requires UniquePaths(evs)
    ensures UniquePaths(Kept(evs, drop))
  {
    if evs != [] {
      var front, last := evs[..|evs| - 1], evs[|evs| - 1];
      KeptUnique(front, drop);
      KeptAre(front, drop);
      var k := Kept(front, drop);
      forall i | 0 <= i < |k| ensures k[i].path != last.path {
        assert k[i] in k;
        assert k[i] in front;
        var j :| 0 <= j < |front| && front[j] == k[i];
        assert evs[j] == k[i];
      }
    }
  }

  lemma {:induction false} CandidatesUnique(evs: seq<Event>, upto: nat)
    requires UniquePaths(evs)
    ensures UniquePaths(Candidates(evs, upto))
  {
    if evs != [] {
      var front, last := evs[..|evs| - 1], evs[|evs| - 1];
      CandidatesUnique(front, upto);
      CandidatesAre(front, upto);
      var c := Candidates(front, upto);
      forall i | 0 <= i < |c| ensures c[i].path != last.path {
        assert c[i] in c;
        assert c[i] in front;
        var j :| 0 <= j < |front| && front[j] == c[i];
        assert evs[j] == c[i];
      }
    }
  }

  lemma {:induction false} FilledIs(s: State, roots: seq<Root>)
    ensures Filled(s, roots).sequence == s.sequence
    ensures forall r :: r in Filled(s, roots).full <==> r in s.full || r in roots
    ensures forall r :: Filled(s, roots).At(r) == if r in roots then [] else s.At(r)
  {
    if roots != [] {
      var front, last := roots[..|roots| - 1], roots[|roots| - 1];
      assert roots == front + [last];
      FilledIs(s, front);
    }
  }
}
