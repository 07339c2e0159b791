/** Pending sign-ins in a store that several hub processes share: what a
    human approves is redeemed at most once, in every interleaving. */
module Grants {
  import opened Text

  datatype Kind = Code | Device

  datatype Row = Row(kind: Kind, user: string, granted: bool)

  type Rows = map<string, Row>

  // ---- one caller at a time ----

  class Pending {
    var rows: Rows

    constructor ()
      ensures rows == map[]
    {
      rows := map[];
    }

    /** Atomic: reads and removes. */
    method Take(id: string) returns (r: Option<Row>)
      modifies this`rows
      ensures r == if id in old(rows) then Some(old(rows)[id]) else None
      ensures rows == old(rows) - {id}
    {
      r := if id in rows then Some(rows[id]) else None;
      rows := rows - {id};
    }

    method Load(kind: Kind, id: string) returns (r: Option<Row>)
      ensures r == if id in rows && rows[id].kind == kind then Some(rows[id]) else None
    {
      r := if id in rows && rows[id].kind == kind then Some(rows[id]) else None;
    }

    method Save(id: string, row: Row, stored: bool)
      modifies this`rows
      ensures rows == if stored then old(rows)[id := row] else old(rows)
    {
      if stored {
        rows := rows[id := row];
      }
    }

    /** take: whatever it finds is consumed. */
    method Consume(kind: Kind, id: string) returns (r: Option<Row>)
      modifies this`rows
      ensures rows == old(rows) - {id}
      ensures r == if id in old(rows) && old(rows)[id].kind == kind then Some(old(rows)[id]) else None
      ensures forall proof :: rows == Step(With(old(rows)), Exchange(id, proof)).rows
    {
      var row := Take(id);
      r := if row.Some? && row.value.kind == kind then row else None;
    }

    /** takeGranted: consumes an approved grant, and puts one back that is not
        approved yet. */
    method TakeGranted(kind: Kind, id: string, stored: bool) returns (g: Option<Row>, present: bool, ok: bool)
      modifies this`rows
      ensures present == (id in old(rows) && old(rows)[id].kind == kind)
      ensures ok == (present && old(rows)[id].granted)
      ensures g == if present then Some(old(rows)[id]) else None
      ensures present && !ok && stored ==> rows == old(rows)
      ensures !(present && !ok && stored) ==> rows == old(rows) - {id}
      ensures kind == Device ==>
                rows == Step(Step(With(old(rows)), Poll(id)), PutBack(0, stored)).rows
    {
      var row := Take(id);
      if row.None? || row.value.kind != kind {
        return None, false, false;
      }
      if !row.value.granted {
        Save(id, row.value, stored);
        return row, true, false;
      }
      return row, true, true;
    }

    method ApproveDevice(id: string, user: string, stored: bool) returns (ok: bool)
      modifies this`rows
      ensures ok == (id in old(rows) && old(rows)[id].kind == Device && stored)
      ensures rows == if ok then old(rows)[id := old(rows)[id].(user := user, granted := true)] else old(rows)
      ensures rows == Step(Step(With(old(rows)), OpenApproval(id)), Approve(0, user, stored, stored)).rows
    {
      var g := Load(Device, id);
      if g.None? {
        return false;
      }
      Save(id, g.value.(user := user, granted := true), stored);
      ok := stored;
    }
  }

  // ---- any number of processes, step by step ----

  /** A grant and the account that approved it. */
  datatype Key = Key(id: string, user: string)

  /** A row some process read and is about to write back. */
  datatype Copy = Copy(id: string, row: Row)

  /** approving and returning are the copies held between two store calls;
      the rest is history: the kind each id was born with, the approvals that
      were written, those reported as done, and the tokens issued. */
  datatype World = World(rows: Rows, approving: seq<Copy>, returning: seq<Copy>,
                         born: map<string, Kind>, approvals: multiset<Key>, successes: multiset<Key>,
                         deviceTokens: multiset<Key>, codeTokens: multiset<string>)

  const START := World(map[], [], [], map[], multiset{}, multiset{}, multiset{}, multiset{})

  /** A world whose store holds rows, with nothing in flight. */
  function With(rows: Rows): World {
    START.(rows := rows)
  }

  /** Put may fail, and so may the process between two calls: stored says
      whether the row was written, reported whether the approver is told so. */
  datatype Event =
    | StartDevice(id: string, stored: bool)
    | StartCode(id: string, user: string, stored: bool)
    | OpenApproval(id: string)
    | Approve(which: nat, user: string, stored: bool, reported: bool)
    | Poll(id: string)
    | PutBack(which: nat, stored: bool)
    | Exchange(id: string, proof: bool)
    | Vanish(id: string)

  function Put(rows: Rows, id: string, row: Row, stored: bool): Rows {
    if stored then rows[id := row] else rows
  }

  function Without(copies: seq<Copy>, i: nat): seq<Copy>
    requires i < |copies|
  {
    copies[..i] + copies[i + 1..]
  }

  function Born(w: World, id: string, row: Row, stored: bool): World {
    if id in w.born then w
    else w.(rows := Put(w.rows, id, row, stored), born := w.born[id := row.kind])
  }

  function Step(w: World, e: Event): World {
    match e
    case StartDevice(id, stored) => Born(w, id, Row(Device, "", false), stored)
    case StartCode(id, user, stored) => Born(w, id, Row(Code, user, true), stored)
    case OpenApproval(id) =>
      if id in w.rows && w.rows[id].kind == Device then w.(approving := w.approving + [Copy(id, w.rows[id])]) else w
    case Approve(i, user, stored, reported) =>
      if i >= |w.approving| then w
      else
        var c := w.approving[i];
        var v := w.(approving := Without(w.approving, i),
                    successes := if reported then w.successes + multiset{Key(c.id, user)} else w.successes);
        if !stored then v
        else v.(rows := w.rows[c.id := c.row.(user := user, granted := true)],
                approvals := w.approvals + multiset{Key(c.id, user)})
    case Poll(id) =>
      if id !in w.rows then w
      else
        var row := w.rows[id];
        var v := w.(rows := w.rows - {id});
        if row.kind != Device then v
        else if !row.granted then v.(returning := w.returning + [Copy(id, row)])
        else v.(deviceTokens := w.deviceTokens + multiset{Key(id, row.user)})
    case PutBack(i, stored) =>
      if i >= |w.returning| then w
      else
        var c := w.returning[i];
        w.(rows := Put(w.rows, c.id, c.row, stored), returning := Without(w.returning, i))
    case Exchange(id, proof) =>
      if id !in w.rows then w
      else
        var row := w.rows[id];
        var v := w.(rows := w.rows - {id});
        if row.kind == Code && row.granted && proof then v.(codeTokens := w.codeTokens + multiset{id}) else v
    case Vanish(id) => w.(rows := w.rows - {id})
  }

  function Run(events: seq<Event>): World {
    if events == [] then START else Step(Run(events[..|events| - 1]), events[|events| - 1])
  }

  // ---- what every step keeps ----

  function Redeemable(rows: Rows, key: Key): nat {
    if key.id in rows && rows[key.id] == Row(Device, key.user, true) then 1 else 0
  }

  ghost predicate KeyFits(w: World, key: Key) {
    w.deviceTokens[key] + Redeemable(w.rows, key) <= w.approvals[key]
  }

  ghost predicate CodeFits(w: World, id: string) {
    if id in w.born && w.born[id] == Code then w.codeTokens[id] + (if id in w.rows then 1 else 0) <= 1
    else w.codeTokens[id] == 0
  }

  ghost predicate RowsFit(w: World) {
    forall id | id in w.rows :: id in w.born && w.born[id] == w.rows[id].kind
  }

  predicate IsDevice(w: World, c: Copy) {
    c.id in w.born && w.born[c.id] == Device && c.row.kind == Device
  }

  ghost predicate CopiesFit(w: World) {
    (forall c | c in w.approving :: IsDevice(w, c)) && forall c | c in w.returning :: IsDevice(w, c) && !c.row.granted
  }

  ghost predicate KindsFit(w: World) {
    RowsFit(w) && CopiesFit(w)
  }

  ghost predicate Sound(w: World) {
    KindsFit(w) && (forall key: Key :: KeyFits(w, key)) && forall id: string :: CodeFits(w, id)
  }

  lemma WithoutIn(copies: seq<Copy>, i: nat)
    requires i < |copies|
    ensures copies[i] in copies && forall c | c in Without(copies, i) :: c in copies
  {
  }

  /** A row that a step leaves was there, is new, or is written back from a
      copy. */
  lemma RowsAfter(w: World, e: Event, id: string)
    requires KindsFit(w) && id in Step(w, e).rows && !(id in w.rows && w.rows[id] == Step(w, e).rows[id])
    ensures id in Step(w, e).born && Step(w, e).born[id] == Step(w, e).rows[id].kind
  {
    match e
    case Approve(i, _, _, _) =>
      assert IsDevice(w, w.approving[i]);
    case PutBack(i, _) =>
      assert IsDevice(w, w.returning[i]);
    case _ =>
  }

  lemma StepKeepsRows(w: World, e: Event)
    requires KindsFit(w)
    ensures RowsFit(Step(w, e))
  {
    var v := Step(w, e);
    forall id | id in v.rows ensures id in v.born && v.born[id] == v.rows[id].kind {
      if id in w.rows && w.rows[id] == v.rows[id] {
        BornStays(w, e, id);
      } else {
        RowsAfter(w, e, id);
      }
    }
  }

  lemma BornStays(w: World, e: Event, id: string)
    requires id in w.born
    ensures id in Step(w, e).born && Step(w, e).born[id] == w.born[id]
  {
  }

  lemma DeviceStays(w: World, e: Event, c: Copy)
    requires IsDevice(w, c)
    ensures IsDevice(Step(w, e), c)
  {
  }

  lemma ApprovingAfter(w: World, e: Event, c: Copy)
    requires c in Step(w, e).approving && c !in w.approving
    ensures c.id in w.rows && c.row == w.rows[c.id] && c.row.kind == Device
  {
    if e.Approve? && e.which < |w.approving| {
      WithoutIn(w.approving, e.which);
    }
  }

  lemma ReturningAfter(w: World, e: Event, c: Copy)
    requires c in Step(w, e).returning && c !in w.returning
    ensures c.id in w.rows && c.row == w.rows[c.id] && c.row.kind == Device && !c.row.granted
  {
    if e.PutBack? && e.which < |w.returning| {
      WithoutIn(w.returning, e.which);
    }
  }

  lemma StepKeepsCopies(w: World, e: Event)
    requires KindsFit(w)
    ensures CopiesFit(Step(w, e))
  {
    var v := Step(w, e);
    forall c | c in v.approving ensures IsDevice(v, c) {
      if c !in w.approving {
        ApprovingAfter(w, e, c);
      }
      DeviceStays(w, e, c);
    }
    forall c | c in v.returning ensures IsDevice(v, c) && !c.row.granted {
      if c !in w.returning {
        ReturningAfter(w, e, c);
      }
      DeviceStays(w, e, c);
    }
  }

  lemma ApproveKeepsKey(w: World, i: nat, user: string, stored: bool, reported: bool, key: Key)
    requires KeyFits(w, key)
    ensures KeyFits(Step(w, Approve(i, user, stored, reported)), key)
  {
    if i < |w.approving| && stored {
      var v := Step(w, Approve(i, user, stored, reported));
      var id := w.approving[i].id;
      assert v.approvals == w.approvals + multiset{Key(id, user)};
      assert key.id != id ==> Redeemable(v.rows, key) == Redeemable(w.rows, key);
    }
  }

  lemma PollKeepsKey(w: World, id: string, key: Key)
    requires KeyFits(w, key)
    ensures KeyFits(Step(w, Poll(id)), key)
  {
    if id in w.rows {
      var v := Step(w, Poll(id));
      assert v.rows == w.rows - {id};
      assert v.deviceTokens != w.deviceTokens ==> v.deviceTokens == w.deviceTokens + multiset{Key(id, w.rows[id].user)};
    }
  }

  lemma StepKeepsKey(w: World, e: Event, key: Key)
    requires KeyFits(w, key) && KindsFit(w)
    ensures KeyFits(Step(w, e), key)
  {
    match e
    case Approve(i, user, stored, reported) => ApproveKeepsKey(w, i, user, stored, reported, key);
    case Poll(id) => PollKeepsKey(w, id, key);
    case PutBack(i, _) =>
      assert i < |w.returning| ==> w.returning[i] in w.returning;
    case _ =>
  }

  lemma StepKeepsCode(w: World, e: Event, id: string)
    requires CodeFits(w, id) && KindsFit(w)
    ensures CodeFits(Step(w, e), id)
  {
    match e
    case Approve(i, _, _, _) =>
      assert i < |w.approving| ==> w.approving[i] in w.approving;
    case PutBack(i, _) =>
      assert i < |w.returning| ==> w.returning[i] in w.returning;
    case _ =>
  }

  lemma {:induction false} RunIsSound(events: seq<Event>)
    ensures Sound(Run(events))
  {
    if events != [] {
      var w, e := Run(events[..|events| - 1]), events[|events| - 1];
      RunIsSound(events[..|events| - 1]);
      StepKeepsRows(w, e);
      StepKeepsCopies(w, e);
      forall key: Key ensures KeyFits(Step(w, e), key) {
        StepKeepsKey(w, e, key);
      }
      forall id: string ensures CodeFits(Step(w, e), id) {
        StepKeepsCode(w, e, id);
      }
    }
  }

  /** However the store calls of any number of processes interleave: for each
      grant and each account, no more tokens than approvals that were written;
      and a browser code buys at most one. */
  lemma TokensNeedApprovals(events: seq<Event>)
    ensures Run(events).deviceTokens <= Run(events).approvals
    ensures |Run(events).deviceTokens| <= |Run(events).approvals|
    ensures forall id :: Run(events).codeTokens[id] <= 1
  {
    RunIsSound(events);
    var w := Run(events);
    assert forall key: Key :: KeyFits(w, key) ==> w.deviceTokens[key] <= w.approvals[key];
    forall id ensures w.codeTokens[id] <= 1 {
      assert CodeFits(w, id);
    }
    assert w.approvals == w.deviceTokens + (w.approvals - w.deviceTokens);
  }

  /** A store that reports every write it makes. */
  ghost predicate Truthful(events: seq<Event>) {
    forall e | e in events && e.Approve? :: e.stored ==> e.reported
  }

  lemma StepReports(w: World, e: Event)
    requires w.approvals <= w.successes && (e.Approve? && e.stored ==> e.reported)
    ensures Step(w, e).approvals <= Step(w, e).successes
  {
    if e.Approve? && e.which < |w.approving| {
      var key := Key(w.approving[e.which].id, e.user);
      assert Step(w, e).successes == w.successes || Step(w, e).successes == w.successes + multiset{key};
      assert Step(w, e).approvals == w.approvals || Step(w, e).approvals == w.approvals + multiset{key};
    }
  }

  lemma {:induction false} WrittenAreReported(events: seq<Event>)
    requires Truthful(events)
    ensures Run(events).approvals <= Run(events).successes
  {
    if events != [] {
      var front, e := events[..|events| - 1], events[|events| - 1];
      assert events == front + [e];
      WrittenAreReported(front);
      StepReports(Run(front), e);
    }
  }

  /** With such a store tokens never exceed the approvals that succeeded. */
  lemma TokensNeedSuccesses(events: seq<Event>)
    requires Truthful(events)
    ensures Run(events).deviceTokens <= Run(events).successes
  {
    TokensNeedApprovals(events);
    WrittenAreReported(events);
  }

  // ---- when an approval survives ----

  ghost predicate Approved(w: World, id: string) {
    id in w.rows && w.rows[id].kind == Device && w.rows[id].granted
  }

  /** Some poll holds a copy of id that it is about to put back. */
  predicate PutBackPending(w: World, id: string) {
    exists c | c in w.returning :: c.id == id
  }

  /** The event consumes or removes the row of id. */
  predicate Consumes(e: Event, id: string) {
    match e
    case Poll(i) => i == id
    case Exchange(i, _) => i == id
    case Vanish(i) => i == id
    case _ => false
  }

  function After(w: World, events: seq<Event>): World {
    if events == [] then w else Step(After(w, events[..|events| - 1]), events[|events| - 1])
  }

  ghost predicate Spares(events: seq<Event>, id: string) {
    forall e | e in events :: !Consumes(e, id)
  }

  lemma StepKeepsApproval(w: World, e: Event, id: string)
    requires KindsFit(w) && Approved(w, id) && !PutBackPending(w, id) && !Consumes(e, id)
    ensures Approved(Step(w, e), id) && !PutBackPending(Step(w, e), id)
  {
    StillNotPending(w, e, id);
    if e.Approve? && e.which < |w.approving| {
      assert IsDevice(w, w.approving[e.which]);
    }
    if e.PutBack? && e.which < |w.returning| {
      assert w.returning[e.which] in w.returning;
    }
    assert id in w.born;
  }

  lemma StillNotPending(w: World, e: Event, id: string)
    requires !PutBackPending(w, id) && !Consumes(e, id)
    ensures !PutBackPending(Step(w, e), id)
  {
    forall c | c in Step(w, e).returning ensures c.id != id {
      if c !in w.returning {
        PolledCopy(w, e, c);
      }
    }
  }

  lemma PolledCopy(w: World, e: Event, c: Copy)
    requires c in Step(w, e).returning && c !in w.returning
    ensures Consumes(e, c.id)
  {
    if e.PutBack? && e.which < |w.returning| {
      WithoutIn(w.returning, e.which);
    }
  }

  lemma {:induction false} ApprovalStays(w: World, events: seq<Event>, id: string)
    requires KindsFit(w) && Approved(w, id) && !PutBackPending(w, id) && Spares(events, id)
    ensures var v := After(w, events); KindsFit(v) && Approved(v, id) && !PutBackPending(v, id)
  {
    if events != [] {
      var front, e := events[..|events| - 1], events[|events| - 1];
      assert events == front + [e];
      ApprovalStays(w, front, id);
      StepKeepsApproval(After(w, front), e, id);
      StepKeepsRows(After(w, front), e);
      StepKeepsCopies(After(w, front), e);
    }
  }

  /** A written approval stands until it is consumed, whatever else any
      process does, exactly when at that moment no poll holds an unapproved
      copy it is about to put back. */
  lemma ApprovalSurvivesIff(w: World, id: string)
    requires KindsFit(w) && Approved(w, id)
    ensures (forall events | Spares(events, id) :: Approved(After(w, events), id)) <==> !PutBackPending(w, id)
  {
    if PutBackPending(w, id) {
      var c :| c in w.returning && c.id == id;
      var i :| 0 <= i < |w.returning| && w.returning[i] == c;
      var events := [PutBack(i, true)];
      assert events[..0] == [] && Spares(events, id);
      assert After(w, events) == Step(w, PutBack(i, true));
      assert !Approved(After(w, events), id);
    } else {
      forall events | Spares(events, id) ensures Approved(After(w, events), id) {
        ApprovalStays(w, events, id);
      }
    }
  }

  // ---- what a sign-in must do ----

  /** In any state of the world a written approval is worth one token, of the
      user who gave it, and a second poll gets none. */
  lemma ApprovedPollIssues(w: World, id: string)
    requires Approved(w, id)
    ensures var v := Step(w, Poll(id));
            && v.deviceTokens == w.deviceTokens + multiset{Key(id, w.rows[id].user)} && v.codeTokens == w.codeTokens
            && id !in v.rows && v.returning == w.returning
            && Step(v, Poll(id)) == v && forall proof :: Step(v, Exchange(id, proof)) == v
  {
  }

  /** An unapproved one is put back as it was, unless the store loses it. */
  lemma WaitingPollReturns(w: World, id: string)
    requires id in w.rows && w.rows[id].kind == Device && !w.rows[id].granted
    ensures var v := Step(Step(w, Poll(id)), PutBack(|w.returning|, true));
            v.rows == w.rows && v.deviceTokens == w.deviceTokens && v.returning == w.returning
  {
    var v := Step(w, Poll(id));
    assert v.returning[..|w.returning|] == w.returning && v.returning[|w.returning| + 1..] == [];
    assert v.rows[id := w.rows[id]] == w.rows;
  }

  /** A device sign-in from start to token, and its code counterpart, with a
      store that takes every write: exactly one token. */
  lemma SignInCompletes(w: World, id: string, user: string)
    requires id !in w.born
    ensures var started := Step(w, StartDevice(id, true));
            var approved := Step(Step(started, OpenApproval(id)), Approve(|w.approving|, user, true, true));
            Step(started, Poll(id)).deviceTokens == w.deviceTokens
            && Step(approved, Poll(id)).deviceTokens == w.deviceTokens + multiset{Key(id, user)}
    ensures var started := Step(w, StartCode(id, user, true));
            && Step(started, Exchange(id, true)).codeTokens == w.codeTokens + multiset{id}
            && Step(started, Exchange(id, false)).codeTokens == w.codeTokens
            && id !in Step(started, Exchange(id, false)).rows
  {
    var started := Step(w, StartDevice(id, true));
    assert started.rows[id] == Row(Device, "", false);
    var open := Step(started, OpenApproval(id));
    assert open.approving[|w.approving|] == Copy(id, Row(Device, "", false));
    assert Step(open, Approve(|w.approving|, user, true, true)).rows[id] == Row(Device, user, true);
  }

  const ROW := Row(Device, "", false)

  const LOSS := [StartDevice("g", true), OpenApproval("g"), Poll("g"), Approve(0, "u", true, true), PutBack(0, true)]

  lemma UpToPoll()
    ensures var w := Run(LOSS[..3]);
            w.rows == map[] && w.approving == [Copy("g", ROW)] && w.returning == [Copy("g", ROW)]
            && w.approvals == multiset{} && w.deviceTokens == multiset{}
  {
    assert LOSS[..3][..2] == LOSS[..2] && LOSS[..2][..1] == LOSS[..1] && LOSS[..1][..0] == [];
    assert Run(LOSS[..1]) == Step(START, LOSS[0]);
    assert Run(LOSS[..2]) == Step(Run(LOSS[..1]), LOSS[1]);
    assert map["g" := ROW] - {"g"} == map[];
  }

  lemma ApprovedThenPutBack(w: World)
    requires w.rows == map[] && w.approving == [Copy("g", ROW)] && w.returning == [Copy("g", ROW)]
    requires w.approvals == multiset{} && w.deviceTokens == multiset{}
    ensures var v := Step(Step(w, Approve(0, "u", true, true)), PutBack(0, true));
            v.approvals == multiset{Key("g", "u")} && v.rows == map["g" := ROW] && v.deviceTokens == multiset{}
  {
    var u := Step(w, Approve(0, "u", true, true));
    assert u.approvals == multiset{Key("g", "u")} && u.rows == map["g" := Row(Device, "u", true)];
    assert u.returning == w.returning;
  }

  /** An approval can be lost: a poll that read the row before it was written
      puts the unapproved one back over it. */
  lemma ApprovalCanBeLost()
    ensures var w := Run(LOSS);
            w.approvals == multiset{Key("g", "u")} && w.rows == map["g" := ROW] && w.deviceTokens == multiset{}
  {
    UpToPoll();
    ApprovedThenPutBack(Run(LOSS[..3]));
    assert LOSS[..4][..3] == LOSS[..3] && LOSS[..5] == LOSS;
    assert Run(LOSS[..4]) == Step(Run(LOSS[..3]), LOSS[3]);
  }
}
