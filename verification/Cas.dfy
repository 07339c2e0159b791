/** Compare-and-swap on an object of a directory, the append built on it, and
    what any interleaving of appenders leaves behind. */
module Cas {
  import opened Text

  /** The hash of an object's bytes, only ever compared. */
  type Fingerprint = Bytes -> string

  const ABSENT := ""
  const ATTEMPTS := 5

  ghost predicate Distinguishes(v: Fingerprint) {
    (forall a, b :: v(a) == v(b) ==> a == b) && forall a :: v(a) != ABSENT
  }

  function VersionOf(v: Fingerprint, content: Option<Bytes>): string {
    match content case None => ABSENT case Some(data) => v(data)
  }

  function BytesOf(content: Option<Bytes>): Bytes {
    match content case None => [] case Some(data) => data
  }

  /** A version names one state of the object. */
  lemma VersionNames(v: Fingerprint, a: Option<Bytes>, b: Option<Bytes>)
    requires Distinguishes(v) && VersionOf(v, a) == VersionOf(v, b)
    ensures a == b
  {
  }

  datatype Read = Body(data: Bytes, version: string) | Missing | ReadFailed

  datatype Put = Wrote(version: string) | Mismatch | PutFailed

  class Directory {
    const v: Fingerprint
    var files: map<string, Bytes>

    constructor (v: Fingerprint)
      ensures this.v == v && files == map[]
    {
      this.v := v;
      files := map[];
    }

    function At(key: string): Option<Bytes>
      reads this
    {
      if key in files then Some(files[key]) else None
    }

    method GetVersioned(key: string, diskOk: bool) returns (r: Read)
      ensures r == if !diskOk then ReadFailed
                   else match At(key) case None => Missing case Some(data) => Body(data, v(data))
    {
      if !diskOk {
        return ReadFailed;
      }
      if key !in files {
        return Missing;
      }
      r := Body(files[key], v(files[key]));
    }

    /** readOk and putOk: whether the disk does its part under the lock. */
    method PutIf(key: string, body: Bytes, expected: string, readOk: bool, putOk: bool) returns (r: Put)
      modifies this`files
      ensures r == if !readOk then PutFailed
                   else if old(VersionOf(v, At(key))) != expected then Mismatch
                   else if !putOk then PutFailed
                   else Wrote(v(body))
      ensures files == if r.Wrote? then old(files)[key := body] else old(files)
      ensures readOk ==>
                forall existing: Option<Bytes>, line: Bytes |
                  body == BytesOf(existing) + line && expected == VersionOf(v, existing) ::
                  At(key) == Stored(v, OneWriter(v, old(At(key)), existing, line), 0, putOk).content
    {
      if !readOk {
        return PutFailed;
      }
      var cur := ABSENT;
      if key in files {
        cur := v(files[key]);
      }
      if cur != expected {
        return Mismatch;
      }
      if !putOk {
        return PutFailed;
      }
      files := files[key := body];
      r := Wrote(v(body));
    }

    /** What other appenders do between two calls: nothing, or any number of
        appends that add up to more. */
    method OthersAppend(key: string, more: Option<Bytes>)
      modifies this`files
      ensures At(key) == Grown(old(At(key)), more)
    {
      if more.Some? {
        files := files[key := BytesOf(At(key)) + more.value];
      }
    }
  }

  datatype Appended = Appended(at: nat, line: Bytes) | NotAppended

  /** A missing object reads as empty, at version ABSENT. */
  method ReadVersioned(dir: Directory, key: string, diskOk: bool) returns (r: Read)
    ensures !diskOk ==> r.ReadFailed?
    ensures diskOk ==> r == Body(BytesOf(dir.At(key)), VersionOf(dir.v, dir.At(key)))
  {
    r := dir.GetVersioned(key, diskOk);
    if r.Missing? {
      r := Body([], ABSENT);
    }
  }

  /** The object once others have added to it, if they did. */
  function Grown(content: Option<Bytes>, more: Option<Bytes>): Option<Bytes> {
    match more case None => content case Some(data) => Some(BytesOf(content) + data)
  }

  /** The object when attempt i begins, if no earlier one wrote. */
  function Found(start: Option<Bytes>, others: nat -> Option<Bytes>, i: nat): Option<Bytes> {
    if i == 0 then start else Grown(Found(start, others, i - 1), others(i - 1))
  }

  lemma {:induction false} FoundGrows(start: Option<Bytes>, others: nat -> Option<Bytes>, i: nat)
    ensures BytesOf(start) <= BytesOf(Found(start, others, i))
  {
    if i > 0 {
      FoundGrows(start, others, i - 1);
    }
  }

  /** One attempt: line is what next answered and more what others add before
      the write. None asks for another attempt. */
  method Attempt(dir: Directory, key: string, line: Option<Bytes>, diskOk: bool, more: Option<Bytes>)
    returns (r: Option<Appended>)
    requires Distinguishes(dir.v)
    modifies dir`files
    ensures var was, now := old(dir.At(key)), Grown(old(dir.At(key)), more);
            if !diskOk || line.None? then r == Some(NotAppended) && (dir.At(key) == was || dir.At(key) == now)
            else if now != was then r.None? && dir.At(key) == now
            else r == Some(Appended(|BytesOf(was)|, line.value)) && dir.At(key) == Some(BytesOf(was) + line.value)
  {
    var was := ReadVersioned(dir, key, diskOk);
    if was.ReadFailed? || line.None? {
      return Some(NotAppended);
    }
    dir.OthersAppend(key, more);
    var put := dir.PutIf(key, was.data + line.value, was.version, diskOk, diskOk);
    r := match put
         case Wrote(_) => Some(Appended(|was.data|, line.value))
         case PutFailed => Some(NotAppended)
         case Mismatch => None;
  }

  /** Attempt i did its part, and others added something under it. */
  predicate Beaten(start: Option<Bytes>, next: nat -> Option<Bytes>, diskOk: nat -> bool,
                   others: nat -> Option<Bytes>, i: nat) {
    && diskOk(i) && next(i).Some? && others(i).Some?
    && Found(start, others, i + 1) != Found(start, others, i)
  }

  /** How a call ends at attempt i: its line behind what it found, or nothing
      written because its own read, line or write failed. */
  predicate Ends(start: Option<Bytes>, next: nat -> Option<Bytes>, diskOk: nat -> bool,
                 others: nat -> Option<Bytes>, i: nat, r: Appended, content: Option<Bytes>) {
    var found, moved := Found(start, others, i), Found(start, others, i + 1);
    match r
    case Appended(at, line) =>
      && diskOk(i) && next(i) == Some(line) && moved == found
      && at == |BytesOf(found)| && content == Some(BytesOf(found) + line)
    case NotAppended => (!diskOk(i) || next(i).None?) && (content == found || content == moved)
  }

  /** next is called after each read, and may fail; others is what the rest
      adds between the read and the write of each attempt. */
  method AppendConditional(dir: Directory, key: string, next: nat -> Option<Bytes>, diskOk: nat -> bool,
                           others: nat -> Option<Bytes>)
    returns (r: Appended, ghost tries: nat)
    requires Distinguishes(dir.v)
    modifies dir`files
    ensures forall i | 0 <= i < tries :: Beaten(old(dir.At(key)), next, diskOk, others, i)
    ensures if tries < ATTEMPTS then Ends(old(dir.At(key)), next, diskOk, others, tries, r, dir.At(key))
            else tries == ATTEMPTS && r.NotAppended? && dir.At(key) == Found(old(dir.At(key)), others, ATTEMPTS)
    ensures BytesOf(old(dir.At(key))) <= BytesOf(dir.At(key))
  {
    ghost var start := dir.At(key);
    FoundGrows(start, others, 0);
    for i := 0 to ATTEMPTS
      invariant dir.At(key) == Found(start, others, i)
      invariant BytesOf(start) <= BytesOf(dir.At(key))
      invariant forall j | 0 <= j < i :: Beaten(start, next, diskOk, others, j)
    {
      FoundGrows(start, others, i + 1);
      var end := Attempt(dir, key, next(i), diskOk(i), others(i));
      if end.Some? {
        return end.value, i;
      }
    }
    r, tries := NotAppended, ATTEMPTS;
  }

  /** What a call must do: with one of its five attempts under which nobody
      else adds, and no failure of its own until then, the line is written,
      behind all that was there. */
  lemma QuietAttemptAppends(start: Option<Bytes>, next: nat -> Option<Bytes>, diskOk: nat -> bool,
                            others: nat -> Option<Bytes>, tries: nat, r: Appended, content: Option<Bytes>, quiet: nat)
    requires quiet < 5 && others(quiet).None? && forall i | 0 <= i <= quiet :: diskOk(i) && next(i).Some?
    requires forall i | 0 <= i < tries :: Beaten(start, next, diskOk, others, i)
    requires if tries < 5 then Ends(start, next, diskOk, others, tries, r, content)
             else tries == 5 && r.NotAppended?
    ensures r.Appended? && tries <= quiet && next(tries) == Some(r.line)
    ensures content == Some(BytesOf(Found(start, others, tries)) + r.line)
  {
    assert !Beaten(start, next, diskOk, others, quiet);
  }

  // ---- any number of appenders, step by step ----

  /** Where one append call stands: about to read for the given attempt, about
      to write what it computed, written but not told so yet, or over. */
  datatype Stage =
    | Reading(attempt: nat)
    | Writing(attempt: nat, existing: Option<Bytes>, expected: string, line: Bytes)
    | Written
    | Over(acknowledged: bool)

  /** known and behind are history: how many calls had been acknowledged, and
      how many lines written, when this call began. */
  datatype Call = Call(stage: Stage, known: nat, behind: nat)

  datatype Event =
    | Begin
    | Fetch(who: nat, line: Bytes)
    | Store(who: nat, done: bool)
    | Hear(who: nat)
    | Fail(who: nat)

  datatype Entry = Entry(who: nat, line: Bytes)

  /** applied and acks are history: the writes in the order they took the
      lock, and the calls in the order they were acknowledged. */
  datatype World = World(content: Option<Bytes>, calls: seq<Call>, applied: seq<Entry>, acks: seq<nat>)

  function At(w: World, who: nat, stage: Stage): World
    requires who < |w.calls|
  {
    w.(calls := w.calls[who := w.calls[who].(stage := stage)])
  }

  function Stored(v: Fingerprint, w: World, who: nat, done: bool): World
    requires who < |w.calls| && w.calls[who].stage.Writing?
  {
    var c := w.calls[who].stage;
    if VersionOf(v, w.content) != c.expected then
      At(w, who, if c.attempt + 1 < ATTEMPTS then Reading(c.attempt + 1) else Over(false))
    else if !done then At(w, who, Over(false))
    else
      At(w, who, Written).(content := Some(BytesOf(c.existing) + c.line), applied := w.applied + [Entry(who, c.line)])
  }

  /** An object and one call that is about to append line to what it read. */
  function OneWriter(v: Fingerprint, content: Option<Bytes>, existing: Option<Bytes>, line: Bytes): World {
    World(content, [Call(Writing(0, existing, VersionOf(v, existing), line), 0, 0)], [], [])
  }

  /** An error ends a call at any point, also one whose write was done. */
  function Step(v: Fingerprint, w: World, e: Event): World {
    match e
    case Begin => w.(calls := w.calls + [Call(Reading(0), |w.acks|, |w.applied|)])
    case Fetch(who, line) =>
      if who < |w.calls| && w.calls[who].stage.Reading? then
        At(w, who, Writing(w.calls[who].stage.attempt, w.content, VersionOf(v, w.content), line))
      else w
    case Store(who, done) =>
      if who < |w.calls| && w.calls[who].stage.Writing? then Stored(v, w, who, done) else w
    case Hear(who) =>
      if who < |w.calls| && w.calls[who].stage.Written? then
        At(w, who, Over(true)).(acks := w.acks + [who])
      else w
    case Fail(who) =>
      if who < |w.calls| && !w.calls[who].stage.Over? then At(w, who, Over(false)) else w
  }

  function Run(v: Fingerprint, start: Option<Bytes>, events: seq<Event>): World {
    if events == [] then World(start, [], [], [])
    else Step(v, Run(v, start, events[..|events| - 1]), events[|events| - 1])
  }

  function Lines(applied: seq<Entry>): Bytes {
    if applied == [] then [] else Lines(applied[..|applied| - 1]) + applied[|applied| - 1].line
  }

  predicate HasEntry(applied: seq<Entry>, who: nat) {
    exists e | e in applied :: e.who == who
  }

  // ---- what every step keeps ----

  ghost predicate ContentFits(start: Option<Bytes>, w: World) {
    BytesOf(w.content) == BytesOf(start) + Lines(w.applied)
  }

  /** What a call holds of the object is a state it was in. */
  ghost predicate WritersFit(v: Fingerprint, w: World) {
    forall who | 0 <= who < |w.calls| && w.calls[who].stage.Writing? ::
      w.calls[who].stage.expected == VersionOf(v, w.calls[who].stage.existing)
  }

  /** A line is written by one call, which has written no other and writes no
      more; it stands behind the lines written before the call began. */
  ghost predicate EntriesFit(w: World) {
    && (forall j | 0 <= j < |w.applied| ::
          && w.applied[j].who < |w.calls|
          && w.calls[w.applied[j].who].behind <= j
          && (w.calls[w.applied[j].who].stage.Written? || w.calls[w.applied[j].who].stage.Over?))
    && (forall i, j | 0 <= i < j < |w.applied| :: w.applied[i].who != w.applied[j].who)
  }

  predicate Landed(stage: Stage) {
    stage.Written? || stage == Over(true)
  }

  /** A call that has written and not failed since has an entry. */
  ghost predicate LandedFit(w: World) {
    forall who | 0 <= who < |w.calls| && Landed(w.calls[who].stage) :: HasEntry(w.applied, who)
  }

  /** The acknowledged calls, each once, are those that are over well. */
  ghost predicate AcksFit(w: World) {
    && (forall k | 0 <= k < |w.acks| :: w.acks[k] < |w.calls| && w.calls[w.acks[k]].stage == Over(true))
    && (forall who | 0 <= who < |w.calls| && w.calls[who].stage == Over(true) :: who in w.acks)
    && (forall j, k | 0 <= j < k < |w.acks| :: w.acks[j] != w.acks[k])
  }

  /** What a call could know when it began was already written then. */
  ghost predicate KnownFits(w: World) {
    forall who | 0 <= who < |w.calls| ::
      && w.calls[who].known <= |w.acks| && w.calls[who].behind <= |w.applied|
      && forall k | 0 <= k < w.calls[who].known ::
           HasEntry(w.applied[..w.calls[who].behind], w.acks[k])
  }

  ghost predicate Sound(v: Fingerprint, start: Option<Bytes>, w: World) {
    ContentFits(start, w) && WritersFit(v, w) && EntriesFit(w) && LandedFit(w) && AcksFit(w) && KnownFits(w)
  }

  lemma StepKeepsContent(v: Fingerprint, start: Option<Bytes>, w: World, e: Event)
    requires Distinguishes(v) && ContentFits(start, w) && WritersFit(v, w)
    ensures ContentFits(start, Step(v, w, e)) && BytesOf(w.content) <= BytesOf(Step(v, w, e).content)
  {
    if e.Store? && e.who < |w.calls| && w.calls[e.who].stage.Writing? {
      var c := w.calls[e.who].stage;
      if VersionOf(v, w.content) == c.expected && e.done {
        VersionNames(v, w.content, c.existing);
        assert (w.applied + [Entry(e.who, c.line)])[..|w.applied|] == w.applied;
        Assoc(BytesOf(start), Lines(w.applied), c.line);
      }
    }
  }

  lemma StepKeepsWriters(v: Fingerprint, w: World, e: Event)
    requires WritersFit(v, w)
    ensures WritersFit(v, Step(v, w, e))
  {
    var u := Step(v, w, e);
    forall who | 0 <= who < |u.calls| && u.calls[who].stage.Writing?
      ensures u.calls[who].stage.expected == VersionOf(v, u.calls[who].stage.existing)
    {
      assert who < |w.calls| && u.calls[who] == w.calls[who] ==> w.calls[who].stage.Writing?;
    }
  }

  lemma StepKeepsEntries(v: Fingerprint, w: World, e: Event)
    requires EntriesFit(w) && KnownFits(w)
    ensures EntriesFit(Step(v, w, e))
  {
    var u := Step(v, w, e);
    forall j | 0 <= j < |w.applied|
      ensures u.applied[j] == w.applied[j] && u.calls[w.applied[j].who].behind <= j
      ensures u.calls[w.applied[j].who].stage.Written? || u.calls[w.applied[j].who].stage.Over?
    {
    }
    if |u.applied| > |w.applied| {
      assert u.applied == w.applied + [Entry(e.who, w.calls[e.who].stage.line)];
    }
  }

  lemma HasEntryMore(applied: seq<Entry>, more: Entry)
    ensures forall who :: HasEntry(applied + [more], who) <==> HasEntry(applied, who) || who == more.who
  {
    assert more in applied + [more];
    forall who | HasEntry(applied, who) ensures HasEntry(applied + [more], who) {
      var e :| e in applied && e.who == who;
      assert e in applied + [more];
    }
  }

  lemma StepKeepsLanded(v: Fingerprint, w: World, e: Event)
    requires LandedFit(w)
    ensures LandedFit(Step(v, w, e))
  {
    var u := Step(v, w, e);
    if |u.applied| > |w.applied| {
      HasEntryMore(w.applied, Entry(e.who, w.calls[e.who].stage.line));
    }
    forall who | 0 <= who < |u.calls| && Landed(u.calls[who].stage) ensures HasEntry(u.applied, who) {
      assert who < |w.calls|;
      assert Landed(w.calls[who].stage) || (|u.applied| > |w.applied| && who == e.who);
    }
  }

  lemma StepKeepsAcks(v: Fingerprint, w: World, e: Event)
    requires AcksFit(w)
    ensures AcksFit(Step(v, w, e))
  {
    var u := Step(v, w, e);
    if e.Hear? && u.acks != w.acks {
      assert e.who !in w.acks;
      assert u.acks == w.acks + [e.who];
    } else {
      assert u.acks == w.acks;
    }
    forall k | 0 <= k < |w.acks| ensures u.calls[w.acks[k]].stage == Over(true) {
    }
    forall who | 0 <= who < |u.calls| && u.calls[who].stage == Over(true) ensures who in u.acks {
      assert who < |w.calls|;
      if w.calls[who].stage == Over(true) {
        assert who in w.acks;
      }
    }
  }

  /** The history only grows, and a call never forgets what it began with. */
  lemma StepExtends(v: Fingerprint, w: World, e: Event)
    ensures var u := Step(v, w, e);
            && w.acks <= u.acks && w.applied <= u.applied && |w.calls| <= |u.calls|
            && (forall who | 0 <= who < |w.calls| ::
                  u.calls[who].known == w.calls[who].known && u.calls[who].behind == w.calls[who].behind)
            && (forall who | |w.calls| <= who < |u.calls| ::
                  u.calls[who].known == |w.acks| && u.calls[who].behind == |w.applied|)
  {
  }

  lemma StepKeepsKnown(v: Fingerprint, w: World, e: Event)
    requires KnownFits(w) && AcksFit(w) && LandedFit(w)
    ensures KnownFits(Step(v, w, e))
  {
    var u := Step(v, w, e);
    StepExtends(v, w, e);
    forall who | 0 <= who < |u.calls|
      ensures u.calls[who].known <= |u.acks| && u.calls[who].behind <= |u.applied|
      ensures forall k | 0 <= k < u.calls[who].known :: HasEntry(u.applied[..u.calls[who].behind], u.acks[k])
    {
      var behind := u.calls[who].behind;
      assert u.applied[..behind] == w.applied[..behind];
      if who >= |w.calls| {
        assert w.applied[..behind] == w.applied;
      }
    }
  }

  lemma {:induction false} RunIsSound(v: Fingerprint, start: Option<Bytes>, events: seq<Event>)
    requires Distinguishes(v)
    ensures Sound(v, start, Run(v, start, events))
  {
    if events != [] {
      var w, e := Run(v, start, events[..|events| - 1]), events[|events| - 1];
      RunIsSound(v, start, events[..|events| - 1]);
      StepKeepsContent(v, start, w, e);
      StepKeepsWriters(v, w, e);
      StepKeepsEntries(v, w, e);
      StepKeepsLanded(v, w, e);
      StepKeepsAcks(v, w, e);
      StepKeepsKnown(v, w, e);
    }
  }

  /** The object only ever grows by suffixes. */
  lemma {:induction false} OnlyGrows(v: Fingerprint, start: Option<Bytes>, events: seq<Event>, n: nat)
    requires Distinguishes(v) && n <= |events|
    ensures BytesOf(Run(v, start, events[..n]).content) <= BytesOf(Run(v, start, events).content)
  {
    if n == |events| {
      assert events[..n] == events;
    } else {
      var front := events[..|events| - 1];
      assert front[..n] == events[..n];
      OnlyGrows(v, start, front, n);
      RunIsSound(v, start, front);
      StepKeepsContent(v, start, Run(v, start, front), events[|events| - 1]);
    }
  }

  /** No lost update: the object is what it was at the start followed by the
      lines that were written, one after the other; no call wrote two of them,
      and each acknowledged call wrote one. */
  lemma NoLostUpdate(v: Fingerprint, start: Option<Bytes>, events: seq<Event>)
    requires Distinguishes(v)
    ensures var w := Run(v, start, events);
            && BytesOf(w.content) == BytesOf(start) + Lines(w.applied)
            && (forall i, j | 0 <= i < j < |w.applied| :: w.applied[i].who != w.applied[j].who)
            && (forall who | 0 <= who < |w.calls| && w.calls[who].stage == Over(true) :: HasEntry(w.applied, who))
            && (forall who | 0 <= who < |w.calls| :: w.calls[who].stage == Over(true) <==> who in w.acks)
  {
    RunIsSound(v, start, events);
    var w := Run(v, start, events);
    forall who | who in w.acks ensures who < |w.calls| && w.calls[who].stage == Over(true) {
      var k :| 0 <= k < |w.acks| && w.acks[k] == who;
    }
  }

  /** A call that was acknowledged before another began stands before it. */
  lemma AcknowledgedFirst(v: Fingerprint, start: Option<Bytes>, events: seq<Event>, k: nat, i: nat, j: nat)
    requires Distinguishes(v)
    requires var w := Run(v, start, events);
             && i < |w.applied| && j < |w.applied| && w.applied[j].who < |w.calls|
             && k < w.calls[w.applied[j].who].known && k < |w.acks| && w.acks[k] == w.applied[i].who
    ensures i < j
  {
    RunIsSound(v, start, events);
    var w := Run(v, start, events);
    var y := w.applied[j].who;
    assert HasEntry(w.applied[..w.calls[y].behind], w.acks[k]);
    var e :| e in w.applied[..w.calls[y].behind] && e.who == w.acks[k];
    var n :| 0 <= n < w.calls[y].behind && w.applied[n] == e;
  }

  lemma RunMore(v: Fingerprint, start: Option<Bytes>, events: seq<Event>, e: Event)
    ensures Run(v, start, events + [e]) == Step(v, Run(v, start, events), e)
  {
    assert (events + [e])[..|events|] == events;
  }

  lemma StepsUndisturbed(v: Fingerprint, w: World, who: nat, line: Bytes)
    requires who < |w.calls| && w.calls[who].stage.Reading?
    ensures var u := Step(v, Step(v, Step(v, w, Fetch(who, line)), Store(who, true)), Hear(who));
            && u.content == Some(BytesOf(w.content) + line) && u.applied == w.applied + [Entry(who, line)]
            && u.acks == w.acks + [who]
  {
    var u := Step(v, w, Fetch(who, line));
    assert u.calls[who].stage == Writing(w.calls[who].stage.attempt, w.content, VersionOf(v, w.content), line);
    assert Step(v, u, Store(who, true)).calls[who].stage == Written;
  }

  /** What an append must do, in any run: read, written and heard with nobody
      in between, it is acknowledged and its line ends the object. */
  lemma UndisturbedAppends(v: Fingerprint, start: Option<Bytes>, events: seq<Event>, who: nat, line: Bytes)
    requires who < |Run(v, start, events).calls| && Run(v, start, events).calls[who].stage.Reading?
    ensures var w := Run(v, start, events);
            var u := Run(v, start, events + [Fetch(who, line)] + [Store(who, true)] + [Hear(who)]);
            && u.content == Some(BytesOf(w.content) + line) && u.applied == w.applied + [Entry(who, line)]
            && u.acks == w.acks + [who]
  {
    RunMore(v, start, events, Fetch(who, line));
    RunMore(v, start, events + [Fetch(who, line)], Store(who, true));
    RunMore(v, start, events + [Fetch(who, line)] + [Store(who, true)], Hear(who));
    StepsUndisturbed(v, Run(v, start, events), who, line);
  }

  /** Beaten to it before its fifth attempt, it changes nothing and reads
      again. */
  lemma BeatenReadsAgain(v: Fingerprint, start: Option<Bytes>, events: seq<Event>, who: nat, done: bool)
    requires who < |Run(v, start, events).calls| && Run(v, start, events).calls[who].stage.Writing?
    requires var w := Run(v, start, events);
             w.calls[who].stage.attempt + 1 < 5 && VersionOf(v, w.content) != w.calls[who].stage.expected
    ensures var w, u := Run(v, start, events), Run(v, start, events + [Store(who, done)]);
            && u.calls[who].stage == Reading(w.calls[who].stage.attempt + 1)
            && u.content == w.content && u.applied == w.applied && u.acks == w.acks
  {
    RunMore(v, start, events, Store(who, done));
  }

  const CROSSED := [Begin, Begin, Fetch(0, [1]), Store(0, true), Fetch(1, [2]), Store(1, true), Hear(1), Hear(0)]

  lemma CrossedWrites(v: Fingerprint)
    requires Distinguishes(v)
    ensures Run(v, None, CROSSED[..4])
         == World(Some([1 as byte]), [Call(Written, 0, 0), Call(Reading(0), 0, 0)], [Entry(0, [1])], [])
  {
    var r := CROSSED[..4];
    assert r[..3][..2] == r[..2] && r[..2][..1] == r[..1] && r[..1][..0] == [];
    assert Run(v, None, r[..1]) == World(None, [Call(Reading(0), 0, 0)], [], []);
    assert Run(v, None, r[..2]) == World(None, [Call(Reading(0), 0, 0), Call(Reading(0), 0, 0)], [], []);
    assert Run(v, None, r) == Step(v, Run(v, None, r[..3]), Store(0, true));
    assert BytesOf(None) + [1] == [1];
  }

  lemma CrossedAcks(v: Fingerprint, w: World)
    requires w == World(Some([1 as byte]), [Call(Written, 0, 0), Call(Reading(0), 0, 0)], [Entry(0, [1])], [])
    ensures var u := Step(v, Step(v, Step(v, Step(v, w, Fetch(1, [2])), Store(1, true)), Hear(1)), Hear(0));
            u.applied == [Entry(0, [1]), Entry(1, [2])] && u.acks == [1, 0] && u.content == Some([1, 2])
  {
    assert BytesOf(Some([1 as byte])) + [2] == [1, 2];
    var w2 := Step(v, Step(v, w, Fetch(1, [2])), Store(1, true));
    assert w2.calls == [Call(Written, 0, 0), Call(Written, 0, 0)];
    assert Step(v, w2, Hear(1)).acks == [1];
  }

  /** Between calls that overlap, the order of acknowledgement can be the
      other one. */
  lemma AcksCanCross(v: Fingerprint)
    requires Distinguishes(v)
    ensures var w := Run(v, None, CROSSED);
            w.applied == [Entry(0, [1]), Entry(1, [2])] && w.acks == [1, 0] && w.content == Some([1, 2])
  {
    var r := CROSSED;
    assert r[..8] == r && r[..7][..6] == r[..6] && r[..6][..5] == r[..5] && r[..5][..4] == r[..4];
    CrossedWrites(v);
    CrossedAcks(v, Run(v, None, r[..4]));
    assert Run(v, None, r[..5]) == Step(v, Run(v, None, r[..4]), Fetch(1, [2]));
    assert Run(v, None, r[..6]) == Step(v, Run(v, None, r[..5]), Store(1, true));
    assert Run(v, None, r[..7]) == Step(v, Run(v, None, r[..6]), Hear(1));
  }
}
