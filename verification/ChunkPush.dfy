/** Pushing a large blob: chunks first, then the manifest that names them, and
    the whole blob when the manifest is refused. One device at a time against
    a remote others write to, and then any number of devices step by step. */
module ChunkPush {
  import opened Text
  import opened BlobStore
  import opened Chunks
  import opened ChunkFetch

  type Objects = map<Key, Bytes>

  predicate ChunksStored(objects: Objects, h: Hash, parts: seq<Bytes>) {
    forall k | 0 <= k < |parts| :: ChunkKey(h(parts[k])) in objects
  }

  function ManifestBytes(h: Hash, codec: Codec, cut: Chunker, data: Bytes): Bytes {
    codec.encode(ManifestOf(h, cut(data)))
  }

  /** Everything a reader of data needs is on the remote. */
  predicate Available(objects: Objects, h: Hash, codec: Codec, cut: Chunker, data: Bytes) {
    || BlobKey(h(data)) in objects
    || (ManifestKey(h(data)) in objects
        && objects[ManifestKey(h(data))] == ManifestBytes(h, codec, cut, data)
        && ChunksStored(objects, h, cut(data)))
  }

  /** What everyone together may do to a remote: add objects, and never change
      a manifest. */
  ghost predicate Grown(before: Objects, after: Objects) {
    forall k | k in before :: k in after && (k.ManifestKey? ==> after[k] == before[k])
  }

  /** The hub accepts under a content-addressed key only bytes that hash to
      it. */
  predicate Verified(h: Hash, key: Key, bytes: Bytes) {
    match key
    case ManifestKey(_) => true
    case BlobKey(sum) => h(bytes) == sum
    case ChunkKey(sum) => h(bytes) == sum
  }

  /** How a Put ends: stored and reported, stored but reported failed, lost. */
  datatype Fate = Stored | Silent | Lost

  /** A manifest key is write-once: another body under it is refused. */
  predicate Refused(objects: Objects, key: Key, bytes: Bytes) {
    key.ManifestKey? && key in objects && objects[key] != bytes
  }

  /** A shared remote. The caller of a method says how its call fares; the
      contracts leave room for what other writers do meanwhile. What it would
      refuse must not be sent to it. */
  class Remote {
    const h: Hash
    var objects: Objects

    constructor (h: Hash)
      ensures this.h == h && objects == map[]
    {
      this.h := h;
      objects := map[];
    }

    method Exists(key: Key, answered: bool) returns (answer: Option<bool>)
      modifies this`objects
      ensures Grown(old(objects), objects)
      ensures if answered then answer.Some? && (key in old(objects) ==> answer == Some(true)) else answer == None
      ensures answer == Some(true) ==> key in objects
    {
      answer := if answered then Some(key in objects) else None;
    }

    method Put(key: Key, data: Bytes, fate: Fate) returns (ok: bool)
      requires Verified(h, key, data)
      modifies this`objects
      ensures Grown(old(objects), objects)
      ensures ok <==> fate == Stored && !Refused(objects, key, data)
      ensures ok ==> key in objects
    {
      if Refused(objects, key, data) {
        return false;
      }
      if fate != Lost {
        objects := objects[key := data];
      }
      ok := fate == Stored;
    }
  }

  /** One chunk: sent unless the remote confirms that it holds it. */
  method PushChunk(remote: Remote, sha: string, part: Bytes, answered: bool, fate: Fate) returns (ok: bool)
    requires remote.h(part) == sha
    modifies remote`objects
    ensures Grown(old(remote.objects), remote.objects)
    ensures ok ==> ChunkKey(sha) in remote.objects
    ensures fate == Stored || (answered && ChunkKey(sha) in old(remote.objects)) ==> ok
    ensures ok ==> fate == Stored || answered
  {
    var present := remote.Exists(ChunkKey(sha), answered);
    if present == Some(true) {
      return true;
    }
    ok := remote.Put(ChunkKey(sha), part, fate);
  }

  lemma StoredMore(before: Objects, after: Objects, h: Hash, parts: seq<Bytes>, i: nat)
    requires Grown(before, after) && i < |parts|
    requires ChunksStored(before, h, parts[..i]) && ChunkKey(h(parts[i])) in after
    ensures ChunksStored(after, h, parts[..i + 1])
  {
    assert parts[..i + 1] == parts[..i] + [parts[i]];
  }

  /** The calls about chunk k end well: it is sent, or known to be there. */
  predicate GoesUp(objects: Objects, h: Hash, parts: seq<Bytes>, answered: nat -> bool, fates: nat -> Fate, k: nat)
    requires k < |parts|
  {
    fates(k) == Stored || (answered(k) && ChunkKey(h(parts[k])) in objects)
  }

  method PushChunks(remote: Remote, cut: Chunker, data: Bytes, answered: nat -> bool, fates: nat -> Fate)
    returns (man: Option<Manifest>)
    requires Partitions(cut)
    modifies remote`objects
    ensures Grown(old(remote.objects), remote.objects)
    ensures man.Some? ==>
              man.value == ManifestOf(remote.h, cut(data)) && ChunksStored(remote.objects, remote.h, cut(data))
    ensures man.None? ==>
              exists k | 0 <= k < |cut(data)| :: !GoesUp(old(remote.objects), remote.h, cut(data), answered, fates, k)
  {
    var spans := ChunkSpans(remote.h, cut, data);
    ghost var parts := cut(data);
    SpansLocate(remote.h, parts);
    assert Concat(parts) == data;
    var m := Manifest(1, 0, []);
    for i := 0 to |spans|
      invariant Grown(old(remote.objects), remote.objects)
      invariant ChunksStored(remote.objects, remote.h, parts[..i])
      invariant m == ManifestOf(remote.h, parts[..i])
    {
      var sp := spans[i];
      assert parts[..i + 1][..i] == parts[..i];
      m := m.(size := m.size + sp.n, chunks := m.chunks + [ChunkRef(sp.sha, sp.n)]);
      ghost var before := remote.objects;
      var ok := PushChunk(remote, sp.sha, data[sp.off..sp.off + sp.n], answered(i), fates(i));
      if !ok {
        assert !GoesUp(old(remote.objects), remote.h, parts, answered, fates, i);
        return None;
      }
      StoredMore(before, remote.objects, remote.h, parts, i);
    }
    assert parts[..|parts|] == parts;
    man := Some(m);
  }

  /** data is what the local store opens for the blob; answered and fates say
      how the calls about each chunk fare, naming and whole those for the
      manifest and for the whole blob. */
  method PushChunked(remote: Remote, codec: Codec, cut: Chunker, data: Bytes, answered: nat -> bool,
                     fates: nat -> Fate, naming: Fate, whole: Fate)
    returns (ok: bool)
    requires Partitions(cut)
    modifies remote`objects
    ensures Grown(old(remote.objects), remote.objects)
    ensures ok ==> Available(remote.objects, remote.h, codec, cut, data)
    ensures ok ==> naming == Stored || whole == Stored
    ensures (forall k | 0 <= k < |cut(data)| :: GoesUp(old(remote.objects), remote.h, cut(data), answered, fates, k)) ==>
              var mb := ManifestBytes(remote.h, codec, cut, data);
              var named := naming == Stored && !Refused(remote.objects, ManifestKey(remote.h(data)), mb);
              (ok <==> named || whole == Stored) && (ok && !named ==> BlobKey(remote.h(data)) in remote.objects)
  {
    var man := PushChunks(remote, cut, data, answered, fates);
    if man.None? {
      return false;
    }
    var named := remote.Put(ManifestKey(remote.h(data)), codec.encode(man.value), naming);
    if named {
      return true;
    }
    ok := remote.Put(BlobKey(remote.h(data)), data, whole);
  }

  // ---- any number of devices ----

  /** Where a push stands: asking for chunk k, sending it, storing the
      manifest, falling back to the whole blob, or over. */
  datatype Stage = Asking(k: nat) | Sending(k: nat) | Naming | Whole | Over(ok: bool)

  datatype Push = Push(data: Bytes, stage: Stage)

  datatype Event =
    | Start(data: Bytes)
    | Ask(who: nat, answered: bool)
    | Send(who: nat, fate: Fate)
    | Foreign(key: Key, bytes: Bytes)

  /** honest: the blobs whose manifest a device running this protocol stored. */
  datatype World = World(objects: Objects, pushes: seq<Push>, honest: set<Bytes>)

  datatype Setting = Setting(h: Hash, codec: Codec, cut: Chunker)

  function Next(st: Setting, data: Bytes, k: nat): Stage {
    if k >= |st.cut(data)| then Naming else Asking(k)
  }

  function At(w: World, who: nat, stage: Stage): World
    requires who < |w.pushes|
  {
    w.(pushes := w.pushes[who := w.pushes[who].(stage := stage)])
  }

  function Written(w: World, key: Key, bytes: Bytes, fate: Fate): World {
    if fate == Lost then w else w.(objects := w.objects[key := bytes])
  }

  function Sent(st: Setting, w: World, who: nat, fate: Fate): World
    requires who < |w.pushes|
  {
    var p := w.pushes[who];
    match p.stage
    case Sending(k) =>
      if k >= |st.cut(p.data)| then w
      else
        var part := st.cut(p.data)[k];
        At(Written(w, ChunkKey(st.h(part)), part, fate), who,
           if fate == Stored then Next(st, p.data, k + 1) else Over(false))
    case Naming =>
      var key, mb := ManifestKey(st.h(p.data)), ManifestBytes(st.h, st.codec, st.cut, p.data);
      if fate == Lost || Refused(w.objects, key, mb) then At(w, who, Whole)
      else
        At(Written(w, key, mb, fate).(honest := w.honest + {p.data}), who,
           if fate == Stored then Over(true) else Whole)
    case Whole =>
      At(Written(w, BlobKey(st.h(p.data)), p.data, fate), who, Over(fate == Stored))
    case _ => w
  }

  function Step(st: Setting, w: World, e: Event): World {
    match e
    case Start(data) => w.(pushes := w.pushes + [Push(data, Next(st, data, 0))])
    case Ask(who, answered) =>
      if who < |w.pushes| && w.pushes[who].stage.Asking? && w.pushes[who].stage.k < |st.cut(w.pushes[who].data)| then
        var p := w.pushes[who];
        var held := answered && ChunkKey(st.h(st.cut(p.data)[p.stage.k])) in w.objects;
        At(w, who, if held then Next(st, p.data, p.stage.k + 1) else Sending(p.stage.k))
      else w
    case Send(who, fate) => if who < |w.pushes| then Sent(st, w, who, fate) else w
    case Foreign(key, bytes) =>
      if Refused(w.objects, key, bytes) then w else w.(objects := w.objects[key := bytes])
  }

  function Run(st: Setting, events: seq<Event>): World {
    if events == [] then World(map[], [], {})
    else Step(st, Run(st, events[..|events| - 1]), events[|events| - 1])
  }

  // ---- what every step keeps ----

  ghost predicate HonestFits(st: Setting, objects: Objects, data: Bytes) {
    && ManifestKey(st.h(data)) in objects
    && objects[ManifestKey(st.h(data))] == ManifestBytes(st.h, st.codec, st.cut, data)
    && ChunksStored(objects, st.h, st.cut(data))
  }

  function Confirmed(st: Setting, p: Push): nat {
    match p.stage
    case Asking(k) => if k <= |st.cut(p.data)| then k else 0
    case Sending(k) => if k <= |st.cut(p.data)| then k else 0
    case Naming => |st.cut(p.data)|
    case _ => 0
  }

  ghost predicate PushFits(st: Setting, w: World, p: Push) {
    && ChunksStored(w.objects, st.h, st.cut(p.data)[..Confirmed(st, p)])
    && (p.stage == Over(true) ==> p.data in w.honest || BlobKey(st.h(p.data)) in w.objects)
  }

  ghost predicate Sound(st: Setting, w: World) {
    && (forall data | data in w.honest :: HonestFits(st, w.objects, data))
    && (forall i | 0 <= i < |w.pushes| :: PushFits(st, w, w.pushes[i]))
  }

  lemma GrownKeeps(st: Setting, before: World, after: World)
    requires Sound(st, before) && Grown(before.objects, after.objects) && before.honest <= after.honest
    requires before.pushes == after.pushes
    requires forall data | data in after.honest && data !in before.honest :: HonestFits(st, after.objects, data)
    ensures Sound(st, after)
  {
    forall data | data in after.honest ensures HonestFits(st, after.objects, data) {
      assert data in before.honest ==> HonestFits(st, before.objects, data);
    }
    forall i | 0 <= i < |after.pushes| ensures PushFits(st, after, after.pushes[i]) {
      assert PushFits(st, before, before.pushes[i]);
    }
  }

  lemma MoveKeeps(st: Setting, w: World, who: nat, stage: Stage)
    requires Sound(st, w) && who < |w.pushes| && PushFits(st, w, w.pushes[who].(stage := stage))
    ensures Sound(st, At(w, who, stage))
  {
    var v := At(w, who, stage);
    forall i | 0 <= i < |v.pushes| ensures PushFits(st, v, v.pushes[i]) {
      assert PushFits(st, w, w.pushes[i]);
    }
  }

  lemma ChunkNext(st: Setting, w: World, p: Push, k: nat)
    requires k < |st.cut(p.data)| && ChunksStored(w.objects, st.h, st.cut(p.data)[..k])
    requires ChunkKey(st.h(st.cut(p.data)[k])) in w.objects
    ensures PushFits(st, w, p.(stage := Next(st, p.data, k + 1)))
  {
    var parts := st.cut(p.data);
    assert parts[..k + 1] == parts[..k] + [parts[k]];
    assert parts[..|parts|] == parts;
  }

  lemma ChunkSentKeeps(st: Setting, w: World, who: nat, fate: Fate, k: nat)
    requires Sound(st, w) && who < |w.pushes| && w.pushes[who].stage == Sending(k)
    ensures Sound(st, Sent(st, w, who, fate))
  {
    var p := w.pushes[who];
    assert PushFits(st, w, p);
    if k < |st.cut(p.data)| {
      var part := st.cut(p.data)[k];
      var u := Written(w, ChunkKey(st.h(part)), part, fate);
      GrownKeeps(st, w, u);
      if fate == Stored {
        ChunkNext(st, u, p, k);
      }
      MoveKeeps(st, u, who, if fate == Stored then Next(st, p.data, k + 1) else Over(false));
    }
  }

  lemma ManifestSentKeeps(st: Setting, w: World, who: nat, fate: Fate)
    requires Sound(st, w) && who < |w.pushes| && w.pushes[who].stage == Naming
    ensures Sound(st, Sent(st, w, who, fate))
  {
    var p := w.pushes[who];
    assert PushFits(st, w, p);
    var key, mb := ManifestKey(st.h(p.data)), ManifestBytes(st.h, st.codec, st.cut, p.data);
    if fate == Lost || Refused(w.objects, key, mb) {
      MoveKeeps(st, w, who, Whole);
    } else {
      var u := Written(w, key, mb, fate).(honest := w.honest + {p.data});
      assert st.cut(p.data)[..|st.cut(p.data)|] == st.cut(p.data);
      GrownKeeps(st, w, u);
      MoveKeeps(st, u, who, if fate == Stored then Over(true) else Whole);
    }
  }

  lemma SentKeeps(st: Setting, w: World, who: nat, fate: Fate)
    requires Sound(st, w) && who < |w.pushes|
    ensures Sound(st, Sent(st, w, who, fate))
  {
    var p := w.pushes[who];
    match p.stage
    case Sending(k) => ChunkSentKeeps(st, w, who, fate, k);
    case Naming => ManifestSentKeeps(st, w, who, fate);
    case Whole =>
      assert PushFits(st, w, p);
      var u := Written(w, BlobKey(st.h(p.data)), p.data, fate);
      GrownKeeps(st, w, u);
      MoveKeeps(st, u, who, Over(fate == Stored));
    case _ =>
  }

  lemma StepKeeps(st: Setting, w: World, e: Event)
    requires Sound(st, w)
    ensures Sound(st, Step(st, w, e))
  {
    match e
    case Start(data) =>
      var v := Step(st, w, e);
      assert st.cut(data)[..|st.cut(data)|] == st.cut(data);
      forall i | 0 <= i < |v.pushes| ensures PushFits(st, v, v.pushes[i]) {
        assert i < |w.pushes| ==> PushFits(st, w, w.pushes[i]);
      }
    case Ask(who, answered) =>
      if who < |w.pushes| && w.pushes[who].stage.Asking? && w.pushes[who].stage.k < |st.cut(w.pushes[who].data)| {
        var p := w.pushes[who];
        assert PushFits(st, w, p);
        if answered && ChunkKey(st.h(st.cut(p.data)[p.stage.k])) in w.objects {
          ChunkNext(st, w, p, p.stage.k);
          MoveKeeps(st, w, who, Next(st, p.data, p.stage.k + 1));
        } else {
          MoveKeeps(st, w, who, Sending(p.stage.k));
        }
      }
    case Send(who, fate) =>
      if who < |w.pushes| {
        SentKeeps(st, w, who, fate);
      }
    case Foreign(key, bytes) =>
      GrownKeeps(st, w, Step(st, w, e));
  }

  lemma {:induction false} RunIsSound(st: Setting, events: seq<Event>)
    ensures Sound(st, Run(st, events))
  {
    if events != [] {
      RunIsSound(st, events[..|events| - 1]);
      StepKeeps(st, Run(st, events[..|events| - 1]), events[|events| - 1]);
    }
  }

  /** In every run, whatever other writers do and whichever calls fail, a
      manifest that a device of this protocol stored has all its chunks. */
  lemma ManifestImpliesChunks(st: Setting, events: seq<Event>, data: Bytes)
    requires data in Run(st, events).honest
    ensures var w := Run(st, events);
            ManifestKey(st.h(data)) in w.objects
            && w.objects[ManifestKey(st.h(data))] == ManifestBytes(st.h, st.codec, st.cut, data)
            && forall c | c in ManifestOf(st.h, st.cut(data)).chunks :: ChunkKey(c.h) in w.objects
  {
    RunIsSound(st, events);
    var w := Run(st, events);
    assert HonestFits(st, w.objects, data);
    forall c | c in ManifestOf(st.h, st.cut(data)).chunks ensures ChunkKey(c.h) in w.objects {
      var k :| 0 <= k < |st.cut(data)| && Refs(st.h, st.cut(data))[k] == c;
    }
  }

  /** A push that reports success leaves, at that moment and ever after, the
      whole blob or its manifest with all its chunks. */
  lemma SuccessMeansAvailable(st: Setting, events: seq<Event>, who: nat)
    requires who < |Run(st, events).pushes| && Run(st, events).pushes[who].stage == Over(true)
    ensures Available(Run(st, events).objects, st.h, st.codec, st.cut, Run(st, events).pushes[who].data)
  {
    RunIsSound(st, events);
    var w := Run(st, events);
    var p := w.pushes[who];
    assert PushFits(st, w, p);
    if p.data in w.honest {
      assert HonestFits(st, w.objects, p.data);
    }
  }

  // ---- what a push must do ----

  function Repeated<W>(f: W -> W, w: W, n: nat): W {
    if n == 0 then w else f(Repeated(f, w, n - 1))
  }

  lemma {:induction false} RepeatedReaches<W(!new)>(f: W -> W, at: (W, nat) -> bool, w: W, n: nat)
    requires at(w, 0) && forall u, k: nat | k < n && at(u, k) :: at(f(u), k + 1)
    ensures at(Repeated(f, w, n), n)
  {
    if n > 0 {
      RepeatedReaches(f, at, w, n - 1);
    }
  }

  /** The calls about the next chunk, when the remote is not known to hold it
      and it is sent and stored. */
  function Upload(st: Setting, w: World, who: nat): World {
    Step(st, Step(st, w, Ask(who, false)), Send(who, Stored))
  }

  /** A chunk the remote confirms is not sent. */
  lemma HeldIsSkipped(st: Setting, w: World, who: nat, k: nat)
    requires who < |w.pushes| && w.pushes[who].stage == Asking(k) && k < |st.cut(w.pushes[who].data)|
    requires ChunkKey(st.h(st.cut(w.pushes[who].data)[k])) in w.objects
    ensures var p := w.pushes[who];
            Step(st, w, Ask(who, true))
            == w.(pushes := w.pushes[who := Push(p.data, if k + 1 < |st.cut(p.data)| then Asking(k + 1) else Naming)])
  {
  }

  predicate Stands(st: Setting, w: World, who: nat, data: Bytes, k: nat) {
    who < |w.pushes| && w.pushes[who] == Push(data, Next(st, data, k))
  }

  lemma UploadAdvances(st: Setting, w: World, who: nat, data: Bytes, k: nat)
    requires Stands(st, w, who, data, k) && k < |st.cut(data)|
    ensures Stands(st, Upload(st, w, who), who, data, k + 1)
  {
  }

  lemma UploadsAdvance(st: Setting, w: World, who: nat, data: Bytes)
    requires Stands(st, w, who, data, 0)
    ensures Stands(st, Repeated(u => Upload(st, u, who), w, |st.cut(data)|), who, data, |st.cut(data)|)
  {
    forall u, k: nat | k < |st.cut(data)| && Stands(st, u, who, data, k)
      ensures Stands(st, Upload(st, u, who), who, data, k + 1)
    {
      UploadAdvances(st, u, who, data, k);
    }
    RepeatedReaches(u => Upload(st, u, who), (u, k) => Stands(st, u, who, data, k), w, |st.cut(data)|);
  }

  lemma NamedAtLast(st: Setting, w: World, who: nat, naming: Fate)
    requires who < |w.pushes| && w.pushes[who].stage == Naming
    ensures var p, u := w.pushes[who], Step(st, Step(st, w, Send(who, naming)), Send(who, Stored));
            && who < |u.pushes| && u.pushes[who] == p.(stage := Over(true))
            && (BlobKey(st.h(p.data)) in u.objects || (naming == Stored && p.data in u.honest))
  {
  }

  /** From any state of the world, a new push whose chunks are stored ends
      well once the blob itself arrives, whether its manifest is stored, lost
      or refused; the blob is then there, or the manifest was stored. */
  lemma PushCompletes(st: Setting, w: World, data: Bytes, naming: Fate)
    ensures var who := |w.pushes|;
            var up := Repeated(u => Upload(st, u, who), Step(st, w, Start(data)), |st.cut(data)|);
            var u := Step(st, Step(st, up, Send(who, naming)), Send(who, Stored));
            && who < |u.pushes| && u.pushes[who] == Push(data, Over(true))
            && (BlobKey(st.h(data)) in u.objects || (naming == Stored && data in u.honest))
  {
    var who := |w.pushes|;
    UploadsAdvance(st, Step(st, w, Start(data)), who, data);
    NamedAtLast(st, Repeated(u => Upload(st, u, who), Step(st, w, Start(data)), |st.cut(data)|), who, naming);
  }

  // ---- the bytes themselves ----

  ghost predicate ForeignVerified(h: Hash, events: seq<Event>) {
    forall e | e in events && e.Foreign? :: Verified(h, e.key, e.bytes)
  }

  lemma StepVerified(st: Setting, w: World, e: Event)
    requires forall k | k in w.objects :: Verified(st.h, k, w.objects[k])
    requires e.Foreign? ==> Verified(st.h, e.key, e.bytes)
    ensures forall k | k in Step(st, w, e).objects :: Verified(st.h, k, Step(st, w, e).objects[k])
  {
  }

  lemma {:induction false} ContentVerified(st: Setting, events: seq<Event>)
    requires ForeignVerified(st.h, events)
    ensures forall k | k in Run(st, events).objects :: Verified(st.h, k, Run(st, events).objects[k])
  {
    if events != [] {
      var front, last := events[..|events| - 1], events[|events| - 1];
      assert events == front + [last];
      ContentVerified(st, front);
      StepVerified(st, Run(st, front), last);
    }
  }

  function GetterOf(objects: Objects): Getter {
    k => if k in objects then Some(objects[k]) else None
  }

  /** From push to pull: once a push has reported success, any device that
      reads the remote gets the bytes back, whole or through the manifest,
      with any basis of its own. */
  lemma PushedCanBePulled(st: Setting, events: seq<Event>, who: nat, basis: Bytes, local: map<string, Span>)
    requires Digest(st.h) && Lawful(st.codec) && Partitions(st.cut) && ForeignVerified(st.h, events)
    requires LocalFits(st.h, basis, local)
    requires who < |Run(st, events).pushes| && Run(st, events).pushes[who].stage == Over(true)
    requires var data := Run(st, events).pushes[who].data;
             |data| <= MAX_PULL_BYTES && NoCollision(st.h, data)
             && forall part | part in st.cut(data) :: NoCollision(st.h, part)
    ensures var data, get := Run(st, events).pushes[who].data, GetterOf(Run(st, events).objects);
            || get(BlobKey(st.h(data))) == Some(data)
            || (PlanOf(get, st.codec, st.h(data)) == Planned(Refs(st.h, st.cut(data)))
                && Assembled(st.h, get, basis, local, Refs(st.h, st.cut(data))) == Some(data))
  {
    SuccessMeansAvailable(st, events, who);
    ContentVerified(st, events);
    var w := Run(st, events);
    var data, get := w.pushes[who].data, GetterOf(w.objects);
    if BlobKey(st.h(data)) in w.objects {
      assert Verified(st.h, BlobKey(st.h(data)), w.objects[BlobKey(st.h(data))]);
    } else {
      forall part | part in st.cut(data) ensures Serves(get, st.h, part) {
        var k :| 0 <= k < |st.cut(data)| && st.cut(data)[k] == part;
        assert ChunkKey(st.h(part)) in w.objects;
        assert Verified(st.h, ChunkKey(st.h(part)), w.objects[ChunkKey(st.h(part))]);
        assert NoCollision(st.h, part);
      }
      FetchUndoesPush(st.h, get, st.codec, st.cut, data, basis, local);
    }
  }
}
