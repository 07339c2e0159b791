/** Importing an archive: every member is checked on the way in, and a strict
    import refuses an archive that lacks content its journals name. */
module MigrateImport {
  import opened Text
  import opened Journal
  import opened Migrate
  import BlobStore

  /** How an import reads and writes: the hash of bytes, the ops of a journal,
      the chunks a manifest names when it can be decoded, the largest member it
      spools, and whether the target accepts an object. */
  datatype Site = Site(hash: BlobStore.Hash, parse: Bytes -> seq<Op>, decode: Bytes -> Option<seq<string>>,
                       maxBlob: nat, putOk: string -> bool)

  datatype Intake = Intake(target: Store, content: set<string>, referenced: map<string, Bytes>,
                           chunks: set<string>, named: map<string, seq<string>>, journals: nat)

  const NOTHING := Intake(map[], {}, map[], {}, map[], 0)

  /** The string a blob sum spells. */
  function AsText(b: Bytes): string {
    seq(|b|, i requires 0 <= i < |b| => b[i] as char)
  }

  predicate NamesBlob(op: Op) {
    op.kind == PUT && op.blob != []
  }

  function Noted(referenced: map<string, Bytes>, ops: seq<Op>): map<string, Bytes> {
    if ops == [] then referenced
    else
      var front, last := Noted(referenced, ops[..|ops| - 1]), ops[|ops| - 1];
      if NamesBlob(last) then front[AsText(last.blob) := last.path] else front
  }

  function NamedBy(named: map<string, seq<string>>, sha: string): seq<string> {
    if sha in named then named[sha] else []
  }

  function Taken(site: Site, s: Intake, m: Member): Option<Intake> {
    if m.name == MARKER || m.isDir then Some(s)
    else
      var class_ := ClassOf(m.name);
      var t := s.(target := s.target[m.name := m.body]);
      if class_ == OtherKey || |m.body| > site.maxBlob || !site.putOk(m.name) then None
      else
        match class_
        case JournalKey => Some(t.(referenced := Noted(s.referenced, site.parse(m.body)), journals := s.journals + 1))
        case ManifestKey(sha) =>
          var named := match site.decode(m.body)
            case None => s.named
            case Some(hs) => s.named[sha := NamedBy(s.named, sha) + hs];
          Some(t.(named := named, content := s.content + {sha}))
        case BlobKey(sha) => if site.hash(m.body) == sha then Some(t.(content := s.content + {sha})) else None
        case ChunkKey(sha) => if site.hash(m.body) == sha then Some(t.(chunks := s.chunks + {sha})) else None
  }

  function Ingested(site: Site, archive: seq<Member>): Option<Intake> {
    if archive == [] then Some(NOTHING)
    else
      match Ingested(site, archive[..|archive| - 1])
      case None => None
      case Some(s) => Taken(site, s, archive[|archive| - 1])
  }

  predicate IntakeComplete(s: Intake) {
    && (forall sha | sha in s.named :: forall h | h in s.named[sha] :: h in s.chunks)
    && (forall sha | sha in s.referenced :: sha in s.content)
  }

  // ---- the loops ----

  method NoteOps(referenced: map<string, Bytes>, ops: seq<Op>) returns (more: map<string, Bytes>)
    ensures more == Noted(referenced, ops)
  {
    more := referenced;
    for i := 0 to |ops|
      invariant more == Noted(referenced, ops[..i])
    {
      assert ops[..i + 1][..i] == ops[..i];
      if ops[i].kind == PUT && ops[i].blob != [] {
        more := more[AsText(ops[i].blob) := ops[i].path];
      }
    }
    assert ops[..|ops|] == ops;
  }

  method TakeMember(site: Site, s: Intake, m: Member) returns (r: Option<Intake>)
    ensures r == Taken(site, s, m)
  {
    if m.name == MARKER || m.isDir {
      return Some(s);
    }
    var class_ := ClassOf(m.name);
    if class_ == OtherKey || |m.body| > site.maxBlob {
      return None;
    }
    var content, chunks, named, referenced, journals := s.content, s.chunks, s.named, s.referenced, s.journals;
    match class_ {
      case JournalKey =>
        referenced := NoteOps(referenced, site.parse(m.body));
        journals := journals + 1;
      case ManifestKey(sha) =>
        var hs := site.decode(m.body);
        if hs.Some? {
          named := named[sha := NamedBy(named, sha) + hs.value];
        }
        content := content + {sha};
      case BlobKey(sha) =>
        if site.hash(m.body) != sha {
          return None;
        }
        content := content + {sha};
      case ChunkKey(sha) =>
        if site.hash(m.body) != sha {
          return None;
        }
        chunks := chunks + {sha};
    }
    if !site.putOk(m.name) {
      return None;
    }
    r := Some(Intake(s.target[m.name := m.body], content, referenced, chunks, named, journals));
  }

  method CheckComplete(s: Intake) returns (complete: bool)
    ensures complete == IntakeComplete(s)
  {
    var left := s.named.Keys;
    while left != {}
      invariant left <= s.named.Keys
      invariant forall sha | sha in s.named && sha !in left :: forall h | h in s.named[sha] :: h in s.chunks
      decreases |left|
    {
      var sha :| sha in left;
      left := left - {sha};
      var hs := s.named[sha];
      for i := 0 to |hs|
        invariant forall j | 0 <= j < i :: hs[j] in s.chunks
      {
        if hs[i] !in s.chunks {
          assert hs[i] in s.named[sha];
          return false;
        }
      }
    }
    var refs := s.referenced.Keys;
    while refs != {}
      invariant refs <= s.referenced.Keys
      invariant forall sha | sha in s.referenced && sha !in refs :: sha in s.content
      decreases |refs|
    {
      var sha :| sha in refs;
      refs := refs - {sha};
      if sha !in s.content {
        return false;
      }
    }
    complete := true;
  }

  /** target is what the import has written, into an empty project, whether or
      not it then says done. */
  method ImportStore(site: Site, archive: seq<Member>, allowIncomplete: bool) returns (done: bool, target: Store)
    ensures var s := Ingested(site, archive);
            && (s.Some? ==> target == s.value.target)
            && (done <==> s.Some? && s.value.journals > 0 && (allowIncomplete || IntakeComplete(s.value)))
  {
    var s := NOTHING;
    for i := 0 to |archive|
      invariant Ingested(site, archive[..i]) == Some(s)
    {
      assert archive[..i + 1][..i] == archive[..i];
      var next := TakeMember(site, s, archive[i]);
      if next.None? {
        IngestedPrefix(site, archive, i + 1);
        return false, s.target;
      }
      s := next.value;
    }
    assert archive[..|archive|] == archive;
    target := s.target;
    if s.journals == 0 {
      return false, target;
    }
    var complete := CheckComplete(s);
    done := complete || allowIncomplete;
  }

  lemma {:induction false} IngestedPrefix(site: Site, archive: seq<Member>, n: nat)
    requires n <= |archive| && Ingested(site, archive[..n]).None?
    ensures Ingested(site, archive).None?
  {
    if n == |archive| {
      assert archive[..n] == archive;
    } else {
      assert archive[..|archive| - 1][..n] == archive[..n];
      IngestedPrefix(site, archive[..|archive| - 1], n);
    }
  }

  // ---- what was imported ----

  lemma {:induction false} NotedAre(referenced: map<string, Bytes>, ops: seq<Op>)
    ensures forall sha :: sha in Noted(referenced, ops) <==>
              sha in referenced || exists op :: op in ops && NamesBlob(op) && AsText(op.blob) == sha
  {
    if ops != [] {
      assert ops == ops[..|ops| - 1] + [ops[|ops| - 1]];
      NotedAre(referenced, ops[..|ops| - 1]);
    }
  }

  ghost predicate JournalsNoted(site: Site, s: Intake) {
    forall key, op | key in s.target && ClassOf(key) == JournalKey && op in site.parse(s.target[key]) && NamesBlob(op) ::
      AsText(op.blob) in s.referenced
  }

  ghost predicate ManifestsNoted(site: Site, s: Intake) {
    forall key | key in s.target && ClassOf(key).ManifestKey? ::
      match site.decode(s.target[key])
      case None => true
      case Some(hs) => forall h | h in hs :: h in NamedBy(s.named, ClassOf(key).sha)
  }

  predicate HasContent(target: Store, sha: string) {
    exists key | key in target :: ClassOf(key) == BlobKey(sha) || ClassOf(key) == ManifestKey(sha)
  }

  predicate HasChunk(target: Store, sha: string) {
    exists key | key in target :: ClassOf(key) == ChunkKey(sha)
  }

  /** Whatever sits under a content address hashes to it, and nothing sits
      outside the layout. */
  ghost predicate TargetVerified(site: Site, target: Store) {
    forall key | key in target ::
      match ClassOf(key)
      case BlobKey(sha) => site.hash(target[key]) == sha
      case ChunkKey(sha) => site.hash(target[key]) == sha
      case OtherKey => false
      case _ => true
  }

  ghost predicate SetsFit(s: Intake) {
    (forall sha | sha in s.content :: HasContent(s.target, sha)) && forall sha | sha in s.chunks :: HasChunk(s.target, sha)
  }

  ghost predicate IntakeFits(site: Site, s: Intake) {
    TargetVerified(site, s.target) && SetsFit(s) && JournalsNoted(site, s) && ManifestsNoted(site, s)
  }

  lemma StillThere(target: Store, key: string, body: Bytes)
    ensures forall sha | HasContent(target, sha) :: HasContent(target[key := body], sha)
    ensures forall sha | HasChunk(target, sha) :: HasChunk(target[key := body], sha)
  {
    var more := target[key := body];
    forall sha | HasContent(target, sha) ensures HasContent(more, sha) {
      var k :| k in target && (ClassOf(k) == BlobKey(sha) || ClassOf(k) == ManifestKey(sha));
      assert k in more;
    }
    forall sha | HasChunk(target, sha) ensures HasChunk(more, sha) {
      var k :| k in target && ClassOf(k) == ChunkKey(sha);
      assert k in more;
    }
  }

  lemma TakenKeeps(site: Site, s: Intake, m: Member)
    requires IntakeFits(site, s) && Taken(site, s, m).Some?
    ensures IntakeFits(site, Taken(site, s, m).value)
  {
    if !(m.name == MARKER || m.isDir) {
      TakenObjects(site, s, m);
      TakenSets(site, s, m);
      TakenJournals(site, s, m);
    }
  }

  lemma TakenObjects(site: Site, s: Intake, m: Member)
    requires TargetVerified(site, s.target) && ManifestsNoted(site, s)
    requires Taken(site, s, m).Some? && !(m.name == MARKER || m.isDir)
    ensures TargetVerified(site, Taken(site, s, m).value.target) && ManifestsNoted(site, Taken(site, s, m).value)
  {
    assert Taken(site, s, m).value.target == s.target[m.name := m.body];
  }

  lemma TakenSets(site: Site, s: Intake, m: Member)
    requires SetsFit(s) && Taken(site, s, m).Some? && !(m.name == MARKER || m.isDir)
    ensures SetsFit(Taken(site, s, m).value)
  {
    var t := Taken(site, s, m).value;
    StillThere(s.target, m.name, m.body);
    assert m.name in t.target;
  }

  lemma TakenJournals(site: Site, s: Intake, m: Member)
    requires JournalsNoted(site, s) && Taken(site, s, m).Some? && !(m.name == MARKER || m.isDir)
    ensures JournalsNoted(site, Taken(site, s, m).value)
  {
    if ClassOf(m.name) == JournalKey {
      NotedAre(s.referenced, site.parse(m.body));
    }
  }

  lemma {:induction false} IngestedFits(site: Site, archive: seq<Member>)
    ensures Ingested(site, archive).Some? ==> IntakeFits(site, Ingested(site, archive).value)
  {
    if archive != [] {
      IngestedFits(site, archive[..|archive| - 1]);
      if Ingested(site, archive).Some? {
        TakenKeeps(site, Ingested(site, archive[..|archive| - 1]).value, archive[|archive| - 1]);
      }
    }
  }
}
