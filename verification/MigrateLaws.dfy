/** Import undoes export in any archive order, and a strict import leaves
    nothing dangling. */
module MigrateLaws {
  import opened Text
  import opened Journal
  import opened Replay
  import opened Migrate
  import opened MigrateImport

  // ---- completeness ----

  /** ops come from the journals of a store. */
  ghost predicate FromJournals(site: Site, target: Store, ops: seq<Op>) {
    forall op | op in ops :: exists key :: key in target && ClassOf(key) == JournalKey && op in site.parse(target[key])
  }

  /** Every blob a journal names has content, and every manifest that can be
      decoded has its chunks. */
  ghost predicate StoreComplete(site: Site, target: Store) {
    && (forall key, op | key in target && ClassOf(key) == JournalKey && op in site.parse(target[key])
          && op.kind == PUT && op.blob != [] :: HasContent(target, AsText(op.blob)))
    && (forall key, h | key in target && ClassOf(key).ManifestKey? && site.decode(target[key]).Some?
          && h in site.decode(target[key]).value :: HasChunk(target, h))
  }

  /** A strict import says done only when every blob in the replay of the
      imported journals has a blob or a manifest, and every manifest that can
      be decoded has all its chunks. */
  lemma StrictImportIsComplete(site: Site, archive: seq<Member>, ops: seq<Op>)
    requires Ingested(site, archive).Some? && IntakeComplete(Ingested(site, archive).value)
    requires FromJournals(site, Ingested(site, archive).value.target, ops)
    ensures StoreComplete(site, Ingested(site, archive).value.target)
    ensures var files := Fold(Sorted(ops));
            forall path | path in files && files[path].blob != [] ::
              HasContent(Ingested(site, archive).value.target, AsText(files[path].blob))
  {
    IngestedFits(site, archive);
    var s := Ingested(site, archive).value;
    var files := Fold(Sorted(ops));
    forall key, h | key in s.target && ClassOf(key).ManifestKey? && site.decode(s.target[key]).Some?
                    && h in site.decode(s.target[key]).value
      ensures HasChunk(s.target, h)
    {
      assert h in NamedBy(s.named, ClassOf(key).sha);
    }
    forall path | path in files && files[path].blob != []
      ensures HasContent(s.target, AsText(files[path].blob))
    {
      ReplayShowsLastWriter(ops, path);
      LastWriterGreatest(ops, path);
      var op := LastWriter(ops, path).value;
      var key :| key in s.target && ClassOf(key) == JournalKey && op in site.parse(s.target[key]);
      assert AsText(op.blob) in s.referenced;
    }
  }

  // ---- round trip ----

  /** Besides the marker, only objects that a store's export carries. */
  ghost predicate Within(archive: seq<Member>, s: Store) {
    forall m | m in archive :: m.name == MARKER || (!m.isDir && m.name in Carried(s) && m.body == s[m.name])
  }

  /** An archive of what a store's export carries, in any order. */
  ghost predicate Carries(archive: seq<Member>, s: Store) {
    Within(archive, s) && forall key | key in Carried(s) :: Member(key, false, s[key]) in archive
  }

  /** An object an import takes: under a content address only what hashes to
      it, not too large, and accepted by the target. */
  predicate ObjectImports(site: Site, key: string, body: Bytes) {
    && |body| <= site.maxBlob && site.putOk(key)
    && match ClassOf(key)
       case BlobKey(sha) => site.hash(body) == sha
       case ChunkKey(sha) => site.hash(body) == sha
       case OtherKey => false
       case _ => true
  }

  /** The objects of s among the members. */
  function Part(archive: seq<Member>, s: Store): Store {
    map key | key in s && (exists m | m in archive :: m.name == key && key != MARKER) :: s[key]
  }

  lemma MarkerIsOther()
    ensures ClassOf(MARKER) == OtherKey
  {
    assert |MARKER| == 21;
    assert MARKER[0] == 'b' && JOURNAL_DIR[0] == 'j';
  }

  lemma PartStep(archive: seq<Member>, m: Member, s: Store)
    requires m.name == MARKER || m.name in s
    ensures Part(archive + [m], s) == if m.name == MARKER then Part(archive, s) else Part(archive, s)[m.name := s[m.name]]
  {
    var all := archive + [m];
    assert m in all && forall x :: x in all <==> x in archive || x == m;
  }

  ghost predicate Referenced(site: Site, target: Store, sha: string) {
    exists key, op :: key in target && ClassOf(key) == JournalKey && op in site.parse(target[key])
                      && op.kind == PUT && op.blob != [] && AsText(op.blob) == sha
  }

  ghost predicate Named(site: Site, target: Store, sha: string, h: string) {
    exists key :: key in target && ClassOf(key) == ManifestKey(sha)
                  && site.decode(target[key]).Some? && h in site.decode(target[key]).value
  }

  ghost predicate RefsBacked(site: Site, s: Intake) {
    forall sha | sha in s.referenced :: Referenced(site, s.target, sha)
  }

  ghost predicate NamesBacked(site: Site, s: Intake) {
    forall sha, h | sha in s.named && h in s.named[sha] :: Named(site, s.target, sha, h)
  }

  ghost predicate SetsExact(s: Intake) {
    && (forall sha | HasContent(s.target, sha) :: sha in s.content)
    && (forall sha | HasChunk(s.target, sha) :: sha in s.chunks)
    && (s.journals > 0 <==> exists key :: key in s.target && ClassOf(key) == JournalKey)
  }

  /** What is known of an import on the way. */
  ghost predicate Kept(site: Site, s: Intake) {
    SetsExact(s) && RefsBacked(site, s) && NamesBacked(site, s)
  }

  lemma MemberImports(site: Site, was: Intake, m: Member)
    requires Kept(site, was) && m.name != MARKER && !m.isDir
    requires m.name in was.target ==> was.target[m.name] == m.body
    ensures Taken(site, was, m).Some? <==> ObjectImports(site, m.name, m.body)
    ensures Taken(site, was, m).Some? ==>
              Kept(site, Taken(site, was, m).value) && Taken(site, was, m).value.target == was.target[m.name := m.body]
  {
    if Taken(site, was, m).Some? {
      TakenExact(site, was, m);
      TakenRefs(site, was, m);
      TakenNames(site, was, m);
    }
  }

  lemma {:induction false} ImportFollows(site: Site, archive: seq<Member>, s: Store)
    requires Within(archive, s)
    ensures var r := Ingested(site, archive);
            && (r.Some? <==> forall key | key in Part(archive, s) :: ObjectImports(site, key, s[key]))
            && (r.Some? ==> r.value.target == Part(archive, s) && Kept(site, r.value))
  {
    MarkerIsOther();
    if archive != [] {
      var front, m := archive[..|archive| - 1], archive[|archive| - 1];
      assert archive == front + [m] && m in archive;
      assert Within(front, s);
      ImportFollows(site, front, s);
      PartStep(front, m, s);
      if m.name != MARKER && Ingested(site, front).Some? {
        MemberImports(site, Ingested(site, front).value, m);
      }
    }
  }

  lemma TakenExact(site: Site, s: Intake, m: Member)
    requires SetsExact(s) && m.name != MARKER && !m.isDir && Taken(site, s, m).Some?
    ensures SetsExact(Taken(site, s, m).value)
  {
    var t := Taken(site, s, m).value;
    assert t.target == s.target[m.name := m.body];
    forall sha | HasContent(t.target, sha) ensures sha in t.content {
      var k :| k in t.target && (ClassOf(k) == BlobKey(sha) || ClassOf(k) == ManifestKey(sha));
      assert k != m.name ==> HasContent(s.target, sha);
    }
    forall sha | HasChunk(t.target, sha) ensures sha in t.chunks {
      var k :| k in t.target && ClassOf(k) == ChunkKey(sha);
      assert k != m.name ==> HasChunk(s.target, sha);
    }
    assert m.name in t.target;
    assert forall k | k in s.target :: k in t.target;
  }

  lemma TakenRefs(site: Site, s: Intake, m: Member)
    requires RefsBacked(site, s) && m.name != MARKER && !m.isDir && Taken(site, s, m).Some?
    requires m.name in s.target ==> s.target[m.name] == m.body
    ensures RefsBacked(site, Taken(site, s, m).value)
  {
    var t := Taken(site, s, m).value;
    assert t.target == s.target[m.name := m.body];
    NotedAre(s.referenced, site.parse(m.body));
    forall sha | sha in t.referenced
      ensures Referenced(site, t.target, sha)
    {
      if sha in s.referenced {
        var key, op :| key in s.target && ClassOf(key) == JournalKey
          && op in site.parse(s.target[key]) && op.kind == PUT && op.blob != [] && AsText(op.blob) == sha;
        assert t.target[key] == s.target[key];
      } else {
        var op :| op in site.parse(m.body) && op.kind == PUT && op.blob != [] && AsText(op.blob) == sha;
        assert m.name in t.target && t.target[m.name] == m.body;
      }
    }
  }

  lemma TakenNames(site: Site, s: Intake, m: Member)
    requires NamesBacked(site, s) && m.name != MARKER && !m.isDir && Taken(site, s, m).Some?
    requires m.name in s.target ==> s.target[m.name] == m.body
    ensures NamesBacked(site, Taken(site, s, m).value)
  {
    var t := Taken(site, s, m).value;
    assert t.target == s.target[m.name := m.body];
    forall sha, h | sha in t.named && h in t.named[sha]
      ensures Named(site, t.target, sha, h)
    {
      if sha in s.named && h in s.named[sha] {
        var key :| key in s.target && ClassOf(key) == ManifestKey(sha)
          && site.decode(s.target[key]).Some? && h in site.decode(s.target[key]).value;
        assert t.target[key] == s.target[key];
      } else {
        assert m.name in t.target && t.target[m.name] == m.body;
      }
    }
  }

  /** Importing an archive of a store's export, in any order, reproduces every
      journal, blob, chunk and manifest of the store; it is accepted exactly
      when each object is, there is a journal, and, if strict, the store is
      complete. */
  lemma ImportUndoesExport(site: Site, archive: seq<Member>, s: Store)
    requires Carries(archive, s)
    ensures var r := Ingested(site, archive);
            && (r.Some? <==> forall key | key in Carried(s) :: ObjectImports(site, key, s[key]))
            && (r.Some? ==> r.value.target == Carried(s))
            && (r.Some? ==> (r.value.journals > 0 <==> exists key :: key in s && ClassOf(key) == JournalKey))
            && (r.Some? ==> (IntakeComplete(r.value) <==> StoreComplete(site, Carried(s))))
  {
    MarkerIsOther();
    ImportFollows(site, archive, s);
    assert Part(archive, s) == Carried(s) by {
      forall key | key in Carried(s) ensures key in Part(archive, s) {
        assert Member(key, false, s[key]) in archive;
      }
    }
    var r := Ingested(site, archive);
    if r.Some? {
      IngestedFits(site, archive);
      if IntakeComplete(r.value) {
        StrictImportIsComplete(site, archive, []);
      } else if StoreComplete(site, Carried(s)) {
        CompleteStoreImports(site, r.value);
      }
    }
  }

  lemma CompleteStoreImports(site: Site, s: Intake)
    requires StoreComplete(site, s.target) && SetsExact(s) && RefsBacked(site, s) && NamesBacked(site, s)
    ensures IntakeComplete(s)
  {
    forall sha | sha in s.referenced ensures sha in s.content {
      var key, op :| key in s.target && ClassOf(key) == JournalKey
        && op in site.parse(s.target[key]) && op.kind == PUT && op.blob != [] && AsText(op.blob) == sha;
      assert HasContent(s.target, sha);
    }
    forall sha, h | sha in s.named && h in s.named[sha] ensures h in s.chunks {
      var key :| key in s.target && ClassOf(key) == ManifestKey(sha)
        && site.decode(s.target[key]).Some? && h in site.decode(s.target[key]).value;
      assert HasChunk(s.target, h);
    }
  }

  /** What ExportStore writes is such an archive. */
  lemma ExportCarries(s: Store, members: seq<Member>, marker: Bytes)
    requires Holds(s, members, Carried(s).Keys)
    ensures Carries([Member(MARKER, false, marker)] + members, s)
  {
    var archive := [Member(MARKER, false, marker)] + members;
    forall key | key in Carried(s) ensures Member(key, false, s[key]) in archive {
      var m :| m in members && m.name == key;
      assert m in archive;
    }
  }
}
