/** Moving a whole project between hubs: an export carries every object of the
    store's layout, and an import checks what it carries before it says done. */
module Migrate {
  import opened Text
  import BlobStore

  type Store = map<string, Bytes>

  /** One archive member. */
  datatype Member = Member(name: string, isDir: bool, body: Bytes)

  datatype Class = JournalKey | BlobKey(sha: string) | ChunkKey(sha: string) | ManifestKey(sha: string) | OtherKey

  const MARKER := "beardrive-export.json"

  const JOURNAL_DIR := "journal/"
  const BLOB_DIR := "blobs/"
  const CHUNK_DIR := "chunks/"
  const MANIFEST_DIR := "manifests/"
  const DIRS := [JOURNAL_DIR, BLOB_DIR, CHUNK_DIR, MANIFEST_DIR]

  // ---- the store's layout ----

  predicate NameChar(c: char) {
    'A' <= c <= 'Z' || 'a' <= c <= 'z' || '0' <= c <= '9' || c == '.' || c == '_' || c == '-'
  }

  predicate JournalName(name: string) {
    HasSuffix(name, ".jsonl") && |name| > |".jsonl"| && forall c | c in name :: NameChar(c)
  }

  predicate InDir(dir: string, key: string) {
    dir <= key
  }

  function ClassOf(key: string): Class {
    if InDir(JOURNAL_DIR, key) && JournalName(key[|JOURNAL_DIR|..]) then JournalKey
    else if InDir(BLOB_DIR, key) && BlobStore.HexSha(key[|BLOB_DIR|..]) then BlobKey(key[|BLOB_DIR|..])
    else if InDir(CHUNK_DIR, key) && BlobStore.HexSha(key[|CHUNK_DIR|..]) then ChunkKey(key[|CHUNK_DIR|..])
    else if InDir(MANIFEST_DIR, key) && BlobStore.HexSha(key[|MANIFEST_DIR|..]) then
      ManifestKey(key[|MANIFEST_DIR|..])
    else OtherKey
  }

  predicate Allowed(key: string) {
    ClassOf(key) != OtherKey
  }

  /** The part of a store that an export carries. */
  function Carried(s: Store): Store {
    map key | key in s && Allowed(key) :: s[key]
  }

  predicate JournalChars(name: string) {
    name != "" && forall c | c in name :: 'A' <= c <= 'Z' || 'a' <= c <= 'z' || '0' <= c <= '9' || c in "._-"
  }

  /** Which keys are part of a store, and what they are. */
  lemma LayoutIs(name: string, sha: string)
    ensures ClassOf("journal/" + name + ".jsonl") == JournalKey <==> JournalChars(name)
    ensures ClassOf("blobs/" + sha) == BlobKey(sha) <==> BlobStore.HexSha(sha)
    ensures ClassOf("chunks/" + sha) == ChunkKey(sha) <==> BlobStore.HexSha(sha)
    ensures ClassOf("manifests/" + sha) == ManifestKey(sha) <==> BlobStore.HexSha(sha)
  {
    var key := "journal/" + name + ".jsonl";
    assert "journal/" <= key && key[8..] == name + ".jsonl";
    assert forall c | c in ".jsonl" :: NameChar(c);
    assert forall c :: c in name + ".jsonl" <==> c in name || c in ".jsonl";
    assert forall c :: c in "._-" <==> c == '.' || c == '_' || c == '-';
    assert "blobs/" <= "blobs/" + sha && ("blobs/" + sha)[6..] == sha;
    assert "chunks/" <= "chunks/" + sha && ("chunks/" + sha)[7..] == sha;
    assert "manifests/" <= "manifests/" + sha && ("manifests/" + sha)[10..] == sha;
    DirsApart(key);
    DirsApart("blobs/" + sha);
    DirsApart("chunks/" + sha);
    DirsApart("manifests/" + sha);
  }

  /** An export carries the objects under keys of one of four forms, and no
      other. */
  lemma CarriedAre(s: Store, key: string)
    ensures key in Carried(s) <==>
              key in s
              && ((exists name | JournalChars(name) :: key == "journal/" + name + ".jsonl")
                  || exists sha | BlobStore.HexSha(sha) :: key in ["blobs/" + sha, "chunks/" + sha, "manifests/" + sha])
  {
    match ClassOf(key)
    case JournalKey =>
      var name := key[8..];
      assert key == "journal/" + name[..|name| - 6] + ".jsonl";
      LayoutIs(name[..|name| - 6], "");
    case BlobKey(sha) => assert key == "blobs/" + sha;
    case ChunkKey(sha) => assert key == "chunks/" + sha;
    case ManifestKey(sha) => assert key == "manifests/" + sha;
    case OtherKey =>
      forall name | JournalChars(name) ensures key != "journal/" + name + ".jsonl" {
        LayoutIs(name, "");
      }
      forall sha | BlobStore.HexSha(sha) ensures key !in ["blobs/" + sha, "chunks/" + sha, "manifests/" + sha] {
        LayoutIs("", sha);
      }
  }

  // ---- export ----

  /** What List answers for a directory: each of its keys once. */
  ghost predicate Lists(s: Store, dir: string, keys: seq<string>) {
    && (forall k :: k in keys <==> k in s && InDir(dir, k))
    && forall i, j | 0 <= i < j < |keys| :: keys[i] != keys[j]
  }

  ghost predicate DistinctNames(members: seq<Member>) {
    forall i, j | 0 <= i < j < |members| :: members[i].name != members[j].name
  }

  /** members holds the objects of s that keys name, and nothing else. */
  ghost predicate Holds(s: Store, members: seq<Member>, keys: set<string>) {
    && DistinctNames(members)
    && (forall m | m in members :: !m.isDir && m.name in s && m.name in keys && m.body == s[m.name])
    && (forall k | k in keys :: exists m :: m in members && m.name == k)
  }

  function AllowedOf(keys: seq<string>): set<string> {
    set k | k in keys && Allowed(k)
  }

  function KeysUnder(s: Store, dir: string): set<string> {
    set k | k in s && Allowed(k) && InDir(dir, k)
  }

  method ExportDir(s: Store, dir: string, keys: seq<string>) returns (members: seq<Member>)
    requires Lists(s, dir, keys)
    ensures Holds(s, members, KeysUnder(s, dir))
  {
    members := [];
    for i := 0 to |keys|
      invariant Holds(s, members, AllowedOf(keys[..i]))
    {
      assert keys[..i + 1] == keys[..i] + [keys[i]];
      assert keys[i] in keys && keys[i] !in keys[..i];
      assert AllowedOf(keys[..i + 1]) == AllowedOf(keys[..i]) + if Allowed(keys[i]) then {keys[i]} else {};
      if ClassOf(keys[i]) != OtherKey {
        var m := Member(keys[i], false, s[keys[i]]);
        MoreHeld(s, members, AllowedOf(keys[..i]), m);
        members := members + [m];
      }
    }
    assert keys[..|keys|] == keys;
    assert AllowedOf(keys) == KeysUnder(s, dir);
  }

  lemma MoreHeld(s: Store, members: seq<Member>, keys: set<string>, m: Member)
    requires Holds(s, members, keys) && m.name in s && m == Member(m.name, false, s[m.name]) && m.name !in keys
    ensures Holds(s, members + [m], keys + {m.name})
  {
    var all := members + [m];
    assert forall x | x in members :: x in all;
    forall i, j | 0 <= i < j < |all| ensures all[i].name != all[j].name {
      assert all[i] == members[i] && members[i] in members;
    }
    forall k | k in keys + {m.name} ensures exists x :: x in all && x.name == k {
      if k in keys {
        var x :| x in members && x.name == k;
        assert x in all;
      } else {
        assert m in all;
      }
    }
  }

  lemma BothHeld(s: Store, a: seq<Member>, b: seq<Member>, x: set<string>, y: set<string>)
    requires Holds(s, a, x) && Holds(s, b, y) && x !! y
    ensures Holds(s, a + b, x + y)
  {
    var all := a + b;
    forall i, j | 0 <= i < j < |all| ensures all[i].name != all[j].name {
      assert i < |a| ==> all[i] in a;
      assert j >= |a| ==> all[j] in b;
    }
    forall k | k in x + y ensures exists m :: m in all && m.name == k {
      if k in x {
        var m :| m in a && m.name == k;
        assert m in all;
      } else {
        var m :| m in b && m.name == k;
        assert m in all;
      }
    }
  }

  lemma DirsApart(key: string)
    ensures InDir(JOURNAL_DIR, key) ==> !InDir(BLOB_DIR, key) && !InDir(CHUNK_DIR, key) && !InDir(MANIFEST_DIR, key)
    ensures InDir(BLOB_DIR, key) ==> !InDir(CHUNK_DIR, key) && !InDir(MANIFEST_DIR, key)
    ensures InDir(CHUNK_DIR, key) ==> !InDir(MANIFEST_DIR, key)
  {
    assert InDir(JOURNAL_DIR, key) ==> key[0] == 'j';
    assert InDir(BLOB_DIR, key) ==> key[0] == 'b';
    assert InDir(CHUNK_DIR, key) ==> key[0] == 'c';
    assert InDir(MANIFEST_DIR, key) ==> key[0] == 'm';
  }

  /** The keys of the first n directories. */
  function KeysOfDirs(s: Store, n: nat): set<string>
    requires n <= |DIRS|
  {
    if n == 0 then {} else KeysOfDirs(s, n - 1) + KeysUnder(s, DIRS[n - 1])
  }

  lemma KeysOfDirsAre(s: Store, n: nat)
    requires n <= |DIRS|
    ensures forall k :: k in KeysOfDirs(s, n) <==> k in s && Allowed(k) && exists j :: 0 <= j < n && InDir(DIRS[j], k)
  {
  }

  lemma NextDirApart(s: Store, n: nat)
    requires n < |DIRS|
    ensures KeysOfDirs(s, n) !! KeysUnder(s, DIRS[n])
  {
    KeysOfDirsAre(s, n);
    forall k | k in KeysUnder(s, DIRS[n]) ensures k !in KeysOfDirs(s, n) {
      DirsApart(k);
    }
  }

  /** lists stands for the remote's List. The project marker goes first. */
  method ExportStore(s: Store, lists: string -> seq<string>, marker: Bytes) returns (archive: seq<Member>)
    requires forall dir | dir in DIRS :: Lists(s, dir, lists(dir))
    ensures archive != [] && archive[0] == Member(MARKER, false, marker)
    ensures Holds(s, archive[1..], Carried(s).Keys)
  {
    var members: seq<Member> := [];
    for i := 0 to |DIRS|
      invariant Holds(s, members, KeysOfDirs(s, i))
    {
      assert DIRS[i] in DIRS;
      var more := ExportDir(s, DIRS[i], lists(DIRS[i]));
      NextDirApart(s, i);
      BothHeld(s, members, more, KeysOfDirs(s, i), KeysUnder(s, DIRS[i]));
      members := members + more;
    }
    AllKeysCarried(s);
    archive := [Member(MARKER, false, marker)] + members;
    assert archive[1..] == members;
  }

  lemma AllKeysCarried(s: Store)
    ensures KeysOfDirs(s, |DIRS|) == Carried(s).Keys
  {
    KeysOfDirsAre(s, |DIRS|);
    forall k | k in s && Allowed(k) ensures k in KeysOfDirs(s, |DIRS|) {
      assert InDir(DIRS[0], k) || InDir(DIRS[1], k) || InDir(DIRS[2], k) || InDir(DIRS[3], k);
    }
  }
}
