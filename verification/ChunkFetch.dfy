/** Pulling a blob through its manifest: chunks of a version already held
    locally, the rest from the remote, filed under the hash of the result. */
module ChunkFetch {
  import opened Text
  import opened BlobStore
  import opened Chunks

  /** What the remote answers; None is any failure. */
  type Getter = Key -> Option<Bytes>

  datatype Plan = Unplanned | Broken | Planned(chunks: seq<ChunkRef>)

  datatype Fetched = Done | NoManifest | Failed

  // ---- the manifest ----

  predicate ValidRef(c: ChunkRef) {
    HexSha(c.h) && c.n >= 0
  }

  function Total(chunks: seq<ChunkRef>): int {
    if chunks == [] then 0 else Wrap64(Total(chunks[..|chunks| - 1]) + chunks[|chunks| - 1].n)
  }

  function Limited(b: Bytes, n: int): Bytes {
    if n <= 0 then [] else if n < |b| then b[..n] else b
  }

  function PlanOf(get: Getter, codec: Codec, blob: string): Plan {
    match get(ManifestKey(blob))
    case None => Unplanned
    case Some(raw) =>
      match codec.decode(Limited(raw, MANIFEST_BOUND))
      case None => Broken
      case Some(man) =>
        if exists c | c in man.chunks :: !ValidRef(c) then Broken
        else if Total(man.chunks) > MAX_PULL_BYTES then Unplanned
        else Planned(man.chunks)
  }

  /** The sum a reader means: Total keeps it in 64 bits. */
  function Sum(chunks: seq<ChunkRef>): int {
    if chunks == [] then 0 else Sum(chunks[..|chunks| - 1]) + chunks[|chunks| - 1].n
  }

  lemma WrapAdd(a: int, b: int)
    ensures Wrap64(Wrap64(a) + b) == Wrap64(a + b)
  {
    var k := a - Wrap64(a);
    assert k % 0x1_0000_0000_0000_0000 == 0;
  }

  lemma {:induction false} TotalWraps(chunks: seq<ChunkRef>)
    ensures Total(chunks) == Wrap64(Sum(chunks))
  {
    if chunks != [] {
      TotalWraps(chunks[..|chunks| - 1]);
      WrapAdd(Sum(chunks[..|chunks| - 1]), chunks[|chunks| - 1].n);
    }
  }

  /** The remote's answer decides: no manifest, or one of too much, leaves the
      blob to be pulled whole; a bad one is an error. */
  lemma PlanAnswers(get: Getter, codec: Codec, blob: string)
    ensures get(ManifestKey(blob)).None? ==> PlanOf(get, codec, blob) == Unplanned
    ensures get(ManifestKey(blob)).Some? ==>
              var man := codec.decode(Limited(get(ManifestKey(blob)).value, 0x800000));
              var bad := man.None? || exists c | c in man.value.chunks :: !HexSha(c.h) || c.n < 0;
              PlanOf(get, codec, blob)
              == if bad then Broken
                 else if Wrap64(Sum(man.value.chunks)) > 104857600 then Unplanned
                 else Planned(man.value.chunks)
  {
    if get(ManifestKey(blob)).Some? {
      var man := codec.decode(Limited(get(ManifestKey(blob)).value, MANIFEST_BOUND));
      if man.Some? {
        TotalWraps(man.value.chunks);
        forall c | c in man.value.chunks ensures ValidRef(c) <==> HexSha(c.h) && c.n >= 0 {
        }
      }
    }
  }

  method ReadManifest(get: Getter, codec: Codec, blob: string) returns (plan: Plan)
    ensures plan == PlanOf(get, codec, blob)
  {
    var raw := get(ManifestKey(blob));
    if raw.None? {
      return Unplanned;
    }
    var man := codec.decode(Limited(raw.value, MANIFEST_BOUND));
    if man.None? {
      return Broken;
    }
    var chunks := man.value.chunks;
    var total := 0;
    for i := 0 to |chunks|
      invariant total == Total(chunks[..i])
      invariant forall j | 0 <= j < i :: ValidRef(chunks[j])
    {
      if !HexSha(chunks[i].h) || chunks[i].n < 0 {
        assert chunks[i] in chunks && !ValidRef(chunks[i]);
        return Broken;
      }
      assert chunks[..i + 1][..i] == chunks[..i];
      total := Wrap64(total + chunks[i].n);
    }
    assert chunks[..|chunks|] == chunks;
    if total > MAX_PULL_BYTES {
      return Unplanned;
    }
    plan := Planned(chunks);
  }

  // ---- the local basis ----

  ghost predicate LocalFits(h: Hash, basis: Bytes, local: map<string, Span>) {
    forall sha | sha in local :: SpanFits(h, basis, local[sha]) && local[sha].sha == sha
  }

  method LocalSpans(h: Hash, cut: Chunker, basis: Bytes) returns (local: map<string, Span>)
    requires Partitions(cut)
    ensures LocalFits(h, basis, local)
    ensures forall part | part in cut(basis) :: h(part) in local
  {
    var spans := ChunkSpans(h, cut, basis);
    SpansLocate(h, cut(basis));
    local := map[];
    for i := 0 to |spans|
      invariant LocalFits(h, basis, local)
      invariant forall j | 0 <= j < i :: h(cut(basis)[j]) in local
    {
      assert Locates(h, basis, spans[i], cut(basis)[i]);
      local := local[spans[i].sha := spans[i]];
    }
  }

  // ---- putting the pieces together ----

  function Piece(h: Hash, get: Getter, basis: Bytes, local: map<string, Span>, c: ChunkRef): Option<Bytes>
    requires LocalFits(h, basis, local)
  {
    if c.h in local then Some(basis[local[c.h].off..local[c.h].off + local[c.h].n])
    else
      match get(ChunkKey(c.h))
      case None => None
      case Some(b) =>
        var got := Limited(b, Wrap64(c.n + 1));
        if |got| == c.n && h(got) == c.h then Some(got) else None
  }

  function Assembled(h: Hash, get: Getter, basis: Bytes, local: map<string, Span>, chunks: seq<ChunkRef>)
    : Option<Bytes>
    requires LocalFits(h, basis, local)
  {
    if chunks == [] then Some([])
    else
      match (Assembled(h, get, basis, local, chunks[..|chunks| - 1]),
             Piece(h, get, basis, local, chunks[|chunks| - 1]))
      case (Some(front), Some(last)) => Some(front + last)
      case _ => None
  }

  lemma {:induction false} AssembledPrefix(h: Hash, get: Getter, basis: Bytes, local: map<string, Span>,
                                           chunks: seq<ChunkRef>, n: nat)
    requires LocalFits(h, basis, local) && n <= |chunks|
    requires Assembled(h, get, basis, local, chunks[..n]).None?
    ensures Assembled(h, get, basis, local, chunks).None?
  {
    if n == |chunks| {
      assert chunks[..n] == chunks;
    } else {
      assert chunks[..|chunks| - 1][..n] == chunks[..n];
      AssembledPrefix(h, get, basis, local, chunks[..|chunks| - 1], n);
    }
  }

  /** The chunk is in the basis, or the remote serves bytes of its length and
      hash. */
  predicate CanBeHad(h: Hash, get: Getter, local: map<string, Span>, c: ChunkRef) {
    || c.h in local
    || (match get(ChunkKey(c.h)) case None => false case Some(b) => |b| == c.n && h(b) == c.h)
  }

  lemma PieceIs(h: Hash, get: Getter, basis: Bytes, local: map<string, Span>, c: ChunkRef)
    requires LocalFits(h, basis, local) && 0 <= c.n < 0x7FFF_FFFF_FFFF_FFFF
    ensures var piece := Piece(h, get, basis, local, c);
            (piece.Some? <==> CanBeHad(h, get, local, c)) && (piece.Some? ==> h(piece.value) == c.h)
  {
    if c.h in local {
      assert SpanFits(h, basis, local[c.h]);
    } else if get(ChunkKey(c.h)).Some? {
      var b := get(ChunkKey(c.h)).value;
      assert Limited(b, c.n + 1) == if c.n + 1 < |b| then b[..c.n + 1] else b;
    }
  }

  lemma AssembledMore(h: Hash, get: Getter, basis: Bytes, local: map<string, Span>, front: seq<ChunkRef>, c: ChunkRef)
    requires LocalFits(h, basis, local)
    ensures Assembled(h, get, basis, local, front + [c])
         == match (Assembled(h, get, basis, local, front), Piece(h, get, basis, local, c))
            case (Some(out), Some(last)) => Some(out + last)
            case _ => None
  {
    assert (front + [c])[..|front|] == front;
  }

  /** parts are the pieces of a file, one for each chunk and of its hash. */
  ghost predicate PiecesOf(h: Hash, parts: seq<Bytes>, chunks: seq<ChunkRef>, out: Bytes) {
    out == Concat(parts) && |parts| == |chunks| && forall k | 0 <= k < |chunks| :: h(parts[k]) == chunks[k].h
  }

  lemma PiecesMore(h: Hash, parts: seq<Bytes>, chunks: seq<ChunkRef>, out: Bytes, last: Bytes, c: ChunkRef)
    requires PiecesOf(h, parts, chunks, out) && h(last) == c.h
    ensures PiecesOf(h, parts + [last], chunks + [c], out + last)
  {
    assert (parts + [last])[..|parts|] == parts;
  }

  /** A file is assembled exactly when each of its chunks can be had, and then
      from one piece for each, of its hash: a chunk the remote serves wrongly
      stops the whole. */
  lemma {:induction false} AssembledIff(h: Hash, get: Getter, basis: Bytes, local: map<string, Span>,
                                        chunks: seq<ChunkRef>) returns (parts: seq<Bytes>)
    requires LocalFits(h, basis, local) && forall c | c in chunks :: 0 <= c.n < 0x7FFF_FFFF_FFFF_FFFF
    ensures Assembled(h, get, basis, local, chunks).Some? <==> forall c | c in chunks :: CanBeHad(h, get, local, c)
    ensures Assembled(h, get, basis, local, chunks).Some? ==>
              PiecesOf(h, parts, chunks, Assembled(h, get, basis, local, chunks).value)
  {
    parts := [];
    if chunks != [] {
      var front, c := chunks[..|chunks| - 1], chunks[|chunks| - 1];
      assert chunks == front + [c];
      parts := AssembledIff(h, get, basis, local, front);
      PieceIs(h, get, basis, local, c);
      AssembledMore(h, get, basis, local, front, c);
      var had, last := Assembled(h, get, basis, local, front), Piece(h, get, basis, local, c);
      if had.Some? && last.Some? {
        PiecesMore(h, parts, front, had.value, last.value, c);
        parts := parts + [last.value];
      }
    }
  }

  /** One chunk, from the basis or from the remote and then checked. */
  method PieceOf(h: Hash, get: Getter, basis: Bytes, local: map<string, Span>, c: ChunkRef)
    returns (r: Option<Bytes>)
    requires LocalFits(h, basis, local)
    ensures r == Piece(h, get, basis, local, c)
  {
    if c.h in local {
      var sp := local[c.h];
      return Some(basis[sp.off..sp.off + sp.n]);
    }
    var crc := get(ChunkKey(c.h));
    if crc.None? {
      return None;
    }
    var got := Limited(crc.value, Wrap64(c.n + 1));
    if |got| != c.n || h(got) != c.h {
      return None;
    }
    r := Some(got);
  }

  method Assemble(h: Hash, get: Getter, basis: Bytes, local: map<string, Span>, chunks: seq<ChunkRef>)
    returns (tmp: Option<Bytes>)
    requires LocalFits(h, basis, local)
    ensures tmp == Assembled(h, get, basis, local, chunks)
  {
    var out: Bytes := [];
    for i := 0 to |chunks|
      invariant Assembled(h, get, basis, local, chunks[..i]) == Some(out)
    {
      assert chunks[..i + 1][..i] == chunks[..i];
      var piece := PieceOf(h, get, basis, local, chunks[i]);
      if piece.None? {
        AssembledPrefix(h, get, basis, local, chunks, i + 1);
        return None;
      }
      out := out + piece.value;
    }
    assert chunks[..|chunks|] == chunks;
    tmp := Some(out);
  }

  /** The version of the path held locally, when it can be read. */
  function Basis(files: map<string, Bytes>, basis: string, basisOk: bool): Bytes {
    if basis != "" && basisOk && Has(files, basis) then files[BlobPath(basis)] else []
  }

  // ---- fetch undoes push ----

  /** The remote serves a chunk. */
  predicate Serves(get: Getter, h: Hash, part: Bytes) {
    get(ChunkKey(h(part))) == Some(part)
  }

  lemma {:induction false} TotalIs(h: Hash, parts: seq<Bytes>)
    requires |Concat(parts)| <= MAX_PULL_BYTES
    ensures Total(Refs(h, parts)) == |Concat(parts)|
  {
    if parts != [] {
      TotalIs(h, parts[..|parts| - 1]);
      assert Refs(h, parts)[..|parts| - 1] == Refs(h, parts[..|parts| - 1]);
    }
  }

  ghost predicate Obtainable(h: Hash, get: Getter, local: map<string, Span>, part: Bytes) {
    NoCollision(h, part) && |part| <= CHUNK_MAX && (h(part) in local || Serves(get, h, part))
  }

  lemma PieceIsChunk(h: Hash, get: Getter, basis: Bytes, local: map<string, Span>, part: Bytes)
    requires LocalFits(h, basis, local) && Obtainable(h, get, local, part)
    ensures Piece(h, get, basis, local, ChunkRef(h(part), |part|)) == Some(part)
  {
    if h(part) in local {
      assert SpanFits(h, basis, local[h(part)]);
    } else {
      assert Limited(part, |part| + 1) == part;
    }
  }

  lemma {:induction false} PiecesMakeWhole(h: Hash, get: Getter, basis: Bytes, local: map<string, Span>,
                                           parts: seq<Bytes>)
    requires LocalFits(h, basis, local)
    requires forall k | 0 <= k < |parts| :: Obtainable(h, get, local, parts[k])
    ensures Assembled(h, get, basis, local, Refs(h, parts)) == Some(Concat(parts))
  {
    if parts != [] {
      var front, last := parts[..|parts| - 1], parts[|parts| - 1];
      PiecesMakeWhole(h, get, basis, local, front);
      assert Refs(h, parts)[..|parts| - 1] == Refs(h, front);
      PieceIsChunk(h, get, basis, local, last);
    }
  }

  lemma NoParts(parts: seq<Bytes>)
    requires forall k | 0 <= k < |parts| :: 0 < |parts[k]|
    ensures Concat(parts) == [] ==> parts == []
  {
    if parts != [] {
      assert |Concat(parts)| >= |parts[|parts| - 1]|;
    }
  }

  lemma PlanOfPushed(h: Hash, get: Getter, codec: Codec, cut: Chunker, data: Bytes)
    requires Digest(h) && Lawful(codec) && Partitions(cut) && |data| <= MAX_PULL_BYTES
    requires get(ManifestKey(h(data))) == Some(codec.encode(ManifestOf(h, cut(data))))
    ensures PlanOf(get, codec, h(data)) == Planned(Refs(h, cut(data)))
  {
    var parts := cut(data);
    var man := ManifestOf(h, parts);
    ManifestReads(h, codec, cut, data);
    assert Concat(parts) == data;
    TotalIs(h, parts);
    forall c | c in man.chunks ensures ValidRef(c) {
      var k :| 0 <= k < |parts| && man.chunks[k] == c;
    }
  }

  /** Fetch undoes push: with the manifest that push stores and each chunk
      either in the local basis or on the remote, the result is the blob,
      whichever chunks come from where. */
  lemma FetchUndoesPush(h: Hash, get: Getter, codec: Codec, cut: Chunker, data: Bytes,
                        basis: Bytes, local: map<string, Span>)
    requires Digest(h) && Lawful(codec) && Partitions(cut) && LocalFits(h, basis, local)
    requires |data| <= MAX_PULL_BYTES && forall part | part in cut(data) :: NoCollision(h, part)
    requires get(ManifestKey(h(data))) == Some(codec.encode(ManifestOf(h, cut(data))))
    requires forall part | part in cut(data) :: h(part) in local || Serves(get, h, part)
    ensures var refs := Refs(h, cut(data));
            PlanOf(get, codec, h(data)) == Planned(refs)
            && Assembled(h, get, basis, local, refs) == Some(data)
  {
    var parts := cut(data);
    PlanOfPushed(h, get, codec, cut, data);
    assert Concat(parts) == data;
    forall k | 0 <= k < |parts| ensures Obtainable(h, get, local, parts[k]) {
      assert parts[k] in parts;
    }
    PiecesMakeWhole(h, get, basis, local, parts);
  }

  // ---- the fetch itself ----

  /** data can be had for blob: its manifest is served, and each of its chunks
      is served or is a chunk of the basis. */
  ghost predicate Fetchable(h: Hash, get: Getter, codec: Codec, cut: Chunker, base: Bytes, blob: string, data: Bytes) {
    && blob == h(data) && |data| <= MAX_PULL_BYTES
    && NoCollision(h, data) && (forall part | part in cut(data) :: NoCollision(h, part))
    && get(ManifestKey(blob)) == Some(codec.encode(ManifestOf(h, cut(data))))
    && (forall part | part in cut(data) :: part in cut(base) || Serves(get, h, part))
  }

  method LocalBasis(store: BlobStore, cut: Chunker, basis: string, basisOk: bool)
    returns (base: Bytes, local: map<string, Span>)
    requires store.Valid() && Partitions(cut)
    ensures base == Basis(store.files, basis, basisOk) && LocalFits(store.h, base, local)
    ensures forall part | part in cut(base) :: store.h(part) in local
  {
    base, local := [], map[];
    assert Concat(cut([])) == [];
    NoParts(cut([]));
    if basis != "" && basisOk && store.HasBlob(basis) {
      var bf := store.OpenBlob(basis);
      base := bf.value;
      local := LocalSpans(store.h, cut, base);
    }
  }

  /** Assembling a plan and filing the result. */
  method Rebuild(store: BlobStore, get: Getter, blob: string, chunks: seq<ChunkRef>, base: Bytes,
                 local: map<string, Span>, tempOk: bool, putOk: bool)
    returns (r: Fetched)
    requires store.Valid() && LocalFits(store.h, base, local)
    modifies store`files
    ensures store.Valid() && r in {Done, Failed}
    ensures r == Done ==> store.HasBlob(blob) && store.h(store.files[BlobPath(blob)]) == blob
    ensures var out := Assembled(store.h, get, base, local, chunks);
            && (r == Done <==> tempOk && putOk && out.Some? && store.h(out.value) == blob)
            && store.files == (if tempOk && putOk && out.Some? then Stored(store.h, old(store.files), out.value)
                               else old(store.files))
  {
    var tmp := Assemble(store.h, get, base, local, chunks);
    if !tempOk || tmp.None? {
      return Failed;
    }
    var sum := store.PutBlobReader(tmp.value, putOk);
    if sum == Some(blob) {
      FiledUnder(store.h, store.files, blob);
      r := Done;
    } else {
      r := Failed;
    }
  }

  /** basisOk, tempOk and putOk: whether the local disk does its part. */
  method FetchChunked(store: BlobStore, get: Getter, codec: Codec, cut: Chunker, blob: string, basis: string,
                      basisOk: bool, tempOk: bool, putOk: bool)
    returns (r: Fetched, ghost local: map<string, Span>)
    requires store.Valid() && Partitions(cut)
    modifies store`files
    ensures store.Valid()
    ensures LocalFits(store.h, Basis(old(store.files), basis, basisOk), local)
    ensures var base := Basis(old(store.files), basis, basisOk);
            PlanOf(get, codec, blob).Planned? ==> forall part | part in cut(base) :: store.h(part) in local
    ensures var plan := PlanOf(get, codec, blob);
            var base := Basis(old(store.files), basis, basisOk);
            match plan
            case Unplanned => r == NoManifest && store.files == old(store.files)
            case Broken => r == Failed && store.files == old(store.files)
            case Planned(chunks) =>
              var out := Assembled(store.h, get, base, local, chunks);
              && (r == Done <==> tempOk && putOk && out.Some? && store.h(out.value) == blob)
              && (r != Done ==> r == Failed)
              && store.files == (if tempOk && putOk && out.Some? then Stored(store.h, old(store.files), out.value)
                                 else old(store.files))
    ensures get(ManifestKey(blob)).None? ==> r == NoManifest
    ensures get(ManifestKey(blob)).Some? ==>
              var man := codec.decode(Limited(get(ManifestKey(blob)).value, 0x800000));
              var bad := man.None? || exists c | c in man.value.chunks :: !HexSha(c.h) || c.n < 0;
              && (bad ==> r == Failed)
              && (r == NoManifest <==> !bad && Wrap64(Sum(man.value.chunks)) > 104857600)
    ensures r == NoManifest ==> store.files == old(store.files)
    ensures r == Done ==> store.HasBlob(blob)
    ensures var base := Basis(old(store.files), basis, basisOk);
            Lawful(codec) && tempOk && putOk ==>
              forall data | Fetchable(store.h, get, codec, cut, base, blob, data) ::
                r == Done && store.HasBlob(blob) && store.files[BlobPath(blob)] == data
  {
    local := map[];
    var plan := ReadManifest(get, codec, blob);
    PlanAnswers(get, codec, blob);
    ghost var hash := store.h;
    forall data | Lawful(codec) && Fetchable(hash, get, codec, cut, Basis(store.files, basis, basisOk), blob, data)
      ensures plan == Planned(Refs(hash, cut(data)))
    {
      PlanOfPushed(hash, get, codec, cut, data);
    }
    if plan.Unplanned? {
      return NoManifest, map[];
    }
    if plan.Broken? {
      return Failed, map[];
    }
    var base, spans := LocalBasis(store, cut, basis, basisOk);
    local := spans;
    forall data | Lawful(codec) && Fetchable(hash, get, codec, cut, base, blob, data)
      ensures Assembled(hash, get, base, local, plan.chunks) == Some(data)
    {
      FetchUndoesPush(hash, get, codec, cut, data, base, local);
    }
    r := Rebuild(store, get, blob, plan.chunks, base, spans, tempOk, putOk);
  }

  /** Over any run of puts and fetches, that is over any sequence of contents
      they stored, whatever a remote served: under the hash of some content
      the store holds nothing but that content. */
  lemma {:induction false} NeverWrongBytes(h: Hash, written: seq<Bytes>, data: Bytes)
    requires Digest(h) && NoCollision(h, data) && Has(StoreRun(h, written), h(data))
    ensures StoreRun(h, written)[BlobPath(h(data))] == data && data in written
  {
    var front, last := written[..|written| - 1], written[|written| - 1];
    var files := StoreRun(h, front);
    if Has(files, h(data)) {
      NeverWrongBytes(h, front, data);
      if BlobPath(h(last)) == BlobPath(h(data)) {
        BlobPathInjective(h(data), h(last));
      }
    } else {
      BlobPathInjective(h(data), h(last));
    }
  }

  /** The files after storing one content after another. */
  function StoreRun(h: Hash, written: seq<Bytes>): map<string, Bytes> {
    if written == [] then map[] else Stored(h, StoreRun(h, written[..|written| - 1]), written[|written| - 1])
  }
}
