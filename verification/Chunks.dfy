/** Delta sync: a large blob travels as content-defined chunks and a manifest
    that names them. */
module Chunks {
  import opened Text
  import opened BlobStore

  const CHUNK_MIN := 0x40000
  const CHUNK_MAX := 0x400000
  const MANIFEST_BOUND := 0x800000
  const MAX_PULL_BYTES := 104857600

  datatype ChunkRef = ChunkRef(h: string, n: int)

  datatype Manifest = Manifest(v: int, size: int, chunks: seq<ChunkRef>)

  datatype Span = Span(sha: string, off: nat, n: nat)

  datatype Key = BlobKey(sum: string) | ChunkKey(sum: string) | ManifestKey(sum: string)

  /** Cuts bytes at content-defined boundaries. */
  type Chunker = Bytes -> seq<Bytes>

  function Concat(parts: seq<Bytes>): Bytes {
    if parts == [] then [] else Concat(parts[..|parts| - 1]) + parts[|parts| - 1]
  }

  ghost predicate Partitions(cut: Chunker) {
    forall b ::
      && Concat(cut(b)) == b
      && (forall k | 0 <= k < |cut(b)| :: 0 < |cut(b)[k]| <= CHUNK_MAX)
      && (forall k | 0 <= k < |cut(b)| - 1 :: CHUNK_MIN <= |cut(b)[k]|)
  }

  // ---- Go's int64 ----

  predicate Int64(x: int) {
    -0x8000_0000_0000_0000 <= x < 0x8000_0000_0000_0000
  }

  function Wrap64(x: int): (r: int)
    ensures Int64(r) && (Int64(x) ==> r == x)
  {
    var m := x % 0x1_0000_0000_0000_0000;
    if m >= 0x8000_0000_0000_0000 then m - 0x1_0000_0000_0000_0000 else m
  }

  // ---- manifests as stored ----

  /** JSON, by what it promises. */
  datatype Codec = Codec(encode: Manifest -> Bytes, decode: Bytes -> Option<Manifest>)

  predicate Storable(m: Manifest) {
    Int64(m.v) && Int64(m.size) && forall c | c in m.chunks :: HexSha(c.h) && Int64(c.n)
  }

  ghost predicate Lawful(codec: Codec) {
    && (forall m | Storable(m) ::
          codec.decode(codec.encode(m)) == Some(m) && |codec.encode(m)| <= 128 + 128 * |m.chunks|)
    && (forall b :: codec.decode(b).Some? ==> forall c | c in codec.decode(b).value.chunks :: Int64(c.n))
  }

  function Refs(h: Hash, parts: seq<Bytes>): (refs: seq<ChunkRef>)
    ensures |refs| == |parts| && forall k | 0 <= k < |parts| :: refs[k] == ChunkRef(h(parts[k]), |parts[k]|)
  {
    if parts == [] then []
    else Refs(h, parts[..|parts| - 1]) + [ChunkRef(h(parts[|parts| - 1]), |parts[|parts| - 1]|)]
  }

  function ManifestOf(h: Hash, parts: seq<Bytes>): Manifest {
    Manifest(1, |Concat(parts)|, Refs(h, parts))
  }

  lemma {:induction false} FrontLong(parts: seq<Bytes>)
    requires forall k | 0 <= k < |parts| :: CHUNK_MIN <= |parts[k]|
    ensures |parts| * CHUNK_MIN <= |Concat(parts)|
  {
    if parts != [] {
      FrontLong(parts[..|parts| - 1]);
    }
  }

  /** The manifest of a blob that may be pulled is read back whole. */
  lemma ManifestReads(h: Hash, codec: Codec, cut: Chunker, data: Bytes)
    requires Digest(h) && Lawful(codec) && Partitions(cut) && |data| <= MAX_PULL_BYTES
    ensures Storable(ManifestOf(h, cut(data)))
    ensures var bytes := codec.encode(ManifestOf(h, cut(data)));
            |bytes| <= MANIFEST_BOUND && codec.decode(bytes) == Some(ManifestOf(h, cut(data)))
    ensures ManifestOf(h, cut(data)).size == |data|
  {
    var parts := cut(data);
    assert Concat(parts) == data;
    if parts != [] {
      FrontLong(parts[..|parts| - 1]);
    }
    assert |parts| <= 401;
    var m := ManifestOf(h, parts);
    forall c | c in m.chunks ensures HexSha(c.h) && Int64(c.n) {
      var k :| 0 <= k < |parts| && m.chunks[k] == c;
    }
  }

  // ---- spans ----

  function Spans(h: Hash, parts: seq<Bytes>): seq<Span> {
    if parts == [] then []
    else
      var front := parts[..|parts| - 1];
      Spans(h, front) + [Span(h(parts[|parts| - 1]), |Concat(front)|, |parts[|parts| - 1]|)]
  }

  method ChunkSpans(h: Hash, cut: Chunker, data: Bytes) returns (spans: seq<Span>)
    ensures spans == Spans(h, cut(data))
  {
    var parts := cut(data);
    spans := [];
    var off := 0;
    for i := 0 to |parts|
      invariant spans == Spans(h, parts[..i]) && off == |Concat(parts[..i])|
    {
      assert parts[..i + 1][..i] == parts[..i];
      spans := spans + [Span(h(parts[i]), off, |parts[i]|)];
      off := off + |parts[i]|;
    }
    assert parts[..|parts|] == parts;
  }

  ghost predicate SpanFits(h: Hash, data: Bytes, sp: Span) {
    sp.off + sp.n <= |data| && h(data[sp.off..sp.off + sp.n]) == sp.sha
  }

  /** sp is where part lies in data. */
  ghost predicate Locates(h: Hash, data: Bytes, sp: Span, part: Bytes) {
    && sp.sha == h(part) && sp.n == |part|
    && sp.off + sp.n <= |data| && data[sp.off..sp.off + sp.n] == part
  }

  lemma LocatesInMore(h: Hash, data: Bytes, more: Bytes, sp: Span, part: Bytes)
    ensures Locates(h, data, sp, part) ==> Locates(h, data + more, sp, part)
    ensures Locates(h, data + more, Span(h(more), |data|, |more|), more)
  {
    if Locates(h, data, sp, part) {
      assert (data + more)[sp.off..sp.off + sp.n] == data[sp.off..sp.off + sp.n];
    }
    assert (data + more)[|data|..|data| + |more|] == more;
  }

  lemma SpansMore(h: Hash, front: seq<Bytes>, last: Bytes)
    ensures Spans(h, front + [last]) == Spans(h, front) + [Span(h(last), |Concat(front)|, |last|)]
    ensures Concat(front + [last]) == Concat(front) + last
  {
    assert (front + [last])[..|front|] == front;
  }

  /** Each span is where its chunk lies in the whole file. */
  lemma {:induction false} SpansLocate(h: Hash, parts: seq<Bytes>)
    ensures |Spans(h, parts)| == |parts|
    ensures forall k | 0 <= k < |parts| :: Locates(h, Concat(parts), Spans(h, parts)[k], parts[k])
  {
    if parts != [] {
      var front, last := parts[..|parts| - 1], parts[|parts| - 1];
      assert parts == front + [last];
      SpansMore(h, front, last);
      SpansLocate(h, front);
      forall k | 0 <= k < |parts| ensures Locates(h, Concat(parts), Spans(h, parts)[k], parts[k]) {
        LocatesInMore(h, Concat(front), last, Spans(h, parts)[k], parts[k]);
      }
    }
  }
}
