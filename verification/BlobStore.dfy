/** The local content-addressed store: whole blobs, filed under the hash of
    what was actually read. */
module BlobStore {
  import opened Text

  /** SHA-256 in lower-case hex. */
  type Hash = Bytes -> string

  predicate HexSha(s: string) {
    |s| == 64 && forall c | c in s :: '0' <= c <= '9' || 'a' <= c <= 'f'
  }

  ghost predicate Digest(h: Hash) {
    forall b :: HexSha(h(b))
  }

  /** No other bytes hash to what b hashes to. */
  ghost predicate NoCollision(h: Hash, b: Bytes) {
    forall other :: h(other) == h(b) ==> other == b
  }

  /** Relative to the store's blobs directory. */
  function BlobPath(sum: string): string {
    if HexSha(sum) then sum[..2] + "/" + sum else "invalid"
  }

  lemma BlobPathInjective(a: string, b: string)
    requires HexSha(a) && BlobPath(a) == BlobPath(b)
    ensures a == b
  {
    assert |BlobPath(a)| == 67 && BlobPath(a)[3..] == a;
    assert HexSha(b);
    assert BlobPath(b)[3..] == b;
  }

  /** Every file is filed under the hash of its bytes. */
  ghost predicate Filed(h: Hash, files: map<string, Bytes>) {
    Digest(h) && forall p | p in files :: p == BlobPath(h(files[p]))
  }

  predicate Has(files: map<string, Bytes>, sum: string) {
    HexSha(sum) && BlobPath(sum) in files
  }

  lemma FiledUnder(h: Hash, files: map<string, Bytes>, sum: string)
    requires Filed(h, files) && BlobPath(sum) in files
    ensures HexSha(sum) && h(files[BlobPath(sum)]) == sum
  {
    BlobPathInjective(h(files[BlobPath(sum)]), sum);
  }

  /** What storing data makes of the files: it never overwrites. */
  function Stored(h: Hash, files: map<string, Bytes>, data: Bytes): map<string, Bytes> {
    if Has(files, h(data)) then files else files[BlobPath(h(data)) := data]
  }

  class BlobStore {
    const h: Hash
    var files: map<string, Bytes>

    ghost predicate Valid()
      reads this
    {
      Filed(h, files)
    }

    constructor (h: Hash)
      requires Digest(h)
      ensures Valid() && this.h == h && files == map[]
    {
      this.h := h;
      files := map[];
    }

    predicate HasBlob(sum: string)
      reads this
    {
      Has(files, sum)
    }

    /** A string that is not a hash opens nothing; anything that opens holds
        the bytes it is named after. */
    method OpenBlob(sum: string) returns (r: Option<Bytes>)
      requires Valid()
      ensures r.Some? <==> HasBlob(sum)
      ensures r.Some? ==> r.value == files[BlobPath(sum)] && h(r.value) == sum
    {
      if BlobPath(sum) in files {
        FiledUnder(h, files, sum);
        r := Some(files[BlobPath(sum)]);
      } else {
        r := None;
      }
    }

    /** Nothing is returned when the disk fails. */
    method PutBlobReader(data: Bytes, diskOk: bool) returns (r: Option<string>)
      requires Valid()
      modifies this`files
      ensures Valid()
      ensures r == if diskOk then Some(h(data)) else None
      ensures files == if diskOk then Stored(h, old(files), data) else old(files)
      ensures forall p | p in old(files) :: p in files && files[p] == old(files)[p]
      ensures diskOk ==> HasBlob(h(data))
    {
      if !diskOk {
        return None;
      }
      var sum := h(data);
      if HasBlob(sum) {
        return Some(sum);
      }
      files := files[BlobPath(sum) := data];
      r := Some(sum);
    }
  }
}
