/** Two devices that see the same two concurrent puts each try to merge them:
    the ancestor both started from, the texts, and the result. */
module MergeDevices {
  import opened Text
  import opened Utf8
  import opened Journal
  import opened Merge
  import opened MergeLaws

  const MAX_MERGE_BYTES := 0x40_0000

  /** op is a version of path both sides could have started from. */
  predicate Candidate(op: Op, path: Bytes, mine: Op, theirs: Op) {
    op.path == path && op.kind == PUT && op.blob != [] && Less(op, mine) && Less(op, theirs)
  }

  function Ancestor(path: Bytes, mine: Op, theirs: Op, all: seq<Op>): Option<Op> {
    if all == [] then None
    else
      var best, x := Ancestor(path, mine, theirs, all[..|all| - 1]), all[|all| - 1];
      if Candidate(x, path, mine, theirs) && (best.None? || Less(best.value, x)) then Some(x) else best
  }

  method CommonAncestor(path: Bytes, mine: Op, theirs: Op, all: seq<Op>) returns (best: Option<Op>)
    ensures best == Ancestor(path, mine, theirs, all)
  {
    best := None;
    for i := 0 to |all|
      invariant best == Ancestor(path, mine, theirs, all[..i])
    {
      assert all[..i + 1][..i] == all[..i];
      var op := all[i];
      if op.path != path || op.kind != PUT || op.blob == [] {
        continue;
      }
      if !Less(op, mine) || !Less(op, theirs) {
        continue;
      }
      if best.None? || Less(best.value, op) {
        best := Some(op);
      }
    }
    assert all[..|all|] == all;
  }

  /** The ancestor is a candidate that no candidate is above. */
  lemma {:induction false} AncestorGreatest(path: Bytes, mine: Op, theirs: Op, all: seq<Op>)
    ensures var best := Ancestor(path, mine, theirs, all);
            if best.None? then forall op | op in all :: !Candidate(op, path, mine, theirs)
            else
              && best.value in all && Candidate(best.value, path, mine, theirs)
              && forall op | op in all && Candidate(op, path, mine, theirs) :: !Less(best.value, op)
  {
    if all != [] {
      var front, x := all[..|all| - 1], all[|all| - 1];
      assert all == front + [x];
      AncestorGreatest(path, mine, theirs, front);
      var best := Ancestor(path, mine, theirs, front);
      if best.Some? && Candidate(x, path, mine, theirs) && Less(best.value, x) {
        forall op | op in front && Candidate(op, path, mine, theirs) ensures !Less(x, op) {
          if Less(x, op) {
            LessTrans(best.value, x, op);
          }
        }
        LessAsymmetric(x, x);
      } else {
        LessAsymmetric(x, x);
      }
    }
  }

  /** The ancestor is a put of the path with content, below both sides, and
      every other such put is below it or ties with it; there is none only
      when no such put is known. */
  lemma AncestorIs(path: Bytes, mine: Op, theirs: Op, all: seq<Op>)
    ensures var best := Ancestor(path, mine, theirs, all);
            && (best.Some? ==>
                  && best.value in all && best.value.path == path && best.value.kind == PUT && best.value.blob != []
                  && Less(best.value, mine) && Less(best.value, theirs))
            && (forall op | op in all && op.path == path && op.kind == PUT && op.blob != []
                            && Less(op, mine) && Less(op, theirs) ::
                  best.Some? && !Less(best.value, op))
  {
    AncestorGreatest(path, mine, theirs, all);
  }

  /** Which blob the ancestor names depends on the set of ops alone, and not on
      whose side is whose. */
  lemma AncestorAgrees(path: Bytes, mine: Op, theirs: Op, a: seq<Op>, b: seq<Op>)
    requires forall op :: op in a <==> op in b
    ensures var x, y := Ancestor(path, mine, theirs, a), Ancestor(path, theirs, mine, b);
            (x.Some? <==> y.Some?) && (x.Some? ==> x.value.blob == y.value.blob)
  {
    AncestorGreatest(path, mine, theirs, a);
    AncestorGreatest(path, theirs, mine, b);
    var x, y := Ancestor(path, mine, theirs, a), Ancestor(path, theirs, mine, b);
    if x.Some? {
      assert Candidate(x.value, path, theirs, mine);
    }
    if y.Some? {
      assert Candidate(y.value, path, mine, theirs);
    }
    if x.Some? && y.Some? {
      TiedAgree(x.value, y.value);
    }
  }

  // ---- tryMerge ----

  predicate MergeableText(b: Bytes) { 0 !in b && Valid(b) }

  /** readBlob: a stored blob within the cap. */
  function ReadBlob(store: map<Bytes, Bytes>, sum: Bytes): Option<Bytes> {
    if sum in store && |store[sum]| <= MAX_MERGE_BYTES then Some(store[sum]) else None
  }

  datatype Texts = Texts(base: Bytes, mine: Bytes, theirs: Bytes)

  /** The three texts a merge is tried on; None when tryMerge declines. */
  function TextsOf(store: map<Bytes, Bytes>, path: Bytes, mine: Op, theirs: Op, all: seq<Op>): Option<Texts> {
    var anc := Ancestor(path, mine, theirs, all);
    if mine.kind != PUT || theirs.kind != PUT || mine.blob == theirs.blob
       || mine.size > MAX_MERGE_BYTES || theirs.size > MAX_MERGE_BYTES || anc.None? then None
    else
      var b, m, t := ReadBlob(store, anc.value.blob), ReadBlob(store, mine.blob), ReadBlob(store, theirs.blob);
      if b.Some? && m.Some? && t.Some?
         && MergeableText(b.value) && MergeableText(m.value) && MergeableText(t.value)
      then Some(Texts(b.value, m.value, t.value)) else None
  }

  /** The bytes tryMerge stores. */
  method TryMerge(store: map<Bytes, Bytes>, path: Bytes, mine: Op, theirs: Op, all: seq<Op>)
    returns (out: Option<Bytes>)
    ensures out == MergeOf(store, path, mine, theirs, all)
  {
    if mine.kind != PUT || theirs.kind != PUT {
      return None;
    }
    if mine.blob == theirs.blob {
      return None;
    }
    if mine.size > MAX_MERGE_BYTES || theirs.size > MAX_MERGE_BYTES {
      return None;
    }
    var anc := CommonAncestor(path, mine, theirs, all);
    if anc.None? {
      return None;
    }
    var b, m, t := ReadBlob(store, anc.value.blob), ReadBlob(store, mine.blob), ReadBlob(store, theirs.blob);
    if b.None? || m.None? || t.None? {
      return None;
    }
    if !MergeableText(b.value) || !MergeableText(m.value) || !MergeableText(t.value) {
      return None;
    }
    var bytes, ok := MergeText(b.value, m.value, t.value);
    out := if ok then Some(bytes) else None;
  }

  ghost function MergeOf(store: map<Bytes, Bytes>, path: Bytes, mine: Op, theirs: Op, all: seq<Op>): Option<Bytes> {
    match TextsOf(store, path, mine, theirs, all)
    case None => None
    case Some(x) => Merged(x.base, x.mine, x.theirs)
  }

  /** A stored blob of at most four megabytes that is UTF-8 without a zero
      byte. */
  predicate TextBlob(store: map<Bytes, Bytes>, sum: Bytes) {
    sum in store && |store[sum]| <= 4194304 && 0 !in store[sum] && Valid(store[sum])
  }

  /** A merge is stored exactly when both sides are puts of different blobs,
      neither too big, there is an ancestor, the three blobs are text, and a
      side is unchanged or the changed spans lie apart and are not two
      insertions at one line. */
  lemma MergeStoredIff(store: map<Bytes, Bytes>, path: Bytes, mine: Op, theirs: Op, all: seq<Op>)
    ensures var anc := Ancestor(path, mine, theirs, all);
            MergeOf(store, path, mine, theirs, all).Some? <==>
              && mine.kind == PUT && theirs.kind == PUT && mine.blob != theirs.blob
              && mine.size <= 4194304 && theirs.size <= 4194304 && anc.Some?
              && TextBlob(store, anc.value.blob) && TextBlob(store, mine.blob) && TextBlob(store, theirs.blob)
              && (var l := SplitLines(store[anc.value.blob]);
                  var m, n := SplitLines(store[mine.blob]), SplitLines(store[theirs.blob]);
                  || m == l || n == l
                  || (var x, y := RegionsOf(l, m)[0], RegionsOf(l, n)[0];
                      (x.to <= y.from || y.to <= x.from) && !(x.from == x.to == y.from == y.to)))
  {
    var anc := Ancestor(path, mine, theirs, all);
    if anc.Some? && TextBlob(store, anc.value.blob) && TextBlob(store, mine.blob) && TextBlob(store, theirs.blob) {
      FilesMergeIff(store[anc.value.blob], store[mine.blob], store[theirs.blob]);
    }
  }

  /** The merge is tried on texts whose changes start at one base line. */
  ghost predicate OrderShows(store: map<Bytes, Bytes>, path: Bytes, mine: Op, theirs: Op, all: seq<Op>) {
    match TextsOf(store, path, mine, theirs, all)
    case None => false
    case Some(x) => SameStart(SplitLines(x.base), SplitLines(x.mine), SplitLines(x.theirs))
  }

  /** Two devices that hold the same operations, in whatever order, and the same
      blobs store the same merge of two concurrent edits, each calling its own
      edit "mine", exactly when the two edits do not start at one base line. */
  lemma DevicesAgreeIff(store: map<Bytes, Bytes>, path: Bytes, mine: Op, theirs: Op, a: seq<Op>, b: seq<Op>)
    requires forall op :: op in a <==> op in b
    ensures MergeOf(store, path, mine, theirs, a) == MergeOf(store, path, theirs, mine, b)
       <==> !OrderShows(store, path, mine, theirs, a)
  {
    AncestorAgrees(path, mine, theirs, a, b);
    match TextsOf(store, path, mine, theirs, a) {
      case None =>
      case Some(x) =>
        assert TextsOf(store, path, theirs, mine, b) == Some(Texts(x.base, x.theirs, x.mine));
        MergeSymmetricIff(x.base, x.mine, x.theirs);
    }
  }

  // ---- two devices that diverge ----

  const NO_META := Meta([], [], [], [], [], [], 0)
  const ANCESTOR := Op(1, 1, 0, [97], PUT, [102], [1], 6, 0, [], NO_META)
  const MINE := Op(1, 2, 0, [98], PUT, [102], [2], 6, 0, [], NO_META)
  const THEIRS := Op(1, 2, 0, [99], PUT, [102], [3], 8, 0, [], NO_META)
  const OPS := [ANCESTOR, MINE, THEIRS]

  function Blobs(base: Bytes, mine: Bytes, theirs: Bytes): map<Bytes, Bytes> {
    map[ANCESTOR.blob := base, MINE.blob := mine, THEIRS.blob := theirs]
  }

  lemma AncestorOfBoth()
    ensures Ancestor([102], MINE, THEIRS, OPS) == Some(ANCESTOR)
    ensures Ancestor([102], THEIRS, MINE, OPS) == Some(ANCESTOR)
  {
    assert OPS[..2][..1] == [ANCESTOR] && OPS[..1][..0] == [];
    assert Less(ANCESTOR, MINE) && Less(ANCESTOR, THEIRS);
    LessAsymmetric(MINE, MINE);
    LessAsymmetric(THEIRS, THEIRS);
    assert Ancestor([102], MINE, THEIRS, OPS[..1]) == Some(ANCESTOR);
    assert Ancestor([102], THEIRS, MINE, OPS[..1]) == Some(ANCESTOR);
    assert Ancestor([102], MINE, THEIRS, OPS[..2]) == Some(ANCESTOR);
    assert Ancestor([102], THEIRS, MINE, OPS[..2]) == Some(ANCESTOR);
  }

  lemma {:induction false} DigitsMerge(chars: seq<byte>)
    requires |chars| <= 4 && forall c | c in chars :: 48 <= c <= 57
    ensures MergeableText(TextOf(chars)) && |TextOf(chars)| <= 8
  {
    forall k | 0 <= k < |chars| ensures 48 <= LinesOfChars(chars)[k][0] <= 57 {
      assert chars[k] in chars;
    }
    JoinedDigits(LinesOfChars(chars));
    var b := TextOf(chars);
    forall k | 0 <= k < |b| ensures 0 < b[k] < 0x80 {
      assert b[k] in b;
    }
    AsciiValid(TextOf(chars));
  }

  lemma {:induction false} JoinedDigits(lines: seq<Line>)
    requires forall k | 0 <= k < |lines| :: |lines[k]| == 1 && 48 <= lines[k][0] <= 57
    ensures var b := JoinWith(lines, NEWLINE);
            |b| <= 2 * |lines| && (lines != [] ==> |b| < 2 * |lines|) && forall c | c in b :: c == NEWLINE || 48 <= c <= 57
  {
    if |lines| > 1 {
      JoinedDigits(lines[1..]);
    }
  }

  lemma TextsAre(base: Bytes, mine: Bytes, theirs: Bytes)
    requires MergeableText(base) && MergeableText(mine) && MergeableText(theirs)
    requires |base| <= MAX_MERGE_BYTES && |mine| <= MAX_MERGE_BYTES && |theirs| <= MAX_MERGE_BYTES
    ensures TextsOf(Blobs(base, mine, theirs), [102], MINE, THEIRS, OPS) == Some(Texts(base, mine, theirs))
    ensures TextsOf(Blobs(base, mine, theirs), [102], THEIRS, MINE, OPS) == Some(Texts(base, theirs, mine))
  {
    AncestorOfBoth();
    var store := Blobs(base, mine, theirs);
    assert ReadBlob(store, ANCESTOR.blob) == Some(base);
    assert ReadBlob(store, MINE.blob) == Some(mine);
    assert ReadBlob(store, THEIRS.blob) == Some(theirs);
  }

  /** The example reaches the store: the device that wrote one of two such
      edits and the device that wrote the other keep different bytes. */
  lemma DevicesDiverge(c: byte, d: byte, e: byte, x: byte, y: byte)
    requires (forall b | b in [c, d, e, x, y] :: 48 <= b <= 57) && x != d && y != d
    ensures var store := Blobs(TextOf([c, d, e]), TextOf([c, x, e]), TextOf([c, y, d, e]));
            && MergeOf(store, [102], MINE, THEIRS, OPS) == Some(TextOf([c, x, y, d, e]))
            && MergeOf(store, [102], THEIRS, MINE, OPS) == Some(TextOf([c, y, x, e]))
            && TextOf([c, x, y, d, e]) != TextOf([c, y, x, e])
  {
    assert forall b | b in [c, d, e] || b in [c, x, e] || b in [c, y, d, e] :: b in [c, d, e, x, y];
    DigitsMerge([c, d, e]);
    DigitsMerge([c, x, e]);
    DigitsMerge([c, y, d, e]);
    MergeOrderShows(c, d, e, x, y);
    TextsAre(TextOf([c, d, e]), TextOf([c, x, e]), TextOf([c, y, d, e]));
  }
}
