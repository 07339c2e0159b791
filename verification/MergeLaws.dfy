/** What a merge keeps of both sides, and when two devices agree on it. */
module MergeLaws {
  import opened Text
  import opened Merge

  function Replacement(r: Region, side: seq<Line>): seq<Line>
    requires r.toFrom <= r.toTo <= |side|
  {
    side[r.toFrom..r.toTo]
  }

  /** The base with the spans of x and then y replaced, each other line once. */
  function BothReplaced(base: seq<Line>, x: Region, wx: seq<Line>, y: Region, wy: seq<Line>): seq<Line>
    requires x.from <= x.to <= y.from <= y.to <= |base|
  {
    base[..x.from] + wx + (base[x.to..y.from] + wy + base[y.to..])
  }

  lemma WalkOne(base: seq<Line>, at: nat, y: Edit)
    requires at <= |base| && y.r.from <= y.r.to <= |base|
    ensures Walk(base, at, [y]) == (if at < y.r.from then base[at..y.r.from] else []) + y.with + base[y.r.to..]
  {
    assert [y][1..] == [];
  }

  lemma WalkTwo(base: seq<Line>, x: Edit, y: Edit)
    requires x.r.from <= x.r.to <= |base| && y.r.from <= y.r.to <= |base|
    ensures Walk(base, 0, [x, y])
         == base[..x.r.from] + x.with
            + ((if x.r.to < y.r.from then base[x.r.to..y.r.from] else []) + y.with + base[y.r.to..])
  {
    assert [x, y][1..] == [y];
    WalkOne(base, x.r.to, y);
    assert base[0..x.r.from] == base[..x.r.from];
  }

  lemma NoneFirst(a: seq<Line>, b: seq<Line>)
    ensures [] + a + b == a + b
  {
  }

  /** An edit that starts where the walk has been already is put out at once. */
  lemma WalkBack(base: seq<Line>, x: Edit, y: Edit)
    requires x.r.from <= x.r.to <= |base| && y.r.from <= y.r.to <= |base| && y.r.from <= x.r.to
    ensures Walk(base, 0, [x, y]) == base[..x.r.from] + x.with + (y.with + base[y.r.to..])
  {
    WalkTwo(base, x, y);
    NoneFirst(y.with, base[y.r.to..]);
  }

  /** Both sides changed: one span each. */
  predicate BothChanged(base: seq<Line>, a: seq<Line>, b: seq<Line>) {
    RegionsOf(base, a) != [] && RegionsOf(base, b) != []
  }

  lemma BothEdits(base: seq<Line>, a: seq<Line>, b: seq<Line>)
    requires BothChanged(base, a, b)
    ensures var x, y := RegionsOf(base, a)[0], RegionsOf(base, b)[0];
            Edits(base, a, b) == [Edit(x, Replacement(x, a)), Edit(y, Replacement(y, b))]
  {
  }

  lemma OverlapOfOne(base: seq<Line>, a: seq<Line>, b: seq<Line>)
    ensures AnyOverlap(RegionsOf(base, a), RegionsOf(base, b))
       <==> BothChanged(base, a, b) && Overlap(RegionsOf(base, a)[0], RegionsOf(base, b)[0])
  {
  }

  /** A merge is made exactly when a side is unchanged, or when one span ends
      before the other begins or where it begins, and not both are insertions
      at one line. */
  lemma MergeAcceptsIff(base: seq<Line>, a: seq<Line>, b: seq<Line>)
    ensures MergedLines(base, a, b).Some? <==>
              || a == base || b == base
              || (var x, y := RegionsOf(base, a)[0], RegionsOf(base, b)[0];
                  (x.to <= y.from || y.to <= x.from) && !(x.from == x.to == y.from == y.to))
  {
    RegionFacts(base, a);
    RegionFacts(base, b);
    OverlapOfOne(base, a, b);
  }

  /** The same for files: it is decided by their lines alone. */
  lemma FilesMergeIff(base: Bytes, a: Bytes, b: Bytes)
    ensures var l, m, n := SplitLines(base), SplitLines(a), SplitLines(b);
            Merged(base, a, b).Some? <==>
              || m == l || n == l
              || (var x, y := RegionsOf(l, m)[0], RegionsOf(l, n)[0];
                  (x.to <= y.from || y.to <= x.from) && !(x.from == x.to == y.from == y.to))
  {
    MergeAcceptsIff(SplitLines(base), SplitLines(a), SplitLines(b));
  }

  /** When the sides changed places that start at different lines and the first
      ends no later than the second begins, the merge is the base with both
      spans replaced. */
  lemma MergeReplacesBoth(base: seq<Line>, a: seq<Line>, b: seq<Line>)
    requires BothChanged(base, a, b)
    requires RegionsOf(base, a)[0].from < RegionsOf(base, b)[0].from
    ensures var x, y := RegionsOf(base, a)[0], RegionsOf(base, b)[0];
            && MergedLines(base, a, b)
                 == (if x.to <= y.from then Some(BothReplaced(base, x, Replacement(x, a), y, Replacement(y, b))) else None)
            && MergedLines(base, b, a) == MergedLines(base, a, b)
  {
    OverlapOfOne(base, a, b);
    OverlapOfOne(base, b, a);
    var x, y := RegionsOf(base, a)[0], RegionsOf(base, b)[0];
    if x.to <= y.from {
      BothEdits(base, a, b);
      BothEdits(base, b, a);
      WalkTwo(base, Edit(x, Replacement(x, a)), Edit(y, Replacement(y, b)));
      assert x.to == y.from ==> base[x.to..y.from] == [];
    }
  }

  // ---- edits in different places ----

  lemma PrefixIs(a: seq<Line>, b: seq<Line>, n: nat)
    requires n < |a| && n < |b| && a[n] != b[n]
    requires forall k | 0 <= k < n :: a[k] == b[k]
    ensures PrefixLen(a, b, 0) == n
  {
  }

  lemma SuffixIs(a: seq<Line>, b: seq<Line>, p: nat, n: nat)
    requires p + n < |a| && p + n < |b| && a[|a| - 1 - n] != b[|b| - 1 - n]
    requires forall k | |a| - n <= k < |a| :: a[k] == b[k + |b| - |a|]
    ensures SuffixLen(a, b, p, 0) == n
  {
  }

  /** A span whose replacement differs from it in its first and in its last
      line is the changed region, whatever stands around it. */
  lemma TightRegion(pre: seq<Line>, x: seq<Line>, with: seq<Line>, post: seq<Line>)
    requires x != [] && with != [] && x[0] != with[0] && x[|x| - 1] != with[|with| - 1]
    ensures RegionsOf(pre + x + post, pre + with + post)
         == [Region(|pre|, |pre| + |x|, |pre|, |pre| + |with|)]
  {
    var base, side := pre + x + post, pre + with + post;
    PrefixIs(base, side, |pre|);
    SuffixIs(base, side, |pre|, |post|);
  }

  lemma EditInPlace(pre: seq<Line>, x: seq<Line>, with: seq<Line>, post: seq<Line>)
    requires x != [] && with != [] && x[0] != with[0] && x[|x| - 1] != with[|with| - 1]
    ensures var base, side := pre + x + post, pre + with + post;
            RegionsOf(base, side) != [] &&
            var r := RegionsOf(base, side)[0];
            && r.from == |pre| && r.to == |pre| + |x| && Replacement(r, side) == with
            && base[..r.from] == pre && base[r.to..] == post
  {
    TightRegion(pre, x, with, post);
  }

  lemma FivePieces<T>(a: seq<T>, b: seq<T>, c: seq<T>, d: seq<T>, e: seq<T>)
    ensures a + b + c + d + e == a + b + (c + d + e) == (a + b + c) + d + e
    ensures (a + b + c + d + e)[|a| + |b|..|a| + |b| + |c|] == c
  {
    Assoc(a + b, c, d);
    Regroup(a + b, c, d, e);
    var all := a + b + c + d + e;
    assert all == (a + b) + (c + (d + e));
    OccursBetween(a + b, c, d + e);
  }

  /** Two edits in different places, each a replacement of lines by lines that
      begin and end differently, are merged to both of them, whatever lies
      between them, if anything, and whichever side is named first. */
  lemma EditsApartMerge(pre: seq<Line>, x: seq<Line>, wx: seq<Line>, mid: seq<Line>,
                        y: seq<Line>, wy: seq<Line>, post: seq<Line>)
    requires x != [] && wx != [] && x[0] != wx[0] && x[|x| - 1] != wx[|wx| - 1]
    requires y != [] && wy != [] && y[0] != wy[0] && y[|y| - 1] != wy[|wy| - 1]
    ensures var base := pre + x + mid + y + post;
            var a, b := pre + wx + mid + y + post, pre + x + mid + wy + post;
            && MergedLines(base, a, b) == Some(pre + wx + mid + wy + post)
            && MergedLines(base, b, a) == Some(pre + wx + mid + wy + post)
  {
    var base := pre + x + mid + y + post;
    var a, b := pre + wx + mid + y + post, pre + x + mid + wy + post;
    FivePieces(pre, x, mid, y, post);
    FivePieces(pre, wx, mid, y, post);
    FivePieces(pre, x, mid, wy, post);
    FivePieces(pre, wx, mid, wy, post);
    EditInPlace(pre, x, wx, mid + y + post);
    EditInPlace(pre + x + mid, y, wy, post);
    MergeReplacesBoth(base, a, b);
  }

  lemma MergeWithUnchanged(base: seq<Line>, a: seq<Line>)
    ensures MergedLines(base, a, base) == Some(a) && MergedLines(base, base, a) == Some(a)
  {
    RegionFacts(base, base);
    assert RegionsOf(base, base) == [];
    if RegionsOf(base, a) == [] {
      RegionFacts(base, a);
      assert Edits(base, a, base) == [] && Edits(base, base, a) == [];
      assert base[0..] == base;
    } else {
      var r := RegionsOf(base, a)[0];
      var e := Edit(r, Replacement(r, a));
      assert Edits(base, a, base) == [e] && Edits(base, base, a) == [e];
      WalkOne(base, 0, e);
      assert base[0..r.from] == base[..r.from];
      RegionApplies(base, a);
    }
  }

  // ---- the two devices ----

  /** The merge is taken and one side inserts exactly where the span the other
      side replaced begins. */
  predicate SameStart(base: seq<Line>, a: seq<Line>, b: seq<Line>) {
    && BothChanged(base, a, b)
    && !Overlap(RegionsOf(base, a)[0], RegionsOf(base, b)[0])
    && RegionsOf(base, a)[0].from == RegionsOf(base, b)[0].from
  }

  /** At a common start the side named first goes first. If that is the
      insertion the result is right; if not, the replaced lines come back. */
  lemma MergeAtSameStart(base: seq<Line>, a: seq<Line>, b: seq<Line>)
    requires SameStart(base, a, b)
    ensures var x, y := RegionsOf(base, a)[0], RegionsOf(base, b)[0];
            && (x.from == x.to <==> y.from < y.to)
            && MergedLines(base, a, b)
                 == Some(base[..x.from] + Replacement(x, a) + (Replacement(y, b) + base[y.to..]))
  {
    OverlapOfOne(base, a, b);
    RegionFacts(base, a);
    RegionFacts(base, b);
    var x, y := RegionsOf(base, a)[0], RegionsOf(base, b)[0];
    BothEdits(base, a, b);
    WalkBack(base, Edit(x, Replacement(x, a)), Edit(y, Replacement(y, b)));
  }

  function CountNewlines(b: Bytes): nat {
    if b == [] then 0 else (if b[0] == NEWLINE then 1 else 0) + CountNewlines(b[1..])
  }

  lemma {:induction false} CountAppend(a: Bytes, b: Bytes)
    ensures CountNewlines(a + b) == CountNewlines(a) + CountNewlines(b)
  {
    if a == [] {
      assert a + b == b;
    } else {
      assert (a + b)[1..] == a[1..] + b;
      CountAppend(a[1..], b);
    }
  }

  lemma {:induction false} CountFree(b: Bytes)
    requires NEWLINE !in b
    ensures CountNewlines(b) == 0
  {
    if b != [] {
      CountFree(b[1..]);
    }
  }

  lemma {:induction false} CountJoin(lines: seq<Line>)
    requires lines != [] && SepFree(lines, NEWLINE)
    ensures CountNewlines(JoinWith(lines, NEWLINE)) == |lines| - 1
    ensures |lines| > 1 ==> JoinWith(lines, NEWLINE) != []
  {
    CountFree(lines[0]);
    if |lines| > 1 {
      var rest := JoinWith(lines[1..], NEWLINE);
      CountJoin(lines[1..]);
      CountAppend(lines[0] + [NEWLINE], rest);
      CountAppend(lines[0], [NEWLINE]);
    }
  }

  /** Texts of different numbers of lines are different texts. */
  lemma MoreLinesDiffer(few: seq<Line>, many: seq<Line>, trailing: bool)
    requires 1 <= |few| < |many| && SepFree(few, NEWLINE) && SepFree(many, NEWLINE)
    ensures JoinLines(few, trailing) != JoinLines(many, trailing)
  {
    CountJoin(few);
    CountJoin(many);
    CountAppend(JoinWith(few, NEWLINE), [NEWLINE]);
    CountAppend(JoinWith(many, NEWLINE), [NEWLINE]);
  }

  lemma SplitLinesFree(b: Bytes)
    ensures SepFree(SplitLines(b), NEWLINE)
  {
    SplitSepFree(b, NEWLINE);
  }

  lemma PartsAreLines(base: seq<Line>, a: seq<Line>, b: seq<Line>, x: Region, y: Region)
    requires SepFree(base, NEWLINE) && SepFree(a, NEWLINE) && SepFree(b, NEWLINE)
    requires x.from <= |base| && x.toFrom <= x.toTo <= |a| && y.to <= |base| && y.toFrom <= y.toTo <= |b|
    ensures var parts := base[..x.from] + Replacement(x, a) + (Replacement(y, b) + base[y.to..]);
            SepFree(parts, NEWLINE)
            && |parts| == x.from + (x.toTo - x.toFrom) + (y.toTo - y.toFrom) + |base| - y.to
  {
  }

  lemma SameStartLines(base: seq<Line>, a: seq<Line>, b: seq<Line>)
    requires SameStart(base, a, b)
    requires SepFree(base, NEWLINE) && SepFree(a, NEWLINE) && SepFree(b, NEWLINE)
    ensures MergedLines(base, a, b).Some? && SepFree(MergedLines(base, a, b).value, NEWLINE)
    ensures var x, y := RegionsOf(base, a)[0], RegionsOf(base, b)[0];
            |MergedLines(base, a, b).value| == x.from + (x.toTo - x.toFrom) + (y.toTo - y.toFrom) + |base| - y.to
  {
    MergeAtSameStart(base, a, b);
    PartsAreLines(base, a, b, RegionsOf(base, a)[0], RegionsOf(base, b)[0]);
  }

  lemma SameStartDiffers(base: Bytes, a: Bytes, b: Bytes)
    requires SameStart(SplitLines(base), SplitLines(a), SplitLines(b))
    requires RegionsOf(SplitLines(base), SplitLines(a))[0].from == RegionsOf(SplitLines(base), SplitLines(a))[0].to
    ensures Merged(base, a, b) != Merged(base, b, a)
  {
    var ls, la, lb := SplitLines(base), SplitLines(a), SplitLines(b);
    SplitLinesFree(base);
    SplitLinesFree(a);
    SplitLinesFree(b);
    SameStartLines(ls, la, lb);
    SameStartLines(ls, lb, la);
    RegionFacts(ls, la);
    RegionFacts(ls, lb);
    var few, many := MergedLines(ls, la, lb).value, MergedLines(ls, lb, la).value;
    MoreLinesDiffer(few, many, TrailingNewline(a) || TrailingNewline(b));
  }

  lemma LinesSymmetric(base: seq<Line>, a: seq<Line>, b: seq<Line>)
    requires !SameStart(base, a, b)
    ensures MergedLines(base, a, b) == MergedLines(base, b, a)
  {
    OverlapOfOne(base, a, b);
    OverlapOfOne(base, b, a);
    if !BothChanged(base, a, b) {
      RegionFacts(base, a);
      RegionFacts(base, b);
      MergeWithUnchanged(base, a);
      MergeWithUnchanged(base, b);
    } else if MergedLines(base, a, b).Some? {
      if RegionsOf(base, a)[0].from < RegionsOf(base, b)[0].from {
        MergeReplacesBoth(base, a, b);
      } else {
        MergeReplacesBoth(base, b, a);
      }
    }
  }

  /** Two devices that merge the same two edits agree on the bytes exactly when
      the edits do not start at one line of the base. */
  lemma MergeSymmetricIff(base: Bytes, a: Bytes, b: Bytes)
    ensures Merged(base, a, b) == Merged(base, b, a)
       <==> !SameStart(SplitLines(base), SplitLines(a), SplitLines(b))
  {
    var ls, la, lb := SplitLines(base), SplitLines(a), SplitLines(b);
    if SameStart(ls, la, lb) {
      MergeAtSameStart(ls, la, lb);
      if RegionsOf(ls, la)[0].from == RegionsOf(ls, la)[0].to {
        SameStartDiffers(base, a, b);
      } else {
        MergeAtSameStart(ls, lb, la);
        SameStartDiffers(base, b, a);
      }
    } else {
      LinesSymmetric(ls, la, lb);
    }
  }

  // ---- lines and bytes ----

  lemma LastPartEmpty(b: Bytes)
    requires b != []
    ensures var parts := SplitOn(b, NEWLINE);
            parts[|parts| - 1] == [] <==> b[|b| - 1] == NEWLINE
    ensures |SplitOn(b, NEWLINE)| == 1 ==> SplitOn(b, NEWLINE)[0] == b
  {
    var n := |b| - 1;
    JoinSplit(b, NEWLINE);
    assert b == b[..n] + [b[n]];
    if b[n] == NEWLINE {
      SplitAppend(b[..n], NEWLINE, []);
      assert b[..n] + [NEWLINE] + [] == b;
    } else {
      LastPart(b);
    }
  }

  lemma {:induction false} LastPart(b: Bytes)
    requires b != [] && b[|b| - 1] != NEWLINE
    ensures var parts := SplitOn(b, NEWLINE); parts[|parts| - 1] != []
  {
    if |b| > 1 {
      LastPart(b[1..]);
    }
  }

  lemma {:induction false} JoinSnocEmpty(parts: seq<Line>)
    requires parts != []
    ensures JoinWith(parts + [[]], NEWLINE) == JoinWith(parts, NEWLINE) + [NEWLINE]
  {
    if |parts| == 1 {
      assert parts + [[]] == [parts[0], []] && [parts[0], []][1..] == [[]];
      assert parts[0] + [NEWLINE] + [] == parts[0] + [NEWLINE];
    } else {
      assert (parts + [[]])[1..] == parts[1..] + [[]];
      JoinSnocEmpty(parts[1..]);
      assert parts[0] + [NEWLINE] + (JoinWith(parts[1..], NEWLINE) + [NEWLINE])
          == parts[0] + [NEWLINE] + JoinWith(parts[1..], NEWLINE) + [NEWLINE];
    }
  }

  /** Splitting a file into lines and joining them again gives the file back,
      for every file but the one that is a single newline. */
  lemma LinesRoundTrip(b: Bytes)
    ensures JoinLines(SplitLines(b), TrailingNewline(b)) == b <==> b != [NEWLINE]
    ensures b != [] && !TrailingNewline(b) ==> JoinWith(SplitLines(b), NEWLINE) == b
  {
    if b != [] {
      var parts := SplitOn(b, NEWLINE);
      LastPartEmpty(b);
      JoinSplit(b, NEWLINE);
      if TrailingNewline(b) {
        var front := parts[..|parts| - 1];
        assert parts == front + [[]];
        assert front != [];
        JoinSnocEmpty(front);
        assert b == JoinWith(front, NEWLINE) + [NEWLINE];
        if b == [NEWLINE] {
          assert JoinWith(front, NEWLINE) == [];
        }
      }
    }
  }

  /** Merging an edit with an untouched file gives the edit, except that a
      lone newline is lost, and that a newline the edit took off the end of a
      file comes back. */
  lemma MergeWithBaseIff(base: Bytes, a: Bytes)
    ensures Merged(base, a, base) == Some(a)
       <==> a != [NEWLINE] && (a == [] || TrailingNewline(a) || !TrailingNewline(base))
  {
    MergeWithUnchanged(SplitLines(base), SplitLines(a));
    LinesRoundTrip(a);
  }

  // ---- the counterexample ----

  lemma SplitLinesOfText(lines: seq<Line>)
    requires SepFree(lines, NEWLINE) && JoinWith(lines, NEWLINE) != [] && lines != []
    ensures SplitLines(JoinLines(lines, true)) == lines && TrailingNewline(JoinLines(lines, true))
  {
    var body := JoinWith(lines, NEWLINE);
    SplitAppend(body, NEWLINE, []);
    SplitJoin(lines, NEWLINE);
    assert body + [NEWLINE] + [] == body + [NEWLINE];
  }

  /** A text of lines of one character each. */
  function TextOf(chars: seq<byte>): Bytes {
    JoinLines(LinesOfChars(chars), true)
  }

  function LinesOfChars(chars: seq<byte>): seq<Line> {
    seq(|chars|, i requires 0 <= i < |chars| => [chars[i]])
  }

  lemma LinesOfTextOf(chars: seq<byte>)
    requires chars != [] && NEWLINE !in chars
    ensures SplitLines(TextOf(chars)) == LinesOfChars(chars) && TrailingNewline(TextOf(chars))
  {
    assert LinesOfChars(chars)[0] == [chars[0]];
    SplitLinesOfText(LinesOfChars(chars));
  }

  /** One side replaces the middle line of three, the other inserts a line
      before it. */
  lemma OrderShowsOnLines(base: seq<Line>, a: seq<Line>, b: seq<Line>, ab: seq<Line>, ba: seq<Line>)
    requires |base| == 3 && |a| == 3 && a[0] == base[0] && a[2] == base[2] && a[1] != base[1]
    requires |b| == 4 && b[0] == base[0] && b[2] == base[1] && b[3] == base[2] && b[1] != base[1]
    requires |ab| == 5 && ab[0] == base[0] && ab[1] == a[1] && ab[2] == b[1] && ab[3] == base[1] && ab[4] == base[2]
    requires |ba| == 4 && ba[0] == base[0] && ba[1] == b[1] && ba[2] == a[1] && ba[3] == base[2]
    ensures MergedLines(base, a, b) == Some(ab) && MergedLines(base, b, a) == Some(ba)
  {
    assert RegionsOf(base, a) == [Region(1, 2, 1, 2)] by {
      assert PrefixLen(base, a, 0) == 1 && SuffixLen(base, a, 1, 0) == 1;
    }
    assert RegionsOf(base, b) == [Region(1, 1, 1, 2)] by {
      assert PrefixLen(base, b, 0) == 1 && SuffixLen(base, b, 1, 0) == 2;
    }
    MergeAtSameStart(base, a, b);
    MergeAtSameStart(base, b, a);
    assert base[..1] + a[1..2] + (b[1..2] + base[1..]) == ab;
    assert base[..1] + b[1..2] + (a[1..2] + base[2..]) == ba;
  }

  lemma MergedOfLines(base: seq<byte>, a: seq<byte>, b: seq<byte>, out: seq<byte>)
    requires base != [] && a != [] && b != [] && NEWLINE !in base && NEWLINE !in a && NEWLINE !in b
    requires MergedLines(LinesOfChars(base), LinesOfChars(a), LinesOfChars(b)) == Some(LinesOfChars(out))
    ensures Merged(TextOf(base), TextOf(a), TextOf(b)) == Some(TextOf(out))
  {
    LinesOfTextOf(base);
    LinesOfTextOf(a);
    LinesOfTextOf(b);
  }

  lemma LongerDiffers(a: seq<byte>, b: seq<byte>)
    requires a != [] && b != [] && NEWLINE !in a && NEWLINE !in b && |a| != |b|
    ensures TextOf(a) != TextOf(b)
  {
    LinesOfTextOf(a);
    LinesOfTextOf(b);
    assert |LinesOfChars(a)| == |a| && |LinesOfChars(b)| == |b|;
  }

  /** The lines of the base are c, d, e; one side turns d into x, the other
      puts y before it. With the first side named first, d comes back. */
  lemma MergeOrderShows(c: byte, d: byte, e: byte, x: byte, y: byte)
    requires NEWLINE !in [c, d, e, x, y] && x != d && y != d
    ensures var base, a, b := TextOf([c, d, e]), TextOf([c, x, e]), TextOf([c, y, d, e]);
            && Merged(base, a, b) == Some(TextOf([c, x, y, d, e]))
            && Merged(base, b, a) == Some(TextOf([c, y, x, e]))
            && Merged(base, a, b) != Merged(base, b, a)
  {
    OrderShowsOnLines(LinesOfChars([c, d, e]), LinesOfChars([c, x, e]), LinesOfChars([c, y, d, e]),
                      LinesOfChars([c, x, y, d, e]), LinesOfChars([c, y, x, e]));
    MergedOfLines([c, d, e], [c, x, e], [c, y, d, e], [c, x, y, d, e]);
    MergedOfLines([c, d, e], [c, y, d, e], [c, x, e], [c, y, x, e]);
    LongerDiffers([c, x, y, d, e], [c, y, x, e]);
  }
}
