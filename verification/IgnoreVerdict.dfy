/** A whole file of rules: the last rule that matches a path decides. */
module IgnoreVerdict {
  import opened Text
  import opened Runes
  import opened IgnoreRule
  import opened IgnoreCompile

  /** The patterns of a list of lines, in order. */
  function PatternsOf(lines: seq<Bytes>): (pats: seq<Pattern>)
    ensures |pats| <= |lines|
  {
    if lines == [] then []
    else
      var front := PatternsOf(lines[..|lines| - 1]);
      match Compiled(lines[|lines| - 1])
      case Some(p) => front + [p]
      case None => front
  }

  /** compileRules, on the text of a rule file. */
  function PatternsIn(text: Bytes): seq<Pattern> { PatternsOf(SplitOn(text, NEWLINE)) }

  /** Last match wins; a path no rule matches is not ignored. */
  predicate Ignored(pats: seq<Pattern>, rel: Path) {
    pats != [] &&
    var last := pats[|pats| - 1];
    if Match(last, rel) then !last.negate else Ignored(pats[..|pats| - 1], rel)
  }

  /** The same, by the meaning of the rules: their expressions on the runes of
      a path. */
  predicate Excluded(rules: seq<Rule>, runes: string) {
    rules != [] &&
    var last := rules[|rules| - 1];
    if MatchString(last.re, runes) then !last.negate else Excluded(rules[..|rules| - 1], runes)
  }

  function RulesOf(lines: seq<Bytes>): seq<Rule> {
    if lines == [] then []
    else
      var front := RulesOf(lines[..|lines| - 1]);
      match RuleOf(lines[|lines| - 1])
      case Some(r) => front + [r]
      case None => front
  }

  /** The compiled patterns give the verdict of the rules on every path whose
      bytes neither side reads differently: every newline-free path that is
      UTF-8, and every newline-free path whatever when no rule remembers a
      U+FFFD. */
  lemma {:induction false} IgnoredIsExcluded(lines: seq<Bytes>, rel: Path)
    requires NEWLINE !in rel && forall p | p in PatternsOf(lines) :: Plainly(p, rel)
    ensures Ignored(PatternsOf(lines), rel) == Excluded(RulesOf(lines), RunesOf(rel))
  {
    if lines != [] {
      var front, last := lines[..|lines| - 1], lines[|lines| - 1];
      CompiledHasRule(last);
      var pats, rules := PatternsOf(front), RulesOf(front);
      assert forall p | p in pats :: p in PatternsOf(lines);
      IgnoredIsExcluded(front, rel);
      if Compiled(last).Some? {
        var p := Compiled(last).value;
        assert PatternsOf(lines)[|pats|] == p;
        assert (pats + [p])[..|pats|] == pats && (rules + [RuleOf(last).value])[..|rules|] == rules;
        MatchesExpression(last, rel);
      }
    }
  }

  /** Line i is a rule that excludes rel, and no later line is a rule that
      matches it. */
  predicate Decides(lines: seq<Bytes>, i: nat, rel: Path)
    requires i < |lines|
  {
    && Compiled(lines[i]).Some? && !Compiled(lines[i]).value.negate && Match(Compiled(lines[i]).value, rel)
    && forall j | i < j < |lines| :: Compiled(lines[j]).None? || !Match(Compiled(lines[j]).value, rel)
  }

  ghost predicate Decided(lines: seq<Bytes>, rel: Path) {
    exists i | 0 <= i < |lines| :: Decides(lines, i, rel)
  }

  lemma DecidedMore(front: seq<Bytes>, last: Bytes, rel: Path)
    ensures Decided(front + [last], rel)
       <==> if Compiled(last).Some? && Match(Compiled(last).value, rel) then !Compiled(last).value.negate
            else Decided(front, rel)
  {
    var lines, n := front + [last], |front|;
    assert lines[n] == last;
    if Compiled(last).Some? && Match(Compiled(last).value, rel) {
      assert !Compiled(last).value.negate ==> Decides(lines, n, rel);
      forall i | 0 <= i < n ensures !Decides(lines, i, rel) {
      }
    } else {
      forall i | 0 <= i < n ensures Decides(lines, i, rel) <==> Decides(front, i, rel) {
        forall j | i < j < n ensures lines[j] == front[j] {
        }
      }
    }
  }

  /** A path is ignored exactly when the last line that is a rule for it
      excludes it. */
  lemma {:induction false} LastLineDecides(lines: seq<Bytes>, rel: Path)
    ensures Ignored(PatternsOf(lines), rel) <==> exists i | 0 <= i < |lines| :: Decides(lines, i, rel)
  {
    if lines != [] {
      var front, last := lines[..|lines| - 1], lines[|lines| - 1];
      assert lines == front + [last];
      LastLineDecides(front, rel);
      DecidedMore(front, last, rel);
      PatternsMore(front, last);
      if Compiled(last).Some? {
        IgnoredMore(PatternsOf(front), Compiled(last).value, rel);
      }
    }
  }

  method CompileLines(lines: seq<Bytes>) returns (pats: seq<Pattern>)
    ensures pats == PatternsOf(lines)
  {
    pats := [];
    for i := 0 to |lines|
      invariant pats == PatternsOf(lines[..i])
    {
      assert lines[..i + 1][..i] == lines[..i];
      var p := Compile(lines[i]);
      if p.Some? {
        pats := pats + [p.value];
      }
    }
    assert lines[..|lines|] == lines;
  }

  method CompileRules(text: Bytes) returns (pats: seq<Pattern>)
    ensures pats == PatternsIn(text)
  {
    pats := CompileLines(SplitOn(text, NEWLINE));
  }

  method IgnoredBy(pats: seq<Pattern>, rel: Path) returns (yes: bool)
    ensures yes == Ignored(pats, rel)
  {
    var i := |pats|;
    assert pats[..i] == pats;
    while i > 0
      invariant 0 <= i <= |pats|
      invariant Ignored(pats, rel) == Ignored(pats[..i], rel)
    {
      i := i - 1;
      assert pats[..i + 1][..i] == pats[..i];
      if Match(pats[i], rel) {
        return !pats[i].negate;
      }
    }
    yes := false;
  }

  method MatchesAny(p: Pattern, paths: seq<Path>) returns (yes: bool)
    ensures yes <==> exists s :: s in paths && Match(p, s)
  {
    for i := 0 to |paths|
      invariant forall s | s in paths[..i] :: !Match(p, s)
    {
      if Match(p, paths[i]) {
        return true;
      }
    }
    yes := false;
  }

  // ---- the floor for a device that never recorded what it accepted ----

  /** A line the floor drops: a re-inclusion of nothing this mount syncs. */
  predicate Unvouched(line: Bytes, synced: seq<Path>) {
    match Compiled(line)
    case Some(p) => p.negate && forall s | s in synced :: !Match(p, s)
    case None => false
  }

  function Vouched(lines: seq<Bytes>, synced: seq<Path>): seq<Bytes> {
    if lines == [] then []
    else
      var front := Vouched(lines[..|lines| - 1], synced);
      if Unvouched(lines[|lines| - 1], synced) then front else front + [lines[|lines| - 1]]
  }

  method VouchedFloor(text: Bytes, synced: seq<Path>) returns (floor: Bytes)
    ensures floor == JoinWith(Vouched(SplitOn(text, NEWLINE), synced), NEWLINE)
  {
    var lines := SplitOn(text, NEWLINE);
    var out: seq<Bytes> := [];
    for i := 0 to |lines|
      invariant out == Vouched(lines[..i], synced)
    {
      assert lines[..i + 1][..i] == lines[..i];
      var p := Compile(lines[i]);
      var drop := false;
      if p.Some? && p.value.negate {
        var any := MatchesAny(p.value, synced);
        drop := !any;
      }
      if !drop {
        out := out + [lines[i]];
      }
    }
    assert lines[..|lines|] == lines;
    floor := JoinWith(out, NEWLINE);
  }

  /** The floor keeps a line exactly unless it re-includes nothing that
      syncs. */
  lemma {:induction false} VouchedAre(lines: seq<Bytes>, synced: seq<Path>)
    ensures forall line :: line in Vouched(lines, synced) <==>
              && line in lines
              && (Compiled(line).Some? && Compiled(line).value.negate ==>
                    exists s | s in synced :: Match(Compiled(line).value, s))
  {
    if lines != [] {
      VouchedAre(lines[..|lines| - 1], synced);
      assert lines == lines[..|lines| - 1] + [lines[|lines| - 1]];
    }
  }

  lemma {:induction false} VouchedLines(lines: seq<Bytes>, synced: seq<Path>, sep: byte)
    requires SepFree(lines, sep)
    ensures SepFree(Vouched(lines, synced), sep)
  {
    if lines != [] {
      VouchedLines(lines[..|lines| - 1], synced, sep);
    }
  }

  /** The patterns of the floor, read back from its text. */
  lemma FloorPatterns(text: Bytes, synced: seq<Path>)
    ensures PatternsIn(JoinWith(Vouched(SplitOn(text, NEWLINE), synced), NEWLINE))
         == PatternsOf(Vouched(SplitOn(text, NEWLINE), synced))
  {
    var kept := Vouched(SplitOn(text, NEWLINE), synced);
    SplitSepFree(text, NEWLINE);
    VouchedLines(SplitOn(text, NEWLINE), synced, NEWLINE);
    if kept == [] {
      var none: seq<Bytes> := [[]];
      assert none[..0] == [] && SplitOn([], NEWLINE) == none;
    } else {
      SplitJoin(kept, NEWLINE);
    }
  }

  lemma IgnoredMore(pats: seq<Pattern>, p: Pattern, rel: Path)
    ensures Ignored(pats + [p], rel) == if Match(p, rel) then !p.negate else Ignored(pats, rel)
  {
    assert (pats + [p])[..|pats|] == pats;
  }

  lemma PatternsMore(front: seq<Bytes>, last: Bytes)
    ensures PatternsOf(front + [last])
         == match Compiled(last) case Some(p) => PatternsOf(front) + [p] case None => PatternsOf(front)
  {
    assert (front + [last])[..|front|] == front;
  }

  /** One more rule after two lists, or, as a negation that does not match
      where it would matter, after the first alone. */
  lemma FloorStep(all: seq<Pattern>, kept: seq<Pattern>, p: Pattern, rel: Path, here: bool)
    requires Ignored(all, rel) ==> Ignored(kept, rel)
    requires here ==> Ignored(all, rel) == Ignored(kept, rel)
    ensures Ignored(all + [p], rel) ==> Ignored(kept + [p], rel)
    ensures here ==> Ignored(all + [p], rel) == Ignored(kept + [p], rel)
    ensures p.negate ==> (Ignored(all + [p], rel) ==> Ignored(kept, rel))
    ensures p.negate && here && !Match(p, rel) ==> Ignored(all + [p], rel) == Ignored(kept, rel)
  {
    IgnoredMore(all, p, rel);
    IgnoredMore(kept, p, rel);
  }

  /** The second list excludes at least what the first does, and here the
      same. */
  ghost predicate Floors(lines: seq<Bytes>, kept: seq<Bytes>, rel: Path, here: bool) {
    && (Ignored(PatternsOf(lines), rel) ==> Ignored(PatternsOf(kept), rel))
    && (here ==> Ignored(PatternsOf(lines), rel) == Ignored(PatternsOf(kept), rel))
  }

  /** One more line after two lists, or, when it re-includes nothing that
      syncs, after the first alone. */
  lemma FloorMore(front: seq<Bytes>, kept: seq<Bytes>, last: Bytes, drop: bool, rel: Path, here: bool)
    requires Floors(front, kept, rel, here)
    requires drop ==> Compiled(last).Some? && Compiled(last).value.negate
    requires drop && here ==> !Match(Compiled(last).value, rel)
    ensures Floors(front + [last], if drop then kept else kept + [last], rel, here)
  {
    PatternsMore(front, last);
    PatternsMore(kept, last);
    if Compiled(last).Some? {
      FloorStep(PatternsOf(front), PatternsOf(kept), Compiled(last).value, rel, here);
    }
  }

  lemma {:induction false} FloorVerdict(lines: seq<Bytes>, synced: seq<Path>, rel: Path)
    ensures Floors(lines, Vouched(lines, synced), rel, rel in synced)
  {
    if lines != [] {
      var front, last := lines[..|lines| - 1], lines[|lines| - 1];
      assert lines == front + [last];
      FloorVerdict(front, synced, rel);
      FloorMore(front, Vouched(front, synced), last, Unvouched(last, synced), rel, rel in synced);
    }
  }

  lemma {:induction false} FloorNegations(lines: seq<Bytes>, synced: seq<Path>, p: Pattern)
    requires p in PatternsOf(Vouched(lines, synced)) && p.negate
    ensures exists s :: s in synced && Match(p, s)
  {
    var kept := Vouched(lines, synced);
    assert lines != [];
    var front, last := lines[..|lines| - 1], lines[|lines| - 1];
    if !Unvouched(last, synced) {
      assert kept[..|kept| - 1] == Vouched(front, synced);
    }
    if p in PatternsOf(Vouched(front, synced)) {
      FloorNegations(front, synced, p);
    }
  }

  /** The floor of an upgraded device: it judges every path the mount already
      syncs as before, never syncs a path the old rules kept back, and holds
      no re-inclusion that is not of something already synced. */
  lemma VouchedFloorSafe(text: Bytes, synced: seq<Path>, floor: Bytes)
    requires floor == JoinWith(Vouched(SplitOn(text, NEWLINE), synced), NEWLINE)
    ensures forall rel :: Ignored(PatternsIn(text), rel) ==> Ignored(PatternsIn(floor), rel)
    ensures forall rel | rel in synced :: Ignored(PatternsIn(text), rel) == Ignored(PatternsIn(floor), rel)
    ensures forall p | p in PatternsIn(floor) && p.negate :: exists s :: s in synced && Match(p, s)
  {
    FloorPatterns(text, synced);
    var lines := SplitOn(text, NEWLINE);
    forall rel ensures
      && (Ignored(PatternsIn(text), rel) ==> Ignored(PatternsIn(floor), rel))
      && (rel in synced ==> Ignored(PatternsIn(text), rel) == Ignored(PatternsIn(floor), rel))
    {
      FloorVerdict(lines, synced, rel);
    }
    forall p | p in PatternsIn(floor) && p.negate ensures exists s :: s in synced && Match(p, s) {
      FloorNegations(lines, synced, p);
    }
  }
}
