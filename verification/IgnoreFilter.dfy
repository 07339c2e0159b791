/** The filter of one mount: which paths sync, which directories a walk may
    leave out, and where another project begins. */
module IgnoreFilter {
  import opened Text
  import opened Utf8
  import opened IgnoreRule
  import opened IgnoreCompile
  import opened IgnoreVerdict
  import opened IgnorePrune
  import opened IgnoreEscape

  /** ".bdriveignore" */
  const IGNORE_FILE: Path := [46, 98, 100, 114, 105, 118, 101, 105, 103, 110, 111, 114, 101]

  /** What a filter decides by: its rules, the include list, the rules this
      device accepted, and the directories that are mounts of their own. */
  datatype Scope = Scope(ignore: seq<Pattern>, only: seq<Pattern>, guard: seq<Pattern>, mounts: set<Path>)
  {
    predicate UnderMount(rel: Path) {
      exists k | 0 <= k < |rel| :: rel[k] == SLASH && rel[..k] in mounts
    }

    predicate Included(rel: Path) {
      only == [] || exists p | p in only :: Match(p, rel)
    }

    predicate Skips(rel: Path) {
      rel != IGNORE_FILE && (UnderMount(rel) || Ignored(ignore, rel) || !Included(rel))
    }

    predicate SkipsUp(rel: Path) {
      Skips(rel) || (rel != IGNORE_FILE && Ignored(guard, rel))
    }

    predicate Negated() { exists p | p in ignore :: p.negate }

    predicate Prunes(dir: Path) {
      !Negated() && only == [] && Ignored(ignore, dir + [SLASH])
    }

    /** No rule body ends in an escaped slash. */
    predicate PruneSafeRules() {
      forall p | p in ignore :: OpenEnded(p)
    }
  }

  lemma {:induction false} PlainIgnored(pats: seq<Pattern>, rel: Path)
    requires forall p | p in pats :: !p.negate
    ensures Ignored(pats, rel) <==> exists p :: p in pats && Match(p, rel)
  {
    if pats != [] {
      var front, last := pats[..|pats| - 1], pats[|pats| - 1];
      assert pats == front + [last];
      PlainIgnored(front, rel);
    }
  }

  lemma PrunedIgnored(pats: seq<Pattern>, dir: Path, rel: Path)
    requires forall p | p in pats :: !p.negate && OpenEnded(p)
    requires Ignored(pats, dir + [SLASH]) && Below(dir, rel)
    ensures Ignored(pats, rel)
  {
    PlainIgnored(pats, dir + [SLASH]);
    var p :| p in pats && Match(p, dir + [SLASH]);
    SafeForward(p, dir, rel);
    PlainIgnored(pats, rel);
  }

  /** A pruned directory holds no file that syncs. */
  lemma PrunedIsSkipped(s: Scope, dir: Path, rel: Path)
    requires s.PruneSafeRules() && s.Prunes(dir) && Below(dir, rel)
    ensures s.Skips(rel) && s.SkipsUp(rel)
  {
    PrunedIgnored(s.ignore, dir, rel);
    assert rel[|dir|] == (dir + [SLASH])[|dir|] == SLASH;
  }

  // ---- the condition, read off the text of a rule file ----

  /** The body of the line, if it is a rule, does not end in a slash: outer
      slashes are dropped, so the slash would be an escaped one. */
  predicate SafeLine(line: Bytes) {
    match SpellingOf(line)
    case None => true
    case Some(sp) => sp.dirOnly || sp.body[|sp.body| - 1] != SLASH
  }

  predicate SafeText(text: Bytes) {
    forall line | line in SplitOn(text, NEWLINE) :: SafeLine(line)
  }

  lemma SafeLineFits(line: Bytes)
    requires SafeLine(line) && Compiled(line).Some?
    ensures OpenEnded(Compiled(line).value)
  {
    LineEnds(line);
  }

  lemma {:induction false} SafeLines(lines: seq<Bytes>)
    requires forall line | line in lines :: SafeLine(line)
    ensures forall p | p in PatternsOf(lines) :: OpenEnded(p)
  {
    if lines != [] {
      var front, last := lines[..|lines| - 1], lines[|lines| - 1];
      assert lines == front + [last];
      SafeLines(front);
      if Compiled(last).Some? {
        SafeLineFits(last);
      }
    }
  }

  /** Under a rule file whose lines are all safe, whatever the walk leaves out
      of a pruned directory does not sync. */
  lemma SafeTextPrunes(text: Bytes, s: Scope, dir: Path, rel: Path)
    requires SafeText(text) && s.ignore == PatternsIn(text) && s.Prunes(dir) && Below(dir, rel)
    ensures s.PruneSafeRules() && s.Skips(rel) && s.SkipsUp(rel)
  {
    SafeLines(SplitOn(text, NEWLINE));
    PrunedIsSkipped(s, dir, rel);
  }

  // ---- a rule that is not safe ----

  /** The name a and an escaped slash. */
  const ESCAPED_SLASH: Bytes := [97, BACKSLASH, SLASH]

  lemma EscapedSlashSpells()
    ensures SpellingOf(ESCAPED_SLASH) == Some(Spelling(false, false, ESCAPED_SLASH, false))
    ensures Pieces(ESCAPED_SLASH, 0) == Lits([97, SLASH])
  {
    var line := ESCAPED_SLASH;
    assert TrimRuleSpace(line) == line && DropLeadingSlashes(line) == line;
    assert Slashes(line, 1) == 0 && Slashes(line, 2) == 1;
    assert DropTrailingSlashes(line) == line;
    assert line[1..] == [BACKSLASH, SLASH] && line[1..][2..] == [];
    assert !HasOpenSlash(line[1..][2..]) && !HasOpenSlash(line[1..]) && !HasOpenSlash(line);
    assert Pieces(line, 3) == [] && Pieces(line, 1) == [Lit(SLASH)];
  }

  lemma EscapedSlashPatterns() returns (p: Pattern)
    ensures PatternsIn(ESCAPED_SLASH) == [p] && Spells(p, false, false, [97, SLASH], false)
  {
    var line := ESCAPED_SLASH;
    SplitFree(line, NEWLINE);
    var lines: seq<Bytes> := [line];
    assert lines[..0] == [];
    EscapedSlashSpells();
    AsciiValid([97, SLASH]);
    CompiledName(line, Spelling(false, false, line, false), [97, SLASH]);
    p := Compiled(line).value;
  }

  /** A rule that ends in an escaped slash breaks that: the walk leaves out
      directory "a" and with it "a/x", which syncs. */
  lemma EscapedSlashPrunesTooMuch()
    ensures var s := Scope(PatternsIn(ESCAPED_SLASH), [], [], {});
            var a, x: Path := [97], [97, SLASH, 120];
            s.Prunes(a) && Below(a, x) && !s.SkipsUp(x)
  {
    var p := EscapedSlashPatterns();
    var a, x: Path := [97], [97, SLASH, 120];
    assert a + [SLASH] == [97, SLASH];
    assert Match(p, a + [SLASH]);
    SlashNameOnly(p, x);
    PlainIgnored([p], a + [SLASH]);
    PlainIgnored([p], x);
  }

  lemma SlashNameOnly(p: Pattern, x: Path)
    requires Spells(p, false, false, [97, SLASH], false) && x == [97, SLASH, 120]
    ensures !Match(p, x)
  {
    if Match(p, x) {
      var i := SegmentBackward(p, [97, SLASH], x);
    }
  }

  // ---- the filter as the cycle holds it ----

  class Filter {
    var ignore: seq<Pattern>
    var only: seq<Pattern>
    var upGuard: seq<Pattern>
    var negated: bool
    var nested: seq<Path>
    var nestedMiss: set<Path>
    const mounts: set<Path>

    ghost function View(): Scope
      reads this
    {
      Scope(ignore, only, upGuard, mounts)
    }

    ghost predicate Valid()
      reads this
    {
      && (negated <==> View().Negated())
      && (forall n | n in nested :: n != [] && n[|n| - 1] == SLASH && n[..|n| - 1] in mounts)
      && nestedMiss !! mounts
    }

    /** loadFilter: mounts stands for what config.IsMount answers on disk. */
    constructor (text: Bytes, includeLines: seq<Bytes>, mounts: set<Path>)
      ensures Valid()
      ensures View() == Scope(PatternsIn(text), PatternsOf(includeLines), [], mounts)
    {
      var inc := CompileLines(includeLines);
      var pats := CompileRules(text);
      var neg := AnyNegated(pats);
      ignore, only, upGuard, negated := pats, inc, [], neg;
      nested, nestedMiss := [], {};
      this.mounts := mounts;
    }

    method AcceptRules(text: Bytes)
      requires Valid()
      modifies this`upGuard
      ensures Valid() && View() == old(View()).(guard := PatternsIn(text))
    {
      upGuard := CompileRules(text);
    }

    method AddNestedMount(rel: Path)
      requires Valid() && rel in mounts
      modifies this`nested
      ensures Valid() && nested == old(nested) + [rel + [SLASH]]
    {
      nested := nested + [rel + [SLASH]];
    }

    method UnderNestedMount(rel: Path) returns (yes: bool)
      requires Valid()
      modifies this`nested, this`nestedMiss
      ensures Valid() && yes == View().UnderMount(rel)
    {
      for i := 0 to |nested|
      {
        if nested[i] <= rel {
          var k := |nested[i]| - 1;
          assert nested[i] in nested;
          assert rel[k] == nested[i][k] && rel[..k] == nested[i][..k];
          return true;
        }
      }
      yes := UnderMountOnDisk(rel);
    }

    method UnderMountOnDisk(rel: Path) returns (yes: bool)
      requires Valid()
      modifies this`nested, this`nestedMiss
      ensures Valid() && yes == View().UnderMount(rel)
    {
      var k := LastSlash(rel, |rel|);
      while k >= 0
        invariant -1 <= k < |rel| + 1
        invariant k >= 0 ==> rel[k] == SLASH
        invariant Valid()
        invariant forall i | k < i < |rel| && rel[i] == SLASH :: rel[..i] !in mounts
      {
        var dir := rel[..k];
        if dir !in nestedMiss {
          if dir in mounts {
            AddNestedMount(dir);
            return true;
          }
          nestedMiss := nestedMiss + {dir};
        }
        k := LastSlash(rel, k);
      }
      yes := false;
    }

    /** Skip: whether a file does not sync. */
    method Skip(rel: Path) returns (yes: bool)
      requires Valid()
      modifies this`nested, this`nestedMiss
      ensures Valid() && yes == View().Skips(rel)
      ensures yes <==> rel != IGNORE_FILE
                       && (View().UnderMount(rel) || Ignored(ignore, rel)
                           || (only != [] && forall p | p in only :: !Match(p, rel)))
    {
      if rel == IGNORE_FILE {
        return false;
      }
      var nestedHere := UnderNestedMount(rel);
      if nestedHere {
        return true;
      }
      var excluded := IgnoredBy(ignore, rel);
      if excluded {
        return true;
      }
      if |only| == 0 {
        return false;
      }
      var any := MatchesAnyOf(only, rel);
      yes := !any;
    }

    /** SkipUp: Skip for what leaves this machine. */
    method SkipUp(rel: Path) returns (yes: bool)
      requires Valid()
      modifies this`nested, this`nestedMiss
      ensures Valid() && yes == View().SkipsUp(rel)
      ensures yes <==> View().Skips(rel) || (rel != IGNORE_FILE && Ignored(upGuard, rel))
    {
      yes := Skip(rel);
      if yes {
        return true;
      }
      if rel == IGNORE_FILE || |upGuard| == 0 {
        return false;
      }
      yes := IgnoredBy(upGuard, rel);
    }

    method PruneDir(rel: Path) returns (yes: bool)
      requires Valid()
      ensures yes == View().Prunes(rel)
      ensures yes <==> (forall p | p in ignore :: !p.negate) && only == [] && Ignored(ignore, rel + [SLASH])
    {
      if negated || |only| > 0 {
        return false;
      }
      yes := IgnoredBy(ignore, rel + [SLASH]);
    }
  }

  method AnyNegated(pats: seq<Pattern>) returns (yes: bool)
    ensures yes <==> exists p :: p in pats && p.negate
  {
    yes := false;
    for i := 0 to |pats|
      invariant yes <==> exists p :: p in pats[..i] && p.negate
    {
      assert pats[..i + 1] == pats[..i] + [pats[i]];
      if pats[i].negate {
        yes := true;
      }
    }
    assert pats[..|pats|] == pats;
  }

  method MatchesAnyOf(pats: seq<Pattern>, rel: Path) returns (yes: bool)
    ensures yes <==> exists p :: p in pats && Match(p, rel)
  {
    for i := 0 to |pats|
      invariant forall j | 0 <= j < i :: !Match(pats[j], rel)
    {
      if Match(pats[i], rel) {
        return true;
      }
    }
    yes := false;
  }

  /** Where the last slash before index end is, or -1: the directory part of a
      path is what precedes it. */
  method LastSlash(s: Path, end: nat) returns (k: int)
    requires end <= |s|
    ensures -1 <= k < end && (k >= 0 ==> s[k] == SLASH)
    ensures forall i | k < i < end :: s[i] != SLASH
  {
    k := end - 1;
    while k >= 0 && s[k] != SLASH
      invariant -1 <= k < end
      invariant forall i | k < i < end :: s[i] != SLASH
    {
      k := k - 1;
    }
  }
}
