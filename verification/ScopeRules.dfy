/** What the managed block means to the filter: which files sync. */
module ScopeRules {
  import opened Text
  import opened Utf8
  import opened Runes
  import opened IgnoreRule
  import opened IgnoreCompile
  import opened IgnoreVerdict
  import opened IgnorePrune
  import opened IgnoreEscape
  import opened IgnoreFilter
  import opened ScopeFile

  lemma {:induction false} PatternsConcat(a: seq<Bytes>, b: seq<Bytes>)
    ensures PatternsOf(a + b) == PatternsOf(a) + PatternsOf(b)
  {
    if b == [] {
      assert a + b == a;
    } else {
      var front, last := b[..|b| - 1], b[|b| - 1];
      PatternsConcat(a, front);
      assert (a + b)[..|a + b| - 1] == a + front && (a + b)[|a + b| - 1] == last;
      if Compiled(last).Some? {
        Assoc(PatternsOf(a), PatternsOf(front), [Compiled(last).value]);
      }
    }
  }

  /** The rules after another list overrule it wherever one of them matches. */
  lemma {:induction false} IgnoredConcat(a: seq<Pattern>, b: seq<Pattern>, rel: Path)
    ensures Ignored(a + b, rel) == if exists p :: p in b && Match(p, rel) then Ignored(b, rel) else Ignored(a, rel)
  {
    if b == [] {
      assert a + b == a;
    } else {
      var front, last := b[..|b| - 1], b[|b| - 1];
      IgnoredConcat(a, front, rel);
      assert (a + b)[..|a + b| - 1] == a + front;
      assert b == front + [last];
    }
  }

  lemma OneLine(line: Bytes)
    ensures PatternsOf([line]) == match Compiled(line) case Some(p) => [p] case None => []
  {
    var lines: seq<Bytes> := [line];
    assert lines[..0] == [];
  }

  lemma CommentHasNoRule(line: Bytes)
    requires line != [] && line[0] == HASH && Visible(line[|line| - 1])
    ensures Compiled(line) == None
  {
    LineIsBody(line);
  }

  /** The rule of the header: a star, anchored. */
  predicate Everything(p: Pattern) {
    !p.negate && p.exactSeg == [] && p.lit == [] && p.re == Regex(true, [Star], false)
  }

  lemma StarLineRule() returns (star: Pattern)
    ensures Compiled(STAR_LINE) == Some(star) && Everything(star)
  {
    var body: Bytes := [ASTERISK];
    assert STAR_LINE[0] == SLASH && body[0] == ASTERISK && !Pad(SLASH) && !Pad(ASTERISK);
    LineIsBody(STAR_LINE);
    assert STAR_LINE[1..] == body;
    assert DropLeadingSlashes(body) == body && DropLeadingSlashes(STAR_LINE) == body;
    assert DropTrailingSlashes(body) == body;
    assert !HasOpenSlash(body[1..]);
    assert SpellingOf(STAR_LINE) == Some(Spelling(false, true, body, false));
    var ps := Pieces(body, 0);
    assert Pieces(body, 1) == [] && ps == [Star];
    assert ps[1..] == [] && Decoded(ps) == Some([Star]);
    assert Collect(body, 0, NO_LITERAL) == Collect(body, 1, NO_LITERAL) == NO_LITERAL;
    star := Compiled(STAR_LINE).value;
  }

  lemma EverythingMatches(p: Pattern, rel: Path)
    requires Everything(p) && NEWLINE !in rel
    ensures Match(p, rel)
  {
    var s := RunesOf(rel);
    AsciiInRunes(rel, NEWLINE);
    var n := FirstSegment(s);
    assert s[0..n] == s[..n];
    OneToken(Star, s[0..n]);
    assert MatchAt(p.re, s, 0, n);
  }

  lemma BlockPatterns(m: Markers, dirs: seq<Path>, star: Pattern)
    requires m.Proper() && Compiled(STAR_LINE) == Some(star)
    ensures PatternsOf(BlockLines(m, dirs)) == [star] + PatternsOf(NameLines(dirs))
  {
    HeaderPatterns(m, star);
    FooterPatterns(m);
    PatternsConcat([m.start, STAR_LINE], NameLines(dirs));
    PatternsConcat([m.start, STAR_LINE] + NameLines(dirs), [m.end]);
  }

  lemma FooterPatterns(m: Markers)
    requires m.Proper()
    ensures PatternsOf([m.end]) == []
  {
    OneLine(m.end);
    CommentHasNoRule(m.end);
  }

  lemma TwoLines(comment: Bytes, line: Bytes, p: Pattern)
    requires Compiled(comment) == None && Compiled(line) == Some(p)
    ensures PatternsOf([comment, line]) == [p]
  {
    assert [comment, line] == [comment] + [line];
    PatternsConcat([comment], [line]);
    OneLine(comment);
    OneLine(line);
  }

  lemma HeaderPatterns(m: Markers, star: Pattern)
    requires m.Proper() && Compiled(STAR_LINE) == Some(star)
    ensures PatternsOf([m.start, STAR_LINE]) == [star]
  {
    CommentHasNoRule(m.start);
    TwoLines(m.start, STAR_LINE, star);
  }

  /** rel lies under a named folder whose name a rule can spell. */
  predicate InFolder(dirs: seq<Path>, rel: Path) {
    exists d | d in dirs :: Valid(d) && Beneath(d, rel)
  }

  lemma {:induction false} FolderRulesVerdict(star: Pattern, dirs: seq<Path>, rel: Path)
    requires Everything(star) && NEWLINE !in rel && forall d | d in dirs :: Nameable(d)
    ensures Ignored([star] + PatternsOf(NameLines(dirs)), rel) <==> !InFolder(dirs, rel)
  {
    if dirs == [] {
      EverythingMatches(star, rel);
      assert [star] + PatternsOf(NameLines(dirs)) == [star];
    } else {
      var n := |dirs| - 1;
      var front, d := dirs[..n], dirs[n];
      assert dirs == front + [d];
      FolderRulesVerdict(star, front, rel);
      LastFolder(star, front, d, rel);
    }
  }

  lemma NamePatterns(front: seq<Path>, d: Path)
    ensures PatternsOf(NameLines(front + [d]))
         == PatternsOf(NameLines(front)) + PatternsOf([ScopeLine(d)])
  {
    OneMoreName(front, d);
    PatternsConcat(NameLines(front), [ScopeLine(d)]);
  }

  lemma LastFolder(star: Pattern, front: seq<Path>, d: Path, rel: Path)
    requires Nameable(d)
    ensures var before := Ignored([star] + PatternsOf(NameLines(front)), rel);
            Ignored([star] + PatternsOf(NameLines(front + [d])), rel) == (before && !(Valid(d) && Beneath(d, rel)))
  {
    NamePatterns(front, d);
    OneLine(ScopeLine(d));
    EscapedScopeRule(d);
    if Valid(d) {
      var p := Compiled(ScopeLine(d)).value;
      AnchoredMatch(p, true, d, true, rel);
      Assoc([star], PatternsOf(NameLines(front)), [p]);
      IgnoredMore([star] + PatternsOf(NameLines(front)), p, rel);
    } else {
      assert PatternsOf(NameLines(front)) + [] == PatternsOf(NameLines(front));
    }
  }

  lemma {:induction false} EmptyLinesNoRules(lines: seq<Bytes>)
    requires forall k | 0 <= k < |lines| :: lines[k] == []
    ensures PatternsOf(lines) == []
  {
    if lines != [] {
      EmptyLinesNoRules(lines[..|lines| - 1]);
    }
  }

  /** The rules outside the block. */
  function TeamPatterns(m: Markers, file: Option<Bytes>): seq<Pattern> {
    PatternsOf(DropBlanks(Others(m, LinesOf(file))))
  }

  lemma NewPatterns(m: Markers, lines: seq<Bytes>, dirs: seq<Path>, star: Pattern)
    requires Compiled(STAR_LINE) == Some(star) && m.Proper() && dirs != []
    ensures PatternsOf(NewLines(m, lines, dirs))
         == [star] + PatternsOf(NameLines(dirs)) + PatternsOf(DropBlanks(Others(m, lines)))
  {
    PatternsConcat(BlockLines(m, dirs) + [EMPTY], DropBlanks(Others(m, lines)));
    PatternsConcat(BlockLines(m, dirs), [EMPTY]);
    EmptyLinesNoRules([EMPTY]);
    BlockPatterns(m, dirs, star);
  }

  lemma WrittenPatterns(m: Markers, file: Option<Bytes>, dirs: seq<Path>, star: Pattern)
    requires Compiled(STAR_LINE) == Some(star)
    requires m.Proper() && !ManagedBlock(m, LinesOf(file)).Ambiguous?
    requires dirs != [] && forall d | d in dirs :: FolderName(d)
    ensures PatternsIn(WrittenText(m, file, dirs))
         == [star] + PatternsOf(NameLines(dirs)) + TeamPatterns(m, file)
  {
    var extra := ScopeRoundTrip(m, file, dirs);
    PatternsConcat(NewLines(m, LinesOf(file), dirs), extra);
    EmptyLinesNoRules(extra);
    NewPatterns(m, LinesOf(file), dirs, star);
  }

  /** After a scope of folders is written, a file syncs exactly when it is the
      rule file itself, or lies under a named folder whose name is UTF-8,
      unless a rule the team wrote matches it: then the last of those
      decides. */
  lemma ScopeMeaning(m: Markers, file: Option<Bytes>, dirs: seq<Path>, rel: Path)
    requires m.Proper() && !ManagedBlock(m, LinesOf(file)).Ambiguous?
    requires dirs != [] && forall d | d in dirs :: FolderName(d)
    requires NEWLINE !in rel
    ensures var team := TeamPatterns(m, file);
            var s := Scope(PatternsIn(WrittenText(m, file, dirs)), [], [], {});
            !s.Skips(rel) <==>
              || rel == IGNORE_FILE
              || (if exists p :: p in team && Match(p, rel) then !Ignored(team, rel) else InFolder(dirs, rel))
  {
    var star := StarLineRule();
    WrittenPatterns(m, file, dirs, star);
    IgnoredConcat([star] + PatternsOf(NameLines(dirs)), TeamPatterns(m, file), rel);
    FolderRulesVerdict(star, dirs, rel);
  }
}
