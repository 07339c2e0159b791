/** Where the comparisons of a compiled rule and its regular expression part:
    a byte that is not UTF-8 is a U+FFFD to the expression and not to the
    comparisons. */
module IgnoreExact {
  import opened Text
  import opened Utf8
  import opened Runes
  import opened IgnoreRule
  import opened IgnoreCompile
  import opened IgnorePrune

  lemma ContainsTail(s: Bytes, c: byte, x: Bytes)
    requires Contains(s, [c] + x)
    ensures Contains(s, x)
  {
    var i :| 0 <= i <= |s| - |[c] + x| && OccursAt(s, [c] + x, i);
    assert s[i + 1..i + 1 + |x|] == s[i..i + 1 + |x|][1..] == x;
    assert OccursAt(s, x, i + 1);
  }

  lemma ContainsWithin(s: Bytes, x: Bytes, y: Bytes)
    requires Contains(s, x) && Contains(x, y)
    ensures Contains(s, y)
  {
    var i :| 0 <= i <= |s| - |x| && OccursAt(s, x, i);
    var j :| 0 <= j <= |x| - |y| && OccursAt(x, y, j);
    SliceOfSlice(s, i, i + |x|, j, j + |y|);
    assert OccursAt(s, y, i + j);
  }

  lemma CompiledLiteral(line: Bytes)
    requires Compiled(line).Some?
    ensures var p := Compiled(line).value;
            && Valid(Remembered(p))
            && (p.exactSeg != [] ==> SegmentFields(p, p.exactSeg))
            && (p.exactSeg == [] && p.slashLit != [] ==> p.slashLit == [SLASH] + p.lit)
  {
    var sp := SpellingOf(line).value;
    var toks := Decoded(Pieces(sp.body, 0)).value;
    var ls := Collect(sp.body, 0, NO_LITERAL);
    if Plain(Pieces(sp.body, 0)) {
      PlainFits(sp, toks);
    } else if ls.lit != [] {
      var b := LiteralStands(sp.body, toks);
      SlashEnds(ls.lit);
    }
  }

  /** Whatever path a pattern matches, it finds its remembered bytes there. */
  lemma MatchHoldsLiteral(p: Pattern, rel: Path)
    requires Remembered(p) != [] && Match(p, rel)
    requires p.exactSeg != [] ==> SegmentFields(p, p.exactSeg)
    requires p.exactSeg == [] && p.slashLit != [] ==> p.slashLit == [SLASH] + p.lit
    ensures Contains(rel, Remembered(p))
  {
    if p.exactSeg != [] {
      var i := SegmentBackward(p, p.exactSeg, rel);
    } else if p.lit <= rel {
      assert rel[0..|p.lit|] == p.lit;
      assert OccursAt(rel, p.lit, 0);
    } else if p.slashLit != [] {
      ContainsTail(rel, SLASH, p.lit);
    }
  }

  /** A path the expression of a rule matches, without a true U+FFFD in it. */
  lemma BadSample(re: Regex) returns (rel: Path)
    requires Lit('\n') !in re.toks
    ensures NEWLINE !in rel && MatchString(re, RunesOf(rel)) && !Contains(rel, BAD_BYTES)
  {
    var sample := Sample(re.toks);
    SampleRuns(re.toks);
    var tail := if re.dirOnly then "/x" else "";
    var s := sample + tail;
    assert s[0..|sample|] == sample && s[|sample|..] == tail;
    assert MatchAt(re, s, 0, |sample|);
    rel := Encode(s, BAD_BYTE);
    EncodeReads(s, BAD_BYTE);
    AsciiInRunes(rel, NEWLINE);
    NoTrueBad(s);
  }

  /** A compiled pattern answers as its expression on every newline-free path
      whatever, UTF-8 or not, exactly when the bytes it looks for hold no
      U+FFFD. */
  lemma MatchIsExactIff(line: Bytes)
    requires Compiled(line).Some? && NEWLINE !in line
    ensures var p := Compiled(line).value;
            (forall rel | NEWLINE !in rel :: Match(p, rel) == MatchString(p.re, RunesOf(rel)))
            <==> BAD !in RunesOf(Remembered(p))
  {
    var p := Compiled(line).value;
    if BAD in RunesOf(Remembered(p)) {
      LineEnds(line);
      CompiledLiteral(line);
      var rel := BadSample(p.re);
      if Match(p, rel) {
        MatchHoldsLiteral(p, rel);
        TrueBadIn(Remembered(p));
        ContainsWithin(rel, Remembered(p), BAD_BYTES);
      }
    } else {
      forall rel | NEWLINE !in rel ensures Match(p, rel) == MatchString(p.re, RunesOf(rel)) {
        MatchesExpression(line, rel);
      }
    }
  }
}
