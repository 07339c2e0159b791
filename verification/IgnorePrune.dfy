/** When a whole directory may be skipped: the rule that matches "d/" must
    match everything below d. */
module IgnorePrune {
  import opened Text
  import opened Runes
  import opened IgnoreRule
  import opened IgnoreCompile

  predicate Below(d: Path, rel: Path) {
    Beneath(d, rel) && rel != d + [SLASH] && NEWLINE !in rel
  }

  /** Pruning d because of this rule loses no file the rule leaves in. */
  ghost predicate PruneSafe(p: Pattern) {
    forall d, rel | Below(d, rel) :: Match(p, d + [SLASH]) ==> Match(p, rel)
  }

  /** The body ends in a slash that is part of the name: an escaped one. */
  predicate EndsInSlash(re: Regex) {
    !re.dirOnly && re.toks != [] && re.toks[|re.toks| - 1] == Lit('/')
  }

  // ---- expressions ----

  lemma LastToken(toks: seq<Tok<char>>, s: string) returns (k: nat)
    requires toks != [] && Run(toks, s)
    ensures k <= |s| && Run(toks[..|toks| - 1], s[..k]) && Takes(toks[|toks| - 1], s[k..])
  {
    var n := |toks| - 1;
    assert toks == toks[..n] + [toks[n]];
    k := RunSplit(toks[..n], [toks[n]], s);
    OneToken(toks[n], s[k..]);
  }

  lemma OneToken(t: Tok<char>, s: string)
    ensures Run([t], s) <==> Takes(t, s)
  {
    assert [t][1..] == [] && s[..|s|] == s;
    forall k | 0 <= k <= |s| && Run([t][1..], s[k..]) ensures s[..k] == s {
      assert k == |s|;
    }
  }

  function FirstSegment(x: string): (n: nat)
    ensures n <= |x| && '/' !in x[..n] && (n < |x| ==> x[n] == '/')
  {
    if x == "" || x[0] == '/' then 0
    else
      var n := FirstSegment(x[1..]);
      assert x[..n + 1] == [x[0]] + x[1..][..n];
      1 + n
  }

  lemma StretchToken(last: Tok<char>, v: string, x: string) returns (n: nat)
    requires last != Lit('/') && Takes(last, v) && (v != "" ==> v[|v| - 1] == '/')
    requires '\n' !in v && '\n' !in x
    ensures n <= |x| && (n < |x| ==> x[n] == '/') && Takes(last, v + x[..n])
  {
    n := if last.Deep? then |x| else FirstSegment(x);
    assert last.Star? ==> v == "";
  }

  /** A body matched up to a slash ends in a wildcard, unless it ends in the
      slash itself; the wildcard goes on at least to the end of a segment. */
  lemma Stretch(toks: seq<Tok<char>>, t: string, x: string) returns (n: nat)
    requires toks != [] && toks[|toks| - 1] != Lit('/') && Run(toks, t)
    requires t != "" ==> t[|t| - 1] == '/'
    requires '\n' !in t && '\n' !in x
    ensures n <= |x| && (n < |x| ==> x[n] == '/') && Run(toks, t + x[..n])
  {
    var front, last := toks[..|toks| - 1], toks[|toks| - 1];
    var k := LastToken(toks, t);
    n := StretchToken(last, t[k..], x);
    OneToken(last, t[k..] + x[..n]);
    RunJoin(front, [last], t[..k], t[k..] + x[..n]);
    assert front + [last] == toks;
    CutAndJoin(t, k, x[..n]);
  }

  lemma WildcardExtends(re: Regex, s: string, x: string, i: nat)
    requires re.toks != [] && !re.dirOnly && !EndsInSlash(re)
    requires i <= |s| && Opens(re.anchored, '/', s, i) && s != "" && s[|s| - 1] == '/'
    requires Run(re.toks, s[i..]) && '\n' !in s && '\n' !in x
    ensures MatchString(re, s + x)
  {
    var n := Stretch(re.toks, s[i..], x);
    var rel := s + x;
    SliceAcross(s, x, i, n);
    assert Opens(re.anchored, '/', rel, i);
    assert MatchAt(re, rel, i, |s| + n);
  }

  /** An expression that matches a name with a slash after it matches what
      follows the slash, if it does not end in that slash. */
  lemma ExpressionExtends(re: Regex, s: string, x: string)
    requires re.toks != [] && !EndsInSlash(re) && MatchString(re, s)
    requires s != "" && s[|s| - 1] == '/' && x != "" && '\n' !in s && '\n' !in x
    ensures MatchString(re, s + x)
  {
    var rel := s + x;
    var i, j :| 0 <= i <= j <= |s| && MatchAt(re, s, i, j);
    assert Opens(re.anchored, '/', rel, i);
    if j < |s| {
      assert rel[i..j] == s[i..j] && rel[j..] == s[j..] + x && s[j..][0] == s[j];
      assert MatchAt(re, rel, i, j);
    } else {
      assert s[i..j] == s[i..] && s[j..] == "";
      WildcardExtends(re, s, x, i);
    }
  }

  /** Some string a rule body matches. */
  function Sample(toks: seq<Tok<char>>): string {
    if toks == [] then ""
    else match toks[0]
      case Lit(c) => [c] + Sample(toks[1..])
      case One => "x" + Sample(toks[1..])
      case _ => Sample(toks[1..])
  }

  lemma {:induction false} SampleRuns(toks: seq<Tok<char>>)
    requires Lit('\n') !in toks
    ensures Run(toks, Sample(toks)) && '\n' !in Sample(toks)
  {
    if toks != [] {
      assert forall t | t in toks[1..] :: t in toks;
      SampleRuns(toks[1..]);
      var s := Sample(toks);
      var k := if toks[0].Star? || toks[0].Deep? then 0 else 1;
      assert s[k..] == Sample(toks[1..]) && Takes(toks[0], s[..k]);
    }
  }

  lemma MatchEndsInSlash(re: Regex, t: string, i: nat, j: nat)
    requires EndsInSlash(re) && t != "" && t[|t| - 1] != '/' && i <= j <= |t| && MatchAt(re, t, i, j)
    ensures 0 < j < |t| && t[j - 1] == t[j] == '/' && MatchString(re, t[..j])
  {
    var k := LastToken(re.toks, t[i..j]);
    assert j > i && t[j - 1] == t[i..j][k..][0] == '/';
    assert t[j] == t[j..][0];
    assert t[..j][i..j] == t[i..j] && t[..j][j..] == "";
    assert MatchAt(re, t[..j], i, j);
  }

  /** A match of the form "d/". */
  predicate SlashMatch(re: Regex, s: string) {
    MatchString(re, s) && s != "" && s[|s| - 1] == '/' && '\n' !in s
  }

  lemma ShorterMatch(re: Regex, s: string) returns (j: nat)
    requires EndsInSlash(re) && SlashMatch(re, s) && MatchString(re, s + "x")
    ensures j < |s| && SlashMatch(re, s[..j])
  {
    var t := s + "x";
    assert t[|s|] == 'x';
    var i, k :| 0 <= i <= k <= |t| && MatchAt(re, t, i, k);
    MatchEndsInSlash(re, t, i, k);
    j := k;
    assert j < |s| && t[..j] == s[..j] && s[..j][j - 1] == t[j - 1];
  }

  /** The shortest match of a body that ends in a slash stops matching when a
      name is added under it. */
  lemma {:induction false} ShortestMatch(re: Regex, s: string) returns (r: string)
    requires EndsInSlash(re) && SlashMatch(re, s)
    ensures SlashMatch(re, r) && !MatchString(re, r + "x")
    decreases |s|
  {
    if MatchString(re, s + "x") {
      var j := ShorterMatch(re, s);
      r := ShortestMatch(re, s[..j]);
    } else {
      r := s;
    }
  }

  lemma SampleMatches(re: Regex)
    requires EndsInSlash(re) && Lit('\n') !in re.toks
    ensures SlashMatch(re, Sample(re.toks))
  {
    var s := Sample(re.toks);
    SampleRuns(re.toks);
    assert s[0..|s|] == s && s[|s|..] == "";
    assert MatchAt(re, s, 0, |s|);
    var k := LastToken(re.toks, s);
    assert s[|s| - 1] == s[k..][0];
  }

  // ---- patterns ----

  lemma ContainsMore(s: Path, t: Path, x: Bytes)
    requires s <= t && Contains(s, x)
    ensures Contains(t, x)
  {
    var i :| 0 <= i <= |s| - |x| && OccursAt(s, x, i);
    assert t[i..i + |x|] == s[i..i + |x|];
    assert OccursAt(t, x, i);
  }

  lemma PassesMore(p: Pattern, s: Path, t: Path)
    requires s <= t && Passes(p, s)
    ensures Passes(p, t)
  {
    if Contains(s, p.slashLit) {
      ContainsMore(s, t, p.slashLit);
    }
    if Contains(s, p.lit) {
      ContainsMore(s, t, p.lit);
    }
  }

  lemma ComparesMore(p: Pattern, s: Path, t: Path)
    requires OpenEnded(p) && p.exactSeg != [] && s <= t && s != [] && s[|s| - 1] == SLASH
    requires Compares(p, s)
    ensures Compares(p, t)
  {
    if !p.anchored && Contains(s, p.segInfix) {
      ContainsMore(s, t, p.segInfix);
    }
  }

  /** The runes of a path below d are those of "d/" and some more. */
  lemma BelowRunes(d: Path, rel: Path) returns (x: string)
    requires Below(d, rel)
    ensures var s := RunesOf(d + [SLASH]);
            && s != "" && s[|s| - 1] == '/' && '\n' !in s
            && RunesOf(rel) == s + x && x != "" && '\n' !in x
  {
    var rest := rel[|d| + 1..];
    assert rel == d + [SLASH] + rest;
    x := RunesOf(rest);
    RunesAfterSlash(d, rest);
    RunesAppend(d, [SLASH]);
    RunesOfAscii(SLASH);
    AsciiInRunes(rel, NEWLINE);
  }

  /** A pattern whose body does not end in a slash. */
  predicate OpenEnded(p: Pattern) {
    if p.exactSeg == [] then p.re.toks != [] && !EndsInSlash(p.re)
    else
      && p.segPrefix == p.exactSeg + [SLASH]
      && (!p.anchored ==> p.segSuffix == [SLASH] + p.exactSeg)
      && (p.dirOnly || p.exactSeg[|p.exactSeg| - 1] != SLASH)
  }

  /** Such a pattern matches what lies below a directory it matches. */
  lemma SafeForward(p: Pattern, d: Path, rel: Path)
    requires OpenEnded(p) && Below(d, rel) && Match(p, d + [SLASH])
    ensures Match(p, rel)
  {
    var s := d + [SLASH];
    if p.exactSeg != [] {
      ComparesMore(p, s, rel);
    } else {
      PassesMore(p, s, rel);
      var x := BelowRunes(d, rel);
      ExpressionExtends(p.re, RunesOf(s), x);
    }
  }

  /** On the UTF-8 of some runes a pattern answers as its expression. */
  lemma MatchesEncoded(line: Bytes, s: string)
    requires Compiled(line).Some? && '\n' !in s
    ensures var p := Compiled(line).value; var rel := Encode(s, BAD_BYTES);
            NEWLINE !in rel && (Match(p, rel) <==> MatchString(p.re, s))
  {
    var rel := Encode(s, BAD_BYTES);
    EncodeReads(s, BAD_BYTES);
    AsciiInRunes(rel, NEWLINE);
    MatchesExpression(line, rel);
  }

  lemma EncodedBelow(name: string)
    ensures var d := Encode(name, BAD_BYTES);
            && Encode(name + "/", BAD_BYTES) == d + [SLASH]
            && Encode(name + "/x", BAD_BYTES) == d + [SLASH, 120]
  {
    EncodeMore(name, '/', BAD_BYTES);
    EncodeMore(name + "/", 'x', BAD_BYTES);
    assert name + "/" + "x" == name + "/x";
    Assoc(Encode(name, BAD_BYTES), [SLASH], [120]);
    assert [SLASH] + [120 as byte] == [SLASH, 120];
  }

  lemma UnsafeName(re: Regex) returns (name: string)
    requires EndsInSlash(re) && Lit('\n') !in re.toks
    ensures '\n' !in name && MatchString(re, name + "/") && !MatchString(re, name + "/x")
  {
    SampleMatches(re);
    var r := ShortestMatch(re, Sample(re.toks));
    name := r[..|r| - 1];
    assert name + "/" == r && name + "/x" == r + "x";
  }

  /** A match and its longer neighbour, as paths. */
  lemma UnsafeBackward(line: Bytes) returns (d: Path, rel: Path)
    requires Compiled(line).Some? && EndsInSlash(Compiled(line).value.re)
    requires Lit('\n') !in Compiled(line).value.re.toks
    ensures Below(d, rel) && Match(Compiled(line).value, d + [SLASH]) && !Match(Compiled(line).value, rel)
  {
    var name := UnsafeName(Compiled(line).value.re);
    d, rel := Encode(name, BAD_BYTES), Encode(name, BAD_BYTES) + [SLASH, 120];
    EncodedBelow(name);
    MatchesEncoded(line, name + "/");
    MatchesEncoded(line, name + "/x");
    assert d + [SLASH] <= rel;
  }

  // ---- the condition, read off the text of a rule ----

  lemma LastOfJoin<T>(a: seq<T>, b: seq<T>)
    requires b != []
    ensures (a + b)[|a + b| - 1] == b[|b| - 1]
  {
  }

  /** How the pieces of a body end is how the expression ends. */
  lemma {:induction false} DecodedEnds(ps: seq<Tok<byte>>, toks: seq<Tok<char>>)
    requires Decoded(ps) == Some(toks) && ps != []
    ensures toks != []
    ensures toks[|toks| - 1] == Lit('/') <==> ps[|ps| - 1] == Lit(SLASH)
    ensures Lit(NEWLINE) !in ps ==> Lit('\n') !in toks
    decreases |ps|
  {
    var n, head, tail := FirstDecoded(ps, toks);
    if n < |ps| {
      var rest := ps[n..];
      assert rest[|rest| - 1] == ps[|ps| - 1];
      DecodedEnds(rest, tail);
      LastOfJoin(head, tail);
    }
  }

  lemma FirstDecoded(ps: seq<Tok<byte>>, toks: seq<Tok<char>>)
    returns (n: nat, head: seq<Tok<char>>, tail: seq<Tok<char>>)
    requires Decoded(ps) == Some(toks) && ps != []
    ensures 0 < n <= |ps| && head != [] && toks == head + tail && Decoded(ps[n..]) == Some(tail)
    ensures head[|head| - 1] == Lit('/') <==> ps[n - 1] == Lit(SLASH)
    ensures Lit(NEWLINE) !in ps ==> Lit('\n') !in head
    ensures n == |ps| ==> tail == []
  {
    if ps[0].Lit? {
      RunEnds(ps);
      n, head := |LiteralRun(ps)|, Lits(RunesOf(LiteralRun(ps)));
    } else {
      n, head := 1, [Wild(ps[0])];
    }
    tail := Decoded(ps[n..]).value;
  }

  lemma RunIsThere(ps: seq<Tok<byte>>, c: byte)
    requires ps != [] && ps[0].Lit?
    ensures var run := LiteralRun(ps);
            && run != [] && Lit(run[|run| - 1]) == ps[|run| - 1]
            && (Lit(c) !in ps ==> c !in run)
  {
    var run := LiteralRun(ps);
    assert forall k | 0 <= k < |run| :: ps[..|run|][k] == ps[k] == Lit(run[k]);
  }

  lemma RunEnds(ps: seq<Tok<byte>>)
    requires ps != [] && ps[0].Lit?
    ensures var run := LiteralRun(ps); var runes := RunesOf(run);
            && run != [] && runes != ""
            && (runes[|runes| - 1] == '/' <==> ps[|run| - 1] == Lit(SLASH))
            && (Lit(NEWLINE) !in ps ==> Lit('\n') !in Lits(runes))
  {
    RunIsThere(ps, NEWLINE);
    LastRune(LiteralRun(ps), SLASH);
    AsciiInRunes(LiteralRun(ps), NEWLINE);
  }

  lemma {:induction false} PiecesEnd(body: Bytes, i: nat)
    requires i < |body|
    ensures var ps := Pieces(body, i);
            && ps != [] && (ps[|ps| - 1] == Lit(SLASH) <==> body[|body| - 1] == SLASH)
            && (NEWLINE !in body ==> Lit(NEWLINE) !in ps)
    decreases |body| - i
  {
    var w := WidthAt(body, i);
    if i + w < |body| {
      PiecesEnd(body, i + w);
    }
  }

  lemma {:induction false} TrimKeepsOut(line: Bytes, c: byte)
    requires c !in line
    ensures c !in TrimLeft(line) && c !in TrimRight(line)
    ensures c !in DropLeadingSlashes(line) && c !in DropTrailingSlashes(line)
    decreases |line|
  {
    if line != [] {
      TrimKeepsOut(line[1..], c);
      TrimKeepsOut(line[..|line| - 1], c);
    }
  }

  lemma BodyKeepsOut(line: Bytes, c: byte)
    requires c !in line && SpellingOf(line).Some?
    ensures c !in SpellingOf(line).value.body
  {
    TrimKeepsOut(line, c);
    TrimKeepsOut(TrimLeft(line), c);
    var t := TrimRuleSpace(line);
    TrimKeepsOut(t[1..], c);
    TrimKeepsOut(TrimLeft(t[1..]), c);
    var u := if t[0] == BANG then TrimRuleSpace(t[1..]) else t;
    TrimKeepsOut(u, c);
    TrimKeepsOut(DropLeadingSlashes(u), c);
  }

  lemma BodyEnds(body: Bytes, toks: seq<Tok<char>>)
    requires body != [] && Decoded(Pieces(body, 0)) == Some(toks)
    ensures toks != [] && (toks[|toks| - 1] == Lit('/') <==> body[|body| - 1] == SLASH)
    ensures NEWLINE !in body ==> Lit('\n') !in toks
  {
    PiecesEnd(body, 0);
    DecodedEnds(Pieces(body, 0), toks);
  }

  lemma PatternEnds(sp: Spelling, toks: seq<Tok<char>>)
    requires sp.body != [] && Decoded(Pieces(sp.body, 0)) == Some(toks)
    ensures var p := PatternOf(sp, toks);
            && (EndsInSlash(p.re) <==> !p.dirOnly && sp.body[|sp.body| - 1] == SLASH)
            && (EndsInSlash(p.re) || OpenEnded(p))
            && (NEWLINE !in sp.body ==> Lit('\n') !in p.re.toks)
  {
    BodyEnds(sp.body, toks);
    if Plain(Pieces(sp.body, 0)) {
      PlainFits(sp, toks);
      LastRune(PatternOf(sp, toks).exactSeg, SLASH);
    }
  }

  lemma LineEnds(line: Bytes)
    requires Compiled(line).Some?
    ensures var p := Compiled(line).value; var body := SpellingOf(line).value.body;
            && (EndsInSlash(p.re) <==> !p.dirOnly && body[|body| - 1] == SLASH)
            && (EndsInSlash(p.re) || OpenEnded(p))
            && (NEWLINE !in line ==> Lit('\n') !in p.re.toks)
  {
    var sp := SpellingOf(line).value;
    PatternEnds(sp, Decoded(Pieces(sp.body, 0)).value);
    if NEWLINE !in line {
      BodyKeepsOut(line, NEWLINE);
    }
  }

  /** Pruning on one line of a rule file is safe exactly when the line is for
      directories only or its body does not end in a slash (which, left there,
      is an escaped one). */
  lemma PruneSafeIff(line: Bytes)
    requires Compiled(line).Some? && NEWLINE !in line
    ensures var p := Compiled(line).value; var body := SpellingOf(line).value.body;
            PruneSafe(p) <==> p.dirOnly || body[|body| - 1] != SLASH
  {
    LineEnds(line);
    var p := Compiled(line).value;
    if EndsInSlash(p.re) {
      var d, rel := UnsafeBackward(line);
    } else {
      forall d, rel | Below(d, rel) && Match(p, d + [SLASH]) ensures Match(p, rel) {
        SafeForward(p, d, rel);
      }
    }
  }
}
