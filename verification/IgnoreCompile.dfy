/** The rule compiler: one pass over a line builds the regular expression, its
    literal prefilter and, for a rule without wildcards, the comparisons that
    replace the expression. */
module IgnoreCompile {
  import opened Text
  import opened Utf8
  import opened Runes
  import opened IgnoreRule

  datatype Pattern = Pattern(
    re: Regex,
    negate: bool,
    lit: Bytes,
    slashLit: Bytes,
    exactSeg: Bytes,
    segPrefix: Bytes,
    segSuffix: Bytes,
    segInfix: Bytes,
    anchored: bool,
    dirOnly: bool)

  /** The comparisons that replace the expression of a rule without
      wildcards. */
  predicate Compares(p: Pattern, rel: Path) {
    if p.anchored then
      if p.dirOnly then p.segPrefix <= rel
      else rel == p.exactSeg || p.segPrefix <= rel
    else if p.dirOnly then p.segPrefix <= rel || Contains(rel, p.segInfix)
    else rel == p.exactSeg || p.segPrefix <= rel || HasSuffix(rel, p.segSuffix)
         || Contains(rel, p.segInfix)
  }

  /** The prefilter. */
  predicate Passes(p: Pattern, rel: Path) {
    || p.lit == []
    || (if p.slashLit != [] then p.lit <= rel || Contains(rel, p.slashLit) else Contains(rel, p.lit))
  }

  /** pattern.match. The comparisons and the prefilter look at bytes, the
      expression at runes. */
  predicate Match(p: Pattern, rel: Path) {
    if p.exactSeg != [] then Compares(p, rel) else Passes(p, rel) && MatchString(p.re, RunesOf(rel))
  }

  /** The text that match looks for byte by byte. */
  function Remembered(p: Pattern): Bytes {
    if p.exactSeg != [] then p.exactSeg else p.lit
  }

  /** Nothing that match compares is read as U+FFFD by the expression. */
  predicate Plainly(p: Pattern, rel: Path) {
    NEWLINE !in rel && (Valid(rel) || BAD !in RunesOf(Remembered(p)))
  }

  // ---- runs of tokens ----

  lemma {:induction false} RunLits(text: string, s: string)
    ensures Run(Lits(text), s) <==> s == text
  {
    if text != "" {
      assert Lits(text)[1..] == Lits(text[1..]);
      forall k | 0 <= k <= |s| ensures Run(Lits(text[1..]), s[k..]) <==> s[k..] == text[1..] {
        RunLits(text[1..], s[k..]);
      }
      if s == text {
        assert Takes(Lits(text)[0], s[..1]);
      }
      forall k | 0 <= k <= |s| && Takes(Lits(text)[0], s[..k]) && s[k..] == text[1..] ensures s == text {
        assert s == s[..k] + s[k..] && text == [text[0]] + text[1..];
      }
    }
  }

  /** A match of a concatenation cuts the string in two. */
  lemma {:induction false} RunSplit(a: seq<Tok<char>>, b: seq<Tok<char>>, s: string) returns (m: nat)
    requires Run(a + b, s)
    ensures m <= |s| && Run(a, s[..m]) && Run(b, s[m..])
    decreases |a|
  {
    if a == [] {
      assert a + b == b && s[0..] == s;
      m := 0;
    } else {
      assert (a + b)[1..] == a[1..] + b;
      var k :| 0 <= k <= |s| && Takes(a[0], s[..k]) && Run(a[1..] + b, s[k..]);
      var r := RunSplit(a[1..], b, s[k..]);
      m := k + r;
      assert s[k..][..r] == s[..m][k..] && s[k..][r..] == s[m..] && s[..m][..k] == s[..k];
    }
  }

  lemma {:induction false} RunJoin(a: seq<Tok<char>>, b: seq<Tok<char>>, s: string, t: string)
    requires Run(a, s) && Run(b, t)
    ensures Run(a + b, s + t)
    decreases |a|
  {
    if a == [] {
      assert a + b == b && s + t == t;
    } else {
      assert (a + b)[1..] == a[1..] + b;
      var k :| 0 <= k <= |s| && Takes(a[0], s[..k]) && Run(a[1..], s[k..]);
      RunJoin(a[1..], b, s[k..], t);
      CutOfJoin(s, t, k);
    }
  }

  /** toks holds text, as literals, from position a on. */
  predicate LitsAt<C(==)>(toks: seq<Tok<C>>, text: seq<C>, a: nat) {
    OccursAt(toks, Lits(text), a)
  }

  /** Literal text of a rule occurs in every string the rule matches: at the
      start when the run opens the rule, at the end when it closes it. */
  lemma LitsOccur(toks: seq<Tok<char>>, text: string, a: nat, s: string) returns (i: nat)
    requires LitsAt(toks, text, a) && Run(toks, s)
    ensures OccursAt(s, text, i)
    ensures a == 0 ==> i == 0
    ensures a + |text| == |toks| ==> i + |text| == |s|
  {
    var rest := toks[a..];
    assert toks == toks[..a] + rest;
    i := RunSplit(toks[..a], rest, s);
    assert rest == Lits(text) + toks[a + |text|..];
    var n := RunSplit(Lits(text), toks[a + |text|..], s[i..]);
    RunLits(text, s[i..][..n]);
    assert s[i..i + |text|] == s[i..][..n];
  }

  /** In every string a rule matches, its literal text occurs, and opens a
      segment if it opens the rule. */
  lemma LiteralInMatch(re: Regex, text: string, a: nat, lit: string, s: string) returns (j: nat)
    requires LitsAt(re.toks, text, a)
    requires lit == text || (lit == text + "/" && re.dirOnly && a + |text| == |re.toks|)
    requires MatchString(re, s)
    ensures OccursAt(s, lit, j) && (a == 0 ==> Opens(re.anchored, '/', s, j))
  {
    var i, k :| 0 <= i <= k <= |s| && MatchAt(re, s, i, k);
    var at := LitsOccur(re.toks, text, a, s[i..k]);
    SliceOfSlice(s, i, k, at, at + |text|);
    j := i + at;
    if lit != text {
      assert j + |text| == k && s[k] == s[k..][0] == '/';
      OccursThen(s, text, j);
    }
  }

  // ---- literal bytes and the runes they are compiled to ----

  /** No stretch of literals runs across the seam of x and y. */
  predicate Apart(x: seq<Tok<byte>>, y: seq<Tok<byte>>) {
    x == [] || y == [] || !x[|x| - 1].Lit? || !y[0].Lit?
  }

  lemma LiteralRunApart(x: seq<Tok<byte>>, y: seq<Tok<byte>>)
    requires Apart(x, y) && x != []
    ensures LiteralRun(x + y) == LiteralRun(x)
  {
    var r, s := LiteralRun(x), LiteralRun(x + y);
    assert forall k | 0 <= k < |r| :: x[..|r|][k] == x[k] == (x + y)[k] == Lit(r[k]);
    assert forall k | 0 <= k < |s| :: (x + y)[..|s|][k] == (x + y)[k] == Lit(s[k]);
    assert |r| < |x| ==> (x + y)[|r|] == x[|r|];
    assert y != [] ==> (x + y)[|x|] == y[0];
  }

  lemma AfterAfter(a: seq<Tok<char>>, b: seq<Tok<char>>, rest: Option<seq<Tok<char>>>)
    ensures After(a, After(b, rest)) == After(a + b, rest)
    ensures After([], rest) == rest
  {
    if rest.Some? {
      Assoc(a, b, rest.value);
      assert [] + rest.value == rest.value;
    }
  }

  lemma {:induction false} DecodedAppend(x: seq<Tok<byte>>, y: seq<Tok<byte>>)
    requires Apart(x, y)
    ensures Decoded(x + y) == if Decoded(x).None? then None else After(Decoded(x).value, Decoded(y))
    decreases |x|
  {
    if x == [] {
      assert x + y == y;
      AfterAfter([], [], Decoded(y));
    } else {
      var n := if x[0].Lit? then |LiteralRun(x)| else 1;
      LiteralRunApart(x, y);
      assert (x + y)[n..] == x[n..] + y;
      DecodedAppend(x[n..], y);
      var ts := if x[0].Lit? then Lits(RunesOf(LiteralRun(x))) else [Wild(x[0])];
      if Decoded(x[n..]).Some? {
        AfterAfter(ts, Decoded(x[n..]).value, Decoded(y));
      }
    }
  }

  lemma DecodedLits(text: Bytes)
    ensures Decoded(Lits(text)) == if Valid(text) then Some(Lits(RunesOf(text))) else None
  {
    if text == [] {
      assert Lits(text) == [] && Lits(RunesOf(text)) == [];
    } else {
      var run := LiteralRun(Lits(text));
      assert |run| == |text|;
      forall k | 0 <= k < |run| ensures run[k] == text[k] {
        assert Lits(text)[..|run|][k] == Lit(text[k]);
      }
      assert run == text && Lits(text)[|run|..] == [];
      assert Lits(RunesOf(text)) + [] == Lits(RunesOf(text));
    }
  }

  /** text stands in ps from position a on, with no literal next to it. */
  predicate WholeRun(ps: seq<Tok<byte>>, text: Bytes, a: nat) {
    && LitsAt(ps, text, a)
    && (a > 0 ==> !ps[a - 1].Lit?)
    && (a + |text| < |ps| ==> !ps[a + |text|].Lit?)
  }

  lemma DecodedAround(x: seq<Tok<byte>>, text: Bytes, y: seq<Tok<byte>>, toks: seq<Tok<char>>)
    returns (before: seq<Tok<char>>, after: seq<Tok<char>>)
    requires Apart(x, Lits(text) + y) && Apart(Lits(text), y)
    requires Decoded(x + (Lits(text) + y)) == Some(toks)
    ensures Valid(text) && toks == before + (Lits(RunesOf(text)) + after)
    ensures (x == [] ==> before == []) && (y == [] ==> after == [])
  {
    DecodedAppend(x, Lits(text) + y);
    DecodedAppend(Lits(text), y);
    DecodedLits(text);
    before, after := Decoded(x).value, Decoded(y).value;
  }

  lemma RunApart(ps: seq<Tok<byte>>, text: Bytes, a: nat)
    requires WholeRun(ps, text, a) && text != []
    ensures var x, y := ps[..a], ps[a + |text|..];
            && ps == x + (Lits(text) + y) && Apart(x, Lits(text) + y) && Apart(Lits(text), y)
  {
    CutAround(ps, Lits(text), a);
  }

  /** A whole run of literal bytes is UTF-8 in a rule that compiles, and its
      runes stand where it stands. */
  lemma RunInTokens(ps: seq<Tok<byte>>, text: Bytes, a: nat, toks: seq<Tok<char>>) returns (b: nat)
    requires WholeRun(ps, text, a) && Decoded(ps) == Some(toks) && text != []
    ensures Valid(text) && LitsAt(toks, RunesOf(text), b)
    ensures a == 0 ==> b == 0
    ensures a + |text| == |ps| ==> b + |RunesOf(text)| == |toks|
  {
    RunApart(ps, text, a);
    var before, after := DecodedAround(ps[..a], text, ps[a + |text|..], toks);
    b := |before|;
    OccursBetween(before, Lits(RunesOf(text)), after);
  }

  // ---- the prefilter never rejects a match ----

  lemma SlashThen(lit: Bytes, rel: Path, i: nat)
    requires i > 0 && OccursAt(rel, lit, i) && rel[i - 1] == SLASH
    ensures Contains(rel, [SLASH] + lit)
  {
    assert rel[i - 1..i + |lit|] == [SLASH] + lit;
    assert OccursAt(rel, [SLASH] + lit, i - 1);
  }

  /** Bytes and runes agree on where a segment opens. */
  lemma SameOpening(anchored: bool, rel: Path, i: nat, j: nat)
    requires i <= |rel| && j <= |RunesOf(rel)| && RunesOf(rel[..i]) == RunesOf(rel)[..j]
    requires j == 0 ==> i == 0
    ensures Opens(anchored, SLASH, rel, i) <==> Opens(anchored, '/', RunesOf(rel), j)
  {
    LastRune(rel[..i], SLASH);
  }

  lemma SlashEnds(text: Bytes)
    requires Valid(text)
    ensures Valid(text + [SLASH]) && RunesOf(text + [SLASH]) == RunesOf(text) + "/"
  {
    AsciiValid([SLASH]);
    ValidAppend(text, [SLASH]);
    RunesAppend(text, [SLASH]);
    RunesOfAscii(SLASH);
  }

  lemma PrefilterSound(p: Pattern, text: Bytes, a: nat, rel: Path)
    requires Valid(text) && LitsAt(p.re.toks, RunesOf(text), a)
    requires p.lit == text || (p.lit == text + [SLASH] && p.re.dirOnly && a + |RunesOf(text)| == |p.re.toks|)
    requires p.slashLit != [] ==> p.slashLit == [SLASH] + p.lit && !p.re.anchored && a == 0
    requires MatchString(p.re, RunesOf(rel)) && (Valid(rel) || BAD !in RunesOf(p.lit))
    ensures Passes(p, rel)
  {
    SlashEnds(text);
    var j := LiteralInMatch(p.re, RunesOf(text), a, RunesOf(p.lit), RunesOf(rel));
    var i := RunesOccur(rel, p.lit, j);
    if p.slashLit != [] {
      SameOpening(p.re.anchored, rel, i, j);
      if i > 0 {
        SlashThen(p.lit, rel, i);
      }
    }
  }

  // ---- rules of literals alone ----

  /** rel is text, or lies under it, from position i on. */
  predicate SegmentAt<T(==)>(text: seq<T>, slash: T, dirOnly: bool, rel: seq<T>, i: nat) {
    OccursAt(rel, text, i) && (if i + |text| == |rel| then !dirOnly else rel[i + |text|] == slash)
  }

  /** A rule of literals alone matches the paths its text names, and what lies
      under them. */
  lemma LiteralMatch(re: Regex, text: string, s: string)
    requires re.toks == Lits(text) && '\n' !in s
    ensures MatchString(re, s) <==>
            exists i | 0 <= i <= |s| :: Opens(re.anchored, '/', s, i) && SegmentAt(text, '/', re.dirOnly, s, i)
  {
    forall i, j | 0 <= i <= j <= |s| && MatchAt(re, s, i, j)
      ensures SegmentAt(text, '/', re.dirOnly, s, i)
    {
      RunLits(text, s[i..j]);
      assert s[i..i + |text|] == s[i..j];
      assert j < |s| ==> s[j..][0] == s[j];
    }
    forall i | 0 <= i <= |s| && Opens(re.anchored, '/', s, i) && SegmentAt(text, '/', re.dirOnly, s, i)
      ensures MatchAt(re, s, i, i + |text|)
    {
      RunLits(text, s[i..i + |text|]);
      assert i + |text| < |s| ==> s[i + |text|..][0] == s[i + |text|];
    }
  }

  ghost predicate SegmentFields(p: Pattern, text: Bytes) {
    && p.exactSeg == text
    && p.segPrefix == text + [SLASH]
    && (!p.anchored ==> p.segSuffix == [SLASH] + text && p.segInfix == [SLASH] + text + [SLASH])
  }

  lemma SliceParts<T>(s: seq<T>, i: nat, j: nat, k: nat, e: nat)
    requires i <= j <= k <= e <= |s|
    ensures s[i..e] == s[i..j] + s[j..k] + s[k..e]
  {
  }

  lemma SameParts<T>(a: seq<T>, b: seq<T>, c: seq<T>, x: seq<T>, y: seq<T>, z: seq<T>)
    requires |a| == |x| && |b| == |y| && |c| == |z|
    ensures a + b + c == x + y + z <==> a == x && b == y && c == z
  {
    var v, w := a + b + c, x + y + z;
    assert v[..|a|] == a && v[|a|..|a| + |b|] == b && v[|a| + |b|..] == c;
    assert w[..|a|] == x && w[|a|..|a| + |b|] == y && w[|a| + |b|..] == z;
  }

  /** Cutting out the middle of an occurrence cuts the same place out of rel. */
  lemma InnerOccurrence(rel: Path, left: Bytes, text: Bytes, right: Bytes, k: nat)
    requires k + |left| + |text| + |right| <= |rel|
    ensures OccursAt(rel, left + text + right, k) <==>
            && rel[k..k + |left|] == left
            && OccursAt(rel, text, k + |left|)
            && rel[k + |left| + |text|..k + |left| + |text| + |right|] == right
  {
    var n, m, e := k + |left|, k + |left| + |text|, k + |left| + |text| + |right|;
    SliceParts(rel, k, n, m, e);
    SameParts(rel[k..n], rel[n..m], rel[m..e], left, text, right);
  }

  lemma SegmentForward(p: Pattern, text: Bytes, rel: Path, i: nat)
    requires SegmentFields(p, text)
    requires i <= |rel| && Opens(p.anchored, SLASH, rel, i) && SegmentAt(text, SLASH, p.dirOnly, rel, i)
    ensures Compares(p, rel)
  {
    var e := i + |text|;
    if i == 0 {
      assert rel[..e] == rel[0..e];
      assert e < |rel| ==> rel[..e + 1] == rel[..e] + [rel[e]];
    } else if e == |rel| {
      assert rel[i - 1..] == [rel[i - 1]] + rel[i..e];
    } else {
      InnerOccurrence(rel, [SLASH], text, [SLASH], i - 1);
    }
  }

  lemma SlashAfter(text: Bytes, rel: Path)
    requires text + [SLASH] <= rel
    ensures |rel| > |text| && OccursAt(rel, text, 0) && rel[|text|] == SLASH
  {
    assert rel[..|text| + 1] == text + [SLASH];
    assert rel[0..|text|] == rel[..|text| + 1][..|text|] == text;
  }

  lemma SlashBefore(text: Bytes, rel: Path)
    requires HasSuffix(rel, [SLASH] + text)
    ensures |rel| > |text| && OccursAt(rel, text, |rel| - |text|) && rel[|rel| - |text| - 1] == SLASH
  {
    var k := |rel| - |text| - 1;
    assert rel[k..] == [SLASH] + text;
    assert rel[k + 1..k + 1 + |text|] == rel[k..][1..] == text;
    assert rel[k] == rel[k..][0];
  }

  lemma SlashAround(text: Bytes, rel: Path, k: nat)
    requires OccursAt(rel, [SLASH] + text + [SLASH], k)
    ensures k + 2 + |text| <= |rel| && OccursAt(rel, text, k + 1)
    ensures rel[k] == SLASH && rel[k + 1 + |text|] == SLASH
  {
    InnerOccurrence(rel, [SLASH], text, [SLASH], k);
    assert rel[k] == rel[k..k + 1][0];
    assert rel[k + 1 + |text|] == rel[k + 1 + |text|..k + 2 + |text|][0];
  }

  lemma SegmentBackward(p: Pattern, text: Bytes, rel: Path) returns (i: nat)
    requires SegmentFields(p, text) && Compares(p, rel)
    ensures i <= |rel| && Opens(p.anchored, SLASH, rel, i) && SegmentAt(text, SLASH, p.dirOnly, rel, i)
  {
    if p.segPrefix <= rel {
      SlashAfter(text, rel);
      i := 0;
    } else if rel == text && !p.dirOnly {
      assert rel[0..|text|] == text;
      i := 0;
    } else if !p.dirOnly && HasSuffix(rel, p.segSuffix) {
      SlashBefore(text, rel);
      i := |rel| - |text|;
    } else {
      var k :| 0 <= k <= |rel| - |p.segInfix| && OccursAt(rel, p.segInfix, k);
      SlashAround(text, rel, k);
      i := k + 1;
    }
  }

  lemma FirstIsSlash(s: Bytes)
    requires s != []
    ensures RunesOf(s) != "" && (s[0] == SLASH <==> RunesOf(s)[0] == '/')
  {
  }

  lemma SegmentBetween<T>(a: seq<T>, text: seq<T>, b: seq<T>, slash: T, dirOnly: bool)
    requires if b == [] then !dirOnly else b[0] == slash
    ensures SegmentAt(text, slash, dirOnly, a + (text + b), |a|) && (a + (text + b))[..|a|] == a
  {
    var all := a + (text + b);
    assert all[|a|..|a| + |text|] == text;
    assert b != [] ==> all[|a| + |text|] == b[0];
  }

  /** A segment of bytes is read as the segment of its runes. */
  lemma SegmentToRunes(text: Bytes, anchored: bool, dirOnly: bool, rel: Path, i: nat) returns (j: nat)
    requires Valid(text) && text != []
    requires i <= |rel| && Opens(anchored, SLASH, rel, i) && SegmentAt(text, SLASH, dirOnly, rel, i)
    ensures j <= |RunesOf(rel)| && Opens(anchored, '/', RunesOf(rel), j)
    ensures SegmentAt(RunesOf(text), '/', dirOnly, RunesOf(rel), j)
  {
    var a, b := rel[..i], rel[i + |text|..];
    assert rel == a + (text + b);
    assert (text + b)[0] == text[0];
    RunesAppend(a, text + b);
    RunesAppend(text, b);
    j := |RunesOf(a)|;
    if b != [] {
      FirstIsSlash(b);
    }
    SegmentBetween(RunesOf(a), RunesOf(text), RunesOf(b), '/', dirOnly);
    SameOpening(anchored, rel, i, j);
  }

  lemma SegmentFromRunes(text: Bytes, anchored: bool, dirOnly: bool, rel: Path, j: nat) returns (i: nat)
    requires Valid(text) && (Valid(rel) || BAD !in RunesOf(text))
    requires j <= |RunesOf(rel)| && Opens(anchored, '/', RunesOf(rel), j)
    requires SegmentAt(RunesOf(text), '/', dirOnly, RunesOf(rel), j)
    ensures i <= |rel| && Opens(anchored, SLASH, rel, i) && SegmentAt(text, SLASH, dirOnly, rel, i)
  {
    i := RunesOccur(rel, text, j);
    SameOpening(anchored, rel, i, j);
    var rest := rel[i + |text|..];
    if rest != [] {
      FirstIsSlash(rest);
    }
  }

  /** For a rule without wildcards the comparisons and the expression agree,
      unless they read a byte of the path differently. */
  lemma SegmentSound(p: Pattern, text: Bytes, rel: Path)
    requires p.re == Regex(p.anchored, Lits(RunesOf(text)), p.dirOnly) && Valid(text) && text != []
    requires SegmentFields(p, text) && NEWLINE !in rel
    ensures Compares(p, rel) ==> MatchString(p.re, RunesOf(rel))
    ensures Valid(rel) || BAD !in RunesOf(text) ==> Compares(p, rel) == MatchString(p.re, RunesOf(rel))
  {
    AsciiInRunes(rel, NEWLINE);
    var s := RunesOf(rel);
    LiteralMatch(p.re, RunesOf(text), s);
    if Compares(p, rel) {
      var i := SegmentBackward(p, text, rel);
      var j := SegmentToRunes(text, p.anchored, p.dirOnly, rel, i);
    } else if Valid(rel) || BAD !in RunesOf(text) {
      if j :| 0 <= j <= |s| && Opens(p.anchored, '/', s, j) && SegmentAt(RunesOf(text), '/', p.dirOnly, s, j) {
        var i := SegmentFromRunes(text, p.anchored, p.dirOnly, rel, j);
        SegmentForward(p, text, rel, i);
      }
    }
  }

  // ---- the literal that is remembered ----

  /** The run of literals being collected, and the longest one so far, with the
      byte span [start, end) it is taken to occupy. */
  datatype Literals = Literals(current: Bytes, lit: Bytes, start: int, end: int)

  const NO_LITERAL := Literals([], [], -1, -1)

  function Flush(ls: Literals, at: nat): Literals {
    if ls.current == [] then ls
    else if ls.start < 0 || |ls.current| > ls.end - ls.start then Literals([], ls.current, at - |ls.current|, at)
    else ls.(current := [])
  }

  /** The literals of a body, read from index i on. */
  function Collect(body: Bytes, i: nat, ls: Literals): Literals
    requires i <= |body|
    decreases |body| - i
  {
    if i == |body| then Flush(ls, i)
    else
      var next := i + WidthAt(body, i);
      if PieceAt(body, i).Lit? then Collect(body, next, ls.(current := ls.current + [PieceAt(body, i).c]))
      else Collect(body, next, Flush(ls, i))
  }

  /** The run being collected ends the pieces read so far, which took at least
      a byte each. */
  ghost predicate Collecting(ps: seq<Tok<byte>>, ls: Literals, n: nat) {
    && |ls.current| <= |ps| <= n
    && WholeRun(ps, ls.current, |ps| - |ls.current|)
  }

  /** The remembered literal is a whole run, the first piece if its span starts
      at 0 and the last if its span ends at n. */
  ghost predicate Remembers(ps: seq<Tok<byte>>, ls: Literals, a: nat, n: nat) {
    ls.lit != [] ==>
      && WholeRun(ps, ls.lit, a)
      && (ls.start == 0 ==> a == 0)
      && ls.end <= n && (ls.end == n ==> a + |ls.lit| == |ps|)
  }

  /** Before a flush, something that is no literal has been read after it. */
  ghost predicate Behind(ps: seq<Tok<byte>>, ls: Literals, a: nat, n: nat) {
    ls.lit != [] ==> Remembers(ps, ls, a, n) && a + |ls.lit| < |ps| && ls.end < n
  }

  lemma FlushRemembers(ps: seq<Tok<byte>>, ls: Literals, a: nat, n: nat) returns (b: nat)
    requires Collecting(ps, ls, n) && Behind(ps, ls, a, n)
    ensures Flush(ls, n).current == [] && Remembers(ps, Flush(ls, n), b, n)
  {
    b := if Flush(ls, n).lit == ls.lit then a else |ps| - |ls.current|;
    if ls.lit == ls.current {
      b := if ls.start < 0 || |ls.current| > ls.end - ls.start then |ps| - |ls.current| else a;
    }
  }

  lemma MoreKeeps<C>(ps: seq<Tok<C>>, t: Tok<C>, text: seq<C>, a: nat)
    requires LitsAt(ps, text, a)
    ensures LitsAt(ps + [t], text, a)
  {
    assert (ps + [t])[a..a + |text|] == ps[a..a + |text|];
  }

  lemma WildcardStep(ps: seq<Tok<byte>>, t: Tok<byte>, ls: Literals, a: nat, n: nat, k: nat)
    requires !t.Lit? && ls.current == [] && |ps| <= n && Remembers(ps, ls, a, n) && k >= 1
    ensures Collecting(ps + [t], ls, n + k) && Behind(ps + [t], ls, a, n + k)
  {
    if ls.lit != [] {
      MoreKeeps(ps, t, ls.lit, a);
    }
  }

  lemma LiteralStep(ps: seq<Tok<byte>>, c: byte, ls: Literals, a: nat, n: nat, k: nat)
    requires Collecting(ps, ls, n) && Behind(ps, ls, a, n) && k >= 1
    ensures var more := ls.(current := ls.current + [c]);
            Collecting(ps + [Lit(c)], more, n + k) && Behind(ps + [Lit(c)], more, a, n + k)
  {
    var more, cur := ps + [Lit(c)], ls.current + [c];
    assert more[|more| - |cur|..] == ps[|ps| - |ls.current|..] + [Lit(c)] == Lits(cur);
    if ls.lit != [] {
      MoreKeeps(ps, Lit(c), ls.lit, a);
    }
  }

  ghost predicate Collected(body: Bytes, i: nat, ls: Literals, ps: seq<Tok<byte>>, a: nat) {
    && i <= |body| && ps + Pieces(body, i) == Pieces(body, 0)
    && Collecting(ps, ls, i) && Behind(ps, ls, a, i)
  }

  lemma CollectLiteral(body: Bytes, i: nat, ls: Literals, ps: seq<Tok<byte>>, a: nat)
    requires Collected(body, i, ls, ps, a) && i < |body| && PieceAt(body, i).Lit?
    ensures var t := PieceAt(body, i);
            Collected(body, i + WidthAt(body, i), ls.(current := ls.current + [t.c]), ps + [t], a)
  {
    var t, w := PieceAt(body, i), WidthAt(body, i);
    assert t == Lit(t.c);
    LiteralStep(ps, t.c, ls, a, i, w);
    Assoc(ps, [t], Pieces(body, i + w));
  }

  lemma CollectWildcard(body: Bytes, i: nat, ls: Literals, ps: seq<Tok<byte>>, a: nat) returns (b: nat)
    requires Collected(body, i, ls, ps, a) && i < |body| && !PieceAt(body, i).Lit?
    ensures Collected(body, i + WidthAt(body, i), Flush(ls, i), ps + [PieceAt(body, i)], b)
  {
    var t, w := PieceAt(body, i), WidthAt(body, i);
    b := FlushRemembers(ps, ls, a, i);
    WildcardStep(ps, t, Flush(ls, i), b, i, w);
    Assoc(ps, [t], Pieces(body, i + w));
  }

  lemma CollectDone(body: Bytes, ls: Literals, ps: seq<Tok<byte>>, a: nat) returns (b: nat)
    requires Collected(body, |body|, ls, ps, a)
    ensures Remembers(Pieces(body, 0), Flush(ls, |body|), b, |body|)
  {
    b := FlushRemembers(ps, ls, a, |body|);
    assert ps + [] == ps;
  }

  lemma {:induction false} CollectRemembers(body: Bytes, i: nat, ls: Literals, ps: seq<Tok<byte>>, a: nat) returns (b: nat)
    requires Collected(body, i, ls, ps, a)
    ensures Remembers(Pieces(body, 0), Collect(body, i, ls), b, |body|)
    decreases |body| - i
  {
    if i == |body| {
      b := CollectDone(body, ls, ps, a);
    } else {
      var t, w := PieceAt(body, i), WidthAt(body, i);
      if t.Lit? {
        CollectLiteral(body, i, ls, ps, a);
        b := CollectRemembers(body, i + w, ls.(current := ls.current + [t.c]), ps + [t], a);
      } else {
        var m := CollectWildcard(body, i, ls, ps, a);
        b := CollectRemembers(body, i + w, Flush(ls, i), ps + [t], m);
      }
    }
  }

  // ---- the compiler ----

  predicate Plain<C>(ps: seq<Tok<C>>) {
    forall k | 0 <= k < |ps| :: ps[k].Lit?
  }

  function LettersOf<C>(ps: seq<Tok<C>>): seq<C>
    requires Plain(ps)
  {
    seq(|ps|, k requires 0 <= k < |ps| => ps[k].c)
  }

  /** The pattern of a body: its expression, and the fields that answer for it
      or spare it. */
  function PatternOf(sp: Spelling, toks: seq<Tok<char>>): Pattern {
    var ps := Pieces(sp.body, 0);
    var ls := Collect(sp.body, 0, NO_LITERAL);
    var lit := if sp.dirOnly && ls.lit != [] && ls.end == |sp.body| then ls.lit + [SLASH] else ls.lit;
    var blank := Pattern(Regex(sp.anchored, toks, sp.dirOnly), sp.negate, lit,
                         if !sp.anchored && ls.start == 0 && lit != [] then [SLASH] + lit else [],
                         [], [], [], [], sp.anchored, sp.dirOnly);
    if !Plain(ps) then blank
    else
      var p := blank.(exactSeg := LettersOf(ps), segPrefix := LettersOf(ps) + [SLASH]);
      if sp.anchored then p else p.(segSuffix := [SLASH] + LettersOf(ps), segInfix := [SLASH] + LettersOf(ps) + [SLASH])
  }

  /** The pattern of a line; None for blanks, comments, rules without a body
      and rules whose literal text is not UTF-8. */
  function Compiled(line: Bytes): Option<Pattern> {
    match SpellingOf(line)
    case None => None
    case Some(sp) =>
      match Decoded(Pieces(sp.body, 0))
      case None => None
      case Some(toks) => Some(PatternOf(sp, toks))
  }

  lemma CompiledHasRule(line: Bytes)
    ensures RuleOf(line) == match Compiled(line) case None => None case Some(p) => Some(Rule(p.negate, p.re))
  {
  }

  lemma PlainFits(sp: Spelling, toks: seq<Tok<char>>)
    requires sp.body != [] && Plain(Pieces(sp.body, 0)) && Decoded(Pieces(sp.body, 0)) == Some(toks)
    ensures var p := PatternOf(sp, toks);
            p.exactSeg != [] && Valid(p.exactSeg) && toks == Lits(RunesOf(p.exactSeg)) && SegmentFields(p, p.exactSeg)
  {
    var ps := Pieces(sp.body, 0);
    assert ps == Lits(LettersOf(ps)) && ps != [];
    DecodedLits(LettersOf(ps));
  }

  /** Where the remembered literal stands in the expression. */
  lemma LiteralStands(body: Bytes, toks: seq<Tok<char>>) returns (b: nat)
    requires Decoded(Pieces(body, 0)) == Some(toks) && Collect(body, 0, NO_LITERAL).lit != []
    ensures var ls := Collect(body, 0, NO_LITERAL);
            && Valid(ls.lit) && LitsAt(toks, RunesOf(ls.lit), b)
            && (ls.start == 0 ==> b == 0)
            && (ls.end == |body| ==> b + |RunesOf(ls.lit)| == |toks|)
  {
    var a := CollectRemembers(body, 0, NO_LITERAL, [], 0);
    b := RunInTokens(Pieces(body, 0), Collect(body, 0, NO_LITERAL).lit, a, toks);
  }

  lemma LiteralFits(sp: Spelling, toks: seq<Tok<char>>, rel: Path)
    requires Decoded(Pieces(sp.body, 0)) == Some(toks)
    requires MatchString(PatternOf(sp, toks).re, RunesOf(rel))
    requires Valid(rel) || BAD !in RunesOf(PatternOf(sp, toks).lit)
    ensures Passes(PatternOf(sp, toks), rel)
  {
    var ls := Collect(sp.body, 0, NO_LITERAL);
    if ls.lit != [] {
      var b := LiteralStands(sp.body, toks);
      PrefilterSound(PatternOf(sp, toks), ls.lit, b, rel);
    }
  }

  /** A compiled pattern answers as its expression does: always when the
      pattern says yes, and both ways on a path that neither reads
      differently. */
  lemma MatchesExpression(line: Bytes, rel: Path)
    requires Compiled(line).Some? && NEWLINE !in rel
    ensures var p := Compiled(line).value;
            && (Match(p, rel) ==> MatchString(p.re, RunesOf(rel)))
            && (Plainly(p, rel) ==> Match(p, rel) == MatchString(p.re, RunesOf(rel)))
  {
    var sp := SpellingOf(line).value;
    var toks := Decoded(Pieces(sp.body, 0)).value;
    var p := PatternOf(sp, toks);
    if Plain(Pieces(sp.body, 0)) {
      PlainFits(sp, toks);
      SegmentSound(p, p.exactSeg, rel);
    } else if MatchString(p.re, RunesOf(rel)) && (Valid(rel) || BAD !in RunesOf(p.lit)) {
      LiteralFits(sp, toks, rel);
    }
  }

  // ---- the compiler's loops ----

  method TrimSpace(text: Bytes) returns (line: Bytes)
    ensures line == TrimRuleSpace(text)
  {
    line := text;
    while line != [] && Pad(line[0])
      invariant TrimLeft(line) == TrimLeft(text)
      decreases |line|
    {
      line := line[1..];
    }
    while line != [] && Pad(line[|line| - 1])
      invariant TrimRight(line) == TrimRuleSpace(text)
      decreases |line|
    {
      var n := CountSlashes(line);
      if n % 2 == 1 {
        break;
      }
      line := line[..|line| - 1];
    }
  }

  method CountSlashes(line: Bytes) returns (n: nat)
    requires line != []
    ensures n == Slashes(line, |line| - 1)
  {
    n := 0;
    while n < |line| - 1 && line[|line| - 2 - n] == BACKSLASH
      invariant n < |line|
      invariant Slashes(line, |line| - 1) == n + Slashes(line, |line| - 1 - n)
    {
      n := n + 1;
    }
  }

  method FindOpenSlash(body: Bytes) returns (open: bool)
    ensures open == HasOpenSlash(body)
  {
    open := false;
    var i := 0;
    while i < |body|
      invariant 0 <= i <= |body| + 1
      invariant (open || HasOpenSlash(if i <= |body| then body[i..] else [])) == HasOpenSlash(body)
    {
      if body[i] == BACKSLASH {
        i := i + 1;
      } else if body[i] == SLASH {
        open := true;
      }
      i := i + 1;
    }
  }

  /** What the pass over a body builds: the pieces of the expression, the
      literals, and the text without its escapes. */
  datatype Progress = Progress(ps: seq<Tok<byte>>, ls: Literals, unescaped: Bytes, wildcard: bool)

  ghost predicate Scanned(body: Bytes, i: nat, g: Progress) {
    && i <= |body|
    && g.ps + Pieces(body, i) == Pieces(body, 0)
    && Collect(body, i, g.ls) == Collect(body, 0, NO_LITERAL)
    && (if g.wildcard then !Plain(g.ps) else g.ps == Lits(g.unescaped))
  }

  lemma ScanStep(body: Bytes, i: nat, g: Progress, h: Progress)
    requires i < |body| && Scanned(body, i, g) && h.ps == g.ps + [PieceAt(body, i)]
    requires match PieceAt(body, i)
             case Lit(c) =>
               && h.ls == g.ls.(current := g.ls.current + [c])
               && h.unescaped == g.unescaped + [c] && h.wildcard == g.wildcard
             case _ => h.ls == Flush(g.ls, i) && h.wildcard
    ensures Scanned(body, i + WidthAt(body, i), h)
  {
    Assoc(g.ps, [PieceAt(body, i)], Pieces(body, i + WidthAt(body, i)));
    assert h.ps[|g.ps|] == PieceAt(body, i);
    if !Plain(g.ps) {
      var k :| 0 <= k < |g.ps| && !g.ps[k].Lit?;
      assert h.ps[k] == g.ps[k];
    }
  }

  method Scan(body: Bytes) returns (g: Progress)
    ensures g.ps == Pieces(body, 0) && g.ls == Collect(body, 0, NO_LITERAL)
    ensures if g.wildcard then !Plain(g.ps) else g.ps == Lits(g.unescaped)
  {
    g := Progress([], NO_LITERAL, [], false);
    var i := 0;
    while i < |body|
      invariant Scanned(body, i, g)
    {
      var width := WidthAt(body, i);
      ghost var before := g;
      if body[i] == ASTERISK {
        g := Progress(g.ps + [if width == 2 then Deep else Star], Flush(g.ls, i), g.unescaped, true);
      } else if body[i] == QUESTION {
        g := Progress(g.ps + [One], Flush(g.ls, i), g.unescaped, true);
      } else {
        var c := body[i + width - 1];
        g := Progress(g.ps + [Lit(c)], g.ls.(current := g.ls.current + [c]), g.unescaped + [c], g.wildcard);
      }
      ScanStep(body, i, before, g);
      i := i + width;
    }
    assert g.ps + [] == g.ps;
    g := g.(ls := Flush(g.ls, |body|));
  }

  lemma LettersOfLits(text: Bytes)
    ensures Plain(Lits(text)) && LettersOf(Lits(text)) == text
  {
  }

  /** The second half of compile: from a body to a pattern. */
  method Fields(negate: bool, anchored: bool, body: Bytes, dirOnly: bool) returns (p: Option<Pattern>)
    ensures p == match Decoded(Pieces(body, 0))
                 case None => None
                 case Some(toks) => Some(PatternOf(Spelling(negate, anchored, body, dirOnly), toks))
  {
    var g := Scan(body);
    var lit := g.ls.lit;
    if dirOnly && lit != [] && g.ls.end == |body| {
      lit := lit + [SLASH];
    }
    var slashLit: Bytes := [];
    if !anchored && g.ls.start == 0 && lit != [] {
      slashLit := [SLASH] + lit;
    }
    var exactSeg, segPrefix, segSuffix, segInfix: Bytes := [], [], [], [];
    if !g.wildcard {
      LettersOfLits(g.unescaped);
      exactSeg := g.unescaped;
      segPrefix := exactSeg + [SLASH];
      if !anchored {
        segSuffix := [SLASH] + exactSeg;
        segInfix := [SLASH] + exactSeg + [SLASH];
      }
    }
    var toks := Decoded(g.ps);
    if toks.None? {
      return None;
    }
    p := Some(Pattern(Regex(anchored, toks.value, dirOnly), negate, lit, slashLit,
                      exactSeg, segPrefix, segSuffix, segInfix, anchored, dirOnly));
  }

  /** compile, from the text of a line. */
  method Compile(text: Bytes) returns (p: Option<Pattern>)
    ensures p == Compiled(text)
  {
    var line := TrimSpace(text);
    if line == [] || line[0] == HASH {
      return None;
    }
    var negate := line[0] == BANG;
    if negate {
      line := TrimSpace(line[1..]);
    }
    if line == [] {
      return None;
    }
    var body := line;
    var anchored := false;
    while body != [] && body[0] == SLASH
      invariant DropLeadingSlashes(body) == DropLeadingSlashes(line)
      invariant |body| <= |line| && (anchored <==> body != line)
      decreases |body|
    {
      anchored := true;
      body := body[1..];
    }
    ghost var inner := body;
    var dirOnly := false;
    while body != [] && body[|body| - 1] == SLASH
      invariant DropTrailingSlashes(body) == DropTrailingSlashes(inner)
      invariant |body| <= |inner| && (dirOnly <==> body != inner)
      decreases |body|
    {
      var n := CountSlashes(body);
      if n % 2 == 1 {
        break;
      }
      dirOnly := true;
      body := body[..|body| - 1];
    }
    if body == [] {
      return None;
    }
    var open := FindOpenSlash(body);
    p := Fields(negate, anchored || open, body, dirOnly);
  }
}
