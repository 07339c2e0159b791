/** What rule lines mean on paths, independently of how they are compiled: a
    line of escaped names and wildcards matches the paths that are cut into
    what its parts stand for. */
module IgnoreGlobs {
  import opened Text
  import opened Utf8
  import opened Runes
  import opened IgnoreRule
  import opened IgnoreCompile
  import opened IgnorePrune
  import opened IgnoreEscape

  /** A literal name, `**`, `*` or `?`. */
  datatype Part = Name(text: Path) | AnyPath | AnyName | OneChar

  function Spelled(t: Part): Bytes {
    match t
    case Name(text) => Escape(text)
    case AnyPath => [42, 42]
    case AnyName => [42]
    case OneChar => [63]
  }

  function Glob(parts: seq<Part>): Bytes {
    if parts == [] then [] else Spelled(parts[0]) + Glob(parts[1..])
  }

  /** Names are not empty, and apart; a star is not followed by a star, which
      would make it another wildcard. */
  predicate Distinct(parts: seq<Part>) {
    && (forall i | 0 <= i < |parts| :: parts[i].Name? ==> parts[i].text != [])
    && (forall i | 0 <= i < |parts| - 1 ::
          && !(parts[i].Name? && parts[i + 1].Name?)
          && !(parts[i].AnyName? && (parts[i + 1].AnyName? || parts[i + 1].AnyPath?)))
  }

  /** The outer slashes of a line are written apart from its parts. */
  predicate Trimmed(parts: seq<Part>) {
    && parts != []
    && (parts[0].Name? ==> parts[0].text != [] && parts[0].text[0] != SLASH)
    && var last := parts[|parts| - 1];
       (last.Name? ==> last.text != [] && last.text[|last.text| - 1] != SLASH)
  }

  function GlobLine(negate: bool, top: bool, parts: seq<Part>, dir: bool): Bytes {
    (if negate then [33] else []) + (if top then [SLASH] else []) + Glob(parts) + (if dir then [SLASH] else [])
  }

  predicate HasSlash(parts: seq<Part>) {
    exists i | 0 <= i < |parts| :: parts[i].Name? && SLASH in parts[i].text
  }

  predicate AllUtf8(parts: seq<Part>) {
    forall i | 0 <= i < |parts| :: parts[i].Name? ==> Valid(parts[i].text)
  }

  // ---- what the parts stand for ----

  /** `**` stands for anything, `*` for anything without a slash, `?` for one
      character that is no slash. */
  predicate Stands(t: Part, x: Bytes) {
    match t
    case Name(text) => x == text
    case AnyPath => true
    case AnyName => SLASH !in x
    case OneChar => 0 < |x| == RuneLen(x) && x != [SLASH]
  }

  /** x is cut, between characters, into what the parts stand for in turn. */
  predicate Fits(parts: seq<Part>, x: Bytes)
    decreases |parts|
  {
    if parts == [] then x == []
    else exists k | 0 <= k <= |x| :: Valid(x[..k]) && Stands(parts[0], x[..k]) && Fits(parts[1..], x[k..])
  }

  /** A stretch of rel fits the parts. It opens the path, or a segment of it if
      the rule is not anchored; and it ends the path or is a directory above
      the rest, or only the latter if the rule is for directories. */
  ghost predicate Reaches(anchored: bool, parts: seq<Part>, dir: bool, rel: Path) {
    exists i, j :: Reach(anchored, parts, dir, rel, i, j)
  }

  predicate Reach(anchored: bool, parts: seq<Part>, dir: bool, rel: Path, i: int, j: int) {
    && 0 <= i <= j <= |rel|
    && (i == 0 || (!anchored && rel[i - 1] == SLASH))
    && Fits(parts, rel[i..j])
    && (if j == |rel| then !dir else rel[j] == SLASH)
  }

  // ---- how the lines are read ----

  lemma {:induction false} SlashesJoin(a: Bytes, b: Bytes, i: nat)
    requires i <= |b|
    ensures Slashes(a + b, |a| + i) == if Slashes(b, i) == i then i + Slashes(a, |a|) else Slashes(b, i)
  {
    if i == 0 {
      SlashesPrefix(a, b, |a|);
    } else {
      SlashesJoin(a, b, i - 1);
      assert (a + b)[|a| + i - 1] == b[i - 1];
    }
  }

  lemma EscapedJoin(a: Bytes, b: Bytes, i: nat)
    requires i <= |b| && !Escaped(a, |a|)
    ensures Escaped(a + b, |a| + i) <==> Escaped(b, i)
  {
    SlashesJoin(a, b, i);
  }

  /** After it nothing is protected by accident, and if it ends in padding that
      is protected. */
  predicate Sealed(line: Bytes) {
    && !Escaped(line, |line|)
    && (line != [] && Pad(line[|line| - 1]) ==> Escaped(line, |line| - 1))
  }

  lemma SealedJoin(a: Bytes, b: Bytes)
    requires Sealed(a) && Sealed(b)
    ensures Sealed(a + b)
  {
    EscapedJoin(a, b, |b|);
    if b == [] {
      assert a + b == a;
    } else {
      EscapedJoin(a, b, |b| - 1);
    }
  }

  lemma SpelledSealed(t: Part)
    ensures Sealed(Spelled(t))
  {
    if t.Name? {
      EscapeParity(t.text);
      if t.text != [] {
        EscapeLastByte(t.text);
      }
    }
  }

  lemma EscapeLastByte(rel: Path)
    requires rel != []
    ensures Escape(rel) != [] && Escape(rel)[|Escape(rel)| - 1] == rel[|rel| - 1]
  {
  }

  lemma {:induction false} GlobSealed(parts: seq<Part>)
    ensures Sealed(Glob(parts))
  {
    if parts != [] {
      SpelledSealed(parts[0]);
      GlobSealed(parts[1..]);
      SealedJoin(Spelled(parts[0]), Glob(parts[1..]));
    }
  }

  lemma GlobStarts(parts: seq<Part>)
    requires Trimmed(parts)
    ensures Glob(parts) != [] && Glob(parts)[0] !in {SLASH, BANG, HASH} && !Pad(Glob(parts)[0])
  {
    if parts[0].Name? {
      EscapeStarts(parts[0].text);
    }
    assert Glob(parts)[0] == Spelled(parts[0])[0];
  }

  lemma EscapeStarts(text: Path)
    requires text != [] && text[0] != SLASH
    ensures Escape(text) != [] && Escape(text)[0] !in {SLASH, BANG, HASH} && !Pad(Escape(text)[0])
  {
    EscapeFirst(text);
    assert Escape(text)[0] == EscapeByte(text[0])[0];
  }

  lemma {:induction false} GlobEnds(parts: seq<Part>)
    requires parts != [] && Distinct(parts)
    requires var last := parts[|parts| - 1]; last.Name? ==> last.text[|last.text| - 1] != SLASH
    ensures Glob(parts) != [] && Glob(parts)[|Glob(parts)| - 1] != SLASH
  {
    var rest := parts[1..];
    if rest == [] {
      if parts[0].Name? {
        EscapeLastByte(parts[0].text);
      }
    } else {
      assert rest[|rest| - 1] == parts[|parts| - 1];
      GlobEnds(rest);
    }
  }

  /** Outer slashes are dropped, the inner ones stay. */
  lemma StripTrailing(body: Bytes)
    requires body != [] && body[|body| - 1] != SLASH && !Escaped(body, |body|)
    ensures DropTrailingSlashes(body) == body && DropTrailingSlashes(body + [SLASH]) == body
  {
    var line := body + [SLASH];
    SlashesPrefix(body, [SLASH], |body|);
    assert line[..|line| - 1] == body;
  }

  lemma SpellingOfPlainBody(negate: bool, top: bool, body: Bytes, dir: bool)
    requires body != [] && body[0] != SLASH && body[|body| - 1] != SLASH && !Escaped(body, |body|)
    ensures var line := (if top then [SLASH] else []) + body + (if dir then [SLASH] else []);
            SpellingOfBody(negate, line) == Some(Spelling(negate, top || HasOpenSlash(body), body, dir))
  {
    var tail: Bytes := if dir then [SLASH] else [];
    var inner := body + tail;
    var line := (if top then [SLASH] else []) + body + tail;
    StripTrailing(body);
    assert dir || inner == body;
    assert inner[0] == body[0] && DropLeadingSlashes(inner) == inner;
    if top {
      assert line[0] == SLASH && line[1..] == inner;
    } else {
      assert line == inner;
    }
  }

  lemma SealedLine(top: bool, body: Bytes, dir: bool)
    requires body != [] && Sealed(body) && !Pad(body[0])
    ensures var line := (if top then [SLASH] else []) + body + (if dir then [SLASH] else []);
            line != [] && !Pad(line[0]) && Sealed(line)
  {
    var head: Bytes := if top then [SLASH] else [];
    var tail: Bytes := if dir then [SLASH] else [];
    assert Sealed([SLASH]) && Sealed([]);
    SealedJoin(head, body);
    SealedJoin(head + body, tail);
  }

  /** A line without padding is its own text. */
  lemma SealedIsBody(line: Bytes)
    requires line != [] && !Pad(line[0]) && Sealed(line)
    ensures TrimRuleSpace(line) == line
  {
    LineIsBody(line);
  }

  function Unsigned(top: bool, parts: seq<Part>, dir: bool): Bytes {
    (if top then [SLASH] else []) + Glob(parts) + (if dir then [SLASH] else [])
  }

  lemma UnsignedLine(top: bool, parts: seq<Part>, dir: bool)
    requires Distinct(parts) && Trimmed(parts)
    ensures var line := Unsigned(top, parts, dir);
            && line != [] && !Pad(line[0]) && line[0] !in {BANG, HASH} && Sealed(line)
            && forall negate ::
                 SpellingOfBody(negate, line) == Some(Spelling(negate, top || HasOpenSlash(Glob(parts)), Glob(parts), dir))
  {
    var body := Glob(parts);
    GlobStarts(parts);
    GlobEnds(parts);
    GlobSealed(parts);
    SealedLine(top, body, dir);
    forall negate ensures SpellingOfBody(negate, Unsigned(top, parts, dir))
                       == Some(Spelling(negate, top || HasOpenSlash(body), body, dir)) {
      SpellingOfPlainBody(negate, top, body, dir);
    }
  }

  /** An exclamation mark negates the line after it. */
  lemma SpellingOfSigned(line: Bytes)
    requires line != [] && !Pad(line[0]) && line[0] !in {BANG, HASH} && Sealed(line)
    ensures SpellingOf(line) == SpellingOfBody(false, line)
    ensures SpellingOf([BANG] + line) == SpellingOfBody(true, line)
  {
    SealedIsBody(line);
    var all := [BANG] + line;
    assert Sealed([BANG]) && !Pad(BANG);
    SealedJoin([BANG], line);
    SealedIsBody(all);
    assert all[0] == BANG && all[1..] == line;
  }

  lemma SpellingOfGlob(negate: bool, top: bool, parts: seq<Part>, dir: bool)
    requires Distinct(parts) && Trimmed(parts)
    ensures SpellingOf(GlobLine(negate, top, parts, dir))
         == Some(Spelling(negate, top || HasOpenSlash(Glob(parts)), Glob(parts), dir))
  {
    UnsignedLine(top, parts, dir);
    SpellingOfSigned(Unsigned(top, parts, dir));
    var head: Bytes := if top then [SLASH] else [];
    var tail: Bytes := if dir then [SLASH] else [];
    if negate {
      Regroup([BANG], head, Glob(parts), tail);
    } else {
      assert [] + head == head;
    }
  }

  // ---- the pieces and the tokens of a line ----

  function PiecesOfPart(t: Part): seq<Tok<byte>> {
    match t
    case Name(text) => Lits(text)
    case AnyPath => [Deep]
    case AnyName => [Star]
    case OneChar => [One]
  }

  function PiecesOf(parts: seq<Part>): seq<Tok<byte>> {
    if parts == [] then [] else PiecesOfPart(parts[0]) + PiecesOf(parts[1..])
  }

  lemma {:induction false} EscapedName(text: Path, rest: Bytes)
    ensures Pieces(Escape(text) + rest, 0) == Lits(text) + Pieces(rest, 0)
    ensures HasOpenSlash(Escape(text) + rest) <==> SLASH in text || HasOpenSlash(rest)
  {
    if text == [] {
      assert Escape(text) + rest == rest;
      assert Lits(text) + Pieces(rest, 0) == Pieces(rest, 0);
    } else {
      var more := Escape(text[1..]) + rest;
      EscapeFirst(text);
      Assoc(EscapeByte(text[0]), Escape(text[1..]), rest);
      EscapedName(text[1..], rest);
      EscapedPiece(text[0], more);
      assert [Lit(text[0])] + Lits(text[1..]) == Lits(text);
      Assoc([Lit(text[0])], Lits(text[1..]), Pieces(rest, 0));
      InHead(text, SLASH);
    }
  }

  lemma InHead(s: Bytes, c: byte)
    requires s != []
    ensures c in s <==> s[0] == c || c in s[1..]
  {
    assert s == [s[0]] + s[1..];
  }

  lemma WildPiece(t: Part, rest: Bytes)
    requires !t.Name? && (t.AnyName? && rest != [] ==> rest[0] != ASTERISK)
    ensures Pieces(Spelled(t) + rest, 0) == PiecesOfPart(t) + Pieces(rest, 0)
    ensures HasOpenSlash(Spelled(t) + rest) <==> HasOpenSlash(rest)
  {
    var line := Spelled(t) + rest;
    var w := |Spelled(t)|;
    assert line[w..] == rest;
    PiecesTail(line, w);
    assert WidthAt(line, 0) == w && [PieceAt(line, 0)] == PiecesOfPart(t);
    if t.AnyPath? {
      assert line[1..] == [ASTERISK] + rest && line[1..][1..] == rest;
    }
  }

  lemma GlobHead(parts: seq<Part>)
    requires Distinct(parts) && parts != [] && !parts[0].AnyName? && !parts[0].AnyPath?
    ensures Glob(parts) != [] && Glob(parts)[0] != ASTERISK
  {
    if parts[0].Name? {
      EscapeFirst(parts[0].text);
    }
  }

  lemma DistinctRest(parts: seq<Part>)
    requires Distinct(parts) && parts != []
    ensures Distinct(parts[1..])
  {
    var rest := parts[1..];
    assert forall i | 0 <= i < |rest| :: rest[i] == parts[i + 1];
  }

  lemma {:induction false} GlobPieces(parts: seq<Part>)
    requires Distinct(parts)
    ensures Pieces(Glob(parts), 0) == PiecesOf(parts)
    ensures HasOpenSlash(Glob(parts)) <==> HasSlash(parts)
  {
    if parts != [] {
      var t, rest := parts[0], parts[1..];
      DistinctRest(parts);
      GlobPieces(rest);
      HasSlashFirst(parts);
      if t.Name? {
        EscapedName(t.text, Glob(rest));
      } else {
        if rest != [] && t.AnyName? {
          assert rest[0] == parts[1];
          GlobHead(rest);
        }
        WildPiece(t, Glob(rest));
      }
    }
  }

  lemma HasSlashFirst(parts: seq<Part>)
    requires parts != []
    ensures HasSlash(parts) <==> (parts[0].Name? && SLASH in parts[0].text) || HasSlash(parts[1..])
  {
    var rest := parts[1..];
    if HasSlash(rest) {
      var i :| 0 <= i < |rest| && rest[i].Name? && SLASH in rest[i].text;
      assert parts[i + 1] == rest[i];
    }
    if HasSlash(parts) {
      var i :| 0 <= i < |parts| && parts[i].Name? && SLASH in parts[i].text;
      assert i > 0 ==> rest[i - 1] == parts[i];
    }
  }

  function ToksOfPart(t: Part): seq<Tok<char>> {
    match t
    case Name(text) => Lits(RunesOf(text))
    case AnyPath => [Deep]
    case AnyName => [Star]
    case OneChar => [One]
  }

  function ToksOf(parts: seq<Part>): seq<Tok<char>> {
    if parts == [] then [] else ToksOfPart(parts[0]) + ToksOf(parts[1..])
  }

  lemma DecodedPart(t: Part)
    ensures Decoded(PiecesOfPart(t)) == if t.Name? && !Valid(t.text) then None else Some(ToksOfPart(t))
  {
    if t.Name? {
      DecodedLits(t.text);
    } else {
      var ps := PiecesOfPart(t);
      assert ps[1..] == [] && [Wild(ps[0])] + [] == ToksOfPart(t);
    }
  }

  lemma PartsApart(parts: seq<Part>)
    requires Distinct(parts) && parts != []
    ensures Apart(PiecesOfPart(parts[0]), PiecesOf(parts[1..]))
  {
    var rest := parts[1..];
    if rest != [] && parts[0].Name? {
      assert rest[0] == parts[1] && !parts[1].Name?;
    }
  }

  lemma {:induction false} GlobTokens(parts: seq<Part>)
    requires Distinct(parts)
    ensures Decoded(PiecesOf(parts)) == if AllUtf8(parts) then Some(ToksOf(parts)) else None
  {
    if parts != [] {
      var rest := parts[1..];
      DistinctRest(parts);
      GlobTokens(rest);
      PartsApart(parts);
      DecodedAppend(PiecesOfPart(parts[0]), PiecesOf(rest));
      DecodedPart(parts[0]);
      assert forall i | 0 <= i < |rest| :: rest[i] == parts[i + 1];
      assert AllUtf8(parts) <==> (parts[0].Name? ==> Valid(parts[0].text)) && AllUtf8(rest);
    }
  }

  /** How a line of parts compiles. */
  lemma GlobCompiles(negate: bool, top: bool, parts: seq<Part>, dir: bool)
    requires Distinct(parts) && Trimmed(parts)
    ensures var p := Compiled(GlobLine(negate, top, parts, dir));
            && (p.Some? <==> AllUtf8(parts))
            && (p.Some? ==> p.value.negate == negate && p.value.re == Regex(top || HasSlash(parts), ToksOf(parts), dir))
  {
    SpellingOfGlob(negate, top, parts, dir);
    GlobPieces(parts);
    GlobTokens(parts);
  }

  // ---- what the tokens match, on bytes ----

  lemma ValidStarts(x: Bytes, y: Bytes)
    requires Valid(x) && Starts(y)
    ensures Starts(x + y)
  {
    assert x == [] ==> x + y == y;
    assert x != [] ==> (x + y)[0] == x[0];
  }

  lemma SameText(x: Bytes, y: Bytes)
    requires Valid(x) && Valid(y) && RunesOf(x) == RunesOf(y)
    ensures x == y
  {
    assert RunesOf(y) <= RunesOf(x);
    RunesStart(x, y);
    RunesStart(y, x);
  }

  /** One rune is one character. */
  lemma OneRune(x: Bytes)
    requires Valid(x)
    ensures |RunesOf(x)| == 1 <==> 0 < |x| == RuneLen(x)
    ensures |RunesOf(x)| == 1 ==> (RunesOf(x)[0] == '/' <==> x == [SLASH])
  {
    if x != [] {
      var rest := x[Width(x)..];
      assert RunesOf(rest) == "" <==> rest == [];
    }
  }

  lemma PartStands(t: Part, x: Bytes)
    requires Valid(x) && NEWLINE !in x && (t.Name? ==> Valid(t.text))
    ensures Run(ToksOfPart(t), RunesOf(x)) <==> Stands(t, x)
  {
    match t
    case Name(text) =>
      RunLits(RunesOf(text), RunesOf(x));
      if RunesOf(x) == RunesOf(text) {
        SameText(x, text);
      }
    case AnyPath =>
      OneToken(Deep, RunesOf(x));
      AsciiInRunes(x, NEWLINE);
    case AnyName =>
      OneToken(Star, RunesOf(x));
      AsciiInRunes(x, SLASH);
    case OneChar =>
      OneToken(One, RunesOf(x));
      OneRune(x);
  }

  /** x cut at k, where a first part ends. */
  predicate CutFits(t: Part, rest: seq<Part>, x: Bytes, k: nat) {
    k <= |x| && Valid(x[..k]) && Stands(t, x[..k]) && Fits(rest, x[k..])
  }

  lemma RunsJoined(t: Part, rest: seq<Part>, head: Bytes, tail: Bytes)
    requires Valid(head) && Valid(tail) && NEWLINE !in head && (t.Name? ==> Valid(t.text))
    requires Stands(t, head) && Run(ToksOf(rest), RunesOf(tail))
    ensures Run(ToksOfPart(t) + ToksOf(rest), RunesOf(head + tail))
  {
    PartStands(t, head);
    RunesAppend(head, tail);
    RunJoin(ToksOfPart(t), ToksOf(rest), RunesOf(head), RunesOf(tail));
  }

  lemma CutRuns(t: Part, rest: seq<Part>, x: Bytes, k: nat)
    requires NEWLINE !in x && (t.Name? ==> Valid(t.text)) && CutFits(t, rest, x, k)
    requires Valid(x[k..]) && Run(ToksOf(rest), RunesOf(x[k..]))
    ensures Run(ToksOfPart(t) + ToksOf(rest), RunesOf(x))
  {
    InParts(x, k, NEWLINE);
    RunsJoined(t, rest, x[..k], x[k..]);
    assert x == x[..k] + x[k..];
  }

  /** A match of a first token or more cuts the bytes between characters. */
  lemma RunCuts(t: Part, rest: seq<Part>, x: Bytes) returns (k: nat)
    requires Valid(x) && NEWLINE !in x && (t.Name? ==> Valid(t.text))
    requires Run(ToksOfPart(t) + ToksOf(rest), RunesOf(x))
    ensures k <= |x| && Valid(x[..k]) && Valid(x[k..]) && NEWLINE !in x[k..]
    ensures Stands(t, x[..k]) && Run(ToksOf(rest), RunesOf(x[k..]))
  {
    var j := RunSplit(ToksOfPart(t), ToksOf(rest), RunesOf(x));
    k := CutRunes(x, j);
    InParts(x, k, NEWLINE);
    PartStands(t, x[..k]);
  }

  lemma FitsCut(parts: seq<Part>, x: Bytes, k: nat)
    requires parts != [] && CutFits(parts[0], parts[1..], x, k)
    ensures Fits(parts, x)
  {
  }

  lemma FitCut(parts: seq<Part>, x: Bytes) returns (k: nat)
    requires parts != [] && Fits(parts, x)
    ensures CutFits(parts[0], parts[1..], x, k)
  {
    k :| 0 <= k <= |x| && Valid(x[..k]) && Stands(parts[0], x[..k]) && Fits(parts[1..], x[k..]);
  }

  lemma Utf8Rest(parts: seq<Part>)
    requires AllUtf8(parts) && parts != []
    ensures AllUtf8(parts[1..]) && (parts[0].Name? ==> Valid(parts[0].text))
  {
    var rest := parts[1..];
    assert forall i | 0 <= i < |rest| :: rest[i] == parts[i + 1];
  }

  lemma {:induction false} RunFits(parts: seq<Part>, x: Bytes)
    requires Valid(x) && NEWLINE !in x && AllUtf8(parts) && Run(ToksOf(parts), RunesOf(x))
    ensures Fits(parts, x)
    decreases |parts|
  {
    if parts == [] {
      assert RunesOf(x) == "" <==> x == [];
    } else {
      Utf8Rest(parts);
      var k := RunCuts(parts[0], parts[1..], x);
      RunFits(parts[1..], x[k..]);
      FitsCut(parts, x, k);
    }
  }

  lemma CutTail(t: Part, rest: seq<Part>, x: Bytes, k: nat)
    requires Valid(x) && NEWLINE !in x && CutFits(t, rest, x, k)
    ensures Valid(x[k..]) && NEWLINE !in x[k..]
  {
    assert x == x[..k] + x[k..];
    ValidAppend(x[..k], x[k..]);
    InParts(x, k, NEWLINE);
  }

  lemma {:induction false} FitRuns(parts: seq<Part>, x: Bytes)
    requires Valid(x) && NEWLINE !in x && AllUtf8(parts) && Fits(parts, x)
    ensures Run(ToksOf(parts), RunesOf(x))
    decreases |parts|
  {
    if parts != [] {
      Utf8Rest(parts);
      var k := FitCut(parts, x);
      CutTail(parts[0], parts[1..], x, k);
      FitRuns(parts[1..], x[k..]);
      CutRuns(parts[0], parts[1..], x, k);
    }
  }

  /** What fits is made of whole characters. */
  lemma {:induction false} FitsValid(parts: seq<Part>, x: Bytes)
    requires Fits(parts, x)
    ensures Valid(x)
    decreases |parts|
  {
    if parts != [] {
      var k :| 0 <= k <= |x| && Valid(x[..k]) && Stands(parts[0], x[..k]) && Fits(parts[1..], x[k..]);
      FitsValid(parts[1..], x[k..]);
      ValidAppend(x[..k], x[k..]);
      assert x == x[..k] + x[k..];
    }
  }

  // ---- what a line matches ----

  lemma RunesJoin(a: Bytes, x: Bytes, b: Bytes)
    requires Valid(x) && Starts(b)
    ensures RunesOf(a + (x + b)) == RunesOf(a) + (RunesOf(x) + RunesOf(b))
  {
    ValidStarts(x, b);
    RunesAppend(a, x + b);
    RunesAppend(x, b);
  }

  lemma PartsOfThree<T>(a: seq<T>, x: seq<T>, b: seq<T>)
    ensures var all := a + (x + b);
            all[..|a|] == a && all[|a|..|a| + |x|] == x && all[|a| + |x|..] == b
  {
  }

  lemma CutInThree<T>(s: seq<T>, i: nat, j: nat)
    requires i <= j <= |s|
    ensures s == s[..i] + (s[i..j] + s[j..])
  {
  }

  lemma MatchInThree(re: Regex, a: string, x: string, b: string)
    requires Opens(re.anchored, '/', a + (x + b), |a|) && Run(re.toks, x) && Closes(re.dirOnly, b)
    ensures MatchString(re, a + (x + b))
  {
    PartsOfThree(a, x, b);
    assert MatchAt(re, a + (x + b), |a|, |a| + |x|);
  }

  lemma ReachMatches(re: Regex, parts: seq<Part>, rel: Path, i: nat, j: nat)
    requires NEWLINE !in rel && AllUtf8(parts) && re.toks == ToksOf(parts)
    requires Reach(re.anchored, parts, re.dirOnly, rel, i, j)
    ensures MatchString(re, RunesOf(rel))
  {
    var a, x, b := rel[..i], rel[i..j], rel[j..];
    CutInThree(rel, i, j);
    NewlineFreeCut(rel, i, j);
    FitsValid(parts, x);
    assert b != [] ==> b[0] == rel[j];
    RunesJoin(a, x, b);
    PartsOfThree(RunesOf(a), RunesOf(x), RunesOf(b));
    SameOpening(re.anchored, rel, i, |RunesOf(a)|);
    FitRuns(parts, x);
    ClosesRunes(re.dirOnly, b);
    MatchInThree(re, RunesOf(a), RunesOf(x), RunesOf(b));
  }

  lemma NewlineFreeCut(rel: Path, i: nat, j: nat)
    requires i <= j <= |rel| && NEWLINE !in rel
    ensures NEWLINE !in rel[i..j] && NEWLINE !in rel[j..]
  {
  }

  lemma ClosesRunes(dir: bool, b: Bytes)
    requires NEWLINE !in b
    ensures Closes(dir, RunesOf(b)) <==> if b == [] then !dir else b[0] == SLASH
  {
    if b != [] {
      FirstIsSlash(b);
      AsciiInRunes(b, NEWLINE);
    }
  }

  lemma MatchReaches(re: Regex, parts: seq<Part>, rel: Path, m: nat, n: nat) returns (i: nat, j: nat)
    requires Valid(rel) && NEWLINE !in rel && AllUtf8(parts) && re.toks == ToksOf(parts)
    requires m <= n <= |RunesOf(rel)| && MatchAt(re, RunesOf(rel), m, n)
    ensures Reach(re.anchored, parts, re.dirOnly, rel, i, j)
  {
    var a, x, b := CutRunesTwice(rel, m, n);
    i, j := |a|, |a| + |x|;
    Assoc(a, x, b);
    PartsOfThree(a, x, b);
    SameOpening(re.anchored, rel, i, m);
    NewlineFreeCut(rel, i, j);
    RunFits(parts, rel[i..j]);
    ClosesRunes(re.dirOnly, rel[j..]);
    assert j < |rel| ==> rel[j..][0] == rel[j];
  }

  /** What a line of escaped names and wildcards means. It is a rule exactly
      when its names are UTF-8, negated exactly when it says so, and matches
      exactly the paths its parts reach; it is anchored exactly when it starts
      with a slash or one of its names has one. */
  lemma GlobMatches(negate: bool, top: bool, parts: seq<Part>, dir: bool, rel: Path)
    requires Distinct(parts) && Trimmed(parts) && Valid(rel) && NEWLINE !in rel
    ensures var p := Compiled(GlobLine(negate, top, parts, dir));
            && (p.Some? <==> AllUtf8(parts))
            && (p.Some? ==> p.value.negate == negate)
            && (p.Some? ==> (Match(p.value, rel) <==> Reaches(top || HasSlash(parts), parts, dir, rel)))
  {
    GlobCompiles(negate, top, parts, dir);
    var line := GlobLine(negate, top, parts, dir);
    if AllUtf8(parts) {
      MatchesExpression(line, rel);
      ReachesIff(Compiled(line).value.re, parts, rel);
    }
  }

  lemma ReachesIff(re: Regex, parts: seq<Part>, rel: Path)
    requires Valid(rel) && NEWLINE !in rel && AllUtf8(parts) && re.toks == ToksOf(parts)
    ensures MatchString(re, RunesOf(rel)) <==> Reaches(re.anchored, parts, re.dirOnly, rel)
  {
    if MatchString(re, RunesOf(rel)) {
      var m, n :| 0 <= m <= n <= |RunesOf(rel)| && MatchAt(re, RunesOf(rel), m, n);
      var i, j := MatchReaches(re, parts, rel, m, n);
      assert Reach(re.anchored, parts, re.dirOnly, rel, i, j);
    }
    forall i, j | Reach(re.anchored, parts, re.dirOnly, rel, i, j) ensures MatchString(re, RunesOf(rel)) {
      ReachMatches(re, parts, rel, i, j);
    }
  }

  // ---- one wildcard between two names ----

  lemma FitsFirst(t: Part, rest: seq<Part>, x: Bytes) returns (head: Bytes, tail: Bytes)
    requires Fits([t] + rest, x)
    ensures x == head + tail && Valid(head) && Stands(t, head) && Fits(rest, tail)
  {
    assert ([t] + rest)[1..] == rest;
    var k := FitCut([t] + rest, x);
    head, tail := x[..k], x[k..];
  }

  lemma FirstFits(t: Part, rest: seq<Part>, head: Bytes, tail: Bytes)
    requires Valid(head) && Stands(t, head) && Fits(rest, tail)
    ensures Fits([t] + rest, head + tail)
  {
    var x := head + tail;
    assert ([t] + rest)[1..] == rest && x[..|head|] == head && x[|head|..] == tail;
    FitsCut([t] + rest, x, |head|);
  }

  function Between(u: Path, w: Part, v: Path, none: seq<Part>): seq<Part> {
    [Name(u)] + ([w] + ([Name(v)] + none))
  }

  lemma FitsBetween(u: Path, w: Part, v: Path, none: seq<Part>, x: Bytes) returns (y: Bytes)
    requires none == [] && Fits(Between(u, w, v, none), x)
    ensures Valid(y) && Stands(w, y) && x == u + y + v
  {
    var last := [Name(v)] + none;
    var h0, t0 := FitsFirst(Name(u), [w] + last, x);
    var h1, t1 := FitsFirst(w, last, t0);
    var h2, t2 := FitsFirst(Name(v), none, t1);
    y := h1;
    assert v + [] == v;
    Assoc(u, y, v);
  }

  lemma BetweenFits(u: Path, w: Part, v: Path, none: seq<Part>, y: Bytes)
    requires none == [] && Valid(u) && Valid(v) && Valid(y) && Stands(w, y)
    ensures Fits(Between(u, w, v, none), u + y + v)
  {
    assert v + [] == v;
    FirstFits(Name(v), none, v, []);
    FirstFits(w, [Name(v)] + none, y, v);
    FirstFits(Name(u), [w] + ([Name(v)] + none), u, y + v);
    Assoc(u, y, v);
  }

  /** Anchored, what the parts stand for opens the path. */
  lemma ReachesFromTop(parts: seq<Part>, rel: Path)
    ensures Reaches(true, parts, false, rel)
       <==> exists j | 0 <= j <= |rel| :: Fits(parts, rel[..j]) && (j < |rel| ==> rel[j] == SLASH)
  {
    forall j | 0 <= j <= |rel| ensures rel[0..j] == rel[..j] { }
    if j :| 0 <= j <= |rel| && Fits(parts, rel[..j]) && (j < |rel| ==> rel[j] == SLASH) {
      assert Reach(true, parts, false, rel, 0, j);
    }
    if Reaches(true, parts, false, rel) {
      var i, j :| Reach(true, parts, false, rel, i, j);
      assert Fits(parts, rel[..j]);
    }
  }

  lemma BetweenFromTop(u: Path, w: Part, v: Path, none: seq<Part>, rel: Path)
    requires none == [] && Valid(u) && Valid(v)
    ensures Reaches(true, Between(u, w, v, none), false, rel)
       <==> exists y :: Valid(y) && Stands(w, y) && AtOrBeneath(u + y + v, rel)
  {
    var parts := Between(u, w, v, none);
    ReachesFromTop(parts, rel);
    if j :| 0 <= j <= |rel| && Fits(parts, rel[..j]) && (j < |rel| ==> rel[j] == SLASH) {
      var y := FitsBetween(u, w, v, none, rel[..j]);
      CutBeneath(rel, j);
      assert AtOrBeneath(u + y + v, rel);
    }
    forall y | Valid(y) && Stands(w, y) && AtOrBeneath(u + y + v, rel) ensures Reaches(true, parts, false, rel) {
      BeneathCut(u + y + v, rel);
      BetweenFits(u, w, v, none, y);
      assert Fits(parts, rel[..|u + y + v|]);
    }
  }

  lemma BetweenIsLine(u: Path, w: Part, v: Path, none: seq<Part>)
    requires none == [] && u != [] && u[0] != SLASH && v != [] && v[|v| - 1] != SLASH && !w.Name?
    ensures var parts := Between(u, w, v, none);
            Distinct(parts) && Trimmed(parts) && (AllUtf8(parts) <==> Valid(u) && Valid(v))
  {
    var parts := Between(u, w, v, none);
    assert |parts| == 3 && parts[0] == Name(u) && parts[1] == w && parts[2] == Name(v);
  }

  /** An anchored line of two names and a wildcard between them matches u, then
      anything the wildcard stands for, then v, and what lies beneath such a
      path: with `**` whatever is between, slashes and all, with `*` what has
      no slash, with `?` one character. */
  lemma WildcardBetween(top: bool, u: Path, w: Part, v: Path, rel: Path)
    requires Valid(u) && Valid(v) && u != [] && u[0] != SLASH && v != [] && v[|v| - 1] != SLASH && !w.Name?
    requires (top || SLASH in u || SLASH in v) && Valid(rel) && NEWLINE !in rel
    ensures var p := Compiled((if top then [SLASH] else []) + Escape(u) + Spelled(w) + Escape(v));
            p.Some? && !p.value.negate &&
            (Match(p.value, rel) <==> exists y :: Valid(y) && Stands(w, y) && AtOrBeneath(u + y + v, rel))
  {
    var parts := Between(u, w, v, []);
    BetweenIsLine(u, w, v, []);
    GlobOfThree(top, u, w, v, []);
    GlobMatches(false, top, parts, false, rel);
    BetweenFromTop(u, w, v, [], rel);
  }

  lemma CutBeneath(rel: Path, j: nat)
    requires j <= |rel| && (j < |rel| ==> rel[j] == SLASH)
    ensures AtOrBeneath(rel[..j], rel)
  {
    if j < |rel| {
      assert rel[..j + 1] == rel[..j] + [SLASH];
    }
  }

  lemma BeneathCut(d: Path, rel: Path)
    requires AtOrBeneath(d, rel)
    ensures |d| <= |rel| && rel[..|d|] == d && (|d| < |rel| ==> rel[|d|] == SLASH)
  {
    if rel != d {
      assert rel[|d|] == (d + [SLASH])[|d|];
    }
  }

  lemma GlobFirst(t: Part, rest: seq<Part>)
    ensures Glob([t] + rest) == Spelled(t) + Glob(rest)
    ensures HasSlash([t] + rest) <==> (t.Name? && SLASH in t.text) || HasSlash(rest)
  {
    assert ([t] + rest)[1..] == rest;
    HasSlashFirst([t] + rest);
  }

  lemma GlobOfThree(top: bool, u: Path, w: Part, v: Path, none: seq<Part>)
    requires none == []
    ensures var parts := Between(u, w, v, none);
            && GlobLine(false, top, parts, false)
                 == (if top then [SLASH] else []) + Escape(u) + Spelled(w) + Escape(v)
            && (!w.Name? ==> (HasSlash(parts) <==> SLASH in u || SLASH in v))
  {
    GlobFirst(Name(v), none);
    GlobFirst(w, [Name(v)] + none);
    GlobFirst(Name(u), [w] + ([Name(v)] + none));
    var head: Bytes := if top then [SLASH] else [];
    assert Escape(v) + [] == Escape(v);
    Regroup(head, Escape(u), Spelled(w), Escape(v));
    Assoc(Escape(u), Spelled(w), Escape(v));
    BareLine(head, Escape(u) + (Spelled(w) + Escape(v)));
  }

  lemma BareLine(head: Bytes, body: Bytes)
    ensures [] + head + body + [] == head + body
  {
  }

  // ---- padding, comments, blanks ----

  predicate AllPad(s: Bytes) {
    forall i | 0 <= i < |s| :: s[i] in {32, 9, 10, 11, 12, 13}
  }

  lemma {:induction false} TrimsLeft(a: Bytes, s: Bytes)
    requires AllPad(a)
    ensures TrimLeft(a + s) == TrimLeft(s)
  {
    if a == [] {
      assert a + s == s;
    } else {
      assert (a + s)[1..] == a[1..] + s;
      TrimsLeft(a[1..], s);
    }
  }

  lemma {:induction false} TrimsRight(s: Bytes, b: Bytes)
    requires AllPad(b) && !Escaped(s, |s|)
    ensures TrimRight(s + b) == TrimRight(s)
    decreases |b|
  {
    if b == [] {
      assert s + b == s;
    } else {
      var n := |b| - 1;
      assert (s + b)[..|s| + n] == s + b[..n];
      EscapedJoin(s, b, n);
      PadsEscapeNothing(b, n);
      TrimsRight(s, b[..n]);
    }
  }

  lemma PadsEscapeNothing(b: Bytes, n: nat)
    requires AllPad(b) && n <= |b|
    ensures !Escaped(b, n)
  {
    assert n > 0 ==> b[n - 1] != BACKSLASH;
  }

  /** Padding around a line changes nothing. */
  lemma PaddingIsDropped(a: Bytes, line: Bytes, b: Bytes)
    requires AllPad(a) && AllPad(b) && line != [] && !Pad(line[0]) && Sealed(line)
    ensures Compiled(a + line + b) == Compiled(line)
  {
    Assoc(a, line, b);
    TrimsLeft(a, line + b);
    assert (line + b)[0] == line[0];
    TrimsRight(line, b);
    SameTrim(a + line + b, line);
  }

  lemma SameTrim(a: Bytes, b: Bytes)
    requires TrimRuleSpace(a) == TrimRuleSpace(b)
    ensures Compiled(a) == Compiled(b)
  {
    assert SpellingOf(a) == SpellingOf(b);
  }

  /** A line that is padding, or whose first other byte is a hash, is no
      rule. */
  lemma NoRule(a: Bytes, s: Bytes)
    requires AllPad(a) && (s == [] || s[0] == 35)
    ensures Compiled(a + s) == None
  {
    TrimsLeft(a, s);
    if s != [] {
      TrimRightKeepsFirst(s);
    }
  }

  lemma {:induction false} TrimRightKeepsFirst(s: Bytes)
    requires s != [] && !Pad(s[0])
    ensures TrimRight(s) != [] && TrimRight(s)[0] == s[0]
  {
    if |s| > 1 {
      TrimRightKeepsFirst(s[..|s| - 1]);
    }
  }
}
