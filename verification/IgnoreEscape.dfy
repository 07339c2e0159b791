/** Writing a literal path as a rule line, and reading it back. */
module IgnoreEscape {
  import opened Text
  import opened Utf8
  import opened IgnoreRule
  import opened IgnoreCompile

  predicate Meta(c: byte) {
    c in {BACKSLASH, ASTERISK, QUESTION, BANG, HASH} || Pad(c)
  }

  function EscapeByte(c: byte): Bytes {
    if Meta(c) then [BACKSLASH, c] else [c]
  }

  function Escape(rel: Path): Bytes {
    if rel == [] then [] else Escape(rel[..|rel| - 1]) + EscapeByte(rel[|rel| - 1])
  }

  method EscapeIgnore(rel: Path) returns (rule: Bytes)
    ensures rule == Escape(rel)
  {
    rule := [];
    for i := 0 to |rel|
      invariant rule == Escape(rel[..i])
    {
      assert rel[..i + 1][..i] == rel[..i];
      if Meta(rel[i]) {
        rule := rule + [BACKSLASH, rel[i]];
      } else {
        rule := rule + [rel[i]];
      }
    }
    assert rel[..|rel|] == rel;
  }

  /** A name without special bytes is written as it is. */
  lemma {:induction false} PlainNameUntouched(rel: Path)
    requires forall k | 0 <= k < |rel| :: rel[k] !in {9, 10, 11, 12, 13, 32, 33, 35, 42, 63, 92}
    ensures Escape(rel) == rel
  {
    if rel != [] {
      assert rel == rel[..|rel| - 1] + [rel[|rel| - 1]];
      PlainNameUntouched(rel[..|rel| - 1]);
    }
  }

  // ---- the escape protects every byte ----

  /** The escape of the first byte, and of the rest. */
  lemma {:induction false} EscapeFirst(rel: Path)
    requires rel != []
    ensures Escape(rel) == EscapeByte(rel[0]) + Escape(rel[1..])
  {
    var front, last := rel[..|rel| - 1], rel[|rel| - 1];
    if front == [] {
      assert rel[1..] == [];
    } else {
      EscapeFirst(front);
      EscapeLast(rel);
      Assoc(EscapeByte(rel[0]), Escape(front[1..]), EscapeByte(last));
    }
  }

  lemma EscapeLast(rel: Path)
    requires |rel| > 1
    ensures Escape(rel[1..]) == Escape(rel[..|rel| - 1][1..]) + EscapeByte(rel[|rel| - 1])
  {
    assert rel[1..][..|rel| - 2] == rel[..|rel| - 1][1..];
  }

  lemma {:induction false} PiecesTail(body: Bytes, i: nat)
    requires i <= |body|
    ensures Pieces(body[i..], 0) == Pieces(body, i)
    decreases |body| - i
  {
    if i < |body| {
      var w := WidthAt(body, i);
      PiecesTail(body, i + w);
      PiecesTail(body[i..], w);
      assert body[i..][w..] == body[i + w..];
    }
  }

  lemma EscapedPiece(c: byte, rest: Bytes)
    ensures Pieces(EscapeByte(c) + rest, 0) == [Lit(c)] + Pieces(rest, 0)
    ensures HasOpenSlash(EscapeByte(c) + rest) <==> c == SLASH || HasOpenSlash(rest)
  {
    var e := EscapeByte(c) + rest;
    var w := |EscapeByte(c)|;
    assert e[w..] == rest;
    PiecesTail(e, w);
    assert PieceAt(e, 0) == Lit(c) && WidthAt(e, 0) == w;
  }

  lemma {:induction false} PiecesOfEscape(rel: Path)
    ensures Pieces(Escape(rel), 0) == Lits(rel)
    ensures HasOpenSlash(Escape(rel)) <==> SLASH in rel
  {
    if rel != [] {
      EscapeFirst(rel);
      PiecesOfEscape(rel[1..]);
      EscapedPiece(rel[0], Escape(rel[1..]));
      assert [Lit(rel[0])] + Lits(rel[1..]) == Lits(rel);
      assert SLASH in rel <==> rel[0] == SLASH || SLASH in rel[1..];
    }
  }

  lemma {:induction false} SlashesPrefix(a: Bytes, b: Bytes, i: nat)
    requires i <= |a|
    ensures Slashes(a + b, i) == Slashes(a, i)
  {
    if i > 0 && a[i - 1] == BACKSLASH {
      SlashesPrefix(a, b, i - 1);
    }
  }

  lemma EscapedByteParity(front: Bytes, c: byte)
    requires !Escaped(front, |front|)
    ensures var line := front + EscapeByte(c);
            !Escaped(line, |line|) && (Meta(c) ==> Escaped(line, |line| - 1))
  {
    var line := front + EscapeByte(c);
    SlashesPrefix(front, EscapeByte(c), |front|);
    if Meta(c) {
      assert line[|front|] == BACKSLASH && line[|front| + 1] == c;
      assert Slashes(line, |front| + 1) == 1 + Slashes(line, |front|);
    } else {
      assert line[|front|] == c;
    }
  }

  /** After escaped text nothing is protected by accident, and an escaped
      byte is protected by its own backslash. */
  lemma {:induction false} EscapeParity(rel: Path)
    ensures !Escaped(Escape(rel), |Escape(rel)|)
    ensures rel != [] && Meta(rel[|rel| - 1]) ==> Escaped(Escape(rel), |Escape(rel)| - 1)
  {
    if rel != [] {
      var front, c := rel[..|rel| - 1], rel[|rel| - 1];
      EscapeParity(front);
      EscapedByteParity(Escape(front), c);
    }
  }

  /** A line that opens with neither padding nor a marker and whose last
      byte is no padding, or is protected, is a rule body as it stands. */
  lemma LineIsBody(line: Bytes)
    requires line != [] && !Pad(line[0])
    requires Pad(line[|line| - 1]) ==> Escaped(line, |line| - 1)
    ensures TrimRuleSpace(line) == line
  {
  }

  /** A name a rule can spell: a nonempty path without slashes at its ends. */
  predicate Nameable(d: Path) {
    d != [] && d[0] != SLASH && d[|d| - 1] != SLASH
  }

  lemma EscapeAlone(d: Path)
    requires Nameable(d)
    ensures var e := Escape(d);
            && e != [] && e[|e| - 1] == d[|d| - 1] && e[0] !in {SLASH, BANG, HASH} && !Pad(e[0])
            && (Pad(e[|e| - 1]) ==> Escaped(e, |e| - 1))
            && !Escaped(e, |e|)
  {
    EscapeFirst(d);
    EscapeParity(d);
  }

  // ---- the rules it writes ----

  /** p is the rule without wildcards that spells d. */
  ghost predicate Spells(p: Pattern, negate: bool, anchored: bool, d: Path, dirOnly: bool) {
    && d != [] && p.negate == negate && p.anchored == anchored && p.dirOnly == dirOnly
    && SegmentFields(p, d)
  }

  /** A line whose body has no wildcard compiles to the rule that spells the
      literal text of the body, or, when that is not UTF-8, to none. */
  lemma CompiledName(line: Bytes, sp: Spelling, d: Path)
    requires d != [] && SpellingOf(line) == Some(sp) && Pieces(sp.body, 0) == Lits(d)
    ensures Compiled(line).Some? <==> Valid(d)
    ensures Valid(d) ==> Spells(Compiled(line).value, sp.negate, sp.anchored, d, sp.dirOnly)
  {
    DecodedLits(d);
    LettersOfLits(d);
  }

  /** The rule for d alone: anchored exactly when d has a slash. */
  lemma EscapedRule(d: Path)
    requires Nameable(d)
    ensures Compiled(Escape(d)).Some? <==> Valid(d)
    ensures Valid(d) ==> Spells(Compiled(Escape(d)).value, false, SLASH in d, d, false)
  {
    var line := Escape(d);
    EscapeAlone(d);
    LineIsBody(line);
    PiecesOfEscape(d);
    assert DropLeadingSlashes(line) == line && DropTrailingSlashes(line) == line;
    CompiledName(line, Spelling(false, SLASH in d, line, false), d);
  }

  /** The line a scope writes for a folder. */
  function ScopeLine(d: Path): Bytes { [BANG, SLASH] + Escape(d) + [SLASH] }

  lemma EscapedScopeRule(d: Path)
    requires Nameable(d)
    ensures Compiled(ScopeLine(d)).Some? <==> Valid(d)
    ensures Valid(d) ==> Spells(Compiled(ScopeLine(d)).value, true, true, d, true)
  {
    var line, rest, inner := ScopeLine(d), [SLASH] + Escape(d) + [SLASH], Escape(d) + [SLASH];
    EscapeAlone(d);
    LineIsBody(line);
    LineIsBody(rest);
    assert line[1..] == rest && rest[1..] == inner && inner[0] == Escape(d)[0];
    assert DropLeadingSlashes(rest) == inner;
    StripSlash(d);
    PiecesOfEscape(d);
    CompiledName(line, Spelling(true, true, Escape(d), true), d);
  }

  lemma StripSlash(d: Path)
    requires Nameable(d)
    ensures DropTrailingSlashes(Escape(d) + [SLASH]) == Escape(d)
  {
    EscapeAlone(d);
    var line := Escape(d) + [SLASH];
    SlashesPrefix(Escape(d), [SLASH], |Escape(d)|);
    assert line[..|line| - 1] == Escape(d);
  }

  // ---- what those rules match ----

  /** Anchored, the rule matches what lies under d and, unless it is for
      directories only, d itself. Nothing else. */
  lemma AnchoredMatch(p: Pattern, negate: bool, d: Path, dirOnly: bool, rel: Path)
    requires Spells(p, negate, true, d, dirOnly)
    ensures Match(p, rel) <==> Beneath(d, rel) || (rel == d && !dirOnly)
  {
  }

  /** A bare name is also matched one directory down. */
  lemma BareNameElsewhere(p: Pattern, d: Path) returns (rel: Path)
    requires Spells(p, false, false, d, false) && SLASH !in d
    ensures !AtOrBeneath(d, rel) && Match(p, rel)
  {
    var c: byte := if d[0] == 120 then 121 else 120;
    rel := [c, SLASH] + d;
    assert rel[1..] == [SLASH] + d;
    assert rel[0] != (d + [SLASH])[0];
  }

  /** The rule matches its path, what lies under it, and nothing else. */
  ghost predicate Exact(p: Pattern, d: Path) {
    forall rel :: Match(p, rel) <==> AtOrBeneath(d, rel)
  }

  /** EscapeIgnore promises a rule that matches its path and nothing beside
      it. That holds exactly for a path that has a slash in it and is UTF-8:
      the rule for a bare name also matches that name in every directory, and
      a name that is not UTF-8 has no rule. */
  lemma EscapeIsExact(d: Path)
    requires Nameable(d)
    ensures Compiled(Escape(d)).Some? <==> Valid(d)
    ensures Compiled(Escape(d)).Some? && Exact(Compiled(Escape(d)).value, d) <==> SLASH in d && Valid(d)
  {
    EscapedRule(d);
    if Valid(d) {
      var p := Compiled(Escape(d)).value;
      if SLASH in d {
        forall rel ensures Match(p, rel) <==> AtOrBeneath(d, rel) {
          AnchoredMatch(p, false, d, false, rel);
        }
      } else {
        var rel := BareNameElsewhere(p, d);
      }
    }
  }
}
