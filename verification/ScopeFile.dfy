/** The managed block of .bdriveignore: which folders of a project sync. */
module ScopeFile {
  import opened Text
  import opened Utf8
  import opened Runes
  import opened IgnoreRule
  import opened IgnoreEscape

  // ---- strings.TrimSpace and strings.Trim(s, "/") ----

  /** unicode.IsSpace. */
  predicate IsSpace(v: int) {
    || 9 <= v <= 13 || v == 32 || v == 0x85 || v == 0xA0 || v == 0x1680
    || 0x2000 <= v <= 0x200A || v == 0x2028 || v == 0x2029 || v == 0x202F || v == 0x205F || v == 0x3000
  }

  predicate Ends(s: Bytes, n: nat) {
    0 < n <= |s| && RuneLen(s[|s| - n..]) == n
  }

  /** The length of the character at the end of s, which no shorter suffix is,
      or 0 when there is none. */
  function LastLen(s: Bytes, n: nat): (r: nat)
    requires 1 <= n <= 5
    ensures r > 0 ==> Ends(s, r)
    decreases 5 - n
  {
    if n == 5 then 0 else if Ends(s, n) then n else LastLen(s, n + 1)
  }

  function TrimSpacesLeft(s: Bytes): Bytes
    decreases |s|
  {
    if RuneLen(s) > 0 && IsSpace(Code(s)) then TrimSpacesLeft(s[RuneLen(s)..]) else s
  }

  function TrimSpacesRight(s: Bytes): Bytes
    decreases |s|
  {
    var n := LastLen(s, 1);
    if n > 0 && IsSpace(Code(s[|s| - n..])) then TrimSpacesRight(s[..|s| - n]) else s
  }

  function TrimAround(s: Bytes): Bytes { TrimSpacesRight(TrimSpacesLeft(s)) }

  function TrimSlashes(s: Bytes): Bytes {
    if s != [] && s[0] == SLASH then TrimSlashes(s[1..])
    else if s != [] && s[|s| - 1] == SLASH then TrimSlashes(s[..|s| - 1])
    else s
  }

  /** An ASCII character that is no space. */
  predicate Visible(c: byte) {
    c < 0x80 && !IsSpace(c as int)
  }

  lemma TrimsNothing(s: Bytes)
    requires s != [] && Visible(s[0]) && Visible(s[|s| - 1])
    ensures TrimAround(s) == s
  {
    assert s[|s| - 1..] == [s[|s| - 1]];
  }

  // ---- the two marker lines ----

  datatype Markers = Markers(start: Bytes, end: Bytes)
  {
    /** Comment lines without padding, and not the same one. */
    predicate Proper() {
      && start != [] && start[0] == HASH && Visible(start[|start| - 1])
      && end != [] && end[0] == HASH && Visible(end[|end| - 1])
      && start != end && NEWLINE !in start && NEWLINE !in end
    }
  }

  predicate AllAscii(s: string) {
    forall i | 0 <= i < |s| :: s[i] as int < 0x80 && s[i] != '\n'
  }

  function Ascii(s: string): (b: Bytes)
    requires AllAscii(s)
    ensures |b| == |s| && NEWLINE !in b
  {
    seq(|s|, i requires 0 <= i < |s| => s[i] as byte)
  }

  const EM_DASH: Bytes := [0xE2, 0x80, 0x94]

  const TITLE := Ascii("# bdrive scope ")
  const ONLY := Ascii(" only these folders ")
  const MANAGED := Ascii("sync (managed by ")
  const BY := Ascii("bdrive; change with ")
  const COMMAND := Ascii("`bdrive scope add/rm`)")
  const FOOTER := Ascii("# end bdrive scope")

  const MARKERS := Markers(TITLE + EM_DASH + ONLY + MANAGED + BY + COMMAND, FOOTER)

  lemma MarkersProper()
    ensures MARKERS.Proper()
  {
    var start := MARKERS.start;
    assert start[0] == TITLE[0] == HASH && FOOTER[0] == HASH;
    assert start[|start| - 1] == COMMAND[|COMMAND| - 1] == 41 && FOOTER[|FOOTER| - 1] == 101;
    assert |start| > |FOOTER|;
  }

  // ---- rendering and reading names ----

  /** Everything at the top of the project is left out. */
  const STAR_LINE: Bytes := [SLASH, ASTERISK]

  const EMPTY: Bytes := []

  function NameLines(dirs: seq<Path>): (lines: seq<Bytes>)
    ensures |lines| == |dirs|
    ensures forall k | 0 <= k < |dirs| :: lines[k] == ScopeLine(dirs[k])
  {
    seq(|dirs|, k requires 0 <= k < |dirs| => ScopeLine(dirs[k]))
  }

  function BlockLines(m: Markers, dirs: seq<Path>): seq<Bytes> {
    [m.start, STAR_LINE] + NameLines(dirs) + [m.end]
  }

  method ScopeLines(m: Markers, dirs: seq<Path>) returns (lines: seq<Bytes>)
    ensures lines == BlockLines(m, dirs)
  {
    lines := [m.start, STAR_LINE];
    for i := 0 to |dirs|
      invariant lines == [m.start, STAR_LINE] + NameLines(dirs[..i])
    {
      var rule := EscapeIgnore(dirs[i]);
      lines := lines + [[BANG, SLASH] + rule + [SLASH]];
      assert NameLines(dirs[..i + 1]) == NameLines(dirs[..i]) + [ScopeLine(dirs[i])];
    }
    assert dirs[..|dirs|] == dirs;
    lines := lines + [m.end];
  }

  function Unescape(rule: Bytes): Bytes {
    if rule == [] then []
    else if rule[0] == BACKSLASH && |rule| > 1 then [rule[1]] + Unescape(rule[2..])
    else [rule[0]] + Unescape(rule[1..])
  }

  lemma UnescapeStep(rule: Bytes, i: nat)
    requires i < |rule|
    ensures var k := if rule[i] == BACKSLASH && i + 1 < |rule| then i + 1 else i;
            Unescape(rule[i..]) == [rule[k]] + Unescape(rule[k + 1..])
  {
    assert rule[i..][1..] == rule[i + 1..];
    assert i + 1 < |rule| ==> rule[i..][2..] == rule[i + 2..];
  }

  method UnescapeIgnore(rule: Bytes) returns (name: Path)
    ensures name == Unescape(rule)
  {
    name := [];
    var i := 0;
    while i < |rule|
      invariant 0 <= i <= |rule| && name + Unescape(rule[i..]) == Unescape(rule)
    {
      UnescapeStep(rule, i);
      if rule[i] == BACKSLASH && i + 1 < |rule| {
        i := i + 1;
      }
      Assoc(name, [rule[i]], Unescape(rule[i + 1..]));
      name := name + [rule[i]];
      i := i + 1;
    }
  }

  lemma {:induction false} UnescapeEscape(d: Bytes)
    ensures Unescape(Escape(d)) == d
  {
    if d != [] {
      EscapeFirst(d);
      UnescapeEscape(d[1..]);
      assert Escape(d)[|EscapeByte(d[0])|..] == Escape(d[1..]);
    }
  }

  // ---- locating the block ----

  datatype Mark = Opens | Closes | Neither

  function MarkOf(m: Markers, line: Bytes): Mark {
    var t := TrimAround(line);
    if t == m.start then Opens else if t == m.end then Closes else Neither
  }

  function Marks(m: Markers, lines: seq<Bytes>): (marks: seq<Mark>)
    ensures |marks| == |lines|
    ensures forall k | 0 <= k < |lines| :: marks[k] == MarkOf(m, lines[k])
  {
    seq(|lines|, k requires 0 <= k < |lines| => MarkOf(m, lines[k]))
  }

  /** Where the first mark of a kind stands, from an index on. */
  function Find(marks: seq<Mark>, mark: Mark, from: nat): (i: nat)
    requires from <= |marks|
    ensures from <= i <= |marks| && (i < |marks| ==> marks[i] == mark)
    ensures forall k | from <= k < i :: marks[k] != mark
    decreases |marks| - from
  {
    if from == |marks| || marks[from] == mark then from else Find(marks, mark, from + 1)
  }

  datatype Block = NoBlock | Found(start: nat, end: nat) | Ambiguous

  /** The first complete pair of markers from a line on: the first start, and
      the first end after it. */
  function FirstBlock(marks: seq<Mark>, from: nat): (b: Block)
    requires from <= |marks|
    ensures b.Found? ==> from <= b.start < b.end < |marks|
    ensures b != Ambiguous
  {
    var i := Find(marks, Opens, from);
    if i == |marks| then NoBlock
    else
      var j := Find(marks, Closes, i);
      if j == |marks| then NoBlock else Found(i, j)
  }

  /** Two complete blocks are refused. */
  function BlockIn(marks: seq<Mark>): (b: Block)
    ensures b.Found? ==> b.start < b.end < |marks|
  {
    var b := FirstBlock(marks, 0);
    if b.Found? && FirstBlock(marks, b.end + 1).Found? then Ambiguous else b
  }

  /** The managed block of a file. */
  function ManagedBlock(m: Markers, lines: seq<Bytes>): (b: Block)
    ensures b.Found? ==> b.start < b.end < |lines|
  {
    BlockIn(Marks(m, lines))
  }

  /** The block found so far, and the start marker left open, after i lines. */
  ghost predicate Scanned(marks: seq<Mark>, i: nat, b: Block, open: int) {
    var from := if b.Found? then b.end + 1 else 0;
    && from <= i <= |marks| && -1 <= open < i && b != Ambiguous
    && (b.Found? ==> b == FirstBlock(marks, 0))
    && (if open < 0 then Find(marks, Opens, from) == Find(marks, Opens, i)
        else from <= open && open == Find(marks, Opens, from) && Find(marks, Closes, open) == Find(marks, Closes, i))
  }

  lemma ScanCloses(marks: seq<Mark>, i: nat, b: Block, open: int)
    requires Scanned(marks, i, b, open) && i < |marks| && open >= 0 && marks[i] == Closes
    ensures if b.Found? then BlockIn(marks) == Ambiguous else Scanned(marks, i + 1, Found(open, i), -1)
  {
    assert Find(marks, Closes, open) == i;
  }

  lemma ScanOther(marks: seq<Mark>, i: nat, b: Block, open: int)
    requires Scanned(marks, i, b, open) && i < |marks| && !(open >= 0 && marks[i] == Closes)
    ensures Scanned(marks, i + 1, b, if marks[i] == Opens && open < 0 then i else open)
  {
  }

  lemma ScanDone(marks: seq<Mark>, b: Block, open: int)
    requires Scanned(marks, |marks|, b, open)
    ensures b == BlockIn(marks)
  {
  }

  /** One line of the scan; a second block is Ambiguous. */
  method ScanMark(mark: Mark, i: nat, b: Block, open: int, ghost marks: seq<Mark>) returns (c: Block, o: int)
    requires Scanned(marks, i, b, open) && i < |marks| && mark == marks[i]
    ensures if c.Ambiguous? then BlockIn(marks) == Ambiguous else Scanned(marks, i + 1, c, o)
  {
    c, o := b, open;
    if mark == Closes && open >= 0 {
      ScanCloses(marks, i, b, open);
      if b.Found? {
        return Ambiguous, -1;
      }
      c, o := Found(open, i), -1;
    } else {
      ScanOther(marks, i, b, open);
      if mark == Opens && open < 0 {
        o := i;
      }
    }
  }

  method ScopeBlock(m: Markers, lines: seq<Bytes>) returns (b: Block)
    ensures b == ManagedBlock(m, lines)
  {
    b := NoBlock;
    var open := -1;
    ghost var marks := Marks(m, lines);
    for i := 0 to |lines|
      invariant Scanned(marks, i, b, open)
    {
      b, open := ScanMark(MarkOf(m, lines[i]), i, b, open, marks);
      if b.Ambiguous? {
        return;
      }
    }
    ScanDone(marks, b, open);
  }

  // ---- reading and writing the file ----

  datatype Read = Absent | Dirs(dirs: seq<Path>) | Refused

  predicate NamesFolder(line: Bytes) {
    var t := TrimAround(line);
    t != [] && t[0] == BANG
  }

  function FolderOf(line: Bytes): Bytes
    requires NamesFolder(line)
  {
    Unescape(TrimSlashes(TrimAround(line)[1..]))
  }

  function FoldersOf(lines: seq<Bytes>): seq<Bytes> {
    if lines == [] then []
    else
      var front := FoldersOf(lines[..|lines| - 1]);
      if NamesFolder(lines[|lines| - 1]) then front + [FolderOf(lines[|lines| - 1])] else front
  }

  function ReadLines(m: Markers, lines: seq<Bytes>): Read
  {
    match ManagedBlock(m, lines)
    case NoBlock => Absent
    case Ambiguous => Refused
    case Found(i, j) => Dirs(FoldersOf(lines[i + 1..j]))
  }

  method ReadFolders(block: seq<Bytes>) returns (dirs: seq<Path>)
    ensures dirs == FoldersOf(block)
  {
    dirs := [];
    for i := 0 to |block|
      invariant dirs == FoldersOf(block[..i])
    {
      assert block[..i + 1][..i] == block[..i];
      if NamesFolder(block[i]) {
        var name := UnescapeIgnore(TrimSlashes(TrimAround(block[i])[1..]));
        dirs := dirs + [name];
      }
    }
    assert block[..|block|] == block;
  }

  /** file is None when there is no .bdriveignore. */
  method ReadScopeDirs(m: Markers, file: Option<Bytes>) returns (r: Read)
    ensures r == if file.None? then Absent else ReadLines(m, SplitOn(file.value, NEWLINE))
  {
    if file.None? {
      return Absent;
    }
    var lines := SplitOn(file.value, NEWLINE);
    var b := ScopeBlock(m, lines);
    if b.NoBlock? {
      return Absent;
    }
    if b.Ambiguous? {
      return Refused;
    }
    var dirs := ReadFolders(lines[b.start + 1..b.end]);
    r := Dirs(dirs);
  }

  predicate Blank(line: Bytes) { TrimAround(line) == [] }

  function DropWhile<T>(p: T -> bool, xs: seq<T>): seq<T> {
    if xs != [] && p(xs[0]) then DropWhile(p, xs[1..]) else xs
  }

  function DropBlanks(lines: seq<Bytes>): seq<Bytes> { DropWhile(Blank, lines) }

  function Without(lines: seq<Bytes>, b: Block): seq<Bytes>
    requires b.Found? ==> b.start < b.end < |lines|
  {
    if b.Found? then lines[..b.start] + lines[b.end + 1..] else lines
  }

  /** The lines outside the managed block. */
  function Others(m: Markers, lines: seq<Bytes>): seq<Bytes> { Without(lines, ManagedBlock(m, lines)) }

  function NewLines(m: Markers, lines: seq<Bytes>, dirs: seq<Path>): seq<Bytes>
  {
    (if dirs == [] then [] else BlockLines(m, dirs) + [EMPTY]) + DropBlanks(Others(m, lines))
  }

  function LinesOf(file: Option<Bytes>): seq<Bytes> {
    if file.None? then [] else SplitOn(file.value, NEWLINE)
  }

  function EndLine(body: Bytes): Bytes {
    if body != [] && body[|body| - 1] == NEWLINE then body else body + [NEWLINE]
  }

  method WithoutBlanks(lines: seq<Bytes>) returns (kept: seq<Bytes>)
    ensures kept == DropBlanks(lines)
  {
    kept := lines;
    while kept != [] && Blank(kept[0])
      invariant DropBlanks(kept) == DropBlanks(lines)
      decreases |kept|
    {
      kept := kept[1..];
    }
  }

  method KeptLines(lines: seq<Bytes>, b: Block) returns (kept: seq<Bytes>)
    requires b.Found? ==> b.start < b.end < |lines|
    ensures kept == DropBlanks(Without(lines, b))
  {
    kept := lines;
    if b.Found? {
      kept := lines[..b.start] + lines[b.end + 1..];
    }
    kept := WithoutBlanks(kept);
  }

  /** The new text, or None when the file holds two blocks and is left alone. */
  method WriteScopeDirs(m: Markers, file: Option<Bytes>, dirs: seq<Path>) returns (text: Option<Bytes>)
    ensures text == if ManagedBlock(m, LinesOf(file)).Ambiguous? then None
                    else Some(EndLine(JoinWith(NewLines(m, LinesOf(file), dirs), NEWLINE)))
  {
    var lines := if file.Some? then SplitOn(file.value, NEWLINE) else [];
    var b := ScopeBlock(m, lines);
    if b.Ambiguous? {
      return None;
    }
    var kept := KeptLines(lines, b);
    var out: seq<Bytes> := [];
    if dirs != [] {
      var block := ScopeLines(m, dirs);
      out := block + [EMPTY];
    }
    out := out + kept;
    assert out == NewLines(m, lines, dirs);
    var body := JoinWith(out, NEWLINE);
    text := Some(EndLine(body));
  }

  // ---- what a write leaves in the file ----

  ghost predicate NoPair(marks: seq<Mark>, from: nat) {
    forall a, b | from <= a < b < |marks| :: !(marks[a] == Opens && marks[b] == Closes)
  }

  lemma NoPairIsNoBlock(marks: seq<Mark>, from: nat)
    requires from <= |marks|
    ensures NoPair(marks, from) <==> FirstBlock(marks, from) == NoBlock
  {
    var i := Find(marks, Opens, from);
    if i < |marks| {
      var j := Find(marks, Closes, i);
      forall a, b | from <= a < b < |marks| && marks[a] == Opens && marks[b] == Closes ensures j < |marks| {
        assert i <= a && j <= b;
      }
    }
  }

  ghost predicate TwoPairs(marks: seq<Mark>, a: nat, b: nat, c: nat, d: nat) {
    && a < b < c < d < |marks|
    && marks[a] == Opens && marks[b] == Closes && marks[c] == Opens && marks[d] == Closes
  }

  /** A file is refused exactly when one pair of markers follows another, and
      has no block exactly when it has no pair. */
  lemma TwoBlocksIff(marks: seq<Mark>)
    ensures BlockIn(marks) == Ambiguous <==> exists a: nat, b: nat, c: nat, d: nat :: TwoPairs(marks, a, b, c, d)
    ensures BlockIn(marks) == NoBlock <==> NoPair(marks, 0)
  {
    var first := FirstBlock(marks, 0);
    NoPairIsNoBlock(marks, 0);
    if first.Found? {
      var next := FirstBlock(marks, first.end + 1);
      NoPairIsNoBlock(marks, first.end + 1);
      assert next.Found? ==> TwoPairs(marks, first.start, first.end, next.start, next.end);
      forall a: nat, b: nat, c: nat, d: nat | TwoPairs(marks, a, b, c, d) ensures first.end < c {
        assert first.start <= a && first.end <= b;
      }
    }
  }

  lemma CutBlockLeavesNoPair(marks: seq<Mark>, i: nat, j: nat)
    requires BlockIn(marks) == Found(i, j)
    ensures NoPair(marks[..i] + marks[j + 1..], 0)
  {
    NoPairIsNoBlock(marks, j + 1);
    var kept := marks[..i] + marks[j + 1..];
    forall a, b | 0 <= a < b < |kept| ensures !(kept[a] == Opens && kept[b] == Closes) {
      if a < i {
        assert kept[a] == marks[a];
      } else {
        assert kept[a] == marks[a + j + 1 - i] && kept[b] == marks[b + j + 1 - i];
      }
    }
  }

  lemma MarksCut(m: Markers, lines: seq<Bytes>, i: nat, j: nat)
    requires i <= j <= |lines|
    ensures Marks(m, lines[..i] + lines[j..]) == Marks(m, lines)[..i] + Marks(m, lines)[j..]
  {
  }

  lemma OthersHaveNoPair(m: Markers, lines: seq<Bytes>)
    requires m.Proper() && !ManagedBlock(m, lines).Ambiguous?
    ensures NoPair(Marks(m, Others(m, lines)), 0)
  {
    NoPairIsNoBlock(Marks(m, lines), 0);
    match ManagedBlock(m, lines) {
      case Found(i, j) =>
        var marks := Marks(m, lines);
        CutBlockLeavesNoPair(marks, i, j);
        MarksCut(m, lines, i, j + 1);
      case NoBlock =>
    }
  }

  lemma {:induction false} DropWhileSuffix<T>(p: T -> bool, xs: seq<T>)
    ensures var kept := DropWhile(p, xs);
            && |kept| <= |xs| && kept == xs[|xs| - |kept|..]
            && (forall k | 0 <= k < |xs| - |kept| :: p(xs[k]))
            && (kept != [] ==> !p(kept[0]))
  {
    if xs != [] && p(xs[0]) {
      DropWhileSuffix(p, xs[1..]);
      var n := |DropWhile(p, xs)|;
      assert xs[|xs| - n..] == xs[1..][|xs| - 1 - n..];
      forall k | 0 < k < |xs| - n ensures p(xs[k]) {
        assert xs[1..][k - 1] == xs[k];
      }
    }
  }

  lemma DropBlanksSuffix(lines: seq<Bytes>)
    ensures var kept := DropBlanks(lines);
            && |kept| <= |lines| && kept == lines[|lines| - |kept|..]
            && (forall k | 0 <= k < |lines| - |kept| :: Blank(lines[k]))
            && (kept != [] ==> !Blank(kept[0]))
  {
    DropWhileSuffix(Blank, lines);
  }

  predicate FolderName(d: Bytes) { Nameable(d) && NEWLINE !in d }

  lemma TrimSlashesOf(e: Bytes)
    requires e != [] && e[0] != SLASH && e[|e| - 1] != SLASH
    ensures TrimSlashes([SLASH] + e + [SLASH]) == e
  {
    var s := [SLASH] + e + [SLASH];
    assert s[1..] == e + [SLASH];
    assert (e + [SLASH])[..|e|] == e;
    assert TrimSlashes(s) == TrimSlashes(e + [SLASH]) == TrimSlashes(e) == e;
  }

  lemma ScopeLineEnds(d: Path)
    ensures var line := ScopeLine(d);
            && line[0] == BANG && line[|line| - 1] == SLASH && line[1..] == [SLASH] + Escape(d) + [SLASH]
  {
  }

  lemma ScopeLineTrimmed(d: Path)
    ensures TrimAround(ScopeLine(d)) == ScopeLine(d)
  {
    ScopeLineEnds(d);
    TrimsNothing(ScopeLine(d));
  }

  lemma ScopeLineReads(d: Bytes)
    requires Nameable(d)
    ensures NamesFolder(ScopeLine(d)) && FolderOf(ScopeLine(d)) == d
    ensures TrimAround(ScopeLine(d)) == ScopeLine(d)
  {
    EscapeAlone(d);
    ScopeLineEnds(d);
    ScopeLineTrimmed(d);
    TrimSlashesOf(Escape(d));
    UnescapeEscape(d);
  }

  lemma FoldersOfLast(lines: seq<Bytes>, d: Bytes)
    requires Nameable(d)
    ensures FoldersOf(lines + [ScopeLine(d)]) == FoldersOf(lines) + [d]
  {
    ScopeLineReads(d);
    var all := lines + [ScopeLine(d)];
    assert all[..|all| - 1] == lines;
  }

  lemma InsideBlock(m: Markers, dirs: seq<Path>, rest: seq<Bytes>)
    ensures |BlockLines(m, dirs)| == |dirs| + 3
    ensures (BlockLines(m, dirs) + rest)[1..|dirs| + 2] == [STAR_LINE] + NameLines(dirs)
  {
  }

  lemma OneMoreName(front: seq<Bytes>, d: Bytes)
    ensures NameLines(front + [d]) == NameLines(front) + [ScopeLine(d)]
  {
  }

  lemma {:induction false} FoldersOfNames(dirs: seq<Path>)
    requires forall d | d in dirs :: Nameable(d)
    ensures FoldersOf([STAR_LINE] + NameLines(dirs)) == dirs
  {
    if dirs == [] {
      assert [STAR_LINE] + NameLines(dirs) == [STAR_LINE] && [STAR_LINE][..0] == [];
    } else {
      var front, d := dirs[..|dirs| - 1], dirs[|dirs| - 1];
      assert dirs == front + [d];
      FoldersOfNames(front);
      FoldersOfLast([STAR_LINE] + NameLines(front), d);
      OneMoreName(front, d);
      Assoc([STAR_LINE], NameLines(front), [ScopeLine(d)]);
    }
  }

  lemma MarksConcat(m: Markers, a: seq<Bytes>, b: seq<Bytes>)
    ensures Marks(m, a + b) == Marks(m, a) + Marks(m, b)
  {
  }

  lemma MarkUnpadded(m: Markers, line: Bytes)
    requires line != [] && Visible(line[0]) && Visible(line[|line| - 1])
    ensures MarkOf(m, line) == if line == m.start then Opens else if line == m.end then Closes else Neither
  {
    TrimsNothing(line);
  }

  lemma MarkerMarks(m: Markers)
    requires m.Proper()
    ensures MarkOf(m, m.start) == Opens && MarkOf(m, m.end) == Closes && MarkOf(m, STAR_LINE) == Neither
  {
    assert Visible(HASH) && Visible(SLASH) && Visible(ASTERISK);
    MarkUnpadded(m, m.start);
    MarkUnpadded(m, m.end);
    MarkUnpadded(m, STAR_LINE);
  }

  lemma ScopeLineMark(m: Markers, d: Path)
    requires m.Proper()
    ensures MarkOf(m, ScopeLine(d)) == Neither
  {
    ScopeLineEnds(d);
    assert Visible(BANG) && Visible(SLASH);
    MarkUnpadded(m, ScopeLine(d));
  }

  lemma NameMarks(m: Markers, dirs: seq<Path>)
    requires m.Proper()
    ensures Marks(m, NameLines(dirs)) == seq(|dirs|, _ => Neither)
  {
    forall k | 0 <= k < |dirs| ensures MarkOf(m, NameLines(dirs)[k]) == Neither {
      ScopeLineMark(m, dirs[k]);
    }
  }

  lemma PadMarks(n: nat)
    ensures [Opens, Neither] + seq(n, _ => Neither) + [Closes] == [Opens] + seq(n + 1, _ => Neither) + [Closes]
  {
  }

  lemma EndMarks(m: Markers)
    requires m.Proper()
    ensures Marks(m, [m.start, STAR_LINE]) == [Opens, Neither] && Marks(m, [m.end]) == [Closes]
  {
    MarkerMarks(m);
    OneMark(m, m.start);
    OneMark(m, STAR_LINE);
    OneMark(m, m.end);
    assert [m.start, STAR_LINE] == [m.start] + [STAR_LINE];
    MarksConcat(m, [m.start], [STAR_LINE]);
  }

  lemma OneMark(m: Markers, line: Bytes)
    ensures Marks(m, [line]) == [MarkOf(m, line)]
  {
  }

  lemma RenderedMarks(m: Markers, dirs: seq<Path>)
    requires m.Proper()
    ensures Marks(m, BlockLines(m, dirs)) == [Opens] + seq(|dirs| + 1, _ => Neither) + [Closes]
  {
    EndMarks(m);
    NameMarks(m, dirs);
    PadMarks(|dirs|);
    MarksConcat(m, [m.start, STAR_LINE], NameLines(dirs));
    MarksConcat(m, [m.start, STAR_LINE] + NameLines(dirs), [m.end]);
  }

  lemma LeadingBlock(marks: seq<Mark>, n: nat, rest: seq<Mark>)
    requires marks == [Opens] + seq(n, _ => Neither) + [Closes] + rest && NoPair(rest, 0)
    ensures BlockIn(marks) == Found(0, n + 1)
  {
    forall k | 0 <= k <= n ensures marks[k] != Closes { }
    assert marks[n + 1] == Closes;
    assert Find(marks, Opens, 0) == 0 && Find(marks, Closes, 0) == n + 1;
    forall a, b | n + 2 <= a < b < |marks| ensures !(marks[a] == Opens && marks[b] == Closes) {
      assert marks[a] == rest[a - n - 2] && marks[b] == rest[b - n - 2];
    }
    NoPairIsNoBlock(marks, n + 2);
  }

  lemma RenderedBlockFound(m: Markers, dirs: seq<Path>, rest: seq<Bytes>)
    requires m.Proper() && forall d | d in dirs :: Nameable(d)
    requires NoPair(Marks(m, rest), 0)
    ensures ManagedBlock(m, BlockLines(m, dirs) + rest) == Found(0, |dirs| + 2)
  {
    RenderedMarks(m, dirs);
    MarksConcat(m, BlockLines(m, dirs), rest);
    LeadingBlock(Marks(m, BlockLines(m, dirs) + rest), |dirs| + 1, Marks(m, rest));
  }

  /** A file that opens with a rendered block, and has no other, reads as the
      folders of that block. */
  lemma RenderedBlockReads(m: Markers, dirs: seq<Path>, rest: seq<Bytes>)
    requires m.Proper() && forall d | d in dirs :: Nameable(d)
    requires NoPair(Marks(m, rest), 0)
    ensures ReadLines(m, BlockLines(m, dirs) + rest) == Dirs(dirs)
  {
    RenderedBlockFound(m, dirs, rest);
    InsideBlock(m, dirs, rest);
    FoldersOfNames(dirs);
  }

  // ---- the round trip through the text ----

  lemma {:induction false} EscapeKeepsOut(d: Bytes, c: byte)
    requires c !in d && c != BACKSLASH
    ensures c !in Escape(d)
  {
    if d != [] {
      EscapeKeepsOut(d[..|d| - 1], c);
    }
  }

  lemma BlockIsLines(m: Markers, dirs: seq<Path>)
    requires m.Proper() && forall d | d in dirs :: FolderName(d)
    ensures SepFree(BlockLines(m, dirs), NEWLINE)
  {
    forall k | 0 <= k < |dirs| ensures NEWLINE !in NameLines(dirs)[k] {
      assert dirs[k] in dirs;
      EscapeKeepsOut(dirs[k], NEWLINE);
    }
  }

  lemma NewLinesAreLines(m: Markers, lines: seq<Bytes>, dirs: seq<Path>)
    requires m.Proper() && SepFree(lines, NEWLINE) && forall d | d in dirs :: FolderName(d)
    ensures SepFree(NewLines(m, lines, dirs), NEWLINE)
  {
    BlockIsLines(m, dirs);
    SepFreeJoin(BlockLines(m, dirs), [EMPTY], NEWLINE);
    KeptAreLines(lines, ManagedBlock(m, lines));
    var kept := DropBlanks(Others(m, lines));
    SepFreeJoin(if dirs == [] then [] else BlockLines(m, dirs) + [EMPTY], kept, NEWLINE);
  }

  lemma KeptAreLines(lines: seq<Bytes>, b: Block)
    requires SepFree(lines, NEWLINE) && (b.Found? ==> b.start < b.end < |lines|)
    ensures SepFree(DropBlanks(Without(lines, b)), NEWLINE)
  {
    var others := Without(lines, b);
    if b.Found? {
      SepFreeCut(lines, b.start, NEWLINE);
      SepFreeCut(lines, b.end + 1, NEWLINE);
      SepFreeJoin(lines[..b.start], lines[b.end + 1..], NEWLINE);
    }
    DropBlanksSuffix(others);
    SepFreeCut(others, |others| - |DropBlanks(others)|, NEWLINE);
  }

  ghost predicate Empties(lines: seq<Bytes>) {
    |lines| <= 2 && forall k | 0 <= k < |lines| :: lines[k] == []
  }

  /** Ending the last line adds at most empty lines. */
  lemma SplitEndLine(lines: seq<Bytes>) returns (extra: seq<Bytes>)
    requires SepFree(lines, NEWLINE)
    ensures Empties(extra) && SplitOn(EndLine(JoinWith(lines, NEWLINE)), NEWLINE) == lines + extra
  {
    var body := JoinWith(lines, NEWLINE);
    SplitAppend(body, NEWLINE, []);
    assert body + [NEWLINE] + [] == body + [NEWLINE];
    if lines == [] {
      extra := [EMPTY, EMPTY];
    } else {
      SplitJoin(lines, NEWLINE);
      extra := if EndLine(body) == body then [] else [EMPTY];
      assert lines + [] == lines;
    }
  }

  lemma PlainPadding(a: seq<Mark>, marks: seq<Mark>, b: seq<Mark>)
    requires NoPair(marks, 0) && a == seq(|a|, _ => Neither) && b == seq(|b|, _ => Neither)
    ensures NoPair(a + marks + b, 0)
  {
    var all := a + marks + b;
    forall i, j | 0 <= i < j < |all| ensures !(all[i] == Opens && all[j] == Closes) {
      if |a| <= i && j < |a| + |marks| {
        assert all[i] == marks[i - |a|] && all[j] == marks[j - |a|];
      } else if i < |a| {
        assert all[i] == a[i];
      } else if j >= |a| + |marks| {
        assert all[j] == b[j - |a| - |marks|];
      }
    }
  }

  lemma EmptyMarks(m: Markers, lines: seq<Bytes>)
    requires m.Proper() && Empties(lines)
    ensures Marks(m, lines) == seq(|lines|, _ => Neither)
  {
    assert TrimAround(EMPTY) == EMPTY;
    forall k | 0 <= k < |lines| ensures MarkOf(m, lines[k]) == Neither {
      assert lines[k] == EMPTY;
    }
  }

  lemma MarksTail(m: Markers, lines: seq<Bytes>, i: nat)
    requires i <= |lines|
    ensures Marks(m, lines[i..]) == Marks(m, lines)[i..]
  {
  }

  lemma NoPairInTail(marks: seq<Mark>, i: nat)
    requires NoPair(marks, 0) && i <= |marks|
    ensures NoPair(marks[i..], 0)
  {
    forall a, b | 0 <= a < b < |marks[i..]| ensures !(marks[i..][a] == Opens && marks[i..][b] == Closes) {
      assert marks[i..][a] == marks[i + a] && marks[i..][b] == marks[i + b];
    }
  }

  lemma PaddedKeptHasNoPair(m: Markers, lines: seq<Bytes>, before: seq<Bytes>, extra: seq<Bytes>)
    requires m.Proper() && !ManagedBlock(m, lines).Ambiguous? && Empties(before) && Empties(extra)
    ensures NoPair(Marks(m, before + DropBlanks(Others(m, lines)) + extra), 0)
  {
    var others, kept := Others(m, lines), DropBlanks(Others(m, lines));
    var cut := |others| - |kept|;
    OthersHaveNoPair(m, lines);
    DropBlanksSuffix(others);
    MarksTail(m, others, cut);
    NoPairInTail(Marks(m, others), cut);
    EmptyMarks(m, before);
    EmptyMarks(m, extra);
    PlainPadding(Marks(m, before), Marks(m, kept), Marks(m, extra));
    MarksConcat(m, before, kept);
    MarksConcat(m, before + kept, extra);
  }

  /** The text a write leaves. */
  function WrittenText(m: Markers, file: Option<Bytes>, dirs: seq<Path>): Bytes {
    EndLine(JoinWith(NewLines(m, LinesOf(file), dirs), NEWLINE))
  }

  lemma NewLinesRead(m: Markers, lines: seq<Bytes>, dirs: seq<Path>, extra: seq<Bytes>)
    requires m.Proper() && !ManagedBlock(m, lines).Ambiguous? && Empties(extra)
    requires forall d | d in dirs :: FolderName(d)
    ensures ReadLines(m, NewLines(m, lines, dirs) + extra) == (if dirs == [] then Absent else Dirs(dirs))
  {
    var kept := DropBlanks(Others(m, lines));
    if dirs == [] {
      PaddedKeptHasNoPair(m, lines, [], extra);
      assert [] + kept + extra == NewLines(m, lines, dirs) + extra;
      NoPairIsNoBlock(Marks(m, NewLines(m, lines, dirs) + extra), 0);
    } else {
      PaddedKeptHasNoPair(m, lines, [EMPTY], extra);
      RenderedBlockReads(m, dirs, [EMPTY] + kept + extra);
      Regroup(BlockLines(m, dirs), [EMPTY], kept, extra);
    }
  }

  /** What a write leaves reads back as the folders written, or as no scope
      when there were none, and every other line of the file is still there in
      its order, blank lines at the top aside. */
  lemma ScopeRoundTrip(m: Markers, file: Option<Bytes>, dirs: seq<Path>) returns (extra: seq<Bytes>)
    requires m.Proper() && !ManagedBlock(m, LinesOf(file)).Ambiguous?
    requires forall d | d in dirs :: FolderName(d)
    ensures var lines := SplitOn(WrittenText(m, file, dirs), NEWLINE);
            && ReadLines(m, lines) == (if dirs == [] then Absent else Dirs(dirs))
            && lines == NewLines(m, LinesOf(file), dirs) + extra
            && Empties(extra)
  {
    var lines := LinesOf(file);
    if file.Some? {
      SplitSepFree(file.value, NEWLINE);
    }
    NewLinesAreLines(m, lines, dirs);
    extra := SplitEndLine(NewLines(m, lines, dirs));
    NewLinesRead(m, lines, dirs, extra);
  }
}
