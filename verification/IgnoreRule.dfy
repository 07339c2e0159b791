/** The ignore dialect: what a line of rule text means, and how a path is
    judged by the regular expression of a rule. Lines and paths are bytes; an
    expression reads both as runes. */
module IgnoreRule {
  import opened Text
  import opened Utf8
  import opened Runes

  const BACKSLASH: byte := 92
  const ASTERISK: byte := 42
  const QUESTION: byte := 63
  const BANG: byte := 33
  const HASH: byte := 35

  /** One piece of a rule body: a literal, `?`, `*` or `**`, which the compiler
      renders as a quoted character, [^/], [^/]* and .* */
  datatype Tok<+C> = Lit(c: C) | One | Star | Deep

  /** The regular expression of a rule. It opens with ^ when anchored and with
      (?:^|/) otherwise, and closes with /.*$ when dirOnly and with
      (?:/.*)?$ otherwise. */
  datatype Regex = Regex(anchored: bool, toks: seq<Tok<char>>, dirOnly: bool)

  datatype Rule = Rule(negate: bool, re: Regex)

  // ---- what the regular expression matches ----

  /** t matches exactly s. Only a dot refuses a newline. */
  predicate Takes(t: Tok<char>, s: string) {
    match t
    case Lit(c) => s == [c]
    case One => |s| == 1 && s[0] != '/'
    case Star => '/' !in s
    case Deep => '\n' !in s
  }

  /** toks matches exactly s. */
  predicate Run(toks: seq<Tok<char>>, s: string)
    decreases |toks|
  {
    if toks == [] then s == ""
    else exists k | 0 <= k <= |s| :: Takes(toks[0], s[..k]) && Run(toks[1..], s[k..])
  }

  /** A match may start at i: at the front, or after a slash. */
  predicate Opens<T(==)>(anchored: bool, slash: T, s: seq<T>, i: nat)
    requires i <= |s|
  {
    i == 0 || (!anchored && s[i - 1] == slash)
  }

  predicate Closes(dirOnly: bool, s: string) {
    if s == "" then !dirOnly else s[0] == '/' && '\n' !in s[1..]
  }

  predicate MatchAt(re: Regex, s: string, i: nat, j: nat)
    requires i <= j <= |s|
  {
    Opens(re.anchored, '/', s, i) && Run(re.toks, s[i..j]) && Closes(re.dirOnly, s[j..])
  }

  /** regexp.MatchString, on the runes of a string. */
  predicate MatchString(re: Regex, s: string) {
    exists i, j | 0 <= i <= j <= |s| :: MatchAt(re, s, i, j)
  }

  // ---- what a rule line means ----

  predicate Pad(b: byte) {
    b == 32 || 9 <= b <= 13
  }

  /** How many backslashes stand immediately before index i. */
  function Slashes(line: Bytes, i: nat): (n: nat)
    requires i <= |line|
    ensures n <= i
  {
    if i > 0 && line[i - 1] == BACKSLASH then 1 + Slashes(line, i - 1) else 0
  }

  predicate Escaped(line: Bytes, i: nat)
    requires i <= |line|
  {
    Slashes(line, i) % 2 == 1
  }

  function TrimLeft(line: Bytes): Bytes {
    if line != [] && Pad(line[0]) then TrimLeft(line[1..]) else line
  }

  function TrimRight(line: Bytes): Bytes {
    if line != [] && Pad(line[|line| - 1]) && !Escaped(line, |line| - 1)
    then TrimRight(line[..|line| - 1]) else line
  }

  function TrimRuleSpace(line: Bytes): Bytes { TrimRight(TrimLeft(line)) }

  function DropLeadingSlashes(s: Bytes): Bytes {
    if s != [] && s[0] == SLASH then DropLeadingSlashes(s[1..]) else s
  }

  function DropTrailingSlashes(s: Bytes): Bytes {
    if s != [] && s[|s| - 1] == SLASH && !Escaped(s, |s| - 1)
    then DropTrailingSlashes(s[..|s| - 1]) else s
  }

  /** A slash no backslash protects. */
  predicate HasOpenSlash(s: Bytes) {
    if s == [] then false
    else if s[0] == BACKSLASH then |s| > 1 && HasOpenSlash(s[2..])
    else s[0] == SLASH || HasOpenSlash(s[1..])
  }

  /** A line without its padding, its negation and its outer slashes. */
  datatype Spelling = Spelling(negate: bool, anchored: bool, body: Bytes, dirOnly: bool)

  function SpellingOfBody(negate: bool, line: Bytes): Option<Spelling> {
    var inner := DropLeadingSlashes(line);
    var body := DropTrailingSlashes(inner);
    if body == [] then None
    else Some(Spelling(negate, inner != line || HasOpenSlash(body), body, body != inner))
  }

  function SpellingOf(line: Bytes): (sp: Option<Spelling>)
    ensures sp.Some? ==> sp.value.body != []
  {
    var t := TrimRuleSpace(line);
    if t == [] || t[0] == HASH then None
    else if t[0] == BANG then SpellingOfBody(true, TrimRuleSpace(t[1..]))
    else SpellingOfBody(false, t)
  }

  /** How many bytes the piece at i is written with. */
  function WidthAt(body: Bytes, i: nat): (w: nat)
    requires i < |body|
    ensures 1 <= w <= 2 && i + w <= |body|
  {
    if |body| - i > 1 && (body[i] == BACKSLASH || (body[i] == ASTERISK && body[i + 1] == ASTERISK)) then 2 else 1
  }

  function PieceAt(body: Bytes, i: nat): Tok<byte>
    requires i < |body|
  {
    if body[i] == QUESTION then One
    else if body[i] != ASTERISK then Lit(body[i + WidthAt(body, i) - 1])
    else if WidthAt(body, i) == 2 then Deep
    else Star
  }

  /** The pieces of a body from index i on, byte by byte. */
  function Pieces(body: Bytes, i: nat): seq<Tok<byte>>
    requires i <= |body|
    decreases |body| - i
  {
    if i == |body| then [] else [PieceAt(body, i)] + Pieces(body, i + WidthAt(body, i))
  }

  // ---- bytes to runes ----

  function Lits<C>(text: seq<C>): seq<Tok<C>> {
    seq(|text|, i requires 0 <= i < |text| => Lit(text[i]))
  }

  /** The literal bytes that ps starts with. */
  function LiteralRun(ps: seq<Tok<byte>>): (run: Bytes)
    ensures |run| <= |ps| && ps[..|run|] == Lits(run)
    ensures |run| < |ps| ==> !ps[|run|].Lit?
  {
    if ps == [] || !ps[0].Lit? then []
    else
      var run := LiteralRun(ps[1..]);
      assert ps[..|run| + 1] == [ps[0]] + ps[1..][..|run|];
      [ps[0].c] + run
  }

  function Wild(t: Tok<byte>): Tok<char>
    requires !t.Lit?
  {
    match t case One => One case Star => Star case Deep => Deep
  }

  function After(ts: seq<Tok<char>>, rest: Option<seq<Tok<char>>>): Option<seq<Tok<char>>> {
    match rest
    case None => None
    case Some(more) => Some(ts + more)
  }

  /** The tokens of a regular expression whose literal text is that of ps.
      There is none when a stretch of literal bytes is not UTF-8: then
      regexp.Compile refuses. */
  function Decoded(ps: seq<Tok<byte>>): Option<seq<Tok<char>>>
    decreases |ps|
  {
    if ps == [] then Some([])
    else match ps[0]
      case Lit(_) =>
        var run := LiteralRun(ps);
        if !Valid(run) then None else After(Lits(RunesOf(run)), Decoded(ps[|run|..]))
      case _ => After([Wild(ps[0])], Decoded(ps[1..]))
  }

  /** The reference meaning of one line of rule text. */
  function RuleOf(line: Bytes): Option<Rule> {
    match SpellingOf(line)
    case None => None
    case Some(sp) =>
      match Decoded(Pieces(sp.body, 0))
      case None => None
      case Some(toks) => Some(Rule(sp.negate, Regex(sp.anchored, toks, sp.dirOnly)))
  }
}
