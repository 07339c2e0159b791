/** A file of one record a line that only ever grows, whose last write may have
    been cut anywhere. */
module JournalLines {
  import opened Text

  /** How a record is written on a line, and what a reader makes of any line:
      no record, or one. */
  datatype Lines<!T(!new)> = Lines(write: T -> Bytes, read: Bytes -> seq<T>)
  {
    ghost predicate Lawful() {
      && (forall x: T :: NEWLINE !in write(x))
      && (forall line: Bytes :: |read(line)| <= 1)
      && read([]) == []
    }

    /** A nonempty prefix of a written line, or several one after another, with
        a written line after them, is no line a reader makes sense of. Objects
        of JSON keep this: their braces do not close. */
    ghost predicate Unglued() {
      forall ps: seq<Bytes>, x: T | AllPieces(this, ps) && Flat(ps) != [] :: read(Flat(ps) + write(x)) == []
    }
  }

  ghost predicate IsPiece<T(!new)>(c: Lines<T>, piece: Bytes) {
    exists x: T :: piece <= c.write(x)
  }

  ghost predicate AllPieces<T(!new)>(c: Lines<T>, ps: seq<Bytes>) {
    forall k | 0 <= k < |ps| :: IsPiece(c, ps[k])
  }

  function Flat(ps: seq<Bytes>): Bytes {
    if ps == [] then [] else Flat(ps[..|ps| - 1]) + ps[|ps| - 1]
  }

  function ParseLines<T(!new)>(c: Lines<T>, lines: seq<Bytes>): seq<T> {
    if lines == [] then [] else ParseLines(c, lines[..|lines| - 1]) + c.read(lines[|lines| - 1])
  }

  function Parsed<T(!new)>(c: Lines<T>, data: Bytes): seq<T> { ParseLines(c, SplitOn(data, NEWLINE)) }

  function Marshalled<T(!new)>(c: Lines<T>, xs: seq<T>): Bytes {
    if xs == [] then [] else c.write(xs[0]) + [NEWLINE] + Marshalled(c, xs[1..])
  }

  /** What a reader gets of written records. */
  function ReadBackAll<T(!new)>(c: Lines<T>, xs: seq<T>): seq<T> {
    if xs == [] then [] else c.read(c.write(xs[0])) + ReadBackAll(c, xs[1..])
  }

  lemma {:induction false} ReadBackAllIs<T(!new)>(c: Lines<T>, xs: seq<T>, ys: seq<T>)
    requires |xs| == |ys| && forall k | 0 <= k < |xs| :: c.read(c.write(xs[k])) == [ys[k]]
    ensures ReadBackAll(c, xs) == ys
  {
    if xs != [] {
      ReadBackAllIs(c, xs[1..], ys[1..]);
    }
  }

  /** The file is empty or ends a line: the next append begins a fresh one. */
  predicate Fresh(data: Bytes) { data == [] || data[|data| - 1] == NEWLINE }

  lemma {:induction false} ParseLinesConcat<T(!new)>(c: Lines<T>, a: seq<Bytes>, b: seq<Bytes>)
    ensures ParseLines(c, a + b) == ParseLines(c, a) + ParseLines(c, b)
  {
    if b == [] {
      assert a + b == a;
    } else {
      ParseLinesConcat(c, a, b[..|b| - 1]);
      assert (a + b)[..|a + b| - 1] == a + b[..|b| - 1];
    }
  }

  lemma OneLine<T(!new)>(c: Lines<T>, line: Bytes)
    requires NEWLINE !in line
    ensures Parsed(c, line) == c.read(line)
  {
    SplitFree(line, NEWLINE);
    var lines: seq<Bytes> := [line];
    assert lines[..0] == [];
    assert ParseLines(c, lines) == ParseLines(c, lines[..0]) + c.read(line);
  }

  /** A newline cuts a journal in two. */
  lemma ParseAtNewline<T(!new)>(c: Lines<T>, a: Bytes, b: Bytes)
    ensures Parsed(c, a + [NEWLINE] + b) == Parsed(c, a) + Parsed(c, b)
  {
    SplitAppend(a, NEWLINE, b);
    ParseLinesConcat(c, SplitOn(a, NEWLINE), SplitOn(b, NEWLINE));
  }

  lemma ParseFresh<T(!new)>(c: Lines<T>, f: Bytes, g: Bytes)
    requires c.Lawful() && Fresh(f)
    ensures Parsed(c, f + g) == Parsed(c, f) + Parsed(c, g)
  {
    OneLine(c, []);
    if f == [] {
      assert f + g == g;
    } else {
      var front := f[..|f| - 1];
      assert f == front + [NEWLINE] + [] && f + g == front + [NEWLINE] + g;
      ParseAtNewline(c, front, g);
      ParseAtNewline(c, front, []);
    }
  }

  /** A journal reads back as the records written to it. */
  lemma {:induction false} ParseMarshal<T(!new)>(c: Lines<T>, xs: seq<T>)
    requires c.Lawful()
    ensures Parsed(c, Marshalled(c, xs)) == ReadBackAll(c, xs)
    ensures Fresh(Marshalled(c, xs))
  {
    if xs == [] {
      OneLine(c, []);
    } else {
      ParseMarshal(c, xs[1..]);
      ParseAtNewline(c, c.write(xs[0]), Marshalled(c, xs[1..]));
      OneLine(c, c.write(xs[0]));
    }
  }

  // ---- an append after a torn tail ----

  /** What stands after the last newline. */
  function Tail(data: Bytes): (t: Bytes)
    ensures |t| <= |data|
  {
    if Fresh(data) then [] else Tail(data[..|data| - 1]) + [data[|data| - 1]]
  }

  function Body(data: Bytes): Bytes { data[..|data| - |Tail(data)|] }

  lemma {:induction false} TailCuts(data: Bytes)
    ensures data == Body(data) + Tail(data) && Fresh(Body(data)) && NEWLINE !in Tail(data)
    ensures Tail(data) == [] <==> Fresh(data)
  {
    if !Fresh(data) {
      var front := data[..|data| - 1];
      TailCuts(front);
      assert data == front + [data[|data| - 1]];
      assert Body(data) == Body(front);
    }
  }

  lemma ParseTail<T(!new)>(c: Lines<T>, f: Bytes)
    requires c.Lawful()
    ensures Parsed(c, f) == Parsed(c, Body(f)) + c.read(Tail(f))
  {
    TailCuts(f);
    ParseFresh(c, Body(f), Tail(f));
    OneLine(c, Tail(f));
  }

  /** The first line appended is read glued to the tail; the others are whole. */
  lemma ParseGlued<T(!new)>(c: Lines<T>, f: Bytes, xs: seq<T>)
    requires c.Lawful() && xs != []
    ensures Parsed(c, f + Marshalled(c, xs))
         == Parsed(c, Body(f)) + (c.read(Tail(f) + c.write(xs[0])) + ReadBackAll(c, xs[1..]))
  {
    var line, rest := Tail(f) + c.write(xs[0]), Marshalled(c, xs[1..]);
    TailCuts(f);
    Assoc(Body(f), Tail(f), c.write(xs[0]) + [NEWLINE] + rest);
    Regroup(Tail(f), c.write(xs[0]), [NEWLINE], rest);
    ParseFresh(c, Body(f), line + [NEWLINE] + rest);
    ParseAtNewline(c, line, rest);
    OneLine(c, line);
    ParseMarshal(c, xs[1..]);
  }

  lemma Cancel<T>(a: seq<T>, x: seq<T>, y: seq<T>, b: seq<T>)
    ensures a + (x + b) == a + (y + b) <==> x == y
  {
    if a + (x + b) == a + (y + b) {
      assert |x| == |y|;
      forall k | 0 <= k < |x| ensures x[k] == y[k] {
        assert (a + (x + b))[|a| + k] == x[k] && (a + (y + b))[|a| + k] == y[k];
      }
    }
  }

  lemma CancelGlued<T>(head: seq<T>, own: seq<T>, glued: seq<T>, first: seq<T>, rest: seq<T>)
    requires |own| <= 1 && |glued| <= 1 && |first| == 1
    ensures head + (glued + rest) == head + own + (first + rest) <==> own == [] && glued == first
  {
    assert head + own + (first + rest) == head + (own + first + rest);
    Cancel(head, glued, own + first, rest);
    if own == [] {
      assert own + first == first;
    }
  }

  /** An append adds exactly its records to what a journal reads as when the
      journal ended its last line; otherwise only in the case that the torn
      tail is nothing by itself and does not spoil the line it is glued to. */
  lemma AppendKeepsIff<T(!new)>(c: Lines<T>, f: Bytes, xs: seq<T>)
    requires c.Lawful() && xs != [] && |c.read(c.write(xs[0]))| == 1
    ensures Parsed(c, f + Marshalled(c, xs)) == Parsed(c, f) + ReadBackAll(c, xs)
       <==> Fresh(f) || (c.read(Tail(f)) == [] && c.read(Tail(f) + c.write(xs[0])) == c.read(c.write(xs[0])))
  {
    ParseGlued(c, f, xs);
    ParseTail(c, f);
    TailCuts(f);
    var own, glued, first := c.read(Tail(f)), c.read(Tail(f) + c.write(xs[0])), c.read(c.write(xs[0]));
    CancelGlued(Parsed(c, Body(f)), own, glued, first, ReadBackAll(c, xs[1..]));
    if Fresh(f) {
      assert Tail(f) + c.write(xs[0]) == c.write(xs[0]);
    }
  }

  // ---- any run of appends, each cut anywhere ----

  /** One append of which only cut bytes reached the file. */
  datatype Write<T(!new)> = Write(xs: seq<T>, cut: nat)

  function Torn<T(!new)>(c: Lines<T>, w: Write<T>): Bytes {
    var bytes := Marshalled(c, w.xs);
    bytes[..if w.cut < |bytes| then w.cut else |bytes|]
  }

  function Content<T(!new)>(c: Lines<T>, run: seq<Write<T>>): Bytes {
    if run == [] then [] else Content(c, run[..|run| - 1]) + Torn(c, run[|run| - 1])
  }

  /** How many lines of an append the first cut bytes hold whole, newline and
      all. */
  function WholeLines<T(!new)>(c: Lines<T>, xs: seq<T>, cut: nat): (n: nat)
    ensures n <= |xs|
  {
    if xs == [] || cut <= |c.write(xs[0])| then 0
    else 1 + WholeLines(c, xs[1..], cut - |c.write(xs[0])| - 1)
  }

  /** The records a run is certain to leave: their line is whole, and it began
      on a fresh line. */
  function Certain<T(!new)>(c: Lines<T>, run: seq<Write<T>>): seq<T> {
    if run == [] then []
    else
      var w := run[|run| - 1];
      var n := WholeLines(c, w.xs, w.cut);
      var before := Certain(c, run[..|run| - 1]);
      if Fresh(Content(c, run[..|run| - 1])) then before + ReadBackAll(c, w.xs[..n])
      else if n == 0 then before
      else before + ReadBackAll(c, w.xs[1..n])
  }

  /** pos picks the records of a out of b, from left to right. */
  ghost predicate Picks<T>(pos: seq<nat>, a: seq<T>, b: seq<T>) {
    && |pos| == |a|
    && (forall i, j | 0 <= i < j < |pos| :: pos[i] < pos[j])
    && (forall i | 0 <= i < |pos| :: pos[i] < |b| && b[pos[i]] == a[i])
  }

  ghost predicate Within<T>(a: seq<T>, b: seq<T>) {
    exists pos :: Picks(pos, a, b)
  }

  lemma WithinMore<T>(a: seq<T>, b: seq<T>, x: seq<T>, c: seq<T>)
    requires Within(a, b)
    ensures Within(a + c, b + (x + c))
  {
    var pos :| Picks(pos, a, b);
    var more := pos + seq(|c|, k requires 0 <= k < |c| => |b| + |x| + k);
    assert Picks(more, a + c, b + (x + c));
  }

  /** The bytes of a cut append: its whole lines, and a piece of the next. */
  lemma {:induction false} TornSplit<T(!new)>(c: Lines<T>, xs: seq<T>, cut: nat) returns (piece: Bytes)
    requires c.Lawful() && xs != []
    ensures NEWLINE !in piece && IsPiece(c, piece)
    ensures Torn(c, Write(xs, cut)) == Marshalled(c, xs[..WholeLines(c, xs, cut)]) + piece
  {
    var line, rest := c.write(xs[0]), Marshalled(c, xs[1..]);
    var bytes := line + [NEWLINE] + rest;
    if cut <= |line| {
      piece := line[..cut];
      assert piece <= c.write(xs[0]);
      assert bytes[..cut] == [] + piece;
    } else {
      var n := cut - |line| - 1;
      if |xs| == 1 {
        piece := [];
        assert piece <= c.write(xs[0]);
        assert rest == [] && xs[..1] == xs && bytes + [] == bytes;
      } else {
        piece := TornSplit(c, xs[1..], n);
        var m := if n < |rest| then n else |rest|;
        assert bytes[..if cut < |bytes| then cut else |bytes|] == line + [NEWLINE] + rest[..m];
        var k := WholeLines(c, xs[1..], n);
        assert xs[..1 + k] == [xs[0]] + xs[1..][..k];
        assert xs[..1 + k][1..] == xs[1..][..k];
        Assoc(line + [NEWLINE], Marshalled(c, xs[1..][..k]), piece);
      }
    }
  }

  lemma {:induction false} TailOfPiece(a: Bytes, piece: Bytes)
    requires NEWLINE !in piece
    ensures Tail(a + piece) == Tail(a) + piece && Body(a + piece) == Body(a)
  {
    if piece == [] {
      assert a + piece == a && Tail(a) + piece == Tail(a);
    } else {
      var n := |piece| - 1;
      TailOfPiece(a, piece[..n]);
      assert (a + piece)[..|a + piece| - 1] == a + piece[..n];
      assert Tail(a) + piece[..n] + [piece[n]] == Tail(a) + piece;
      TailCuts(a);
      TailCuts(a + piece);
      assert |Body(a + piece)| == |Body(a)|;
    }
  }

  /** What one more cut append leaves in the settled part of a journal, that is
      up to its last newline. */
  lemma SettledStep<T(!new)>(c: Lines<T>, f: Bytes, w: Write<T>)
    requires c.Lawful()
    ensures var n := WholeLines(c, w.xs, w.cut); var g := f + Torn(c, w);
            Parsed(c, Body(g)) == Parsed(c, Body(f))
              + if n == 0 then [] else c.read(Tail(f) + c.write(w.xs[0])) + ReadBackAll(c, w.xs[1..n])
  {
    var n := WholeLines(c, w.xs, w.cut);
    if w.xs == [] {
      assert f + [] == f;
      return;
    }
    var piece := TornSplit(c, w.xs, w.cut);
    var xs := w.xs[..n];
    var whole := f + Marshalled(c, xs);
    assert f + Torn(c, w) == whole + piece;
    TailOfPiece(whole, piece);
    if n == 0 {
      assert whole == f;
    } else {
      ParseMarshal(c, xs);
      assert Fresh(whole);
      assert Body(whole) == whole;
      ParseGlued(c, f, xs);
      assert xs[1..] == w.xs[1..n];
    }
  }

  /** Whatever the cuts, a reader of the journal finds every record whose line
      is whole and began on a fresh line, in the order they were written. */
  lemma {:induction false} CertainSurvive<T(!new)>(c: Lines<T>, run: seq<Write<T>>)
    requires c.Lawful()
    ensures Within(Certain(c, run), Parsed(c, Body(Content(c, run))))
  {
    if run == [] {
      OneLine(c, []);
      assert Picks([], Certain(c, run), Parsed(c, Body(Content(c, run))));
    } else {
      var w, before := run[|run| - 1], run[..|run| - 1];
      var f := Content(c, before);
      var n := WholeLines(c, w.xs, w.cut);
      CertainSurvive(c, before);
      SettledStep(c, f, w);
      var seen := Parsed(c, Body(f));
      if n == 0 {
        assert ReadBackAll(c, w.xs[..0]) == [];
        assert Certain(c, run) == Certain(c, before) + [] == Certain(c, before);
        assert seen + [] == seen;
        assert Parsed(c, Body(Content(c, run))) == seen;
      } else if Fresh(f) {
        assert [] + c.write(w.xs[0]) == c.write(w.xs[0]);
        assert w.xs[..n][1..] == w.xs[1..n];
        WithinMore(Certain(c, before), seen, [], ReadBackAll(c, w.xs[..n]));
        assert [] + ReadBackAll(c, w.xs[..n]) == ReadBackAll(c, w.xs[..n]);
      } else {
        WithinMore(Certain(c, before), seen, c.read(Tail(f) + c.write(w.xs[0])), ReadBackAll(c, w.xs[1..n]));
      }
    }
  }

  lemma TornRunReads<T(!new)>(c: Lines<T>, run: seq<Write<T>>)
    requires c.Lawful()
    ensures Within(Certain(c, run), Parsed(c, Content(c, run)))
  {
    var f := Content(c, run);
    CertainSurvive(c, run);
    ParseTail(c, f);
    var none: seq<T> := [];
    WithinMore(Certain(c, run), Parsed(c, Body(f)), c.read(Tail(f)), none);
    assert Certain(c, run) + none == Certain(c, run) && c.read(Tail(f)) + none == c.read(Tail(f));
  }

  // ---- what a torn tail costs ----

  /** What follows the last newline of a run's file is made of pieces. */
  /** The tail that one more append leaves: its own piece, behind the tail
      before it when no line of the append is whole. */
  lemma TailAfter<T(!new)>(c: Lines<T>, f: Bytes, xs: seq<T>, cut: nat, before: seq<Bytes>) returns (ps: seq<Bytes>)
    requires c.Lawful() && xs != [] && AllPieces(c, before) && Flat(before) == Tail(f)
    ensures AllPieces(c, ps) && Flat(ps) == Tail(f + Torn(c, Write(xs, cut)))
  {
    var piece := TornSplit(c, xs, cut);
    var lines := xs[..WholeLines(c, xs, cut)];
    var whole := f + Marshalled(c, lines);
    TailOfPiece(whole, piece);
    Assoc(f, Marshalled(c, lines), piece);
    if lines == [] {
      assert whole == f;
      ps := before + [piece];
      assert ps[..|before|] == before;
    } else {
      ParseMarshal(c, lines);
      TailCuts(whole);
      ps := [piece];
      assert ps[..0] == [] && [] + piece == piece;
    }
  }

  lemma {:induction false} TailIsDebris<T(!new)>(c: Lines<T>, run: seq<Write<T>>) returns (ps: seq<Bytes>)
    requires c.Lawful()
    ensures AllPieces(c, ps) && Flat(ps) == Tail(Content(c, run))
  {
    ps := [];
    if run != [] {
      var w, front := run[|run| - 1], run[..|run| - 1];
      ps := TailIsDebris(c, front);
      if w.xs == [] {
        assert Content(c, front) + [] == Content(c, front);
      } else {
        ps := TailAfter(c, Content(c, front), w.xs, w.cut, ps);
      }
    }
  }

  lemma GluedIsLost<T(!new)>(c: Lines<T>, run: seq<Write<T>>, x: T)
    requires c.Lawful() && c.Unglued() && !Fresh(Content(c, run))
    ensures c.read(Tail(Content(c, run)) + c.write(x)) == []
  {
    var ps := TailIsDebris(c, run);
    TailCuts(Content(c, run));
  }

  /** After a torn append the next one loses its first record, and whatever
      the torn tail could still have been read as. */
  lemma TornTailSwallows<T(!new)>(c: Lines<T>, run: seq<Write<T>>, xs: seq<T>)
    requires c.Lawful() && c.Unglued() && !Fresh(Content(c, run)) && xs != []
    ensures Parsed(c, Content(c, run) + Marshalled(c, xs))
         == Parsed(c, Body(Content(c, run))) + ReadBackAll(c, xs[1..])
  {
    ParseGlued(c, Content(c, run), xs);
    GluedIsLost(c, run, xs[0]);
    assert [] + ReadBackAll(c, xs[1..]) == ReadBackAll(c, xs[1..]);
  }

  /** After any run of appends, each cut anywhere, one more adds exactly its
      records when the file ends a line, and only then. */
  lemma RunAppendKeepsIff<T(!new)>(c: Lines<T>, run: seq<Write<T>>, xs: seq<T>)
    requires c.Lawful() && c.Unglued() && xs != [] && |c.read(c.write(xs[0]))| == 1
    ensures Parsed(c, Content(c, run) + Marshalled(c, xs)) == Parsed(c, Content(c, run)) + ReadBackAll(c, xs)
       <==> Fresh(Content(c, run))
  {
    AppendKeepsIff(c, Content(c, run), xs);
    if !Fresh(Content(c, run)) {
      GluedIsLost(c, run, xs[0]);
    }
  }

  /** A reader of the file finds the certain records, in order, and besides
      them at most what the unfinished last line reads as. */
  lemma {:induction false} RunReadsExactly<T(!new)>(c: Lines<T>, run: seq<Write<T>>)
    requires c.Lawful() && c.Unglued()
    ensures Parsed(c, Body(Content(c, run))) == Certain(c, run)
    ensures Parsed(c, Content(c, run)) == Certain(c, run) + c.read(Tail(Content(c, run)))
  {
    ParseTail(c, Content(c, run));
    if run == [] {
      OneLine(c, []);
    } else {
      var w, front := run[|run| - 1], run[..|run| - 1];
      var f := Content(c, front);
      var n := WholeLines(c, w.xs, w.cut);
      RunReadsExactly(c, front);
      SettledStep(c, f, w);
      TailCuts(f);
      if n == 0 {
        assert Certain(c, front) + [] == Certain(c, front);
        assert ReadBackAll(c, w.xs[..0]) == [];
      } else if Fresh(f) {
        assert [] + c.write(w.xs[0]) == c.write(w.xs[0]);
        assert w.xs[..n][1..] == w.xs[1..n];
      } else {
        GluedIsLost(c, front, w.xs[0]);
        assert [] + ReadBackAll(c, w.xs[1..n]) == ReadBackAll(c, w.xs[1..n]);
      }
    }
  }
}
