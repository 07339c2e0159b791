/** The journal as bytes: one line an operation, and a path that is not UTF-8
    carried beside the field that cannot hold it. */
module JournalWire {
  import opened Text
  import opened Utf8
  import opened Journal
  import opened JournalLines

  /** A decoded line: the operation as its fields say it, and path_raw. */
  datatype Wire = Wire(op: Op, pathRaw: Bytes)

  /** A JSON encoder and line decoder, and base64. decode stands for the
      trimming of a line, the skipping of a blank one and the decoding of the
      rest; None is a line that yields nothing. */
  datatype Codec = Codec(encode: Wire -> Bytes, decode: Bytes -> Option<Wire>,
                         armor: Bytes -> Bytes, unarmor: Bytes -> Option<Bytes>)
  {
    ghost predicate Lawful() {
      && (forall w: Wire :: decode(encode(w)) == Some(Carried(w)))
      && (forall w: Wire :: NEWLINE !in encode(w))
      && decode([]) == None
      && (forall raw: Bytes :: unarmor(armor(raw)) == Some(raw) && Valid(armor(raw)))
      && (forall raw: Bytes :: raw != [] ==> armor(raw) != [])
    }

    ghost predicate Begins(piece: Bytes) {
      exists w: Wire :: piece <= encode(w)
    }

    /** Nonempty beginnings of lines with a line after them do not decode. */
    ghost predicate Closed() {
      forall ps: seq<Bytes>, w: Wire | (forall k | 0 <= k < |ps| :: Begins(ps[k])) && Flat(ps) != [] ::
        decode(Flat(ps) + encode(w)) == None
    }
  }

  function CarriedMeta(m: Meta): Meta {
    Meta(Lossy(m.deviceName), Lossy(m.author), Lossy(m.user), Lossy(m.userName),
         Lossy(m.note), Lossy(m.session), m.mtime)
  }

  /** What a JSON round trip makes of the fields of an operation. */
  function CarriedOp(op: Op): Op {
    op.(device := Lossy(op.device), kind := Lossy(op.kind), path := Lossy(op.path), blob := Lossy(op.blob),
        link := Lossy(op.link), meta := CarriedMeta(op.meta))
  }

  function Carried(w: Wire): Wire { Wire(CarriedOp(w.op), Lossy(w.pathRaw)) }

  /** MarshalJSON: path_raw is there only for a path that needs it. */
  function ToWire(c: Codec, op: Op): Wire {
    Wire(op, if Valid(op.path) then [] else c.armor(op.path))
  }

  /** pathRaw.op: path_raw counts only when it is the source of the path. */
  function Resolve(c: Codec, w: Wire): Op {
    if w.pathRaw == [] then w.op
    else match c.unarmor(w.pathRaw)
      case Some(raw) => if Lossy(raw) == w.op.path then w.op.(path := raw) else w.op
      case None => w.op
  }

  /** What a reader gets of a written operation: its path to the byte, and its
      other strings as JSON carries them. */
  function ReadBack(op: Op): Op { CarriedOp(op).(path := op.path) }

  /** A path arrives as it left, whatever bytes it is made of. */
  lemma PathRoundTrip(c: Codec, op: Op)
    requires c.Lawful()
    ensures Resolve(c, Carried(ToWire(c, op))) == ReadBack(op)
  {
    LossyFixesIff(op.path);
    if !Valid(op.path) {
      var a := c.armor(op.path);
      assert c.unarmor(a) == Some(op.path) && Valid(a);
      ValidIsFixed(a);
    }
  }

  /** Whatever a line says in path_raw, a reader that honours it and a reader
      that does not name the same file up to the replacement of bad bytes. */
  lemma ReadersAgree(c: Codec, w: Wire)
    requires Valid(w.op.path)
    ensures Lossy(Resolve(c, w).path) == w.op.path
    ensures Resolve(c, w).(path := w.op.path) == w.op
  {
    ValidIsFixed(w.op.path);
  }

  // ---- the journal file ----

  predicate IsOp(op: Op) { op.kind == PUT || op.kind == DELETE }

  /** The operation a line yields, if any. */
  function LineOps(c: Codec, line: Bytes): seq<Op> {
    match c.decode(line)
    case None => []
    case Some(w) =>
      var op := Resolve(c, w);
      if IsOp(op) then [op] else []
  }

  function LinesOf(c: Codec): Lines<Op> {
    Lines(op => c.encode(ToWire(c, op)), line => LineOps(c, line))
  }

  /** A line yields its one operation when it decodes to a put or a delete,
      and otherwise nothing. */
  lemma LineYields(c: Codec, line: Bytes)
    ensures LineOps(c, line)
         == match c.decode(line)
            case None => []
            case Some(w) => if w.op.kind == PUT || w.op.kind == DELETE then [Resolve(c, w)] else []
  {
  }

  method Parse(c: Codec, data: Bytes) returns (ops: seq<Op>)
    ensures ops == Parsed(LinesOf(c), data)
  {
    ops := [];
    var lines := SplitOn(data, NEWLINE);
    for i := 0 to |lines|
      invariant ops == ParseLines(LinesOf(c), lines[..i])
    {
      assert lines[..i + 1][..i] == lines[..i];
      var w := c.decode(lines[i]);
      if w.Some? {
        var op := Resolve(c, w.value);
        if IsOp(op) {
          ops := ops + [op];
        }
      }
    }
    assert lines[..|lines|] == lines;
  }

  method Marshal(c: Codec, ops: seq<Op>) returns (data: Bytes)
    ensures data == Marshalled(LinesOf(c), ops)
  {
    data := [];
    for i := 0 to |ops|
      invariant data + Marshalled(LinesOf(c), ops[i..]) == Marshalled(LinesOf(c), ops)
    {
      data := data + c.encode(ToWire(c, ops[i]));
      data := data + [NEWLINE];
    }
  }

  class JournalFile {
    var data: Bytes

    constructor ()
      ensures data == []
    {
      data := [];
    }

    /** Append, of which a crash or a full disk lets only cut bytes through. */
    method Append(c: Codec, ops: seq<Op>, cut: nat)
      modifies this
      ensures data == old(data) + Torn(LinesOf(c), Write(ops, cut))
    {
      if |ops| == 0 {
        return;
      }
      var bytes := Marshal(c, ops);
      data := data + bytes[..if cut < |bytes| then cut else |bytes|];
    }
  }

  /** A written put or delete reads back as itself. */
  lemma KindIsFixed(op: Op)
    requires op.kind == PUT || op.kind == DELETE
    ensures Lossy(op.kind) == op.kind
  {
    AsciiValid(op.kind);
    ValidIsFixed(op.kind);
  }

  lemma WrittenLine(c: Codec, op: Op)
    requires c.Lawful() && (op.kind == PUT || op.kind == DELETE)
    ensures LinesOf(c).read(LinesOf(c).write(op)) == [ReadBack(op)]
  {
    PathRoundTrip(c, op);
    KindIsFixed(op);
    var w := ToWire(c, op);
    assert c.decode(c.encode(w)) == Some(Carried(w));
  }

  lemma LinesLawful(c: Codec)
    requires c.Lawful()
    ensures LinesOf(c).Lawful()
  {
    forall op: Op ensures NEWLINE !in LinesOf(c).write(op) {
      assert LinesOf(c).write(op) == c.encode(ToWire(c, op));
    }
  }

  /** What is UTF-8 is read back unchanged. */
  lemma PlainReadsBack(op: Op)
    requires Valid(op.device) && Valid(op.kind) && Valid(op.blob) && Valid(op.link)
    requires var m := op.meta; Valid(m.deviceName) && Valid(m.author) && Valid(m.user)
    requires var m := op.meta; Valid(m.userName) && Valid(m.note) && Valid(m.session)
    ensures ReadBack(op) == op
  {
    ValidIsFixed(op.device);
    ValidIsFixed(op.kind);
    ValidIsFixed(op.blob);
    ValidIsFixed(op.link);
    ValidIsFixed(op.meta.deviceName);
    ValidIsFixed(op.meta.author);
    ValidIsFixed(op.meta.user);
    ValidIsFixed(op.meta.userName);
    ValidIsFixed(op.meta.note);
    ValidIsFixed(op.meta.session);
  }

  function ReadBacks(ops: seq<Op>): seq<Op> {
    seq(|ops|, k requires 0 <= k < |ops| => ReadBack(ops[k]))
  }

  lemma ReadBackOps(c: Codec, ops: seq<Op>)
    requires c.Lawful() && forall op | op in ops :: op.kind == PUT || op.kind == DELETE
    ensures ReadBackAll(LinesOf(c), ops) == ReadBacks(ops)
  {
    forall k | 0 <= k < |ops| ensures LinesOf(c).read(LinesOf(c).write(ops[k])) == [ReadBacks(ops)[k]] {
      assert ops[k] in ops;
      WrittenLine(c, ops[k]);
    }
    ReadBackAllIs(LinesOf(c), ops, ReadBacks(ops));
  }

  /** Appending to a journal that ends its last line adds exactly the ops
      written, each path to the byte; and the file ends a line again. */
  lemma JournalRoundTrip(c: Codec, f: Bytes, ops: seq<Op>)
    requires c.Lawful() && Fresh(f) && forall op | op in ops :: op.kind == PUT || op.kind == DELETE
    ensures Parsed(LinesOf(c), f + Marshalled(LinesOf(c), ops)) == Parsed(LinesOf(c), f) + ReadBacks(ops)
    ensures Fresh(f + Marshalled(LinesOf(c), ops))
  {
    LinesLawful(c);
    ParseFresh(LinesOf(c), f, Marshalled(LinesOf(c), ops));
    ParseMarshal(LinesOf(c), ops);
    ReadBackOps(c, ops);
    var data := Marshalled(LinesOf(c), ops);
    if data == [] {
      assert f + data == f;
    }
  }

  // ---- torn appends ----

  lemma LinesUnglued(c: Codec)
    requires c.Closed()
    ensures LinesOf(c).Unglued()
  {
    forall ps: seq<Bytes>, op: Op | AllPieces(LinesOf(c), ps) && Flat(ps) != []
      ensures LinesOf(c).read(Flat(ps) + LinesOf(c).write(op)) == []
    {
      forall k | 0 <= k < |ps| ensures c.Begins(ps[k]) {
        assert IsPiece(LinesOf(c), ps[k]);
        var x: Op :| ps[k] <= LinesOf(c).write(x);
        assert ps[k] <= c.encode(ToWire(c, x));
      }
      assert c.decode(Flat(ps) + c.encode(ToWire(c, op))) == None;
    }
  }

  /** A journal after any run of appends, each cut anywhere: one more append
      adds exactly its operations when the file ends a line, and only then;
      otherwise its first operation is lost. */
  lemma TornJournal(c: Codec, run: seq<Write<Op>>, ops: seq<Op>)
    requires c.Lawful() && c.Closed() && ops != [] && forall op | op in ops :: op.kind == PUT || op.kind == DELETE
    ensures var f, data := Content(LinesOf(c), run), Marshalled(LinesOf(c), ops);
            && (Parsed(LinesOf(c), f + data) == Parsed(LinesOf(c), f) + ReadBacks(ops) <==> Fresh(f))
            && (!Fresh(f) ==> Parsed(LinesOf(c), f + data) == Parsed(LinesOf(c), Body(f)) + ReadBacks(ops[1..]))
  {
    LinesLawful(c);
    LinesUnglued(c);
    ReadBackOps(c, ops);
    ReadBackOps(c, ops[1..]);
    WrittenLine(c, ops[0]);
    RunAppendKeepsIff(LinesOf(c), run, ops);
    if !Fresh(Content(LinesOf(c), run)) {
      TornTailSwallows(LinesOf(c), run, ops);
    }
  }

  /** Over any run of appends, each cut anywhere, a reader finds in order
      exactly the operations whose line is whole and began on a fresh line,
      and besides them at most what the unfinished last line reads as. */
  lemma TornRun(c: Codec, run: seq<Write<Op>>)
    requires c.Lawful() && c.Closed()
    ensures Parsed(LinesOf(c), Content(LinesOf(c), run))
         == Certain(LinesOf(c), run) + LineOps(c, Tail(Content(LinesOf(c), run)))
  {
    LinesLawful(c);
    LinesUnglued(c);
    RunReadsExactly(LinesOf(c), run);
  }

  const MARK: Op := Op(0, 0, 0, [], PUT, [], [], 0, 0, [], Meta([], [], [], [], [], [], 0))

  /** There is such a file: one append that one byte of got through. */
  lemma OneByteTears(c: Codec)
    requires c.Lawful()
    ensures !Fresh(Content(LinesOf(c), [Write([MARK], 1)]))
  {
    var lines := LinesOf(c);
    var run := [Write([MARK], 1)];
    LinesLawful(c);
    WrittenLine(c, MARK);
    assert lines.write(MARK) != [] by {
      assert lines.read([]) == [];
    }
    assert run[..0] == [] && NEWLINE !in lines.write(MARK);
    assert Content(lines, run) == [] + Torn(lines, run[0]) == [lines.write(MARK)[0]];
  }
}
