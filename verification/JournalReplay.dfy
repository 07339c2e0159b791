/** From the bytes of a journal to the state: what one more append shows to
    every device that replays it. */
module JournalReplay {
  import opened Text
  import opened Utf8
  import opened Journal
  import opened JournalLines
  import opened JournalWire
  import opened Replay

  /** The operations of a journal after one more append. */
  function Reads(c: Codec, f: Bytes, op: Op): seq<Op> {
    Parsed(LinesOf(c), f + Marshalled(LinesOf(c), [op]))
  }

  lemma ReadsOneMore(c: Codec, f: Bytes, op: Op)
    requires c.Lawful() && Fresh(f) && (op.kind == PUT || op.kind == DELETE)
    ensures Reads(c, f, op) == Parsed(LinesOf(c), f) + [ReadBack(op)]
  {
    JournalRoundTrip(c, f, [op]);
    assert ReadBacks([op]) == [ReadBack(op)];
  }

  lemma SameWrite(op: Op)
    requires op.kind == PUT || op.kind == DELETE
    ensures ReadBack(op).path == op.path && ReadBack(op).kind == op.kind && ReadBack(op).lamport == op.lamport
  {
    KindIsFixed(op);
  }

  /** The Lamport clock of op is above that of every put or delete of its path
      that the journal holds. */
  ghost predicate Newest(ops: seq<Op>, op: Op) {
    forall o | o in ops && o.path == op.path && (o.kind == PUT || o.kind == DELETE) :: o.lamport < op.lamport
  }

  lemma NewestOutranks(c: Codec, f: Bytes, op: Op)
    requires c.Lawful() && Fresh(f) && (op.kind == PUT || op.kind == DELETE)
    requires Newest(Parsed(LinesOf(c), f), op)
    ensures Outranks(Reads(c, f, op), ReadBack(op))
  {
    ReadsOneMore(c, f, op);
    SameWrite(op);
    var ops := Parsed(LinesOf(c), f);
    assert forall o | o in ops + [ReadBack(op)] :: o in ops || o == ReadBack(op);
    assert (ops + [ReadBack(op)])[|ops|] == ReadBack(op);
  }

  /** A delete appended to a journal that ends its last line takes its path,
      whatever bytes that is made of, out of the replayed state, if it was made
      after seeing all that is written of the path. */
  lemma AppendedDeleteHides(c: Codec, f: Bytes, op: Op)
    requires c.Lawful() && Fresh(f) && op.kind == DELETE && Newest(Parsed(LinesOf(c), f), op)
    ensures op.path !in Fold(Sorted(Reads(c, f, op)))
  {
    SameWrite(op);
    NewestOutranks(c, f, op);
    HighestClockWins(Reads(c, f, op), ReadBack(op));
  }

  /** And such a put shows what it put. */
  lemma AppendedPutShows(c: Codec, f: Bytes, op: Op)
    requires c.Lawful() && Fresh(f) && op.kind == PUT && Newest(Parsed(LinesOf(c), f), op)
    requires Valid(op.blob) && Valid(op.link)
    ensures var state := Fold(Sorted(Reads(c, f, op)));
            op.path in state && state[op.path] == FileState(op.blob, op.size, op.mode, op.link)
  {
    SameWrite(op);
    NewestOutranks(c, f, op);
    HighestClockWins(Reads(c, f, op), ReadBack(op));
    ValidIsFixed(op.blob);
    ValidIsFixed(op.link);
  }
}
