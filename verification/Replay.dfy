/** Sorting operations and folding them into the state of a volume. */
module Replay {
  import opened Text
  import opened Journal

  // ---- the stable sort ----

  /** x goes in after every op it is not below. */
  function Insert(s: seq<Op>, x: Op): (r: seq<Op>)
    ensures |r| == |s| + 1
  {
    if s == [] || !Less(x, s[|s| - 1]) then s + [x]
    else Insert(s[..|s| - 1], x) + [s[|s| - 1]]
  }

  function Sorted(ops: seq<Op>): (r: seq<Op>)
    ensures |r| == |ops|
  {
    if ops == [] then [] else Insert(Sorted(ops[..|ops| - 1]), ops[|ops| - 1])
  }

  ghost predicate InOrder(s: seq<Op>) {
    forall i, j | 0 <= i < j < |s| :: !Less(s[j], s[i])
  }

  /** The ops that tie with x, in the order they stand in. */
  function TiesWith(s: seq<Op>, x: Op): seq<Op> {
    if s == [] then []
    else TiesWith(s[..|s| - 1], x) + (if Tied(s[|s| - 1], x) then [s[|s| - 1]] else [])
  }

  lemma {:induction false} InsertInOrder(s: seq<Op>, x: Op)
    requires InOrder(s)
    ensures InOrder(Insert(s, x))
    ensures multiset(Insert(s, x)) == multiset(s) + multiset{x}
  {
    if s != [] {
      var front, last := s[..|s| - 1], s[|s| - 1];
      assert s == front + [last];
      var r := Insert(s, x);
      if Less(x, last) {
        InsertInOrder(front, x);
        LessAsymmetric(x, last);
        forall i | 0 <= i < |front| + 1 ensures !Less(last, r[i]) {
          assert r[i] in multiset(Insert(front, x));
          assert r[i] == x || r[i] in front;
        }
      } else {
        forall i | 0 <= i < |s| ensures !Less(x, s[i]) {
          if Less(x, s[i]) {
            LessSplits(x, s[i], last);
          }
        }
      }
    }
  }

  lemma {:induction false} InsertStable(s: seq<Op>, x: Op, y: Op)
    ensures TiesWith(Insert(s, x), y) == TiesWith(s + [x], y)
  {
    assert (s + [x])[..|s|] == s;
    if s != [] && Less(x, s[|s| - 1]) {
      var front, last := s[..|s| - 1], s[|s| - 1];
      InsertStable(front, x, y);
      assert (front + [x])[..|front|] == front;
      assert Insert(s, x)[..|s|] == Insert(front, x);
      if Tied(last, y) {
        TiedAgree(last, y);
        TiedAgree(x, y);
        TiedAgree(x, last);
      }
    }
  }

  /** The sort orders the ops, loses and invents none, and leaves ties in the
      order they came in. */
  lemma {:induction false} SortedIsStableSort(ops: seq<Op>, y: Op)
    ensures InOrder(Sorted(ops)) && multiset(Sorted(ops)) == multiset(ops)
    ensures TiesWith(Sorted(ops), y) == TiesWith(ops, y)
  {
    if ops != [] {
      var front, x := ops[..|ops| - 1], ops[|ops| - 1];
      assert ops == front + [x];
      SortedIsStableSort(front, y);
      InsertInOrder(Sorted(front), x);
      InsertStable(Sorted(front), x, y);
      assert (Sorted(front) + [x])[..|front|] == Sorted(front);
    }
  }

  lemma {:induction false} InsertMiddle(left: seq<Op>, right: seq<Op>, x: Op)
    requires forall k | 0 <= k < |right| :: Less(x, right[k])
    ensures Insert(left + right, x) == Insert(left, x) + right
  {
    if right == [] {
      assert left + right == left;
    } else {
      var n := |right| - 1;
      assert (left + right)[..|left + right| - 1] == left + right[..n];
      InsertMiddle(left, right[..n], x);
      assert right == right[..n] + [right[n]];
    }
  }

  method Sort(ops: array<Op>)
    modifies ops
    ensures ops[..] == Sorted(old(ops[..]))
  {
    ghost var was := ops[..];
    for i := 0 to ops.Length
      invariant ops[..i] == Sorted(was[..i]) && ops[i..] == was[i..]
    {
      assert was[..i + 1][..i] == was[..i] && ops[i] == ops[i..][0];
      assert ops[i + 1..] == ops[i..][1..] == was[i + 1..];
      SinkInto(ops, i);
    }
    assert was[..ops.Length] == was && ops[..ops.Length] == ops[..];
  }

  lemma InsertAt(was: seq<Op>, n: nat, j: nat)
    requires j <= n < |was| && forall k | j <= k < n :: Less(was[n], was[k])
    requires j > 0 ==> !Less(was[n], was[j - 1])
    ensures Insert(was[..n], was[n]) == was[..j] + [was[n]] + was[j..n]
  {
    assert was[..n] == was[..j] + was[j..n];
    InsertMiddle(was[..j], was[j..n], was[n]);
  }

  lemma SunkPrefix(was: seq<Op>, n: nat, j: nat, now: seq<Op>)
    requires j <= n < |was| && now == was[..j] + [was[n]] + was[j..n] + was[n + 1..]
    ensures now[..n + 1] == was[..j] + [was[n]] + was[j..n] && now[n + 1..] == was[n + 1..]
  {
  }

  /** Moves the op at n down to its place among the ops before it. */
  method SinkInto(ops: array<Op>, n: nat)
    requires n < ops.Length
    modifies ops
    ensures ops[..n + 1] == Insert(old(ops[..n]), old(ops[n]))
    ensures ops[n + 1..] == old(ops[n + 1..])
  {
    ghost var was := ops[..];
    var j := n;
    while j > 0 && Less(ops[j], ops[j - 1])
      invariant 0 <= j <= n
      invariant ops[..] == was[..j] + [was[n]] + was[j..n] + was[n + 1..]
      invariant forall k | j <= k < n :: Less(was[n], was[k])
    {
      ops[j], ops[j - 1] := ops[j - 1], ops[j];
      j := j - 1;
    }
    InsertAt(was, n, j);
    SunkPrefix(was, n, j, ops[..]);
  }

  // ---- the fold ----

  function StateOf(op: Op): FileState { FileState(op.blob, op.size, op.mode, op.link) }

  function Apply(state: map<Bytes, FileState>, op: Op): map<Bytes, FileState> {
    if op.kind == PUT then state[op.path := StateOf(op)]
    else if op.kind == DELETE then state - {op.path}
    else state
  }

  function Fold(ops: seq<Op>): map<Bytes, FileState> {
    if ops == [] then map[] else Apply(Fold(ops[..|ops| - 1]), ops[|ops| - 1])
  }

  // ---- the reference: one pass, one winner a path ----

  predicate Writes(op: Op, path: Bytes) {
    op.path == path && (op.kind == PUT || op.kind == DELETE)
  }

  /** Of two writers the greater wins, and of tied ones the later. */
  function LastWriter(ops: seq<Op>, path: Bytes): (w: Option<Op>)
    ensures w.Some? ==> Writes(w.value, path)
  {
    if ops == [] then None
    else
      var front, x := LastWriter(ops[..|ops| - 1], path), ops[|ops| - 1];
      if !Writes(x, path) || (front.Some? && Less(x, front.value)) then front else Some(x)
  }

  /** The last op of a list that writes a path. */
  function FinalWriter(ops: seq<Op>, path: Bytes): Option<Op> {
    if ops == [] then None
    else if Writes(ops[|ops| - 1], path) then Some(ops[|ops| - 1])
    else FinalWriter(ops[..|ops| - 1], path)
  }

  ghost predicate Shows(state: map<Bytes, FileState>, path: Bytes, w: Option<Op>) {
    if w.Some? && w.value.kind == PUT then path in state && state[path] == StateOf(w.value) else path !in state
  }

  lemma {:induction false} FoldFinalWriter(ops: seq<Op>, path: Bytes)
    ensures Shows(Fold(ops), path, FinalWriter(ops, path))
  {
    if ops != [] {
      FoldFinalWriter(ops[..|ops| - 1], path);
    }
  }

  lemma {:induction false} InsertWriter(s: seq<Op>, x: Op, path: Bytes)
    requires InOrder(s)
    ensures var y := FinalWriter(s, path);
            FinalWriter(Insert(s, x), path)
              == if !Writes(x, path) || (y.Some? && Less(x, y.value)) then y else Some(x)
  {
    if s != [] {
      var front, last := s[..|s| - 1], s[|s| - 1];
      assert s == front + [last];
      if Less(x, last) {
        InsertWriter(front, x, path);
        assert Insert(s, x)[..|s|] == Insert(front, x);
      } else {
        assert (s + [x])[..|s|] == s;
        var y := FinalWriter(s, path);
        if y.Some? && Less(x, y.value) {
          FinalWriterIn(s, path);
          LessSplits(x, y.value, last);
        }
      }
    }
  }

  lemma {:induction false} FinalWriterIn(s: seq<Op>, path: Bytes)
    ensures var y := FinalWriter(s, path); y.Some? ==> exists k :: 0 <= k < |s| && s[k] == y.value
  {
    if s != [] && !Writes(s[|s| - 1], path) {
      FinalWriterIn(s[..|s| - 1], path);
    }
  }

  lemma {:induction false} SortedWriter(ops: seq<Op>, path: Bytes)
    ensures FinalWriter(Sorted(ops), path) == LastWriter(ops, path)
  {
    if ops != [] {
      var front := ops[..|ops| - 1];
      SortedWriter(front, path);
      SortedIsStableSort(front, ops[|ops| - 1]);
      InsertWriter(Sorted(front), ops[|ops| - 1], path);
    }
  }

  /** Sorting and folding shows at every path the last writer of that path. */
  lemma ReplayShowsLastWriter(ops: seq<Op>, path: Bytes)
    ensures Shows(Fold(Sorted(ops)), path, LastWriter(ops, path))
  {
    FoldFinalWriter(Sorted(ops), path);
    SortedWriter(ops, path);
  }

  // ---- convergence ----

  /** a writes its path, and no writer of that path is above it. */
  ghost predicate Greatest(ops: seq<Op>, a: Op) {
    a in ops && Writes(a, a.path) && forall c | c in ops && Writes(c, a.path) :: !Less(a, c)
  }

  lemma {:induction false} LastWriterGreatest(ops: seq<Op>, path: Bytes)
    ensures var w := LastWriter(ops, path);
            && (w.Some? ==> Greatest(ops, w.value))
            && (w.None? ==> forall c | c in ops :: !Writes(c, path))
  {
    if ops != [] {
      var front, x := ops[..|ops| - 1], ops[|ops| - 1];
      assert ops == front + [x];
      LastWriterGreatest(front, path);
      var y := LastWriter(front, path);
      if Writes(x, path) && y.Some? {
        LessAsymmetric(x, y.value);
        forall c | c in front && Writes(c, path) ensures !Less(x, y.value) ==> !Less(x, c) {
          if Less(x, c) {
            LessSplits(x, c, y.value);
          }
        }
      }
    }
  }

  // ---- what replay shows, in terms of the operations alone ----

  /** op is in the list and its Lamport clock is above that of every other op
      that puts or deletes its path. */
  ghost predicate Outranks(ops: seq<Op>, op: Op) {
    && op in ops
    && forall o | o in ops && o.path == op.path && (o.kind == PUT || o.kind == DELETE) && o != op ::
         o.lamport < op.lamport
  }

  /** Whatever the clocks on the wall say, the put with the highest Lamport
      clock of its path is what replay shows there, and after such a delete
      there is nothing. */
  lemma HighestClockWins(ops: seq<Op>, op: Op)
    requires Outranks(ops, op) && (op.kind == PUT || op.kind == DELETE)
    ensures var state := Fold(Sorted(ops));
            if op.kind == PUT then
              op.path in state && state[op.path] == FileState(op.blob, op.size, op.mode, op.link)
            else op.path !in state
  {
    ReplayShowsLastWriter(ops, op.path);
    LastWriterGreatest(ops, op.path);
    assert Writes(op, op.path);
    forall o | o in ops && Writes(o, op.path) && o != op ensures Less(o, op) {
      LamportDecides(o, op);
    }
  }

  /** Replay shows no path that no operation put. */
  lemma NothingElseShows(ops: seq<Op>, path: Bytes)
    requires path in Fold(Sorted(ops))
    ensures exists op :: op in ops && op.kind == PUT && op.path == path
  {
    ReplayShowsLastWriter(ops, path);
    LastWriterGreatest(ops, path);
  }

  method Replay(ops: seq<Op>) returns (state: map<Bytes, FileState>)
    ensures state == Fold(Sorted(ops))
    ensures forall op | Outranks(ops, op) && op.kind == PUT ::
              op.path in state && state[op.path] == FileState(op.blob, op.size, op.mode, op.link)
    ensures forall op | Outranks(ops, op) && op.kind == DELETE :: op.path !in state
    ensures forall path | path in state :: exists op :: op in ops && op.kind == PUT && op.path == path
  {
    var sorted := new Op[|ops|](i requires 0 <= i < |ops| => ops[i]);
    assert sorted[..] == ops;
    Sort(sorted);
    state := map[];
    for i := 0 to sorted.Length
      invariant sorted[..] == Sorted(ops)
      invariant state == Fold(sorted[..i])
    {
      assert sorted[..i + 1][..i] == sorted[..i];
      var op := sorted[i];
      if op.kind == PUT {
        state := state[op.path := FileState(op.blob, op.size, op.mode, op.link)];
      } else if op.kind == DELETE {
        state := state - {op.path};
      }
    }
    assert sorted[..sorted.Length] == sorted[..];
    forall op | Outranks(ops, op) && (op.kind == PUT || op.kind == DELETE)
      ensures if op.kind == PUT then op.path in state && state[op.path] == FileState(op.blob, op.size, op.mode, op.link)
              else op.path !in state
    {
      HighestClockWins(ops, op);
    }
    forall path | path in state ensures exists op :: op in ops && op.kind == PUT && op.path == path {
      NothingElseShows(ops, path);
    }
  }

  /** Winning puts of one path that tie point at the same link target: the one
      thing Less does not read. */
  ghost predicate WinnersAgree(ops: seq<Op>) {
    forall a, b | Greatest(ops, a) && Greatest(ops, b) && a.path == b.path && a.kind == PUT :: a.link == b.link
  }

  lemma SameWinner(a: seq<Op>, b: seq<Op>, path: Bytes)
    requires WinnersAgree(a) && forall op :: op in a <==> op in b
    ensures var x, y := LastWriter(a, path), LastWriter(b, path);
            && (x.Some? <==> y.Some?)
            && (x.Some? ==> x.value.kind == y.value.kind)
            && (x.Some? && x.value.kind == PUT ==> StateOf(x.value) == StateOf(y.value))
  {
    LastWriterGreatest(a, path);
    LastWriterGreatest(b, path);
    var x, y := LastWriter(a, path), LastWriter(b, path);
    if x.Some? && y.Some? {
      assert Greatest(a, y.value);
      TiedAgree(x.value, y.value);
    }
  }

  /** Convergence: devices that hold the same operations, in any order and any
      number of times, replay to the same state. */
  lemma Convergence(a: seq<Op>, b: seq<Op>)
    requires WinnersAgree(a) && forall op :: op in a <==> op in b
    ensures Fold(Sorted(a)) == Fold(Sorted(b))
  {
    var x, y := Fold(Sorted(a)), Fold(Sorted(b));
    forall path: Bytes ensures (path in x <==> path in y) && (path in x ==> x[path] == y[path]) {
      ReplayShowsLastWriter(a, path);
      ReplayShowsLastWriter(b, path);
      SameWinner(a, b, path);
    }
  }

  lemma {:induction false} RemoveOne(ops: seq<Op>, a: Op) returns (rest: seq<Op>)
    requires a in ops
    ensures multiset(rest + [a]) == multiset(ops)
  {
    var front, last := ops[..|ops| - 1], ops[|ops| - 1];
    assert ops == front + [last];
    if last == a {
      rest := front;
    } else {
      var r := RemoveOne(front, a);
      rest := r + [last];
      assert multiset(rest + [a]) == multiset(r + [a]) + multiset{last};
    }
  }

  /** A greatest writer put last wins. */
  lemma ReorderedWinner(ops: seq<Op>, a: Op) returns (other: seq<Op>)
    requires Greatest(ops, a) && a.kind == PUT
    ensures multiset(other) == multiset(ops)
    ensures a.path in Fold(Sorted(other)) && Fold(Sorted(other))[a.path] == StateOf(a)
  {
    var rest := RemoveOne(ops, a);
    other := rest + [a];
    assert other[..|rest|] == rest;
    LastWriterGreatest(rest, a.path);
    var y := LastWriter(rest, a.path);
    if y.Some? {
      assert y.value in multiset(other);
      assert y.value in ops;
    }
    ReplayShowsLastWriter(other, a.path);
  }

  /** The order of collection never shows exactly when the winners agree. */
  lemma ConvergenceIff(ops: seq<Op>)
    ensures WinnersAgree(ops)
       <==> forall other: seq<Op> | multiset(other) == multiset(ops) :: Fold(Sorted(other)) == Fold(Sorted(ops))
  {
    if WinnersAgree(ops) {
      forall other: seq<Op> | multiset(other) == multiset(ops) ensures Fold(Sorted(other)) == Fold(Sorted(ops)) {
        forall op ensures op in ops <==> op in other {
          assert op in multiset(ops) <==> op in multiset(other);
        }
        Convergence(ops, other);
      }
    } else {
      var a, b :| Greatest(ops, a) && Greatest(ops, b) && a.path == b.path && a.kind == PUT && a.link != b.link;
      TiedAgree(a, b);
      var x := ReorderedWinner(ops, a);
      var y := ReorderedWinner(ops, b);
    }
  }
}
