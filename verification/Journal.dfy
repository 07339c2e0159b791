/** The operation log: the order of operations, and the state they replay to. */
module Journal {
  import opened Text

  const PUT: Bytes := [112, 117, 116]
  const DELETE: Bytes := [100, 101, 108, 101, 116, 101]

  /** What an operation carries for display only. */
  datatype Meta = Meta(deviceName: Bytes, author: Bytes, user: Bytes, userName: Bytes,
                       note: Bytes, session: Bytes, mtime: int)

  /** num is the per-device sequence number; time is an instant. */
  datatype Op = Op(num: int, lamport: int, time: int, device: Bytes, kind: Bytes, path: Bytes,
                   blob: Bytes, size: int, mode: int, link: Bytes, meta: Meta)

  datatype FileState = FileState(blob: Bytes, size: int, mode: int, link: Bytes)

  // ---- the order ----

  /** The order of strings by their bytes. */
  predicate BytesLess(a: Bytes, b: Bytes) {
    if b == [] then false
    else if a == [] then true
    else if a[0] != b[0] then a[0] < b[0]
    else BytesLess(a[1..], b[1..])
  }

  predicate Less(a: Op, b: Op) {
    if a.lamport != b.lamport then a.lamport < b.lamport
    else if a.time != b.time then a.time < b.time
    else if a.device != b.device then BytesLess(a.device, b.device)
    else if a.num != b.num then a.num < b.num
    else if a.kind != b.kind then BytesLess(a.kind, b.kind)
    else if a.path != b.path then BytesLess(a.path, b.path)
    else if a.blob != b.blob then BytesLess(a.blob, b.blob)
    else if a.size != b.size then a.size < b.size
    else a.mode < b.mode
  }

  predicate Tied(a: Op, b: Op) { !Less(a, b) && !Less(b, a) }

  lemma {:induction false} BytesLessTotal(a: Bytes, b: Bytes)
    ensures a == b ==> !BytesLess(a, b)
    ensures a != b ==> (BytesLess(a, b) <==> !BytesLess(b, a))
  {
    if a != [] && b != [] {
      BytesLessTotal(a[1..], b[1..]);
      assert a == [a[0]] + a[1..] && b == [b[0]] + b[1..];
    }
  }

  lemma {:induction false} BytesLessTrans(a: Bytes, b: Bytes, c: Bytes)
    requires BytesLess(a, b) && BytesLess(b, c)
    ensures BytesLess(a, c)
  {
    if a != [] && a[0] == b[0] == c[0] {
      BytesLessTrans(a[1..], b[1..], c[1..]);
    }
  }

  lemma StringsTotal(a: Op, b: Op)
    ensures a.device == b.device || (BytesLess(a.device, b.device) <==> !BytesLess(b.device, a.device))
    ensures a.kind == b.kind || (BytesLess(a.kind, b.kind) <==> !BytesLess(b.kind, a.kind))
    ensures a.path == b.path || (BytesLess(a.path, b.path) <==> !BytesLess(b.path, a.path))
    ensures a.blob == b.blob || (BytesLess(a.blob, b.blob) <==> !BytesLess(b.blob, a.blob))
  {
    BytesLessTotal(a.device, b.device);
    BytesLessTotal(a.kind, b.kind);
    BytesLessTotal(a.path, b.path);
    BytesLessTotal(a.blob, b.blob);
  }

  /** Ops tie only when everything Less reads agrees. That leaves out the link. */
  lemma TiedAgree(a: Op, b: Op)
    ensures Tied(a, b) <==>
            && a.lamport == b.lamport && a.time == b.time && a.device == b.device && a.num == b.num
            && a.kind == b.kind && a.path == b.path && a.blob == b.blob && a.size == b.size && a.mode == b.mode
  {
    StringsTotal(a, b);
  }

  lemma LessAsymmetric(a: Op, b: Op)
    ensures !(Less(a, b) && Less(b, a))
  {
    StringsTotal(a, b);
  }

  lemma LessTrans(a: Op, b: Op, c: Op)
    requires Less(a, b) && Less(b, c)
    ensures Less(a, c)
  {
    StringsTotal(a, b);
    StringsTotal(b, c);
    if a.device != b.device && b.device != c.device && BytesLess(a.device, b.device) && BytesLess(b.device, c.device) {
      BytesLessTrans(a.device, b.device, c.device);
      BytesLessTotal(a.device, c.device);
    }
    if BytesLess(a.kind, b.kind) && BytesLess(b.kind, c.kind) {
      BytesLessTrans(a.kind, b.kind, c.kind);
      BytesLessTotal(a.kind, c.kind);
    }
    if BytesLess(a.path, b.path) && BytesLess(b.path, c.path) {
      BytesLessTrans(a.path, b.path, c.path);
      BytesLessTotal(a.path, c.path);
    }
    if BytesLess(a.blob, b.blob) && BytesLess(b.blob, c.blob) {
      BytesLessTrans(a.blob, b.blob, c.blob);
      BytesLessTotal(a.blob, c.blob);
    }
  }

  // ---- the order, independently ----

  /** Two strings part at k: the first ends there or has the smaller byte. */
  predicate PartsAt(a: Bytes, b: Bytes, k: nat) {
    k <= |a| && k < |b| && a[..k] == b[..k] && (k == |a| || a[k] < b[k])
  }

  /** A proper prefix is below; otherwise the first differing byte decides. */
  ghost predicate Below(a: Bytes, b: Bytes) {
    exists k: nat :: PartsAt(a, b, k)
  }

  lemma PartsLater(a: Bytes, b: Bytes, k: nat)
    requires a != [] && b != [] && a[0] == b[0]
    ensures PartsAt(a[1..], b[1..], k) <==> PartsAt(a, b, k + 1)
  {
    if k + 1 <= |a| && k + 1 < |b| {
      assert a[..k + 1] == [a[0]] + a[1..][..k] && b[..k + 1] == [b[0]] + b[1..][..k];
    }
  }

  lemma PartsAtHead(a: Bytes, b: Bytes, k: nat)
    requires a != [] && b != [] && a[0] != b[0] && PartsAt(a, b, k)
    ensures k == 0 && a[0] < b[0]
  {
  }

  lemma {:induction false} BytesLessIff(a: Bytes, b: Bytes)
    ensures BytesLess(a, b) <==> Below(a, b)
  {
    if a != [] && b != [] && a[0] == b[0] {
      BytesLessIff(a[1..], b[1..]);
      if Below(a[1..], b[1..]) {
        var k: nat :| PartsAt(a[1..], b[1..], k);
        PartsLater(a, b, k);
      }
      if Below(a, b) {
        var k: nat :| PartsAt(a, b, k);
        PartsLater(a, b, k - 1);
      }
    } else {
      if BytesLess(a, b) {
        assert PartsAt(a, b, 0);
      }
      forall k: nat | PartsAt(a, b, k) ensures BytesLess(a, b) {
        if a != [] {
          PartsAtHead(a, b, k);
        }
      }
    }
  }

  datatype Field = Number(n: int) | Word(s: Bytes)

  /** What the order looks at, the first field first. */
  function Fields(op: Op): seq<Field> {
    [Number(op.lamport), Number(op.time), Word(op.device), Number(op.num), Word(op.kind), Word(op.path),
     Word(op.blob), Number(op.size), Number(op.mode)]
  }

  ghost predicate FieldBelow(x: Field, y: Field) {
    match (x, y)
    case (Number(m), Number(n)) => m < n
    case (Word(s), Word(t)) => Below(s, t)
    case _ => false
  }

  ghost predicate FieldsPartAt(a: Op, b: Op, k: nat) {
    k < 9 && (forall i | 0 <= i < k :: Fields(a)[i] == Fields(b)[i]) && FieldBelow(Fields(a)[k], Fields(b)[k])
  }

  lemma StringsBelow(a: Op, b: Op)
    ensures Below(a.device, b.device) <==> BytesLess(a.device, b.device)
    ensures Below(a.kind, b.kind) <==> BytesLess(a.kind, b.kind)
    ensures Below(a.path, b.path) <==> BytesLess(a.path, b.path)
    ensures Below(a.blob, b.blob) <==> BytesLess(a.blob, b.blob)
  {
    BytesLessIff(a.device, b.device);
    BytesLessIff(a.kind, b.kind);
    BytesLessIff(a.path, b.path);
    BytesLessIff(a.blob, b.blob);
  }

  /** Where the fields of two ops part, which no earlier field does. */
  function FirstPart(a: Op, b: Op): (k: nat)
    ensures k <= 9 && (forall i | 0 <= i < k :: Fields(a)[i] == Fields(b)[i])
    ensures k < 9 ==> Fields(a)[k] != Fields(b)[k]
  {
    if a.lamport != b.lamport then 0
    else if a.time != b.time then 1
    else if a.device != b.device then 2
    else if a.num != b.num then 3
    else if a.kind != b.kind then 4
    else if a.path != b.path then 5
    else if a.blob != b.blob then 6
    else if a.size != b.size then 7
    else if a.mode != b.mode then 8
    else 9
  }

  lemma PartDecides(a: Op, b: Op)
    ensures var k := FirstPart(a, b);
            Less(a, b) <==> k < 9 && FieldBelow(Fields(a)[k], Fields(b)[k])
  {
    StringsBelow(a, b);
  }

  /** One op is below another exactly when it has the smaller value in the
      first field where they differ: the Lamport clock before the time, the
      time before the device, and so on. */
  lemma LessIsLexicographic(a: Op, b: Op)
    ensures Less(a, b) <==> exists k: nat :: FieldsPartAt(a, b, k)
  {
    PartDecides(a, b);
    var k := FirstPart(a, b);
    if k < 9 && FieldBelow(Fields(a)[k], Fields(b)[k]) {
      assert FieldsPartAt(a, b, k);
    }
    if j: nat :| FieldsPartAt(a, b, j) {
      NotBelowItself(Fields(a)[j]);
      assert j == k;
    }
  }

  lemma NotBelowItself(x: Field)
    ensures !FieldBelow(x, x)
  {
    if x.Word? {
      BytesLessIff(x.s, x.s);
      BytesLessTotal(x.s, x.s);
    }
  }

  /** What was made after seeing an op is above it, whatever the clocks on the
      wall said. */
  lemma LamportDecides(a: Op, b: Op)
    requires a.lamport < b.lamport
    ensures Less(a, b) && !Less(b, a)
  {
    assert FieldBelow(Fields(a)[0], Fields(b)[0]);
    assert FieldsPartAt(a, b, 0);
    LessIsLexicographic(a, b);
    LessAsymmetric(a, b);
  }

  /** An op below another is below, or the other is above, any third. */
  lemma LessSplits(a: Op, b: Op, c: Op)
    requires Less(a, b)
    ensures Less(a, c) || Less(c, b)
  {
    if !Less(a, c) {
      if Less(c, a) {
        LessTrans(c, a, b);
      } else {
        TiedAgree(a, c);
      }
    }
  }
}
