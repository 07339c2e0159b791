/** Three-way merge of text by lines: each side changed one span of the base,
    and two spans that do not overlap are both taken. */
module Merge {
  import opened Text

  type Line = Bytes

  function SplitLines(b: Bytes): seq<Line> {
    if b == [] then []
    else
      var parts := SplitOn(b, NEWLINE);
      if parts[|parts| - 1] == [] then parts[..|parts| - 1] else parts
  }

  function JoinLines(lines: seq<Line>, trailing: bool): Bytes {
    var out := JoinWith(lines, NEWLINE);
    if trailing && out != [] then out + [NEWLINE] else out
  }

  predicate TrailingNewline(b: Bytes) { b != [] && b[|b| - 1] == NEWLINE }

  // ---- the changed span ----

  /** A half-open span of base lines, and of the lines that replace it. */
  datatype Region = Region(from: nat, to: nat, toFrom: nat, toTo: nat)

  /** The length of the common prefix, p of it known. */
  function PrefixLen(a: seq<Line>, b: seq<Line>, p: nat): (r: nat)
    requires p <= |a| && p <= |b|
    ensures p <= r <= |a| && r <= |b|
    ensures forall k | p <= k < r :: a[k] == b[k]
    ensures r < |a| && r < |b| ==> a[r] != b[r]
    decreases |a| - p
  {
    if p < |a| && p < |b| && a[p] == b[p] then PrefixLen(a, b, p + 1) else p
  }

  /** The length of the common suffix after the first p lines, s of it known. */
  function SuffixLen(a: seq<Line>, b: seq<Line>, p: nat, s: nat): (r: nat)
    requires p + s <= |a| && p + s <= |b|
    ensures s <= r && p + r <= |a| && p + r <= |b|
    ensures forall k | |a| - r <= k < |a| - s :: a[k] == b[k + |b| - |a|]
    ensures p + r < |a| && p + r < |b| ==> a[|a| - 1 - r] != b[|b| - 1 - r]
    decreases |a| - s
  {
    if s < |a| - p && s < |b| - p && a[|a| - 1 - s] == b[|b| - 1 - s] then SuffixLen(a, b, p, s + 1) else s
  }

  /** The one changed span of a side, none when it is the base. */
  function RegionsOf(base: seq<Line>, side: seq<Line>): (r: seq<Region>)
    ensures |r| <= 1
    ensures r != [] ==> r[0].from == r[0].toFrom <= r[0].to <= |base| && r[0].toFrom <= r[0].toTo <= |side|
  {
    var p := PrefixLen(base, side, 0);
    if p == |base| == |side| then []
    else
      var s := SuffixLen(base, side, p, 0);
      [Region(p, |base| - s, p, |side| - s)]
  }

  method CommonPrefix(base: seq<Line>, side: seq<Line>) returns (p: nat)
    ensures p == PrefixLen(base, side, 0)
  {
    p := 0;
    while p < |base| && p < |side| && base[p] == side[p]
      invariant p <= |base| && p <= |side|
      invariant PrefixLen(base, side, 0) == PrefixLen(base, side, p)
    {
      p := p + 1;
    }
  }

  method CommonSuffix(base: seq<Line>, side: seq<Line>, p: nat) returns (s: nat)
    requires p <= |base| && p <= |side|
    ensures s == SuffixLen(base, side, p, 0)
  {
    s := 0;
    while s < |base| - p && s < |side| - p && base[|base| - 1 - s] == side[|side| - 1 - s]
      invariant s <= |base| - p && s <= |side| - p
      invariant SuffixLen(base, side, p, 0) == SuffixLen(base, side, p, s)
    {
      s := s + 1;
    }
  }

  method ChangedRegions(base: seq<Line>, side: seq<Line>) returns (r: seq<Region>)
    ensures r == RegionsOf(base, side)
  {
    var p := CommonPrefix(base, side);
    if p == |base| && p == |side| {
      return [];
    }
    var s := CommonSuffix(base, side, p);
    r := [Region(p, |base| - s, p, |side| - s)];
  }

  /** The span begins where the sides first differ or one of them ends. Outside
      it both sides have the same lines; it is empty only when nothing changed,
      and as tight as it can be. */
  lemma RegionFacts(base: seq<Line>, side: seq<Line>)
    ensures RegionsOf(base, side) == [] <==> base == side
    ensures RegionsOf(base, side) != [] ==>
              var r := RegionsOf(base, side)[0];
              && r.from == r.toFrom && (r.from == |base| || r.from == |side| || base[r.from] != side[r.from])
              && base[..r.from] == side[..r.toFrom] && base[r.to..] == side[r.toTo..]
              && (r.from < r.to || r.toFrom < r.toTo)
              && (r.from < r.to && r.toFrom < r.toTo ==>
                    base[r.from] != side[r.toFrom] && base[r.to - 1] != side[r.toTo - 1])
  {
    if RegionsOf(base, side) != [] {
      var r := RegionsOf(base, side)[0];
      forall k | 0 <= k < |base| - r.to ensures base[r.to..][k] == side[r.toTo..][k] {
        assert base[r.to + k] == side[r.to + k + |side| - |base|];
      }
    }
  }

  /** Applying a side's span to the base gives the side back. */
  lemma RegionApplies(base: seq<Line>, side: seq<Line>)
    requires RegionsOf(base, side) != []
    ensures var r := RegionsOf(base, side)[0];
            base[..r.from] + side[r.toFrom..r.toTo] + base[r.to..] == side
  {
    RegionFacts(base, side);
    var r := RegionsOf(base, side)[0];
    assert side == side[..r.toFrom] + side[r.toFrom..r.toTo] + side[r.toTo..];
  }

  // ---- overlap ----

  predicate Overlap(x: Region, y: Region) {
    || (x.from < y.to && y.from < x.to)
    || (x.from == x.to && y.from == y.to && x.from == y.from)
  }

  ghost predicate AnyOverlap(a: seq<Region>, b: seq<Region>) {
    exists i, j | 0 <= i < |a| && 0 <= j < |b| :: Overlap(a[i], b[j])
  }

  method Overlaps(a: seq<Region>, b: seq<Region>) returns (yes: bool)
    ensures yes <==> AnyOverlap(a, b)
  {
    if |a| == 0 || |b| == 0 {
      return false;
    }
    for i := 0 to |a|
      invariant forall k, j | 0 <= k < i && 0 <= j < |b| :: !Overlap(a[k], b[j])
    {
      for j := 0 to |b|
        invariant forall k | 0 <= k < j :: !Overlap(a[i], b[k])
      {
        if Overlap(a[i], b[j]) {
          return true;
        }
      }
    }
    yes := false;
  }

  // ---- the merge ----

  datatype Edit = Edit(r: Region, with: seq<Line>)

  function EditsOf(regions: seq<Region>, side: seq<Line>): (e: seq<Edit>)
    requires forall k | 0 <= k < |regions| :: regions[k].toFrom <= regions[k].toTo <= |side|
    ensures |e| == |regions|
  {
    seq(|regions|, k requires 0 <= k < |regions| => Edit(regions[k], side[regions[k].toFrom..regions[k].toTo]))
  }

  /** The order the edits are taken in: by the base line they start at, and as
      they came when that is the same one. */
  function ByStart(edits: seq<Edit>): seq<Edit>
    requires |edits| <= 2
  {
    if |edits| == 2 && edits[1].r.from < edits[0].r.from then [edits[1], edits[0]] else edits
  }

  /** What the walk over the base still puts out, standing at line at. */
  function Walk(base: seq<Line>, at: nat, edits: seq<Edit>): seq<Line>
    requires at <= |base| && forall e | e in edits :: e.r.from <= e.r.to <= |base|
    decreases |edits|
  {
    if edits == [] then base[at..]
    else
      var e := edits[0];
      (if at < e.r.from then base[at..e.r.from] else []) + e.with + Walk(base, e.r.to, edits[1..])
  }

  function Edits(base: seq<Line>, a: seq<Line>, b: seq<Line>): (e: seq<Edit>)
    ensures |e| <= 2 && forall x | x in e :: x.r.from <= x.r.to <= |base|
  {
    EditsOf(RegionsOf(base, a), a) + EditsOf(RegionsOf(base, b), b)
  }

  /** The lines of the merge, None when both sides changed one place. */
  ghost function MergedLines(base: seq<Line>, a: seq<Line>, b: seq<Line>): Option<seq<Line>> {
    if AnyOverlap(RegionsOf(base, a), RegionsOf(base, b)) then None
    else Some(Walk(base, 0, ByStart(Edits(base, a, b))))
  }

  ghost function Merged(base: Bytes, a: Bytes, b: Bytes): Option<Bytes> {
    match MergedLines(SplitLines(base), SplitLines(a), SplitLines(b))
    case None => None
    case Some(lines) => Some(JoinLines(lines, TrailingNewline(a) || TrailingNewline(b)))
  }

  method SortEdits(edits: seq<Edit>) returns (sorted: seq<Edit>)
    requires |edits| <= 2
    ensures sorted == ByStart(edits)
  {
    var arr := new Edit[|edits|](i requires 0 <= i < |edits| => edits[i]);
    var i := 1;
    while i < arr.Length
      invariant 1 <= i
      invariant i <= 1 ==> arr[..] == edits
      invariant i > 1 ==> arr[..] == ByStart(edits)
    {
      var j := i;
      while j > 0 && arr[j].r.from < arr[j - 1].r.from
        invariant 0 <= j <= i
        invariant j == i ==> arr[..] == edits
        invariant j < i ==> arr[..] == ByStart(edits) && edits[1].r.from < edits[0].r.from
      {
        arr[j], arr[j - 1] := arr[j - 1], arr[j];
        j := j - 1;
      }
      i := i + 1;
    }
    sorted := arr[..];
  }

  method CopyTo(base: seq<Line>, at: nat, to: nat, out: seq<Line>) returns (lines: seq<Line>)
    requires at <= |base| && to <= |base|
    ensures lines == out + if at < to then base[at..to] else []
  {
    lines := out;
    var i := at;
    while i < to
      invariant at <= i && (i <= to || i == at)
      invariant lines == out + base[at..i]
    {
      lines := lines + [base[i]];
      i := i + 1;
    }
  }

  lemma WalkStep(base: seq<Line>, at: nat, edits: seq<Edit>, k: nat, lines: seq<Line>)
    requires k < |edits| && at <= |base| && forall e | e in edits :: e.r.from <= e.r.to <= |base|
    ensures var e := edits[k];
            lines + Walk(base, at, edits[k..])
              == lines + (if at < e.r.from then base[at..e.r.from] else []) + e.with + Walk(base, e.r.to, edits[k + 1..])
  {
    assert edits[k..][0] == edits[k] && edits[k..][1..] == edits[k + 1..];
  }

  /** The walk over the base: at is the line it stands at, and moves back when
      an edit ends before it. */
  method Splice(base: seq<Line>, edits: seq<Edit>) returns (lines: seq<Line>)
    requires forall e | e in edits :: e.r.from <= e.r.to <= |base|
    ensures lines == Walk(base, 0, edits)
  {
    lines := [];
    var at: nat := 0;
    for k := 0 to |edits|
      invariant at <= |base|
      invariant lines + Walk(base, at, edits[k..]) == Walk(base, 0, edits)
    {
      var e := edits[k];
      WalkStep(base, at, edits, k, lines);
      lines := CopyTo(base, at, e.r.from, lines);
      lines := lines + e.with;
      at := e.r.to;
    }
    lines := CopyTo(base, at, |base|, lines);
    assert edits[|edits|..] == [] && base[at..] == base[at..|base|];
  }

  method MergeLines(base: seq<Line>, a: seq<Line>, b: seq<Line>) returns (lines: Option<seq<Line>>)
    ensures lines == MergedLines(base, a, b)
  {
    var ca := ChangedRegions(base, a);
    var cb := ChangedRegions(base, b);
    var clash := Overlaps(ca, cb);
    if clash {
      return None;
    }
    var edits := SortEdits(EditsOf(ca, a) + EditsOf(cb, b));
    var out := Splice(base, edits);
    lines := Some(out);
  }

  method MergeText(base: Bytes, a: Bytes, b: Bytes) returns (out: Bytes, ok: bool)
    ensures ok <==> Merged(base, a, b).Some?
    ensures ok ==> out == Merged(base, a, b).value
  {
    var lines := MergeLines(SplitLines(base), SplitLines(a), SplitLines(b));
    if lines.None? {
      return [], false;
    }
    out, ok := JoinLines(lines.value, TrailingNewline(a) || TrailingNewline(b)), true;
  }
}
