/** The folder names a scope accepts. */
module ScopeNames {
  import opened Text
  import opened Utf8
  import opened Runes
  import opened IgnoreCompile
  import opened IgnoreEscape
  import opened ScopeFile

  const DOT: Bytes := [46]
  const CLIMB: Bytes := [46, 46]

  /** One step of filepath.Clean over the segments of a relative path. */
  function CleanStep(stack: seq<Bytes>, seg: Bytes): seq<Bytes> {
    if seg == [] || seg == DOT then stack
    else if seg == CLIMB && stack != [] && stack[|stack| - 1] != CLIMB then stack[..|stack| - 1]
    else stack + [seg]
  }

  function CleanSegs(segs: seq<Bytes>): seq<Bytes> {
    if segs == [] then [] else CleanStep(CleanSegs(segs[..|segs| - 1]), segs[|segs| - 1])
  }

  /** filepath.Clean of a nonempty path that does not start with a slash. */
  function CleanPath(d: Path): Path {
    var segs := CleanSegs(SplitOn(d, SLASH));
    if segs == [] then DOT else JoinWith(segs, SLASH)
  }

  /** hasControlRune. */
  predicate HasControl(s: Bytes) {
    exists c | c in RunesOf(s) :: c as int < 0x20 || c as int == 0x7f
  }

  /** The name a scope argument stands for, or None when it is refused. */
  function NameOf(arg: Bytes): Option<Path> {
    var d := TrimSlashes(TrimAround(arg));
    var c := CleanPath(d);
    if d == [] || c == DOT || c == CLIMB || CLIMB + [SLASH] <= c || HasControl(c) then None else Some(c)
  }

  function Firsts(names: seq<Bytes>): seq<Bytes> {
    if names == [] then []
    else
      var front := Firsts(names[..|names| - 1]);
      if names[|names| - 1] in front then front else front + [names[|names| - 1]]
  }

  method CleanName(arg: Bytes) returns (name: Option<Path>)
    ensures name == NameOf(arg)
  {
    var d := TrimSlashes(TrimAround(arg));
    if d == [] {
      return None;
    }
    d := CleanPath(d);
    if d == DOT || d == CLIMB || CLIMB + [SLASH] <= d || HasControl(d) {
      return None;
    }
    name := Some(d);
  }

  /** What f makes of every element: one refusal refuses them all. */
  function All<A, B>(f: A -> Option<B>, xs: seq<A>): (ys: Option<seq<B>>)
    ensures ys.Some? ==> |ys.value| == |xs|
  {
    if xs == [] then Some([])
    else
      var front := All(f, xs[..|xs| - 1]);
      var last := f(xs[|xs| - 1]);
      if front.Some? && last.Some? then Some(front.value + [last.value]) else None
  }

  function NamesOf(dirs: seq<Bytes>): (names: Option<seq<Path>>) { All(NameOf, dirs) }

  lemma {:induction false} RefusedPrefix<A, B>(f: A -> Option<B>, xs: seq<A>, n: nat)
    requires n <= |xs| && All(f, xs[..n]).None?
    ensures All(f, xs).None?
  {
    if n == |xs| {
      assert xs[..n] == xs;
    } else {
      assert xs[..|xs| - 1][..n] == xs[..n];
      RefusedPrefix(f, xs[..|xs| - 1], n);
    }
  }

  lemma AllMore<A, B>(f: A -> Option<B>, xs: seq<A>, i: nat)
    requires i < |xs|
    ensures var front, last := All(f, xs[..i]), f(xs[i]);
            All(f, xs[..i + 1]) == if front.Some? && last.Some? then Some(front.value + [last.value]) else None
  {
    assert xs[..i + 1][..i] == xs[..i];
  }

  method CleanScopeDirs(dirs: seq<Bytes>) returns (out: seq<Path>, ok: bool)
    ensures ok <==> NamesOf(dirs).Some?
    ensures ok ==> out == Firsts(NamesOf(dirs).value)
  {
    out, ok := [], true;
    var seen: set<Path> := {};
    ghost var names: seq<Path> := [];
    for i := 0 to |dirs|
      invariant All(NameOf, dirs[..i]) == Some(names)
      invariant out == Firsts(names)
      invariant forall n :: n in seen <==> n in out
    {
      var name := CleanName(dirs[i]);
      AllMore(NameOf, dirs, i);
      if name.None? {
        RefusedPrefix(NameOf, dirs, i + 1);
        return [], false;
      }
      var c := name.value;
      FirstsMore(names, c);
      names := names + [c];
      if c !in seen {
        seen := seen + {c};
        out := out + [c];
      }
    }
    assert dirs[..|dirs|] == dirs;
  }

  lemma FirstsMore(names: seq<Path>, c: Path)
    ensures Firsts(names + [c]) == if c in Firsts(names) then Firsts(names) else Firsts(names) + [c]
  {
    assert (names + [c])[..|names|] == names;
  }

  // ---- what the accepted names look like ----

  predicate CleanSeg(seg: Bytes) { seg != [] && seg != DOT && SLASH !in seg }

  /** Clean segments, the climbing ones first. */
  ghost predicate CleanStack(segs: seq<Bytes>) {
    && (forall k | 0 <= k < |segs| :: CleanSeg(segs[k]))
    && (forall i, j | 0 <= i < j < |segs| && segs[j] == CLIMB :: segs[i] == CLIMB)
  }

  lemma {:induction false} CleanSegsClean(segs: seq<Bytes>)
    requires SepFree(segs, SLASH)
    ensures CleanStack(CleanSegs(segs))
  {
    if segs != [] {
      CleanSegsClean(segs[..|segs| - 1]);
    }
  }

  lemma {:induction false} JoinEnds(segs: seq<Bytes>)
    requires segs != [] && forall k | 0 <= k < |segs| :: CleanSeg(segs[k])
    ensures var d := JoinWith(segs, SLASH);
            && d != [] && CleanSeg(segs[0]) && d[0] == segs[0][0]
            && CleanSeg(segs[|segs| - 1]) && d[|d| - 1] == segs[|segs| - 1][|segs[|segs| - 1]| - 1]
            && segs[0] <= d && (|segs| > 1 ==> segs[0] + [SLASH] <= d)
  {
    if |segs| > 1 {
      var rest := segs[1..];
      JoinEnds(rest);
      var d, e := JoinWith(segs, SLASH), JoinWith(rest, SLASH);
      assert d == segs[0] + [SLASH] + e && rest[|rest| - 1] == segs[|segs| - 1];
      assert d[|d| - 1] == e[|e| - 1] && d[0] == segs[0][0];
    }
  }

  /** No control character. */
  predicate Clear(s: Bytes) {
    forall c | c in RunesOf(s) :: c as int >= 32 && c as int != 127
  }

  /** An accepted name can be written as a rule, and none of its segments
      climbs, is empty or is a dot. */
  lemma AcceptedName(arg: Bytes)
    requires NameOf(arg).Some?
    ensures var d := NameOf(arg).value;
            && FolderName(d) && Clear(d)
            && exists segs :: segs != [] && d == JoinWith(segs, SLASH)
                 && forall k | 0 <= k < |segs| :: CleanSeg(segs[k]) && segs[k] != CLIMB
  {
    var t := TrimSlashes(TrimAround(arg));
    var segs := CleanSegs(SplitOn(t, SLASH));
    SplitSepFree(t, SLASH);
    CleanSegsClean(SplitOn(t, SLASH));
    assert segs != [];
    JoinEnds(segs);
    assert segs[0] == CLIMB ==> |segs| > 1 && CLIMB + [SLASH] <= JoinWith(segs, SLASH);
    assert forall k | 0 < k < |segs| :: segs[k] == CLIMB ==> segs[0] == CLIMB;
    AsciiInRunes(NameOf(arg).value, NEWLINE);
  }

  lemma {:induction false} CleanSegsKeeps(segs: seq<Bytes>)
    requires forall k | 0 <= k < |segs| :: CleanSeg(segs[k]) && segs[k] != CLIMB
    ensures CleanSegs(segs) == segs
  {
    if segs != [] {
      CleanSegsKeeps(segs[..|segs| - 1]);
      assert segs == segs[..|segs| - 1] + [segs[|segs| - 1]];
    }
  }

  lemma SlashEnds(d: Path)
    requires d != [] && d[0] != SLASH && d[|d| - 1] != SLASH
    ensures TrimSlashes(d) == d
  {
  }

  lemma FirstSegmentOf(seg: Bytes, d: Path)
    requires SLASH !in seg && (d == seg || seg + [SLASH] <= d)
    ensures |SplitOn(d, SLASH)| > 0 && SplitOn(d, SLASH)[0] == seg
  {
    SplitFree(seg, SLASH);
    if d != seg {
      var rest := d[|seg| + 1..];
      assert d == seg + [SLASH] + rest;
      SplitAppend(seg, SLASH, rest);
    }
  }

  lemma CleanPathKeeps(segs: seq<Bytes>, d: Path)
    requires segs != [] && forall k | 0 <= k < |segs| :: CleanSeg(segs[k]) && segs[k] != CLIMB
    requires d == JoinWith(segs, SLASH)
    ensures CleanPath(d) == d && TrimSlashes(d) == d
    ensures d != [] && d != DOT && d != CLIMB && !(CLIMB + [SLASH] <= d)
  {
    JoinEnds(segs);
    SlashEnds(d);
    SplitJoin(segs, SLASH);
    CleanSegsKeeps(segs);
    forall seg | SLASH !in seg && (d == seg || seg + [SLASH] <= d) ensures seg == segs[0] {
      FirstSegmentOf(seg, d);
    }
    assert SLASH !in DOT && SLASH !in CLIMB;
  }

  /** A name that is clean already is accepted as it is: no space around it,
      no control character in it, and no segment empty, a dot or climbing. */
  lemma CleanNameAccepted(segs: seq<Bytes>)
    requires segs != [] && forall k | 0 <= k < |segs| :: CleanSeg(segs[k]) && segs[k] != CLIMB
    requires var d := JoinWith(segs, SLASH); TrimAround(d) == d && Clear(d)
    ensures NameOf(JoinWith(segs, SLASH)) == Some(JoinWith(segs, SLASH))
  {
    CleanPathKeeps(segs, JoinWith(segs, SLASH));
  }

  lemma {:induction false} FirstsDistinct(names: seq<Bytes>)
    ensures forall n :: n in Firsts(names) <==> n in names
    ensures forall i, j | 0 <= i < j < |Firsts(names)| :: Firsts(names)[i] != Firsts(names)[j]
  {
    if names != [] {
      FirstsDistinct(names[..|names| - 1]);
      assert names == names[..|names| - 1] + [names[|names| - 1]];
    }
  }

  lemma {:induction false} AllComeFrom<A, B>(f: A -> Option<B>, xs: seq<A>, y: B) returns (x: A)
    requires All(f, xs).Some? && y in All(f, xs).value
    ensures x in xs && f(x) == Some(y)
  {
    var front, last := xs[..|xs| - 1], xs[|xs| - 1];
    assert xs == front + [last];
    if y in All(f, front).value {
      x := AllComeFrom(f, front, y);
    } else {
      x := last;
    }
  }

  /** The names a scope is written with are distinct, and each one is a folder
      name below the project. A name that is not UTF-8 is accepted too, and
      then its line in the block is no rule. */
  lemma CleanedDirsFit(dirs: seq<Bytes>)
    requires NamesOf(dirs).Some?
    ensures var out := Firsts(NamesOf(dirs).value);
            && (forall d | d in out :: FolderName(d) && Clear(d))
            && (forall d | d in out :: Compiled(ScopeLine(d)).Some? <==> Valid(d))
            && (forall i, j | 0 <= i < j < |out| :: out[i] != out[j])
            && (forall d :: d in out <==> d in NamesOf(dirs).value)
  {
    var names := NamesOf(dirs).value;
    FirstsDistinct(names);
    forall d | d in names
      ensures FolderName(d) && Clear(d) && (Compiled(ScopeLine(d)).Some? <==> Valid(d))
    {
      var arg := AllComeFrom(NameOf, dirs, d);
      AcceptedName(arg);
      EscapedScopeRule(d);
    }
  }

  /** Such a name: one byte that no character of UTF-8 is. */
  lemma BadNameAccepted()
    ensures var d: Path := [0xE9];
            NameOf(d) == Some(d) && !Valid(d) && Compiled(ScopeLine(d)).None?
  {
    var d: Path := [0xE9];
    assert RuneLen(d) == 0 && LastLen(d, 1) == 0 && TrimAround(d) == d && TrimSlashes(d) == d;
    SplitFree(d, SLASH);
    var segs: seq<Bytes> := [d];
    assert segs[..0] == [] && CleanSegs(segs) == segs && CleanPath(d) == d;
    assert d[1..] == [] && RunesOf(d) == [BAD];
    EscapedScopeRule(d);
  }
}
