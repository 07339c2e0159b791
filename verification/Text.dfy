/** Splitting and joining on a separator, and the substring tests of Go's
    strings package, for sequences of any element type. */
module Text {

  datatype Option<+T> = None | Some(value: T)

  newtype byte = x: int | 0 <= x < 256

  type Bytes = seq<byte>

  const NEWLINE: byte := 10
  const SLASH: byte := 47

  /** A slash-separated path. Any byte may be in it. */
  type Path = Bytes

  /** strings.Split / bytes.Split on a one-element separator: never empty. */
  function SplitOn<T(==)>(s: seq<T>, sep: T): (parts: seq<seq<T>>)
    ensures |parts| >= 1
  {
    if s == [] then [[]]
    else
      var rest := SplitOn(s[1..], sep);
      if s[0] == sep then [[]] + rest else [[s[0]] + rest[0]] + rest[1..]
  }

  /** strings.Join / bytes.Join. */
  function JoinWith<T>(parts: seq<seq<T>>, sep: T): seq<T> {
    if |parts| == 0 then []
    else if |parts| == 1 then parts[0]
    else parts[0] + [sep] + JoinWith(parts[1..], sep)
  }

  ghost predicate SepFree<T>(parts: seq<seq<T>>, sep: T) {
    forall k | 0 <= k < |parts| :: sep !in parts[k]
  }

  predicate HasSuffix<T(==)>(s: seq<T>, x: seq<T>) {
    |x| <= |s| && s[|s| - |x|..] == x
  }

  predicate OccursAt<T(==)>(s: seq<T>, x: seq<T>, i: int) {
    0 <= i <= |s| - |x| && s[i..i + |x|] == x
  }

  predicate Contains<T(==)>(s: seq<T>, x: seq<T>) {
    exists i | 0 <= i <= |s| - |x| :: OccursAt(s, x, i)
  }

  /** Slash paths: p is under directory dir. */
  predicate Beneath(dir: Path, p: Path) {
    dir + [SLASH] <= p
  }

  predicate AtOrBeneath(dir: Path, p: Path) {
    p == dir || Beneath(dir, p)
  }

  lemma SepFreeJoin<T>(a: seq<seq<T>>, b: seq<seq<T>>, sep: T)
    requires SepFree(a, sep) && SepFree(b, sep)
    ensures SepFree(a + b, sep)
  {
  }

  lemma SepFreeCut<T>(a: seq<seq<T>>, i: nat, sep: T)
    requires SepFree(a, sep) && i <= |a|
    ensures SepFree(a[..i], sep) && SepFree(a[i..], sep)
  {
  }

  lemma {:induction false} SplitSepFree<T>(s: seq<T>, sep: T)
    ensures SepFree(SplitOn(s, sep), sep)
  {
    if s != [] {
      SplitSepFree(s[1..], sep);
    }
  }

  /** One more element at the front of the first part. */
  lemma JoinHead<T>(x: T, parts: seq<seq<T>>, sep: T)
    requires parts != []
    ensures JoinWith([[x] + parts[0]] + parts[1..], sep) == [x] + JoinWith(parts, sep)
  {
    assert ([[x] + parts[0]] + parts[1..])[1..] == parts[1..];
    Regroup([x], parts[0], [sep], JoinWith(parts[1..], sep));
  }

  lemma {:induction false} JoinSplit<T>(s: seq<T>, sep: T)
    ensures JoinWith(SplitOn(s, sep), sep) == s
  {
    if s != [] {
      var rest := SplitOn(s[1..], sep);
      JoinSplit(s[1..], sep);
      assert [s[0]] + s[1..] == s;
      if s[0] == sep {
        JoinCons([], rest, sep);
        assert [] + [sep] + s[1..] == s;
      } else {
        JoinHead(s[0], rest, sep);
      }
    }
  }

  lemma {:induction false} SplitFree<T>(s: seq<T>, sep: T)
    requires sep !in s
    ensures SplitOn(s, sep) == [s]
  {
    if s != [] {
      SplitFree(s[1..], sep);
      assert [s[0]] + s[1..] == s;
    }
  }

  /** A separator cuts the work in two: nothing on one side reads the other. */
  lemma {:induction false} SplitAppend<T>(a: seq<T>, sep: T, b: seq<T>)
    ensures SplitOn(a + [sep] + b, sep) == SplitOn(a, sep) + SplitOn(b, sep)
  {
    var whole := a + [sep] + b;
    if a == [] {
      assert whole[1..] == b;
    } else {
      assert whole[1..] == a[1..] + [sep] + b;
      SplitAppend(a[1..], sep, b);
    }
  }

  /** Split undoes Join for any list of separator-free parts. */
  lemma {:induction false} SplitJoin<T>(parts: seq<seq<T>>, sep: T)
    requires |parts| >= 1 && SepFree(parts, sep)
    ensures SplitOn(JoinWith(parts, sep), sep) == parts
  {
    SplitFree(parts[0], sep);
    if |parts| > 1 {
      SplitAppend(parts[0], sep, JoinWith(parts[1..], sep));
      SplitJoin(parts[1..], sep);
      assert [parts[0]] + parts[1..] == parts;
    }
  }

  lemma {:induction false} JoinCons<T>(x: seq<T>, parts: seq<seq<T>>, sep: T)
    requires parts != []
    ensures JoinWith([x] + parts, sep) == x + [sep] + JoinWith(parts, sep)
  {
    assert ([x] + parts)[1..] == parts;
  }

  lemma Assoc<T>(a: seq<T>, b: seq<T>, c: seq<T>)
    ensures a + (b + c) == a + b + c
  {
  }

  lemma Regroup<T>(a: seq<T>, b: seq<T>, c: seq<T>, d: seq<T>)
    ensures a + b + c + d == a + (b + c + d)
  {
  }

  lemma SliceOfSlice<T>(s: seq<T>, i: nat, j: nat, a: nat, b: nat)
    requires i <= j <= |s| && a <= b <= j - i
    ensures s[i..j][a..b] == s[i + a..i + b]
  {
    forall k | 0 <= k < b - a ensures s[i..j][a..b][k] == s[i + a..i + b][k] {
      assert s[i..j][a..b][k] == s[i..j][a + k] == s[i + (a + k)];
    }
  }

  lemma OccursBetween<T>(a: seq<T>, x: seq<T>, b: seq<T>)
    ensures OccursAt(a + (x + b), x, |a|)
  {
    assert (a + (x + b))[|a|..|a| + |x|] == x;
  }

  lemma SliceTail<T>(s: seq<T>, t: seq<T>, m: nat, n: nat)
    requires m <= n <= |s| && t == s[m..]
    ensures t[..n - m] == s[m..n] && t[n - m..] == s[n..]
  {
  }

  lemma OccursThen<T>(s: seq<T>, x: seq<T>, i: nat)
    requires OccursAt(s, x, i) && i + |x| < |s|
    ensures OccursAt(s, x + [s[i + |x|]], i)
  {
    assert s[i..i + |x| + 1] == s[i..i + |x|] + [s[i + |x|]];
  }

  lemma CutOfJoin<T>(s: seq<T>, t: seq<T>, k: nat)
    requires k <= |s|
    ensures (s + t)[..k] == s[..k] && (s + t)[k..] == s[k..] + t
  {
  }

  lemma CutAround<T>(s: seq<T>, x: seq<T>, i: nat)
    requires OccursAt(s, x, i)
    ensures s == s[..i] + (x + s[i + |x|..])
  {
  }

  lemma OccursInTail<T>(s: seq<T>, x: seq<T>, i: nat)
    requires OccursAt(s, x, i)
    ensures x <= s[i..] && s[i..][|x|..] == s[i + |x|..]
  {
    assert s[i..][..|x|] == s[i..i + |x|];
  }

  lemma TailOccurs<T>(s: seq<T>, x: seq<T>, i: nat)
    requires i <= |s| && x <= s[i..]
    ensures OccursAt(s, x, i) && s[i..][|x|..] == s[i + |x|..]
  {
    assert s[i..][..|x|] == s[i..i + |x|];
  }

  lemma SliceAcross<T>(s: seq<T>, x: seq<T>, i: nat, n: nat)
    requires i <= |s| && n <= |x|
    ensures (s + x)[i..|s| + n] == s[i..] + x[..n] && (s + x)[|s| + n..] == x[n..]
  {
  }

  lemma CutAndJoin<T>(s: seq<T>, k: nat, t: seq<T>)
    requires k <= |s|
    ensures s[..k] + (s[k..] + t) == s + t
  {
  }
}
