/** Bytes as Go reads them rune by rune: a character of UTF-8 is itself, and a
    byte that belongs to none is read as U+FFFD. */
module Runes {
  import opened Text
  import opened Utf8

  // ---- reading a sequence unit by unit ----

  /** How long the first unit of nonempty bytes is, what it is read as, and
      whether it is sound. */
  datatype Reader = Reader(width: Bytes -> nat, first: Bytes -> char, sound: Bytes -> bool)
  {
    ghost predicate SameUnit(s: Bytes, t: Bytes) {
      width(s) == width(t) && first(s) == first(t) && sound(s) == sound(t)
    }

    /** The first unit does not depend on what follows it. */
    ghost predicate Lawful() {
      && (forall s | s != [] :: 1 <= width(s) <= |s|)
      && (forall s, k {:trigger SameUnit(s[..k], s)} | s != [] && width(s) <= k <= |s| :: SameUnit(s[..k], s))
    }

    /** First units read alike are alike, unless one is unsound and read as
        bad. */
    ghost predicate Told(bad: char, s: Bytes, t: Bytes)
      requires Lawful()
    {
      s != [] && t != [] && sound(t) && first(s) == first(t) && (sound(s) || first(t) != bad) ==>
        width(s) == width(t) && s[..width(s)] == t[..width(t)]
    }

    ghost predicate Tells(bad: char)
      requires Lawful()
    {
      forall s, t :: Told(bad, s, t)
    }

    /** No unit reaches across into t. */
    ghost predicate Breaks(t: Bytes) {
      forall s: Bytes {:trigger SameUnit(s + t, s)} | s != [] :: SameUnit(s + t, s)
    }
  }

  ghost function Read(r: Reader, s: Bytes): string
    requires r.Lawful()
    decreases |s|
  {
    if s == [] then "" else [r.first(s)] + Read(r, s[r.width(s)..])
  }

  ghost predicate Sound(r: Reader, s: Bytes)
    requires r.Lawful()
    decreases |s|
  {
    s == [] || (r.sound(s) && Sound(r, s[r.width(s)..]))
  }

  lemma {:induction false} ReadAppend(r: Reader, s: Bytes, t: Bytes)
    requires r.Lawful() && r.Breaks(t)
    ensures Read(r, s + t) == Read(r, s) + Read(r, t)
    decreases |s|
  {
    if s == [] {
      assert s + t == t;
    } else {
      var n := r.width(s);
      ReadAppend(r, s[n..], t);
      assert r.SameUnit(s + t, s);
      assert (s + t)[n..] == s[n..] + t;
    }
  }

  lemma ConsCut<T>(x: T, tail: seq<T>, i: nat)
    requires 0 < i <= |tail| + 1
    ensures ([x] + tail)[..i] == [x] + tail[..i - 1] && ([x] + tail)[i..] == tail[i - 1..]
  {
  }

  /** Where the i-th unit begins. */
  lemma {:induction false} CutUnits(r: Reader, s: Bytes, i: nat) returns (k: nat)
    requires r.Lawful() && i <= |Read(r, s)|
    ensures k <= |s| && (i == 0 ==> k == 0)
    ensures Read(r, s[..k]) == Read(r, s)[..i] && Read(r, s[k..]) == Read(r, s)[i..]
    ensures Sound(r, s) ==> Sound(r, s[..k]) && Sound(r, s[k..])
    decreases |s|
  {
    if i == 0 {
      k := 0;
      assert s[0..] == s;
    } else {
      var n := r.width(s);
      var m := CutUnits(r, s[n..], i - 1);
      k := n + m;
      assert r.SameUnit(s[..k], s);
      assert s[..k][n..] == s[n..][..m] && s[k..] == s[n..][m..];
      ConsCut(r.first(s), Read(r, s[n..]), i);
    }
  }

  /** The bytes of a stretch of units, and those before and after it. */
  lemma CutUnitsTwice(r: Reader, s: Bytes, m: nat, n: nat) returns (a: Bytes, x: Bytes, b: Bytes)
    requires r.Lawful() && m <= n <= |Read(r, s)|
    ensures s == a + x + b && (m == 0 ==> a == []) && (Sound(r, s) ==> Sound(r, x))
    ensures Read(r, a) == Read(r, s)[..m] && Read(r, x) == Read(r, s)[m..n] && Read(r, b) == Read(r, s)[n..]
  {
    var t: Bytes;
    a, t := CutInTwo(r, s, m);
    x, b := CutInTwo(r, t, n - m);
    SliceTail(Read(r, s), Read(r, t), m, n);
    Assoc(a, x, b);
  }

  lemma CutInTwo(r: Reader, s: Bytes, i: nat) returns (a: Bytes, b: Bytes)
    requires r.Lawful() && i <= |Read(r, s)|
    ensures s == a + b && (i == 0 ==> a == []) && (Sound(r, s) ==> Sound(r, a) && Sound(r, b))
    ensures Read(r, a) == Read(r, s)[..i] && Read(r, b) == Read(r, s)[i..]
  {
    var k := CutUnits(r, s, i);
    a, b := s[..k], s[k..];
  }

  /** Bytes read like sound ones are those, if no unsound unit is in them. */
  lemma {:induction false} SameUnits(r: Reader, bad: char, s: Bytes, t: Bytes)
    requires r.Lawful() && r.Tells(bad) && Read(r, s) == Read(r, t)
    requires Sound(r, t) && (Sound(r, s) || bad !in Read(r, t))
    ensures s == t
    decreases |s|
  {
    if s == [] {
      assert t == [];
    } else {
      assert t != [] && Read(r, t)[0] in Read(r, t);
      var n := r.width(s);
      assert r.first(s) == Read(r, s)[0] == Read(r, t)[0] == r.first(t);
      assert r.Told(bad, s, t);
      assert Read(r, s)[1..] == Read(r, s[n..]) && Read(r, t)[1..] == Read(r, t[n..]);
      assert forall c | c in Read(r, t[n..]) :: c in Read(r, t);
      SameUnits(r, bad, s[n..], t[n..]);
      assert s == s[..n] + s[n..] && t == t[..n] + t[n..];
    }
  }

  lemma UnitsStart(r: Reader, bad: char, s: Bytes, x: Bytes)
    requires r.Lawful() && r.Tells(bad) && Read(r, x) <= Read(r, s)
    requires Sound(r, x) && (Sound(r, s) || bad !in Read(r, x))
    ensures x <= s && Read(r, s[|x|..]) == Read(r, s)[|Read(r, x)|..]
  {
    var k := CutUnits(r, s, |Read(r, x)|);
    SameUnits(r, bad, s[..k], x);
  }

  // ---- runes ----

  const BAD: char := '\U{FFFD}'

  /** The code point of the character at the start of s. */
  function Code(s: Bytes): (v: int)
    requires RuneLen(s) > 0
    ensures 0 <= v < 0xD800 || 0xE000 <= v < 0x110000
    ensures RuneLen(s) == 1 <==> v < 0x80
  {
    match RuneLen(s)
    case 1 => s[0] as int
    case 2 => (s[0] as int - 0xC0) * 64 + (s[1] as int - 0x80)
    case 3 => (s[0] as int - 0xE0) * 4096 + (s[1] as int - 0x80) * 64 + (s[2] as int - 0x80)
    case _ => (s[0] as int - 0xF0) * 262144 + (s[1] as int - 0x80) * 4096
              + (s[2] as int - 0x80) * 64 + (s[3] as int - 0x80)
  }

  function First(s: Bytes): char {
    if RuneLen(s) == 0 then BAD else Code(s) as char
  }

  function Width(s: Bytes): nat {
    if RuneLen(s) == 0 then 1 else RuneLen(s)
  }

  /** utf8.DecodeRune. */
  const UTF8 := Reader(Width, First, (s: Bytes) => RuneLen(s) > 0)

  lemma RuneOfPrefix(s: Bytes, k: nat)
    requires s != [] && Width(s) <= k <= |s|
    ensures UTF8.SameUnit(s[..k], s)
  {
    assert s == s[..k] + s[k..];
    if RuneLen(s[..k]) > 0 {
      RuneLenPrefix(s[..k], s[k..]);
    }
  }

  lemma Utf8Lawful()
    ensures UTF8.Lawful()
  {
    forall s: Bytes, k | s != [] && UTF8.width(s) <= k <= |s| ensures UTF8.SameUnit(s[..k], s) {
      RuneOfPrefix(s, k);
    }
  }

  /** The string that ranging over the bytes yields. */
  function RunesOf(s: Bytes): string
    decreases |s|
  {
    if s == [] then "" else [First(s)] + RunesOf(s[Width(s)..])
  }

  lemma {:induction false} RunesAreRead(s: Bytes)
    requires UTF8.Lawful()
    ensures Read(UTF8, s) == RunesOf(s) && (Sound(UTF8, s) <==> Valid(s))
    decreases |s|
  {
    if s != [] {
      RunesAreRead(s[Width(s)..]);
    }
  }

  /** b cannot continue a character begun before it. */
  predicate Starts(b: Bytes) {
    b == [] || b[0] < 0x80 || b[0] >= 0xC0
  }

  lemma StartsBreaks(s: Bytes, t: Bytes)
    requires s != [] && Starts(t)
    ensures UTF8.SameUnit(s + t, s)
  {
    var u := s + t;
    assert t != [] ==> u[|s|] == t[0];
    assert forall k | 0 <= k < |s| :: u[k] == s[k];
  }

  lemma RunesAppend(s: Bytes, t: Bytes)
    requires Starts(t)
    ensures RunesOf(s + t) == RunesOf(s) + RunesOf(t)
  {
    Utf8Lawful();
    forall s: Bytes | s != [] ensures UTF8.SameUnit(s + t, s) {
      StartsBreaks(s, t);
    }
    ReadAppend(UTF8, s, t);
    RunesAreRead(s);
    RunesAreRead(t);
    RunesAreRead(s + t);
  }

  lemma CutRunes(s: Bytes, i: nat) returns (k: nat)
    requires i <= |RunesOf(s)|
    ensures k <= |s| && (i == 0 ==> k == 0)
    ensures RunesOf(s[..k]) == RunesOf(s)[..i] && RunesOf(s[k..]) == RunesOf(s)[i..]
    ensures Valid(s) ==> Valid(s[..k]) && Valid(s[k..])
  {
    Utf8Lawful();
    RunesAreRead(s);
    k := CutUnits(UTF8, s, i);
    RunesAreRead(s[..k]);
    RunesAreRead(s[k..]);
  }

  lemma CutRunesTwice(s: Bytes, m: nat, n: nat) returns (a: Bytes, x: Bytes, b: Bytes)
    requires m <= n <= |RunesOf(s)|
    ensures s == a + x + b && (m == 0 ==> a == []) && (Valid(s) ==> Valid(x))
    ensures RunesOf(a) == RunesOf(s)[..m] && RunesOf(x) == RunesOf(s)[m..n] && RunesOf(b) == RunesOf(s)[n..]
  {
    Utf8Lawful();
    RunesAreRead(s);
    a, x, b := CutUnitsTwice(UTF8, s, m, n);
    RunesAreRead(a);
    RunesAreRead(x);
    RunesAreRead(b);
  }

  /** After a slash, runes begin anew. */
  lemma RunesAfterSlash(s: Bytes, t: Bytes)
    ensures RunesOf(s + [SLASH] + t) == RunesOf(s) + "/" + RunesOf(t)
  {
    var rest := [SLASH] + t;
    RunesAppend(s, rest);
    assert rest[1..] == t && s + [SLASH] + t == s + rest;
    Assoc(RunesOf(s), "/", RunesOf(t));
  }

  lemma RunesOfAscii(c: byte)
    requires c < 0x80
    ensures RunesOf([c]) == [c as char]
  {
    assert [c][1..] == [];
  }

  // ---- encoding ----

  function EncodeRune(c: char): (b: Bytes)
    ensures 1 <= |b| <= 4
  {
    var v := c as int;
    if v < 0x80 then [v as byte]
    else if v < 0x800 then [(0xC0 + v / 64) as byte, (0x80 + v % 64) as byte]
    else if v < 0x10000 then
      [(0xE0 + v / 4096) as byte, (0x80 + v / 64 % 64) as byte, (0x80 + v % 64) as byte]
    else
      [(0xF0 + v / 262144) as byte, (0x80 + v / 4096 % 64) as byte, (0x80 + v / 64 % 64) as byte,
       (0x80 + v % 64) as byte]
  }

  /** The digits of a code point to the base 64. */
  lemma Digits(v: nat)
    ensures v / 64 == v / 4096 * 64 + v / 64 % 64 && v == v / 64 * 64 + v % 64
    ensures v / 4096 == v / 262144 * 64 + v / 4096 % 64
  {
  }

  lemma Places(a: nat, b: nat, c: nat, d: nat)
    requires b < 64 && c < 64 && d < 64
    ensures var v := a * 262144 + b * 4096 + c * 64 + d;
            v % 64 == d && v / 64 % 64 == c && v / 4096 % 64 == b && v / 262144 == a
  {
    var v := a * 262144 + b * 4096 + c * 64 + d;
    Quotient(v, a * 4096 + b * 64 + c, d);
    Quotient(a * 4096 + b * 64 + c, a * 64 + b, c);
    Quotient(a * 64 + b, a, b);
    assert v / 4096 == v / 64 / 64 && v / 262144 == v / 64 / 64 / 64;
  }

  lemma Quotient(v: nat, q: nat, r: nat)
    requires v == q * 64 + r && r < 64
    ensures v / 64 == q && v % 64 == r
  {
  }

  lemma EncodedRune(c: char)
    ensures var b := EncodeRune(c); RuneLen(b) == |b| && Code(b) == c as int
  {
    Digits(c as int);
  }

  /** A character is the encoding of its code point. */
  lemma Recoded(s: Bytes)
    requires RuneLen(s) > 0
    ensures s[..RuneLen(s)] == EncodeRune(Code(s) as char)
  {
    var n := RuneLen(s);
    if n == 2 {
      Places(0, 0, s[0] as int - 0xC0, s[1] as int - 0x80);
    } else if n == 3 {
      Places(0, s[0] as int - 0xE0, s[1] as int - 0x80, s[2] as int - 0x80);
    } else if n == 4 {
      Places(s[0] as int - 0xF0, s[1] as int - 0x80, s[2] as int - 0x80, s[3] as int - 0x80);
    }
  }

  // ---- which bytes read as which runes ----

  lemma AsciiUnit(s: Bytes, c: byte)
    requires c < 0x80 && s != []
    ensures c in s[..Width(s)] <==> First(s) == c as char
  {
    var n := Width(s);
    if RuneLen(s) <= 1 {
      assert s[..n] == [s[0]];
    } else {
      assert forall k | 0 <= k < n :: s[..n][k] == s[k] >= 0x80;
    }
  }

  lemma InParts<T>(s: seq<T>, n: nat, x: T)
    requires n <= |s|
    ensures x in s <==> x in s[..n] || x in s[n..]
  {
    assert s == s[..n] + s[n..];
  }

  lemma {:induction false} AsciiInRunes(s: Bytes, c: byte)
    requires c < 0x80
    ensures c in s <==> c as char in RunesOf(s)
    decreases |s|
  {
    if s != [] {
      var n := Width(s);
      AsciiInRunes(s[n..], c);
      AsciiUnit(s, c);
      InParts(s, n, c);
    }
  }

  lemma SameFirst(s: Bytes, t: Bytes)
    requires s != [] && RuneLen(t) > 0 && First(s) == First(t) && (RuneLen(s) > 0 || First(t) != BAD)
    ensures Width(s) == Width(t) && s[..Width(s)] == t[..Width(t)]
  {
    Recoded(s);
    Recoded(t);
  }

  lemma Utf8Tells()
    ensures UTF8.Lawful() && UTF8.Tells(BAD)
  {
    Utf8Lawful();
    forall s, t ensures UTF8.Told(BAD, s, t) {
      if s != [] && RuneLen(t) > 0 && First(s) == First(t) && (RuneLen(s) > 0 || First(t) != BAD) {
        SameFirst(s, t);
      }
    }
  }

  /** UTF-8 whose runes come first among those of s comes first in s, if s is
      UTF-8 too or no U+FFFD is in it. */
  lemma RunesStart(s: Bytes, x: Bytes)
    requires Valid(x) && RunesOf(x) <= RunesOf(s) && (Valid(s) || BAD !in RunesOf(x))
    ensures x <= s && RunesOf(s[|x|..]) == RunesOf(s)[|RunesOf(x)|..]
  {
    Utf8Tells();
    RunesAreRead(s);
    RunesAreRead(x);
    UnitsStart(UTF8, BAD, s, x);
    RunesAreRead(s[|x|..]);
  }

  /** The same, anywhere. */
  lemma RunesOccur(s: Bytes, x: Bytes, j: nat) returns (i: nat)
    requires Valid(x) && OccursAt(RunesOf(s), RunesOf(x), j) && (Valid(s) || BAD !in RunesOf(x))
    ensures OccursAt(s, x, i) && (j == 0 ==> i == 0)
    ensures RunesOf(s[..i]) == RunesOf(s)[..j] && RunesOf(s[i + |x|..]) == RunesOf(s)[j + |RunesOf(x)|..]
  {
    i := CutRunes(s, j);
    OccursInTail(RunesOf(s), RunesOf(x), j);
    RunesStart(s[i..], x);
    TailOccurs(s, x, i);
  }

  /** Bytes end in an ASCII character exactly when their runes do. */
  lemma {:induction false} LastRune(s: Bytes, c: byte)
    requires c < 0x80
    ensures s != [] && s[|s| - 1] == c <==> RunesOf(s) != "" && RunesOf(s)[|RunesOf(s)| - 1] == c as char
    decreases |s|
  {
    if s != [] {
      var rest := s[Width(s)..];
      LastRune(rest, c);
      if rest == [] {
        assert RunesOf(s) == [First(s)];
      } else {
        assert RunesOf(rest) != "";
      }
    }
  }

  // ---- bytes for given runes ----

  function Unit(c: char, bad: Bytes): Bytes { if c == BAD then bad else EncodeRune(c) }

  /** Text as UTF-8, or with each U+FFFD as a bad byte. */
  function Encode(s: string, bad: Bytes): Bytes {
    if s == "" then [] else Unit(s[0], bad) + Encode(s[1..], bad)
  }

  const BAD_BYTES: Bytes := [0xEF, 0xBF, 0xBD]
  const BAD_BYTE: Bytes := [0xFF]

  lemma {:induction false} EncodeReads(s: string, bad: Bytes)
    requires bad == BAD_BYTES || bad == BAD_BYTE
    ensures RunesOf(Encode(s, bad)) == s && (bad == BAD_BYTES ==> Valid(Encode(s, bad)))
  {
    if s != "" {
      EncodeReads(s[1..], bad);
      BadIsEncoded();
      EncodedUnit(Unit(s[0], bad), Encode(s[1..], bad), s[0]);
    }
  }

  lemma BadIsEncoded()
    ensures EncodeRune(BAD) == BAD_BYTES
  {
  }

  lemma EncodedUnit(unit: Bytes, rest: Bytes, c: char)
    requires unit == EncodeRune(c) || (c == BAD && unit == BAD_BYTE)
    ensures RunesOf(unit + rest) == [c] + RunesOf(rest)
    ensures unit == EncodeRune(c) && Valid(rest) ==> Valid(unit + rest)
  {
    assert (unit + rest)[|unit|..] == rest;
    if unit == EncodeRune(c) {
      EncodedRune(c);
      RuneLenPrefix(unit, rest);
    }
  }

  lemma LossyUnit(s: Bytes)
    requires s != []
    ensures Lossy(s) == EncodeRune(First(s)) + Lossy(s[Width(s)..])
  {
    if RuneLen(s) == 0 {
      BadIsEncoded();
    } else {
      Recoded(s);
    }
  }

  /** What the replacement keeps: the string reads as the same characters, and
      is now their UTF-8. */
  lemma {:induction false} LossyReadsSame(s: Bytes)
    ensures RunesOf(Lossy(s)) == RunesOf(s) && Lossy(s) == Encode(RunesOf(s), BAD_BYTES)
    decreases |s|
  {
    if s != [] {
      LossyReadsSame(s[Width(s)..]);
      LossyUnit(s);
      BadIsEncoded();
      EncodedUnit(EncodeRune(First(s)), Lossy(s[Width(s)..]), First(s));
    }
  }

  lemma {:induction false} EncodeMore(s: string, c: char, bad: Bytes)
    requires c as int < 0x80
    ensures Encode(s + [c], bad) == Encode(s, bad) + [c as byte]
  {
    if s == "" {
      assert [c][1..] == "" && s + [c] == [c];
    } else {
      assert (s + [c])[1..] == s[1..] + [c];
      EncodeMore(s[1..], c, bad);
      Assoc(Unit(s[0], bad), Encode(s[1..], bad), [c as byte]);
    }
  }

  // ---- U+FFFD itself ----

  lemma {:induction false} TrueBadIn(s: Bytes)
    requires Valid(s) && BAD in RunesOf(s)
    ensures Contains(s, BAD_BYTES)
    decreases |s|
  {
    if First(s) == BAD {
      Recoded(s);
      assert EncodeRune(BAD) == BAD_BYTES;
      assert OccursAt(s, BAD_BYTES, 0);
    } else {
      TrueBadIn(s[Width(s)..]);
      ContainsInTail(s, Width(s), BAD_BYTES);
    }
  }

  lemma ContainsInTail(s: Bytes, n: nat, x: Bytes)
    requires n <= |s| && Contains(s[n..], x)
    ensures Contains(s, x)
  {
    var i :| 0 <= i <= |s[n..]| - |x| && OccursAt(s[n..], x, i);
    SliceOfSlice(s, n, |s|, i, i + |x|);
    assert OccursAt(s, x, n + i);
  }

  /** Text with its U+FFFD made bad bytes holds no true one. */
  lemma {:induction false} NoTrueBad(s: string)
    ensures !Contains(Encode(s, BAD_BYTE), BAD_BYTES)
  {
    if s != "" {
      NoTrueBad(s[1..]);
      var unit := Unit(s[0], BAD_BYTE);
      var rest := Encode(s[1..], BAD_BYTE);
      forall i | 0 <= i <= |unit + rest| - 3 ensures !OccursAt(unit + rest, BAD_BYTES, i) {
        if i < |unit| {
          NoBadAtUnit(unit, rest, s[0], i);
        } else {
          OccursAfter(unit, rest, BAD_BYTES, i);
        }
      }
    }
  }

  lemma OccursAfter(a: Bytes, b: Bytes, x: Bytes, i: nat)
    requires |a| <= i
    ensures OccursAt(a + b, x, i) <==> OccursAt(b, x, i - |a|)
  {
    if i + |x| <= |a + b| {
      assert (a + b)[i..i + |x|] == b[i - |a|..i - |a| + |x|];
    }
  }

  lemma NoBadAtUnit(unit: Bytes, rest: Bytes, c: char, i: nat)
    requires i < |unit| && (unit == BAD_BYTE || (c != BAD && unit == EncodeRune(c)))
    ensures !OccursAt(unit + rest, BAD_BYTES, i)
  {
    var b := unit + rest;
    if OccursAt(b, BAD_BYTES, i) {
      assert b[i] == b[i..i + 3][0] == 0xEF;
      assert i == 0 && |unit| == 3;
      assert b[1] == b[i..i + 3][1] && b[2] == b[i..i + 3][2];
      Digits(c as int);
      assert false;
    }
  }
}
