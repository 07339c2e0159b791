/** UTF-8 as sections 3 and 4 of RFC 3629 define it, and what becomes of bytes
    that are none. */
module Utf8 {
  import opened Text

  predicate Between(b: byte, lo: int, hi: int) { lo <= b as int <= hi }

  /** How many bytes a character that starts with b has, or 0 when none does. */
  function Lead(b: byte): (n: nat)
    ensures n <= 4
  {
    if b < 0x80 then 1
    else if b < 0xC2 then 0
    else if b < 0xE0 then 2
    else if b < 0xF0 then 3
    else if b < 0xF5 then 4
    else 0
  }

  /** The second byte, which excludes overlong forms, surrogates and what lies
      beyond U+10FFFF. */
  predicate Second(b: byte, c: byte) {
    && (if b == 0xE0 then 0xA0 else if b == 0xF0 then 0x90 else 0x80) <= c
    && c <= if b == 0xED then 0x9F else if b == 0xF4 then 0x8F else 0xBF
  }

  /** The length of the character at the start of s, or 0 when there is none. */
  function RuneLen(s: Bytes): (n: nat)
    ensures n <= 4 && n <= |s|
  {
    if s == [] then 0
    else
      var n := Lead(s[0]);
      if n <= 1 then n
      else if n <= |s| && Second(s[0], s[1]) && forall k | 2 <= k < n :: Between(s[k], 0x80, 0xBF) then n
      else 0
  }

  /** utf8.ValidString. */
  predicate Valid(s: Bytes)
    decreases |s|
  {
    s == [] || (RuneLen(s) > 0 && Valid(s[RuneLen(s)..]))
  }

  /** U+FFFD, which stands in for one byte that is not UTF-8. */
  const REPLACEMENT: Bytes := [0xEF, 0xBF, 0xBD]

  /** What JSON makes of a string: each bad byte on its own is replaced. */
  function Lossy(s: Bytes): Bytes
    decreases |s|
  {
    if s == [] then []
    else if RuneLen(s) == 0 then REPLACEMENT + Lossy(s[1..])
    else s[..RuneLen(s)] + Lossy(s[RuneLen(s)..])
  }

  lemma LossyStep(s: Bytes, i: nat)
    requires i < |s|
    ensures var n := RuneLen(s[i..]);
            Lossy(s[i..]) == if n == 0 then REPLACEMENT + Lossy(s[i + 1..]) else s[i..i + n] + Lossy(s[i + n..])
  {
    var n := RuneLen(s[i..]);
    assert s[i..][1..] == s[i + 1..] && s[i..][..n] == s[i..i + n] && s[i..][n..] == s[i + n..];
  }

  /** ASCII is UTF-8. */
  lemma {:induction false} AsciiValid(s: Bytes)
    requires forall k | 0 <= k < |s| :: s[k] < 0x80
    ensures Valid(s)
  {
    if s != [] {
      AsciiValid(s[1..]);
      assert RuneLen(s) == 1;
    }
  }

  method LossyOf(s: Bytes) returns (out: Bytes)
    ensures out == Lossy(s)
  {
    if Valid(s) {
      ValidIsFixed(s);
      return s;
    }
    out := [];
    var i := 0;
    while i < |s|
      invariant 0 <= i <= |s| && out + Lossy(s[i..]) == Lossy(s)
    {
      LossyStep(s, i);
      var size := RuneLen(s[i..]);
      if size == 0 {
        Assoc(out, REPLACEMENT, Lossy(s[i + 1..]));
        out := out + REPLACEMENT;
        i := i + 1;
      } else {
        Assoc(out, s[i..i + size], Lossy(s[i + size..]));
        out := out + s[i..i + size];
        i := i + size;
      }
    }
    assert s[|s|..] == [];
  }

  lemma RuneLenPrefix(a: Bytes, b: Bytes)
    requires RuneLen(a) > 0
    ensures RuneLen(a + b) == RuneLen(a)
  {
  }

  lemma {:induction false} ValidAppend(a: Bytes, b: Bytes)
    requires Valid(a)
    ensures Valid(a + b) <==> Valid(b)
    decreases |a|
  {
    if a == [] {
      assert a + b == b;
    } else {
      var n := RuneLen(a);
      RuneLenPrefix(a, b);
      ValidAppend(a[n..], b);
      assert (a + b)[n..] == a[n..] + b;
    }
  }

  lemma {:induction false} LossyValid(s: Bytes)
    ensures Valid(Lossy(s))
    decreases |s|
  {
    if s != [] {
      var n := RuneLen(s);
      if n == 0 {
        LossyValid(s[1..]);
        assert RuneLen(REPLACEMENT) == 3 && REPLACEMENT[3..] == [];
        ValidAppend(REPLACEMENT, Lossy(s[1..]));
      } else {
        LossyValid(s[n..]);
        RuneOfPrefix(s);
        assert s[..n][n..] == [];
        ValidAppend(s[..n], Lossy(s[n..]));
      }
    }
  }

  lemma RuneOfPrefix(s: Bytes)
    requires RuneLen(s) > 0
    ensures RuneLen(s[..RuneLen(s)]) == RuneLen(s)
  {
  }

  lemma {:induction false} ValidIsFixed(s: Bytes)
    requires Valid(s)
    ensures Lossy(s) == s
    decreases |s|
  {
    if s != [] {
      ValidIsFixed(s[RuneLen(s)..]);
    }
  }

  /** The replacement changes exactly the strings that are not UTF-8. */
  lemma LossyFixesIff(s: Bytes)
    ensures Lossy(s) == s <==> Valid(s)
  {
    LossyValid(s);
    if Valid(s) {
      ValidIsFixed(s);
    }
  }

  lemma LossyIdempotent(s: Bytes)
    ensures Lossy(Lossy(s)) == Lossy(s)
  {
    LossyValid(s);
    ValidIsFixed(Lossy(s));
  }
}
