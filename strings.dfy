/** The string operations the backend relies on, written out with Python's
    meaning: decimal formatting of integers, `str.lstrip` with a character
    set, `str.replace`, `str.startswith`, `str.split(sep)[-1]`, ASCII
    lower-casing, string comparison with `<`, and `os.path.join` of two
    parts. */
module Strings {

  // ---------------------------------------------------------------------
  // Decimal digits

  predicate IsDigit(c: char) { '0' <= c <= '9' }

  function DigitChar(d: nat): (c: char)
    requires d < 10
    ensures IsDigit(c)
  {
    ('0' as int + d) as char
  }

  function DigitValue(c: char): (d: nat)
    requires IsDigit(c)
    ensures d < 10
  {
    c as int - '0' as int
  }

  predicate AllDigits(s: string) {
    forall i :: 0 <= i < |s| ==> IsDigit(s[i])
  }

  function Pow10(w: nat): (p: nat)
    ensures p >= 1
  {
    if w == 0 then 1 else 10 * Pow10(w - 1)
  }

  /** The value of a string of decimal digits (most significant first). */
  function DigitsValue(s: string): nat
    requires AllDigits(s)
  {
    if s == [] then 0 else 10 * DigitsValue(s[..|s| - 1]) + DigitValue(s[|s| - 1])
  }

  /** Python's `str(n)` / `f"{n}"` for a non-negative integer. */
  function NatToString(n: nat): (s: string)
    ensures |s| >= 1 && AllDigits(s)
    ensures s[0] != '-'
  {
    if n < 10 then [DigitChar(n)] else NatToString(n / 10) + [DigitChar(n % 10)]
  }

  /** Python's `f"{i}"` for any integer. */
  function IntToString(i: int): (s: string)
    ensures |s| >= 1
    ensures forall k :: 0 < k < |s| ==> s[k] != '-'
  {
    if i < 0 then "-" + NatToString(-i) else NatToString(i)
  }

  /** Python's `int(s)` for an optionally signed decimal string. */
  function ParseInt(s: string): int
    requires |s| > 0 && s[0] == '-' ==> AllDigits(s[1..])
    requires |s| > 0 && s[0] != '-' ==> AllDigits(s)
  {
    if |s| > 0 && s[0] == '-' then 0 - DigitsValue(s[1..]) else DigitsValue(s) as int
  }

  lemma {:induction false} NatToStringRoundTrip(n: nat)
    ensures DigitsValue(NatToString(n)) == n
  {
    if n >= 10 {
      var s := NatToString(n);
      NatToStringRoundTrip(n / 10);
      assert s[..|s| - 1] == NatToString(n / 10);
    }
  }

  lemma IntToStringRoundTrip(i: int)
    ensures |IntToString(i)| > 0
    ensures IntToString(i)[0] == '-' ==> AllDigits(IntToString(i)[1..])
    ensures IntToString(i)[0] != '-' ==> AllDigits(IntToString(i))
    ensures ParseInt(IntToString(i)) == i
  {
    if i < 0 {
      assert IntToString(i)[1..] == NatToString(-i);
      NatToStringRoundTrip(-i);
    } else {
      NatToStringRoundTrip(i);
    }
  }

  /** `n` written with exactly `w` digits, zero-padded on the left
      (as `"%0wd" % n` for `n < 10^w`). */
  function PaddedDigits(n: nat, w: nat): (s: string)
    ensures |s| == w && AllDigits(s)
  {
    if w == 0 then [] else PaddedDigits(n / 10, w - 1) + [DigitChar(n % 10)]
  }

  lemma Div10Bound(n: nat, w: nat)
    requires w > 0 && n < Pow10(w)
    ensures n / 10 < Pow10(w - 1)
  {
    var p := Pow10(w - 1);
    assert n < 10 * p;
  }

  lemma {:induction false} PaddedDigitsValue(n: nat, w: nat)
    requires n < Pow10(w)
    ensures DigitsValue(PaddedDigits(n, w)) == n
  {
    if w > 0 {
      var s := PaddedDigits(n, w);
      var h := PaddedDigits(n / 10, w - 1);
      assert s == h + [DigitChar(n % 10)];
      assert s[..|s| - 1] == h;
      Div10Bound(n, w);
      PaddedDigitsValue(n / 10, w - 1);
      assert DigitsValue(s) == 10 * DigitsValue(h) + n % 10;
    }
  }

  /** A string of digits is the zero-padded text of its own value. */
  lemma {:induction false} DigitsPadded(t: string)
    requires AllDigits(t)
    ensures PaddedDigits(DigitsValue(t), |t|) == t
  {
    if t != [] {
      var init := t[..|t| - 1];
      var v, d := DigitsValue(init), DigitValue(t[|t| - 1]);
      DigitsPadded(init);
      assert (10 * v + d) / 10 == v && (10 * v + d) % 10 == d;
      assert DigitChar(d) == t[|t| - 1];
      assert t == init + [t[|t| - 1]];
    }
  }

  // ---------------------------------------------------------------------
  // Lexicographic order (Python's `<` on str: by code point, a proper
  // prefix is smaller)

  predicate StrLess(a: string, b: string)
  {
    if a == [] then b != []
    else if b == [] then false
    else if a[0] != b[0] then a[0] < b[0]
    else StrLess(a[1..], b[1..])
  }

  lemma {:induction false} StrLessIrreflexive(a: string)
    ensures !StrLess(a, a)
  {
    if a != [] { StrLessIrreflexive(a[1..]); }
  }

  lemma {:induction false} StrLessTransitive(a: string, b: string, c: string)
    requires StrLess(a, b) && StrLess(b, c)
    ensures StrLess(a, c)
  {
    if a != [] && b != [] && c != [] && a[0] == b[0] && b[0] == c[0] {
      StrLessTransitive(a[1..], b[1..], c[1..]);
    }
  }

  lemma {:induction false} StrLessTotal(a: string, b: string)
    requires a != b
    ensures StrLess(a, b) || StrLess(b, a)
  {
    if a != [] && b != [] && a[0] == b[0] {
      assert a == [a[0]] + a[1..] && b == [b[0]] + b[1..];
      StrLessTotal(a[1..], b[1..]);
    }
  }

  /** When two strings start with heads of equal length, the heads decide
      the comparison unless they are equal, and then the tails decide. */
  lemma {:induction false} StrLessConcat(a: string, x: string, b: string, y: string)
    requires |a| == |b|
    ensures StrLess(a + x, b + y) <==> StrLess(a, b) || (a == b && StrLess(x, y))
  {
    if a == [] {
      assert a + x == x && b + y == y;
    } else {
      assert (a + x)[1..] == a[1..] + x && (b + y)[1..] == b[1..] + y;
      StrLessConcat(a[1..], x, b[1..], y);
      if a[0] == b[0] && a[1..] == b[1..] {
        assert a == b by { assert a == [a[0]] + a[1..] && b == [b[0]] + b[1..]; }
      }
    }
  }

  lemma DecimalOrder(n: nat, m: nat)
    ensures n < m <==> n / 10 < m / 10 || (n / 10 == m / 10 && n % 10 < m % 10)
  {
    var qn, rn, qm, rm := n / 10, n % 10, m / 10, m % 10;
    assert n == 10 * qn + rn && m == 10 * qm + rm;
  }

  /** For zero-padded numerals of one width, string order is numeric order. */
  lemma {:induction false} PaddedDigitsOrder(n: nat, m: nat, w: nat)
    requires n < Pow10(w) && m < Pow10(w)
    ensures StrLess(PaddedDigits(n, w), PaddedDigits(m, w)) <==> n < m
  {
    if w > 0 {
      var hn, hm := PaddedDigits(n / 10, w - 1), PaddedDigits(m / 10, w - 1);
      var dn, dm := DigitChar(n % 10), DigitChar(m % 10);
      assert PaddedDigits(n, w) == hn + [dn] && PaddedDigits(m, w) == hm + [dm];
      StrLessConcat(hn, [dn], hm, [dm]);
      Div10Bound(n, w);
      Div10Bound(m, w);
      PaddedDigitsOrder(n / 10, m / 10, w - 1);
      PaddedDigitsValue(n / 10, w - 1);
      PaddedDigitsValue(m / 10, w - 1);
      assert hn == hm <==> n / 10 == m / 10;
      assert StrLess([dn], [dm]) <==> n % 10 < m % 10 by {
        assert [dn][1..] == [] && [dm][1..] == [];
      }
      DecimalOrder(n, m);
    }
  }

  // ---------------------------------------------------------------------
  // str methods

  predicate StartsWith(s: string, prefix: string) {
    |prefix| <= |s| && s[..|prefix|] == prefix
  }

  /** `s.lstrip(chars)`: drop every leading character that belongs to the
      set `chars` (a set of characters, not a prefix). */
  function LStrip(s: string, chars: set<char>): (r: string)
    ensures |r| <= |s| && r == s[|s| - |r|..]
    ensures r != [] ==> r[0] !in chars
    ensures forall i :: 0 <= i < |s| - |r| ==> s[i] in chars
  {
    if s != [] && s[0] in chars then LStrip(s[1..], chars) else s
  }

  lemma LStripIdempotent(s: string, chars: set<char>)
    ensures LStrip(LStrip(s, chars), chars) == LStrip(s, chars)
  {
  }

  predicate OccursAt(s: string, pat: string, i: nat) {
    i + |pat| <= |s| && s[i..i + |pat|] == pat
  }

  /** `s.replace(pat, rep)`: replaces every non-overlapping occurrence of
      `pat`, scanning from the left; a text with no occurrence comes back
      unchanged. */
  function ReplaceAll(s: string, pat: string, rep: string): (r: string)
    requires |pat| > 0
    ensures (forall i :: 0 <= i <= |s| - |pat| ==> !OccursAt(s, pat, i)) ==> r == s
    ensures StartsWith(s, pat) ==> r == rep + ReplaceAll(s[|pat|..], pat, rep)
    ensures |s| >= |pat| && !StartsWith(s, pat) ==> r == [s[0]] + ReplaceAll(s[1..], pat, rep)
  {
    if |s| < |pat| then s
    else if s[..|pat|] == pat then
      assert OccursAt(s, pat, 0);
      rep + ReplaceAll(s[|pat|..], pat, rep)
    else
      NoOccurrenceInTail(s, pat);
      assert s == [s[0]] + s[1..];
      [s[0]] + ReplaceAll(s[1..], pat, rep)
  }

  /** Dropping the first character keeps a text free of the pattern. */
  lemma NoOccurrenceInTail(s: string, pat: string)
    requires 0 < |pat| <= |s|
    ensures (forall i :: 0 <= i <= |s| - |pat| ==> !OccursAt(s, pat, i)) ==>
      forall i :: 0 <= i <= |s[1..]| - |pat| ==> !OccursAt(s[1..], pat, i)
  {
    if forall i :: 0 <= i <= |s| - |pat| ==> !OccursAt(s, pat, i) {
      forall i | 0 <= i <= |s[1..]| - |pat| ensures !OccursAt(s[1..], pat, i) {
        assert !OccursAt(s, pat, i + 1);
        assert s[1..][i..i + |pat|] == s[i + 1..i + 1 + |pat|];
      }
    }
  }

  /** Text that starts with the pattern, followed by text that lacks one of
      the pattern's characters, loses exactly that one occurrence. */
  lemma ReplaceAllLeadingOnly(pat: string, rest: string, rep: string, k: nat)
    requires |pat| > 0 && k < |pat| && pat[k] !in rest
    ensures ReplaceAll(pat + rest, pat, rep) == rep + rest
  {
    var s := pat + rest;
    assert s[..|pat|] == pat && s[|pat|..] == rest;
    ReplaceAllMissingChar(rest, pat, rep, k);
  }

  /** A character that the pattern has and the string lacks rules out every
      occurrence, so replacing changes nothing. */
  lemma ReplaceAllMissingChar(s: string, pat: string, rep: string, k: nat)
    requires k < |pat| && pat[k] !in s
    ensures ReplaceAll(s, pat, rep) == s
  {
    forall i | 0 <= i <= |s| - |pat| ensures !OccursAt(s, pat, i) {
      assert i + k < |s| && s[i + k] in s;
    }
  }

  /** `s.split(sep)[-1]`: the text after the last `sep`, or all of `s` when
      it has none. */
  function AfterLast(s: string, sep: char): (r: string)
    ensures sep !in r
    ensures |r| <= |s| && r == s[|s| - |r|..]
    ensures sep !in s ==> r == s
    ensures sep in s ==> |r| < |s| && s[|s| - |r| - 1] == sep
  {
    if s == [] then []
    else if s[|s| - 1] == sep then []
    else AfterLast(s[..|s| - 1], sep) + [s[|s| - 1]]
  }

  /** `str.lower()` on ASCII letters; every other character is kept. */
  function LowerChar(c: char): char {
    if 'A' <= c <= 'Z' then (c as int - 'A' as int + 'a' as int) as char else c
  }

  function Lower(s: string): (r: string)
    ensures |r| == |s|
    ensures forall i :: 0 <= i < |s| ==> r[i] == LowerChar(s[i])
  {
    seq(|s|, i requires 0 <= i < |s| => LowerChar(s[i]))
  }

  lemma LowerKeepsChar(s: string, c: char)
    requires !('A' <= c <= 'Z') && !('a' <= c <= 'z')
    ensures c in Lower(s) <==> c in s
  {
    var r := Lower(s);
    if c in s {
      var i :| 0 <= i < |s| && s[i] == c;
      assert r[i] == c;
    }
    if c in r {
      var i :| 0 <= i < |r| && r[i] == c;
      assert s[i] == c;
    }
  }

  // ---------------------------------------------------------------------
  // os.path.join(a, b) on POSIX

  /** An absolute second part replaces the first; otherwise the parts
      are joined with one `/`, added only when the first part does not
      already end in one (or is empty). */
  function PathJoin(a: string, b: string): (r: string)
    ensures b != [] && b[0] == '/' ==> r == b
    ensures (b == [] || b[0] != '/') && a != [] && a[|a| - 1] != '/' ==> r == a + "/" + b
    ensures (b == [] || b[0] != '/') && (a == [] || a[|a| - 1] == '/') ==> r == a + b
  {
    StartsWithSlash(b);
    if StartsWith(b, "/") then b
    else if a == [] || a[|a| - 1] == '/' then a + b
    else a + "/" + b
  }

  lemma StartsWithSlash(b: string)
    ensures StartsWith(b, "/") <==> b != [] && b[0] == '/'
  {
    if b != [] && b[0] == '/' {
      assert b[..1] == "/";
    }
  }
}
