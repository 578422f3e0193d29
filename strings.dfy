/**
 * Character and string helpers with the meaning Python gives them:
 * `str.isspace`, `str.strip`, `str.lower` (on the ASCII letters the
 * column keywords use), substring test `in`, `str.replace` of one
 * character, and decimal digit strings.
 */
module Strings {

  /** Python's `str.isspace` for a single character. */
  predicate IsSpace(c: char) {
    c == ' ' || ('\t' <= c <= '\r') || ('\U{1C}' <= c <= '\U{1F}')
    || c == '\U{85}' || c == '\U{A0}' || c == '\U{1680}'
    || ('\U{2000}' <= c <= '\U{200A}') || c == '\U{2028}' || c == '\U{2029}'
    || c == '\U{202F}' || c == '\U{205F}' || c == '\U{3000}'
  }

  predicate AllSpace(s: string) {
    forall i :: 0 <= i < |s| ==> IsSpace(s[i])
  }

  /** No leading and no trailing whitespace. */
  predicate Trimmed(s: string) {
    s == [] || (!IsSpace(s[0]) && !IsSpace(s[|s| - 1]))
  }

  /** `str.lstrip()`: the longest suffix that does not start with whitespace. */
  function StripLeft(s: string): (r: string)
    ensures |r| <= |s| && r == s[|s| - |r|..]
    ensures forall k :: 0 <= k < |s| - |r| ==> IsSpace(s[k])
    ensures r == [] || !IsSpace(r[0])
  {
    if |s| > 0 && IsSpace(s[0]) then
      var r := StripLeft(s[1..]);
      assert s[1..][|s| - 1 - |r|..] == s[|s| - |r|..];
      r
    else s
  }

  /** `str.rstrip()`: the longest prefix that does not end with whitespace. */
  function StripRight(s: string): (r: string)
    ensures |r| <= |s| && r == s[..|r|]
    ensures forall k :: |r| <= k < |s| ==> IsSpace(s[k])
    ensures r == [] || !IsSpace(r[|r| - 1])
  {
    if |s| > 0 && IsSpace(s[|s| - 1]) then
      StripRight(s[..|s| - 1])
    else s
  }

  /** `r` is the piece of `s` at offset `i` with only whitespace around it. */
  predicate Framed(s: string, r: string, i: int) {
    0 <= i <= |s| - |r| && r == s[i..i + |r|] && AllSpace(s[..i]) && AllSpace(s[i + |r|..])
  }

  /** `r` is `s` with its surrounding whitespace removed. */
  ghost predicate Stripped(s: string, r: string) {
    Trimmed(r) && exists i :: Framed(s, r, i)
  }

  /**
   * `str.strip()`: what remains of `s` after removing whitespace at both
   * ends; it is a contiguous piece of `s` framed by whitespace only.
   */
  function Strip(s: string): (r: string)
    ensures Trimmed(r)
    ensures exists i :: Framed(s, r, i)
  {
    var t := StripLeft(s);
    var r := StripRight(t);
    StripFramed(s, t, r);
    r
  }

  lemma StripFramed(s: string, t: string, r: string)
    requires |t| <= |s| && t == s[|s| - |t|..]
    requires forall k :: 0 <= k < |s| - |t| ==> IsSpace(s[k])
    requires |r| <= |t| && r == t[..|r|]
    requires forall k :: |r| <= k < |t| ==> IsSpace(t[k])
    ensures Framed(s, r, |s| - |t|)
  {
    var i := |s| - |t|;
    assert r == s[i..i + |r|];
    forall k | 0 <= k < i
      ensures IsSpace(s[..i][k])
    {
      assert s[..i][k] == s[k];
    }
    var tail := s[i + |r|..];
    forall k | 0 <= k < |tail|
      ensures IsSpace(tail[k])
    {
      assert tail[k] == t[|r| + k];
    }
  }

  lemma StripTrimmed(s: string)
    requires Trimmed(s)
    ensures Strip(s) == s
  {
  }

  /** Stripping twice is stripping once. */
  lemma StripIdempotent(s: string)
    ensures Strip(Strip(s)) == Strip(s)
  {
    StripTrimmed(Strip(s));
  }

  /** Python's `str.lower` on ASCII letters; other characters are kept. */
  function LowerChar(c: char): char {
    if 'A' <= c <= 'Z' then (c as int + 32) as char else c
  }

  /**
   * `s.lower()`: no upper-case ASCII letter is left, and every character is
   * kept or is an upper-case letter turned into its lower-case form.
   */
  function Lower(s: string): (r: string)
    ensures |r| == |s|
    ensures forall i :: 0 <= i < |r| ==> !('A' <= r[i] <= 'Z')
    ensures forall i :: 0 <= i < |s| ==> r[i] == s[i] || ('A' <= s[i] <= 'Z' && r[i] as int == s[i] as int + 32)
  {
    seq(|s|, i requires 0 <= i < |s| => LowerChar(s[i]))
  }

  /** Lower-casing twice is lower-casing once. */
  lemma LowerIdempotent(s: string)
    ensures Lower(Lower(s)) == Lower(s)
  {
    var once := Lower(s);
    assert forall i :: 0 <= i < |once| ==> Lower(once)[i] == once[i];
  }

  predicate StartsWith(s: string, p: string) {
    |p| <= |s| && s[..|p|] == p
  }

  /** Python's `p in s` for strings. */
  predicate Contains(s: string, p: string)
    decreases |s|
  {
    StartsWith(s, p) || (|s| > |p| && Contains(s[1..], p))
  }

  /** `p` occurs in `s` starting at offset `i`. */
  predicate OccursAt(s: string, p: string, i: int) {
    0 <= i <= |s| - |p| && s[i..i + |p|] == p
  }

  /** `p in s` holds exactly when `p` occurs at some offset of `s`. */
  lemma {:induction false} ContainsAt(s: string, p: string)
    ensures Contains(s, p) <==> exists i :: OccursAt(s, p, i)
    decreases |s|
  {
    if StartsWith(s, p) {
      assert OccursAt(s, p, 0);
    }
    if |s| > |p| {
      ContainsAt(s[1..], p);
      if exists i :: OccursAt(s, p, i) {
        var i :| OccursAt(s, p, i);
        if i > 0 {
          assert OccursAt(s[1..], p, i - 1);
        }
      }
      if Contains(s[1..], p) {
        var i :| OccursAt(s[1..], p, i);
        assert s[1..][i..i + |p|] == s[i + 1..i + 1 + |p|];
        assert OccursAt(s, p, i + 1);
      }
    } else if exists i :: OccursAt(s, p, i) {
      var i :| OccursAt(s, p, i);
      assert i == 0;
    }
  }

  /** A pattern with a character the text lacks does not occur in it. */
  lemma MissingChar(s: string, p: string, c: char)
    requires c in p && c !in s
    ensures !Contains(s, p)
  {
    var k :| 0 <= k < |p| && p[k] == c;
    forall i | 0 <= i <= |s| - |p|
      ensures !OccursAt(s, p, i)
    {
      assert s[i..i + |p|][k] == s[i + k];
    }
    ContainsAt(s, p);
  }

  /** `p` occurs inside `pre + p + post`. */
  lemma ContainsInfix(pre: string, p: string, post: string)
    ensures Contains(pre + p + post, p)
  {
    var s := pre + p + post;
    assert s[|pre|..|pre| + |p|] == p;
    assert OccursAt(s, p, |pre|);
    ContainsAt(s, p);
  }

  /** Whatever follows a leading piece `x` occurs in the whole. */
  lemma ShowsAfter(x: string, y: string, v: string, b: string)
    ensures Contains(x + y + v + b, y + v + b)
  {
    var s, p := x + y + v + b, y + v + b;
    assert forall k :: 0 <= k < |p| ==> s[|x| + k] == p[k];
    assert s[|x|..|x| + |p|] == p;
    assert OccursAt(s, p, |x|);
    ContainsAt(s, p);
  }

  /** `y` followed by a prefix of `v` occurs in `x + y + v + b`. */
  lemma ShowsAfterPrefix(x: string, y: string, v: string, b: string, pre: string)
    requires |pre| <= |v| && v[..|pre|] == pre
    ensures Contains(x + y + v + b, y + pre)
  {
    var s, p := x + y + v + b, y + pre;
    assert forall k :: 0 <= k < |p| ==> s[|x| + k] == p[k];
    assert s[|x|..|x| + |p|] == p;
    assert OccursAt(s, p, |x|);
    ContainsAt(s, p);
  }

  /** A piece of a piece of `s` is a piece of `s`. */
  lemma ContainsTrans(s: string, x: string, y: string)
    requires Contains(s, x) && Contains(x, y)
    ensures Contains(s, y)
  {
    ContainsAt(s, x);
    ContainsAt(x, y);
    var i :| OccursAt(s, x, i);
    var j :| OccursAt(x, y, j);
    assert x == s[i..i + |x|];
    var a := s[i + j..i + j + |y|];
    assert forall k :: 0 <= k < |y| ==> a[k] == x[j + k];
    assert OccursAt(s, y, i + j);
    ContainsAt(s, y);
  }

  /** The strings of `parts` one after the other (`''.join(parts)`). */
  function Concat(parts: seq<string>): string {
    if parts == [] then "" else Concat(parts[..|parts| - 1]) + parts[|parts| - 1]
  }

  lemma {:induction false} ConcatAppend(a: seq<string>, b: seq<string>)
    ensures Concat(a + b) == Concat(a) + Concat(b)
    decreases |b|
  {
    if b == [] {
      assert a + b == a;
    } else {
      var front, last := b[..|b| - 1], b[|b| - 1];
      assert (a + b)[..|a + b| - 1] == a + front;
      ConcatAppend(a, front);
      Associative(Concat(a), Concat(front), last);
    }
  }

  lemma Associative(x: string, y: string, z: string)
    ensures (x + y) + z == x + (y + z)
  {
  }

  lemma ConcatOne(x: string)
    ensures Concat([x]) == x
  {
    assert [x][..0] == [];
  }

  /** Each part occurs in the concatenation. */
  lemma ConcatInfix(parts: seq<string>, k: nat)
    requires k < |parts|
    ensures Contains(Concat(parts), parts[k])
  {
    var pre, x, post := parts[..k], parts[k], parts[k + 1..];
    assert parts == pre + [x] + post;
    ConcatAppend(pre + [x], post);
    ConcatAppend(pre, [x]);
    ConcatOne(x);
    ContainsInfix(Concat(pre), x, Concat(post));
  }

  /** What one part shows, the whole concatenation shows. */
  lemma PartShows(parts: seq<string>, k: nat, x: string)
    requires k < |parts| && Contains(parts[k], x)
    ensures Contains(Concat(parts), x)
  {
    ConcatInfix(parts, k);
    ContainsTrans(Concat(parts), parts[k], x);
  }

  /** Every occurrence of character `c` deleted (`s.replace(c, '')`). */
  function RemoveAll(s: string, c: char): (r: string)
    ensures c !in r && |r| <= |s|
    ensures forall x :: x in r ==> x in s
  {
    if s == [] then []
    else RemoveAll(s[..|s| - 1], c) + (if s[|s| - 1] == c then [] else [s[|s| - 1]])
  }

  lemma {:induction false} RemoveAllAppend(a: string, b: string, c: char)
    ensures RemoveAll(a + b, c) == RemoveAll(a, c) + RemoveAll(b, c)
    decreases |b|
  {
    if b != [] {
      assert (a + b)[..|a + b| - 1] == a + b[..|b| - 1];
      RemoveAllAppend(a, b[..|b| - 1], c);
    } else {
      assert a + b == a;
    }
  }

  lemma {:induction false} RemoveAllAbsent(s: string, c: char)
    requires c !in s
    ensures RemoveAll(s, c) == s
    decreases |s|
  {
    if s != [] {
      RemoveAllAbsent(s[..|s| - 1], c);
    }
  }

  /** Removing the one `c` between two pieces without `c` joins the pieces. */
  lemma RemoveAllBetween(a: string, b: string, c: char)
    requires c !in a && c !in b
    ensures RemoveAll(a + [c] + b, c) == a + b
  {
    RemoveAllAppend(a + [c], b, c);
    RemoveAllAppend(a, [c], c);
    RemoveAllAbsent(a, c);
    RemoveAllAbsent(b, c);
    assert RemoveAll([c], c) == [] by {
      assert [c][..0] == [];
    }
    assert a + [] == a;
  }

  /** Every occurrence of `a` turned into `b` (`s.replace(a, b)`). */
  function ReplaceAll(s: string, a: char, b: char): (r: string)
    ensures |r| == |s|
    ensures forall i :: 0 <= i < |s| ==> r[i] == if s[i] == a then b else s[i]
  {
    if s == [] then []
    else ReplaceAll(s[..|s| - 1], a, b) + [if s[|s| - 1] == a then b else s[|s| - 1]]
  }

  /** Number of occurrences of `c` in `s` (`s.count(c)`). */
  function Count(s: string, c: char): nat {
    if s == [] then 0
    else Count(s[..|s| - 1], c) + (if s[|s| - 1] == c then 1 else 0)
  }

  /** Deleting `a` removes exactly its occurrences and leaves every other count alone. */
  lemma {:induction false} CountRemoveAll(s: string, a: char, b: char)
    ensures |RemoveAll(s, a)| == |s| - Count(s, a)
    ensures a != b ==> Count(RemoveAll(s, a), b) == Count(s, b)
    decreases |s|
  {
    if s != [] {
      CountRemoveAll(s[..|s| - 1], a, b);
      var p := RemoveAll(s[..|s| - 1], a);
      var t := if s[|s| - 1] == a then [] else [s[|s| - 1]];
      CountAppend(p, t, b);
      if t == [] {
        assert p + t == p;
      } else {
        assert (p + t)[..|p + t| - 1] == p;
      }
    }
  }

  lemma {:induction false} CountAppend(a: string, b: string, c: char)
    ensures Count(a + b, c) == Count(a, c) + Count(b, c)
    decreases |b|
  {
    if b == [] {
      assert a + b == a;
    } else {
      assert (a + b)[..|a + b| - 1] == a + b[..|b| - 1];
      CountAppend(a, b[..|b| - 1], c);
    }
  }

  /** Turning `a` into `b` moves every `a` over to the count of `b`. */
  lemma {:induction false} CountReplaceAll(s: string, a: char, b: char)
    requires a != b
    ensures Count(ReplaceAll(s, a, b), b) == Count(s, a) + Count(s, b)
    decreases |s|
  {
    if s != [] {
      CountReplaceAll(s[..|s| - 1], a, b);
      assert ReplaceAll(s, a, b)[..|s| - 1] == ReplaceAll(s[..|s| - 1], a, b);
    }
  }

  lemma {:induction false} CountAbsent(s: string, c: char)
    ensures Count(s, c) == 0 <==> c !in s
    decreases |s|
  {
    if s != [] {
      CountAbsent(s[..|s| - 1], c);
      assert s == s[..|s| - 1] + [s[|s| - 1]];
    }
  }

  // ----- decimal digits -----

  predicate IsDigit(c: char) {
    '0' <= c <= '9'
  }

  predicate AllDigits(s: string) {
    forall i :: 0 <= i < |s| ==> IsDigit(s[i])
  }

  function DigitChar(d: nat): char
    requires d < 10
  {
    ('0' as int + d) as char
  }

  function DigitValue(c: char): nat
    requires IsDigit(c)
  {
    c as int - '0' as int
  }

  function Pow10(k: nat): (r: nat)
    ensures r >= 1
  {
    if k == 0 then 1 else 10 * Pow10(k - 1)
  }

  /** The number a string of decimal digits denotes, most significant first. */
  function DigitsValue(s: string): nat
    requires AllDigits(s)
  {
    if s == [] then 0
    else DigitsValue(s[..|s| - 1]) * 10 + DigitValue(s[|s| - 1])
  }

  /** Python's `str(n)` for a natural number: shortest decimal digit string. */
  function NatToString(n: nat): (r: string)
    ensures |r| >= 1 && AllDigits(r)
    ensures DigitsValue(r) == n
    decreases n
  {
    var r := (if n < 10 then [] else NatToString(n / 10)) + [DigitChar(n % 10)];
    assert r[..|r| - 1] == if n < 10 then [] else NatToString(n / 10);
    r
  }

  /** Some digit of `s` is not zero. */
  predicate HasNonzeroDigit(s: string) {
    exists i :: 0 <= i < |s| && '1' <= s[i] <= '9'
  }

  lemma HasNonzeroDigitAppend(a: string, b: string)
    ensures HasNonzeroDigit(a + b) <==> HasNonzeroDigit(a) || HasNonzeroDigit(b)
  {
    if HasNonzeroDigit(a) {
      var i :| 0 <= i < |a| && '1' <= a[i] <= '9';
      assert (a + b)[i] == a[i];
    }
    if HasNonzeroDigit(b) {
      var i :| 0 <= i < |b| && '1' <= b[i] <= '9';
      assert (a + b)[|a| + i] == b[i];
    }
    if HasNonzeroDigit(a + b) {
      var i :| 0 <= i < |a + b| && '1' <= (a + b)[i] <= '9';
      if i < |a| {
        assert a[i] == (a + b)[i];
      } else {
        assert b[i - |a|] == (a + b)[i];
      }
    }
  }

  /** A digit string denotes a non-zero number exactly when one of its digits is non-zero. */
  lemma {:induction false} NonzeroDigits(s: string)
    requires AllDigits(s)
    ensures DigitsValue(s) != 0 <==> HasNonzeroDigit(s)
    decreases |s|
  {
    if s != [] {
      var s' := s[..|s| - 1];
      NonzeroDigits(s');
      if HasNonzeroDigit(s') {
        var i :| 0 <= i < |s'| && '1' <= s'[i] <= '9';
        assert s[i] == s'[i];
      }
      if HasNonzeroDigit(s) {
        var i :| 0 <= i < |s| && '1' <= s[i] <= '9';
        if i < |s'| {
          assert s'[i] == s[i];
        }
      }
    }
  }

  /**
   * The text of a number (as Python's `str` writes an int or a float) says
   * the number is strictly positive: no minus sign and some non-zero digit.
   * The text `nan` has no digit at all.
   */
  predicate DenotesPositive(t: string) {
    |t| > 0 && t[0] != '-' && HasNonzeroDigit(t)
  }

  /** Python's `str(i)` for an integer. */
  function IntToString(i: int): string {
    if i < 0 then "-" + NatToString(-i) else NatToString(i)
  }

  lemma IntToStringPositive(i: int)
    ensures i > 0 <==> DenotesPositive(IntToString(i))
  {
    if i < 0 {
      assert IntToString(i)[0] == '-';
    } else {
      NonzeroDigits(NatToString(i));
    }
  }

  /** `str(n)` fits in `k` characters exactly when `n < 10^k`. */
  lemma {:induction false} NatToStringLength(n: nat, k: nat)
    requires k >= 1
    ensures |NatToString(n)| <= k <==> n < Pow10(k)
    decreases n
  {
    if n >= 10 {
      if k == 1 {
        assert Pow10(1) == 10;
      } else {
        NatToStringLength(n / 10, k - 1);
      }
    } else {
      assert Pow10(k) >= 10 by { Pow10AtLeast(k); }
    }
  }

  lemma {:induction false} Pow10AtLeast(k: nat)
    requires k >= 1
    ensures Pow10(k) >= 10
  {
    if k > 1 {
      Pow10AtLeast(k - 1);
    }
  }

  /** Value of a concatenation of digit strings. */
  lemma {:induction false} DigitsValueAppend(a: string, b: string)
    requires AllDigits(a) && AllDigits(b)
    ensures AllDigits(a + b)
    ensures DigitsValue(a + b) == DigitsValue(a) * Pow10(|b|) + DigitsValue(b)
    decreases |b|
  {
    if b == [] {
      assert a + b == a;
    } else {
      var b' := b[..|b| - 1];
      assert (a + b)[..|a + b| - 1] == a + b';
      DigitsValueAppend(a, b');
      var d := DigitValue(b[|b| - 1]);
      assert b[..|b| - 1] == b';
      assert DigitsValue(a + b) == DigitsValue(a + b') * 10 + d;
      assert DigitsValue(b) == DigitsValue(b') * 10 + d;
      ShiftDigit(DigitsValue(a), DigitsValue(b'), Pow10(|b'|), d);
    }
  }

  /** Digit strings of one length are equal when they denote the same number. */
  lemma {:induction false} DigitsInjective(a: string, b: string)
    requires AllDigits(a) && AllDigits(b) && |a| == |b|
    requires DigitsValue(a) == DigitsValue(b)
    ensures a == b
    decreases |a|
  {
    if a != [] {
      var a', b' := a[..|a| - 1], b[..|b| - 1];
      var x, y := DigitValue(a[|a| - 1]), DigitValue(b[|b| - 1]);
      assert DigitsValue(a) == DigitsValue(a') * 10 + x;
      assert DigitsValue(b) == DigitsValue(b') * 10 + y;
      assert x == y && DigitsValue(a') == DigitsValue(b');
      DigitsInjective(a', b');
      assert a == a' + [a[|a| - 1]] && b == b' + [b[|b| - 1]];
    }
  }

  /** `m` split at its `k`-th decimal digit from the right: `(m / 10^k, m % 10^k)`. */
  function SplitDigits(m: nat, k: nat): (r: (nat, nat))
    ensures r.1 < Pow10(k)
    ensures r.0 * Pow10(k) + r.1 == m
  {
    if k == 0 then (m, 0)
    else
      var r := SplitDigits(m / 10, k - 1);
      SplitStep(m, r.0, r.1, Pow10(k - 1));
      (r.0, r.1 * 10 + m % 10)
  }

  lemma SplitStep(m: nat, q: nat, f: nat, p: nat)
    requires f < p && q * p + f == m / 10
    ensures f * 10 + m % 10 < p * 10
    ensures q * (p * 10) + (f * 10 + m % 10) == m
  {
    assert (f + 1) * 10 <= p * 10;
    assert q * (p * 10) == (q * p) * 10;
  }

  lemma ShiftDigit(va: int, vb: int, p: int, d: int)
    ensures (va * p + vb) * 10 + d == va * (p * 10) + (vb * 10 + d)
  {
  }

  function Zeros(k: nat): (r: string)
    ensures |r| == k && AllDigits(r)
  {
    seq(k, _ => '0')
  }

  lemma {:induction false} ZerosValue(k: nat)
    ensures DigitsValue(Zeros(k)) == 0
  {
    if k > 0 {
      assert Zeros(k)[..k - 1] == Zeros(k - 1);
      ZerosValue(k - 1);
    }
  }

  /** Left-pad a digit string with zeros to width `k` (`%0kd`). */
  function PadLeft(s: string, k: nat): (r: string)
    requires AllDigits(s)
    ensures AllDigits(r) && |r| == if |s| < k then k else |s|
    ensures DigitsValue(r) == DigitsValue(s)
  {
    var z := Zeros(if |s| < k then k - |s| else 0);
    DigitsValueAppend(z, s);
    ZerosValue(|z|);
    z + s
  }
}
