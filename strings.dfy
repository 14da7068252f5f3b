/** Models of the Python string built-ins that the downloader relies on:
    substring tests (`pat in s`), `s.split(sep)[0]`, `s.split('/')[-1]`,
    `startswith`, `lower`, `isalnum`, `rstrip` and the `{n:0Wd}` format.
    Characters are treated as ASCII. */
module Strings {

  /** `pat` occurs in `s` starting at position `i`. */
  predicate OccursAt(s: string, pat: string, i: nat) {
    i + |pat| <= |s| && s[i..i + |pat|] == pat
  }

  /** Python's `pat in s` for strings. */
  predicate Contains(s: string, pat: string) {
    exists i: nat :: i <= |s| && OccursAt(s, pat, i)
  }

  /** Python's `s.startswith(p)`. */
  predicate StartsWith(s: string, p: string) {
    |p| <= |s| && s[..|p|] == p
  }

  /** A one-character pattern occurs exactly where that character is. */
  lemma OccursAtChar(s: string, c: char, i: nat)
    ensures OccursAt(s, [c], i) <==> i < |s| && s[i] == c
  {
    if i < |s| {
      assert s[i..i + 1] == [s[i]];
    }
  }

  /** An occurrence inside a prefix is an occurrence in the whole string. */
  lemma OccursInPrefix(s: string, k: nat, pat: string, i: nat)
    requires k <= |s|
    requires OccursAt(s[..k], pat, i)
    ensures OccursAt(s, pat, i)
  {
    assert s[..k][i..i + |pat|] == s[i..i + |pat|];
  }

  /** Python's `s.split('/')[-1]`: the part after the last slash. */
  function LastSegment(s: string): (r: string)
    ensures '/' !in r
    ensures |r| <= |s| && s[|s| - |r|..] == r
    ensures |r| < |s| ==> s[|s| - |r| - 1] == '/'
  {
    if s == [] then []
    else if s[|s| - 1] == '/' then []
    else
      var init := s[..|s| - 1];
      var r0 := LastSegment(init);
      assert s[|s| - 1 - |r0|..] == init[|init| - |r0|..] + [s[|s| - 1]];
      r0 + [s[|s| - 1]]
  }

  /** Python's `s.split(sep)[0]` for a non-empty separator: everything
      before the first occurrence of `sep`, or all of `s` if there is none. */
  function BeforeFirst(s: string, sep: string): (r: string)
    requires sep != []
    ensures |r| <= |s| && r == s[..|r|]
  {
    if s == [] || StartsWith(s, sep) then [] else [s[0]] + BeforeFirst(s[1..], sep)
  }

  /** `BeforeFirst` stops exactly at the first occurrence of `sep`: none
      starts earlier, and unless the whole string was kept, one starts
      right where the result ends. */
  lemma {:induction false} BeforeFirstSpec(s: string, sep: string)
    requires sep != []
    ensures forall i: nat :: i < |BeforeFirst(s, sep)| ==> !OccursAt(s, sep, i)
    ensures BeforeFirst(s, sep) == s || OccursAt(s, sep, |BeforeFirst(s, sep)|)
  {
    if s != [] && !StartsWith(s, sep) {
      var t := s[1..];
      var r0 := BeforeFirst(t, sep);
      BeforeFirstSpec(t, sep);
      forall i: nat | i < |r0| + 1
        ensures !OccursAt(s, sep, i)
      {
        if i == 0 {
          if |sep| <= |s| {
            assert s[0..|sep|] == s[..|sep|];
          }
        } else if i + |sep| <= |s| {
          SliceOfTail(s, i - 1, |sep|);
          assert !OccursAt(t, sep, i - 1);
        }
      }
      if r0 != t {
        SliceOfTail(s, |r0|, |sep|);
      }
    }
  }

  lemma SliceOfTail(s: string, i: nat, n: nat)
    requires 0 < |s| && i + n <= |s| - 1
    ensures s[1..][i..i + n] == s[i + 1..i + 1 + n]
  {
  }

  /** The part before the first `sep` never contains `sep`. */
  lemma BeforeFirstExcludes(s: string, sep: string)
    requires sep != []
    ensures !Contains(BeforeFirst(s, sep), sep)
  {
    var r := BeforeFirst(s, sep);
    BeforeFirstSpec(s, sep);
    forall i: nat | i <= |r|
      ensures !OccursAt(r, sep, i)
    {
      if OccursAt(r, sep, i) {
        OccursInPrefix(s, |r|, sep, i);
      }
    }
  }

  /** Cutting a prefix of a string that contains no `pat` leaves no `pat`. */
  lemma PrefixExcludes(s: string, k: nat, pat: string)
    requires k <= |s|
    requires !Contains(s, pat)
    ensures !Contains(s[..k], pat)
  {
    forall i: nat | i <= k
      ensures !OccursAt(s[..k], pat, i)
    {
      if OccursAt(s[..k], pat, i) {
        OccursInPrefix(s, k, pat, i);
      }
    }
  }

  /** ASCII model of `str.isalnum` for one character. */
  predicate IsAlnum(c: char) {
    ('a' <= c <= 'z') || ('A' <= c <= 'Z') || ('0' <= c <= '9')
  }

  /** The ASCII characters that `str.rstrip()` removes: space, tab, the
      line and page breaks, and the separators `\x1c` to `\x1f`. */
  predicate IsSpace(c: char) {
    c == ' ' || ('\t' <= c <= '\r') || ('\U{001C}' <= c <= '\U{001F}')
  }

  predicate IsDigit(c: char) {
    '0' <= c <= '9'
  }

  predicate AllDigits(s: string) {
    forall i :: 0 <= i < |s| ==> IsDigit(s[i])
  }

  /** ASCII model of `str.lower` for one character. */
  function LowerChar(c: char): char {
    if 'A' <= c <= 'Z' then (c as int + 32) as char else c
  }

  /** ASCII model of `str.lower`. */
  function Lower(s: string): (r: string)
    ensures |r| == |s|
    ensures forall i :: 0 <= i < |s| ==> r[i] == (if 'A' <= s[i] <= 'Z' then (s[i] as int + 32) as char else s[i])
    ensures forall i :: 0 <= i < |s| ==> !('A' <= r[i] <= 'Z')
  {
    if s == [] then [] else [LowerChar(s[0])] + Lower(s[1..])
  }

  /** Two characters agree up to ASCII case. */
  predicate SameLetterIgnoringCase(c: char, d: char) {
    c == d || ('A' <= c <= 'Z' && d == (c as int + 32) as char)
  }

  /** `s.lower() == t` for a lower-case `t` holds exactly for the case
      variants of `t`: each character of `s` is the character of `t` or its
      capital. */
  lemma {:induction false} LowerMatches(s: string, t: string)
    requires forall i :: 0 <= i < |t| ==> !('A' <= t[i] <= 'Z')
    ensures Lower(s) == t <==> |s| == |t| && forall i :: 0 <= i < |s| ==> SameLetterIgnoringCase(s[i], t[i])
  {
    if |s| == |t| && forall i :: 0 <= i < |s| ==> SameLetterIgnoringCase(s[i], t[i]) {
      var r := Lower(s);
      forall i | 0 <= i < |s| ensures r[i] == t[i] {
        assert SameLetterIgnoringCase(s[i], t[i]);
      }
    }
  }

  /** `str.rstrip()`: drop trailing whitespace. */
  function RStrip(s: string): (r: string)
    ensures |r| <= |s| && r == s[..|r|]
    ensures r == [] || !IsSpace(r[|r| - 1])
    ensures forall i :: |r| <= i < |s| ==> IsSpace(s[i])
  {
    if s == [] || !IsSpace(s[|s| - 1]) then s
    else RStrip(s[..|s| - 1])
  }

  function DigitChar(d: nat): char
    requires d < 10
  {
    ('0' as int + d) as char
  }

  function DigitValue(c: char): nat
    requires IsDigit(c)
  {
    c as int - '0' as int
  }

  /** Python's `str(n)` for a natural number: its decimal digits. */
  function Digits(n: nat): (r: string)
    ensures |r| >= 1 && AllDigits(r)
  {
    if n < 10 then [DigitChar(n)] else Digits(n / 10) + [DigitChar(n % 10)]
  }

  /** `str(n)` has no leading zero: only `0` itself starts with `0`. */
  lemma {:induction false} DigitsNoLeadingZero(n: nat)
    ensures Digits(n)[0] == '0' <==> n == 0
    ensures n == 0 ==> Digits(n) == "0"
  {
    if n >= 10 {
      DigitsNoLeadingZero(n / 10);
      assert Digits(n)[0] == Digits(n / 10)[0];
    }
  }

  /** Python's `f"{n:0{w}d}"` for a natural number: its digits, padded on
      the left with zeros to at least `w` characters. */
  function ZeroPadded(n: nat, w: nat): (r: string)
    ensures AllDigits(r)
  {
    var d := Digits(n);
    if |d| >= w then d else Zeros(w - |d|) + d
  }

  function Zeros(k: nat): (r: string)
    ensures |r| == k && forall i :: 0 <= i < k ==> r[i] == '0'
  {
    if k == 0 then [] else ['0'] + Zeros(k - 1)
  }

  /** The number a string of decimal digits denotes (Python's `int(s)`). */
  function DecimalValue(s: string): nat
    requires AllDigits(s)
  {
    if s == [] then 0 else 10 * DecimalValue(s[..|s| - 1]) + DigitValue(s[|s| - 1])
  }

  /** Reading back the digits of `n` gives `n`. */
  lemma {:induction false} DigitsRoundTrip(n: nat)
    ensures DecimalValue(Digits(n)) == n
  {
    if n >= 10 {
      var d := Digits(n);
      assert d[..|d| - 1] == Digits(n / 10);
      DigitsRoundTrip(n / 10);
    }
  }

  /** A leading zero does not change the value of a digit string. */
  lemma {:induction false} LeadingZero(s: string)
    requires AllDigits(s)
    ensures AllDigits(['0'] + s) && DecimalValue(['0'] + s) == DecimalValue(s)
  {
    if s != [] {
      assert (['0'] + s)[..|s|] == ['0'] + s[..|s| - 1];
      LeadingZero(s[..|s| - 1]);
    }
  }

  lemma {:induction false} LeadingZeros(k: nat, s: string)
    requires AllDigits(s)
    ensures AllDigits(Zeros(k) + s) && DecimalValue(Zeros(k) + s) == DecimalValue(s)
  {
    if k > 0 {
      var rest := Zeros(k - 1) + s;
      assert Zeros(k) + s == ['0'] + rest;
      LeadingZeros(k - 1, s);
      LeadingZero(rest);
      assert DecimalValue(['0'] + rest) == DecimalValue(s);
    } else {
      assert Zeros(k) + s == s;
    }
  }

  /** The zero-padded rendering is at least `w` long (and no longer than
      it has to be) and reads back as `n`. */
  lemma {:induction false} ZeroPaddedRoundTrip(n: nat, w: nat)
    ensures |ZeroPadded(n, w)| >= w
    ensures |ZeroPadded(n, w)| == if |Digits(n)| >= w then |Digits(n)| else w
    ensures DecimalValue(ZeroPadded(n, w)) == n
  {
    DigitsRoundTrip(n);
    var d := Digits(n);
    if |d| < w {
      var z := Zeros(w - |d|);
      assert ZeroPadded(n, w) == z + d;
      LeadingZeros(w - |d|, d);
    } else {
      assert ZeroPadded(n, w) == d;
    }
  }
}
