/**
 * The small part of Python's string library that the handlers use:
 * lower-casing, substring tests (`in`, `startswith`), the searches behind
 * `split` and `rsplit`, and the decimal rendering of integers (`str(n)`).
 */
module Text {
  import opened Wrappers

  /** `str.lower()` on one character, for ASCII letters. */
  function LowerChar(c: char): char
  {
    if 'A' <= c <= 'Z' then (c as int - 'A' as int + 'a' as int) as char else c
  }

  /** `s.lower()`, character by character. */
  function Lower(s: string): (r: string)
    ensures |r| == |s|
    ensures forall i :: 0 <= i < |s| ==> r[i] == LowerChar(s[i])
  {
    seq(|s|, i requires 0 <= i < |s| => LowerChar(s[i]))
  }

  lemma LowerAppend(a: string, b: string)
    ensures Lower(a + b) == Lower(a) + Lower(b)
  {
  }

  /** `s.startswith(p)` */
  predicate StartsWith(s: string, p: string)
  {
    |p| <= |s| && s[..|p|] == p
  }

  /** `t` occurs in `s` starting at index `j`. */
  predicate OccursAt(s: string, t: string, j: int)
  {
    0 <= j && j + |t| <= |s| && s[j..j + |t|] == t
  }

  /**
   * `s.find(t, from)`: the first index at or after `from` where `t`
   * occurs in `s`, or None when there is none.
   */
  function FindFrom(s: string, t: string, from: nat): (r: Option<nat>)
    ensures r.Some? ==> from <= r.value && OccursAt(s, t, r.value)
    ensures r.Some? ==> forall j :: from <= j < r.value ==> !OccursAt(s, t, j)
    ensures r.None? ==> forall j :: from <= j ==> !OccursAt(s, t, j)
    decreases |s| - from
  {
    if from + |t| > |s| then None
    else if s[from..from + |t|] == t then Some(from)
    else FindFrom(s, t, from + 1)
  }

  /** Python's `t in s` for strings. */
  predicate Contains(s: string, t: string)
  {
    FindFrom(s, t, 0).Some?
  }

  lemma {:induction false} ContainsIff(s: string, t: string)
    ensures Contains(s, t) <==> exists j :: OccursAt(s, t, j)
  {
    if Contains(s, t) {
      assert OccursAt(s, t, FindFrom(s, t, 0).value);
    }
  }

  /** FindFrom returns exactly the first occurrence at or after `from`. */
  lemma FindFromIs(s: string, t: string, from: nat, k: nat)
    requires from <= k && OccursAt(s, t, k)
    requires forall j :: from <= j < k ==> !OccursAt(s, t, j)
    ensures FindFrom(s, t, from) == Some(k)
  {
  }

  /** An occurrence after a prefix is an occurrence in the rest. */
  lemma OccursAfterPrefix(a: string, b: string, t: string, k: nat)
    ensures OccursAt(a + b, t, |a| + k) <==> OccursAt(b, t, k)
  {
    if k + |t| <= |b| {
      assert (a + b)[|a| + k..|a| + k + |t|] == b[k..k + |t|];
    }
  }

  /** An occurrence inside a slice is an occurrence in the whole string, within the slice's bounds. */
  lemma OccursInSlice(s: string, t: string, lo: nat, hi: nat, k: nat)
    requires lo <= hi <= |s| && OccursAt(s[lo..hi], t, k)
    ensures OccursAt(s, t, lo + k) && lo + k + |t| <= hi
  {
    var w := s[lo..hi];
    forall i | 0 <= i < |t| ensures s[lo + k + i] == t[i] {
      assert w[k..k + |t|][i] == t[i];
    }
    assert s[lo + k..lo + k + |t|] == t;
  }

  /** A prefix is an occurrence at 0. */
  lemma StartsWithContains(s: string, t: string)
    ensures StartsWith(s, t) <==> OccursAt(s, t, 0)
    ensures StartsWith(s, t) ==> Contains(s, t)
  {
    if StartsWith(s, t) {
      assert s[0..|t|] == s[..|t|];
      ContainsIff(s, t);
    }
  }

  /**
   * `s.rfind(c)`: the index of the last `c` in `s`, or None when `c`
   * does not occur.
   */
  function LastIndexOf(s: string, c: char): (r: Option<nat>)
    ensures r.Some? ==> r.value < |s| && s[r.value] == c
    ensures r.Some? ==> forall j :: r.value < j < |s| ==> s[j] != c
    ensures r.None? ==> forall j :: 0 <= j < |s| ==> s[j] != c
  {
    if |s| == 0 then None
    else if s[|s| - 1] == c then Some(|s| - 1)
    else LastIndexOf(s[..|s| - 1], c)
  }

  /** A position of `c` with no `c` after it is the one LastIndexOf finds. */
  lemma LastIndexOfIs(s: string, c: char, k: nat)
    requires k < |s| && s[k] == c
    requires forall j :: k < j < |s| ==> s[j] != c
    ensures LastIndexOf(s, c) == Some(k)
  {
  }

  predicate IsDigit(c: char)
  {
    '0' <= c <= '9'
  }

  function DigitChar(d: nat): (c: char)
    requires d < 10
    ensures IsDigit(c)
  {
    ('0' as int + d) as char
  }

  function DigitValue(c: char): int
  {
    c as int - '0' as int
  }

  /** `str(n)` for a non-negative integer: its decimal digits, no leading zeros. */
  function NatToString(n: nat): (s: string)
    ensures |s| > 0
    ensures forall i :: 0 <= i < |s| ==> IsDigit(s[i])
    ensures s[0] == '0' <==> n == 0
    ensures n == 0 ==> s == "0"
  {
    if n < 10 then [DigitChar(n)] else NatToString(n / 10) + [DigitChar(n % 10)]
  }

  /** `str(n)` for any integer: a minus sign before the digits of a negative one. */
  function IntToString(n: int): (s: string)
    ensures |s| > 0
    ensures forall i :: 0 <= i < |s| ==> IsDigit(s[i]) || (i == 0 && s[i] == '-')
    ensures s[0] == '-' <==> n < 0
    ensures s[0] == '0' <==> n == 0
    ensures n == 0 ==> s == "0"
    ensures n < 0 ==> |s| >= 2 && s[1] != '0'
  {
    if n < 0 then "-" + NatToString(-n) else NatToString(n)
  }

  /** Reads a string of decimal digits back as a number (the inverse of NatToString). */
  function ParseDigits(s: string): int
  {
    if s == [] then 0 else ParseDigits(s[..|s| - 1]) * 10 + DigitValue(s[|s| - 1])
  }

  lemma {:induction false} ParseNatToString(n: nat)
    ensures ParseDigits(NatToString(n)) == n
  {
    if n >= 10 {
      ParseNatToString(n / 10);
      var s := NatToString(n / 10) + [DigitChar(n % 10)];
      assert s[..|s| - 1] == NatToString(n / 10);
    }
  }

  /** A digit string without a leading zero (or "0" itself), the form `str(n)` produces. */
  predicate Canonical(d: string)
  {
    && |d| > 0
    && (forall i :: 0 <= i < |d| ==> IsDigit(d[i]))
    && (d[0] == '0' ==> d == "0")
  }

  lemma DigitRoundTrip(c: char)
    requires IsDigit(c)
    ensures 0 <= DigitValue(c) < 10 && DigitChar(DigitValue(c)) == c
  {
  }

  /** Every canonical digit string is the rendering of the number it denotes. */
  lemma {:induction false} NatToStringCanonical(d: string)
    requires Canonical(d)
    ensures ParseDigits(d) >= 0 && NatToString(ParseDigits(d)) == d
  {
    var c := d[|d| - 1];
    var init := d[..|d| - 1];
    DigitRoundTrip(c);
    assert ParseDigits(init) == ParseDigits(d[..|d| - 1]);
    if |d| == 1 {
      assert init == [];
      assert ParseDigits(d) == DigitValue(c);
      assert d == [c];
    } else {
      assert init[0] == d[0] && init[0] != '0';
      assert forall i :: 0 <= i < |init| ==> init[i] == d[i];
      NatToStringCanonical(init);
      var m := ParseDigits(init);
      assert m != 0;
      var n := ParseDigits(d);
      assert n == m * 10 + DigitValue(c);
      assert n / 10 == m && n % 10 == DigitValue(c);
      assert d == init + [c];
    }
  }

  /** Distinct integers render as distinct strings. */
  lemma IntToStringInjective(m: int, n: int)
    requires IntToString(m) == IntToString(n)
    ensures m == n
  {
    if m < 0 {
      assert n < 0;
      assert NatToString(-m) == IntToString(m)[1..] == IntToString(n)[1..] == NatToString(-n);
      ParseNatToString(-m);
      ParseNatToString(-n);
    } else {
      assert n >= 0;
      ParseNatToString(m);
      ParseNatToString(n);
    }
  }
}
