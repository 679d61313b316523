/**
 * The few string operations the panel relies on: Python's `str(n)` and
 * `bin(n)[2:]` (digits of a natural number), `int(s)` / `int(s, 2)` on a
 * plain digit string, `str.zfill`, and the `split(sep)[0]` / `split(sep)[1]`
 * projections used to take numbers out of keys and topics.
 */
module Text {
  import opened Wrappers

  predicate IsDigitIn(c: char, base: nat) {
    '0' <= c && (c as int) - ('0' as int) < base
  }

  predicate AllDigitsIn(s: string, base: nat) {
    forall i :: 0 <= i < |s| ==> IsDigitIn(s[i], base)
  }

  function DigitChar(d: nat): (c: char)
    requires d < 10
    ensures IsDigitIn(c, d + 1) && DigitValue(c) == d
  {
    (('0' as int) + d) as char
  }

  function DigitValue(c: char): (d: nat)
    requires '0' <= c
    ensures IsDigitIn(c, d + 1)
  {
    (c as int) - ('0' as int)
  }

  /** The digits of `n` in `base`, most significant first, without leading zeros ("0" for 0). */
  function ToDigits(n: nat, base: nat): (s: string)
    requires 2 <= base <= 10
    ensures |s| >= 1 && AllDigitsIn(s, base)
    ensures n > 0 ==> s[0] != '0'
    decreases n
  {
    if n < base then [DigitChar(n)]
    else ToDigits(n / base, base) + [DigitChar(n % base)]
  }

  /** Value of a digit string read most significant digit first. */
  function DigitsValue(s: string, base: nat): nat
    requires AllDigitsIn(s, base)
  {
    if s == [] then 0
    else base * DigitsValue(s[..|s| - 1], base) + DigitValue(s[|s| - 1])
  }

  /** Python's `int(s, base)` restricted to plain digit strings: the empty string and
      any other character are the ValueError path. */
  function ParseNat(s: string, base: nat): (r: Option<nat>)
    ensures r.Some? <==> s != [] && AllDigitsIn(s, base)
  {
    if s != [] && AllDigitsIn(s, base) then Some(DigitsValue(s, base)) else None
  }

  /** Python's `str(n)` for a natural number. */
  function NatToString(n: nat): (s: string)
    ensures |s| >= 1 && AllDigitsIn(s, 10)
  {
    ToDigits(n, 10)
  }

  /** `int(str(n)) == n`, in any base from 2 to 10. */
  lemma ParseToDigits(n: nat, base: nat)
    requires 2 <= base <= 10
    ensures ParseNat(ToDigits(n, base), base) == Some(n)
  {
    ToDigitsValue(n, base);
  }

  lemma {:induction false} ToDigitsValue(n: nat, base: nat)
    requires 2 <= base <= 10
    ensures DigitsValue(ToDigits(n, base), base) == n
    decreases n
  {
    if n < base {
      SingleDigitValue(n, base);
    } else {
      assert n / base < n;
      ToDigitsValue(n / base, base);
      LastDigitStep(n, base);
    }
  }

  lemma SingleDigitValue(n: nat, base: nat)
    requires 2 <= base <= 10 && n < base
    ensures DigitsValue(ToDigits(n, base), base) == n
  {
    var s := ToDigits(n, base);
    assert s[..|s| - 1] == [];
  }

  /** Appending the last digit multiplies the value of the others by the base. */
  lemma LastDigitStep(n: nat, base: nat)
    requires 2 <= base <= 10 && n >= base
    requires DigitsValue(ToDigits(n / base, base), base) == n / base
    ensures DigitsValue(ToDigits(n, base), base) == n
  {
    var s, init := ToDigits(n, base), ToDigits(n / base, base);
    assert s[..|s| - 1] == init;
    assert DigitsValue(s, base) == base * (n / base) + DigitValue(DigitChar(n % base));
    DivMod(n, base);
  }

  lemma DivMod(n: nat, base: nat)
    requires base > 0
    ensures n == base * (n / base) + n % base
  {
  }

  /** Leading zeros do not change the value of a digit string. */
  lemma {:induction false} LeadingZerosValue(k: nat, s: string, base: nat)
    requires AllDigitsIn(s, base)
    requires base >= 1
    ensures AllDigitsIn(Zeros(k) + s, base)
    ensures DigitsValue(Zeros(k) + s, base) == DigitsValue(s, base)
    decreases |s|
  {
    var t := Zeros(k) + s;
    assert AllDigitsIn(t, base) by {
      forall i | 0 <= i < |t| ensures IsDigitIn(t[i], base) {
        if i < k { assert t[i] == '0'; } else { assert t[i] == s[i - k]; }
      }
    }
    if s == [] {
      assert t == Zeros(k);
      ZerosValue(k, base);
    } else {
      LeadingZerosValue(k, s[..|s| - 1], base);
      assert t[..|t| - 1] == Zeros(k) + s[..|s| - 1];
    }
  }

  lemma {:induction false} ZerosValue(k: nat, base: nat)
    requires base >= 1
    ensures AllDigitsIn(Zeros(k), base) && DigitsValue(Zeros(k), base) == 0
  {
    if k > 0 {
      ZerosValue(k - 1, base);
      assert Zeros(k)[..k - 1] == Zeros(k - 1);
    }
  }

  function Zeros(k: nat): (z: string)
    ensures |z| == k && forall i :: 0 <= i < k ==> z[i] == '0'
  {
    seq(k, _ => '0')
  }

  /** Python's `s.zfill(width)` on a string without a sign. */
  function ZFill(s: string, width: nat): (r: string)
    ensures |r| == if |s| < width then width else |s|
    ensures r[|r| - |s|..] == s
    ensures forall i :: 0 <= i < |r| - |s| ==> r[i] == '0'
  {
    if |s| < width then Zeros(width - |s|) + s else s
  }

  function IndexOf(s: string, c: char): (i: nat)
    requires c in s
    ensures i < |s| && s[i] == c && c !in s[..i]
  {
    if s[0] == c then 0 else 1 + IndexOf(s[1..], c)
  }

  /** `s.split(sep)[0]`: everything before the first `sep`, or all of `s`. */
  function Before(s: string, sep: char): (r: string)
    ensures sep !in r
    ensures sep !in s ==> r == s
    ensures sep in s ==> r == s[..IndexOf(s, sep)]
  {
    if sep in s then s[..IndexOf(s, sep)] else s
  }

  /** What follows the first `sep`; with it, `s.split(sep)[1] == Before(After(s, sep), sep)`. */
  function After(s: string, sep: char): (r: string)
    requires sep in s
    ensures s == s[..IndexOf(s, sep)] + [sep] + r
  {
    s[IndexOf(s, sep) + 1..]
  }

  /** Text before the first separator is found again by `Before`, and what follows by `After`. */
  lemma {:induction false} SplitAt(p: string, sep: char, q: string)
    requires sep !in p
    ensures sep in p + [sep] + q
    ensures Before(p + [sep] + q, sep) == p
    ensures After(p + [sep] + q, sep) == q
  {
    var s := p + [sep] + q;
    assert s[|p|] == sep;
    IndexOfPrefixFree(p, sep, [sep] + q);
    assert p + [sep] + q == p + ([sep] + q);
  }

  lemma {:induction false} IndexOfPrefixFree(p: string, c: char, t: string)
    requires c !in p && c in t
    ensures c in p + t && IndexOf(p + t, c) == |p| + IndexOf(t, c)
  {
    assert (p + t)[|p| + IndexOf(t, c)] == c;
    if p != [] {
      assert (p + t)[1..] == p[1..] + t;
      IndexOfPrefixFree(p[1..], c, t);
    }
  }

  predicate HasPrefix(s: string, p: string) {
    |p| <= |s| && s[..|p|] == p
  }

  predicate HasSuffix(s: string, p: string) {
    |p| <= |s| && s[|s| - |p|..] == p
  }

  lemma PrefixSuffix(p: string, m: string, q: string)
    ensures HasPrefix(p + m + q, p) && HasSuffix(p + m + q, q)
  {
    assert (p + m + q)[..|p|] == p;
    assert (p + m + q)[|p + m|..] == q;
  }
}
