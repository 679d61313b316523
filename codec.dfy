/**
 * Bit packing of a switch bank (gui.py `SwitchboardWidget.publish_state` and
 * `apply_value`). Switch j is bit j of the packed value: `publish_state` writes
 * the states last switch first and parses the text in base 2.
 */
module Codec {
  import opened Wrappers
  import opened Text

  /** The state of one switch: 0 (inactive) or 1 (active). */
  type Bit = x: int | 0 <= x <= 1

  /** The number of switches `apply_value` pads to. */
  const BankWidth: nat := 12

  function Pow2(n: nat): (p: nat)
    ensures p >= 1
  {
    if n == 0 then 1 else 2 * Pow2(n - 1)
  }

  /** Reference meaning of a bank: switch j weighs 2^j. */
  function Value(s: seq<Bit>): nat {
    if s == [] then 0 else s[0] + 2 * Value(s[1..])
  }

  /** `set_state_silent`'s normalisation: any nonzero argument means active. */
  function Normalize(x: int): (b: Bit)
    ensures b == 1 <==> x != 0
  {
    if x != 0 then 1 else 0
  }

  /** The text `publish_state` builds: one digit per switch, last switch first. */
  function BitString(s: seq<Bit>): (t: string)
    ensures |t| == |s| && AllDigitsIn(t, 2)
  {
    if s == [] then [] else BitString(s[1..]) + [DigitChar(s[0])]
  }

  /** Character p of the text is the state of switch |s| - 1 - p. */
  lemma {:induction false} BitStringAt(s: seq<Bit>, p: nat)
    requires p < |s|
    ensures BitString(s)[p] == DigitChar(s[|s| - 1 - p])
  {
    if p < |s| - 1 {
      BitStringAt(s[1..], p);
    }
  }

  /** Reading the text in base 2 gives the reference weight. */
  lemma {:induction false} BitStringValue(s: seq<Bit>)
    ensures DigitsValue(BitString(s), 2) == Value(s)
  {
    if s != [] {
      var t := BitString(s);
      assert t[..|t| - 1] == BitString(s[1..]);
      BitStringValue(s[1..]);
    }
  }

  /** A bank of n switches packs into [0, 2^n - 1]. */
  lemma {:induction false} ValueBound(s: seq<Bit>)
    ensures Value(s) < Pow2(|s|)
  {
    if s != [] {
      ValueBound(s[1..]);
    }
  }

  /** `int(bitstring, 2)` in `publish_state`: switch j becomes bit j. */
  function Encode(s: seq<Bit>): (v: nat)
    requires |s| > 0
    ensures v == Value(s) && v < Pow2(|s|)
  {
    BitStringValue(s);
    ValueBound(s);
    ParseNat(BitString(s), 2).value
  }

  function AllSame(n: nat, b: Bit): (s: seq<Bit>)
    ensures |s| == n && forall k :: 0 <= k < n ==> s[k] == b
  {
    seq(n, _ => b)
  }

  /** The bank whose only active switch is j. */
  function OnlyActive(n: nat, j: nat): (s: seq<Bit>)
    ensures |s| == n && forall k :: 0 <= k < n ==> s[k] == if k == j then 1 else 0
  {
    seq(n, k => if k == j then 1 else 0)
  }

  lemma {:induction false} AllZeroValue(n: nat)
    ensures Value(AllSame(n, 0)) == 0
  {
    if n > 0 {
      assert AllSame(n, 0)[1..] == AllSame(n - 1, 0);
      AllZeroValue(n - 1);
    }
  }

  lemma {:induction false} AllOneValue(n: nat)
    ensures Value(AllSame(n, 1)) == Pow2(n) - 1
  {
    if n > 0 {
      assert AllSame(n, 1)[1..] == AllSame(n - 1, 1);
      AllOneValue(n - 1);
    }
  }

  lemma {:induction false} OnlyActiveValue(n: nat, j: nat)
    requires j < n
    ensures Value(OnlyActive(n, j)) == Pow2(j)
  {
    if j == 0 {
      assert OnlyActive(n, 0)[1..] == AllSame(n - 1, 0);
      AllZeroValue(n - 1);
    } else {
      assert OnlyActive(n, j)[1..] == OnlyActive(n - 1, j - 1);
      OnlyActiveValue(n - 1, j - 1);
    }
  }

  /** All inactive encodes to 0, all active to 2^n - 1 (4095 for twelve switches),
      and the bank whose only active switch is j to 2^j. */
  lemma EncodeExtremes(n: nat, j: nat)
    requires 0 <= j < n
    ensures Encode(AllSame(n, 0)) == 0
    ensures Encode(AllSame(n, 1)) == Pow2(n) - 1
    ensures Encode(OnlyActive(n, j)) == Pow2(j)
  {
    AllZeroValue(n);
    AllOneValue(n);
    OnlyActiveValue(n, j);
  }

  lemma TwelveSwitchExamples()
    ensures Encode(AllSame(BankWidth, 1)) == 4095
    ensures Encode(OnlyActive(BankWidth, 11)) == 2048
    ensures Encode(OnlyActive(BankWidth, 0)) == 1
  {
    EncodeExtremes(BankWidth, 11);
    EncodeExtremes(BankWidth, 0);
    assert Pow2(12) == 4096;
  }

  /** The intended decoding: switch k takes bit k of v, for n switches. */
  function LowBits(v: nat, n: nat): (s: seq<Bit>)
    ensures |s| == n
  {
    if n == 0 then [] else [v % 2] + LowBits(v / 2, n - 1)
  }

  /** Decoding an encoded bank gives the bank back, for any number of switches. */
  lemma {:induction false} DecodeEncode(s: seq<Bit>)
    ensures LowBits(Value(s), |s|) == s
  {
    if s != [] {
      DecodeEncode(s[1..]);
    }
  }

  /** Encoding a decoded value gives it back when it fits in n switches. */
  lemma {:induction false} EncodeDecode(v: nat, n: nat)
    requires v < Pow2(n)
    ensures Value(LowBits(v, n)) == v
  {
    if n > 0 {
      EncodeDecode(v / 2, n - 1);
    }
  }

  /** Decoding keeps the value's n low bits: what does not fit in n switches is cut off. */
  lemma {:induction false} LowBitsValue(v: nat, n: nat)
    ensures Value(LowBits(v, n)) == v % Pow2(n)
  {
    if n > 0 {
      LowBitsValue(v / 2, n - 1);
      HalfMod(v, Pow2(n - 1));
    }
  }
  lemma HalfMod(v: nat, p: nat)
    requires p >= 1
    ensures v % 2 + 2 * ((v / 2) % p) == v % (2 * p)
  {
    var h, q, r := v / 2, (v / 2) / p, (v / 2) % p;
    assert h == p * q + r;
    assert v == 2 * h + v % 2;
    var rr := 2 * r + v % 2;
    assert v == (2 * p) * q + rr by {
      assert 2 * (p * q) == (2 * p) * q;
    }
    ModUnique(v, 2 * p, q, rr);
  }
  lemma ModUnique(v: int, d: int, q: int, r: int)
    requires d > 0 && 0 <= r < d && v == d * q + r
    ensures v % d == r
  {
    var q', r' := v / d, v % d;
    assert v == d * q' + r';
    if q' > q {
      MulStep(d, q, q');
      assert false;
    } else if q' < q {
      MulStep(d, q', q);
      assert false;
    }
  }
  lemma MulStep(d: int, a: int, b: int)
    requires d > 0 && a < b
    ensures d * a + d <= d * b
  {
    MulAtLeast(d, b - a);
    assert d * b == d * a + d * (b - a);
  }
  lemma {:induction false} MulAtLeast(d: nat, k: nat)
    requires k >= 1
    ensures d * k >= d
    decreases k
  {
    if k > 1 {
      MulAtLeast(d, k - 1);
      assert d * k == d * (k - 1) + d;
    }
  }

  /** `bin(value)[2:].zfill(width)`. */
  function PaddedBin(v: nat, width: nat): (t: string)
    ensures |t| >= width && AllDigitsIn(t, 2)
  {
    var t := ZFill(ToDigits(v, 2), width);
    assert AllDigitsIn(t, 2) by {
      forall i | 0 <= i < |t| ensures IsDigitIn(t[i], 2) {
        var d := ToDigits(v, 2);
        if i >= |t| - |d| { assert t[i] == d[i - (|t| - |d|)]; }
      }
    }
    t
  }

  /**
   * The bank `apply_value` leaves behind for n switches, as written: the value is
   * padded to twelve digits and digit i goes to switch n - 1 - i. It is None when
   * n exceeds the number of digits (the IndexError path).
   */
  function AppliedAsWritten(v: nat, n: nat): (r: Option<seq<Bit>>)
    ensures r.Some? <==> n <= |PaddedBin(v, BankWidth)|
    ensures r.Some? ==> |r.value| == n
  {
    AppliedPadded(v, n, BankWidth)
  }

  /**
   * The bank s after `apply_value(v)` as written, whether or not it raises: switch
   * k takes padded digit n - 1 - k while that digit exists; when the digits run out
   * the IndexError leaves the remaining low switches as they were.
   */
  function AfterApplyValue(v: nat, s: seq<Bit>): (r: seq<Bit>)
    ensures |r| == |s|
  {
    var bits := PaddedBin(v, BankWidth);
    var n := |s|;
    seq(n, k requires 0 <= k < n => if n - 1 - k < |bits| then DigitBit(bits, n - 1 - k) else s[k])
  }

  /** Without an IndexError the bank is the one `AppliedAsWritten` gives; with one, the
      switches below the digits keep their states. */
  lemma AfterApplyValueCases(v: nat, s: seq<Bit>)
    ensures AppliedAsWritten(v, |s|).Some? ==> AfterApplyValue(v, s) == AppliedAsWritten(v, |s|).value
    ensures AppliedAsWritten(v, |s|).None? ==>
      var m := |s| - |PaddedBin(v, BankWidth)|;
      AfterApplyValue(v, s)[..m] == s[..m]
  {
  }

  /** Digit i of the value padded to `width` digits goes to switch n - 1 - i. */
  function AppliedPadded(v: nat, n: nat, width: nat): (r: Option<seq<Bit>>)
    ensures r.Some? <==> n <= |PaddedBin(v, width)|
    ensures r.Some? ==> |r.value| == n
    ensures r.Some? ==> forall k :: 0 <= k < n ==> r.value[k] == DigitBit(PaddedBin(v, width), n - 1 - k)
  {
    AppliedDigits(PaddedBin(v, width), n)
  }

  /** The loop of `apply_value` over a digit text: digit i goes to switch n - 1 - i,
      None when the n switches outnumber the digits. */
  function AppliedDigits(bits: string, n: nat): (r: Option<seq<Bit>>)
    requires AllDigitsIn(bits, 2)
    ensures r.Some? <==> n <= |bits|
    ensures r.Some? ==> |r.value| == n
    ensures r.Some? ==> forall k :: 0 <= k < n ==> r.value[k] == DigitBit(bits, n - 1 - k)
  {
    if n <= |bits| then Some(seq(n, k requires 0 <= k < n => DigitBit(bits, n - 1 - k)))
    else None
  }

  /** `int(bitstring[i])` as `set_state_silent` stores it. */
  function DigitBit(t: string, i: nat): Bit
    requires i < |t| && AllDigitsIn(t, 2)
  {
    Normalize(DigitValue(t[i]))
  }

  lemma {:induction false} DigitsLength(u: nat, m: nat)
    requires m >= 1 && u < Pow2(m)
    ensures |ToDigits(u, 2)| <= m
    decreases m
  {
    if u >= 2 {
      DigitsLength(u / 2, m - 1);
    }
  }

  lemma {:induction false} PowMonotone(a: nat, b: nat)
    requires a <= b
    ensures Pow2(a) <= Pow2(b)
    decreases b
  {
    if a < b {
      PowMonotone(a, b - 1);
    }
  }

  /** A value of at least 2^m has more than m binary digits. */
  lemma {:induction false} DigitsAtLeast(u: nat, m: nat)
    requires u >= Pow2(m)
    ensures |ToDigits(u, 2)| > m
  {
    if m > 0 {
      DigitsAtLeast(u / 2, m - 1);
    }
  }

  /**
   * `apply_value` raises IndexError exactly when the board has more than twelve
   * switches and more switches than the value has binary digits.
   */
  lemma AsWrittenFails(v: nat, n: nat)
    ensures AppliedAsWritten(v, n).None? <==> n > BankWidth && v < Pow2(n - 1)
  {
    if n > BankWidth {
      if v < Pow2(n - 1) {
        DigitsLength(v, n - 1);
      } else {
        DigitsAtLeast(v, n - 1);
      }
    }
  }

  lemma {:induction false} ZeroBitString(m: nat)
    ensures BitString(LowBits(0, m)) == Zeros(m)
  {
    if m > 0 {
      ZeroBitString(m - 1);
    }
  }

  /** The padded binary text of a value that fits is the text `publish_state` builds for its bits. */
  lemma {:induction false} PaddedBinIsBitString(v: nat, w: nat)
    requires w >= 1 && v < Pow2(w)
    ensures PaddedBin(v, w) == BitString(LowBits(v, w))
    decreases w
  {
    var c := DigitChar(v % 2);
    var init := if v < 2 then [] else ToDigits(v / 2, 2);
    assert ToDigits(v, 2) == init + [c];
    assert LowBits(v, w) == [v % 2] + LowBits(v / 2, w - 1);
    BitStringSnoc(v % 2, LowBits(v / 2, w - 1));
    if v < 2 {
      assert v / 2 == 0;
      ZeroBitString(w - 1);
      assert ZFill(init, w - 1) == Zeros(w - 1);
    } else {
      HalfFits(v, w);
      DigitsLength(v / 2, w - 1);
      PaddedBinIsBitString(v / 2, w - 1);
    }
    ZFillSnoc(init, c, w);
  }

  lemma HalfFits(v: nat, w: nat)
    requires w >= 1 && v < Pow2(w)
    ensures v / 2 < Pow2(w - 1)
  {
  }

  lemma BitStringSnoc(b: Bit, rest: seq<Bit>)
    ensures BitString([b] + rest) == BitString(rest) + [DigitChar(b)]
  {
    assert ([b] + rest)[1..] == rest;
  }

  /** Padding a text one character longer to one more place keeps the padding. */
  lemma ZFillSnoc(s: string, c: char, w: nat)
    requires |s| < w
    ensures ZFill(s + [c], w) == ZFill(s, w - 1) + [c]
  {
    if |s| + 1 < w {
      assert Zeros(w - |s| - 1) + (s + [c]) == (Zeros(w - 1 - |s|) + s) + [c];
    }
  }

  /** Padding to exactly as many digits as there are switches writes bit k to switch k. */
  lemma PaddedMatchesWidth(v: nat, w: nat)
    requires w >= 1 && v < Pow2(w)
    ensures AppliedPadded(v, w, w) == Some(LowBits(v, w))
  {
    PaddedBinIsBitString(v, w);
    BitStringApplies(LowBits(v, w), PaddedBin(v, w));
  }

  /** Writing the text `publish_state` builds back, digit i to switch n - 1 - i, restores the bank. */
  lemma BitStringApplies(s: seq<Bit>, t: string)
    requires t == BitString(s)
    ensures AppliedDigits(t, |s|) == Some(s)
  {
    assert |t| == |s| && AllDigitsIn(t, 2);
    var r := AppliedDigits(t, |s|).value;
    forall k | 0 <= k < |s| ensures r[k] == s[k] {
      BitStringDigit(s, t, k);
    }
    assert r == s;
  }

  lemma BitStringDigit(s: seq<Bit>, t: string, k: nat)
    requires t == BitString(s) && k < |s|
    ensures |t| == |s| && DigitBit(t, |s| - 1 - k) == s[k]
  {
    BitStringAt(s, |s| - 1 - k);
    assert t[|s| - 1 - k] == DigitChar(s[k]);
  }

  /** For twelve switches and a value below 4096, `apply_value` writes bit k to switch k. */
  lemma AsWrittenTwelve(v: nat)
    requires v < Pow2(BankWidth)
    ensures AppliedAsWritten(v, BankWidth) == Some(LowBits(v, BankWidth))
  {
    PaddedMatchesWidth(v, BankWidth);
  }

  /** With twelve switches, `apply_value(encode(states))` restores every state. */
  lemma AsWrittenRoundTrip(s: seq<Bit>)
    requires |s| == BankWidth
    ensures AppliedAsWritten(Encode(s), BankWidth) == Some(s)
  {
    AsWrittenTwelve(Encode(s));
    DecodeEncode(s);
  }

  /** With twelve switches, encoding after `apply_value(v)` gives v back for v in [0, 4095]. */
  lemma AsWrittenEncodeAfterApply(v: nat)
    requires v < Pow2(BankWidth)
    ensures AppliedAsWritten(v, BankWidth).Some?
    ensures Encode(AppliedAsWritten(v, BankWidth).value) == v
  {
    AsWrittenTwelve(v);
    EncodeDecode(v, BankWidth);
  }

  /** A one-switch board: the active state encodes to 1, and `apply_value(1)` reads
      the leading padding digit back, leaving the switch inactive. */
  lemma AsWrittenLosesShortBank()
    ensures Encode([1]) == 1
    ensures AppliedAsWritten(Encode([1]), 1) == Some([0])
  {
    var bits := PaddedBin(1, BankWidth);
    assert Value([1]) == 1;
    assert ToDigits(1, 2) == ['1'];
    assert bits == Zeros(11) + ['1'];
    assert bits[0] == '0';
    var r := AppliedPadded(1, 1, BankWidth).value;
    assert r[0] == DigitBit(bits, 0) == 0;
    assert r == [0];
  }

  /** A thirteen-switch board: twelve padded digits run out before the last switch. */
  lemma AsWrittenOverrunsLongBank()
    ensures Encode(AllSame(13, 0)) == 0
    ensures AppliedAsWritten(Encode(AllSame(13, 0)), 13) == None
  {
    AllZeroValue(13);
    assert ToDigits(0, 2) == ['0'];
  }

  /** `bin(2^m)[2:]` is a one followed by m zeros. */
  lemma {:induction false} PowerDigits(m: nat)
    ensures ToDigits(Pow2(m), 2) == ['1'] + Zeros(m)
  {
    if m > 0 {
      PowerDigits(m - 1);
      assert Pow2(m) / 2 == Pow2(m - 1) && Pow2(m) % 2 == 0;
      assert ['1'] + Zeros(m - 1) + ['0'] == ['1'] + Zeros(m);
    }
  }

  /** `bin(4096)` has thirteen digits, longer than the padding width. */
  lemma PaddedPowerTwelve()
    ensures Pow2(11) == 2048
    ensures PaddedBin(4096, BankWidth) == ['1'] + Zeros(12)
  {
    assert Pow2(12) == 4096 && Pow2(11) == 2048 by {
      assert Pow2(4) == 16;
      assert Pow2(8) == 256;
    }
    PowerDigits(12);
  }

  /** Twelve switches and the value 4096: `bin` already gives thirteen digits, so
      nothing is padded and the top twelve are written; the last switch alone ends
      up active and the board then packs to 2048, not to 4096 mod 4096. */
  lemma AsWrittenKeepsTopDigits()
    ensures AppliedAsWritten(4096, BankWidth) == Some(OnlyActive(BankWidth, 11))
    ensures Encode(OnlyActive(BankWidth, 11)) == 2048
  {
    PaddedPowerTwelve();
    var bits := PaddedBin(4096, BankWidth);
    var r := AppliedPadded(4096, BankWidth, BankWidth).value;
    forall k | 0 <= k < BankWidth ensures r[k] == OnlyActive(BankWidth, 11)[k] {
      assert r[k] == DigitBit(bits, 11 - k);
    }
    assert r == OnlyActive(BankWidth, 11);
    OnlyActiveValue(BankWidth, 11);
  }
}
