/**
 Decoding of text and attribute values in place: newline normalisation, the five entities and
 numeric character references (StrPair::GetStr and XMLUtil in compat/tinyxml2-v34/tinyxml2.cpp).

 A string is a sequence of bytes, each held in a char.
 */
module XmlText {
  import opened Common

  const CR := '\r'
  const LF := '\n'
  const NUL := '\0'
  const MAX_CODE_POINT := 0x10FFFF

  lemma Assoc(a: string, b: string, c: string)
    ensures a + (b + c) == a + b + c
  {
  }

  lemma NonNegative(a: nat, b: nat)
    ensures a * b >= 0
  {
  }

  function Peek(t: string, i: nat): char {
    if i < |t| then t[i] else NUL
  }

  // ------------------------------------------------------------------------
  // UTF-8
  // ------------------------------------------------------------------------

  function Byte(n: int): char
    requires 0 <= n < 256
  {
    n as char
  }

  /** The low six bits behind the continuation mark. */
  function Continuation(n: nat): char {
    Byte(0x80 + n % 64)
  }

  function Utf8(n: nat): (r: string)
    requires n <= MAX_CODE_POINT
    ensures 1 <= |r| <= 4 && (n < 0x80 ==> |r| == 1)
  {
    if n < 0x80 then [Byte(n)]
    else if n < 0x800 then [Byte(0xC0 + n / 64), Continuation(n)]
    else if n < 0x10000 then [Byte(0xE0 + n / 4096), Continuation(n / 64), Continuation(n)]
    else [Byte(0xF0 + n / 262144), Continuation(n / 4096), Continuation(n / 64), Continuation(n)]
  }

  predicate IsContinuation(c: char) {
    0x80 <= c as int <= 0xBF
  }

  /** The scalar value of one character as section 3 of RFC 3629 reads it: shortest form, no surrogates. */
  function Rfc3629Value(s: string): Option<int> {
    if |s| == 1 && s[0] as int < 0x80 then Some(s[0] as int)
    else if |s| == 2 && 0xC0 <= s[0] as int < 0xE0 && IsContinuation(s[1]) then
      Scalar((s[0] as int - 0xC0) * 64 + Bits(s[1]), 0x80)
    else if |s| == 3 && 0xE0 <= s[0] as int < 0xF0 && IsContinuation(s[1]) && IsContinuation(s[2]) then
      Scalar((s[0] as int - 0xE0) * 4096 + Bits(s[1]) * 64 + Bits(s[2]), 0x800)
    else if |s| == 4 && 0xF0 <= s[0] as int < 0xF8
         && IsContinuation(s[1]) && IsContinuation(s[2]) && IsContinuation(s[3]) then
      Scalar((s[0] as int - 0xF0) * 262144 + Bits(s[1]) * 4096 + Bits(s[2]) * 64 + Bits(s[3]), 0x10000)
    else None
  }

  function Bits(c: char): int {
    c as int - 0x80
  }

  predicate IsSurrogate(n: int) {
    0xD800 <= n <= 0xDFFF
  }

  function Scalar(n: int, least: int): Option<int> {
    if least <= n <= MAX_CODE_POINT && !IsSurrogate(n) then Some(n) else None
  }

  /** Every code point is written so that RFC 3629 reads it back, except exactly the surrogates. */
  lemma Utf8IsRfc3629(n: nat)
    requires n <= MAX_CODE_POINT
    ensures Rfc3629Value(Utf8(n)) == if IsSurrogate(n) then None else Some(n)
  {
    ContinuationBits(n);
    if n >= 0x800 { ContinuationBits(n / 64); }
    if n >= 0x10000 { ContinuationBits(n / 4096); }
    SixBitGroups(n);
  }

  lemma ContinuationBits(n: nat)
    ensures IsContinuation(Continuation(n)) && Bits(Continuation(n)) == n % 64
  {
  }

  lemma SixBitGroups(n: nat)
    ensures n == n / 64 * 64 + n % 64
    ensures n == n / 4096 * 4096 + n / 64 % 64 * 64 + n % 64
    ensures n == n / 262144 * 262144 + n / 4096 % 64 * 4096 + n / 64 % 64 * 64 + n % 64
  {
    var a := n / 64;
    var b := a / 64;
    var c := b / 64;
    assert n == 64 * a + n % 64 && a == 64 * b + a % 64 && b == 64 * c + b % 64;
    QuotientIs(n, 4096, b, 64 * (a % 64) + n % 64);
    QuotientIs(n, 262144, c, 4096 * (b % 64) + 64 * (a % 64) + n % 64);
  }

  lemma QuotientIs(n: nat, d: nat, q: nat, r: nat)
    requires d == 4096 || d == 262144
    requires r < d && n == q * d + r
    ensures n / d == q
  {
  }

  // ------------------------------------------------------------------------
  // Numeric character references
  // ------------------------------------------------------------------------

  function Digit(c: char, hex: bool): (d: Option<nat>)
    ensures d.Some? ==> d.value < if hex then 16 else 10
  {
    if '0' <= c <= '9' then Some(c as int - '0' as int)
    else if hex && 'a' <= c <= 'f' then Some(c as int - 'a' as int + 10)
    else if hex && 'A' <= c <= 'F' then Some(c as int - 'A' as int + 10)
    else None
  }

  function Radix(hex: bool): nat {
    if hex then 16 else 10
  }

  function Clamped(mult: nat): nat {
    if mult > MAX_CODE_POINT then MAX_CODE_POINT else mult
  }

  function Terminator(hex: bool): char {
    if hex then 'x' else '#'
  }

  /** The value of the digits of `s` up to index `q`, read from the right as far as the terminator. */
  function ReadBack(s: string, q: nat, hex: bool, ucs: nat, mult: nat): (r: Option<nat>)
    requires exists i :: 0 <= i <= q < |s| && s[i] == Terminator(hex)
    requires ucs <= MAX_CODE_POINT
    ensures r.Some? ==> r.value <= MAX_CODE_POINT
  {
    if s[q] == Terminator(hex) then Some(ucs)
    else
      var digit := Digit(s[q], hex);
      if digit.None? then None
      else
        var scaled := mult * digit.value;
        if scaled > MAX_CODE_POINT || ucs > MAX_CODE_POINT - scaled then None
        else ReadBack(s, q - 1, hex, ucs + scaled, Clamped(mult * Radix(hex)))
  }

  /** The index of the first `c` at or behind `from`, or the length. */
  function IndexFrom(s: string, c: char, from: nat): (i: nat)
    requires from <= |s|
    ensures from <= i <= |s| && (i < |s| ==> s[i] == c) && forall j :: from <= j < i ==> s[j] != c
    decreases |s| - from
  {
    if from == |s| || s[from] == c then from else IndexFrom(s, c, from + 1)
  }

  /** What a reference at the start of `s`, which begins with "&#", consumes and stands for. */
  function CharRef(s: string): (r: Option<(nat, string)>)
    requires |s| >= 2 && s[0] == '&' && s[1] == '#'
    ensures r.Some? ==> 1 <= r.value.0 <= |s| && |r.value.1| <= r.value.0
  {
    if |s| == 2 then Some((1, []))
    else
      var hex := s[2] == 'x';
      var start := if hex then 3 else 2;
      if start == |s| then None
      else
        var semicolon := IndexFrom(s, ';', start);
        if semicolon == |s| then None
        else
          assert s[start - 1] == Terminator(hex);
          var ucs := ReadBack(s, semicolon - 1, hex, 0, 1);
          if ucs.None? then None
          else
            FewDigits(s, semicolon - 1, hex);
            Some((semicolon + 1, Utf8(ucs.value)))
  }

  /** With no digit at all the value is 0, which takes one byte. */
  lemma FewDigits(s: string, q: nat, hex: bool)
    requires exists i :: 0 <= i <= q < |s| && s[i] == Terminator(hex)
    ensures s[q] == Terminator(hex) ==> ReadBack(s, q, hex, 0, 1) == Some(0)
  {
  }

  // ------------------------------------------------------------------------
  // References read as XML 1.0 means them
  // ------------------------------------------------------------------------

  /** The digits of `s`, which must all be digits. */
  predicate AllDigits(s: string, hex: bool) {
    forall i :: 0 <= i < |s| ==> Digit(s[i], hex).Some?
  }

  function NumberOf(s: string, hex: bool): nat
    requires AllDigits(s, hex)
  {
    if s == [] then 0 else NumberOf(s[..|s| - 1], hex) * Radix(hex) + Digit(s[|s| - 1], hex).value
  }

  /** How many digits from the right keep their exact weight. */
  function ExactDigits(hex: bool): nat {
    if hex then 6 else 7
  }

  function Power(radix: nat, k: nat): nat {
    if k == 0 then 1 else radix * Power(radix, k - 1)
  }

  /** The digits in the order the code reads them, without the text around them. */
  function ReadDigits(s: string, hex: bool, ucs: nat, mult: nat): (r: Option<nat>)
    requires AllDigits(s, hex) && ucs <= MAX_CODE_POINT
  {
    if s == [] then Some(ucs)
    else
      var scaled := mult * Digit(s[|s| - 1], hex).value;
      if scaled > MAX_CODE_POINT || ucs > MAX_CODE_POINT - scaled then None
      else ReadDigits(s[..|s| - 1], hex, ucs + scaled, Clamped(mult * Radix(hex)))
  }

  lemma {:induction false} ReadBackDigits(s: string, start: nat, q: int, hex: bool, ucs: nat, mult: nat)
    requires 1 <= start <= q + 1 <= |s| && s[start - 1] == Terminator(hex) && AllDigits(s[start..q + 1], hex)
    requires ucs <= MAX_CODE_POINT
    ensures ReadBack(s, q, hex, ucs, mult) == ReadDigits(s[start..q + 1], hex, ucs, mult)
    decreases q
  {
    var ds := s[start..q + 1];
    if ds != [] {
      assert ds[|ds| - 1] == s[q] && s[q] != Terminator(hex);
      var scaled := mult * Digit(s[q], hex).value;
      if scaled <= MAX_CODE_POINT && ucs <= MAX_CODE_POINT - scaled {
        assert ds[..|ds| - 1] == s[start..q];
        ReadBackDigits(s, start, q - 1, hex, ucs + scaled, Clamped(mult * Radix(hex)));
      }
    }
  }

  lemma PowerBounds(hex: bool)
    ensures Power(Radix(hex), ExactDigits(hex) - 1) <= MAX_CODE_POINT < Power(Radix(hex), ExactDigits(hex))
  {
    if hex {
      assert Power(16, 3) == 4096;
      assert Power(16, 6) == 0x100_0000;
    } else {
      assert Power(10, 3) == 1000;
      assert Power(10, 6) == 1_000_000;
    }
  }

  lemma PowerGrows(r: nat, k: nat)
    requires r >= 1
    ensures 1 <= Power(r, k) <= Power(r, k + 1)
  {
    if k > 0 { PowerGrows(r, k - 1); }
    MulGrows(r, Power(r, k));
  }

  lemma PowerMonotone(r: nat, i: nat, j: nat)
    requires r >= 1 && i <= j
    ensures 1 <= Power(r, i) <= Power(r, j)
    decreases j
  {
    if i < j {
      PowerMonotone(r, i, j - 1);
      PowerGrows(r, j - 1);
    } else {
      PowerGrows(r, i);
    }
  }

  lemma Weigh(p: nat, r: nat, n: nat, d: nat)
    ensures p * (n * r + d) == r * p * n + p * d && r * p * n >= 0
  {
    assert p * (n * r + d) == p * (n * r) + p * d;
    assert p * (n * r) == r * p * n;
  }

  lemma MulGrows(h: nat, p: nat)
    ensures h >= 1 ==> h * p >= p
    ensures h == 0 ==> h * p == 0
  {
    if h >= 1 {
      NonNegative(h - 1, p);
      assert (h - 1) * p == h * p - p;
    }
  }

  lemma Shift(h: nat, p: nat, n: nat, r: nat, d: nat)
    ensures (h * p + n) * r + d == h * (r * p) + (n * r + d)
  {
    assert (h * p + n) * r == h * p * r + n * r;
    assert h * p * r == h * (r * p);
  }

  /** The digits that keep their exact weight add up, or stop the reading when they are too many. */
  lemma {:induction false} ReadExact(high: string, low: string, hex: bool, ucs: nat, j: nat)
    requires AllDigits(high, hex) && AllDigits(low, hex) && ucs <= MAX_CODE_POINT && j + |low| <= ExactDigits(hex)
    ensures AllDigits(high + low, hex)
    ensures
      var r := Radix(hex);
      var sum := ucs + Power(r, j) * NumberOf(low, hex);
      ReadDigits(high + low, hex, ucs, Clamped(Power(r, j))) ==
      if sum > MAX_CODE_POINT then None else ReadDigits(high, hex, sum, Clamped(Power(r, j + |low|)))
    decreases |low|
  {
    var r := Radix(hex);
    var p := Power(r, j);
    if low == [] { assert high + low == high; }
    else {
      var ds, rest, c := high + low, low[..|low| - 1], low[|low| - 1];
      assert ds[|ds| - 1] == c && ds[..|ds| - 1] == high + rest;
      var scaled, tail := p * Digit(c, hex).value, Power(r, j + 1) * NumberOf(rest, hex);
      assert p * NumberOf(low, hex) == tail + scaled && tail >= 0 by { WeighLast(low, hex, j); }
      assert Clamped(p) == p by {
        PowerBounds(hex);
        PowerMonotone(r, j, ExactDigits(hex) - 1);
      }
      ReadLast(ds, hex, ucs, p);
      if scaled <= MAX_CODE_POINT && ucs <= MAX_CODE_POINT - scaled {
        ReadExact(high, rest, hex, ucs + scaled, j + 1);
      }
    }
  }

  /** One digit read: what ReadDigits does first. */
  lemma ReadLast(s: string, hex: bool, ucs: nat, p: nat)
    requires AllDigits(s, hex) && ucs <= MAX_CODE_POINT && s != []
    ensures
      var scaled := p * Digit(s[|s| - 1], hex).value;
      && scaled >= 0
      && ReadDigits(s, hex, ucs, p) ==
         if scaled > MAX_CODE_POINT || ucs > MAX_CODE_POINT - scaled then None
         else ReadDigits(s[..|s| - 1], hex, ucs + scaled, Clamped(Radix(hex) * p))
  {
  }

  lemma WeighLast(low: string, hex: bool, j: nat)
    requires AllDigits(low, hex) && low != []
    ensures
      var p, r := Power(Radix(hex), j), Radix(hex);
      var tail := Power(r, j + 1) * NumberOf(low[..|low| - 1], hex);
      p * NumberOf(low, hex) == tail + p * Digit(low[|low| - 1], hex).value && tail >= 0
  {
    Weigh(Power(Radix(hex), j), Radix(hex), NumberOf(low[..|low| - 1], hex), Digit(low[|low| - 1], hex).value);
  }

  function DigitSum(s: string, hex: bool): nat
    requires AllDigits(s, hex)
  {
    if s == [] then 0 else DigitSum(s[..|s| - 1], hex) + Digit(s[|s| - 1], hex).value
  }

  /** Digits further left all weigh the largest code point. */
  lemma {:induction false} ReadClamped(s: string, hex: bool, ucs: nat)
    requires AllDigits(s, hex) && ucs <= MAX_CODE_POINT
    ensures ReadDigits(s, hex, ucs, MAX_CODE_POINT) ==
      if DigitSum(s, hex) == 0 then Some(ucs)
      else if DigitSum(s, hex) == 1 && ucs == 0 then Some(MAX_CODE_POINT)
      else None
  {
    if s != [] {
      var d := Digit(s[|s| - 1], hex).value;
      ReadClamped(s[..|s| - 1], hex, ucs);
      if d == 1 && ucs == 0 { ReadClamped(s[..|s| - 1], hex, MAX_CODE_POINT); }
      else if d >= 2 { assert MAX_CODE_POINT * d > MAX_CODE_POINT; }
    }
  }

  lemma {:induction false} SumBounds(s: string, hex: bool)
    requires AllDigits(s, hex)
    ensures DigitSum(s, hex) <= NumberOf(s, hex)
    ensures DigitSum(s, hex) == 0 ==> NumberOf(s, hex) == 0
    ensures DigitSum(s, hex) == 1 ==> NumberOf(s, hex) <= Power(Radix(hex), |s| - 1)
  {
    if s != [] {
      SumBounds(s[..|s| - 1], hex);
      var n, r := NumberOf(s[..|s| - 1], hex), Radix(hex);
      assert n * r >= n;
      PowerMonotone(r, 0, |s| - 1);
      if DigitSum(s[..|s| - 1], hex) == 1 { assert n * r <= r * Power(r, |s| - 2); }
    }
  }

  lemma {:induction false} JoinDigits(high: string, low: string, hex: bool)
    requires AllDigits(high, hex) && AllDigits(low, hex)
    ensures AllDigits(high + low, hex)
    ensures NumberOf(high + low, hex) == NumberOf(high, hex) * Power(Radix(hex), |low|) + NumberOf(low, hex)
    ensures DigitSum(high + low, hex) == DigitSum(high, hex) + DigitSum(low, hex)
  {
    var ds := high + low;
    if low == [] { assert ds == high; }
    else {
      var rest := low[..|low| - 1];
      assert ds[..|ds| - 1] == high + rest && ds[|ds| - 1] == low[|low| - 1];
      JoinDigits(high, rest, hex);
      var r, h, p := Radix(hex), NumberOf(high, hex), Power(Radix(hex), |rest|);
      Shift(h, p, NumberOf(rest, hex), r, Digit(low[|low| - 1], hex).value);
    }
  }

  /** What a number means: a code point, or nothing when it is out of range. */
  function CodePoint(n: nat): Option<nat> {
    if n <= MAX_CODE_POINT then Some(n) else None
  }

  /** A power of the radix out of range: all digits 0 but one 1. */
  predicate IsLargePower(s: string, hex: bool)
    requires AllDigits(s, hex)
  {
    DigitSum(s, hex) == 1 && NumberOf(s, hex) > MAX_CODE_POINT
  }

  lemma ReadShort(s: string, hex: bool)
    requires AllDigits(s, hex) && |s| <= ExactDigits(hex)
    ensures ReadDigits(s, hex, 0, 1) == CodePoint(NumberOf(s, hex)) && !IsLargePower(s, hex)
  {
    assert [] + s == s;
    ReadExact([], s, hex, 0, 0);
    SumBounds(s, hex);
    PowerBounds(hex);
    if DigitSum(s, hex) == 1 { PowerMonotone(Radix(hex), |s| - 1, ExactDigits(hex) - 1); }
  }

  lemma ReadLong(high: string, low: string, hex: bool)
    requires AllDigits(high, hex) && AllDigits(low, hex) && |low| == ExactDigits(hex)
    ensures AllDigits(high + low, hex)
    ensures
      var s := high + low;
      if IsLargePower(s, hex) then ReadDigits(s, hex, 0, 1) == Some(MAX_CODE_POINT)
      else ReadDigits(s, hex, 0, 1) == CodePoint(NumberOf(s, hex))
  {
    ReadExact(high, low, hex, 0, 0);
    JoinDigits(high, low, hex);
    PowerBounds(hex);
    SumBounds(high, hex);
    SumBounds(low, hex);
    var p, h, l := Power(Radix(hex), |low|), NumberOf(high, hex), NumberOf(low, hex);
    if l <= MAX_CODE_POINT { ReadClamped(high, hex, l); }
    MulGrows(h, p);
    if DigitSum(low, hex) == 1 { PowerMonotone(Radix(hex), |low| - 1, ExactDigits(hex) - 1); }
  }

  /**
   The code reads every number as it is meant, with one exception: a power of the radix beyond the
   last code point is read as the last code point instead of being refused.
   */
  lemma ReadsAsMeant(s: string, hex: bool)
    requires AllDigits(s, hex)
    ensures ReadDigits(s, hex, 0, 1) == CodePoint(NumberOf(s, hex)) <==> !IsLargePower(s, hex)
    ensures IsLargePower(s, hex) ==> ReadDigits(s, hex, 0, 1) == Some(MAX_CODE_POINT)
  {
    if |s| <= ExactDigits(hex) { ReadShort(s, hex); }
    else {
      var high, low := s[..|s| - ExactDigits(hex)], s[|s| - ExactDigits(hex)..];
      assert s == high + low;
      ReadLong(high, low, hex);
    }
  }
}
