/**
 References as XML 1.0 spells them (sections 4.1 and 4.6), read from the left, and how
 XMLUtil::GetCharacterRef, which reads from the semicolon back, differs from that
 (compat/tinyxml2-v34/tinyxml2.cpp).
 */
module XmlReference {
  import opened Common
  import opened XmlText
  import opened XmlDecode

  // ------------------------------------------------------------------------
  // References read from the left
  // ------------------------------------------------------------------------

  predicate BeginsNumeric(s: string) {
    |s| >= 2 && s[0] == '&' && s[1] == '#'
  }

  predicate IsHex(s: string) {
    Peek(s, 2) == 'x'
  }

  /** Where the digits of a numeric reference begin. */
  function Start(s: string): nat {
    if IsHex(s) then 3 else 2
  }

  /** How many digits `s` has from `from` on. */
  function DigitRun(s: string, from: nat, hex: bool): (k: nat)
    requires from <= |s|
    ensures from + k <= |s| && (from + k < |s| ==> Digit(s[from + k], hex).None?)
    ensures forall i :: from <= i < from + k ==> Digit(s[i], hex).Some?
    decreases |s| - from
  {
    if from == |s| || Digit(s[from], hex).None? then 0 else 1 + DigitRun(s, from + 1, hex)
  }

  /** At least one digit, a semicolon, and a number in range; `k` digits begin at `start`. */
  function NumericWith(s: string, start: nat, k: nat, hex: bool): (r: Option<(nat, string)>)
    requires start + k <= |s| && AllDigits(s[start..start + k], hex)
    ensures r.Some? ==> start + 2 <= r.value.0 <= |s| && 1 <= |r.value.1| <= 4
  {
    if k == 0 || Peek(s, start + k) != ';' then None
    else
      var n := NumberOf(s[start..start + k], hex);
      if n > MAX_CODE_POINT then None else Some((start + k + 1, Utf8(n)))
  }

  function NumericAt(s: string): (r: Option<(nat, string)>)
    requires BeginsNumeric(s)
    ensures r.Some? ==> 4 <= r.value.0 <= |s| && 1 <= |r.value.1| <= 4
  {
    if Start(s) > |s| then None else NumericWith(s, Start(s), DigitRun(s, Start(s), IsHex(s)), IsHex(s))
  }

  function NamedAt(s: string): (r: Option<(nat, string)>)
    ensures r.Some? ==> 4 <= r.value.0 <= |s| && |r.value.1| == 1
  {
    var e := EntityAt(s, 0);
    if e.None? then None else Some((|ENTITIES[e.value].pattern| + 2, [ENTITIES[e.value].value]))
  }

  /** The entity or numeric reference that `s` begins with: its length, and the bytes it stands for. */
  function ReferenceAt(s: string): (r: Option<(nat, string)>)
    ensures r.Some? ==> 4 <= r.value.0 <= |s| && 1 <= |r.value.1| <= 4
  {
    if s == [] || s[0] != '&' then None
    else if Peek(s, 1) == '#' then NumericAt(s)
    else NamedAt(s)
  }

  /** What no reference has behind its ampersand. */
  predicate IsPlainIn(c: char) {
    c != '&' && c != CR && c != LF && c != NUL
  }

  lemma NumericShape(s: string)
    requires BeginsNumeric(s) && NumericAt(s).Some?
    ensures
      var n := NumericAt(s).value.0;
      s[n - 1] == ';' && (forall j :: 1 <= j < n ==> IsPlainIn(s[j])) && forall j :: 1 <= j < n - 1 ==> s[j] != ';'
  {
    var k := DigitRun(s, Start(s), IsHex(s));
    NumericIs(s, Start(s), k, IsHex(s));
  }

  lemma PatternShape(i: nat)
    requires i < |ENTITIES|
    ensures forall j :: 0 <= j < |ENTITIES[i].pattern| ==> 'a' <= ENTITIES[i].pattern[j] <= 'z'
  {
  }

  lemma NamedShape(s: string)
    requires s != [] && NamedAt(s).Some?
    ensures
      var n := NamedAt(s).value.0;
      s[n - 1] == ';' && (forall j :: 1 <= j < n ==> IsPlainIn(s[j])) && forall j :: 1 <= j < n - 1 ==> s[j] != ';'
  {
    var i := EntityAt(s, 0).value;
    var pattern := ENTITIES[i].pattern;
    PatternShape(i);
    assert forall j :: 1 <= j < |pattern| + 1 ==> s[j] == s[1..|pattern| + 1][j - 1];
  }

  /** A reference ends at its first semicolon and has nothing inside that means anything. */
  lemma ReferenceShape(s: string)
    requires ReferenceAt(s).Some?
    ensures
      var n := ReferenceAt(s).value.0;
      s[n - 1] == ';' && (forall j :: 1 <= j < n ==> IsPlainIn(s[j])) && forall j :: 1 <= j < n - 1 ==> s[j] != ';'
  {
    if Peek(s, 1) == '#' { NumericShape(s); } else { NamedShape(s); }
  }

  // ------------------------------------------------------------------------
  // References read from the right
  // ------------------------------------------------------------------------

  /** The last `c` before `m`, or -1. */
  function LastBefore(s: string, c: char, m: nat): (i: int)
    requires m <= |s|
    ensures -1 <= i < m && (i >= 0 ==> s[i] == c) && forall j :: i < j < m ==> s[j] != c
  {
    if m == 0 then -1 else if s[m - 1] == c then m - 1 else LastBefore(s, c, m - 1)
  }

  /** The first semicolon behind the digits' place, or the length. */
  function Semicolon(s: string): (m: nat)
    requires BeginsNumeric(s)
    ensures m <= |s|
  {
    if Start(s) > |s| then |s| else IndexFrom(s, ';', Start(s))
  }

  /** Where the part begins that is behind the last '#', or 'x', before that semicolon. */
  function TailStart(s: string): (i: nat)
    requires BeginsNumeric(s)
    ensures i <= Semicolon(s)
  {
    LastBefore(s, Terminator(IsHex(s)), Semicolon(s)) + 1
  }

  function Tail(s: string): string
    requires BeginsNumeric(s)
  {
    s[TailStart(s)..Semicolon(s)]
  }

  /** What GetCharacterRef takes: digits, perhaps none, behind the last '#' or 'x' before a semicolon. */
  predicate IsTaken(s: string) {
    && BeginsNumeric(s) && Start(s) < |s| && Semicolon(s) < |s| && AllDigits(Tail(s), IsHex(s))
    && (NumberOf(Tail(s), IsHex(s)) <= MAX_CODE_POINT || IsLargePower(Tail(s), IsHex(s)))
  }

  /** The code point it reads there. */
  function TakenValue(s: string): (n: nat)
    requires IsTaken(s)
    ensures n <= MAX_CODE_POINT
  {
    if IsLargePower(Tail(s), IsHex(s)) then MAX_CODE_POINT else NumberOf(Tail(s), IsHex(s))
  }

  /** Taken for a reference although it is none: no digit, stray characters before the digits, or out of range. */
  predicate IsLenient(s: string) {
    IsTaken(s) && NumericAt(s).None?
  }

  lemma {:induction false} ReadBackStops(s: string, start: nat, q: int, hex: bool, ucs: nat, mult: nat)
    requires 1 <= start <= q + 1 <= |s| && s[start - 1] == Terminator(hex)
    requires (forall j :: start <= j <= q ==> s[j] != Terminator(hex)) && !AllDigits(s[start..q + 1], hex)
    requires ucs <= MAX_CODE_POINT
    ensures ReadBack(s, q, hex, ucs, mult) == None
    decreases q
  {
    var ds := s[start..q + 1];
    assert ds != [] && s[q] == ds[|ds| - 1];
    var digit := Digit(s[q], hex);
    if digit.Some? {
      NonNegative(mult, digit.value);
      var scaled := mult * digit.value;
      if scaled <= MAX_CODE_POINT && ucs <= MAX_CODE_POINT - scaled {
        NonNegative(mult, Radix(hex));
        assert forall i :: 0 <= i < |ds| - 1 ==> ds[i] == s[start..q][i];
        ReadBackStops(s, start, q - 1, hex, ucs + scaled, Clamped(mult * Radix(hex)));
      }
    }
  }

  lemma TailIsBehind(s: string)
    requires BeginsNumeric(s) && Start(s) < |s|
    ensures 1 <= Start(s) <= TailStart(s) <= Semicolon(s)
    ensures s[TailStart(s) - 1] == Terminator(IsHex(s))
    ensures forall j :: TailStart(s) <= j < Semicolon(s) ==> s[j] != Terminator(IsHex(s))
  {
    assert s[Start(s) - 1] == Terminator(IsHex(s));
  }

  /** GetCharacterRef in these terms, but for the text "&#". */
  lemma CharRefTakes(s: string)
    requires BeginsNumeric(s) && |s| > 2
    ensures CharRef(s) == if IsTaken(s) then Some((Semicolon(s) + 1, Utf8(TakenValue(s)))) else None
  {
    var hex, m := IsHex(s), Semicolon(s);
    if Start(s) < |s| && m < |s| {
      TailIsBehind(s);
      var t := TailStart(s);
      if AllDigits(Tail(s), hex) {
        ReadBackDigits(s, t, m - 1, hex, 0, 1);
        ReadsAsMeant(Tail(s), hex);
      } else {
        ReadBackStops(s, t, m - 1, hex, 0, 1);
      }
    }
  }

  lemma NoDigit(c: char, hex: bool)
    ensures Digit(';', hex).None? && Digit(Terminator(hex), hex).None?
  {
  }

  /** Digits from their place up to a semicolon are the tail before the first semicolon. */
  lemma DigitsAreTail(s: string, k: nat)
    requires BeginsNumeric(s) && Start(s) + k < |s| && s[Start(s) + k] == ';'
    requires forall i :: Start(s) <= i < Start(s) + k ==> Digit(s[i], IsHex(s)).Some?
    ensures Semicolon(s) == Start(s) + k && TailStart(s) == Start(s)
  {
    NoDigit(';', IsHex(s));
    TailIsBehind(s);
  }

  lemma NumericIs(s: string, start: nat, k: nat, hex: bool)
    requires BeginsNumeric(s) && NumericAt(s).Some? && start == Start(s) && hex == IsHex(s)
    requires start <= |s| && k == DigitRun(s, start, hex)
    ensures k > 0 && start + k < |s| && s[start + k] == ';' && AllDigits(s[start..start + k], hex)
    ensures NumberOf(s[start..start + k], hex) <= MAX_CODE_POINT
    ensures NumericAt(s) == Some((start + k + 1, Utf8(NumberOf(s[start..start + k], hex))))
  {
    NumericWithIs(s, start, k, hex);
  }

  lemma NumericWithIs(s: string, start: nat, k: nat, hex: bool)
    requires start + k <= |s| && AllDigits(s[start..start + k], hex) && NumericWith(s, start, k, hex).Some?
    ensures k > 0 && start + k < |s| && s[start + k] == ';' && NumberOf(s[start..start + k], hex) <= MAX_CODE_POINT
    ensures NumericWith(s, start, k, hex) == Some((start + k + 1, Utf8(NumberOf(s[start..start + k], hex))))
  {
  }

  /** A reference read from the left is taken as the same. */
  lemma NumericIsTaken(s: string)
    requires BeginsNumeric(s) && NumericAt(s).Some?
    ensures IsTaken(s) && NumericAt(s) == Some((Semicolon(s) + 1, Utf8(TakenValue(s))))
    ensures TailStart(s) == Start(s) < Semicolon(s)
  {
    var k := DigitRun(s, Start(s), IsHex(s));
    NumericIs(s, Start(s), k, IsHex(s));
    DigitsAreTail(s, k);
  }

  // ------------------------------------------------------------------------
  // References inside what is taken
  // ------------------------------------------------------------------------

  /** A numeric beginning inside has the same semicolon. */
  lemma SameSemicolon(s: string, i: nat)
    requires IsTaken(s) && 0 < i < Semicolon(s) && BeginsNumeric(s[i..])
    ensures Start(s) <= i && i + Start(s[i..]) <= Semicolon(s)
    ensures Semicolon(s[i..]) == Semicolon(s) - i
  {
    var u, m := s[i..], Semicolon(s);
    assert s[i] == '&' && s[i + 1] == '#' && s[m] == ';';
    assert Start(s) <= i;
    assert i + 1 < m;
    assert IsHex(u) ==> s[i + 2] == 'x' && i + 2 < m;
    assert u[m - i] == ';' && forall j :: Start(u) <= j < m - i ==> u[j] == s[i + j];
  }

  /** If both have digits behind their last terminator, they are the same digits of the same kind. */
  lemma SameTail(s: string, i: nat)
    requires IsTaken(s) && 0 < i < Semicolon(s) && BeginsNumeric(s[i..]) && AllDigits(Tail(s[i..]), IsHex(s[i..]))
    ensures IsHex(s[i..]) == IsHex(s) && Tail(s[i..]) == Tail(s)
  {
    var u, m := s[i..], Semicolon(s);
    SameSemicolon(s, i);
    TailIsBehind(s);
    TailIsBehind(u);
    var a, b := TailStart(s) - 1, i + TailStart(u) - 1;
    DigitsFrom(s, a, m, IsHex(s), Tail(s));
    InnerDigits(s, i, m, u, b);
    OneTerminator(s, IsHex(s), IsHex(u), a, b, m);
  }

  lemma DigitsFrom(s: string, a: nat, m: nat, hex: bool, ds: string)
    requires a < m <= |s| && ds == s[a + 1..m] && AllDigits(ds, hex)
    ensures forall j :: a < j < m ==> Digit(s[j], hex).Some?
  {
    assert forall j :: a < j < m ==> s[j] == ds[j - a - 1];
  }

  lemma InnerDigits(s: string, i: nat, m: nat, u: string, b: int)
    requires i < m < |s| && u == s[i..] && BeginsNumeric(u) && Semicolon(u) == m - i && b == i + TailStart(u) - 1
    requires AllDigits(Tail(u), IsHex(u)) && Start(u) < |u|
    ensures 0 <= b < m && s[b] == Terminator(IsHex(u)) && Tail(u) == s[b + 1..m]
    ensures forall j :: b < j < m ==> Digit(s[j], IsHex(u)).Some?
  {
    TailIsBehind(u);
    assert s[b] == u[b - i] && Tail(u) == s[b + 1..m];
    DigitsFrom(s, b, m, IsHex(u), Tail(u));
  }

  lemma OneTerminator(s: string, hex: bool, inner: bool, a: int, b: int, m: nat)
    requires 0 <= a < m <= |s| && 0 <= b < m && s[a] == Terminator(hex) && s[b] == Terminator(inner)
    requires forall j :: a < j < m ==> Digit(s[j], hex).Some?
    requires forall j :: b < j < m ==> Digit(s[j], inner).Some?
    ensures hex == inner && a == b
  {
    NoDigit('x', hex);
    NoDigit('x', inner);
    assert Digit('x', hex).None? && Digit('#', hex).None? && Digit('x', inner).None? && Digit('#', inner).None?;
  }

  // ------------------------------------------------------------------------
  // References in texts that begin alike
  // ------------------------------------------------------------------------

  lemma {:induction false} SameRun(s: string, u: string, from: nat, hex: bool)
    requires from <= |s| && from + DigitRun(s, from, hex) < |u| && from + DigitRun(s, from, hex) < |s|
    requires forall i :: from <= i <= from + DigitRun(s, from, hex) ==> s[i] == u[i]
    ensures DigitRun(u, from, hex) == DigitRun(s, from, hex)
    decreases |s| - from
  {
    if Digit(s[from], hex).Some? { SameRun(s, u, from + 1, hex); }
  }

  lemma SameParts(s: string, u: string, n: nat, a: nat, b: nat)
    requires a <= b <= n <= |s| && n <= |u| && s[..n] == u[..n]
    ensures s[a..b] == u[a..b] && forall i :: 0 <= i < n ==> s[i] == u[i]
  {
    assert forall i :: 0 <= i < n ==> s[i] == s[..n][i] && u[i] == u[..n][i];
  }

  lemma EntityIsOnly(i: nat, j: nat, s: string)
    requires i < |ENTITIES| && j < |ENTITIES| && HasEntity(s, ENTITIES[i].pattern) && HasEntity(s, ENTITIES[j].pattern)
    ensures i == j
  {
    FirstLetters(s, ENTITIES[i].pattern);
    FirstLetters(s, ENTITIES[j].pattern);
  }

  lemma FirstLetters(s: string, pattern: string)
    requires |pattern| >= 2 && HasEntity(s, pattern)
    ensures s[1] == pattern[0] && s[2] == pattern[1]
  {
    assert s[1] == s[1..|pattern| + 1][0] && s[2] == s[1..|pattern| + 1][1];
  }

  lemma NamedIs(s: string, i: nat)
    requires i < |ENTITIES| && HasEntity(s, ENTITIES[i].pattern)
    ensures NamedAt(s) == Some((|ENTITIES[i].pattern| + 2, [ENTITIES[i].value]))
  {
    EntityIsOnly(i, EntityAt(s, 0).value, s);
  }

  lemma NamedInBoth(s: string, u: string, n: nat)
    requires NamedAt(s).Some? && n == NamedAt(s).value.0 && n <= |u| && s[..n] == u[..n]
    ensures NamedAt(u) == NamedAt(s)
  {
    var i := EntityAt(s, 0).value;
    SameParts(s, u, n, 1, n - 1);
    NamedIs(s, i);
    NamedIs(u, i);
  }

  lemma NumericInBoth(s: string, u: string, n: nat)
    requires BeginsNumeric(s) && NumericAt(s).Some? && n == NumericAt(s).value.0 && n <= |u| && s[..n] == u[..n]
    ensures BeginsNumeric(u) && NumericAt(u) == NumericAt(s)
  {
    var start, hex := Start(s), IsHex(s);
    var k := DigitRun(s, start, hex);
    NumericIs(s, start, k, hex);
    SameParts(s, u, n, start, start + k);
    assert Start(u) == start && IsHex(u) == hex;
    SameRun(s, u, start, hex);
  }

  /** A reference depends on nothing behind it. */
  lemma ReferenceInBoth(s: string, u: string, n: nat)
    requires ReferenceAt(s).Some? && n == ReferenceAt(s).value.0 && n <= |u| && s[..n] == u[..n]
    ensures ReferenceAt(u) == ReferenceAt(s)
  {
    SameParts(s, u, n, 0, n);
    if Peek(s, 1) == '#' { NumericInBoth(s, u, n); } else { NamedInBoth(s, u, n); }
  }
}
