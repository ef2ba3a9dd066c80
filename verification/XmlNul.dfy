/**
 Where a decoded value has a NUL, at which a caller that takes it for a C string sees its end
 (StrPair::GetStr and XMLUtil::GetCharacterRef in compat/tinyxml2-v34/tinyxml2.cpp).
 */
module XmlNul {
  import opened Common
  import opened XmlText
  import opened XmlDecode
  import opened XmlReference

  /** Taken for a numeric reference with the value 0: the digits are all zeros, or there are none. */
  predicate IsZero(s: string) {
    IsTaken(s) && TakenValue(s) == 0
  }

  ghost predicate HasZeroFrom(t: string, p: nat) {
    exists i :: p <= i < |t| && IsZero(t[i..])
  }

  lemma Utf8Nul(n: nat)
    requires n <= MAX_CODE_POINT
    ensures NUL in Utf8(n) <==> n == 0
  {
  }

  /** Inside what is taken nothing else can be taken for another value. */
  lemma ZeroInside(s: string, i: nat)
    requires IsTaken(s) && 0 < i <= Semicolon(s) && IsZero(s[i..])
    ensures IsZero(s)
  {
    assert s[i] == s[i..][0] == '&';
    SameTail(s, i);
  }

  lemma TakenStep(s: string, newlines: bool)
    requires BeginsNumeric(s) && |s| > 2
    ensures StepOf(s, newlines, true) ==
      if IsTaken(s) then Step(Semicolon(s) + 1, Some(Utf8(TakenValue(s)))) else Step(1, Some("&"))
  {
    CharRefTakes(s);
  }

  /** What a round reads has a reference of the value 0 exactly if it writes a NUL. */
  lemma NulInStep(t: string, p: nat, newlines: bool, step: Step, c: char)
    requires p < |t| && step == StepOf(t[p..], newlines, true) && c != NUL && NUL !in t
    ensures NUL in Written(step, c) <==> exists i :: p <= i < p + step.consumed && IsZero(t[i..])
  {
    var s := t[p..];
    if BeginsNumeric(s) && |s| > 2 && IsTaken(s) {
      NulInTaken(t, p, newlines, step, s);
    } else {
      NoNul(s, newlines, c);
      forall i | p <= i < p + step.consumed ensures !IsZero(t[i..]) { NotZero(t, p, i, newlines); }
    }
  }

  lemma NulInTaken(t: string, p: nat, newlines: bool, step: Step, s: string)
    requires p < |t| && s == t[p..] && step == StepOf(s, newlines, true) && BeginsNumeric(s) && |s| > 2 && IsTaken(s)
    ensures step.written.Some?
    ensures NUL in step.written.value <==> exists i :: p <= i < p + step.consumed && IsZero(t[i..])
  {
    TakenStep(s, newlines);
    Utf8Nul(TakenValue(s));
    if TakenValue(s) == 0 { assert IsZero(t[p..]); }
    else {
      forall i | p <= i < p + step.consumed ensures !IsZero(t[i..]) {
        assert t[i..] == s[i - p..] && s[0..] == s;
        if i > p && IsZero(s[i - p..]) { ZeroInside(s, i - p); }
      }
    }
  }

  lemma NoNul(s: string, newlines: bool, c: char)
    requires s != [] && NUL !in s && c != NUL && !(BeginsNumeric(s) && |s| > 2 && IsTaken(s))
    ensures NUL !in Written(StepOf(s, newlines, true), c)
  {
    if BeginsNumeric(s) && |s| > 2 { TakenStep(s, newlines); }
    else if s[0] == '&' && Peek(s, 1) != '#' && EntityAt(s, 0).Some? { EntityValue(EntityAt(s, 0).value); }
  }

  lemma EntityValue(i: nat)
    requires i < |ENTITIES|
    ensures ENTITIES[i].value != NUL
  {
  }

  lemma NotZero(t: string, p: nat, i: nat, newlines: bool)
    requires p <= i < |t| && !(BeginsNumeric(t[p..]) && |t| - p > 2 && IsTaken(t[p..]))
    requires i < p + StepOf(t[p..], newlines, true).consumed
    ensures !IsZero(t[i..])
  {
    var s := t[p..];
    assert t[i] == s[i - p] == t[i..][0];
    if BeginsNumeric(s) && |s| > 2 { TakenStep(s, newlines); }
    else if i > p && s[0] == '&' && Peek(s, 1) != '#' && EntityAt(s, 0).Some? { NamedShape(s); }
  }

  lemma Splits(t: string, p: nat, p2: nat)
    requires p <= p2 <= |t|
    ensures HasZeroFrom(t, p) <==> (exists i :: p <= i < p2 && IsZero(t[i..])) || HasZeroFrom(t, p2)
  {
  }

  /** The round at `p`, with what is written behind it. */
  lemma NulAt(t: string, p: nat, q: nat, newlines: bool, round: string -> Step, step: Step, rest: string, whole: string)
    requires q <= p < |t| && NUL !in t && IsRoundOf(round, newlines, true) && step == round(t[p..])
    requires p + step.consumed <= |t| && whole == Written(step, t[q]) + rest && (NUL in rest <==> HasZeroFrom(t, p + step.consumed))
    ensures NUL in whole <==> HasZeroFrom(t, p)
  {
    assert step == StepOf(t[p..], newlines, true);
    NulInStep(t, p, newlines, step, t[q]);
    Splits(t, p, p + step.consumed);
    InEither(Written(step, t[q]), rest);
  }

  lemma {:induction false} NulFrom(t: string, p: nat, q: nat, newlines: bool, round: string -> Step)
    requires q <= p <= |t| && NUL !in t && IsRoundOf(round, newlines, true)
    ensures NUL in InPlace(t, p, q, round) <==> HasZeroFrom(t, p)
    decreases |t| - p
  {
    if p < |t| {
      var step := round(t[p..]);
      var p2, q2 := p + step.consumed, q + Size(step);
      StaysBehind(t, p, q, p2, q2, round);
      NulFrom(t, p2, q2, newlines, round);
      InPlaceUnfolds(t, p, q, round, t[p..], step);
      NulAt(t, p, q, newlines, round, step, InPlace(t, p2, q2, round), InPlace(t, p, q, round));
    }
  }

  lemma InEither(a: string, b: string)
    ensures NUL in a + b <==> NUL in a || NUL in b
  {
    if NUL in a { var i :| 0 <= i < |a| && a[i] == NUL; assert (a + b)[i] == NUL; }
    if NUL in b { var i :| 0 <= i < |b| && b[i] == NUL; assert (a + b)[|a| + i] == NUL; }
  }

  /** A decoded value has a NUL exactly if the text has something taken for a reference to code point 0. */
  lemma NulIsZeroReference(t: string, newlines: bool)
    requires NUL !in t
    ensures
      var round := Round(newlines, true);
      IsRound(round) && (NUL in InPlace(t, 0, 0, round) <==> exists i :: 0 <= i < |t| && IsZero(t[i..]))
  {
    RoundIsRound(newlines, true);
    NulFrom(t, 0, 0, newlines, Round(newlines, true));
  }

  lemma ZeroSpelled(t: string, digits: string, hex: bool)
    requires digits == "" || digits == "0"
    requires t == (if hex then "&#x" else "&#") + digits + ";"
    ensures IsZero(t)
  {
    assert |t| == Start(t) + |digits| + 1 && IsHex(t) == hex && t[Start(t) + |digits|] == ';';
    DigitsAreTail(t, |digits|);
    assert Tail(t) == digits;
    assert digits[..|digits|] == digits && NumberOf("", hex) == 0;
    if digits == "0" { assert digits[..0] == "" && NumberOf(digits, hex) == 0; }
  }

  /** Four of them. */
  lemma ZeroReferences()
    ensures IsZero("&#;") && IsZero("&#x;") && IsZero("&#0;") && IsZero("&#x0;")
  {
    ZeroSpelled("&#;", "", false);
    ZeroSpelled("&#x;", "", true);
    ZeroSpelled("&#0;", "0", false);
    ZeroSpelled("&#x0;", "0", true);
  }
}
