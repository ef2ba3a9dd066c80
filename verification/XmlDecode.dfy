/**
 The decoding loop that rewrites a text where it stands
 (StrPair::GetStr in compat/tinyxml2-v34/tinyxml2.cpp).
 */
module XmlDecode {
  import opened Common
  import opened XmlText

  datatype Entity = Entity(pattern: string, value: char)

  const ENTITIES := [Entity("quot", '\"'), Entity("amp", '&'), Entity("apos", '\''), Entity("lt", '<'), Entity("gt", '>')]

  /** Whether `s` has `pattern` and a semicolon behind its first character. */
  predicate HasEntity(s: string, pattern: string) {
    && |pattern| + 2 <= |s| && s[1..|pattern| + 1] == pattern && s[|pattern| + 1] == ';'
  }

  /** The first entity of the table, from `i` on, that `s` begins with. */
  function EntityAt(s: string, i: nat): (r: Option<nat>)
    requires i <= |ENTITIES|
    ensures r.Some? ==> i <= r.value < |ENTITIES| && HasEntity(s, ENTITIES[r.value].pattern)
    ensures forall j :: i <= j < |ENTITIES| && (r.None? || j < r.value) ==> !HasEntity(s, ENTITIES[j].pattern)
    decreases |ENTITIES| - i
  {
    if i == |ENTITIES| then None
    else if HasEntity(s, ENTITIES[i].pattern) then Some(i)
    else EntityAt(s, i + 1)
  }

  /** What one round of the loop reads, and the bytes it writes; None if it passes over one byte unwritten. */
  datatype Step = Step(consumed: nat, written: Option<string>)

  function StepOf(s: string, newlines: bool, entities: bool): (r: Step)
    requires s != []
    ensures 1 <= r.consumed <= |s|
    ensures r.written.Some? ==> |r.written.value| <= r.consumed
    ensures r.written.None? ==> r.consumed == 1 && s[0] == '&'
  {
    if newlines && s[0] == CR then Step(if Peek(s, 1) == LF then 2 else 1, Some([LF]))
    else if newlines && s[0] == LF then Step(if Peek(s, 1) == CR then 2 else 1, Some([LF]))
    else if entities && s[0] == '&' then
      if Peek(s, 1) == '#' then
        var ref := CharRef(s);
        if ref.None? then Step(1, Some("&")) else Step(ref.value.0, Some(ref.value.1))
      else
        var e := EntityAt(s, 0);
        if e.None? then Step(1, None)
        else Step(|ENTITIES[e.value].pattern| + 2, Some([ENTITIES[e.value].value]))
    else Step(1, Some([s[0]]))
  }

  /** The loop's round as a function of the unread text, for either setting of the two flags. */
  function Round(newlines: bool, entities: bool): string -> Step {
    (s: string) => if s == [] then Step(0, None) else StepOf(s, newlines, entities)
  }

  ghost predicate IsRound(round: string -> Step) {
    forall s: string {:trigger round(s)} :: s != [] ==>
      && 1 <= round(s).consumed <= |s|
      && (round(s).written.Some? ==> |round(s).written.value| <= round(s).consumed)
  }

  lemma RoundIsRound(newlines: bool, entities: bool)
    ensures IsRound(Round(newlines, entities))
  {
  }

  function Size(step: Step): nat {
    if step.written.Some? then |step.written.value| else 1
  }

  /** What a round leaves in the result, where `passed` is in the cell it may pass over. */
  function Written(step: Step, passed: char): string {
    if step.written.Some? then step.written.value else [passed]
  }

  /**
   What the loop still adds to the text `t` once it has read up to `p` and written up to `q`. A
   byte passed over keeps what the text had there.
   */
  ghost function InPlace(t: string, p: nat, q: nat, round: string -> Step): string
    requires q <= p <= |t| && IsRound(round)
    decreases |t| - p
  {
    if p == |t| then []
    else
      var step := round(t[p..]);
      Written(step, t[q]) + InPlace(t, p + step.consumed, q + Size(step), round)
  }

  lemma InPlaceUnfolds(t: string, p: nat, q: nat, round: string -> Step, s: string, step: Step)
    requires q <= p < |t| && IsRound(round) && s == t[p..] && step == round(s)
    requires p + step.consumed <= |t| && q + Size(step) <= p + step.consumed
    ensures InPlace(t, p, q, round) == Written(step, t[q]) + InPlace(t, p + step.consumed, q + Size(step), round)
  {
    UnfoldsTo(t, p, q, p + step.consumed, q + Size(step), round);
  }

  lemma UnfoldsTo(t: string, p: nat, q: nat, p2: nat, q2: nat, round: string -> Step)
    requires q <= p < |t| && IsRound(round)
    requires p2 == p + round(t[p..]).consumed && q2 == q + Size(round(t[p..])) && q2 <= p2 <= |t|
    ensures InPlace(t, p, q, round) == Written(round(t[p..]), t[q]) + InPlace(t, p2, q2, round)
  {
  }

  lemma StaysBehind(t: string, p: nat, q: nat, p2: nat, q2: nat, round: string -> Step)
    requires q <= p < |t| && IsRound(round)
    requires var step := round(t[p..]); p2 == p + step.consumed && q2 == q + Size(step)
    ensures q2 <= p2 <= |t|
  {
  }

  lemma SplitEqual(a: string, b: string, c: string, d: string)
    requires |a| == |c|
    ensures a + b == c + d <==> a == c && b == d
  {
    if a + b == c + d {
      assert a == (a + b)[..|a|] && c == (c + d)[..|a|];
      assert b == (a + b)[|a|..] && d == (c + d)[|a|..];
    }
  }

  // ------------------------------------------------------------------------
  // The loops
  // ------------------------------------------------------------------------

  /** The text from `p` to the terminating NUL in the last cell, which is its only NUL. */
  ghost predicate IsTail(a: array<char>, p: nat, s: string)
    reads a
  {
    p < a.Length && s == a[p..a.Length - 1] && a[a.Length - 1] == NUL && NUL !in s
  }

  method FindSemicolon(a: array<char>, p: nat, start: nat, ghost s: string) returns (semicolon: Option<nat>)
    requires IsTail(a, p, s) && start <= |s|
    ensures
      var i := IndexFrom(s, ';', start);
      semicolon == if i == |s| then None else Some(p + i)
  {
    assert forall i :: 0 <= i < |s| ==> a[p + i] == s[i];
    var q := p + start;
    while a[q] != NUL && a[q] != ';'
      invariant p + start <= q < a.Length
      invariant forall j :: start <= j < q - p ==> s[j] != ';'
      decreases a.Length - q
    {
      assert a[q] == s[q - p];
      q := q + 1;
    }
    if a[q] == NUL { return None; }
    assert a[q] == s[q - p];
    return Some(q);
  }

  method ReadNumber(a: array<char>, p: nat, last: nat, hex: bool, ghost s: string) returns (value: Option<nat>)
    requires IsTail(a, p, s) && p <= last < p + |s|
    requires exists i :: 0 <= i <= last - p && s[i] == Terminator(hex)
    ensures value == ReadBack(s, last - p, hex, 0, 1)
  {
    var q, ucs: nat, mult: nat := last, 0, 1;
    while a[q] != Terminator(hex)
      invariant p <= q <= last && ucs <= MAX_CODE_POINT
      invariant exists i :: 0 <= i <= q - p && s[i] == Terminator(hex)
      invariant ReadBack(s, q - p, hex, ucs, mult) == ReadBack(s, last - p, hex, 0, 1)
      decreases q
    {
      assert a[q] == s[q - p];
      var digit := Digit(a[q], hex);
      if digit.None? { return None; }
      var scaled: int := mult * digit.value;
      NonNegative(mult, digit.value);
      if scaled > MAX_CODE_POINT || ucs > MAX_CODE_POINT - scaled { return None; }
      ucs := ucs + scaled;
      NonNegative(mult, Radix(hex));
      mult := mult * Radix(hex);
      if mult > MAX_CODE_POINT { mult := MAX_CODE_POINT; }
      q := q - 1;
    }
    assert a[q] == s[q - p];
    return Some(ucs);
  }

  method GetCharacterRef(a: array<char>, p: nat, ghost s: string) returns (r: Option<(nat, string)>)
    requires IsTail(a, p, s) && |s| >= 2 && s[0] == '&' && s[1] == '#'
    ensures r == CharRef(s)
  {
    assert forall i :: 0 <= i < |s| ==> a[p + i] == s[i];
    if a[p + 2] == NUL {
      assert |s| == 2;
      return Some((1, []));
    }
    var hex := a[p + 2] == 'x';
    var start := if hex then 3 else 2;
    if a[p + start] == NUL {
      assert start == |s|;
      return None;
    }
    var semicolon := FindSemicolon(a, p, start, s);
    if semicolon.None? { return None; }
    assert s[start - 1] == Terminator(hex);
    var ucs := ReadNumber(a, p, semicolon.value - 1, hex, s);
    if ucs.None? { return None; }
    return Some((semicolon.value - p + 1, Utf8(ucs.value)));
  }

  method FindEntity(a: array<char>, p: nat, ghost s: string) returns (found: Option<nat>)
    requires IsTail(a, p, s) && s != []
    ensures found == EntityAt(s, 0)
  {
    var i := 0;
    while i < |ENTITIES|
      invariant 0 <= i <= |ENTITIES| && EntityAt(s, 0) == EntityAt(s, i)
    {
      var pattern := ENTITIES[i].pattern;
      if p + |pattern| + 2 <= a.Length - 1 {
        assert forall j :: 0 <= j < |s| ==> a[p + j] == s[j];
        assert a[p + 1..p + |pattern| + 1] == s[1..|pattern| + 1];
        assert a[p + |pattern| + 1] == s[|pattern| + 1];
        if a[p + 1..p + |pattern| + 1] == pattern && a[p + |pattern| + 1] == ';' { return Some(i); }
      }
      i := i + 1;
    }
    return None;
  }

  method ReadStep(a: array<char>, p: nat, newlines: bool, entities: bool, ghost s: string) returns (step: Step)
    requires IsTail(a, p, s) && s != []
    ensures step == StepOf(s, newlines, entities)
  {
    assert a[p] == s[0] && a[p + 1] == Peek(s, 1);
    if newlines && a[p] == CR {
      return Step(if a[p + 1] == LF then 2 else 1, Some([LF]));
    } else if newlines && a[p] == LF {
      return Step(if a[p + 1] == CR then 2 else 1, Some([LF]));
    } else if entities && a[p] == '&' {
      if a[p + 1] == '#' {
        var ref := GetCharacterRef(a, p, s);
        return if ref.None? then Step(1, Some("&")) else Step(ref.value.0, Some(ref.value.1));
      }
      var found := FindEntity(a, p, s);
      return if found.None? then Step(1, None)
             else Step(|ENTITIES[found.value].pattern| + 2, Some([ENTITIES[found.value].value]));
    }
    return Step(1, Some([a[p]]));
  }

  method Write(a: array<char>, q: nat, w: string)
    requires q + |w| <= a.Length
    modifies a
    ensures a[..q + |w|] == old(a[..q]) + w
    ensures forall i :: q + |w| <= i < a.Length ==> a[i] == old(a[i])
  {
    for k := 0 to |w|
      invariant forall i :: 0 <= i < q || q + |w| <= i < a.Length ==> a[i] == old(a[i])
      invariant forall i :: 0 <= i < k ==> a[q + i] == w[i]
    {
      a[q + k] := w[k];
    }
  }

  /** Writes what a round says, or passes over one cell. */
  method WriteStep(a: array<char>, q: nat, step: Step) returns (q2: nat)
    requires q + Size(step) <= a.Length
    modifies a
    ensures q2 == q + Size(step) && a[..q2] == old(a[..q]) + Written(step, if step.written.Some? then NUL else old(a[q]))
    ensures forall i :: q2 <= i < a.Length ==> a[i] == old(a[i])
  {
    if step.written.Some? {
      Write(a, q, step.written.value);
    } else {
      assert a[..q + 1] == a[..q] + [a[q]];
    }
    q2 := q + Size(step);
  }

  /** `round` is the round of the loop. */
  ghost predicate IsRoundOf(round: string -> Step, newlines: bool, entities: bool) {
    IsRound(round) && forall s: string {:trigger StepOf(s, newlines, entities)} :: s != [] ==>
      round(s) == StepOf(s, newlines, entities)
  }

  method ReadRound(a: array<char>, p: nat, newlines: bool, entities: bool, ghost s: string, ghost round: string -> Step)
    returns (step: Step)
    requires IsTail(a, p, s) && s != [] && IsRoundOf(round, newlines, entities)
    ensures step == round(s)
  {
    step := ReadStep(a, p, newlines, entities, s);
  }

  /** One round: the cells from the write position on still hold the text. */
  method DecodeRound(a: array<char>, p: nat, q: nat, newlines: bool, entities: bool, ghost round: string -> Step,
                     ghost t: string) returns (p2: nat, q2: nat)
    requires a.Length > 0 && |t| == a.Length - 1 && NUL !in t && a[a.Length - 1] == NUL && q <= p < |t|
    requires forall i :: q <= i < |t| ==> a[i] == t[i]
    requires IsRoundOf(round, newlines, entities)
    modifies a
    ensures p < p2 <= |t| && q2 <= p2 && p2 == p + round(t[p..]).consumed && q2 == q + Size(round(t[p..]))
    ensures a[a.Length - 1] == NUL && forall i :: q2 <= i < |t| ==> a[i] == t[i]
    ensures a[..q2] == old(a[..q]) + Written(round(t[p..]), t[q])
  {
    assert a[p..a.Length - 1] == t[p..];
    var step := ReadRound(a, p, newlines, entities, t[p..], round);
    q2 := WriteStep(a, q, step);
    p2 := p + step.consumed;
  }

  method DecodeCells(a: array<char>, newlines: bool, entities: bool, ghost round: string -> Step, ghost t: string)
    returns (q: nat)
    requires a.Length > 0 && t == a[..a.Length - 1] && NUL !in t && a[a.Length - 1] == NUL
    requires IsRoundOf(round, newlines, entities)
    modifies a
    ensures q < a.Length && a[q] == NUL && (forall i :: q < i < a.Length - 1 ==> a[i] == t[i])
    ensures a[..q] == InPlace(t, 0, 0, round)
  {
    ghost var whole := InPlace(t, 0, 0, round);
    var end := a.Length - 1;
    var p := 0;
    q := 0;
    while p < end
      invariant q <= p <= end && a[end] == NUL
      invariant forall i :: q <= i < end ==> a[i] == t[i]
      invariant whole == a[..q] + InPlace(t, p, q, round)
    {
      ghost var before, p0, q0 := a[..q], p, q;
      p, q := DecodeRound(a, p, q, newlines, entities, round, t);
      InPlaceStep(t, p0, q0, p, q, before, a[..q], round, whole);
    }
    a[q] := NUL;
  }

  /**
   Decodes the text in the cells before the last one where it stands, reading at `p` and writing
   at `q`. Every write is to a cell that has been read, and the cells behind the end of the result
   keep what they held.
   */
  method GetStr(a: array<char>, newlines: bool, entities: bool) returns (q: nat)
    requires a.Length > 0 && NUL !in a[..a.Length - 1]
    modifies a
    ensures q < a.Length && a[q] == NUL && forall i :: q < i < a.Length - 1 ==> a[i] == old(a[i])
    ensures
      var round := Round(newlines, entities);
      IsRound(round) && a[..q] == InPlace(old(a[..a.Length - 1]), 0, 0, round)
  {
    ghost var t := a[..a.Length - 1];
    RoundIsRound(newlines, entities);
    a[a.Length - 1] := NUL;
    assert t == a[..a.Length - 1];
    q := DecodeCells(a, newlines, entities, Round(newlines, entities), t);
  }

  lemma InPlaceStep(t: string, p: nat, q: nat, p2: nat, q2: nat, before: string, after: string, round: string -> Step,
                    whole: string)
    requires q <= p < |t| && IsRound(round) && whole == before + InPlace(t, p, q, round)
    requires p2 == p + round(t[p..]).consumed && q2 == q + Size(round(t[p..])) && q2 <= p2 <= |t|
    requires after == before + Written(round(t[p..]), t[q])
    ensures whole == after + InPlace(t, p2, q2, round)
  {
    UnfoldsTo(t, p, q, p2, q2, round);
    Joined(before, Written(round(t[p..]), t[q]), InPlace(t, p2, q2, round), InPlace(t, p, q, round), after, whole);
  }

  lemma Joined(before: string, w: string, rest: string, all: string, after: string, whole: string)
    requires all == w + rest && after == before + w && whole == before + all
    ensures whole == after + rest
  {
    Assoc(before, w, rest);
  }
}
