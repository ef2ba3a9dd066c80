/**
 What a text means by XML 1.0, as a function of the text alone, and exactly when decoding it in
 place gives that (StrPair::GetStr in compat/tinyxml2-v34/tinyxml2.cpp).
 */
module XmlMeaning {
  import opened Common
  import opened XmlText
  import opened XmlDecode
  import opened XmlReference

  // ------------------------------------------------------------------------
  // The meaning
  // ------------------------------------------------------------------------

  /** Section 2.11 of XML 1.0: CR LF and any other CR become LF, and nothing else changes. */
  function Normalized(t: string): string {
    if t == [] then []
    else if t[0] == CR then [LF] + Normalized(t[if Peek(t, 1) == LF then 2 else 1..])
    else [t[0]] + Normalized(t[1..])
  }

  /** Every reference replaced by what it stands for. An ampersand that starts none stands for itself. */
  function Expanded(s: string): string {
    if s == [] then []
    else
      var r := ReferenceAt(s);
      if r.Some? then r.value.1 + Expanded(s[r.value.0..]) else [s[0]] + Expanded(s[1..])
  }

  /** Normalising and expanding in one pass. */
  function MeantStep(s: string, entities: bool): (r: (nat, string))
    requires s != []
    ensures 1 <= r.0 <= |s| && 1 <= |r.1|
  {
    if s[0] == CR then (if Peek(s, 1) == LF then 2 else 1, [LF])
    else if entities && ReferenceAt(s).Some? then ReferenceAt(s).value
    else (1, [s[0]])
  }

  /** How the unread text begins: the characters it takes, and the bytes they mean. */
  function Sense(entities: bool): string -> (nat, string) {
    (s: string) => if s == [] then (0, []) else MeantStep(s, entities)
  }

  ghost predicate IsSense(sense: string -> (nat, string)) {
    forall s: string {:trigger sense(s)} :: s != [] ==> 1 <= sense(s).0 <= |s| && 1 <= |sense(s).1|
  }

  ghost function Meaning(s: string, sense: string -> (nat, string)): string
    requires IsSense(sense)
  {
    if s == [] then [] else sense(s).1 + Meaning(s[sense(s).0..], sense)
  }

  lemma MeaningUnfolds(t: string, p: nat, sense: string -> (nat, string), n: nat, w: string)
    requires IsSense(sense) && p < |t| && sense(t[p..]) == (n, w)
    ensures p + n <= |t| && Meaning(t[p..], sense) == w + Meaning(t[p + n..], sense)
  {
    assert t[p..][n..] == t[p + n..];
  }

  // ------------------------------------------------------------------------
  // Where the loop differs
  // ------------------------------------------------------------------------

  /** From the CR at `j`, line feeds and carriage returns alternate and end with a CR. */
  predicate EndsInCr(t: string, j: nat)
    decreases |t| - j
  {
    Peek(t, j + 1) != LF || (j + 2 < |t| && t[j + 2] == CR && EndsInCr(t, j + 2))
  }

  /** An alternating run of line feeds and carriage returns begins with an LF at `i` and ends with a CR. */
  predicate IsStrayRun(t: string, i: nat)
    requires i < |t|
  {
    t[i] == LF && (i == 0 || t[i - 1] != CR) && Peek(t, i + 1) == CR && EndsInCr(t, i + 1)
  }

  /** An ampersand that starts neither an entity nor anything numeric. */
  predicate IsUnknown(s: string) {
    s != [] && s[0] == '&' && Peek(s, 1) != '#' && NamedAt(s).None?
  }

  /** The bytes saved by what begins at `j`. */
  function SavedAt(t: string, j: nat): nat
    requires j < |t|
  {
    var r := ReferenceAt(t[j..]);
    if r.Some? then r.value.0 - |r.value.1| else if t[j] == CR && Peek(t, j + 1) == LF then 1 else 0
  }

  /** The bytes saved by all references and CR LF pairs that begin before `i`. */
  function Saved(t: string, i: nat): nat
    requires i <= |t|
  {
    if i == 0 then 0 else Saved(t, i - 1) + SavedAt(t, i - 1)
  }

  /** The byte where the ampersand at `i` should be written is an ampersand already. */
  predicate LandsOnAmpersand(t: string, i: nat)
    requires i < |t|
  {
    Saved(t, i) <= i && t[i - Saved(t, i)] == '&'
  }

  /** The loop does at `i` what the text means there. */
  predicate IsOk(t: string, i: nat, entities: bool)
    requires i < |t|
  {
    && !IsStrayRun(t, i)
    && (entities ==>
          && t[i..] != "&#"
          && !IsLenient(t[i..])
          && (IsUnknown(t[i..]) ==> LandsOnAmpersand(t, i)))
  }

  lemma QuietIsOk(t: string, i: nat, entities: bool)
    requires i < |t| && t[i] != LF && (entities ==> t[i] != '&')
    ensures IsOk(t, i, entities)
  {
    assert t[i..][0] == t[i];
  }

  lemma {:induction false} SavedOver(t: string, p: nat, n: nat)
    requires 1 <= n && p + n <= |t| && forall j :: p < j < p + n ==> t[j] != '&' && t[j] != CR
    ensures Saved(t, p + n) == Saved(t, p) + SavedAt(t, p)
  {
    if n > 1 {
      SavedOver(t, p, n - 1);
      assert t[p + n - 1..][0] == t[p + n - 1];
    }
  }

  // ------------------------------------------------------------------------
  // Comparing the loop with the meaning
  // ------------------------------------------------------------------------

  /**
   A text with what the loop does and what is meant at each place: the loop's rounds, the senses,
   where the loop is right, and the bytes saved before each place.
   */
  datatype Reading = Reading(text: string, entities: bool, round: string -> Step, sense: string -> (nat, string),
                             ok: nat -> bool, saved: nat -> nat)

  ghost predicate IsReading(r: Reading) {
    IsRound(r.round) && IsSense(r.sense)
  }

  ghost predicate IsSenseOf(sense: string -> (nat, string), entities: bool) {
    IsSense(sense) && forall s: string {:trigger MeantStep(s, entities)} :: s != [] ==>
      sense(s) == MeantStep(s, entities)
  }

  ghost predicate IsReadingOf(r: Reading) {
    && IsRoundOf(r.round, true, r.entities) && IsSenseOf(r.sense, r.entities)
    && (forall i: nat {:trigger IsOk(r.text, i, r.entities)} :: i < |r.text| ==> r.ok(i) == IsOk(r.text, i, r.entities))
    && (forall i: nat {:trigger Saved(r.text, i)} :: i <= |r.text| ==> r.saved(i) == Saved(r.text, i))
  }

  ghost predicate AllOk(r: Reading, p: nat) {
    forall i: nat {:trigger r.ok(i)} :: p <= i < |r.text| ==> r.ok(i)
  }

  /** As many bytes are written as are meant before `p`. */
  predicate InStep(r: Reading, p: nat, q: nat) {
    r.entities ==> q + r.saved(p) == p
  }

  /** The loop writes no more than is meant from `p` on, and just that if it is right at every place. */
  ghost predicate Agrees(r: Reading, p: nat, q: nat)
    requires q <= p <= |r.text| && IsReading(r)
  {
    var made, meant := InPlace(r.text, p, q, r.round), Meaning(r.text[p..], r.sense);
    |made| <= |meant| && (InStep(r, p, q) ==> (made == meant <==> AllOk(r, p)))
  }

  /** The loop reads and means the same at `p`. */
  ghost predicate IsSame(r: Reading, p: nat, n: nat, w: string) {
    && p < |r.text| && 1 <= n && p + n <= |r.text| && |w| <= n
    && r.round(r.text[p..]) == Step(n, Some(w)) && r.sense(r.text[p..]) == (n, w)
    && (forall i: nat {:trigger r.ok(i)} :: p <= i < p + n ==> r.ok(i))
    && (r.entities ==> r.saved(p + n) == r.saved(p) + n - |w|)
  }

  /** The loop writes less than is meant. */
  ghost predicate IsLoss(r: Reading, p: nat, n: nat, w: string)
    requires IsSense(r.sense)
  {
    && p < |r.text| && 1 <= n && p + n <= |r.text| && |w| <= n && r.round(r.text[p..]) == Step(n, Some(w)) && !r.ok(p)
    && |Meaning(r.text[p..], r.sense)| > |w| + |Meaning(r.text[p + n..], r.sense)|
  }

  /** The loop passes over an ampersand. */
  ghost predicate IsPassed(r: Reading, p: nat) {
    && p < |r.text| && r.round(r.text[p..]) == Step(1, None) && r.sense(r.text[p..]) == (1, "&")
    && r.entities && r.saved(p + 1) == r.saved(p)
    && (r.ok(p) <==> r.saved(p) <= p && r.text[p - r.saved(p)] == '&')
  }

  lemma AllOkFrom(r: Reading, p: nat, p2: nat)
    requires p <= p2 <= |r.text| && forall i: nat {:trigger r.ok(i)} :: p <= i < p2 ==> r.ok(i)
    ensures AllOk(r, p) <==> AllOk(r, p2)
  {
  }

  lemma Extend(w: string, made: string, meant: string, ready: bool, ok: bool)
    requires |made| <= |meant| && (ready ==> (made == meant <==> ok))
    ensures |w + made| <= |w + meant| && (ready ==> (w + made == w + meant <==> ok))
  {
    if |made| == |meant| { SplitEqual(w, made, w, meant); }
  }

  lemma AtSame(r: Reading, p: nat, q: nat, n: nat, w: string)
    requires IsReading(r) && q <= p && IsSame(r, p, n, w) && Agrees(r, p + n, q + |w|)
    ensures Agrees(r, p, q)
  {
    InPlaceUnfolds(r.text, p, q, r.round, r.text[p..], Step(n, Some(w)));
    MeaningUnfolds(r.text, p, r.sense, n, w);
    AllOkFrom(r, p, p + n);
    Extend(w, InPlace(r.text, p + n, q + |w|, r.round), Meaning(r.text[p + n..], r.sense), InStep(r, p, q),
           AllOk(r, p + n));
  }

  lemma AtLoss(r: Reading, p: nat, q: nat, n: nat, w: string)
    requires IsReading(r) && q <= p && IsLoss(r, p, n, w) && Agrees(r, p + n, q + |w|)
    ensures Agrees(r, p, q)
  {
    InPlaceUnfolds(r.text, p, q, r.round, r.text[p..], Step(n, Some(w)));
  }

  lemma AtPassed(r: Reading, p: nat, q: nat)
    requires IsReading(r) && q <= p && IsPassed(r, p) && Agrees(r, p + 1, q + 1)
    ensures Agrees(r, p, q)
  {
    InPlaceUnfolds(r.text, p, q, r.round, r.text[p..], Step(1, None));
    MeaningUnfolds(r.text, p, r.sense, 1, "&");
    SplitEqual([r.text[q]], InPlace(r.text, p + 1, q + 1, r.round), "&", Meaning(r.text[p + 1..], r.sense));
    if r.ok(p) { AllOkFrom(r, p, p + 1); }
  }

  /** The loop reads `n` characters at `p` and writes as many bytes as `w` has. */
  ghost predicate IsStepAt(r: Reading, p: nat, n: nat, w: string)
    requires IsSense(r.sense)
  {
    && p < |r.text| && 1 <= n && p + n <= |r.text| && |w| <= n
    && (IsSame(r, p, n, w) || IsLoss(r, p, n, w) || (IsPassed(r, p) && n == |w| == 1))
  }

  lemma AtStep(r: Reading, p: nat, q: nat, n: nat, w: string)
    requires IsReading(r) && q <= p && IsStepAt(r, p, n, w) && Agrees(r, p + n, q + |w|)
    ensures Agrees(r, p, q)
  {
    if IsSame(r, p, n, w) { AtSame(r, p, q, n, w); }
    else if IsLoss(r, p, n, w) { AtLoss(r, p, q, n, w); }
    else { AtPassed(r, p, q); }
  }

  // ------------------------------------------------------------------------
  // What is taken for a reference and is none
  // ------------------------------------------------------------------------

  lemma FewBytes(ds: string, hex: bool)
    requires AllDigits(ds, hex) && NumberOf(ds, hex) <= MAX_CODE_POINT
    ensures |Utf8(NumberOf(ds, hex))| <= |ds| + 1
  {
    if |ds| == 1 { OneDigit(ds, hex); }
    else if |ds| == 2 {
      OneDigit(ds[..1], hex);
      TwoBytes(NumberOf(ds, hex));
    }
  }

  lemma OneDigit(ds: string, hex: bool)
    requires |ds| == 1 && AllDigits(ds, hex)
    ensures NumberOf(ds, hex) == Digit(ds[0], hex).value < 16
  {
    assert ds[..0] == [] && NumberOf([], hex) == 0;
  }

  lemma TwoBytes(n: nat)
    requires n < 0x800
    ensures |Utf8(n)| <= 2
  {
  }

  lemma TakenIsShort(s: string)
    requires IsTaken(s)
    ensures |Utf8(TakenValue(s))| <= |Tail(s)| + 1
  {
    var ds, hex := Tail(s), IsHex(s);
    if IsLargePower(ds, hex) {
      if |ds| < 3 { ReadShort(ds, hex); }
    } else {
      FewBytes(ds, hex);
    }
  }

  /** Plain characters mean themselves. */
  lemma {:induction false} PlainRun(s: string, j: nat, k: nat, sense: string -> (nat, string))
    requires IsSenseOf(sense, true) && j <= k <= |s| && forall i :: j <= i < k ==> s[i] != CR && s[i] != '&'
    ensures |Meaning(s[j..], sense)| == k - j + |Meaning(s[k..], sense)|
    decreases k - j
  {
    if j < k {
      assert s[j..][0] == s[j] && MeantStep(s[j..], true) == (1, [s[j]]);
      MeaningUnfolds(s, j, sense, 1, [s[j]]);
      PlainRun(s, j + 1, k, sense);
    }
  }

  lemma {:induction false} LastLetter(s: string)
    requires s != [] && NamedAt(s).Some?
    ensures var c := s[NamedAt(s).value.0 - 2]; Digit(c, false).None? && Digit(c, true).None? && c != '#' && c != 'x'
  {
    var pattern := ENTITIES[EntityAt(s, 0).value].pattern;
    assert s[|pattern|] == s[1..|pattern| + 1][|pattern| - 1] == pattern[|pattern| - 1];
    assert pattern[|pattern| - 1] in "tps";
  }

  /** The last character before the semicolon of what is taken is a digit, '#' or 'x'. */
  lemma LastTaken(s: string, m: nat)
    requires IsTaken(s) && m == Semicolon(s)
    ensures 2 <= m < |s| && s[m] == ';' && forall j :: 1 <= j < m ==> s[j] != ';'
    ensures var c := s[m - 1]; Digit(c, IsHex(s)).Some? || c == Terminator(IsHex(s))
  {
    TailIsBehind(s);
    if TailStart(s) < m { assert s[m - 1] == Tail(s)[m - 1 - TailStart(s)]; }
  }

  /** No entity ends where a reference is taken to end. */
  lemma InnerIsNumeric(s: string, j: nat, m: nat, u: string)
    requires IsTaken(s) && m == Semicolon(s) && 1 <= j < m && u == s[j..] && ReferenceAt(u).Some?
    ensures Peek(u, 1) == '#' && ReferenceAt(u).value.0 == m + 1 - j
  {
    var n := ReferenceAt(u).value.0;
    LastTaken(s, m);
    InnerEnd(s, j, m, n);
    if Peek(u, 1) != '#' {
      assert u[n - 2] == s[m - 1];
      LastLetter(u);
    }
  }

  /** A reference inside what is taken ends with it and stands for the same code point. */
  lemma InnerReference(s: string, j: nat)
    requires IsTaken(s) && 1 <= j < Semicolon(s) && ReferenceAt(s[j..]).Some?
    ensures ReferenceAt(s[j..]).value == (Semicolon(s) + 1 - j, Utf8(TakenValue(s)))
  {
    InnerIsNumeric(s, j, Semicolon(s), s[j..]);
    NumericIsTaken(s[j..]);
    SameTail(s, j);
  }

  lemma InnerEnd(s: string, j: nat, m: nat, n: nat)
    requires 1 <= j < m < |s| && s[m] == ';' && (forall i :: 1 <= i < m ==> s[i] != ';')
    requires ReferenceAt(s[j..]).Some? && n == ReferenceAt(s[j..]).value.0
    ensures n == m + 1 - j
  {
    ReferenceShape(s[j..]);
    assert s[j + n - 1] == s[j..][n - 1] == ';' && s[j..][m - j] == s[m];
  }

  lemma TailIsPlain(s: string, m: nat)
    requires IsTaken(s) && m == Semicolon(s)
    ensures TailStart(s) <= m < |s| && forall i :: TailStart(s) <= i < m + 1 ==> s[i] != CR && s[i] != '&'
  {
    var j := TailStart(s);
    LastTaken(s, m);
    assert forall i :: j <= i < m ==> s[i] == Tail(s)[i - j];
  }

  lemma DigitsMeanAsMuch(s: string, m: nat, sense: string -> (nat, string))
    requires IsTaken(s) && m == Semicolon(s) && IsSenseOf(sense, true)
    ensures |Meaning(s[TailStart(s)..], sense)| >= |Utf8(TakenValue(s))| + |Meaning(s[m + 1..], sense)|
  {
    TailIsPlain(s, m);
    PlainRun(s, TailStart(s), m + 1, sense);
    TakenIsShort(s);
  }

  /** Behind a character before the terminator that starts no reference the terminator is still to come. */
  lemma StepsUpToTail(s: string, j: nat, step: (nat, string))
    requires IsTaken(s) && 1 <= j < TailStart(s) && ReferenceAt(s[j..]).None? && step == MeantStep(s[j..], true)
    ensures j + step.0 <= TailStart(s) && |step.1| == 1
  {
    TailIsBehind(s);
    assert s[j..][0] == s[j] && Peek(s[j..], 1) == Peek(s, j + 1);
  }

  lemma ReferenceMeans(s: string, j: nat, r: (nat, string), sense: string -> (nat, string))
    requires IsSenseOf(sense, true) && j < |s| && ReferenceAt(s[j..]) == Some(r)
    ensures j + r.0 <= |s| && |Meaning(s[j..], sense)| == |r.1| + |Meaning(s[j + r.0..], sense)|
  {
    assert MeantStep(s[j..], true) == r;
    MeaningUnfolds(s, j, sense, r.0, r.1);
  }

  lemma StepMeansOne(s: string, j: nat, j2: nat, sense: string -> (nat, string))
    requires IsTaken(s) && IsSenseOf(sense, true)
    requires 1 <= j < TailStart(s) && ReferenceAt(s[j..]).None? && j2 == j + MeantStep(s[j..], true).0
    ensures j < j2 <= TailStart(s) && |Meaning(s[j..], sense)| == 1 + |Meaning(s[j2..], sense)|
  {
    var step := MeantStep(s[j..], true);
    StepsUpToTail(s, j, step);
    MeaningUnfolds(s, j, sense, step.0, step.1);
  }

  /** From any place before the digits, the text means at least as much as what is taken for it. */
  lemma {:induction false} MeansAsMuch(s: string, j: nat, m: nat, w: string, tail: nat, sense: string -> (nat, string))
    requires IsTaken(s) && m == Semicolon(s) && w == Utf8(TakenValue(s)) && tail == TailStart(s) && 1 <= j <= tail
    requires IsSenseOf(sense, true)
    ensures |Meaning(s[j..], sense)| >= |w| + |Meaning(s[m + 1..], sense)|
    decreases |s| - j
  {
    if j == tail {
      DigitsMeanAsMuch(s, m, sense);
    } else if ReferenceAt(s[j..]).Some? {
      ReferenceMeans(s, j, ReferenceAt(s[j..]).value, sense);
      InnerReference(s, j);
    } else {
      var j2 := j + MeantStep(s[j..], true).0;
      StepMeansOne(s, j, j2, sense);
      MeansAsMuch(s, j2, m, w, tail, sense);
    }
  }

  lemma LenientMeansMore(s: string, sense: string -> (nat, string))
    requires IsLenient(s) && IsSenseOf(sense, true)
    ensures |Meaning(s, sense)| > |Utf8(TakenValue(s))| + |Meaning(s[Semicolon(s) + 1..], sense)|
  {
    TailIsBehind(s);
    assert MeantStep(s, true) == (1, "&") && s[0..] == s;
    MeaningUnfolds(s, 0, sense, 1, "&");
    MeansAsMuch(s, 1, Semicolon(s), Utf8(TakenValue(s)), TailStart(s), sense);
  }

  // ------------------------------------------------------------------------
  // One round
  // ------------------------------------------------------------------------

  lemma PlainStep(t: string, p: nat, entities: bool, s: string)
    requires p < |t| && s == t[p..] && t[p] != CR && t[p] != LF && (entities ==> t[p] != '&')
    ensures StepOf(s, true, entities) == Step(1, Some([t[p]])) && MeantStep(s, entities) == (1, [t[p]])
    ensures IsOk(t, p, entities)
  {
    QuietIsOk(t, p, entities);
  }

  lemma PlainSaves(t: string, p: nat)
    requires p < |t| && t[p] != CR && t[p] != '&'
    ensures Saved(t, p + 1) == Saved(t, p)
  {
    assert t[p..][0] == t[p];
    SavedOver(t, p, 1);
  }

  lemma AtPlain(r: Reading, p: nat)
    requires IsReadingOf(r) && p < |r.text|
    requires r.text[p] != CR && r.text[p] != LF && (r.entities ==> r.text[p] != '&')
    ensures IsSame(r, p, 1, [r.text[p]])
  {
    PlainStep(r.text, p, r.entities, r.text[p..]);
    if r.entities { PlainSaves(r.text, p); }
  }

  lemma CrStep(t: string, p: nat, n: nat, entities: bool, s: string)
    requires p < |t| && s == t[p..] && t[p] == CR && n == if Peek(t, p + 1) == LF then 2 else 1
    ensures StepOf(s, true, entities) == Step(n, Some([LF])) && MeantStep(s, entities) == (n, [LF])
    ensures Saved(t, p + n) == Saved(t, p) + n - 1
    ensures forall i :: p <= i < p + n ==> IsOk(t, i, entities)
  {
    assert s[0] == t[p] && Peek(s, 1) == Peek(t, p + 1);
    QuietIsOk(t, p, entities);
    SavedOver(t, p, n);
    if n == 2 { assert t[p + 1..][0] == LF; }
  }

  lemma LfStep(t: string, p: nat, entities: bool, s: string)
    requires p < |t| && s == t[p..] && t[p] == LF
    ensures StepOf(s, true, entities) == Step(if Peek(t, p + 1) == CR then 2 else 1, Some([LF]))
    ensures MeantStep(s, entities) == (1, [LF])
    ensures Saved(t, p + 1) == Saved(t, p)
    ensures IsOk(t, p, entities) <==> !IsStrayRun(t, p)
  {
    assert s[0] == t[p] && Peek(s, 1) == Peek(t, p + 1);
    SavedOver(t, p, 1);
  }

  /** The loop reads every reference as it is meant. */
  lemma ReferenceStep(s: string)
    requires ReferenceAt(s).Some?
    ensures StepOf(s, true, true) == Step(ReferenceAt(s).value.0, Some(ReferenceAt(s).value.1))
    ensures !IsLenient(s) && !IsUnknown(s) && s != "&#"
  {
    if Peek(s, 1) == '#' {
      NumericIsTaken(s);
      CharRefTakes(s);
    }
  }

  lemma QuietInside(t: string, p: nat, n: nat)
    requires p + n <= |t| && ReferenceAt(t[p..]).Some? && n == ReferenceAt(t[p..]).value.0
    ensures forall i :: p < i < p + n ==> t[i] != CR && t[i] != '&' && IsOk(t, i, true)
  {
    ReferenceShape(t[p..]);
    forall i | p < i < p + n ensures t[i] != CR && t[i] != '&' && IsOk(t, i, true) {
      assert t[i] == t[p..][i - p] && IsPlainIn(t[i]);
      QuietIsOk(t, i, true);
    }
  }

  lemma ReferenceFits(t: string, p: nat, n: nat, w: string)
    requires p < |t| && ReferenceAt(t[p..]) == Some((n, w)) && p + n <= |t|
    ensures StepOf(t[p..], true, true) == Step(n, Some(w)) && MeantStep(t[p..], true) == (n, w)
    ensures Saved(t, p + n) == Saved(t, p) + n - |w|
    ensures forall i :: p <= i < p + n ==> IsOk(t, i, true)
  {
    ReferenceStep(t[p..]);
    QuietInside(t, p, n);
    SavedOver(t, p, n);
    assert t[p] == t[p..][0] == '&';
  }

  /** A numeric beginning that the loop leaves alone. */
  lemma UntakenFits(t: string, p: nat, s: string)
    requires p < |t| && s == t[p..] && BeginsNumeric(s) && |s| > 2 && !IsTaken(s)
    ensures StepOf(s, true, true) == Step(1, Some("&")) && MeantStep(s, true) == (1, "&")
    ensures Saved(t, p + 1) == Saved(t, p) && IsOk(t, p, true)
  {
    CharRefTakes(s);
    if NumericAt(s).Some? { NumericIsTaken(s); }
    SavedOver(t, p, 1);
  }

  lemma UnknownFits(t: string, p: nat, s: string)
    requires p < |t| && s == t[p..] && IsUnknown(s)
    ensures StepOf(s, true, true) == Step(1, None) && MeantStep(s, true) == (1, "&")
    ensures Saved(t, p + 1) == Saved(t, p) && (IsOk(t, p, true) <==> LandsOnAmpersand(t, p))
  {
    SavedOver(t, p, 1);
  }

  lemma LooseEndMeans(s: string, sense: string -> (nat, string))
    requires s == "&#" && IsSenseOf(sense, true)
    ensures StepOf(s, true, true) == Step(1, Some("")) && |Meaning(s, sense)| == 1 + |Meaning(s[1..], sense)|
  {
    assert MeantStep(s, true) == (1, "&") && s[0..] == s;
    MeaningUnfolds(s, 0, sense, 1, "&");
  }

  lemma LenientStep(s: string, n: nat, w: string)
    requires IsLenient(s) && n == Semicolon(s) + 1 && w == Utf8(TakenValue(s))
    ensures StepOf(s, true, true) == Step(n, Some(w))
  {
    CharRefTakes(s);
  }

  lemma TakenFits(s: string, n: nat, w: string)
    requires IsTaken(s) && n == Semicolon(s) + 1 && w == Utf8(TakenValue(s))
    ensures |w| <= n
  {
    TakenIsShort(s);
    TailIsBehind(s);
  }

  /** A place that is not between a CR and its LF. */
  predicate IsBoundary(t: string, p: nat) {
    p == 0 || p >= |t| || t[p] != LF || t[p - 1] != CR
  }

  lemma ReferenceEnds(t: string, p: nat, n: nat)
    requires p < |t| && ReferenceAt(t[p..]).Some? && n == ReferenceAt(t[p..]).value.0
    ensures p + n <= |t| && IsBoundary(t, p + n)
  {
    ReferenceShape(t[p..]);
    assert t[p + n - 1] == t[p..][n - 1];
  }

  lemma SameAt(r: Reading, p: nat, n: nat, w: string)
    requires IsReadingOf(r) && p < |r.text| && 1 <= n && p + n <= |r.text| && |w| <= n
    requires StepOf(r.text[p..], true, r.entities) == Step(n, Some(w)) && MeantStep(r.text[p..], r.entities) == (n, w)
    requires r.entities ==> Saved(r.text, p + n) == Saved(r.text, p) + n - |w|
    requires forall i: nat :: p <= i < p + n ==> IsOk(r.text, i, r.entities)
    ensures IsSame(r, p, n, w)
  {
    forall i: nat | p <= i < p + n ensures r.ok(i) { assert IsOk(r.text, i, r.entities); }
  }

  lemma AtReference(r: Reading, p: nat, n: nat, w: string)
    requires IsReadingOf(r) && r.entities && p < |r.text| && ReferenceAt(r.text[p..]) == Some((n, w))
    ensures IsSame(r, p, n, w) && IsBoundary(r.text, p + n)
  {
    ReferenceFits(r.text, p, n, w);
    ReferenceEnds(r.text, p, n);
    SameAt(r, p, n, w);
  }

  lemma AtLenient(r: Reading, p: nat, n: nat, w: string)
    requires IsReadingOf(r) && r.entities && p < |r.text| && IsLenient(r.text[p..])
    requires n == Semicolon(r.text[p..]) + 1 && w == Utf8(TakenValue(r.text[p..]))
    ensures IsLoss(r, p, n, w) && IsBoundary(r.text, p + n)
  {
    var s := r.text[p..];
    LastTaken(s, n - 1);
    assert r.text[p + n - 1] == s[n - 1] && s[n..] == r.text[p + n..];
    TakenFits(s, n, w);
    LenientStep(s, n, w);
    LenientMeansMore(s, r.sense);
    assert !IsOk(r.text, p, true);
  }

  lemma AtLooseEnd(r: Reading, p: nat)
    requires IsReadingOf(r) && r.entities && p < |r.text| && r.text[p..] == "&#"
    ensures IsLoss(r, p, 1, "")
  {
    LooseEndMeans(r.text[p..], r.sense);
    assert r.text[p..][1..] == r.text[p + 1..];
    assert !IsOk(r.text, p, true);
  }

  lemma AtUntaken(r: Reading, p: nat)
    requires IsReadingOf(r) && r.entities && p < |r.text|
    requires BeginsNumeric(r.text[p..]) && |r.text| - p > 2 && !IsTaken(r.text[p..])
    ensures IsSame(r, p, 1, "&")
  {
    UntakenFits(r.text, p, r.text[p..]);
  }

  lemma AtUnknown(r: Reading, p: nat)
    requires IsReadingOf(r) && r.entities && p < |r.text| && IsUnknown(r.text[p..])
    ensures IsPassed(r, p)
  {
    UnknownFits(r.text, p, r.text[p..]);
  }

  /** Everything that can begin with an ampersand. */
  lemma AtAmpersand(r: Reading, p: nat) returns (n: nat, w: string)
    requires IsReadingOf(r) && r.entities && p < |r.text| && r.text[p] == '&'
    ensures IsStepAt(r, p, n, w) && IsBoundary(r.text, p + n)
  {
    var s := r.text[p..];
    assert s[0] == '&';
    n, w := 1, "&";
    if ReferenceAt(s).Some? {
      n, w := ReferenceAt(s).value.0, ReferenceAt(s).value.1;
      AtReference(r, p, n, w);
    } else if IsTaken(s) {
      n, w := Semicolon(s) + 1, Utf8(TakenValue(s));
      AtLenient(r, p, n, w);
    } else if s == "&#" {
      w := "";
      AtLooseEnd(r, p);
    } else if BeginsNumeric(s) {
      AtUntaken(r, p);
    } else {
      AtUnknown(r, p);
    }
  }

  lemma AtOther(r: Reading, p: nat) returns (n: nat, w: string)
    requires IsReadingOf(r) && p < |r.text| && IsBoundary(r.text, p)
    requires !(r.text[p] == LF && Peek(r.text, p + 1) == CR) && !(r.entities && r.text[p] == '&')
    ensures IsSame(r, p, n, w) && IsBoundary(r.text, p + n)
  {
    var s := r.text[p..];
    if r.text[p] == CR {
      n, w := if Peek(r.text, p + 1) == LF then 2 else 1, [LF];
      CrStep(r.text, p, n, r.entities, s);
      SameAt(r, p, n, w);
    } else if r.text[p] == LF {
      n, w := 1, [LF];
      LfStep(r.text, p, r.entities, s);
      SameAt(r, p, n, w);
    } else {
      n, w := 1, [r.text[p]];
      AtPlain(r, p);
    }
  }

  // ------------------------------------------------------------------------
  // Runs of line feeds and carriage returns
  // ------------------------------------------------------------------------

  /** The loop has taken the CR at `p` together with the LF before it. */
  ghost predicate AgreesBehindCr(r: Reading, p: nat, q: nat)
    requires q <= p < |r.text| && IsReading(r)
  {
    var made, meant := InPlace(r.text, p + 1, q, r.round), Meaning(r.text[p..], r.sense);
    && |made| <= |meant|
    && (EndsInCr(r.text, p) ==> |made| < |meant|)
    && (!EndsInCr(r.text, p) && InStep(r, p, q) ==> (made == meant <==> AllOk(r, p)))
  }

  lemma AtLfCr(r: Reading, p: nat, q: nat)
    requires IsReading(r) && q <= p && p + 1 < |r.text|
    requires r.round(r.text[p..]) == Step(2, Some([LF])) && r.sense(r.text[p..]) == (1, [LF])
    requires (r.ok(p) <==> !EndsInCr(r.text, p + 1)) && r.saved(p + 1) == r.saved(p)
    requires AgreesBehindCr(r, p + 1, q + 1)
    ensures Agrees(r, p, q)
  {
    InPlaceUnfolds(r.text, p, q, r.round, r.text[p..], Step(2, Some([LF])));
    MeaningUnfolds(r.text, p, r.sense, 1, [LF]);
    SplitEqual([LF], InPlace(r.text, p + 2, q + 1, r.round), [LF], Meaning(r.text[p + 1..], r.sense));
    if r.ok(p) { AllOkFrom(r, p, p + 1); }
  }

  /** The run ends here: the CR means a line feed that the loop does not write. */
  lemma AtLastCr(r: Reading, p: nat, q: nat)
    requires IsReading(r) && q <= p < |r.text| && r.sense(r.text[p..]) == (1, [LF]) && EndsInCr(r.text, p)
    requires Agrees(r, p + 1, q)
    ensures AgreesBehindCr(r, p, q)
  {
    MeaningUnfolds(r.text, p, r.sense, 1, [LF]);
  }

  lemma CrLfUnfolds(r: Reading, p: nat, q: nat, n: nat)
    requires IsReading(r) && q <= p && 1 <= n && p + 1 + n <= |r.text|
    requires r.sense(r.text[p..]) == (2, [LF]) && r.round(r.text[p + 1..]) == Step(n, Some([LF]))
    ensures InPlace(r.text, p + 1, q, r.round) == [LF] + InPlace(r.text, p + 1 + n, q + 1, r.round)
    ensures Meaning(r.text[p..], r.sense) == [LF] + Meaning(r.text[p + 2..], r.sense)
  {
    MeaningUnfolds(r.text, p, r.sense, 2, [LF]);
    InPlaceUnfolds(r.text, p + 1, q, r.round, r.text[p + 1..], Step(n, Some([LF])));
  }

  /** The run ends with the LF behind the CR. */
  lemma AtLastLf(r: Reading, p: nat, q: nat)
    requires IsReading(r) && q <= p && p + 1 < |r.text| && !EndsInCr(r.text, p)
    requires r.sense(r.text[p..]) == (2, [LF]) && r.round(r.text[p + 1..]) == Step(1, Some([LF]))
    requires r.saved(p + 2) == r.saved(p) + 1 && r.ok(p) && r.ok(p + 1)
    requires Agrees(r, p + 2, q + 1)
    ensures AgreesBehindCr(r, p, q)
  {
    CrLfUnfolds(r, p, q, 1);
    Extend([LF], InPlace(r.text, p + 2, q + 1, r.round), Meaning(r.text[p + 2..], r.sense), InStep(r, p, q),
           AllOk(r, p + 2));
    AllOkFrom(r, p, p + 2);
  }

  /** The run goes on with another LF and CR. */
  lemma AtNextCr(r: Reading, p: nat, q: nat)
    requires IsReading(r) && q <= p && p + 2 < |r.text| && (EndsInCr(r.text, p) <==> EndsInCr(r.text, p + 2))
    requires r.sense(r.text[p..]) == (2, [LF]) && r.round(r.text[p + 1..]) == Step(2, Some([LF]))
    requires r.saved(p + 2) == r.saved(p) + 1 && r.ok(p) && r.ok(p + 1)
    requires AgreesBehindCr(r, p + 2, q + 1)
    ensures AgreesBehindCr(r, p, q)
  {
    CrLfUnfolds(r, p, q, 2);
    Extend([LF], InPlace(r.text, p + 3, q + 1, r.round), Meaning(r.text[p + 2..], r.sense),
           InStep(r, p, q) && !EndsInCr(r.text, p), AllOk(r, p + 2));
    AllOkFrom(r, p, p + 2);
  }

  lemma LfCrFits(r: Reading, p: nat)
    requires IsReadingOf(r) && p + 1 < |r.text| && r.text[p] == LF && r.text[p + 1] == CR && IsBoundary(r.text, p)
    ensures r.round(r.text[p..]) == Step(2, Some([LF])) && r.sense(r.text[p..]) == (1, [LF])
    ensures (r.ok(p) <==> !EndsInCr(r.text, p + 1)) && r.saved(p + 1) == r.saved(p)
  {
    LfStep(r.text, p, r.entities, r.text[p..]);
  }

  lemma CrFits(r: Reading, p: nat)
    requires IsReadingOf(r) && p < |r.text| && r.text[p] == CR
    ensures Peek(r.text, p + 1) != LF ==> r.sense(r.text[p..]) == (1, [LF]) && EndsInCr(r.text, p)
  {
    CrStep(r.text, p, if Peek(r.text, p + 1) == LF then 2 else 1, r.entities, r.text[p..]);
  }

  lemma CrLfFits(r: Reading, p: nat)
    requires IsReadingOf(r) && p + 1 < |r.text| && r.text[p] == CR && r.text[p + 1] == LF
    ensures r.sense(r.text[p..]) == (2, [LF])
    ensures r.round(r.text[p + 1..]) == Step(if Peek(r.text, p + 2) == CR then 2 else 1, Some([LF]))
    ensures r.saved(p + 2) == r.saved(p) + 1 && r.ok(p) && r.ok(p + 1)
  {
    CrStep(r.text, p, 2, r.entities, r.text[p..]);
    LfStep(r.text, p + 1, r.entities, r.text[p + 1..]);
    assert IsOk(r.text, p, r.entities) && IsOk(r.text, p + 1, r.entities);
  }

  // ------------------------------------------------------------------------
  // The whole text
  // ------------------------------------------------------------------------

  lemma {:induction false} AgreesFrom(r: Reading, p: nat, q: nat)
    requires IsReadingOf(r) && q <= p <= |r.text| && IsBoundary(r.text, p)
    ensures Agrees(r, p, q)
    decreases |r.text| - p
  {
    if p == |r.text| {
    } else if r.text[p] == LF && Peek(r.text, p + 1) == CR {
      AgreesInRun(r, p + 1, q + 1);
      LfCrFits(r, p);
      AtLfCr(r, p, q);
    } else if r.entities && r.text[p] == '&' {
      AgreesAtAmpersand(r, p, q);
    } else {
      var n, w := AtOther(r, p);
      AgreesFrom(r, p + n, q + |w|);
      AtSame(r, p, q, n, w);
    }
  }

  lemma {:induction false} AgreesAtAmpersand(r: Reading, p: nat, q: nat)
    requires IsReadingOf(r) && q <= p < |r.text| && r.entities && r.text[p] == '&'
    ensures Agrees(r, p, q)
    decreases |r.text| - p, 0
  {
    var n, w := AtAmpersand(r, p);
    AgreesFrom(r, p + n, q + |w|);
    AtStep(r, p, q, n, w);
  }

  lemma {:induction false} AgreesInRun(r: Reading, p: nat, q: nat)
    requires IsReadingOf(r) && q <= p < |r.text| && r.text[p] == CR
    ensures AgreesBehindCr(r, p, q)
    decreases |r.text| - p
  {
    if Peek(r.text, p + 1) != LF {
      CrFits(r, p);
      AgreesFrom(r, p + 1, q);
      AtLastCr(r, p, q);
    } else if Peek(r.text, p + 2) != CR {
      CrLfFits(r, p);
      AgreesFrom(r, p + 2, q + 1);
      AtLastLf(r, p, q);
    } else {
      CrLfFits(r, p);
      AgreesInRun(r, p + 2, q + 1);
      AtNextCr(r, p, q);
    }
  }

  function ReadingOf(t: string, entities: bool): Reading {
    Reading(t, entities, Round(true, entities), Sense(entities), (i: nat) => i < |t| && IsOk(t, i, entities),
            (i: nat) => if i <= |t| then Saved(t, i) else 0)
  }

  lemma IsReadingOfText(t: string, entities: bool)
    ensures IsReadingOf(ReadingOf(t, entities))
  {
    RoundIsRound(true, entities);
  }

  /** Decoding gives what the text means if and only if the loop is right at every place. */
  lemma InPlaceIsMeaning(t: string, entities: bool)
    ensures
      var round, sense := Round(true, entities), Sense(entities);
      && IsRound(round) && IsSense(sense)
      && (InPlace(t, 0, 0, round) == Meaning(t, sense) <==> forall i :: 0 <= i < |t| ==> IsOk(t, i, entities))
  {
    var r := ReadingOf(t, entities);
    IsReadingOfText(t, entities);
    AgreesFrom(r, 0, 0);
    assert t[0..] == t && Saved(t, 0) == 0;
    AllOkMeans(t, entities, r);
  }

  lemma AllOkMeans(t: string, entities: bool, r: Reading)
    requires r == ReadingOf(t, entities)
    ensures AllOk(r, 0) <==> forall i :: 0 <= i < |t| ==> IsOk(t, i, entities)
  {
    if AllOk(r, 0) {
      forall i: nat | i < |t| ensures IsOk(t, i, entities) { assert r.ok(i); }
    }
  }

  // ------------------------------------------------------------------------
  // One pass is normalising and then expanding
  // ------------------------------------------------------------------------

  lemma {:induction false} NormalizedBefore(t: string, n: nat)
    requires n <= |t| && CR !in t[..n]
    ensures Normalized(t) == t[..n] + Normalized(t[n..])
  {
    if n == 0 { assert t[0..] == t; }
    else {
      assert t[0] == t[..n][0];
      assert t[1..][..n - 1] == t[..n][1..] && t[1..][n - 1..] == t[n..] && t[..n] == [t[0]] + t[..n][1..];
      NormalizedBefore(t[1..], n - 1);
    }
  }

  /** Up to the first newline nothing was normalised. */
  lemma {:induction false} NormalizedUpTo(t: string, n: nat)
    requires n <= |Normalized(t)| && LF !in Normalized(t)[..n]
    ensures n <= |t| && t[..n] == Normalized(t)[..n]
  {
    var u := Normalized(t);
    if n > 0 {
      assert u[0] == u[..n][0];
      assert t[0] != CR && u[1..] == Normalized(t[1..]);
      assert u[1..][..n - 1] == u[..n][1..];
      NormalizedUpTo(t[1..], n - 1);
      assert t[..n] == [t[0]] + t[1..][..n - 1] && u[..n] == [u[0]] + u[1..][..n - 1];
    }
  }

  lemma NormalizedReference(t: string, n: nat)
    requires ReferenceAt(t).Some? && n == ReferenceAt(t).value.0
    ensures ReferenceAt(Normalized(t)) == ReferenceAt(t) && n <= |Normalized(t)|
    ensures Normalized(t)[n..] == Normalized(t[n..])
  {
    ReferenceShape(t);
    assert forall i :: 0 <= i < n ==> t[..n][i] == t[i] && (i > 0 ==> IsPlainIn(t[i]));
    NormalizedBefore(t, n);
    assert Normalized(t)[..n] == t[..n];
    ReferenceInBoth(t, Normalized(t), n);
  }

  lemma NormalizedNoReference(t: string)
    requires t != [] && t[0] == '&' && ReferenceAt(t).None?
    ensures ReferenceAt(Normalized(t)).None?
  {
    var u := Normalized(t);
    if ReferenceAt(u).Some? {
      var n := ReferenceAt(u).value.0;
      ReferenceShape(u);
      assert forall i :: 0 <= i < n ==> u[..n][i] == u[i] && (i > 0 ==> IsPlainIn(u[i]));
      NormalizedUpTo(t, n);
      ReferenceInBoth(u, t, n);
    }
  }

  lemma {:induction false} MeaningIsExpanded(t: string, sense: string -> (nat, string))
    requires IsSenseOf(sense, true)
    ensures Meaning(t, sense) == Expanded(Normalized(t))
    decreases |t|
  {
    if t != [] {
      var n, w := MeantStep(t, true).0, MeantStep(t, true).1;
      assert t[0..] == t;
      MeaningUnfolds(t, 0, sense, n, w);
      MeaningIsExpanded(t[n..], sense);
      ExpandedUnfolds(t, n, w);
    }
  }

  lemma ExpandedUnfolds(t: string, n: nat, w: string)
    requires t != [] && MeantStep(t, true) == (n, w)
    ensures Expanded(Normalized(t)) == w + Expanded(Normalized(t[n..]))
  {
    var u := Normalized(t);
    if t[0] == '&' && ReferenceAt(t).Some? {
      NormalizedReference(t, n);
    } else {
      if t[0] == '&' { NormalizedNoReference(t); }
      assert u[1..] == Normalized(t[n..]) && ReferenceAt(u).None?;
    }
  }

  lemma {:induction false} MeaningIsNormalized(t: string, sense: string -> (nat, string))
    requires IsSenseOf(sense, false)
    ensures Meaning(t, sense) == Normalized(t)
    decreases |t|
  {
    if t != [] {
      var n, w := MeantStep(t, false).0, MeantStep(t, false).1;
      assert t[0..] == t;
      MeaningUnfolds(t, 0, sense, n, w);
      MeaningIsNormalized(t[n..], sense);
    }
  }

  // ------------------------------------------------------------------------
  // When decoding is right
  // ------------------------------------------------------------------------

  /** Decoding gives what XML 1.0 means if and only if the loop is right at every place. */
  lemma InPlaceIsMeant(t: string)
    ensures
      var round := Round(true, true);
      && IsRound(round)
      && (InPlace(t, 0, 0, round) == Expanded(Normalized(t)) <==> forall i :: 0 <= i < |t| ==> IsOk(t, i, true))
  {
    InPlaceIsMeaning(t, true);
    MeaningIsExpanded(t, Sense(true));
  }

  /** A newline of one kind is at `k` and one of the other kind behind it. */
  predicate Alternates(t: string, k: nat) {
    k + 1 < |t| && ((t[k] == LF && t[k + 1] == CR) || (t[k] == CR && t[k + 1] == LF))
  }

  /** From `i` to `j` line feeds and carriage returns alternate, from an LF to a CR, and cannot be extended. */
  predicate IsLfToCr(t: string, i: nat, j: nat) {
    && i < j < |t| && t[i] == LF && t[j] == CR
    && (forall k :: i <= k < j ==> Alternates(t, k))
    && (i == 0 || t[i - 1] != CR) && Peek(t, j + 1) != LF
  }

  lemma {:induction false} RunEnds(t: string, i: nat) returns (j: nat)
    requires i < |t| && t[i] == CR && EndsInCr(t, i)
    ensures i <= j < |t| && t[j] == CR && Peek(t, j + 1) != LF
    ensures forall k :: i <= k < j ==> Alternates(t, k)
    decreases |t| - i
  {
    if Peek(t, i + 1) != LF { j := i; }
    else {
      j := RunEnds(t, i + 2);
      assert Alternates(t, i) && Alternates(t, i + 1);
    }
  }

  lemma {:induction false} RunBegins(t: string, i: nat, j: nat)
    requires i <= j < |t| && t[i] == CR && t[j] == CR && Peek(t, j + 1) != LF
    requires forall k :: i <= k < j ==> Alternates(t, k)
    ensures EndsInCr(t, i)
    decreases j - i
  {
    if i < j {
      assert Alternates(t, i);
      assert Alternates(t, i + 1);
      RunBegins(t, i + 2, j);
    }
  }

  lemma StrayRunIs(t: string, i: nat)
    requires i < |t|
    ensures IsStrayRun(t, i) <==> exists j :: IsLfToCr(t, i, j)
  {
    if IsStrayRun(t, i) {
      var j := RunEnds(t, i + 1);
      assert Alternates(t, i);
      assert IsLfToCr(t, i, j);
    }
    if exists j :: IsLfToCr(t, i, j) {
      var j :| IsLfToCr(t, i, j);
      assert Alternates(t, i);
      RunBegins(t, i + 1, j);
    }
  }

  ghost predicate HasLfToCr(t: string) {
    exists i: nat, j: nat :: IsLfToCr(t, i, j)
  }

  lemma StrayRunsAre(t: string)
    ensures HasLfToCr(t) <==> exists i :: 0 <= i < |t| && IsStrayRun(t, i)
  {
    if HasLfToCr(t) {
      var i: nat, j: nat :| IsLfToCr(t, i, j);
      StrayRunIs(t, i);
    }
    if i :| 0 <= i < |t| && IsStrayRun(t, i) { StrayRunIs(t, i); }
  }

  /** Without entities only such runs are decoded otherwise than section 2.11 says. */
  lemma InPlaceIsNormalized(t: string)
    ensures
      var round := Round(true, false);
      IsRound(round) && (InPlace(t, 0, 0, round) == Normalized(t) <==> !HasLfToCr(t))
  {
    InPlaceIsMeaning(t, false);
    MeaningIsNormalized(t, Sense(false));
    StrayRunsAre(t);
    assert forall i :: 0 <= i < |t| ==> (IsOk(t, i, false) <==> !IsStrayRun(t, i));
  }

  /** Every ampersand starts one of the five entities or a numeric reference. */
  predicate HasOnlyReferences(t: string) {
    forall i :: 0 <= i < |t| && t[i] == '&' ==> ReferenceAt(t[i..]).Some?
  }

  lemma OkInReferences(t: string, i: nat)
    requires HasOnlyReferences(t) && i < |t|
    ensures IsOk(t, i, true) <==> !IsStrayRun(t, i)
  {
    assert t[i..][0] == t[i];
    if t[i] == '&' { ReferenceStep(t[i..]); }
  }

  /** A text in which every ampersand starts a reference decodes as XML 1.0 means it but for such runs. */
  lemma DecodesAsMeant(t: string)
    requires HasOnlyReferences(t)
    ensures
      var round := Round(true, true);
      IsRound(round) && (InPlace(t, 0, 0, round) == Expanded(Normalized(t)) <==> !HasLfToCr(t))
  {
    InPlaceIsMeant(t);
    StrayRunsAre(t);
    forall i: nat | i < |t| ensures IsOk(t, i, true) <==> !IsStrayRun(t, i) { OkInReferences(t, i); }
  }

  // ------------------------------------------------------------------------
  // Texts decoded otherwise
  // ------------------------------------------------------------------------

  /** The CR behind an LF is lost. */
  lemma LfCrIsLost()
    ensures var round := Round(true, true); IsRound(round) && InPlace("\n\rx", 0, 0, round) == "\nx"
    ensures Normalized("\n\rx") == "\n\nx"
  {
    var t, round := "\n\rx", Round(true, true);
    RoundIsRound(true, true);
    assert t[0..] == t && t[1..] == "\rx" && t[2..] == "x" && t[3..] == "" && "\rx"[1..] == "x";
    InPlaceUnfolds(t, 2, 1, round, "x", Step(1, Some("x")));
    InPlaceUnfolds(t, 0, 0, round, t, Step(2, Some([LF])));
  }

  /** An entity decoded before an unknown ampersand leaves another letter in its place. */
  lemma AmpersandCanBeLost()
    ensures var round := Round(true, true); IsRound(round) && InPlace("&lt;&z", 0, 0, round) == "<lz"
    ensures Expanded(Normalized("&lt;&z")) == "<&z"
  {
    RoundIsRound(true, true);
    LostSteps("&lt;&z");
    LostInPlace("&lt;&z", Round(true, true));
    LostMeant("&lt;&z");
  }

  lemma LostInPlace(t: string, round: string -> Step)
    requires t == "&lt;&z" && IsRound(round)
    requires round(t) == Step(4, Some("<")) && round("&z") == Step(1, None) && round("z") == Step(1, Some("z"))
    ensures InPlace(t, 0, 0, round) == "<lz"
  {
    assert t[0..] == t && t[4..] == "&z" && t[5..] == "z" && t[6..] == "";
    InPlaceUnfolds(t, 5, 2, round, "z", Step(1, Some("z")));
    InPlaceUnfolds(t, 4, 1, round, "&z", Step(1, None));
    InPlaceUnfolds(t, 0, 0, round, t, Step(4, Some("<")));
  }

  lemma LostMeant(t: string)
    requires t == "&lt;&z"
    ensures Expanded(Normalized(t)) == "<&z"
  {
    NormalizedBefore(t, 6);
    assert t[..6] == t && t[6..] == "" && Normalized("") == "" && t + "" == t;
    LostSteps(t);
    assert t[4..] == "&z" && "&z"[1..] == "z" && "z"[1..] == "";
    assert Expanded("z") == "z";
    assert Expanded("&z") == "&" + "z";
  }

  lemma LostSteps(t: string)
    requires t == "&lt;&z"
    ensures ReferenceAt(t) == Some((4, "<")) && ReferenceAt("&z") == None
    ensures StepOf(t, true, true) == Step(4, Some("<")) && StepOf("&z", true, true) == Step(1, None)
  {
    assert t[1..3] == "lt";
    NamedIs(t, 3);
    ReferenceStep(t);
    assert EntityAt("&z", 0) == None;
  }

  /** At the end of a text the two characters "&#" decode to one. */
  lemma LooseEndIsLost()
    ensures var round := Round(true, true); IsRound(round) && InPlace("&#", 0, 0, round) == "#"
    ensures Expanded(Normalized("&#")) == "&#"
  {
    var t, round := "&#", Round(true, true);
    RoundIsRound(true, true);
    assert t[0..] == t && t[1..] == "#" && "#"[1..] == "";
    InPlaceUnfolds(t, 1, 0, round, "#", Step(1, Some("#")));
    InPlaceUnfolds(t, 0, 0, round, t, Step(1, Some("")));
    assert Normalized("#") == "#" && Normalized(t) == "&" + "#" && ReferenceAt(t).None? && Expanded("#") == "#";
  }
}
