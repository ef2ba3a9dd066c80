/** Splitting text at a separator. */
module Text {

  function Join(parts: seq<string>, separator: char): string {
    if parts == [] then []
    else if |parts| == 1 then parts[0]
    else Join(parts[..|parts| - 1], separator) + [separator] + parts[|parts| - 1]
  }

  /** The parts of a text: none holds the separator, and joined they are the text. */
  ghost predicate IsSplit(text: string, separator: char, parts: seq<string>) {
    && parts != []
    && (forall i :: 0 <= i < |parts| ==> separator !in parts[i])
    && Join(parts, separator) == text
  }

  method Split(text: string, separator: char) returns (parts: seq<string>)
    ensures IsSplit(text, separator, parts)
  {
    parts := [];
    var rest := text;
    while true
      invariant forall i :: 0 <= i < |parts| ==> separator !in parts[i]
      invariant text == (if parts == [] then rest else Join(parts, separator) + [separator] + rest)
      decreases |rest|
    {
      var end := Find(rest, separator);
      ghost var before := parts;
      parts := parts + [rest[..end]];
      assert parts[..|parts| - 1] == before;
      if end == |rest| {
        assert rest[..end] == rest;
        return;
      }
      assert rest == rest[..end] + [separator] + rest[end + 1..];
      rest := rest[end + 1..];
    }
  }

  /** string_view::find: the first position of a character, or the length. */
  method Find(text: string, c: char) returns (i: nat)
    ensures i <= |text| && c !in text[..i] && (i < |text| ==> text[i] == c)
  {
    i := 0;
    while i < |text| && text[i] != c
      invariant i <= |text| && c !in text[..i]
    {
      assert text[..i + 1] == text[..i] + [text[i]];
      i := i + 1;
    }
  }

  /** A text splits in one way only. */
  lemma {:induction false} SplitIsUnique(text: string, separator: char, a: seq<string>, b: seq<string>)
    requires IsSplit(text, separator, a) && IsSplit(text, separator, b)
    ensures a == b
    decreases |a|
  {
    var x, y := a[|a| - 1], b[|b| - 1];
    LastPart(text, separator, a);
    LastPart(text, separator, b);
    if |x| == |text| || |y| == |text| {
      NoSeparator(text, separator, a);
      NoSeparator(text, separator, b);
    } else {
      var k, m := |text| - |x| - 1, |text| - |y| - 1;
      assert text[k] == separator && text[m] == separator;
      assert k == m;
      SplitIsUnique(text[..k], separator, a[..|a| - 1], b[..|b| - 1]);
      assert a == a[..|a| - 1] + [x] && b == b[..|b| - 1] + [y];
    }
  }

  lemma LastPart(text: string, separator: char, a: seq<string>)
    requires IsSplit(text, separator, a)
    ensures var x := a[|a| - 1];
            && |x| <= |text| && x == text[|text| - |x|..]
            && (|a| == 1 <==> |x| == |text|)
            && (|a| > 1 ==> text[|text| - |x| - 1] == separator
                            && IsSplit(text[..|text| - |x| - 1], separator, a[..|a| - 1]))
  {
    if |a| > 1 {
      var init := Join(a[..|a| - 1], separator);
      assert text == init + [separator] + a[|a| - 1];
      assert text[..|init|] == init;
    }
  }

  lemma NoSeparator(text: string, separator: char, a: seq<string>)
    requires IsSplit(text, separator, a) && (|a[|a| - 1]| == |text| || separator !in text)
    ensures a == [text]
  {
    LastPart(text, separator, a);
  }

  /** The parts of a text, computed by one pass over it. */
  function Fields(text: string, separator: char): (parts: seq<string>)
    ensures parts != []
  {
    if text == [] then [[]]
    else
      var parts, c := Fields(text[..|text| - 1], separator), text[|text| - 1];
      if c == separator then parts + [[]]
      else parts[..|parts| - 1] + [parts[|parts| - 1] + [c]]
  }

  lemma {:induction false} FieldsAreTheSplit(text: string, separator: char)
    ensures IsSplit(text, separator, Fields(text, separator))
  {
    if text != [] {
      var init, c := text[..|text| - 1], text[|text| - 1];
      FieldsAreTheSplit(init, separator);
      var before, parts := Fields(init, separator), Fields(text, separator);
      assert parts[..|parts| - 1] == if c == separator then before else before[..|before| - 1];
      assert text == init + [c];
    }
  }
}
