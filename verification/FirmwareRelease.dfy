/**
 Which firmware release a phone's partitions hold (firmware/FirmwareRelease.cpp).
 */
module FirmwareRelease {
  import opened Common
  import opened Decimal
  import opened Text

  type byte = n: int | 0 <= n < 256
  type Digest = seq<byte>

  const MAX_TABLE_BYTES := 256 * 1024
  const MAX_IMAGE_BYTES := 512 * 1024 * 1024
  const MAX_PARTITIONS := 64
  const MAX_RELEASES := 64

  datatype Image = Image(release: string, bytes: nat, sha256: Digest)

  datatype Table = Table(partitions: map<string, seq<Image>>, releases: set<string>)

  // ------------------------------------------------------------------------
  // Fields of a table line
  // ------------------------------------------------------------------------

  predicate NameChar(c: char) {
    'a' <= c <= 'z' || IsDigit(c) || c == '_' || c == '-'
  }

  predicate ValidName(name: string) {
    1 <= |name| <= 32 && forall i :: 0 <= i < |name| ==> NameChar(name[i])
  }

  predicate ReleasePart(s: string) {
    1 <= |s| <= 5 && AllDigits(s)
  }

  /** The three parts between the dots of a release text. */
  ghost predicate IsRelease(s: string, parts: seq<string>) {
    IsSplit(s, '.', parts) && |parts| == 3 && forall i :: 0 <= i < 3 ==> ReleasePart(parts[i])
  }

  datatype Version = NoVersion | Version(major: nat, minor: nat, patch: nat)

  /** The numbers of a release text, by definition instead of by parsing. */
  ghost function VersionOf(s: string): Version {
    if exists parts :: IsRelease(s, parts) then
      var parts :| IsRelease(s, parts);
      Version(Value(parts[0]), Value(parts[1]), Value(parts[2]))
    else NoVersion
  }

  method ParseNumber(s: string) returns (n: nat)
    requires AllDigits(s)
    ensures n == Value(s)
  {
    n := 0;
    for i := 0 to |s|
      invariant n == Value(s[..i])
    {
      assert s[..i + 1][..i] == s[..i];
      n := n * 10 + DigitValue(s[i]);
    }
    assert s[..|s|] == s;
  }

  method ParseRelease(s: string) returns (v: Version)
    ensures v == VersionOf(s)
  {
    var parts := Split(s, '.');
    forall other | IsSplit(s, '.', other) ensures other == parts {
      SplitIsUnique(s, '.', other, parts);
    }
    if |parts| != 3 { return NoVersion; }
    var numbers: seq<nat> := [];
    for i := 0 to 3
      invariant |numbers| == i
      invariant forall j :: 0 <= j < i ==> ReleasePart(parts[j]) && numbers[j] == Value(parts[j])
    {
      if !(1 <= |parts[i]| <= 5) || !AllDigits(parts[i]) { return NoVersion; }
      var n := ParseNumber(parts[i]);
      numbers := numbers + [n];
    }
    assert IsRelease(s, parts);
    return Version(numbers[0], numbers[1], numbers[2]);
  }

  /** std::optional's order on tuples: nothing is less than something. */
  predicate Less(a: Version, b: Version) {
    b.Version? &&
    (a.NoVersion? || a.major < b.major
     || (a.major == b.major && (a.minor < b.minor || (a.minor == b.minor && a.patch < b.patch))))
  }

  /** The order the verdict goes by: it compares numbers, not texts. */
  ghost predicate Newer(a: string, b: string) {
    Less(VersionOf(b), VersionOf(a))
  }

  method NewerRelease(a: string, b: string) returns (newer: bool)
    ensures newer <==> Newer(a, b)
  {
    var v := ParseRelease(a);
    var w := ParseRelease(b);
    newer := Less(w, v);
  }

  /** Reads back exactly the image sizes that are written as NatToString writes them. */
  method ParseBytes(text: string) returns (r: Option<nat>)
    ensures r.Some? ==> 1 <= r.value <= MAX_IMAGE_BYTES && text == NatToString(r.value)
    ensures r.None? ==> forall n: nat :: 1 <= n <= MAX_IMAGE_BYTES ==> text != NatToString(n)
  {
    forall n: nat | 1 <= n <= MAX_IMAGE_BYTES
      ensures var s := NatToString(n); s != [] && |s| <= 9 && s[0] != '0' && AllDigits(s) && Value(s) == n
    {
      WrittenIsRead(n);
      assert Pow10(9) == 1_000_000_000;
      WrittenLength(n, 9);
    }
    if text == [] || |text| > 10 || text[0] == '0' || !AllDigits(text) { return None; }
    var value := ParseNumber(text);
    ReadIsWritten(text);
    LeadingDigit(text);
    if value > MAX_IMAGE_BYTES { return None; }
    return Some(value);
  }

  predicate IsHex(c: char) {
    IsDigit(c) || 'a' <= c <= 'f'
  }

  function Nibble(c: char): (n: nat)
    requires IsHex(c)
    ensures n < 16
  {
    if IsDigit(c) then DigitValue(c) else c as int - 'a' as int + 10
  }

  /** `text` writes `digest`, two characters a byte, the high half first. */
  ghost predicate Spells(text: string, digest: Digest) {
    && |text| == 64 && |digest| == 32
    && (forall i :: 0 <= i < 64 ==> IsHex(text[i]))
    && (forall i :: 0 <= i < 32 ==> digest[i] == Nibble(text[2 * i]) * 16 + Nibble(text[2 * i + 1]))
  }

  /** The byte that the digits at 2i and 2i+1 spell. */
  method ParseByte(text: string, i: nat) returns (r: Option<byte>)
    requires 2 * i + 1 < |text|
    ensures r.Some? <==> IsHex(text[2 * i]) && IsHex(text[2 * i + 1])
    ensures r.Some? ==> r.value == Nibble(text[2 * i]) * 16 + Nibble(text[2 * i + 1])
  {
    var value: byte := 0;
    for k := 0 to 2
      invariant k >= 1 ==> IsHex(text[2 * i])
      invariant k >= 2 ==> IsHex(text[2 * i + 1])
      invariant value == if k == 0 then 0 else if k == 1 then Nibble(text[2 * i])
                         else Nibble(text[2 * i]) * 16 + Nibble(text[2 * i + 1])
    {
      var c := text[2 * i + k];
      if !IsHex(c) { return None; }
      value := value * 16 % 256 + Nibble(c);
    }
    return Some(value);
  }

  method ParseDigest(text: string) returns (r: Option<Digest>)
    ensures r.Some? ==> Spells(text, r.value)
    ensures r.None? ==> forall d :: !Spells(text, d)
  {
    if |text| != 64 { return None; }
    var digest: Digest := [];
    for i := 0 to 32
      invariant |digest| == i
      invariant forall j :: 0 <= j < 2 * i ==> IsHex(text[j])
      invariant forall j :: 0 <= j < i ==> digest[j] == Nibble(text[2 * j]) * 16 + Nibble(text[2 * j + 1])
    {
      var value := ParseByte(text, i);
      if value.None? { return None; }
      digest := digest + [value.value];
    }
    return Some(digest);
  }
}
