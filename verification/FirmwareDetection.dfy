/**
 Comparing the partitions' contents with the release table (firmware/FirmwareRelease.cpp).
 */
module FirmwareDetection {
  import opened Common
  import opened FirmwareRelease

  type Bytes = seq<byte>

  /** What the next read() of a file does. */
  datatype Outcome = Interrupted | Failed | UpTo(n: nat)

  /** A file of fixed content. Reads return 1 to the asked number of bytes, as the script says. */
  class File {
    const content: Bytes
    var pos: nat
    var script: seq<Outcome>

    constructor (content: Bytes, script: seq<Outcome>)
      ensures this.content == content && pos == 0 && this.script == script
    {
      this.content, pos, this.script := content, 0, script;
    }

    /** The bytes read, [] at the end of the data; or why there are none. */
    method Read(size: nat) returns (outcome: Outcome, data: Bytes)
      requires pos <= |content| && size > 0
      modifies this
      ensures pos <= |content| && old(pos) <= pos
      ensures !outcome.UpTo? ==> pos == old(pos) && |script| < |old(script)| && outcome in old(script)
      ensures outcome.UpTo? ==>
        && pos == old(pos) + |data| && |data| <= size && data == content[old(pos)..pos]
        && (data == [] ==> old(pos) == |content|)
      ensures forall o :: o in script ==> o in old(script)
      ensures outcome.UpTo? ==> |script| <= |old(script)|
    {
      outcome, data := UpTo(size), [];
      if script != [] {
        outcome := script[0];
        script := script[1..];
        if !outcome.UpTo? { return; }
      }
      var n := Min(Min(Max(outcome.n, 1), size), |content| - pos);
      data := content[pos..pos + n];
      pos := pos + n;
    }
  }

  /** The lengths of a std::set in iteration order. */
  ghost predicate Ascending(lengths: seq<nat>) {
    forall i, j :: 0 <= i < j < |lengths| ==> lengths[i] < lengths[j]
  }

  /** The digest of each prefix that exists. An empty file ends before even the empty prefix. */
  ghost function PrefixDigestsOf(content: Bytes, lengths: seq<nat>, hash: Bytes -> Digest): map<nat, Digest> {
    map n | n in lengths && n <= |content| && content != [] :: hash(content[..n])
  }

  /** What the first k lengths contribute. */
  ghost predicate Digested(digests: map<nat, Digest>, content: Bytes, lengths: seq<nat>, k: nat, hash: Bytes -> Digest)
    requires k <= |lengths|
  {
    && (forall i :: 0 <= i < k ==> lengths[i] <= |content|)
    && digests.Keys == (set i | 0 <= i < k :: lengths[i])
    && (forall n :: n in digests ==> n <= |content| && digests[n] == hash(content[..n]))
  }

  lemma SliceOfSlice(s: Bytes, start: nat, n: nat, a: nat, b: nat)
    requires start + n <= |s| && a <= b <= n
    ensures s[start..start + n][a..b] == s[start + a..start + b]
  {
    var t := s[start..start + n];
    assert forall k :: 0 <= k < b - a ==> t[a..b][k] == t[a + k] == s[start + a + k];
  }

  /** Feeding the next bytes of the chunk to a context that has everything before them. */
  lemma Fed(content: Bytes, hashed: nat, buffer: Bytes, used: nat, take: nat)
    requires hashed + |buffer| <= |content| && buffer == content[hashed..hashed + |buffer|] && used + take <= |buffer|
    ensures content[..hashed + used] + buffer[used..used + take] == content[..hashed + used + take]
  {
    SliceOfSlice(content, hashed, |buffer|, used, used + take);
  }

  lemma DigestedMore(digests: map<nat, Digest>, content: Bytes, lengths: seq<nat>, k: nat, hash: Bytes -> Digest)
    requires k < |lengths| && Digested(digests, content, lengths, k, hash) && lengths[k] <= |content|
    ensures Digested(digests[lengths[k] := hash(content[..lengths[k]])], content, lengths, k + 1, hash)
  {
    var more := digests[lengths[k] := hash(content[..lengths[k]])];
    assert more.Keys == digests.Keys + {lengths[k]};
  }

  /** What one chunk adds: the digests of the lengths it reaches. `context` holds the bytes the hash was fed. */
  method FinishPrefixes(lengths: seq<nat>, hash: Bytes -> Digest, buffer: Bytes, hashed: nat, context: Bytes,
                        next: nat, digests: map<nat, Digest>, ghost content: Bytes)
    returns (next': nat, digests': map<nat, Digest>, context': Bytes, used: nat)
    requires Ascending(lengths) && next <= |lengths| && Digested(digests, content, lengths, next, hash)
    requires hashed + |buffer| <= |content| && buffer == content[hashed..hashed + |buffer|]
    requires context == content[..hashed]
    requires next < |lengths| ==> hashed <= lengths[next]
    ensures next <= next' <= |lengths| && Digested(digests', content, lengths, next', hash)
    ensures next' < |lengths| ==> lengths[next'] > hashed + |buffer|
    ensures used <= |buffer| && context' == content[..hashed + used]
  {
    next', digests', context', used := next, digests, context, 0;
    var end := hashed + |buffer|;
    while next' < |lengths| && lengths[next'] <= end
      invariant next <= next' <= |lengths| && Digested(digests', content, lengths, next', hash)
      invariant used <= |buffer| && context' == content[..hashed + used]
      invariant next' < |lengths| ==> hashed + used <= lengths[next']
    {
      var take := lengths[next'] - (hashed + used);
      Fed(content, hashed, buffer, used, take);
      context' := context' + buffer[used..used + take];
      used := used + take;
      DigestedMore(digests', content, lengths, next', hash);
      digests' := digests'[lengths[next'] := hash(context')];
      next' := next' + 1;
    }
  }

  /** When the lengths that are left lie past the end of the data, the digests are complete. */
  lemma AllDigested(digests: map<nat, Digest>, content: Bytes, lengths: seq<nat>, k: nat, hash: Bytes -> Digest)
    requires k <= |lengths| && Digested(digests, content, lengths, k, hash) && Ascending(lengths)
    requires k > 0 ==> content != []
    requires k < |lengths| && content != [] ==> lengths[k] > |content|
    ensures digests == PrefixDigestsOf(content, lengths, hash)
  {
    var all := PrefixDigestsOf(content, lengths, hash);
    forall n ensures n in digests <==> n in all {
      if n in all {
        var i :| 0 <= i < |lengths| && lengths[i] == n;
        assert i < k;
      }
    }
  }

  /**
   One pass of reads, however they are split, digests exactly the prefixes that exist. Without a
   result a read has failed.
   */
  method PrefixDigests(file: File, lengths: seq<nat>, bufferSize: nat, hash: Bytes -> Digest)
    returns (r: Option<map<nat, Digest>>)
    requires file.pos == 0 && bufferSize > 0 && Ascending(lengths)
    modifies file
    ensures r.Some? ==> r.value == PrefixDigestsOf(file.content, lengths, hash)
    ensures r.None? ==> Failed in old(file.script)
  {
    var digests: map<nat, Digest>, next, context: Bytes := map[], 0, [];
    ghost var content := file.content;
    while next < |lengths|
      invariant file.pos <= |content| && next <= |lengths| && Digested(digests, content, lengths, next, hash)
      invariant context == content[..file.pos] && (next < |lengths| && file.pos > 0 ==> file.pos < lengths[next])
      invariant next > 0 ==> content != []
      invariant forall o :: o in file.script ==> o in old(file.script)
      decreases |content| - file.pos, |file.script|
    {
      var hashed := file.pos;
      var outcome, buffer := file.Read(bufferSize);
      if outcome == Interrupted { continue; }
      if outcome == Failed { return None; }
      if buffer == [] {
        AllDigested(digests, content, lengths, next, hash);
        return Some(digests);
      }
      var used;
      next, digests, context, used := FinishPrefixes(lengths, hash, buffer, hashed, context, next, digests, content);
      if next == |lengths| {
        AllDigested(digests, content, lengths, next, hash);
        return Some(digests);
      }
      Fed(content, hashed, buffer, used, |buffer| - used);
      context := context + buffer[used..];
    }
    AllDigested(digests, content, lengths, next, hash);
    return Some(digests);
  }

  // ------------------------------------------------------------------------
  // Matching and the verdict
  // ------------------------------------------------------------------------

  /** The releases whose image has the digest of the prefix of its length. */
  ghost function Matching(images: seq<Image>, digests: map<nat, Digest>): set<string> {
    set i | 0 <= i < |images| && images[i].bytes in digests && digests[images[i].bytes] == images[i].sha256
          :: images[i].release
  }

  method MatchingReleases(images: seq<Image>, digests: map<nat, Digest>) returns (releases: set<string>)
    ensures releases == Matching(images, digests)
  {
    releases := {};
    for k := 0 to |images|
      invariant releases == Matching(images[..k], digests)
    {
      ghost var before, after := Matching(images[..k], digests), Matching(images[..k + 1], digests);
      var image := images[k];
      var hit := image.bytes in digests && digests[image.bytes] == image.sha256;
      assert after == before + (if hit then {image.release} else {}) by {
        assert forall i :: 0 <= i < k ==> images[..k + 1][i] == images[..k][i];
        assert images[..k + 1][k] == image;
        forall r | r in before ensures r in after {
          var i :| 0 <= i < k && images[..k][i].bytes in digests
                   && digests[images[..k][i].bytes] == images[..k][i].sha256 && images[..k][i].release == r;
          assert images[..k + 1][i].release == r;
        }
      }
      if hit { releases := releases + {image.release}; }
    }
    assert images[..|images|] == images;
  }

  datatype Verdict = Unknown | Mixed | Release(release: string)

  /** A partition of the table that matches nothing, or has no matches at all. */
  ghost predicate Unmatched(table: Table, matches: map<string, set<string>>, name: string) {
    name in table.partitions && (name !in matches || matches[name] == {})
  }

  /** A release that every partition of the table matches. */
  ghost predicate InAll(table: Table, matches: map<string, set<string>>, r: string) {
    && table.partitions != map[]
    && forall name :: name in table.partitions ==> name in matches && r in matches[name]
  }

  /** The newest release every partition matches, by its numbers. */
  method Result(table: Table, matches: map<string, set<string>>) returns (v: Verdict)
    ensures v == Unknown <==> table.partitions == map[] || exists name :: Unmatched(table, matches, name)
    ensures v == Mixed <==> v != Unknown && forall r :: !InAll(table, matches, r)
    ensures v.Release? ==> InAll(table, matches, v.release)
                           && forall r :: InAll(table, matches, r) && r != v.release ==> Outranks(v.release, r)
  {
    var rest := table.partitions.Keys;
    var common: Option<set<string>> := None;
    while rest != {}
      invariant rest <= table.partitions.Keys
      invariant common.None? <==> rest == table.partitions.Keys
      invariant forall name :: name in table.partitions && name !in rest ==> !Unmatched(table, matches, name)
      invariant common.Some? ==> forall r :: r in common.value <==>
                  forall name :: name in table.partitions && name !in rest ==> name in matches && r in matches[name]
      decreases |rest|
    {
      var name :| name in rest;
      if name !in matches || matches[name] == {} {
        assert Unmatched(table, matches, name);
        return Unknown;
      }
      common := Some(if common.None? then matches[name] else common.value * matches[name]);
      rest := rest - {name};
    }
    assert table.partitions.Keys == {} <==> table.partitions == map[];
    if common.None? { return Unknown; }
    assert forall r :: r in common.value <==> InAll(table, matches, r);
    if common.value == {} { return Mixed; }
    var best := MaxElement(common.value);
    return Release(best);
  }

  /** The order of std::string, in which std::set keeps the releases. */
  predicate IsBefore(a: string, b: string) {
    b != [] && (a == [] || a[0] < b[0] || (a[0] == b[0] && IsBefore(a[1..], b[1..])))
  }

  lemma {:induction false} BeforeIsTotal(a: string, b: string)
    ensures a == b || IsBefore(a, b) || IsBefore(b, a)
  {
    if a != [] && b != [] && a[0] == b[0] {
      BeforeIsTotal(a[1..], b[1..]);
      assert a[1..] == b[1..] ==> a == [a[0]] + a[1..] == b;
    }
  }

  lemma {:induction false} BeforeIsTransitive(a: string, b: string, c: string)
    requires IsBefore(a, b) && IsBefore(b, c)
    ensures IsBefore(a, c)
  {
    if a != [] && a[0] == b[0] == c[0] { BeforeIsTransitive(a[1..], b[1..], c[1..]); }
  }

  /** The newer release, or of two with the same numbers, such as 16.01.0 and 16.1.0, the one that comes first. */
  ghost predicate Outranks(a: string, b: string) {
    Newer(a, b) || (!Newer(b, a) && IsBefore(a, b))
  }

  /** The release a std::set iterates over first. */
  method First(s: set<string>) returns (first: string)
    requires s != {}
    ensures first in s && forall r :: r in s && r != first ==> IsBefore(first, r)
  {
    first :| first in s;
    var rest := s - {first};
    while rest != {}
      invariant rest < s && first in s && first !in rest
      invariant forall r :: r in s && r !in rest && r != first ==> IsBefore(first, r)
      decreases |rest|
    {
      var r :| r in rest;
      BeforeIsTotal(first, r);
      ghost var was := first;
      if IsBefore(r, first) {
        forall q | q in s && q !in rest && q != was ensures IsBefore(r, q) { BeforeIsTransitive(r, was, q); }
        first := r;
      }
      rest := rest - {r};
    }
  }

  lemma NewBest(s: set<string>, best: string, r: string)
    requires Newer(r, best) && forall q :: q in s && q != best ==> Outranks(best, q)
    ensures forall q :: q in s && q != r ==> Outranks(r, q)
  {
  }

  /** std::max_element with newerRelease, over the releases in their order. */
  method MaxElement(s: set<string>) returns (best: string)
    requires s != {}
    ensures best in s && forall r :: r in s && r != best ==> Outranks(best, r)
  {
    best := First(s);
    var rest := s - {best};
    while rest != {}
      invariant rest < s && best in s && best !in rest
      invariant forall q, r :: q in s && q !in rest && r in rest ==> IsBefore(q, r)
      invariant forall r :: r in s && r !in rest && r != best ==> Outranks(best, r)
      decreases |rest|
    {
      var r := First(rest);
      var newer := NewerRelease(r, best);
      if newer {
        NewBest(s - rest, best, r);
        best := r;
      }
      rest := rest - {r};
    }
  }

  // ------------------------------------------------------------------------
  // The whole detection (firmware/main.cpp)
  // ------------------------------------------------------------------------

  /** A std::set insertion into the ascending lengths. */
  method InsertLength(lengths: seq<nat>, n: nat) returns (more: seq<nat>)
    requires Ascending(lengths)
    ensures Ascending(more) && forall x :: x in more <==> x in lengths || x == n
  {
    var i := 0;
    while i < |lengths| && lengths[i] < n
      invariant i <= |lengths| && forall j :: 0 <= j < i ==> lengths[j] < n
    {
      i := i + 1;
    }
    if i < |lengths| && lengths[i] == n { return lengths; }
    more := lengths[..i] + [n] + lengths[i..];
    assert forall j :: 0 <= j < i ==> more[j] == lengths[j];
    assert more[i] == n;
    assert forall j :: i <= j < |lengths| ==> more[j + 1] == lengths[j];
    Inserted(lengths, n, i, more);
  }

  lemma Inserted(lengths: seq<nat>, n: nat, i: nat, more: seq<nat>)
    requires Ascending(lengths) && i <= |lengths| && |more| == |lengths| + 1 && more[i] == n
    requires forall j :: 0 <= j < i ==> more[j] == lengths[j] && lengths[j] < n
    requires forall j :: i <= j < |lengths| ==> more[j + 1] == lengths[j] && lengths[j] > n
    ensures Ascending(more) && forall x :: x in more <==> x in lengths || x == n
  {
    forall a, b | 0 <= a < b < |more| ensures more[a] < more[b] {
      if a > i { assert more[a] == lengths[a - 1]; }
      if b > i { assert more[b] == lengths[b - 1]; }
    }
    forall x | x in lengths ensures x in more {
      var j :| 0 <= j < |lengths| && lengths[j] == x;
      assert more[if j < i then j else j + 1] == x;
    }
    forall x | x in more && x != n ensures x in lengths {
      var j :| 0 <= j < |more| && more[j] == x;
      assert lengths[if j < i then j else j - 1] == x;
    }
  }

  method LengthsOf(images: seq<Image>) returns (lengths: seq<nat>)
    ensures Ascending(lengths)
    ensures forall x :: x in lengths <==> exists i :: 0 <= i < |images| && images[i].bytes == x
  {
    lengths := [];
    for k := 0 to |images|
      invariant Ascending(lengths)
      invariant forall x :: x in lengths <==> exists i :: 0 <= i < k && images[i].bytes == x
    {
      lengths := InsertLength(lengths, images[k].bytes);
    }
  }

  /** The partition starts with the image, as far as the digest tells. */
  ghost predicate Holds(disk: Bytes, image: Image, hash: Bytes -> Digest) {
    disk != [] && image.bytes <= |disk| && hash(disk[..image.bytes]) == image.sha256
  }

  ghost function Held(images: seq<Image>, disk: Bytes, hash: Bytes -> Digest): set<string> {
    set i | 0 <= i < |images| && Holds(disk, images[i], hash) :: images[i].release
  }

  lemma MatchingIsHeld(images: seq<Image>, disk: Bytes, lengths: seq<nat>, hash: Bytes -> Digest)
    requires forall i :: 0 <= i < |images| ==> images[i].bytes in lengths
    ensures Matching(images, PrefixDigestsOf(disk, lengths, hash)) == Held(images, disk, hash)
  {
    var digests := PrefixDigestsOf(disk, lengths, hash);
    forall i | 0 <= i < |images|
      ensures images[i].bytes in digests && digests[images[i].bytes] == images[i].sha256
              <==> Holds(disk, images[i], hash)
    {
    }
  }

  /** The contents of the table's partitions. */
  ghost function Disks(table: Table, files: map<string, File>): map<string, Bytes> {
    map name | name in table.partitions && name in files :: files[name].content
  }

  ghost predicate HeldByAll(table: Table, disks: map<string, Bytes>, hash: Bytes -> Digest, r: string) {
    && table.partitions != map[]
    && forall name :: name in table.partitions ==>
         name in disks && r in Held(table.partitions[name], disks[name], hash)
  }

  /** One partition: hash the prefixes its images need and compare. */
  method Examine(images: seq<Image>, file: File, bufferSize: nat, hash: Bytes -> Digest)
    returns (found: Option<set<string>>)
    requires bufferSize > 0 && file.pos == 0
    modifies file
    ensures found.Some? ==> found.value == Held(images, file.content, hash)
    ensures found.None? ==> Failed in old(file.script)
  {
    var lengths := LengthsOf(images);
    var digests := PrefixDigests(file, lengths, bufferSize, hash);
    if digests.None? { return None; }
    var releases := MatchingReleases(images, digests.value);
    MatchingIsHeld(images, file.content, lengths, hash);
    return Some(releases);
  }

  /** The matches of the partitions that were examined. */
  ghost predicate Examined(table: Table, disks: map<string, Bytes>, hash: Bytes -> Digest,
                           matches: map<string, set<string>>)
  {
    forall name :: name in matches ==>
      && name in table.partitions && name in disks
      && matches[name] != {} && matches[name] == Held(table.partitions[name], disks[name], hash)
  }

  lemma AllExamined(table: Table, disks: map<string, Bytes>, hash: Bytes -> Digest, matches: map<string, set<string>>)
    requires Examined(table, disks, hash, matches) && matches.Keys == table.partitions.Keys
    ensures forall r :: InAll(table, matches, r) <==> HeldByAll(table, disks, hash, r)
    ensures forall name :: !Unmatched(table, matches, name)
  {
  }

  /** Why nothing is known about a table's partitions. */
  ghost predicate NothingKnown(table: Table, disks: map<string, Bytes>, hash: Bytes -> Digest, unreadable: set<string>) {
    || table.partitions == map[]
    || exists name :: name in table.partitions &&
         (name !in disks || name in unreadable || Held(table.partitions[name], disks[name], hash) == {})
  }

  lemma OneMore(table: Table, disks: map<string, Bytes>, hash: Bytes -> Digest,
                matches: map<string, set<string>>, name: string, found: set<string>)
    requires Examined(table, disks, hash, matches) && name in table.partitions && name in disks
    requires found != {} && found == Held(table.partitions[name], disks[name], hash)
    ensures Examined(table, disks, hash, matches[name := found])
  {
  }

  lemma NotKnown(table: Table, disks: map<string, Bytes>, hash: Bytes -> Digest, unreadable: set<string>, name: string)
    requires name in table.partitions
    requires name !in disks || name in unreadable || Held(table.partitions[name], disks[name], hash) == {}
    ensures NothingKnown(table, disks, hash, unreadable)
  {
  }

  /** The files whose reads can fail. */
  ghost function Unreadable(files: map<string, File>): set<string>
    reads set name | name in files :: files[name]
  {
    set name | name in files && Failed in files[name].script
  }

  /** Nothing has been read from a partition's file yet. */
  ghost predicate Untouched(files: map<string, File>, done: set<string>)
    reads set name | name in files :: files[name]
  {
    forall name :: name in files && name !in done ==> files[name].pos == 0
  }

  /** What a partition of the table holds, if it has a file that can be read and holds anything. */
  method ExamineNamed(table: Table, files: map<string, File>, name: string, bufferSize: nat, hash: Bytes -> Digest)
    returns (found: Option<set<string>>)
    requires bufferSize > 0 && name in table.partitions && (name in files ==> files[name].pos == 0)
    modifies if name in files then {files[name]} else {}
    ensures found.Some? ==>
      name in files && found.value != {} && found.value == Held(table.partitions[name], files[name].content, hash)
    ensures found.None? && name in files ==>
      Failed in old(files[name].script) || Held(table.partitions[name], files[name].content, hash) == {}
  {
    if name !in files { return None; }
    found := Examine(table.partitions[name], files[name], bufferSize, hash);
    if found == Some({}) { return None; }
  }

  method ExamineAll(table: Table, files: map<string, File>, bufferSize: nat, hash: Bytes -> Digest)
    returns (r: Option<map<string, set<string>>>)
    requires bufferSize > 0 && Untouched(files, {})
    requires forall a, b :: a in files && b in files && a != b ==> files[a] != files[b]
    modifies set name | name in files :: files[name]
    ensures r.Some? ==> Examined(table, Disks(table, files), hash, r.value) && r.value.Keys == table.partitions.Keys
    ensures r.None? ==> NothingKnown(table, Disks(table, files), hash, old(Unreadable(files)))
  {
    ghost var disks := Disks(table, files);
    var matches: map<string, set<string>> := map[];
    var rest := table.partitions.Keys;
    while rest != {}
      invariant forall name :: name in rest || name in matches <==> name in table.partitions
      invariant forall name :: name in rest ==> name !in matches
      invariant forall name :: name in files && name !in matches ==>
        files[name].pos == 0 && files[name].script == old(files[name].script)
      invariant Examined(table, disks, hash, matches)
      decreases rest
    {
      var name :| name in rest;
      var found := ExamineNamed(table, files, name, bufferSize, hash);
      if found.None? {
        NotKnown(table, disks, hash, old(Unreadable(files)), name);
        return None;
      }
      OneMore(table, disks, hash, matches, name, found.value);
      matches := matches[name := found.value];
      rest := rest - {name};
    }
    assert matches.Keys == table.partitions.Keys;
    return Some(matches);
  }

  /**
   Reads every partition once and reports the newest release all of them hold, "mixed" if each
   holds some release but no release is held by all, and otherwise "unknown".
   */
  method Detect(table: Table, files: map<string, File>, bufferSize: nat, hash: Bytes -> Digest)
    returns (v: Verdict)
    requires bufferSize > 0 && Untouched(files, {})
    requires forall a, b :: a in files && b in files && a != b ==> files[a] != files[b]
    modifies set name | name in files :: files[name]
    ensures v.Release? ==> HeldByAll(table, Disks(table, files), hash, v.release)
    ensures v.Release? ==>
      forall r :: HeldByAll(table, Disks(table, files), hash, r) && r != v.release ==> Outranks(v.release, r)
    ensures v == Mixed ==> forall r :: !HeldByAll(table, Disks(table, files), hash, r)
    ensures v != Unknown ==> !NothingKnown(table, Disks(table, files), hash, {})
    ensures v == Unknown ==> NothingKnown(table, Disks(table, files), hash, old(Unreadable(files)))
  {
    var matches := ExamineAll(table, files, bufferSize, hash);
    if matches.None? { return Unknown; }
    AllExamined(table, Disks(table, files), hash, matches.value);
    v := Result(table, matches.value);
  }
}
