/**
 The firmware release table (firmware/FirmwareRelease.cpp, firmware/FirmwareRelease.h).
 */
module FirmwareTable {
  import opened Common
  import opened Decimal
  import opened FirmwareRelease
  import opened Text

  datatype Entry = Entry(name: string, image: Image)

  /** The line "image <partition> <release> <bytes> <sha256>". */
  ghost predicate IsEntry(line: string, e: Entry) {
    exists fields :: HasFields(line, fields, e)
  }

  ghost predicate HasFields(line: string, fields: seq<string>, e: Entry) {
    && IsSplit(line, ' ', fields) && |fields| == 5
    && fields[0] == "image" && ValidName(fields[1]) && fields[1] == e.name
    && VersionOf(fields[2]).Version? && fields[2] == e.image.release
    && 1 <= e.image.bytes <= MAX_IMAGE_BYTES && fields[3] == NatToString(e.image.bytes)
    && Spells(fields[4], e.image.sha256)
  }

  /** A line describes at most one entry. */
  lemma EntryIsUnique(line: string, e: Entry, f: Entry)
    requires IsEntry(line, e) && IsEntry(line, f)
    ensures e == f
  {
    var p :| HasFields(line, p, e);
    var q :| HasFields(line, q, f);
    SplitIsUnique(line, ' ', p, q);
    WrittenIsRead(e.image.bytes);
    WrittenIsRead(f.image.bytes);
    assert e.image.sha256 == f.image.sha256;
  }

  method ParseLine(line: string) returns (r: Option<Entry>)
    ensures r.Some? ==> IsEntry(line, r.value)
    ensures r.None? ==> forall e :: !IsEntry(line, e)
  {
    var fields := Split(line, ' ');
    forall other | IsSplit(line, ' ', other) ensures other == fields {
      SplitIsUnique(line, ' ', other, fields);
    }
    if |fields| != 5 || fields[0] != "image" || !ValidName(fields[1]) { return None; }
    var version := ParseRelease(fields[2]);
    if version.NoVersion? { return None; }
    var bytes := ParseBytes(fields[3]);
    var digest := ParseDigest(fields[4]);
    if bytes.None? || digest.None? { return None; }
    var e := Entry(fields[1], Image(fields[2], bytes.value, digest.value));
    assert HasFields(line, fields, e);
    return Some(e);
  }

  // ------------------------------------------------------------------------
  // The table a list of entries makes
  // ------------------------------------------------------------------------

  function ImagesOf(entries: seq<Entry>, name: string): seq<Image> {
    if entries == [] then []
    else
      var e := entries[|entries| - 1];
      ImagesOf(entries[..|entries| - 1], name) + (if e.name == name then [e.image] else [])
  }

  function Names(entries: seq<Entry>): set<string> {
    set i | 0 <= i < |entries| :: entries[i].name
  }

  function Releases(entries: seq<Entry>): set<string> {
    set i | 0 <= i < |entries| :: entries[i].image.release
  }

  function ReleasesIn(images: seq<Image>): set<string> {
    set i | 0 <= i < |images| :: images[i].release
  }

  function TableOf(entries: seq<Entry>): Table {
    Table(map name | name in Names(entries) :: ImagesOf(entries, name), Releases(entries))
  }

  /** No partition lists a release twice. */
  ghost predicate Distinct(entries: seq<Entry>) {
    forall i, j :: 0 <= i < j < |entries| && entries[i].name == entries[j].name ==>
      entries[i].image.release != entries[j].image.release
  }

  ghost predicate DistinctImages(images: seq<Image>) {
    forall i, j :: 0 <= i < j < |images| ==> images[i].release != images[j].release
  }

  /** A text within the limits whose lines are the entries, without a repetition in a partition. */
  ghost predicate IsListing(text: string, lines: seq<string>, entries: seq<Entry>) {
    && 0 < |text| <= MAX_TABLE_BYTES && text[|text| - 1] == '\n'
    && IsSplit(text[..|text| - 1], '\n', lines)
    && |lines| == |entries| && (forall i :: 0 <= i < |lines| ==> IsEntry(lines[i], entries[i]))
    && Distinct(entries)
    && |Names(entries)| <= MAX_PARTITIONS && |Releases(entries)| <= MAX_RELEASES
  }

  /** A listing that passes the last test, which only counts. */
  ghost predicate Acceptable(text: string, lines: seq<string>, entries: seq<Entry>) {
    && IsListing(text, lines, entries)
    && forall name :: name in Names(entries) ==> |ImagesOf(entries, name)| == |Releases(entries)|
  }

  lemma {:induction false} ImagesCome(entries: seq<Entry>, name: string, k: nat)
    requires k < |ImagesOf(entries, name)|
    ensures exists i :: 0 <= i < |entries| && entries[i] == Entry(name, ImagesOf(entries, name)[k])
  {
    var init := entries[..|entries| - 1];
    if k < |ImagesOf(init, name)| {
      ImagesCome(init, name, k);
      var i :| 0 <= i < |init| && init[i] == Entry(name, ImagesOf(init, name)[k]);
      assert entries[i] == init[i];
    } else {
      assert entries[|entries| - 1] == Entry(name, ImagesOf(entries, name)[k]);
    }
  }

  lemma {:induction false} ImagesGo(entries: seq<Entry>, i: nat)
    requires i < |entries|
    ensures entries[i].image in ImagesOf(entries, entries[i].name)
  {
    var init := entries[..|entries| - 1];
    if i < |init| { ImagesGo(init, i); }
  }

  lemma {:induction false} DistinctMeansDistinctImages(entries: seq<Entry>, name: string)
    requires Distinct(entries)
    ensures DistinctImages(ImagesOf(entries, name))
  {
    if entries != [] {
      var init, e := entries[..|entries| - 1], entries[|entries| - 1];
      assert Distinct(init);
      DistinctMeansDistinctImages(init, name);
      var images := ImagesOf(init, name);
      if e.name == name {
        forall k | 0 <= k < |images| ensures images[k].release != e.image.release {
          ImagesCome(init, name, k);
          var i :| 0 <= i < |init| && init[i] == Entry(name, images[k]);
          assert entries[i] == init[i];
        }
      }
    }
  }

  lemma {:induction false} DistinctCount(images: seq<Image>)
    requires DistinctImages(images)
    ensures |ReleasesIn(images)| == |images|
  {
    if images == [] {
      assert ReleasesIn(images) == {};
    } else {
      var init, last := images[..|images| - 1], images[|images| - 1];
      DistinctCount(init);
      assert ReleasesIn(images) == ReleasesIn(init) + {last.release};
      assert last.release !in ReleasesIn(init);
    }
  }

  lemma ImagesWithinReleases(entries: seq<Entry>, name: string)
    ensures ReleasesIn(ImagesOf(entries, name)) <= Releases(entries)
  {
    forall r | r in ReleasesIn(ImagesOf(entries, name)) ensures r in Releases(entries) {
      var k :| 0 <= k < |ImagesOf(entries, name)| && ImagesOf(entries, name)[k].release == r;
      ImagesCome(entries, name, k);
    }
  }

  /** Counting is enough: a partition with as many images as there are releases lists them all. */
  lemma CountMeansSameReleases(entries: seq<Entry>, name: string)
    requires Distinct(entries)
    ensures |ImagesOf(entries, name)| == |Releases(entries)| <==>
            ReleasesIn(ImagesOf(entries, name)) == Releases(entries)
  {
    var inner, all := ReleasesIn(ImagesOf(entries, name)), Releases(entries);
    DistinctMeansDistinctImages(entries, name);
    DistinctCount(ImagesOf(entries, name));
    ImagesWithinReleases(entries, name);
    assert all == inner + (all - inner);
  }

  lemma NamesGrow(entries: seq<Entry>, e: Entry)
    ensures Names(entries + [e]) == Names(entries) + {e.name}
    ensures Releases(entries + [e]) == Releases(entries) + {e.image.release}
  {
    var more := entries + [e];
    assert more[|entries|] == e;
    assert forall i :: 0 <= i < |entries| ==> more[i] == entries[i];
    forall n | n in Names(entries) ensures n in Names(more) {
      var i :| 0 <= i < |entries| && entries[i].name == n;
      assert more[i].name == n;
    }
    forall n | n in Releases(entries) ensures n in Releases(more) {
      var i :| 0 <= i < |entries| && entries[i].image.release == n;
      assert more[i].image.release == n;
    }
  }

  lemma ImagesGrow(entries: seq<Entry>, e: Entry, name: string)
    ensures ImagesOf(entries + [e], name) ==
            if e.name == name then ImagesOf(entries, name) + [e.image] else ImagesOf(entries, name)
  {
    assert (entries + [e])[..|entries|] == entries;
    assert ImagesOf(entries, name) + [] == ImagesOf(entries, name);
  }

  lemma NoImages(entries: seq<Entry>, name: string)
    requires name !in Names(entries)
    ensures ImagesOf(entries, name) == []
  {
    if ImagesOf(entries, name) != [] {
      ImagesCome(entries, name, 0);
      assert false;
    }
  }

  /** Adding an entry to a table, as the parsing loop does. */
  lemma AddEntry(entries: seq<Entry>, e: Entry)
    ensures var t, u := TableOf(entries), TableOf(entries + [e]);
            && u.releases == t.releases + {e.image.release}
            && u.partitions == t.partitions[e.name := ImagesOf(entries, e.name) + [e.image]]
  {
    NamesGrow(entries, e);
    var t, u := TableOf(entries), TableOf(entries + [e]);
    var v := t.partitions[e.name := ImagesOf(entries, e.name) + [e.image]];
    assert u.partitions.Keys == v.Keys;
    forall name | name in u.partitions ensures u.partitions[name] == v[name] {
      ImagesGrow(entries, e, name);
    }
  }

  /** A release repeated in its partition spoils every list that starts with these entries. */
  lemma Repeated(entries: seq<Entry>, e: Entry, k: nat, all: seq<Entry>)
    requires k < |ImagesOf(entries, e.name)| && ImagesOf(entries, e.name)[k].release == e.image.release
    requires entries + [e] <= all
    ensures !Distinct(all)
  {
    ImagesCome(entries, e.name, k);
    var i :| 0 <= i < |entries| && entries[i] == Entry(e.name, ImagesOf(entries, e.name)[k]);
    assert all[i] == entries[i] && all[|entries|] == e;
  }

  lemma StillDistinct(entries: seq<Entry>, e: Entry)
    requires Distinct(entries)
    requires forall k :: 0 <= k < |ImagesOf(entries, e.name)| ==>
               ImagesOf(entries, e.name)[k].release != e.image.release
    ensures Distinct(entries + [e])
  {
    forall i | 0 <= i < |entries| && entries[i].name == e.name
      ensures entries[i].image.release != e.image.release
    {
      ImagesGo(entries, i);
    }
  }

  /** Only the entries of a text's own lines can be acceptable for it. */
  lemma EntriesAreForced(text: string, lines: seq<string>, mine: seq<Entry>, other: seq<string>, entries: seq<Entry>)
    requires text != [] && IsSplit(text[..|text| - 1], '\n', lines)
    requires |mine| <= |lines| && forall i :: 0 <= i < |mine| ==> IsEntry(lines[i], mine[i])
    requires Acceptable(text, other, entries)
    ensures other == lines && mine <= entries
  {
    SplitIsUnique(text[..|text| - 1], '\n', lines, other);
    forall i | 0 <= i < |mine| ensures mine[i] == entries[i] {
      EntryIsUnique(lines[i], mine[i], entries[i]);
    }
  }

  /** Adds an entry to the table unless its partition has that release already. */
  method PutEntry(table: Table, e: Entry, ghost mine: seq<Entry>) returns (r: Option<Table>)
    requires table == TableOf(mine) && Distinct(mine)
    ensures r.Some? ==> r.value == TableOf(mine + [e]) && Distinct(mine + [e])
    ensures r.None? ==>
      exists k :: 0 <= k < |ImagesOf(mine, e.name)| && ImagesOf(mine, e.name)[k].release == e.image.release
  {
    if e.name !in table.partitions { NoImages(mine, e.name); }
    var images := if e.name in table.partitions then table.partitions[e.name] else [];
    assert images == ImagesOf(mine, e.name);
    var repeated := Lists(images, e.image.release);
    if repeated { return None; }
    StillDistinct(mine, e);
    AddEntry(mine, e);
    return Some(Table(table.partitions[e.name := images + [e.image]], table.releases + {e.image.release}));
  }

  /** The parsing loop: one entry per line, none of them a repetition. */
  method ReadLines(text: string, lines: seq<string>) returns (r: Option<Table>, ghost mine: seq<Entry>)
    requires text != [] && IsSplit(text[..|text| - 1], '\n', lines)
    ensures r.Some? ==> |mine| == |lines| && r.value == TableOf(mine) && Distinct(mine)
                        && forall i :: 0 <= i < |lines| ==> IsEntry(lines[i], mine[i])
    ensures r.None? ==> forall other, entries :: !Acceptable(text, other, entries)
  {
    var table := Table(map[], {});
    mine := [];
    assert table == TableOf(mine);
    for n := 0 to |lines|
      invariant |mine| == n && table == TableOf(mine) && Distinct(mine)
      invariant forall i :: 0 <= i < n ==> IsEntry(lines[i], mine[i])
    {
      var entry := ParseLine(lines[n]);
      if entry.None? {
        Hopeless(text, lines, mine);
        return None, mine;
      }
      var more := PutEntry(table, entry.value, mine);
      if more.None? {
        Doomed(text, lines, mine, entry.value);
        return None, mine;
      }
      table, mine := more.value, mine + [entry.value];
    }
    return Some(table), mine;
  }

  /** Accepts exactly the acceptable texts, and returns the table of their entries. */
  method ParseTable(text: string) returns (r: Option<Table>)
    ensures r.Some? ==> exists lines, entries :: Acceptable(text, lines, entries) && r.value == TableOf(entries)
    ensures r.None? ==> forall lines, entries :: !Acceptable(text, lines, entries)
  {
    if text == [] || |text| > MAX_TABLE_BYTES || text[|text| - 1] != '\n' { return None; }
    var lines := Split(text[..|text| - 1], '\n');
    var read, mine := ReadLines(text, lines);
    if read.None? { return None; }
    var table := read.value;
    OnlyMine(text, lines, mine);
    assert table.partitions.Keys == Names(mine);
    if |table.partitions| > MAX_PARTITIONS || |table.releases| > MAX_RELEASES { return None; }
    var even := EvenCounts(table);
    if !even { return None; }
    assert Acceptable(text, lines, mine);
    return Some(table);
  }

  method Lists(images: seq<Image>, release: string) returns (found: bool)
    ensures found <==> exists k :: 0 <= k < |images| && images[k].release == release
  {
    for k := 0 to |images|
      invariant forall j :: 0 <= j < k ==> images[j].release != release
    {
      if images[k].release == release { return true; }
    }
    return false;
  }

  /** The final loop: each partition has as many images as there are releases. */
  method EvenCounts(table: Table) returns (even: bool)
    ensures even <==> forall name :: name in table.partitions ==> |table.partitions[name]| == |table.releases|
  {
    var rest := table.partitions.Keys;
    while rest != {}
      invariant rest <= table.partitions.Keys
      invariant forall name :: name in table.partitions && name !in rest ==>
                  |table.partitions[name]| == |table.releases|
      decreases |rest|
    {
      var name :| name in rest;
      if |table.partitions[name]| != |table.releases| { return false; }
      rest := rest - {name};
    }
    return true;
  }

  lemma Hopeless(text: string, lines: seq<string>, mine: seq<Entry>)
    requires text != [] && IsSplit(text[..|text| - 1], '\n', lines)
    requires |mine| < |lines| && forall i :: 0 <= i < |mine| ==> IsEntry(lines[i], mine[i])
    requires forall e :: !IsEntry(lines[|mine|], e)
    ensures forall other, entries :: !Acceptable(text, other, entries)
  {
    forall other, entries | Acceptable(text, other, entries) ensures false {
      EntriesAreForced(text, lines, mine, other, entries);
      LineIsEntry(text, other, entries, |mine|);
    }
  }

  lemma LineIsEntry(text: string, lines: seq<string>, entries: seq<Entry>, i: nat)
    requires Acceptable(text, lines, entries) && i < |lines|
    ensures IsEntry(lines[i], entries[i])
  {
  }

  lemma Doomed(text: string, lines: seq<string>, mine: seq<Entry>, e: Entry)
    requires text != [] && IsSplit(text[..|text| - 1], '\n', lines)
    requires |mine| < |lines| && forall i :: 0 <= i < |mine| ==> IsEntry(lines[i], mine[i])
    requires IsEntry(lines[|mine|], e)
    requires exists k :: 0 <= k < |ImagesOf(mine, e.name)| && ImagesOf(mine, e.name)[k].release == e.image.release
    ensures forall other, entries :: !Acceptable(text, other, entries)
  {
    forall other, entries | Acceptable(text, other, entries) ensures false {
      NotThis(text, lines, mine, e, other, entries);
    }
  }

  lemma EntriesGrow(lines: seq<string>, mine: seq<Entry>, e: Entry)
    requires |mine| < |lines| && forall i :: 0 <= i < |mine| ==> IsEntry(lines[i], mine[i])
    requires IsEntry(lines[|mine|], e)
    ensures forall i :: 0 <= i < |mine| + 1 ==> IsEntry(lines[i], (mine + [e])[i])
  {
    forall i | 0 <= i < |mine| + 1 ensures IsEntry(lines[i], (mine + [e])[i]) {
      if i < |mine| { assert (mine + [e])[i] == mine[i]; } else { assert (mine + [e])[i] == e; }
    }
  }

  lemma NotThis(text: string, lines: seq<string>, mine: seq<Entry>, e: Entry, other: seq<string>, entries: seq<Entry>)
    requires text != [] && IsSplit(text[..|text| - 1], '\n', lines)
    requires |mine| < |lines| && forall i :: 0 <= i < |mine| ==> IsEntry(lines[i], mine[i])
    requires IsEntry(lines[|mine|], e)
    requires exists k :: 0 <= k < |ImagesOf(mine, e.name)| && ImagesOf(mine, e.name)[k].release == e.image.release
    ensures !Acceptable(text, other, entries)
  {
    var k :| 0 <= k < |ImagesOf(mine, e.name)| && ImagesOf(mine, e.name)[k].release == e.image.release;
    EntriesGrow(lines, mine, e);
    if Acceptable(text, other, entries) {
      EntriesAreForced(text, lines, mine + [e], other, entries);
      Repeated(mine, e, k, entries);
    }
  }

  lemma OnlyMine(text: string, lines: seq<string>, mine: seq<Entry>)
    requires text != [] && IsSplit(text[..|text| - 1], '\n', lines)
    requires |mine| == |lines| && forall i :: 0 <= i < |mine| ==> IsEntry(lines[i], mine[i])
    ensures forall other, entries :: Acceptable(text, other, entries) ==> entries == mine
  {
    forall other, entries | Acceptable(text, other, entries) ensures entries == mine {
      EntriesAreForced(text, lines, mine, other, entries);
    }
  }

  /** A listing is accepted exactly if every partition lists every release. */
  lemma SameReleasesEverywhere(text: string, lines: seq<string>, entries: seq<Entry>)
    requires IsListing(text, lines, entries)
    ensures
      var t := TableOf(entries);
      Acceptable(text, lines, entries) <==>
      forall name :: name in t.partitions ==> ReleasesIn(t.partitions[name]) == t.releases
  {
    forall name | name in Names(entries)
      ensures |ImagesOf(entries, name)| == |Releases(entries)| <==>
              ReleasesIn(TableOf(entries).partitions[name]) == Releases(entries)
    {
      CountMeansSameReleases(entries, name);
    }
  }

  /** An accepted table has exactly one image per partition and release. */
  lemma OneImageEach(text: string, lines: seq<string>, entries: seq<Entry>, name: string, release: string)
    requires Acceptable(text, lines, entries)
    requires name in TableOf(entries).partitions && release in TableOf(entries).releases
    ensures var images := TableOf(entries).partitions[name];
      exists k: nat :: k < |images| && images[k].release == release
        && forall j: nat :: j < |images| && images[j].release == release ==> j == k
  {
    CountMeansSameReleases(entries, name);
    DistinctMeansDistinctImages(entries, name);
    OnlyOne(ImagesOf(entries, name), release);
  }

  lemma OnlyOne(images: seq<Image>, release: string)
    requires DistinctImages(images) && release in ReleasesIn(images)
    ensures
      exists k: nat :: k < |images| && images[k].release == release
        && forall j: nat :: j < |images| && images[j].release == release ==> j == k
  {
    var k: nat :| k < |images| && images[k].release == release;
    assert forall j: nat :: j < |images| && images[j].release == release ==> j == k;
  }
}
