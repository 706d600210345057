/** The `/download/:filename` handler up to the point where it decides what
    to send: 404 for a missing file, an empty 206 for a small range probe,
    or the whole file otherwise. */
module Download {
  import opened Optional
  import opened Strings
  import opened Catalogue
  import opened RangeHeader

  /** What the handler does with a request. */
  datatype Outcome =
    | NotFound      // 404, plain-text body
    | Probe206      // 206, empty body, the file is not opened
    | FullDownload  // the whole file, as an attachment
  {
    /** Only a full download streams the file. */
    predicate StreamsFile() {
      FullDownload?
    }
  }

  /** `CHUNK_SIZE_THRESHOLD`: one mebibyte. */
  const ChunkSizeThreshold: int := 1048576

  /** The size of the entry named `name`, or `None` when no such entry
      exists (`existsSync` / `statSync` on the games directory). */
  function Lookup(directory: seq<DirEntry>, name: string): (r: Option<nat>)
    ensures r.Some? <==> exists i :: 0 <= i < |directory| && directory[i].name == name
    ensures r.Some? ==> exists i :: 0 <= i < |directory| && directory[i] == DirEntry(name, r.value)
  {
    if |directory| == 0 then None
    else if directory[0].name == name then Some(directory[0].size)
    else
      var r := Lookup(directory[1..], name);
      assert forall i :: 1 <= i < |directory| ==> directory[i] == directory[1..][i - 1];
      r
  }

  /** The last byte asked for: the parsed end, or `size - 1` when the end
      group is empty. */
  function RequestedEnd(m: RangeMatch, size: nat): int
    requires m.Valid()
  {
    if |m.last| > 0 then ParseDecimal(m.last) else size - 1
  }

  /** `end - start + 1`, which is zero or negative when the end lies before
      the start. */
  function ChunkSize(m: RangeMatch, size: nat): int
    requires m.Valid()
  {
    RequestedEnd(m, size) - ParseDecimal(m.first) + 1
  }

  /** The decision of the handler, given the file's size when it exists and
      the `Range` header when one was sent. */
  function Classify(file: Option<nat>, range: Option<string>): (r: Outcome)
    ensures r == NotFound <==> file.None?
    ensures file.Some? && (range.None? || range.value == "") ==> r == FullDownload
  {
    if file.None? then NotFound
    else if range.None? || range.value == "" then FullDownload
    else
      match FindRange(range.value)
      case None => FullDownload
      case Some(m) =>
        if ChunkSize(m, file.value) <= ChunkSizeThreshold then Probe206 else FullDownload
  }

  /** One download request against the games directory: 404 exactly when
      no entry has the requested name, and otherwise the decision for the
      size of an entry with that name. */
  function HandleDownload(directory: seq<DirEntry>, filename: string, range: Option<string>): (r: Outcome)
    ensures r == NotFound <==> forall i :: 0 <= i < |directory| ==> directory[i].name != filename
    ensures r != NotFound ==>
      exists i :: 0 <= i < |directory| && directory[i].name == filename
        && r == Classify(Some(directory[i].size), range)
  {
    Classify(Lookup(directory, filename), range)
  }

  /** A header in which the pattern matches nowhere is ignored: the whole
      file is sent. */
  lemma NoMatchMeansFullDownload(size: nat, header: string)
    requires forall p: nat :: NoMatchAt(header, p)
    ensures Classify(Some(size), Some(header)) == FullDownload
  {
    FindRangeNoneSpec(header);
  }

  /** With a match, the request is a probe exactly when the chunk it asks for
      is at most one mebibyte; otherwise the whole file is sent. */
  lemma MatchDecidesByChunkSize(size: nat, header: string, p: nat, m: RangeMatch)
    requires LeftmostMatch(header, p, m)
    ensures m.Valid()
    ensures Classify(Some(size), Some(header)) == Probe206
        <==> RequestedEnd(m, size) - ParseDecimal(m.first) + 1 <= 1048576
    ensures Classify(Some(size), Some(header)) != Probe206
        ==> Classify(Some(size), Some(header)) == FullDownload
  {
    FindRangeSpec(header, m);
  }

  /** A range whose end lies before its start is always taken for a probe. */
  lemma BackwardsRangeIsProbe(size: nat, header: string, p: nat, m: RangeMatch)
    requires LeftmostMatch(header, p, m)
    requires m.Valid() && RequestedEnd(m, size) < ParseDecimal(m.first)
    ensures Classify(Some(size), Some(header)) == Probe206
  {
    FindRangeSpec(header, m);
  }

  /** An open-ended range `bytes=N-` is a probe exactly when at most one
      mebibyte of the file lies at or after byte N. */
  lemma OpenEndedRange(size: nat, header: string, p: nat, m: RangeMatch)
    requires LeftmostMatch(header, p, m)
    requires m.last == ""
    ensures m.Valid()
    ensures Classify(Some(size), Some(header)) == Probe206
        <==> size - ParseDecimal(m.first) <= ChunkSizeThreshold
  {
    FindRangeSpec(header, m);
  }

  /** `Range: bytes=0-99` is a probe for every existing file. */
  lemma SmallRangeIsProbe(size: nat)
    ensures Classify(Some(size), Some("bytes=0-99")) == Probe206
  {
    var h := "bytes=0-99";
    var m := RangeMatch("0", "99");
    assert h[0..|m.Text()|] == m.Text();
    assert MatchesAt(h, 0, m);
    MatchAtComplete(h, 0, m);
  }

  /** `Range: bytes=0-2000000` asks for more than a mebibyte: the whole
      file is sent. */
  lemma LargeRangeIsFullDownload(size: nat)
    ensures Classify(Some(size), Some("bytes=0-2000000")) == FullDownload
  {
    var h := "bytes=0-2000000";
    var m := RangeMatch("0", "2000000");
    assert h[0..|m.Text()|] == m.Text();
    assert MatchesAt(h, 0, m);
    MatchAtComplete(h, 0, m);
    var t := "2000000";
    assert t[..1] == "2" && ParseDecimal(t[..1]) == 2;
    assert t[..2][..1] == t[..1] && ParseDecimal(t[..2]) == 20;
    assert t[..3][..2] == t[..2] && ParseDecimal(t[..3]) == 200;
    assert t[..4][..3] == t[..3] && ParseDecimal(t[..4]) == 2000;
    assert t[..5][..4] == t[..4] && ParseDecimal(t[..5]) == 20000;
    assert t[..6][..5] == t[..5] && ParseDecimal(t[..6]) == 200000;
    assert t[..7] == t && t[..6] == t[..|t| - 1];
  }

  /** Downloading a listed game file by its name never answers 404, and the
      size the handler sees is the size the listing reported. */
  lemma ListedGamesAreDownloadable(externalUrl: string, directory: seq<DirEntry>, i: nat, range: Option<string>)
    requires WellFormedListing(directory)
    requires i < |directory|
    ensures EntryFor(externalUrl, GamesDirectory, directory[i]) in Scan(externalUrl, GamesDirectory, directory) ==>
      && IsGameFile(directory[i].name)
      && EntryFor(externalUrl, GamesDirectory, directory[i]).url == DownloadUrl(externalUrl, directory[i].name)
      && HandleDownload(directory, directory[i].name, range) != NotFound
      && Lookup(directory, directory[i].name) == Some(directory[i].size)
  {
    ScanListsExactlyGameFiles(externalUrl, GamesDirectory, directory, i);
    EntryForLinksToName(externalUrl, GamesDirectory, directory[i]);
    LookupInDistinctListing(directory, i);
  }

  /** In a listing without repeated names, looking an entry's name up finds
      that entry's size. */
  lemma LookupInDistinctListing(directory: seq<DirEntry>, i: nat)
    requires WellFormedListing(directory)
    requires i < |directory|
    ensures Lookup(directory, directory[i].name) == Some(directory[i].size)
  {
    var r := Lookup(directory, directory[i].name);
    var j :| 0 <= j < |directory| && directory[j] == DirEntry(directory[i].name, r.value);
    assert j == i;
  }

}
