/** The game-file catalogue: `getGameMetadata`, `scanGames` and the
    `directories` list of the `/` handler. A directory is modelled as the
    sequence of (name, size) pairs that `readdirSync` and `statSync` would
    report, in listing order. */
module Catalogue {
  import opened Strings

  /** One directory entry as the file system reports it. */
  datatype DirEntry = DirEntry(name: string, size: nat)

  /** One element of the `files` array of the listing response. */
  datatype GameEntry = GameEntry(url: string, size: nat)

  /** The fixed directory the server scans and serves from. */
  const GamesDirectory: string := "/games"

  /** The route prefix every download link carries. */
  const DownloadRoute: string := "/download/"

  /** The four recognised container extensions. */
  const GameSuffixes: seq<string> := [".nsp", ".nsz", ".xci", ".xcz"]

  /** The scan's filter: main games and updates/DLCs by extension. */
  predicate IsGameFile(name: string) {
    exists k :: 0 <= k < |GameSuffixes| && EndsWith(name, GameSuffixes[k])
  }

  /** A name `readdirSync` can return: not empty, no separator, and not one
      of the two special entries it never lists. */
  predicate WellFormedName(name: string) {
    |name| > 0 && '/' !in name && name != "." && name != ".."
  }

  /** A listing `readdirSync` can return: well-formed names, none twice. */
  predicate WellFormedListing(listing: seq<DirEntry>) {
    && (forall i :: 0 <= i < |listing| ==> WellFormedName(listing[i].name))
    && (forall i, j :: 0 <= i < j < |listing| ==> listing[i].name != listing[j].name)
  }

  /** `path.join(directory, name)` for a plain entry name. */
  function Join(directory: string, name: string): string {
    directory + "/" + name
  }

  /** `path.basename(path)`: the text after the last separator. */
  function BaseName(path: string): (r: string)
    ensures '/' !in r
    ensures EndsWith(path, r)
    ensures r == path || path[|path| - |r| - 1] == '/'
  {
    if |path| == 0 || path[|path| - 1] == '/' then ""
    else BaseName(path[..|path| - 1]) + [path[|path| - 1]]
  }

  /** The public link for a file: `${EXTERNAL_URL}/download/${name}`. */
  function DownloadUrl(externalUrl: string, name: string): string {
    externalUrl + DownloadRoute + name
  }

  /** `getGameMetadata(filePath)`, with the `statSync` size passed in: the
      link is the download route under the external URL followed by the last
      component of the path, and the size is the file's size. */
  function GameMetadata(externalUrl: string, filePath: string, size: nat): (g: GameEntry)
    ensures g.size == size
    ensures var prefix := externalUrl + DownloadRoute;
            && |prefix| <= |g.url|
            && g.url[..|prefix|] == prefix
            && '/' !in g.url[|prefix|..]
            && EndsWith(filePath, g.url[|prefix|..])
            && (g.url[|prefix|..] == filePath || filePath[|filePath| - |g.url[|prefix|..]| - 1] == '/')
  {
    var g := GameEntry(DownloadUrl(externalUrl, BaseName(filePath)), size);
    assert g.url[|externalUrl + DownloadRoute|..] == BaseName(filePath);
    g
  }

  /** The entry the scan builds for one matching directory entry. */
  function EntryFor(externalUrl: string, directory: string, e: DirEntry): GameEntry {
    GameMetadata(externalUrl, Join(directory, e.name), e.size)
  }

  /** The base name of a joined path is the name that was joined. */
  lemma {:induction false} BaseNameOfJoin(directory: string, name: string)
    requires '/' !in name
    ensures BaseName(Join(directory, name)) == name
  {
    var p := Join(directory, name);
    if |name| > 0 {
      assert p[..|p| - 1] == Join(directory, name[..|name| - 1]);
      BaseNameOfJoin(directory, name[..|name| - 1]);
      assert name == name[..|name| - 1] + [name[|name| - 1]];
    }
  }

  /** Each entry's link is exactly the external URL, the download route and
      the file's own name, and its size is the file's size. */
  lemma EntryForLinksToName(externalUrl: string, directory: string, e: DirEntry)
    requires WellFormedName(e.name)
    ensures EntryFor(externalUrl, directory, e).url == externalUrl + DownloadRoute + e.name
    ensures EntryFor(externalUrl, directory, e).size == e.size
  {
    BaseNameOfJoin(directory, e.name);
  }

  /** Distinct names give distinct download links. */
  lemma DownloadUrlInjective(externalUrl: string, a: string, b: string)
    requires DownloadUrl(externalUrl, a) == DownloadUrl(externalUrl, b)
    ensures a == b
  {
    var n := |externalUrl + DownloadRoute|;
    assert a == DownloadUrl(externalUrl, a)[n..];
    assert b == DownloadUrl(externalUrl, b)[n..];
  }

  /** The scan as a filter-map over the listing: every matching entry, in
      listing order, turned into its `{url, size}` record. */
  function Scan(externalUrl: string, directory: string, listing: seq<DirEntry>): (r: seq<GameEntry>)
    ensures |r| <= |listing|
    ensures forall g :: g in r ==>
      exists e :: e in listing && IsGameFile(e.name) && g == EntryFor(externalUrl, directory, e)
  {
    if |listing| == 0 then []
    else
      (if IsGameFile(listing[0].name) then [EntryFor(externalUrl, directory, listing[0])] else [])
      + Scan(externalUrl, directory, listing[1..])
  }

  /** Scanning two listings one after the other is scanning their
      concatenation: the scan keeps listing order. */
  lemma {:induction false} ScanAppend(externalUrl: string, directory: string, a: seq<DirEntry>, b: seq<DirEntry>)
    ensures Scan(externalUrl, directory, a + b)
         == Scan(externalUrl, directory, a) + Scan(externalUrl, directory, b)
  {
    if |a| > 0 {
      assert (a + b)[1..] == a[1..] + b;
      ScanAppend(externalUrl, directory, a[1..], b);
    } else {
      assert a + b == b;
    }
  }

  /** The positions of the matching entries at or after `from`, ascending. */
  function MatchingIndices(listing: seq<DirEntry>, from: nat): (idx: seq<nat>)
    requires from <= |listing|
    ensures forall k :: 0 <= k < |idx| ==> from <= idx[k] < |listing| && IsGameFile(listing[idx[k]].name)
    ensures forall k, l :: 0 <= k < l < |idx| ==> idx[k] < idx[l]
    ensures forall i :: from <= i < |listing| && IsGameFile(listing[i].name) ==> i in idx
    decreases |listing| - from
  {
    if from == |listing| then []
    else
      (if IsGameFile(listing[from].name) then [from] else [])
      + MatchingIndices(listing, from + 1)
  }

  /** `r` is the entries built, in order, from the listing positions `idx`. */
  ghost predicate BuiltFrom(externalUrl: string, directory: string, listing: seq<DirEntry>, r: seq<GameEntry>, idx: seq<nat>) {
    && |r| == |idx|
    && forall k :: 0 <= k < |r| ==> idx[k] < |listing| && r[k] == EntryFor(externalUrl, directory, listing[idx[k]])
  }

  lemma BuiltFromPrepend(externalUrl: string, directory: string, listing: seq<DirEntry>,
                         head: seq<GameEntry>, headIdx: seq<nat>, rest: seq<GameEntry>, idx: seq<nat>)
    requires BuiltFrom(externalUrl, directory, listing, head, headIdx)
    requires BuiltFrom(externalUrl, directory, listing, rest, idx)
    ensures BuiltFrom(externalUrl, directory, listing, head + rest, headIdx + idx)
  {
    forall k | |head| <= k < |head| + |rest|
      ensures (headIdx + idx)[k] < |listing|
      ensures (head + rest)[k] == EntryFor(externalUrl, directory, listing[(headIdx + idx)[k]])
    {
      assert (head + rest)[k] == rest[k - |head|];
      assert (headIdx + idx)[k] == idx[k - |head|];
    }
  }

  lemma {:induction false} ScanFromFollowsIndices(externalUrl: string, directory: string, listing: seq<DirEntry>, from: nat)
    requires from <= |listing|
    ensures BuiltFrom(externalUrl, directory, listing,
                      Scan(externalUrl, directory, listing[from..]), MatchingIndices(listing, from))
    decreases |listing| - from
  {
    if from < |listing| {
      assert listing[from..][1..] == listing[from + 1..];
      ScanFromFollowsIndices(externalUrl, directory, listing, from + 1);
      var head := if IsGameFile(listing[from].name) then [EntryFor(externalUrl, directory, listing[from])] else [];
      var headIdx: seq<nat> := if IsGameFile(listing[from].name) then [from] else [];
      BuiltFromPrepend(externalUrl, directory, listing, head, headIdx,
                       Scan(externalUrl, directory, listing[from + 1..]), MatchingIndices(listing, from + 1));
    }
  }

  /** The scan result lists, in ascending listing order, exactly the entries
      whose names carry a game extension: the k-th result is built from the
      k-th matching entry, and there is one result per matching entry. */
  lemma ScanFollowsMatchingIndices(externalUrl: string, directory: string, listing: seq<DirEntry>)
    ensures BuiltFrom(externalUrl, directory, listing,
                      Scan(externalUrl, directory, listing), MatchingIndices(listing, 0))
  {
    assert listing[0..] == listing;
    ScanFromFollowsIndices(externalUrl, directory, listing, 0);
  }

  /** A directory entry appears in the scan result exactly when its name
      ends with one of the four game extensions. */
  lemma ScanListsExactlyGameFiles(externalUrl: string, directory: string, listing: seq<DirEntry>, i: nat)
    requires WellFormedListing(listing)
    requires i < |listing|
    ensures EntryFor(externalUrl, directory, listing[i]) in Scan(externalUrl, directory, listing)
        <==> IsGameFile(listing[i].name)
  {
    var r := Scan(externalUrl, directory, listing);
    var g := EntryFor(externalUrl, directory, listing[i]);
    if IsGameFile(listing[i].name) {
      ScanFollowsMatchingIndices(externalUrl, directory, listing);
      var idx := MatchingIndices(listing, 0);
      var k :| 0 <= k < |idx| && idx[k] == i;
      assert r[k] == g;
    }
    if g in r {
      var e :| e in listing && IsGameFile(e.name) && g == EntryFor(externalUrl, directory, e);
      EntryForLinksToName(externalUrl, directory, e);
      EntryForLinksToName(externalUrl, directory, listing[i]);
      DownloadUrlInjective(externalUrl, e.name, listing[i].name);
    }
  }

  /** `scanGames(directory)`: the `forEach` over the listing that pushes the
      metadata of every matching entry. */
  method ScanGames(externalUrl: string, directory: string, listing: seq<DirEntry>) returns (files: seq<GameEntry>)
    ensures files == Scan(externalUrl, directory, listing)
  {
    files := [];
    var i := 0;
    while i < |listing|
      invariant 0 <= i <= |listing|
      invariant files == Scan(externalUrl, directory, listing[..i])
    {
      var e := listing[i];
      assert listing[..i + 1] == listing[..i] + [e];
      ScanAppend(externalUrl, directory, listing[..i], [e]);
      if IsGameFile(e.name) {
        files := files + [GameMetadata(externalUrl, Join(directory, e.name), e.size)];
      }
      i := i + 1;
    }
    assert listing[..i] == listing;
  }

  /** `files.map(file => file.url)`. */
  function Directories(files: seq<GameEntry>): (r: seq<string>)
    ensures |r| == |files|
    ensures forall i :: 0 <= i < |files| ==> r[i] == files[i].url
  {
    if |files| == 0 then [] else [files[0].url] + Directories(files[1..])
  }

  /** The `directories` array of a listing is the download link of every
      game file of a well-formed directory, in listing order. */
  lemma DirectoriesOfScan(externalUrl: string, directory: string, listing: seq<DirEntry>)
    requires WellFormedListing(listing)
    ensures var d := Directories(Scan(externalUrl, directory, listing));
            var idx := MatchingIndices(listing, 0);
            |d| == |idx| &&
            forall k :: 0 <= k < |d| ==> d[k] == DownloadUrl(externalUrl, listing[idx[k]].name)
  {
    ScanFollowsMatchingIndices(externalUrl, directory, listing);
    var idx := MatchingIndices(listing, 0);
    forall k | 0 <= k < |idx|
      ensures EntryFor(externalUrl, directory, listing[idx[k]]).url == DownloadUrl(externalUrl, listing[idx[k]].name)
    {
      EntryForLinksToName(externalUrl, directory, listing[idx[k]]);
    }
  }

  /** A name is a game file exactly when its last four characters are one of
      the four recognised extensions. */
  lemma IsGameFileBySuffix(name: string)
    ensures IsGameFile(name) <==> |name| >= 4 && name[|name| - 4..] in GameSuffixes
  {
    if |name| >= 4 && name[|name| - 4..] in GameSuffixes {
      var k :| 0 <= k < |GameSuffixes| && GameSuffixes[k] == name[|name| - 4..];
      assert EndsWith(name, GameSuffixes[k]);
    }
  }

}
