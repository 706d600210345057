/** The `/` handler: scan the games directory, answer with `files` and
    `directories`, and attach the success message to the first listing only.
    The process-wide `messageShown` flag is an explicit state value threaded
    through successive requests, which are handled one after another. */
module Listing {
  import opened Optional
  import opened Catalogue

  /** The configured `EXTERNAL_URL` and `SUCCESS_MESSAGE`. */
  datatype Config = Config(externalUrl: string, successMessage: string)

  /** The server's only mutable state. */
  datatype ServerState = ServerState(messageShown: bool)

  /** `let messageShown = false` at process start. */
  const InitialState: ServerState := ServerState(false)

  /** The JSON body `{files, directories, success?}`. */
  datatype ListingResponse = ListingResponse(files: seq<GameEntry>, directories: seq<string>, success: Option<string>)

  /** What one listing request produces: the JSON body, or the failure that
      an exception thrown by `readdirSync` turns into. */
  datatype Reply = Json(body: ListingResponse) | ScanFailed {
    predicate CarriesSuccess() {
      Json? && body.success.Some?
    }
  }

  /** One `/` request. `games` is the directory listing, or `None` when
      reading the directory throws; the exception leaves the handler before
      the flag is touched. */
  function HandleListing(cfg: Config, st: ServerState, games: Option<seq<DirEntry>>): (r: (ServerState, Reply))
    ensures st.messageShown ==> r.0.messageShown
    ensures games.None? ==> r.0 == st && r.1 == ScanFailed
    ensures games.Some? ==>
      && r.0.messageShown
      && r.1.Json?
      && r.1.body.files == Scan(cfg.externalUrl, GamesDirectory, games.value)
      && |r.1.body.directories| == |r.1.body.files|
      && (forall i :: 0 <= i < |r.1.body.files| ==> r.1.body.directories[i] == r.1.body.files[i].url)
      && (r.1.CarriesSuccess() <==> !st.messageShown)
      && (r.1.CarriesSuccess() ==> r.1.body.success.value == cfg.successMessage)
  {
    match games
    case None => (st, ScanFailed)
    case Some(listing) =>
      var files := Scan(cfg.externalUrl, GamesDirectory, listing);
      var response := ListingResponse(files, Directories(files), None);
      if !st.messageShown then
        (ServerState(true), Json(response.(success := Some(cfg.successMessage))))
      else
        (st, Json(response))
  }

  /** A sequence of `/` requests handled in order from state `st`: the final
      state and one reply per request. */
  function RunListings(cfg: Config, st: ServerState, requests: seq<Option<seq<DirEntry>>>): (r: (ServerState, seq<Reply>))
    ensures |r.1| == |requests|
    ensures forall i :: 0 <= i < |requests| ==> (r.1[i].Json? <==> requests[i].Some?)
    ensures st.messageShown ==> r.0.messageShown
    ensures forall i :: 0 <= i < |requests| && requests[i].Some? ==>
      && r.1[i].body.files == Scan(cfg.externalUrl, GamesDirectory, requests[i].value)
      && r.1[i].body.directories == Directories(r.1[i].body.files)
    decreases |requests|
  {
    if |requests| == 0 then (st, [])
    else
      var (st', reply) := HandleListing(cfg, st, requests[0]);
      var (final, replies) := RunListings(cfg, st', requests[1..]);
      (final, [reply] + replies)
  }

  /** Reply `i` carries the success message exactly when the flag was clear
      at the start, request `i` scanned successfully, and no earlier request
      did. */
  lemma {:induction false} SuccessOnlyOnFirstListing(cfg: Config, st: ServerState, requests: seq<Option<seq<DirEntry>>>)
    ensures var replies := RunListings(cfg, st, requests).1;
            forall i :: 0 <= i < |requests| ==>
              (replies[i].CarriesSuccess() <==>
                 !st.messageShown && requests[i].Some? && forall j :: 0 <= j < i ==> requests[j].None?)
    decreases |requests|
  {
    if |requests| > 0 {
      var (st', reply) := HandleListing(cfg, st, requests[0]);
      SuccessOnlyOnFirstListing(cfg, st', requests[1..]);
      var replies := RunListings(cfg, st, requests).1;
      forall i | 1 <= i < |requests|
        ensures replies[i].CarriesSuccess() <==>
                  !st.messageShown && requests[i].Some? && forall j :: 0 <= j < i ==> requests[j].None?
      {
        assert replies[i] == RunListings(cfg, st', requests[1..]).1[i - 1];
        assert requests[1..][i - 1] == requests[i];
        if forall j :: 0 <= j < i ==> requests[j].None? {
          assert requests[0].None?;
          forall j | 0 <= j < i - 1 ensures requests[1..][j].None? {
            assert requests[1..][j] == requests[j + 1];
          }
        } else {
          var j :| 0 <= j < i && requests[j].Some?;
          if j > 0 {
            assert requests[1..][j - 1].Some?;
          }
        }
      }
    }
  }

  /** At most one reply of a run carries the success message. */
  lemma AtMostOneSuccess(cfg: Config, st: ServerState, requests: seq<Option<seq<DirEntry>>>)
    ensures var replies := RunListings(cfg, st, requests).1;
            forall i, j :: 0 <= i < j < |replies| ==>
              !(replies[i].CarriesSuccess() && replies[j].CarriesSuccess())
  {
    SuccessOnlyOnFirstListing(cfg, st, requests);
  }

  /** Once set, the flag stays set: after a run the flag is set exactly when
      it was set before or some request scanned successfully. */
  lemma {:induction false} FlagNeverResets(cfg: Config, st: ServerState, requests: seq<Option<seq<DirEntry>>>)
    ensures RunListings(cfg, st, requests).0.messageShown
        <==> st.messageShown || exists i :: 0 <= i < |requests| && requests[i].Some?
    decreases |requests|
  {
    if |requests| > 0 {
      var (st', reply) := HandleListing(cfg, st, requests[0]);
      FlagNeverResets(cfg, st', requests[1..]);
      if exists i :: 0 <= i < |requests| && requests[i].Some? {
        var i :| 0 <= i < |requests| && requests[i].Some?;
        if i > 0 {
          assert requests[1..][i - 1].Some?;
        }
      }
      if exists i :: 0 <= i < |requests[1..]| && requests[1..][i].Some? {
        var i :| 0 <= i < |requests[1..]| && requests[1..][i].Some?;
        assert requests[i + 1].Some?;
      }
    }
  }

}
