/**
 * cmd/server.go: the `server` command's two handlers. `/` serves the race index and nothing else;
 * `/activity/<id>` serves the stored race with that Strava id. Template parsing and rendering are
 * not modelled.
 */
module CmdServer {
  import opened Wrappers
  import opened Ints
  import opened Text
  import opened Db
  import Server

  /** What a handler answers. */
  datatype Response = NotFound | InternalError | IndexPage(races: seq<RaceActivity>) | RacePage(activity: RaceActivity)

  /**
   * `handleIndex`: only the path `/` is served; `allRaces` is what the index query gave back,
   * whose failure becomes a 500.
   */
  function HandleIndex(path: string, allRaces: Result<seq<RaceActivity>, string>): (r: Response)
    ensures r == NotFound <==> path != "/"
    ensures r == InternalError <==> path == "/" && allRaces.Err?
    ensures r.IndexPage? ==> path == "/" && allRaces == Ok(r.races)
  {
    if path != "/" then NotFound
    else if allRaces.Err? then InternalError
    else IndexPage(allRaces.value)
  }

  /** Both web servers serve their index at exactly the same path. */
  lemma IndexAtSamePath(path: string, races: seq<RaceActivity>, currentYear: int)
    ensures HandleIndex(path, Ok(races)).IndexPage? <==> Server.HandleIndex(path, currentYear) == Server.Races
  {
    Server.HandleIndexSpec(path, currentYear);
  }

  /** The id of `/<anything>/<id>`: exactly two segments, the second an unsigned decimal. */
  function ActivityId(path: string): Option<U64>
  {
    var params := Server.Segments(path);
    if |params| != 2 then None else ParseUint(params[1])
  }

  /**
   * An accepted path is two non-empty, slash-free segments around one '/', once the outer slashes
   * are trimmed; the id is the value of the second, which is all digits. The first segment is not
   * looked at.
   */
  lemma ActivityIdSound(path: string)
    ensures var params, r := Server.Segments(path), ActivityId(path);
      r.Some? ==>
        |params| == 2 && params[0] != [] && params[1] != [] && '/' !in params[0] && '/' !in params[1] &&
        Trim(path, '/') == params[0] + "/" + params[1] &&
        AllDigits(params[1]) && DecimalValue(params[1]) == r.value
  {
    var params := Server.Segments(path);
    if ActivityId(path).Some? {
      JoinSplit(Trim(path, '/'), '/');
      assert Join(params, '/') == params[0] + "/" + params[1];
    }
  }

  /** The link `/<prefix>/<id>` of a stored race, with or without a trailing '/', gives back its id. */
  lemma ActivityIdRoundTrip(prefix: string, id: U64, trailing: bool)
    requires prefix != [] && '/' !in prefix
    ensures ActivityId("/" + prefix + "/" + NatToDecimal(id) + (if trailing then "/" else "")) == Some(id)
  {
    var d := NatToDecimal(id);
    assert '/' !in d by {
      assert forall i :: 0 <= i < |d| ==> IsDigit(d[i]);
    }
    Server.LinkTrims(prefix, d, trailing);
    SplitAtSeparator(prefix, '/', d);
    SplitNoSeparator(d, '/');
    ParseUintRoundTrip(id);
  }

  /**
   * The specification of `handleActivity`: what it answers for a table of races and the driver's
   * failure of the lookup, if any. `HandleActivity` is the handler itself, proved equal to it.
   */
  function ActivityResponse(rows: seq<RaceActivity>, path: string, fault: Option<string>): Response
  {
    match ActivityId(path)
    case None => NotFound
    case Some(id) => RacePage(if fault.Some? then ZeroRace else FindRace(rows, id))
  }

  /**
   * A path without an id is not found. Any path with an id renders a page, because the lookup of
   * db/db.go never reports an error: the first row with that id when there is one, and the zero
   * record when there is none or the query failed.
   */
  lemma ActivityResponseSpec(rows: seq<RaceActivity>, path: string, fault: Option<string>)
    ensures ActivityResponse(rows, path, fault) == NotFound <==> ActivityId(path).None?
    ensures ActivityId(path).Some? && fault.None? && (exists k :: 0 <= k < |rows| && rows[k].stravaId == ActivityId(path).value) ==>
      var r := ActivityResponse(rows, path, fault).activity;
      r.stravaId == ActivityId(path).value &&
      exists k :: 0 <= k < |rows| && rows[k] == r && forall j :: 0 <= j < k ==> rows[j].stravaId != r.stravaId
    ensures ActivityId(path).Some? && (fault.Some? || forall k :: 0 <= k < |rows| ==> rows[k].stravaId != ActivityId(path).value) ==>
      ActivityResponse(rows, path, fault) == RacePage(ZeroRace)
  {
    if ActivityId(path).Some? {
      FindRaceSpec(rows, ActivityId(path).value);
    }
  }

  /** `handleActivity` itself, against the store; `ActivityResponse` is its specification. */
  method HandleActivity(store: Store, path: string, fault: Option<string>) returns (resp: Response)
    ensures resp == ActivityResponse(store.raceRows, path, fault)
  {
    var pathParams := Server.Segments(path);
    if |pathParams| != 2 {
      return NotFound;
    }
    var id := ParseUint(pathParams[1]);
    if id.None? {
      return NotFound;
    }
    var activity, err := store.SelectRaceActivityById(id.value, fault);
    if err.Some? {
      return NotFound;
    }
    return RacePage(activity);
  }
}
