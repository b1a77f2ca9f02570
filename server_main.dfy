/**
 * main.go: the web server's routing of `/` and `/<year>/<slug>`, and the access token it hands to
 * the Strava client, refreshed through the credential store when it has expired.
 */
module Server {
  import opened Wrappers
  import opened Ints
  import opened Text
  import opened Slug
  import opened Strava
  import opened Db
  import opened Credentials

  /** The first race was in 2014. */
  const MinYear := 2014

  datatype RacePath = RacePath(year: int, slug: string)

  /** The two slash-separated segments of a race page, trimmed of every leading and trailing '/'. */
  function Segments(path: string): seq<string>
  {
    Split(Trim(path, '/'), '/')
  }

  function GetPathValues(path: string): Result<RacePath, string>
  {
    var params := Segments(path);
    if |params| != 2 then Err("Invalid values in request path")
    else
      match Atoi(params[0])
      case None => Err("Request contains invalid year")
      case Some(y) => Ok(RacePath(y, params[1]))
  }

  /** A path the parser accepts: the trimmed path is two non-empty, slash-free segments, the first an integer. */
  predicate RacePathOf(path: string, year: string, slug: string)
  {
    year != [] && slug != [] && '/' !in year && '/' !in slug &&
    Trim(path, '/') == year + "/" + slug
  }

  /**
   * A successful parse came from two non-empty, slash-free segments; the year is the Atoi value of
   * the first and the slug is the second, verbatim. The two errors are told apart by their cause.
   */
  lemma GetPathValuesSound(path: string)
    ensures var params, r := Segments(path), GetPathValues(path);
      (r.Ok? ==>
        (|params| == 2 && RacePathOf(path, params[0], params[1]) &&
         Atoi(params[0]) == Some(r.value.year) && r.value.slug == params[1])) &&
      (|params| != 2 <==> r == Err("Invalid values in request path")) &&
      (|params| == 2 && Atoi(params[0]).None? <==> r == Err("Request contains invalid year"))
  {
    var t := Trim(path, '/');
    var params := Segments(path);
    JoinSplit(t, '/');
    if |params| == 2 {
      assert Join(params, '/') == params[0] + "/" + params[1];
    }
  }

  /** Conversely, two such segments with an integer first are always accepted. */
  lemma GetPathValuesComplete(path: string, year: string, slug: string)
    requires RacePathOf(path, year, slug) && Atoi(year).Some?
    ensures GetPathValues(path) == Ok(RacePath(Atoi(year).value, slug))
  {
    SplitAtSeparator(year, '/', slug);
    SplitNoSeparator(slug, '/');
  }

  /** Slashes around `a/b`, one in front and one or none behind, are all trimmed away. */
  lemma LinkTrims(a: string, b: string, trailing: bool)
    requires a != [] && b != [] && '/' !in a && '/' !in b
    ensures Trim("/" + a + "/" + b + (if trailing then "/" else ""), '/') == a + "/" + b
  {
    var inner := a + "/" + b;
    var path := "/" + a + "/" + b + (if trailing then "/" else "");
    assert inner[0] == a[0] && inner[|inner| - 1] == b[|b| - 1];
    if trailing {
      assert path == ['/'] + inner + ['/'];
      TrimPadded(inner, '/');
    } else {
      assert path == ['/'] + inner;
      TrimLeading(inner, '/');
    }
  }

  /** The link of a race page, with or without a trailing '/', parses back to its year and slug. */
  lemma GetPathValuesRoundTrip(year: int, slug: string, trailing: bool)
    requires MinInt64 <= year <= MaxInt64
    requires slug != [] && '/' !in slug
    ensures var path := "/" + IntToDecimal(year) + "/" + slug + (if trailing then "/" else "");
      GetPathValues(path) == Ok(RacePath(year, slug))
  {
    var y := IntToDecimal(year);
    var path := "/" + y + "/" + slug + (if trailing then "/" else "");
    IntToDecimalChars(year, '/');
    LinkTrims(y, slug, trailing);
    AtoiRoundTrip(year);
    GetPathValuesComplete(path, y, slug);
  }

  /** `/` is always valid; any other path must parse and name a year from 2014 to the current one. */
  predicate ValidReqPath(path: string, currentYear: int)
  {
    path == "/" ||
    (GetPathValues(path).Ok? && MinYear <= GetPathValues(path).value.year <= currentYear)
  }

  /** What `handleIndex` serves. */
  datatype Route = NotFound | Races | RaceDetails(path: RacePath)

  function HandleIndex(path: string, currentYear: int): Route
  {
    if !ValidReqPath(path, currentYear) then NotFound
    else if path == "/" then Races
    else RaceDetails(GetPathValues(path).value)
  }

  /** The three outcomes of `handleIndex` and exactly when each happens. */
  lemma HandleIndexSpec(path: string, currentYear: int)
    ensures HandleIndex(path, currentYear) == Races <==> path == "/"
    ensures HandleIndex(path, currentYear) == NotFound <==>
      path != "/" && (GetPathValues(path).Err? || !(MinYear <= GetPathValues(path).value.year <= currentYear))
    ensures HandleIndex(path, currentYear).RaceDetails? ==>
      GetPathValues(path) == Ok(HandleIndex(path, currentYear).path) &&
      MinYear <= HandleIndex(path, currentYear).path.year <= currentYear
  {
  }

  /** The page of a race of a served year is reached at `/<year>/<slug>`. */
  lemma RaceLinkRoutes(a: Activity, currentYear: int)
    requires MinYear <= a.startYear <= currentYear <= MaxInt64
    requires a.NameSlugified() != []
    ensures HandleIndex("/" + IntToDecimal(a.startYear) + "/" + a.NameSlugified(), currentYear) ==
      RaceDetails(RacePath(a.startYear, a.NameSlugified()))
  {
    var slug := a.NameSlugified();
    SlugifyIsSlug(a.name);
    assert '/' !in slug;
    GetPathValuesRoundTrip(a.startYear, slug, false);
    assert "/" + IntToDecimal(a.startYear) + "/" + slug + "" == "/" + IntToDecimal(a.startYear) + "/" + slug;
  }

  /**
   * A race whose name has no ASCII letter or digit has the empty slug. Its link `/<year>/` trims to
   * the year alone, one segment, so `handleIndex` answers not found; the generator writes that
   * race's page to `<year>/index.html` (`GenHtml.RaceFilePathSpec`), where no link reaches it.
   */
  lemma EmptySlugNotRouted(a: Activity, currentYear: int)
    requires MinInt64 <= a.startYear <= MaxInt64
    requires a.NameSlugified() == []
    ensures GetPathValues("/" + IntToDecimal(a.startYear) + "/" + a.NameSlugified()) ==
      Err("Invalid values in request path")
    ensures HandleIndex("/" + IntToDecimal(a.startYear) + "/" + a.NameSlugified(), currentYear) == NotFound
  {
    var y := IntToDecimal(a.startYear);
    var path := "/" + y + "/" + a.NameSlugified();
    IntToDecimalChars(a.startYear, '/');
    assert y[0] in y && y[|y| - 1] in y;
    assert path == ['/'] + y + ['/'];
    TrimPadded(y, '/');
    SplitNoSeparator(y, '/');
    assert |path| > 1;
  }

  // ---------------------------------------------------------------------------------------------
  // The access token for the Strava client.

  /**
   * The stored access token, refreshed first when it has expired at `now`. The first row of the
   * store is the credential; `selectFault` and `updateFault` are the driver's failures, if any.
   */
  method GetAccessToken(store: Store, a: Authorization, server: TokenServer, now: int,
                        selectFault: Option<string>, updateFault: Option<string>)
    returns (token: string, err: Option<string>)
    modifies store`authRows, server`received
    ensures var sel := SelectAuth(old(store.authRows), selectFault);
      sel.1.Some? ==>
        token == "" && err == Some(ErrorText(sel.1.value)) &&
        store.authRows == old(store.authRows) && server.received == old(server.received)
    ensures var sel := SelectAuth(old(store.authRows), selectFault);
      sel.1.None? && !sel.0.IsExpired(now) ==>
        token == sel.0.accessToken && err == None &&
        store.authRows == old(store.authRows) && server.received == old(server.received)
    ensures var sel := SelectAuth(old(store.authRows), selectFault);
      var reply := server.answer(RefreshRequest(a, sel.0.refreshToken));
      sel.1.None? && sel.0.IsExpired(now) ==>
        server.received == old(server.received) + [RefreshRequest(a, sel.0.refreshToken)] &&
        (reply.err.Some? ==> token == "" && err == reply.err && store.authRows == old(store.authRows)) &&
        (reply.err.None? && updateFault.Some? ==>
          token == "" && err == updateFault && store.authRows == old(store.authRows)) &&
        (reply.err.None? && updateFault.None? ==>
          token == reply.resp.accessToken && err == None &&
          store.authRows == UpdatedAuthRows(old(store.authRows), Refreshed(sel.0, reply.resp)))
  {
    var stravaAuth, selErr := store.SelectStravaAuth(selectFault);
    if selErr.Some? {
      return "", Some(ErrorText(selErr.value));
    }
    if stravaAuth.IsExpired(now) {
      var tkResp, refreshErr := RefreshToken(a, server, stravaAuth.refreshToken);
      if refreshErr.Some? {
        return "", refreshErr;
      }
      stravaAuth := Refreshed(stravaAuth, tkResp);
      var updErr := store.UpdateStravaAuth(stravaAuth, updateFault);
      if updErr.Some? {
        return "", Some(ErrorText(updErr.value));
      }
    }
    return stravaAuth.accessToken, None;
  }
}
