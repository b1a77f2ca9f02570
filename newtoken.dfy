/**
 * cmd/newtoken.go: the `newtoken` command. It reads the client registration from the environment,
 * looks up the stored credential, and then either exchanges the authorization code delivered to
 * the local callback for a first token (no stored athlete) or refreshes the stored token, and
 * writes the record built from the response. The callback's HTTP server is reduced to the one
 * code it receives.
 */
module NewToken {
  import opened Wrappers
  import opened Ints
  import opened Text
  import opened Strava
  import opened Db
  import opened Env
  import opened Credentials

  /** The registration both token commands send: the client's id and secret with the fixed callback and scope. */
  function ClientAuthorization(clientId: string, clientSecret: string): (a: Authorization)
    ensures a.clientId == clientId && a.clientSecret == clientSecret
    ensures a.redirectUri == RedirectUri && a.scope == Scope
  {
    Authorization(clientId, clientSecret, RedirectUri, Scope)
  }

  /**
   * `getAccessToken`: an empty code fails without a request; otherwise the code is exchanged. On
   * every failure the response is the zero response.
   */
  function CallbackReply(answer: TokenRequest -> TokenReply, a: Authorization, code: string): (r: TokenReply)
    ensures code == "" ==> r == TokenReply(ZeroTokenResp, Some("missing code param"))
    ensures r.err.Some? ==> r.resp == ZeroTokenResp
    ensures r.err.None? <==> code != "" && answer(CodeRequest(a, code)).err.None?
    ensures r.err.None? ==> r.resp == answer(CodeRequest(a, code)).resp
    ensures code != "" && r.err.Some? ==> r.err == answer(CodeRequest(a, code)).err
  {
    if code == "" then TokenReply(ZeroTokenResp, Some("missing code param"))
    else
      var reply := answer(CodeRequest(a, code));
      if reply.err.Some? then TokenReply(ZeroTokenResp, reply.err) else reply
  }

  /** The same, against the token endpoint: exactly one request is sent when the code is not empty. */
  method GetAccessToken(code: string, a: Authorization, server: TokenServer)
    returns (resp: AuthTokenResp, err: Option<string>)
    modifies server`received
    ensures server.received == old(server.received) + (if code == "" then [] else [CodeRequest(a, code)])
    ensures TokenReply(resp, err) == CallbackReply(server.answer, a, code)
  {
    if code == "" {
      return ZeroTokenResp, Some("missing code param");
    }
    var r, e := ReqAccessToken(a, server, code);
    if e.Some? {
      return ZeroTokenResp, e;
    }
    return r, None;
  }

  /** `getStravaClientCreds`: the client id is checked first, then the secret. */
  function GetStravaClientCreds(env: map<string, string>): (r: Result<(string, string), string>)
    ensures r.Ok? <==> Getenv(env, "STRAVA_CLIENT_ID") != "" && Getenv(env, "STRAVA_CLIENT_SECRET") != ""
    ensures r.Ok? ==> r.value == (Getenv(env, "STRAVA_CLIENT_ID"), Getenv(env, "STRAVA_CLIENT_SECRET"))
    ensures Getenv(env, "STRAVA_CLIENT_ID") == "" ==> r == Err("missing strava client id")
    ensures Getenv(env, "STRAVA_CLIENT_ID") != "" && Getenv(env, "STRAVA_CLIENT_SECRET") == "" ==>
      r == Err("missing strava client secret")
  {
    var clientId := Getenv(env, "STRAVA_CLIENT_ID");
    if clientId == "" then Err("missing strava client id")
    else
      var clientSecret := Getenv(env, "STRAVA_CLIENT_SECRET");
      if clientSecret == "" then Err("missing strava client secret")
      else Ok((clientId, clientSecret))
  }

  /** `newDBStravaAuth`: the stored record of a token response, with the athlete id the response carries. */
  function NewDBStravaAuth(resp: AuthTokenResp): (sa: StravaAuth)
    ensures sa.accessToken == resp.accessToken && sa.refreshToken == resp.refreshToken
    ensures sa.expiresAt == resp.expiresAt && sa.athleteId == resp.athlete.id
    ensures sa.Exists() <==> resp.athlete.id > 0
  {
    StravaAuth(resp.accessToken, resp.expiresAt, resp.refreshToken, resp.athlete.id)
  }

  /** When the response names the stored athlete, the new record is the refreshed one of the web server. */
  lemma NewDBStravaAuthRefreshed(sa: StravaAuth, resp: AuthTokenResp)
    requires resp.athlete.id == sa.athleteId
    ensures NewDBStravaAuth(resp) == Refreshed(sa, resp)
  {
    assert NewDBStravaAuth(resp).athleteId == Refreshed(sa, resp).athleteId;
  }

  /** A failed callback leaves the zero response, so the record inserted from it is the zero record. */
  lemma FailedCallbackInsertsZeroRecord(answer: TokenRequest -> TokenReply, a: Authorization, code: string)
    requires CallbackReply(answer, a, code).err.Some?
    ensures NewDBStravaAuth(CallbackReply(answer, a, code).resp) == ZeroAuth
    ensures !NewDBStravaAuth(CallbackReply(answer, a, code).resp).Exists()
  {
    var r := CallbackReply(answer, a, code);
    assert r.resp == ZeroTokenResp;
    assert NewDBStravaAuth(ZeroTokenResp) == StravaAuth("", 0, "", 0);
  }

  /**
   * The update writes `WHERE athlete_id` with the id of the refresh response. A response without
   * the athlete (id 0) therefore matches no stored athlete, and the table is left as it was.
   */
  lemma RefreshWithoutAthleteUpdatesNothing(rows: seq<StravaAuth>, resp: AuthTokenResp)
    requires resp.athlete.id == 0
    requires forall i :: 0 <= i < |rows| ==> rows[i].Exists()
    ensures UpdatedAuthRows(rows, NewDBStravaAuth(resp)) == rows
  {
    UpdateMissAndTwice(rows, NewDBStravaAuth(resp));
  }

  /** A failed select goes on only when its error names an empty result set. */
  predicate SelectProceeds(err: Option<DbError>)
  {
    err.None? || IsEmptyResultSet(ErrorText(err.value))
  }

  /** A found row and the driver's "no rows" go on; another failure goes on exactly when its text holds the "no rows" text. */
  lemma SelectProceedsSpec(m: string)
    ensures SelectProceeds(None) && SelectProceeds(Some(NoRows))
    ensures SelectProceeds(Some(Failure(m))) <==> Contains(m, NoRowsText)
  {
    NoRowsIsEmptyResultSet();
  }

  /** What the athlete step after the write does. */
  datatype AthleteStep = KeepAthletes | InsertAthlete(athlete: StravaAthlete) | StopAt(message: string)

  /**
   * Lines 140-161 of the command for a given lookup error: an empty result set means the athlete
   * is missing, and a missing athlete with a positive id is inserted; any other error stops.
   */
  function AthleteStepFor(lookupErr: Option<DbError>, resp: AuthTokenResp): AthleteStep
  {
    var athleteExists := lookupErr.None? || !IsEmptyResultSet(ErrorText(lookupErr.value));
    if lookupErr.Some? && !IsEmptyResultSet(ErrorText(lookupErr.value)) then StopAt(ErrorText(lookupErr.value))
    else if !athleteExists && resp.athlete.id > 0 then
      InsertAthlete(StravaAthlete(resp.athlete.id, resp.athlete.firstName, resp.athlete.lastName,
                                  resp.athlete.profile, resp.athlete.profileMedium))
    else KeepAthletes
  }

  /**
   * The step is decided by the lookup error alone. No error keeps the athletes. An error naming an
   * empty result set (the driver's "no rows", or any message holding its text) inserts the
   * athlete of the response when it has a positive id. Any other error stops with its message.
   * The lookup of db/db.go never reports an error, so in the command the step is always to keep
   * the athletes as they are.
   */
  lemma AthleteStepSpec(resp: AuthTokenResp, m: string)
    ensures AthleteStepFor(None, resp) == KeepAthletes
    ensures AthleteStepFor(Some(NoRows), resp) ==
      if resp.athlete.id > 0 then InsertAthlete(StravaAthlete(resp.athlete.id, resp.athlete.firstName,
        resp.athlete.lastName, resp.athlete.profile, resp.athlete.profileMedium))
      else KeepAthletes
    ensures !Contains(m, NoRowsText) ==> AthleteStepFor(Some(Failure(m)), resp) == StopAt(m)
    ensures Contains(m, NoRowsText) ==> AthleteStepFor(Some(Failure(m)), resp) == AthleteStepFor(Some(NoRows), resp)
  {
    NoRowsIsEmptyResultSet();
  }

  /**
   * The `Run` of the command. `code` is what the callback receives; the faults are the driver's
   * failures of the select, the insert, the update and the athlete lookup. The result is the
   * message the command prints before returning early, if any.
   */
  method Run(env: map<string, string>, store: Store, server: TokenServer, code: string,
             selectFault: Option<string>, insertFault: Option<string>, updateFault: Option<string>,
             athleteFault: Option<string>)
    returns (failure: Option<string>)
    modifies store`authRows, server`received
    ensures GetStravaClientCreds(env).Err? ==>
      failure == Some(GetStravaClientCreds(env).error) &&
      store.authRows == old(store.authRows) && server.received == old(server.received)
    ensures var sel := SelectAuth(old(store.authRows), selectFault);
      GetStravaClientCreds(env).Ok? && !SelectProceeds(sel.1) ==>
        failure == Some(ErrorText(sel.1.value)) &&
        store.authRows == old(store.authRows) && server.received == old(server.received)
    ensures var creds, sel := GetStravaClientCreds(env), SelectAuth(old(store.authRows), selectFault);
      creds.Ok? && SelectProceeds(sel.1) && sel.0.athleteId == 0 ==>
        var oauth := ClientAuthorization(creds.value.0, creds.value.1);
        var reply := CallbackReply(server.answer, oauth, code);
        server.received == old(server.received) + (if code == "" then [] else [CodeRequest(oauth, code)]) &&
        failure == insertFault &&
        store.authRows == if insertFault.Some? then old(store.authRows)
                          else old(store.authRows) + [NewDBStravaAuth(reply.resp)]
    ensures var creds, sel := GetStravaClientCreds(env), SelectAuth(old(store.authRows), selectFault);
      creds.Ok? && SelectProceeds(sel.1) && sel.0.athleteId != 0 ==>
        var req := RefreshRequest(ClientAuthorization(creds.value.0, creds.value.1), sel.0.refreshToken);
        server.received == old(server.received) + [req] &&
        failure == updateFault &&
        store.authRows == if updateFault.Some? then old(store.authRows)
                          else UpdatedAuthRows(old(store.authRows), NewDBStravaAuth(server.answer(req).resp))
  {
    var creds := GetStravaClientCreds(env);
    if creds.Err? {
      return Some(creds.error);
    }
    var oauth := ClientAuthorization(creds.value.0, creds.value.1);

    var oauthUser, selErr := store.SelectStravaAuth(selectFault);
    if !SelectProceeds(selErr) {
      return Some(ErrorText(selErr.value));
    }

    var oauthResp: AuthTokenResp;
    var err: Option<DbError>;
    if oauthUser.athleteId == 0 {
      var callbackErr;
      oauthResp, callbackErr := GetAccessToken(code, oauth, server);
      err := store.InsertStravaAuth(NewDBStravaAuth(oauthResp), insertFault);
    } else {
      var refreshErr;
      oauthResp, refreshErr := RefreshToken(oauth, server, oauthUser.refreshToken);
      err := store.UpdateStravaAuth(NewDBStravaAuth(oauthResp), updateFault);
    }
    if err.Some? {
      return Some(ErrorText(err.value));
    }

    var athlete, lookupErr := store.SelectStravaAthleteById(oauthUser.athleteId, athleteFault);
    assert AthleteStepFor(lookupErr, oauthResp) == KeepAthletes;
    return None;
  }
}
