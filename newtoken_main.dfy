/**
 * cmd/newtoken/main.go: the stand-alone token program. Unlike the `newtoken` command it always
 * asks for a new authorization first, writes nothing when no access token came back, and then
 * inserts the record (no stored athlete) or updates it. Its `getAccessToken` is the one of
 * cmd/newtoken.go, line for line, and is shared with that module.
 */
module NewTokenMain {
  import opened Wrappers
  import opened Text
  import opened Strava
  import opened Db
  import opened Env
  import opened NewToken

  /** The environment checks: the client id first, then the secret, each with its own message. */
  function ClientFromEnv(env: map<string, string>): (r: Result<Authorization, string>)
    ensures r.Ok? <==> Getenv(env, "STRAVA_CLIENT_ID") != "" && Getenv(env, "STRAVA_CLIENT_SECRET") != ""
    ensures r.Ok? ==> r.value == ClientAuthorization(Getenv(env, "STRAVA_CLIENT_ID"), Getenv(env, "STRAVA_CLIENT_SECRET"))
    ensures Getenv(env, "STRAVA_CLIENT_ID") == "" ==> r == Err("missing strava client id")
    ensures Getenv(env, "STRAVA_CLIENT_ID") != "" && Getenv(env, "STRAVA_CLIENT_SECRET") == "" ==>
      r == Err("missing strava secret")
  {
    var clientId := Getenv(env, "STRAVA_CLIENT_ID");
    if clientId == "" then Err("missing strava client id")
    else
      var clientSecret := Getenv(env, "STRAVA_CLIENT_SECRET");
      if clientSecret == "" then Err("missing strava secret")
      else Ok(ClientAuthorization(clientId, clientSecret))
  }

  /**
   * Both token programs accept the same environments and build the same registration; they only
   * word the missing secret differently.
   */
  lemma SameChecksAsCommand(env: map<string, string>)
    ensures ClientFromEnv(env).Ok? <==> GetStravaClientCreds(env).Ok?
    ensures ClientFromEnv(env).Ok? ==>
      ClientFromEnv(env).value ==
        ClientAuthorization(GetStravaClientCreds(env).value.0, GetStravaClientCreds(env).value.1)
    ensures ClientFromEnv(env) == Err("missing strava client id") <==>
      GetStravaClientCreds(env) == Err("missing strava client id")
    ensures ClientFromEnv(env) == Err("missing strava secret") <==>
      GetStravaClientCreds(env) == Err("missing strava client secret")
  {
    var r, s := ClientFromEnv(env), GetStravaClientCreds(env);
    if Getenv(env, "STRAVA_CLIENT_ID") == "" {
      assert r == Err("missing strava client id") && s == Err("missing strava client id");
    } else if Getenv(env, "STRAVA_CLIENT_SECRET") == "" {
      assert r == Err("missing strava secret") && s == Err("missing strava client secret");
    } else {
      assert r.Ok? && s.Ok?;
    }
  }

  /** After the callback the program goes on only with a non-empty access token. */
  predicate HasAccessToken(resp: AuthTokenResp)
  {
    resp.accessToken != ""
  }

  /** A failed callback hands back the zero response, so it never gets past the access-token check. */
  lemma FailedCallbackStops(answer: TokenRequest -> TokenReply, a: Authorization, code: string)
    ensures CallbackReply(answer, a, code).err.Some? ==> !HasAccessToken(CallbackReply(answer, a, code).resp)
    ensures HasAccessToken(CallbackReply(answer, a, code).resp) ==>
      code != "" && CallbackReply(answer, a, code).resp == answer(CodeRequest(a, code)).resp
  {
    var r := CallbackReply(answer, a, code);
    if r.err.Some? {
      assert r.resp == ZeroTokenResp;
    }
  }

  /**
   * `main`: the result is the message printed before an early return, if any. `code` is what
   * the callback receives; the faults are the driver's failures of the select, the insert and the
   * update.
   */
  method Run(env: map<string, string>, store: Store, server: TokenServer, code: string,
             selectFault: Option<string>, insertFault: Option<string>, updateFault: Option<string>)
    returns (failure: Option<string>)
    modifies store`authRows, server`received
    ensures ClientFromEnv(env).Err? ==>
      failure == Some(ClientFromEnv(env).error) &&
      store.authRows == old(store.authRows) && server.received == old(server.received)
    ensures ClientFromEnv(env).Ok? ==>
      var oauth := ClientFromEnv(env).value;
      server.received == old(server.received) + (if code == "" then [] else [CodeRequest(oauth, code)])
    ensures var client := ClientFromEnv(env);
      client.Ok? && !HasAccessToken(CallbackReply(server.answer, client.value, code).resp) ==>
        failure == Some("unable to get access token") && store.authRows == old(store.authRows)
    ensures var client, sel := ClientFromEnv(env), SelectAuth(old(store.authRows), selectFault);
      client.Ok? && HasAccessToken(CallbackReply(server.answer, client.value, code).resp) ==>
        var oauthData := NewDBStravaAuth(CallbackReply(server.answer, client.value, code).resp);
        (!SelectProceeds(sel.1) ==> failure == Some(ErrorText(sel.1.value)) && store.authRows == old(store.authRows)) &&
        (SelectProceeds(sel.1) && sel.0.athleteId == 0 ==>
          failure == insertFault &&
          store.authRows == if insertFault.Some? then old(store.authRows) else old(store.authRows) + [oauthData]) &&
        (SelectProceeds(sel.1) && sel.0.athleteId != 0 ==>
          failure == updateFault &&
          store.authRows == if updateFault.Some? then old(store.authRows)
                            else UpdatedAuthRows(old(store.authRows), oauthData))
  {
    var client := ClientFromEnv(env);
    if client.Err? {
      return Some(client.error);
    }
    var oauth := client.value;

    var oauthResp, callbackErr := GetAccessToken(code, oauth, server);
    if !HasAccessToken(oauthResp) {
      return Some("unable to get access token");
    }

    var oauthData := NewDBStravaAuth(oauthResp);
    var oauthUser, selErr := store.SelectStravaAuth(selectFault);
    if !SelectProceeds(selErr) {
      return Some(ErrorText(selErr.value));
    }

    var err;
    if oauthUser.athleteId == 0 {
      err := store.InsertStravaAuth(oauthData, insertFault);
    } else {
      err := store.UpdateStravaAuth(oauthData, updateFault);
    }
    if err.Some? {
      return Some(ErrorText(err.value));
    }
    return None;
  }
}
