/**
 * strava/strava.go: the activity record with its race test, name slug and elapsed-time display,
 * the token response, and the token endpoint as an oracle that logs what it was asked.
 */
module Strava {
  import opened Wrappers
  import opened Ints
  import opened Text
  import opened Slug

  /**
   * An activity of the feed. Distance, moving time and the map are not modelled (the calculations
   * that read them are floating point). The local start date is only ever used for its year.
   */
  datatype Activity = Activity(
    id: U64,
    name: string,
    elapsedTime: U32,
    sportType: string,
    workoutType: U8,
    startYear: int)
  {
    /** A running race: sport type exactly "Run" and workout type 1. */
    predicate IsRace()
    {
      sportType == "Run" && workoutType == 1
    }

    function NameSlugified(): string
    {
      Slugify(name)
    }

    /** The elapsed time as `H:MM:SS`, the hours unpadded. */
    function TimeFormatted(): string
    {
      var hours := elapsedTime / 3600;
      var remainingSeconds := elapsedTime % 3600;
      var minutes := remainingSeconds / 60;
      var seconds := remainingSeconds % 60;
      NatToDecimal(hours) + ":" + Pad2(minutes) + ":" + Pad2(seconds)
    }
  }

  lemma IsRaceExactly(a: Activity)
    ensures a.IsRace() <==> a.sportType == "Run" && a.workoutType == 1
    ensures a.sportType in {"run", "RUN", "Trail Run", "VirtualRun"} ==> !a.IsRace()
  {
  }

  // ---------------------------------------------------------------------------------------------
  // The elapsed time display and its reading.

  /**
   * Reads `H:MM:SS` (hours in one or more digits, minutes and seconds in exactly two, each below 60)
   * back into seconds.
   */
  function ParseClock(s: string): Option<nat>
  {
    if |s| < 7 || s[|s| - 6] != ':' || s[|s| - 3] != ':' then None
    else
      var h, m, sec := s[..|s| - 6], s[|s| - 5..|s| - 3], s[|s| - 2..];
      if !AllDigits(h) || !AllDigits(m) || !AllDigits(sec) then None
      else if DecimalValue(m) >= 60 || DecimalValue(sec) >= 60 then None
      else Some(DecimalValue(h) * 3600 + DecimalValue(m) * 60 + DecimalValue(sec))
  }

  /** Hours, minutes and seconds of `t` seconds: minutes and seconds below 60, adding back up to `t`. */
  lemma ClockSplit(t: nat)
    ensures (t % 3600) % 60 == t % 60 && (t % 3600) / 60 < 60 && t % 60 < 60
    ensures (t / 3600) * 3600 + ((t % 3600) / 60) * 60 + t % 60 == t
  {
  }

  /** Where the pieces of `h:mm:ss` sit, counted from the end. */
  lemma ClockLayout(hs: string, mm: string, ss: string)
    requires hs != [] && |mm| == 2 && |ss| == 2
    ensures var r := hs + ":" + mm + ":" + ss;
      |r| >= 7 && r[|r| - 6] == ':' && r[|r| - 3] == ':' &&
      r[..|r| - 6] == hs && r[|r| - 5..|r| - 3] == mm && r[|r| - 2..] == ss
  {
    var r := hs + ":" + mm + ":" + ss;
    assert r[..|r| - 6] == hs;
    assert r[|r| - 5..|r| - 3] == mm;
    assert r[|r| - 2..] == ss;
  }

  /** The fields of the display: hours, minutes below 60 and seconds below 60 that add up to the time. */
  lemma TimeFormattedFields(a: Activity)
    ensures var r, t := a.TimeFormatted(), a.elapsedTime;
      |r| >= 7 && r[|r| - 6] == ':' && r[|r| - 3] == ':' &&
      r[..|r| - 6] == NatToDecimal(t / 3600) &&
      AllDigits(r[|r| - 5..|r| - 3]) && DecimalValue(r[|r| - 5..|r| - 3]) == (t % 3600) / 60 &&
      AllDigits(r[|r| - 2..]) && DecimalValue(r[|r| - 2..]) == t % 60 &&
      (t % 3600) / 60 < 60 && t % 60 < 60 &&
      (t / 3600) * 3600 + ((t % 3600) / 60) * 60 + t % 60 == t
  {
    var t := a.elapsedTime;
    ClockSplit(t);
    var m, s := (t % 3600) / 60, t % 60;
    Pad2TwoDigits(m);
    Pad2TwoDigits(s);
    ClockLayout(NatToDecimal(t / 3600), Pad2(m), Pad2(s));
  }

  /** The display has exactly two ':' and nothing else besides digits. */
  lemma TimeFormattedColons(a: Activity)
    ensures var r := a.TimeFormatted();
      forall i :: 0 <= i < |r| ==> (r[i] == ':' <==> i == |r| - 6 || i == |r| - 3)
  {
    TimeFormattedFields(a);
    var r := a.TimeFormatted();
    assert AllDigits(r[..|r| - 6]);
    forall i | 0 <= i < |r| ensures r[i] == ':' <==> i == |r| - 6 || i == |r| - 3 {
      if i < |r| - 6 {
        assert r[i] == r[..|r| - 6][i];
      } else if |r| - 6 < i < |r| - 3 {
        assert r[i] == r[|r| - 5..|r| - 3][i - (|r| - 5)];
      } else if i > |r| - 3 {
        assert r[i] == r[|r| - 2..][i - (|r| - 2)];
      }
    }
  }

  /** Reading the display back gives the elapsed time. */
  lemma TimeFormattedRoundTrip(a: Activity)
    ensures ParseClock(a.TimeFormatted()) == Some(a.elapsedTime as nat)
  {
    TimeFormattedFields(a);
    DecimalRoundTrip(a.elapsedTime / 3600);
  }

  // ---------------------------------------------------------------------------------------------
  // The OAuth token endpoint.

  datatype Athlete = Athlete(id: U64, firstName: string, lastName: string, profile: string, profileMedium: string)

  /** The decoded body of a token response. */
  datatype AuthTokenResp = AuthTokenResp(
    tokenType: string,
    expiresAt: U64,
    expiresIn: U64,
    refreshToken: string,
    accessToken: string,
    athlete: Athlete)

  const ZeroAthlete := Athlete(0, "", "", "", "")
  const ZeroTokenResp := AuthTokenResp("", 0, 0, "", "", ZeroAthlete)

  /** The client's registration with the token endpoint. `Url` is not modelled. */
  datatype Authorization = Authorization(clientId: string, clientSecret: string, redirectUri: string, scope: string)

  const RedirectUri := "http://localhost:8080/callback"
  const Scope := "activity:read_all"

  datatype Grant = AuthorizationCode(code: string) | RefreshGrant(refreshToken: string)

  /** The JSON body posted to the token endpoint. */
  datatype TokenRequest = TokenRequest(clientId: string, clientSecret: string, grant: Grant)

  /** The body of an authorization-code exchange. */
  function CodeRequest(a: Authorization, code: string): TokenRequest
  {
    TokenRequest(a.clientId, a.clientSecret, AuthorizationCode(code))
  }

  /** The body of a refresh. */
  function RefreshRequest(a: Authorization, refreshToken: string): TokenRequest
  {
    TokenRequest(a.clientId, a.clientSecret, RefreshGrant(refreshToken))
  }

  /**
   * What a token call hands back: the response as far as it was decoded, and the error, if any
   * (transport failure, undecodable body or non-200 status).
   */
  datatype TokenReply = TokenReply(resp: AuthTokenResp, err: Option<string>)

  /** The remote token endpoint: `answer` is what it replies to a request, `received` what it was sent. */
  class TokenServer {
    const answer: TokenRequest -> TokenReply
    var received: seq<TokenRequest>

    constructor (answer: TokenRequest -> TokenReply)
      ensures this.answer == answer && received == []
    {
      this.answer := answer;
      received := [];
    }

    method Post(req: TokenRequest) returns (reply: TokenReply)
      modifies this`received
      ensures received == old(received) + [req]
      ensures reply == answer(req)
    {
      received := received + [req];
      reply := answer(req);
    }
  }

  /** Exchanges an authorization code for tokens: one request with the code grant. */
  method ReqAccessToken(a: Authorization, server: TokenServer, code: string) returns (resp: AuthTokenResp, err: Option<string>)
    modifies server`received
    ensures server.received == old(server.received) + [CodeRequest(a, code)]
    ensures TokenReply(resp, err) == server.answer(CodeRequest(a, code))
  {
    var reply := server.Post(CodeRequest(a, code));
    resp, err := reply.resp, reply.err;
  }

  /** Exchanges a refresh token for new tokens: one request with the refresh grant. */
  method RefreshToken(a: Authorization, server: TokenServer, refreshToken: string) returns (resp: AuthTokenResp, err: Option<string>)
    modifies server`received
    ensures server.received == old(server.received) + [RefreshRequest(a, refreshToken)]
    ensures TokenReply(resp, err) == server.answer(RefreshRequest(a, refreshToken))
  {
    var reply := server.Post(RefreshRequest(a, refreshToken));
    resp, err := reply.resp, reply.err;
  }
}
