/**
 * The credential refresh shared by main.go and cmd/genhtml/main.go: the stored record is rebuilt
 * from the token response, keeping the stored athlete id, and written back with the update.
 */
module Credentials {
  import opened Wrappers
  import opened Ints
  import opened Db
  import opened Strava

  /** The record written back after a refresh. */
  function Refreshed(sa: StravaAuth, tk: AuthTokenResp): (r: StravaAuth)
    ensures r.athleteId == sa.athleteId
    ensures r.accessToken == tk.accessToken && r.refreshToken == tk.refreshToken && r.expiresAt == tk.expiresAt
  {
    StravaAuth(tk.accessToken, tk.expiresAt, tk.refreshToken, sa.athleteId)
  }

  /**
   * Writing the refreshed record back replaces the three token fields of every row of that athlete
   * (the selected first row among them) and leaves the rows of other athletes alone.
   */
  lemma RefreshedWriteBack(rows: seq<StravaAuth>, tk: AuthTokenResp)
    requires rows != []
    ensures var r := UpdatedAuthRows(rows, Refreshed(rows[0], tk));
      r[0] == Refreshed(rows[0], tk) &&
      r[0].accessToken == tk.accessToken && r[0].refreshToken == tk.refreshToken &&
      r[0].expiresAt == tk.expiresAt && r[0].athleteId == rows[0].athleteId &&
      forall i :: 0 <= i < |rows| && rows[i].athleteId != rows[0].athleteId ==> r[i] == rows[i]
  {
    UpdateTouchesOnlyTokens(rows, Refreshed(rows[0], tk));
  }

  /** A refreshed record whose new expiry is below 2^63 is not expired up to and including that second. */
  lemma RefreshedFresh(sa: StravaAuth, tk: AuthTokenResp, now: int)
    requires tk.expiresAt <= MaxInt64 && now <= tk.expiresAt
    ensures !Refreshed(sa, tk).IsExpired(now)
  {
    IsExpiredStrict(Refreshed(sa, tk), now);
  }
}
