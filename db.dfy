/**
 * db/db.go: the three tables `strava_auth`, `athlete` and `race_activity`, held in memory by a
 * `Store`. Each query takes the driver's failure for that call as a parameter (`fault`), so every
 * error path can be stated; the SQL text and the connection pool are not modelled.
 */
module Db {
  import opened Wrappers
  import opened Ints
  import opened Text

  /** A row of `strava_auth`. */
  datatype StravaAuth = StravaAuth(accessToken: string, expiresAt: U64, refreshToken: string, athleteId: U64)
  {
    predicate Exists()
    {
      athleteId > 0
    }

    /** `now` is the Unix time in seconds; the expiry is converted to `int64` before comparing. */
    predicate IsExpired(now: int)
    {
      now > Int64Of(expiresAt)
    }
  }

  /** A row of `athlete`. */
  datatype StravaAthlete = StravaAthlete(stravaId: U64, firstName: string, lastName: string, profile: string, profileMedium: string)
  {
    predicate Exists()
    {
      stravaId > 0
    }
  }

  /** A row of `race_activity`. The distance is not modelled; the start date is a Unix time. */
  datatype RaceActivity = RaceActivity(stravaId: U64, athleteId: U64, name: string, nameSlug: string, startDate: int)
  {
    predicate Exists()
    {
      stravaId > 0
    }
  }

  const ZeroAuth := StravaAuth("", 0, "", 0)
  const ZeroAthlete := StravaAthlete(0, "", "", "", "")
  const ZeroRace := RaceActivity(0, 0, "", "", 0)

  /** What a query can fail with: the driver's "no rows" error, or any other message. */
  datatype DbError = NoRows | Failure(message: string)

  const NoRowsText := "no rows in result set"

  function ErrorText(e: DbError): string
  {
    match e
    case NoRows => NoRowsText
    case Failure(m) => m
  }

  /**
   * `db.IsEmptyResultSet`, which cmd/newtoken.go calls but db/db.go does not define. It is taken
   * to be the substring test for the driver's "no rows" text that cmd/newtoken/main.go writes out
   * inline.
   */
  predicate IsEmptyResultSet(text: string)
  {
    Contains(text, NoRowsText)
  }

  /** The driver's "no rows" error is recognised as an empty result set. */
  lemma NoRowsIsEmptyResultSet()
    ensures IsEmptyResultSet(ErrorText(NoRows))
    ensures forall m: string :: IsEmptyResultSet(ErrorText(Failure(m))) <==> Contains(m, NoRowsText)
  {
    ContainsInfix([], NoRowsText, []);
    assert [] + NoRowsText + [] == NoRowsText;
  }

  // ---------------------------------------------------------------------------------------------
  // The record predicates.

  lemma ExistsIffAthleteId(sa: StravaAuth, at: StravaAthlete, ra: RaceActivity)
    ensures sa.Exists() <==> sa.athleteId != 0
    ensures at.Exists() <==> at.stravaId != 0
    ensures ra.Exists() <==> ra.stravaId != 0
    ensures !ZeroAuth.Exists() && !ZeroAthlete.Exists() && !ZeroRace.Exists()
  {
  }

  /** Below 2^63 the expiry is compared as it is, strictly: at `now == expiresAt` it is not yet expired. */
  lemma IsExpiredStrict(sa: StravaAuth, now: int)
    requires sa.expiresAt <= MaxInt64
    ensures sa.IsExpired(now) <==> now > sa.expiresAt
    ensures !sa.IsExpired(sa.expiresAt) && sa.IsExpired(sa.expiresAt + 1)
  {
  }

  /** From 2^63 on the expiry wraps to a negative `int64`, so it counts as expired at every time from 1970 on. */
  lemma IsExpiredWraps(sa: StravaAuth, now: int)
    requires sa.expiresAt > MaxInt64 && now >= 0
    ensures sa.IsExpired(now)
  {
  }

  /** The zero record, returned when the select fails, is expired exactly when `now` is after the epoch. */
  lemma ZeroAuthExpired(now: int)
    ensures ZeroAuth.IsExpired(now) <==> now > 0
  {
  }

  // ---------------------------------------------------------------------------------------------
  // The queries as functions of the table.

  /**
   * The specification of `SelectStravaAuth` (`SELECT … FROM strava_auth LIMIT 1`): the first row;
   * the zero record with the error otherwise. `Store.SelectStravaAuth` is the query against the
   * store and is proved equal to it.
   */
  function SelectAuth(rows: seq<StravaAuth>, fault: Option<string>): (r: (StravaAuth, Option<DbError>))
    ensures r.1.None? <==> fault.None? && rows != []
    ensures r.1.None? ==> r.0 in rows
    ensures r.1.Some? ==> r.0 == ZeroAuth
  {
    if fault.Some? then (ZeroAuth, Some(Failure(fault.value)))
    else if rows == [] then (ZeroAuth, Some(NoRows))
    else (rows[0], None)
  }

  /** One row after `UPDATE strava_auth SET access_token, access_token_expires_at, refresh_token WHERE athlete_id`. */
  function UpdateRow(row: StravaAuth, sa: StravaAuth): StravaAuth
  {
    if row.athleteId == sa.athleteId
    then row.(accessToken := sa.accessToken, expiresAt := sa.expiresAt, refreshToken := sa.refreshToken)
    else row
  }

  function UpdatedAuthRows(rows: seq<StravaAuth>, sa: StravaAuth): (r: seq<StravaAuth>)
    ensures |r| == |rows|
  {
    seq(|rows|, i requires 0 <= i < |rows| => UpdateRow(rows[i], sa))
  }

  /**
   * The update rewrites the three token fields of the rows with the given athlete id, and only
   * those: such a row becomes the given record, every other row is left as it was.
   */
  lemma UpdateTouchesOnlyTokens(rows: seq<StravaAuth>, sa: StravaAuth)
    ensures var r := UpdatedAuthRows(rows, sa);
      |r| == |rows| &&
      (forall i :: 0 <= i < |r| ==> r[i].athleteId == rows[i].athleteId) &&
      (forall i :: 0 <= i < |r| && rows[i].athleteId == sa.athleteId ==> r[i] == sa) &&
      (forall i :: 0 <= i < |r| && rows[i].athleteId != sa.athleteId ==> r[i] == rows[i])
  {
  }

  /** Updating with no row of that athlete changes nothing; updating twice is updating once. */
  lemma UpdateMissAndTwice(rows: seq<StravaAuth>, sa: StravaAuth)
    ensures (forall i :: 0 <= i < |rows| ==> rows[i].athleteId != sa.athleteId) ==> UpdatedAuthRows(rows, sa) == rows
    ensures UpdatedAuthRows(UpdatedAuthRows(rows, sa), sa) == UpdatedAuthRows(rows, sa)
  {
    var r := UpdatedAuthRows(rows, sa);
    if forall i :: 0 <= i < |rows| ==> rows[i].athleteId != sa.athleteId {
      assert forall i :: 0 <= i < |rows| ==> r[i] == rows[i];
    }
    var r2 := UpdatedAuthRows(r, sa);
    assert forall i :: 0 <= i < |r| ==> r2[i] == r[i];
  }

  /** `SELECT … FROM athlete WHERE strava_id = $1`: the first matching row, or the zero record. */
  function FindAthlete(rows: seq<StravaAthlete>, id: U64): StravaAthlete
  {
    if rows == [] then ZeroAthlete
    else if rows[0].stravaId == id then rows[0]
    else FindAthlete(rows[1..], id)
  }

  /** A hit is the first row with that id; a miss is the zero record, which does not exist. */
  lemma {:induction false} FindAthleteSpec(rows: seq<StravaAthlete>, id: U64)
    ensures var r := FindAthlete(rows, id);
      ((exists k :: 0 <= k < |rows| && rows[k].stravaId == id) ==>
        exists k :: 0 <= k < |rows| && rows[k] == r && r.stravaId == id &&
          forall j :: 0 <= j < k ==> rows[j].stravaId != id) &&
      ((forall k :: 0 <= k < |rows| ==> rows[k].stravaId != id) ==> r == ZeroAthlete && !r.Exists())
  {
    if rows != [] && rows[0].stravaId != id {
      FindAthleteSpec(rows[1..], id);
      var r := FindAthlete(rows, id);
      if exists k :: 0 <= k < |rows| && rows[k].stravaId == id {
        var k :| 0 <= k < |rows| && rows[k].stravaId == id;
        assert rows[1..][k - 1].stravaId == id;
        var k' :| 0 <= k' < |rows| - 1 && rows[1..][k'] == r && r.stravaId == id &&
          forall j :: 0 <= j < k' ==> rows[1..][j].stravaId != id;
        assert rows[k' + 1] == r;
        forall j | 0 <= j < k' + 1 ensures rows[j].stravaId != id {
          if j > 0 { assert rows[j] == rows[1..][j - 1]; }
        }
      }
      if forall k :: 0 <= k < |rows| ==> rows[k].stravaId != id {
        assert forall k :: 0 <= k < |rows| - 1 ==> rows[1..][k] == rows[k + 1];
      }
    }
  }

  /** `SELECT … FROM race_activity WHERE strava_id = $1`: the first matching row, or the zero record. */
  function FindRace(rows: seq<RaceActivity>, id: U64): RaceActivity
  {
    if rows == [] then ZeroRace
    else if rows[0].stravaId == id then rows[0]
    else FindRace(rows[1..], id)
  }

  lemma {:induction false} FindRaceSpec(rows: seq<RaceActivity>, id: U64)
    ensures var r := FindRace(rows, id);
      ((exists k :: 0 <= k < |rows| && rows[k].stravaId == id) ==>
        exists k :: 0 <= k < |rows| && rows[k] == r && r.stravaId == id &&
          forall j :: 0 <= j < k ==> rows[j].stravaId != id) &&
      ((forall k :: 0 <= k < |rows| ==> rows[k].stravaId != id) ==> r == ZeroRace && !r.Exists())
  {
    if rows != [] && rows[0].stravaId != id {
      FindRaceSpec(rows[1..], id);
      var r := FindRace(rows, id);
      if exists k :: 0 <= k < |rows| && rows[k].stravaId == id {
        var k :| 0 <= k < |rows| && rows[k].stravaId == id;
        assert rows[1..][k - 1].stravaId == id;
        var k' :| 0 <= k' < |rows| - 1 && rows[1..][k'] == r && r.stravaId == id &&
          forall j :: 0 <= j < k' ==> rows[1..][j].stravaId != id;
        assert rows[k' + 1] == r;
        forall j | 0 <= j < k' + 1 ensures rows[j].stravaId != id {
          if j > 0 { assert rows[j] == rows[1..][j - 1]; }
        }
      }
      if forall k :: 0 <= k < |rows| ==> rows[k].stravaId != id {
        assert forall k :: 0 <= k < |rows| - 1 ==> rows[1..][k] == rows[k + 1];
      }
    }
  }

  // ---------------------------------------------------------------------------------------------
  // `ORDER BY start_date_local DESC`.

  predicate SortedByStartDesc(s: seq<RaceActivity>)
  {
    forall i, j :: 0 <= i < j < |s| ==> s[i].startDate >= s[j].startDate
  }

  /** Places `r` before the first row that does not start later than it. */
  function InsertByStartDesc(r: RaceActivity, s: seq<RaceActivity>): seq<RaceActivity>
  {
    if s == [] || s[0].startDate <= r.startDate then [r] + s
    else [s[0]] + InsertByStartDesc(r, s[1..])
  }

  /**
   * The order the database hands the rows back in. Rows with the same start date keep the order
   * of the table here; SQL leaves that order open.
   */
  function SortByStartDesc(rows: seq<RaceActivity>): seq<RaceActivity>
  {
    if rows == [] then [] else InsertByStartDesc(rows[0], SortByStartDesc(rows[1..]))
  }

  lemma {:induction false} InsertByStartDescBag(r: RaceActivity, s: seq<RaceActivity>)
    ensures multiset(InsertByStartDesc(r, s)) == multiset(s) + multiset{r}
    ensures forall x :: x in InsertByStartDesc(r, s) ==> x == r || x in s
  {
    if s != [] && s[0].startDate > r.startDate {
      InsertByStartDescBag(r, s[1..]);
      assert s == [s[0]] + s[1..];
    }
  }

  lemma {:induction false} InsertByStartDescSorted(r: RaceActivity, s: seq<RaceActivity>)
    requires SortedByStartDesc(s)
    ensures SortedByStartDesc(InsertByStartDesc(r, s))
  {
    if s != [] && s[0].startDate > r.startDate {
      var tail := InsertByStartDesc(r, s[1..]);
      InsertByStartDescSorted(r, s[1..]);
      InsertByStartDescBag(r, s[1..]);
      forall j | 0 <= j < |tail| ensures s[0].startDate >= tail[j].startDate {
        if tail[j] != r {
          assert tail[j] in s[1..];
          var k :| 0 <= k < |s[1..]| && s[1..][k] == tail[j];
          assert s[k + 1] == tail[j];
        }
      }
      var t := [s[0]] + tail;
      forall i, j | 0 <= i < j < |t| ensures t[i].startDate >= t[j].startDate {
        if i > 0 {
          assert t[i] == tail[i - 1] && t[j] == tail[j - 1];
        } else {
          assert t[j] == tail[j - 1];
        }
      }
    }
  }

  /** The database's order is sorted by start date, newest first, and holds exactly the table's rows. */
  lemma {:induction false} SortByStartDescSpec(rows: seq<RaceActivity>)
    ensures SortedByStartDesc(SortByStartDesc(rows))
    ensures multiset(SortByStartDesc(rows)) == multiset(rows)
  {
    if rows != [] {
      SortByStartDescSpec(rows[1..]);
      InsertByStartDescSorted(rows[0], SortByStartDesc(rows[1..]));
      InsertByStartDescBag(rows[0], SortByStartDesc(rows[1..]));
      assert rows == [rows[0]] + rows[1..];
    }
  }

  // ---------------------------------------------------------------------------------------------
  // The tables.

  class Store {
    var authRows: seq<StravaAuth>
    var athleteRows: seq<StravaAthlete>
    var raceRows: seq<RaceActivity>

    constructor ()
      ensures authRows == [] && athleteRows == [] && raceRows == []
    {
      authRows, athleteRows, raceRows := [], [], [];
    }

    /** The credential query of db/db.go against the table; `SelectAuth` is its specification. */
    method SelectStravaAuth(fault: Option<string>) returns (res: StravaAuth, err: Option<DbError>)
      ensures (res, err) == SelectAuth(authRows, fault)
      ensures err == None ==> res == authRows[0]
      ensures fault.None? && authRows == [] ==> res == ZeroAuth && err == Some(NoRows)
    {
      if fault.Some? {
        res, err := ZeroAuth, Some(Failure(fault.value));
      } else if authRows == [] {
        res, err := ZeroAuth, Some(NoRows);
      } else {
        res, err := authRows[0], None;
      }
    }

    /** Adds one row carrying the given values, unless the driver fails. */
    method InsertStravaAuth(a: StravaAuth, fault: Option<string>) returns (err: Option<DbError>)
      modifies this`authRows
      ensures err == if fault.Some? then Some(Failure(fault.value)) else None
      ensures authRows == if fault.Some? then old(authRows) else old(authRows) + [a]
    {
      if fault.Some? {
        err := Some(Failure(fault.value));
      } else {
        authRows := authRows + [a];
        err := None;
      }
    }

    method UpdateStravaAuth(sa: StravaAuth, fault: Option<string>) returns (err: Option<DbError>)
      modifies this`authRows
      ensures err == if fault.Some? then Some(Failure(fault.value)) else None
      ensures authRows == if fault.Some? then old(authRows) else UpdatedAuthRows(old(authRows), sa)
    {
      if fault.Some? {
        err := Some(Failure(fault.value));
      } else {
        authRows := UpdatedAuthRows(authRows, sa);
        err := None;
      }
    }

    /** Never reports an error: a failed or empty lookup gives the zero record. */
    method SelectStravaAthleteById(athleteId: U64, fault: Option<string>) returns (res: StravaAthlete, err: Option<DbError>)
      ensures err == None
      ensures res == if fault.Some? then ZeroAthlete else FindAthlete(athleteRows, athleteId)
      ensures res.Exists() ==> res.stravaId == athleteId && res in athleteRows
    {
      FindAthleteSpec(athleteRows, athleteId);
      if fault.Some? {
        res := ZeroAthlete;
      } else {
        res := FindAthlete(athleteRows, athleteId);
      }
      err := None;
    }

    method InsertStravaAthlete(a: StravaAthlete, fault: Option<string>) returns (err: Option<DbError>)
      modifies this`athleteRows
      ensures err == if fault.Some? then Some(Failure(fault.value)) else None
      ensures athleteRows == if fault.Some? then old(athleteRows) else old(athleteRows) + [a]
    {
      if fault.Some? {
        err := Some(Failure(fault.value));
      } else {
        athleteRows := athleteRows + [a];
        err := None;
      }
    }

    method InsertRaceActivity(r: RaceActivity, fault: Option<string>) returns (err: Option<DbError>)
      modifies this`raceRows
      ensures err == if fault.Some? then Some(Failure(fault.value)) else None
      ensures raceRows == if fault.Some? then old(raceRows) else old(raceRows) + [r]
    {
      if fault.Some? {
        err := Some(Failure(fault.value));
      } else {
        raceRows := raceRows + [r];
        err := None;
      }
    }

    /** Never reports an error: a failed or empty lookup gives the zero record. */
    method SelectRaceActivityById(stravaId: U64, fault: Option<string>) returns (res: RaceActivity, err: Option<DbError>)
      ensures err == None
      ensures res == if fault.Some? then ZeroRace else FindRace(raceRows, stravaId)
      ensures res.Exists() ==> res.stravaId == stravaId && res in raceRows
    {
      FindRaceSpec(raceRows, stravaId);
      if fault.Some? {
        res := ZeroRace;
      } else {
        res := FindRace(raceRows, stravaId);
      }
      err := None;
    }

    /**
     * Every race row, newest start first. A failing query gives no rows and a wrapped error. The
     * database's ordering is `SortByStartDesc`; the loop only mirrors the `rows.Next` scan that
     * appends the ordered rows one by one. The ordering and permutation facts come from
     * `SortByStartDescSpec`.
     */
    method SelectAllRaces(fault: Option<string>) returns (res: seq<RaceActivity>, err: Option<string>)
      ensures fault.Some? ==> res == [] && err == Some("Failed to execute SelectAllRaces query: " + fault.value)
      ensures fault.None? ==> err == None && res == SortByStartDesc(raceRows)
      ensures fault.None? ==> SortedByStartDesc(res) && multiset(res) == multiset(raceRows)
    {
      res := [];
      if fault.Some? {
        err := Some("Failed to execute SelectAllRaces query: " + fault.value);
        return;
      }
      var rows := SortByStartDesc(raceRows);
      var i := 0;
      while i < |rows|
        invariant 0 <= i <= |rows|
        invariant res == rows[..i]
      {
        res := res + [rows[i]];
        i := i + 1;
      }
      assert rows[..i] == rows;
      SortByStartDescSpec(raceRows);
      err := None;
    }
  }
}
