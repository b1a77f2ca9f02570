# run-david-run in Dafny

A model of the core of run-david-run. That program keeps a runner's Strava races in Postgres and publishes them. It has three parts:

- A web server (main.go and `cmd/server.go`) serves the race index and a page per race.
- A static-site generator (`cmd/genhtml/main.go`) pages through the Strava activity feed and writes the index entries and one page per race.
- Two token programs (`cmd/newtoken.go` and `cmd/newtoken/main.go`) obtain or refresh the OAuth credential and store it.

The model covers these pieces:

- the activity rules of `strava/strava.go`:
  - which activity is a race;
  - the name slug (lower-case, each run of characters outside `[a-z0-9]` replaced by one `-`, dashes trimmed);
  - the `H:MM:SS` display, with its copy in `utils/utils.go`;
- the three tables of `db/db.go`, held by an in-memory `Store`;
- the credential refresh that main.go and the generator share;
- the path parsing and routing of both servers;
- the page walk of the generator;
- the insert-or-update decisions of both token programs.

The outside world enters only as parameters:

- **Database driver failures:** each query takes the driver's failure as an input (`fault: Option<string>`).
- **Token endpoint:** a `TokenServer` object. It has a fixed reply function (`answer`) and records every request posted to it (`received`).
- **Activity feed:** a function from page request to page.
- **Process environment:** a map.
- **Working directory:** a `Result`.
- **Clock:** `now` Unix seconds, or `currentYear`.

The code has these quirks. They are modelled as written and proved:

- The athlete and race lookups of `db/db.go` return no error when the row is missing (lines 93-95 and 142-144). As a result:
  - `handleActivity` renders the zero record for an unknown id (`CmdServer.ActivityResponseSpec`);
  - the athlete insert of the `newtoken` command never runs (`NewToken.AthleteStepSpec`).
- After a failed callback, the `newtoken` command still inserts a record built from the zero response (`NewToken.FailedCallbackInsertsZeroRecord`). The stand-alone program stops instead (`NewTokenMain.FailedCallbackStops`).
- The refresh path of the `newtoken` command keys its update on the athlete id of the refresh *response*. A response without an athlete updates no row (`NewToken.RefreshWithoutAthleteUpdatesNothing`). Its refresh error is overwritten by the update's result.
- The generator carries on with the zero record when its credential select fails. That record counts as expired at every time after 1970, so it is refreshed with an empty refresh token (`GenHtml.FailedSelectRefreshes`).
- An expiry of 2^63 or more wraps negative when converted to `int64`, and then counts as expired at every time from 1970 on (`Db.IsExpiredWraps`).

## Model

| member | source | states |
|---|---|---|
| Strava.IsRaceExactly | strava/strava.go:56-59 | an activity is a race exactly when its sport type is `Run` and its workout type is 1; other spellings of running are not races |
| Slug.ReplaceRunsShape | strava/strava.go:61-64 | the regular-expression replacement leaves only `[a-z0-9-]`, never two dashes in a row, and the same letters and digits in order |
| Slug.SlugifyIsSlug | strava/strava.go:61-65 | every slug is made of `[a-z0-9]` groups joined by single dashes, with no dash at either end and no `/` |
| Slug.SlugifyKeepsAlnum | strava/strava.go:61-65 | deleting the dashes of a slug gives exactly the letters and digits of the lower-cased name, in order |
| Slug.SlugifyEmpty | strava/strava.go:61-65 | the slug is empty exactly when the lower-cased name has no letter or digit |
| Slug.SlugifyFixesSlugs | strava/strava.go:61-65 | a string that is already a slug is its own slug |
| Slug.SlugifyIdempotent | strava/strava.go:61-65 | slugifying twice is slugifying once |
| Slug.SlugifyWords | strava/strava.go:61-65 | two words of ASCII letters and digits, in either case, around any run of other characters without capitals slug to the two lower-cased words joined by one `-` ("NYC Marathon" gives "nyc-marathon") |
| Strava.TimeFormattedFields | strava/strava.go:48-54 | the display is the hours in decimal, then the minutes and the seconds, each below 60, in two digits; together they add back to the elapsed time |
| Strava.TimeFormattedColons | strava/strava.go:48-54 | the display holds exactly two `:`, at six and three places from its end |
| Strava.TimeFormattedRoundTrip | strava/strava.go:48-54 | parsing the display back gives the elapsed time |
| Strava.ReqAccessToken | strava/strava.go:138-172 | one request with the authorization-code grant is sent; the response and error are the endpoint's reply to it |
| Strava.RefreshToken | strava/strava.go:174-205 | one request with the refresh grant is sent; the response and error are the endpoint's reply to it |
| Strava.TokenServer.Post | strava/strava.go:158-171 | a post is logged and answered by the endpoint's reply |
| Utils.TimeFormatted | utils/utils.go:27-35 | the result has `:` at six and three places from its end and starts with the hours in decimal |
| Utils.TimeFormattedFields | utils/utils.go:29-35 | minutes and seconds are below 60, two digits each, and hours, minutes and seconds add back to the elapsed time |
| Utils.SameAsActivity | utils/utils.go:29-35 | the helper formats exactly as the activity method does |
| Utils.TimeFormattedRoundTrip | utils/utils.go:29-35 | parsing the display back gives the elapsed time, and the display has exactly two `:` |
| Text.AtoiAcceptsOnlyIntegers | main.go:173-176 | the year parser accepts only an optional sign followed by one or more digits, with a value in `int64` range |
| Text.AtoiRoundTrip | main.go:173-176 | every `int64` printed in decimal parses back to itself |
| Text.ParseUintRoundTrip | cmd/server.go:56-60 | every `uint64` printed in decimal parses back to itself |
| Text.TrimSlice | main.go:168 | trimming removes only copies of the cut character at the two ends and keeps the middle unchanged |
| Text.JoinSplit | main.go:168 | joining the pieces of a split gives the string back |
| Text.SplitJoin | main.go:168 | splitting a join of separator-free pieces gives the pieces back |
| Text.Pad2TwoDigits | strava/strava.go:53 | `%02d` of a value below 100 is two digits with that value |
| Ints.Int64Of | db/db.go:36-39 | the `int64` conversion of a `uint64` keeps values below 2^63 and subtracts 2^64 from the others |
| Ints.Uint16Of | cmd/genhtml/main.go:125 | the `uint16` conversion of a page counter keeps values below 2^16, sends 2^16 to 0, and always differs from the counter by a multiple of 2^16 |
| Db.ExistsIffAthleteId | db/db.go:32-34 | a record exists exactly when its id is not 0; the three zero records do not exist |
| Db.IsExpiredStrict | db/db.go:36-39 | below 2^63 a credential is expired exactly when `now` is past its expiry; at the expiry itself it is not yet expired |
| Db.IsExpiredWraps | db/db.go:36-39 | an expiry at or above 2^63 counts as expired at every time from 1970 on |
| Db.ZeroAuthExpired | db/db.go:36-52 | the zero record returned by a failed select is expired exactly when `now` is after 1970 |
| Db.SelectAuth | db/db.go:41-52 | the select succeeds exactly when the driver does not fail and the table is not empty; a success is a stored row, a failure the zero record |
| Db.Store.SelectStravaAuth | db/db.go:41-52 | the select returns the first row, or the zero record with "no rows" on an empty table, or the driver's failure |
| Db.Store.InsertStravaAuth | db/db.go:54-62 | the row is appended unless the driver fails, and then nothing changes |
| Db.Store.UpdateStravaAuth | db/db.go:64-71 | the update rewrites the three token fields of the rows with that athlete id unless the driver fails |
| Db.UpdateTouchesOnlyTokens | db/db.go:64-71 | every row keeps its athlete id; rows of that athlete become the given record; all other rows stay as they were |
| Db.UpdateMissAndTwice | db/db.go:64-71 | an update that matches no athlete changes nothing; repeating an update changes nothing more |
| Db.FindAthleteSpec | db/db.go:86-97 | a lookup hit is the first row with that id; a miss is the zero athlete, which does not exist |
| Db.Store.SelectStravaAthleteById | db/db.go:86-97 | the athlete lookup never reports an error; it gives the first row with that id, or the zero record on a miss or a driver failure |
| Db.Store.InsertStravaAthlete | db/db.go:99-107 | the athlete is appended unless the driver fails |
| Db.Store.InsertRaceActivity | db/db.go:122-132 | the race is appended unless the driver fails |
| Db.FindRaceSpec | db/db.go:134-147 | a lookup hit is the first race with that id; a miss is the zero race, which does not exist |
| Db.Store.SelectRaceActivityById | db/db.go:134-147 | the race lookup never reports an error; it gives the first race with that id, or the zero record |
| Db.InsertByStartDescBag | db/db.go:150 | inserting a race into the ordered list adds exactly that race |
| Db.InsertByStartDescSorted | db/db.go:150 | inserting into a list ordered by start date, latest first, keeps it ordered |
| Db.SortByStartDescSpec | db/db.go:150 | the ordering of the query is ordered by start date, latest first, and is a permutation of the table |
| Db.Store.SelectAllRaces | db/db.go:149-173 | a failed query gives no races and the wrapped message; otherwise every race of the table comes back, latest start first |
| Db.NoRowsIsEmptyResultSet | cmd/newtoken/main.go:105 | under the assumed meaning of the undefined `db.IsEmptyResultSet` (the substring test this line writes out): the driver's "no rows" error counts as an empty result set, and a driver failure counts as one exactly when its text holds "no rows in result set" |
| Credentials.Refreshed | main.go:49-54 | the rebuilt record takes the three token fields from the response and keeps the stored athlete id |
| Credentials.RefreshedWriteBack | main.go:49-58 | writing the refreshed record back replaces the first row's tokens and leaves the rows of other athletes alone |
| Credentials.RefreshedFresh | main.go:42-54 | a refreshed record whose new expiry is below 2^63 is not expired up to that expiry |
| Env.Getenv | cmd/newtoken/main.go:71-79 | an unset variable reads as the empty string |
| Server.GetPathValuesSound | main.go:166-182 | a parsed path is two non-empty, slash-free segments with an integer first; the year is that integer and the slug the second segment verbatim; each error happens exactly on its own cause |
| Server.GetPathValuesComplete | main.go:166-182 | two such segments with an integer first are always accepted |
| Server.GetPathValuesRoundTrip | main.go:166-182 | the link `/<year>/<slug>`, with or without a trailing `/`, parses back to its year and slug |
| Server.HandleIndexSpec | main.go:146-159 | `/` serves the races; a path not found is one other than `/` that does not parse or whose year is outside 2014 to the current year; a details page is served only for such a parsed and valid path |
| Server.RaceLinkRoutes | main.go:184-203 | the page of every race of a served year whose slug is non-empty is reached at `/<year>/<slug>` |
| Server.EmptySlugNotRouted | main.go:146-203 | a race whose name has no ASCII letter or digit has the empty slug; its link `/<year>/` is one segment, so the parser gives the "Invalid values in request path" error and the index handler answers not found, although the generator writes that page to `<year>/index.html` |
| Server.GetAccessToken | main.go:35-61 | a failed select gives no token and changes nothing; a fresh token is handed out as it is; an expired one is refreshed with one request and written back, and each failure on the way gives its error and no token |
| GenHtml.PathBaseOfChild | cmd/genhtml/main.go:40 | the base name of `<dir>/<name>`, with or without a trailing `/`, is `name` |
| GenHtml.CurrWd | cmd/genhtml/main.go:34-45 | the working directory is accepted exactly when its base name is the project's name; otherwise the error is the project-root message or the lookup's own error |
| GenHtml.CurrWdAtRoot | cmd/genhtml/main.go:34-45 | the project root is accepted wherever it lives, with or without a trailing `/`; a subdirectory of it is not |
| GenHtml.OAuthFromEnv | cmd/genhtml/main.go:53-58 | the registration reads the client id and secret from the environment and has the fixed callback and scope |
| GenHtml.GetStravaAuth | cmd/genhtml/main.go:47-78 | a failed select is only logged and goes on with its record; that record is refreshed exactly when expired, keeping its athlete id, and written back; a refresh or update failure is returned |
| GenHtml.FailedSelectRefreshes | cmd/genhtml/main.go:47-60 | after a failed select the zero record, with its empty refresh token, is refreshed whenever `now` is after 1970 |
| GenHtml.Details | cmd/genhtml/main.go:139-143 | an index entry holds the race's name, its slug and its year |
| GenHtml.PagePathSpec | cmd/genhtml/main.go:146 | the joined page path splits back into its non-empty elements |
| GenHtml.RaceFilePathSpec | cmd/genhtml/main.go:146 | a race page is `<year>/<slug>/index.html`, or `<year>/index.html` when the slug is empty |
| GenHtml.RacesSpec | cmd/genhtml/main.go:133-136 | only races are kept, and every race of the feed is kept |
| GenHtml.RaceIndexAppend | cmd/genhtml/main.go:121-173 | the entries and pages of two runs of activities are those of the first run followed by those of the second |
| GenHtml.RaceIndexSnoc | cmd/genhtml/main.go:133-143 | one more activity adds one entry and one page when it is a race, and nothing otherwise |
| GenHtml.CollectRaces | cmd/genhtml/main.go:133-171 | the loop over one page gives that page's race entries and race pages, in feed order |
| GenHtml.CollectedStep | cmd/genhtml/main.go:124-143 | one more page extends what was collected by that page's entries and pages |
| GenHtml.AddPage | cmd/genhtml/main.go:133-143 | the body for one non-empty page extends what was collected for the pages before it by that page's race entries and pages |
| GenHtml.WalkPages | cmd/genhtml/main.go:121-173 | for the counter 1, 2, … the page `uint16(counter)` of 200 is requested up to the first empty one, so counter 2^16 asks for page 0; the request log is exactly those page numbers, in order; all earlier pages were non-empty; the result is the entries and pages of the races of those earlier pages, in order |
| NewToken.ClientAuthorization | cmd/newtoken.go:107-112 | the registration holds the client id and secret with the fixed callback and scope |
| NewToken.CallbackReply | cmd/newtoken.go:16-28 | an empty code fails with "missing code param"; otherwise the code is exchanged; every failure gives the zero response; success happens exactly when the code is not empty and the exchange succeeds |
| NewToken.GetAccessToken | cmd/newtoken.go:16-28 | no request is sent for an empty code, otherwise exactly one; the result is the callback's reply |
| NewToken.GetStravaClientCreds | cmd/newtoken.go:30-42 | the credentials succeed exactly when both variables are set; a missing id is reported before a missing secret, each with its own message |
| NewToken.NewDBStravaAuth | cmd/newtoken.go:85-92 | the stored record takes the three token fields and the athlete id of the response; it exists exactly when the response names an athlete |
| NewToken.NewDBStravaAuthRefreshed | cmd/newtoken.go:85-92 | when the response names the stored athlete, the record is the one the web server writes after a refresh |
| NewToken.FailedCallbackInsertsZeroRecord | cmd/newtoken.go:124-128 | after a failed callback the inserted record is the zero record, which does not exist |
| NewToken.RefreshWithoutAthleteUpdatesNothing | cmd/newtoken.go:129-134 | a refresh response without an athlete updates no stored row |
| NewToken.SelectProceedsSpec | cmd/newtoken.go:114-122 | the command continues after a found row or a "no rows" error; after any other failure it continues exactly when the text holds "no rows in result set" |
| NewToken.AthleteStepSpec | cmd/newtoken.go:140-161 | with no lookup error the athletes are kept; an error naming an empty result set inserts the response's athlete when it has a positive id; any other error stops with its message |
| NewToken.Run | cmd/newtoken.go:99-164 | bad environment or a failing select stops with its message and changes nothing; with no stored athlete the callback's response is inserted, even after the callback failed; otherwise one refresh is sent and its response written with an update; exactly one write happens, and its failure is reported |
| NewTokenMain.ClientFromEnv | cmd/newtoken/main.go:71-86 | the registration is built exactly when both variables are set; a missing id is reported before a missing secret, each with its own message |
| NewTokenMain.SameChecksAsCommand | cmd/newtoken/main.go:71-80 | the program accepts the same environments as the command and builds the same registration; only the missing-secret message differs |
| NewTokenMain.FailedCallbackStops | cmd/newtoken/main.go:88-93 | a failed callback never passes the access-token check; a passing response is the one the endpoint returned for the code |
| NewTokenMain.Run | cmd/newtoken/main.go:70-126 | without an access token nothing is written; a failing select other than "no rows" stops; otherwise the record is inserted when no athlete is stored and updated when one is; a write failure is reported |
| CmdServer.HandleIndex | cmd/server.go:14-28 | only `/` is served; a failing index query gives a server error; otherwise the index page lists the races the query returned |
| CmdServer.IndexAtSamePath | cmd/server.go:14-18 | the command's server and the web server of main.go serve the index at exactly the same path |
| CmdServer.ActivityIdSound | cmd/server.go:50-60 | an accepted path is two non-empty, slash-free segments; the id is the value of the second, all digits; the first segment is never looked at |
| CmdServer.ActivityIdRoundTrip | cmd/server.go:50-60 | `/<prefix>/<id>`, with or without a trailing `/`, gives back the id for every prefix |
| CmdServer.ActivityResponseSpec | cmd/server.go:49-67 | a path without an id is not found; a path with an id always renders a page, from the first race in table order with that id, or from the zero record when there is none or the lookup failed |
| CmdServer.HandleActivity | cmd/server.go:49-67 | the handler answers as the specification does for the store's races |

## Left out

- HTTP, JSON encoding and decoding, and its error texts: the token endpoint and the activity feed are given as functions. Their replies are taken as decoded.
- `Authorization.Url` and `Client`/`NewClient`: no routing decision depends on them.
- `GetActivity` and `SelectRaceByYearAndSlug`: a network request and an SQL lookup with no logic of their own.
- `handleRaceDetails` (main.go:88-116) beyond its routing by `handleIndex`: it is an HTTP handler, and its mapping of errors to statuses is not modelled. It answers 404 when the path does not parse or the race lookup fails, and 500 when `getAccessToken` or `GetActivity` fails.
- `DistanceInMiles`, `Pace`, `ActivityDistance`, `ActivityPace`: these use floating point.
- `MapboxURL`, and the `raceDetails` fields of a generated page other than its path: templates and their data are not modelled.
- Only the ASCII letters are lower-cased. Go's `strings.ToLower` also maps other Unicode letters.
- Templates, file creation, `os.MkdirAll`, logging, `log.Fatalln`, timing, the Postgres connection and `Ping`: these are I/O.
- The callback's HTTP server and its cancellation: the callback is taken to run once, with one code.
- `cmd/syncdb`, `cmd/fetch.go`, `cmd/root.go`, `cmd/genhtml.go`, `cmd/utils.go` and `page/page.go` are not part of this model.
- `AllRacesForIndex`, which `cmd/server.go` calls, is not defined in db/db.go. Its result is a parameter of `CmdServer.HandleIndex`.
- `db.IsEmptyResultSet`, which cmd/newtoken.go calls at lines 116 and 143, is not defined in db/db.go. The model takes it to be the substring test for the driver's "no rows in result set" text that cmd/newtoken/main.go:105 writes out inline (`Db.IsEmptyResultSet`). `NewToken.SelectProceedsSpec`, `NewToken.AthleteStepSpec` and the select branch of `NewToken.Run` rest on that reading.
- Several commands call the db functions without the connection argument, and `GetActivities` with positional arguments where the function takes a `ReqParams`. The model follows the evident intent: the calls use the in-memory store, and page requests have `After` unset.
- NewToken.Run: the athlete insert at cmd/newtoken.go:152-161 is not in the method body. The lookup before it never reports an error, so that code cannot run. `NewToken.AthleteStepSpec` states what the code would do for each lookup error.
- GenHtml.WalkPages: requires an empty page numbered 0 to 2^16 - 1. The 2^16th request asks for page 0, because of the `uint16(page)` wrap-around, and the walk stops there when page 0 is empty. A feed with no empty page at all is not modelled; there the Go loop never ends.
- A scan error in the middle of `SelectAllRaces`, and `rows.Err()`, are not modelled. The query either fails as a whole or returns every row.
- With `ORDER BY start_date_local DESC`, the model keeps races of equal start date in table order; Postgres leaves their order open. `LIMIT 1` is taken as the first row of the table.
- `StartDateLocal` is declared a string in `strava.Activity` but used as a time in the generator. The model gives each activity a start year and each stored race a Unix start time. `time.Date` is taken to keep the year unchanged.
- `path.Join` also cleans the path. The joined elements hold no `/` and no `.` element, so the cleaning is taken as the identity.
- `RefreshToken` returns no error when its request body cannot be encoded (strava/strava.go:184-188). A `map[string]string` always encodes, so that branch is not modelled.
