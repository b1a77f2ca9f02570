/**
 * cmd/genhtml/main.go: the static site generator's working-directory check, its credential
 * refresh, and the walk over the pages of the activity feed that collects the races and the path
 * of each race page. Templates, file creation and the floating-point fields are not modelled.
 */
module GenHtml {
  import opened Wrappers
  import opened Ints
  import opened Text
  import opened Slug
  import opened Strava
  import opened Db
  import opened Credentials
  import opened Env

  const ProjectName := "run-david-run"
  const DistDir := "dist"

  // ---------------------------------------------------------------------------------------------
  // The working directory.

  /** Go's `path.Base`: the last element after trailing slashes are removed; "." for "", "/" for slashes only. */
  function PathBase(p: string): string
  {
    if p == [] then "."
    else
      var parts := Split(TrimRight(p, '/'), '/');
      var last := parts[|parts| - 1];
      if last == [] then "/" else last
  }

  /** The base of `<dir>/<name>`, with or without a trailing '/', is `name`. */
  lemma PathBaseOfChild(dir: string, name: string)
    requires name != [] && '/' !in name
    ensures PathBase(dir + "/" + name) == name
    ensures PathBase(dir + "/" + name + "/") == name
  {
    var p := dir + "/" + name;
    assert name[|name| - 1] != '/';
    assert TrimRight(p, '/') == p;
    SplitLast(dir, '/', name);
    assert TrimRight(p + "/", '/') == TrimRight(p, '/');
  }

  /** `currWd`: the working directory (or the error getting it), accepted only when its base is the project's name. */
  function CurrWd(wd: Result<string, string>): (r: Result<string, string>)
    ensures r.Ok? <==> wd.Ok? && PathBase(wd.value) == ProjectName
    ensures r.Ok? ==> r.value == wd.value
    ensures wd.Ok? && PathBase(wd.value) != ProjectName ==> r == Err("must be called from project root")
  {
    match wd
    case Err(e) => Err(e)
    case Ok(w) => if PathBase(w) != ProjectName then Err("must be called from project root") else Ok(w)
  }

  /** The project's root is accepted wherever it lives; one of its subdirectories is not. */
  lemma CurrWdAtRoot(parent: string, sub: string)
    requires sub != [] && '/' !in sub && sub != ProjectName
    ensures CurrWd(Ok(parent + "/" + ProjectName)) == Ok(parent + "/" + ProjectName)
    ensures CurrWd(Ok(parent + "/" + ProjectName + "/")) == Ok(parent + "/" + ProjectName + "/")
    ensures CurrWd(Ok(parent + "/" + ProjectName + "/" + sub)).Err?
  {
    PathBaseOfChild(parent, ProjectName);
    PathBaseOfChild(parent + "/" + ProjectName, sub);
  }

  // ---------------------------------------------------------------------------------------------
  // The credential.

  /** The client registration, read from the environment. */
  function OAuthFromEnv(env: map<string, string>): (a: Authorization)
    ensures a.clientId == Getenv(env, "STRAVA_CLIENT_ID") && a.clientSecret == Getenv(env, "STRAVA_CLIENT_SECRET")
    ensures a.redirectUri == RedirectUri && a.scope == Scope
  {
    Authorization(Getenv(env, "STRAVA_CLIENT_ID"), Getenv(env, "STRAVA_CLIENT_SECRET"), RedirectUri, Scope)
  }

  /**
   * `getStravaAuth`: a failed select is only logged, and the record it gave back (the zero record)
   * goes on; it is refreshed exactly when it has expired, keeping its athlete id, and written back.
   */
  method GetStravaAuth(store: Store, env: map<string, string>, server: TokenServer, now: int,
                       selectFault: Option<string>, updateFault: Option<string>)
    returns (sa: StravaAuth, err: Option<string>)
    modifies store`authRows, server`received
    ensures var s0 := SelectAuth(old(store.authRows), selectFault).0;
      !s0.IsExpired(now) ==>
        sa == s0 && err == None &&
        store.authRows == old(store.authRows) && server.received == old(server.received)
    ensures var s0 := SelectAuth(old(store.authRows), selectFault).0;
      var req := RefreshRequest(OAuthFromEnv(env), s0.refreshToken);
      var reply := server.answer(req);
      s0.IsExpired(now) ==>
        server.received == old(server.received) + [req] &&
        (reply.err.Some? ==> sa == s0 && err == reply.err && store.authRows == old(store.authRows)) &&
        (reply.err.None? ==> sa == Refreshed(s0, reply.resp) && sa.athleteId == s0.athleteId) &&
        (reply.err.None? && updateFault.Some? ==> err == updateFault && store.authRows == old(store.authRows)) &&
        (reply.err.None? && updateFault.None? ==>
          err == None && store.authRows == UpdatedAuthRows(old(store.authRows), sa))
  {
    var selErr;
    sa, selErr := store.SelectStravaAuth(selectFault);
    var oauth := OAuthFromEnv(env);
    if sa.IsExpired(now) {
      var tkResp, refreshErr := RefreshToken(oauth, server, sa.refreshToken);
      if refreshErr.Some? {
        return sa, refreshErr;
      }
      sa := Refreshed(sa, tkResp);
      var updErr := store.UpdateStravaAuth(sa, updateFault);
      if updErr.Some? {
        return sa, Some(ErrorText(updErr.value));
      }
    }
    return sa, None;
  }

  /** After a failed select the zero record is refreshed, with an empty refresh token, whenever `now` is after 1970. */
  lemma FailedSelectRefreshes(rows: seq<StravaAuth>, fault: string, now: int)
    ensures var s0 := SelectAuth(rows, Some(fault)).0;
      s0 == ZeroAuth && (s0.IsExpired(now) <==> now > 0) && s0.refreshToken == "" && !s0.Exists()
  {
    ZeroAuthExpired(now);
  }

  // ---------------------------------------------------------------------------------------------
  // The index entries and the race pages.

  datatype IndexDetails = IndexDetails(name: string, nameSlug: string, raceYear: int)

  function Details(a: Activity): (d: IndexDetails)
    ensures d.name == a.name && d.nameSlug == a.NameSlugified() && d.raceYear == a.startYear
  {
    IndexDetails(a.name, a.NameSlugified(), a.startYear)
  }

  /** The file name of every generated page. */
  const IndexFile := "index.html"

  /**
   * `path.Join(year, slug, file)`. Join leaves out an empty element; the others hold no '/' and
   * no "." element, so its cleaning changes nothing.
   */
  function PagePath(year: string, slug: string, file: string): string
  {
    if slug == [] then year + "/" + file else year + "/" + slug + "/" + file
  }

  /** The page path splits back into its non-empty elements. */
  lemma PagePathSpec(year: string, slug: string, file: string)
    requires '/' !in year && '/' !in slug && '/' !in file
    ensures Split(PagePath(year, slug, file), '/') ==
      if slug == [] then [year, file] else [year, slug, file]
  {
    if slug == [] {
      SplitAtSeparator(year, '/', file);
      SplitNoSeparator(file, '/');
    } else {
      SplitThree(year, slug, file, '/');
      assert year + "/" + slug + "/" + file == year + ['/'] + slug + ['/'] + file;
    }
  }

  /** The path, under `dist`, of the page of a race. */
  function RaceFilePath(a: Activity): string
  {
    PagePath(IntToDecimal(a.startYear), a.NameSlugified(), IndexFile)
  }

  /** The page of a race is `<year>/<slug>/index.html`; a race whose slug is empty lands in the year's directory. */
  lemma RaceFilePathSpec(a: Activity)
    ensures var slug := a.NameSlugified();
      Split(RaceFilePath(a), '/') ==
        if slug == [] then [IntToDecimal(a.startYear), IndexFile]
        else [IntToDecimal(a.startYear), slug, IndexFile]
  {
    SlugifyIsSlug(a.name);
    IntToDecimalChars(a.startYear, '/');
    assert '/' !in IndexFile;
    PagePathSpec(IntToDecimal(a.startYear), a.NameSlugified(), IndexFile);
  }

  /** The races among `acts`, in order. */
  function Races(acts: seq<Activity>): seq<Activity>
  {
    if acts == [] then [] else (if acts[0].IsRace() then [acts[0]] else []) + Races(acts[1..])
  }

  /** `f` applied to each element, in order. */
  function MapSeq<T>(f: Activity -> T, rs: seq<Activity>): (r: seq<T>)
    ensures |r| == |rs|
  {
    if rs == [] then [] else [f(rs[0])] + MapSeq(f, rs[1..])
  }

  /** The index entries of the races among `acts`, in order. */
  function RaceIndex(acts: seq<Activity>): seq<IndexDetails>
  {
    MapSeq(Details, Races(acts))
  }

  /** The race pages written for `acts`, in order. */
  function RaceFiles(acts: seq<Activity>): seq<string>
  {
    MapSeq(RaceFilePath, Races(acts))
  }

  lemma {:induction false} RacesAppend(x: seq<Activity>, y: seq<Activity>)
    ensures Races(x + y) == Races(x) + Races(y)
    decreases |x|
  {
    if x == [] {
      assert x + y == y;
    } else {
      var head := if x[0].IsRace() then [x[0]] else [];
      assert (x + y)[0] == x[0] && (x + y)[1..] == x[1..] + y;
      assert Races(x + y) == head + Races(x[1..] + y);
      RacesAppend(x[1..], y);
      assert Races(x) == head + Races(x[1..]);
    }
  }

  /** Only races are kept, and every race is kept. */
  lemma {:induction false} RacesSpec(acts: seq<Activity>)
    ensures forall a :: a in Races(acts) ==> a.IsRace() && a in acts
    ensures forall a :: a in acts && a.IsRace() ==> a in Races(acts)
    decreases |acts|
  {
    if acts != [] {
      RacesSpec(acts[1..]);
      assert forall a :: a in acts[1..] ==> a in acts;
      assert acts == [acts[0]] + acts[1..];
    }
  }

  lemma {:induction false} MapSeqAppend<T>(f: Activity -> T, x: seq<Activity>, y: seq<Activity>)
    ensures MapSeq(f, x + y) == MapSeq(f, x) + MapSeq(f, y)
    decreases |x|
  {
    if x == [] {
      assert x + y == y;
    } else {
      assert (x + y)[1..] == x[1..] + y;
      MapSeqAppend(f, x[1..], y);
    }
  }

  /** The entries and the pages of two runs of activities are those of the first, then those of the second. */
  lemma RaceIndexAppend(x: seq<Activity>, y: seq<Activity>)
    ensures RaceIndex(x + y) == RaceIndex(x) + RaceIndex(y)
    ensures RaceFiles(x + y) == RaceFiles(x) + RaceFiles(y)
  {
    RacesAppend(x, y);
    MapSeqAppend(Details, Races(x), Races(y));
    MapSeqAppend(RaceFilePath, Races(x), Races(y));
  }

  /** One more activity adds one entry and one page when it is a race, and nothing otherwise. */
  lemma RaceIndexSnoc(x: seq<Activity>, a: Activity)
    ensures RaceIndex(x + [a]) == RaceIndex(x) + (if a.IsRace() then [Details(a)] else [])
    ensures RaceFiles(x + [a]) == RaceFiles(x) + (if a.IsRace() then [RaceFilePath(a)] else [])
  {
    RaceIndexAppend(x, [a]);
    assert [a][1..] == [];
    if a.IsRace() {
      assert Races([a]) == [a];
      assert MapSeq(Details, [a]) == [Details(a)];
      assert MapSeq(RaceFilePath, [a]) == [RaceFilePath(a)];
    } else {
      assert Races([a]) == [];
    }
  }

  // ---------------------------------------------------------------------------------------------
  // The page walk.

  const PerPage: U8 := 200

  datatype PageRequest = PageRequest(page: U16, perPage: U8)

  /** What a page request gives back: the decoded activities and the error, if any. */
  datatype Page = Page(activities: seq<Activity>, err: Option<string>)

  /** The activities of pages 1 to n, in order. */
  function PagesUpTo(fetch: PageRequest -> Page, n: nat): seq<Activity>
    requires n <= MaxUint16
  {
    if n == 0 then [] else PagesUpTo(fetch, n - 1) + fetch(PageRequest(n, PerPage)).activities
  }

  /** The inner loop over one page: each race gets an index entry and a page, in order. */
  method CollectRaces(activities: seq<Activity>) returns (races: seq<IndexDetails>, files: seq<string>)
    ensures races == RaceIndex(activities)
    ensures files == RaceFiles(activities)
  {
    races, files := [], [];
    var i := 0;
    while i < |activities|
      invariant 0 <= i <= |activities|
      invariant races == RaceIndex(activities[..i])
      invariant files == RaceFiles(activities[..i])
    {
      var a := activities[i];
      RaceIndexSnoc(activities[..i], a);
      assert activities[..i + 1] == activities[..i] + [a];
      if a.IsRace() {
        races := races + [Details(a)];
        files := files + [RaceFilePath(a)];
      }
      i := i + 1;
    }
    assert activities[..i] == activities;
  }

  /** What the walk has collected after the pages 1 to n. */
  predicate Collected(fetch: PageRequest -> Page, n: nat, races: seq<IndexDetails>, files: seq<string>)
    requires n <= MaxUint16
  {
    races == RaceIndex(PagesUpTo(fetch, n)) && files == RaceFiles(PagesUpTo(fetch, n))
  }

  /** One more page of activities extends what was collected by that page's entries and files. */
  lemma CollectedStep(fetch: PageRequest -> Page, n: nat, races: seq<IndexDetails>, files: seq<string>,
                      pageRaces: seq<IndexDetails>, pageFiles: seq<string>)
    requires n < MaxUint16 && Collected(fetch, n, races, files)
    requires pageRaces == RaceIndex(fetch(PageRequest(n + 1, PerPage)).activities)
    requires pageFiles == RaceFiles(fetch(PageRequest(n + 1, PerPage)).activities)
    ensures Collected(fetch, n + 1, races + pageRaces, files + pageFiles)
  {
    RaceIndexAppend(PagesUpTo(fetch, n), fetch(PageRequest(n + 1, PerPage)).activities);
  }

  /** The body of the feed loop for one non-empty page: its races are added to what was collected. */
  method AddPage(fetch: PageRequest -> Page, page: nat, races: seq<IndexDetails>, files: seq<string>)
    returns (races': seq<IndexDetails>, files': seq<string>)
    requires 1 <= page <= MaxUint16 && Collected(fetch, page - 1, races, files)
    ensures Collected(fetch, page, races', files')
  {
    var pageRaces, pageFiles := CollectRaces(fetch(PageRequest(page, PerPage)).activities);
    CollectedStep(fetch, page - 1, races, files, pageRaces, pageFiles);
    races', files' := races + pageRaces, files + pageFiles;
  }

  /** Every page before page n had activities. */
  predicate NonEmptyBefore(fetch: PageRequest -> Page, n: nat)
    requires n <= MaxUint16 + 1
  {
    forall k :: 1 <= k < n ==> fetch(PageRequest(k, PerPage)).activities != []
  }

  /** A non-empty page n extends the run of non-empty pages by one. */
  lemma NonEmptyBeforeStep(fetch: PageRequest -> Page, n: nat)
    requires 1 <= n <= MaxUint16 && NonEmptyBefore(fetch, n)
    requires fetch(PageRequest(n, PerPage)).activities != []
    ensures NonEmptyBefore(fetch, n + 1)
  {
  }

  /** The page numbers sent for the loop counters 1, 2, …, n, in that order, each as a `uint16`. */
  predicate PagesOneTo(requested: seq<nat>, n: nat)
  {
    |requested| == n && forall j :: 0 <= j < n ==> requested[j] == Uint16Of(j + 1)
  }

  /** Requesting the page of counter n + 1 next extends the run of requested pages. */
  lemma PagesOneToStep(requested: seq<nat>, n: nat)
    requires PagesOneTo(requested, n)
    ensures PagesOneTo(requested + [Uint16Of(n + 1)], n + 1)
  {
  }

  /**
   * The loop over the feed: for the counter 1, 2, … the page `uint16(counter)` of 200 activities is
   * requested until the first empty one, at counter `pages`; a fetch error is only logged. `last`
   * is an empty page of the feed, between 0 and 2^16 - 1. Counters below 2^16 ask for themselves,
   * and counter 2^16 wraps around to page 0, so the walk stops at counter `last`, or at 2^16 when
   * `last` is 0, at the latest. The result is the index entries and the page paths of the races of
   * the pages before the empty one, in feed order. `requested` logs the page numbers sent: exactly
   * those of the counters 1 to `pages`, in order, so nothing is requested after the first empty page.
   */
  method WalkPages(fetch: PageRequest -> Page, ghost last: nat)
    returns (races: seq<IndexDetails>, files: seq<string>, pages: nat, ghost requested: seq<nat>)
    requires last <= MaxUint16 && fetch(PageRequest(last, PerPage)).activities == []
    ensures 1 <= pages <= (if last == 0 then MaxUint16 + 1 else last)
    ensures PagesOneTo(requested, pages)
    ensures fetch(PageRequest(Uint16Of(pages), PerPage)).activities == []
    ensures forall k :: 1 <= k < pages ==> fetch(PageRequest(k, PerPage)).activities != []
    ensures Collected(fetch, pages - 1, races, files)
  {
    ghost var stop := if last == 0 then MaxUint16 + 1 else last;
    races, files := [], [];
    requested := [];
    var page := 1;
    while true
      invariant 1 <= page <= stop
      invariant PagesOneTo(requested, page - 1)
      invariant NonEmptyBefore(fetch, page)
      invariant Collected(fetch, page - 1, races, files)
      decreases stop - page
    {
      PagesOneToStep(requested, page - 1);
      requested := requested + [Uint16Of(page)];
      var activities := fetch(PageRequest(Uint16Of(page), PerPage)).activities;
      if |activities| == 0 {
        return races, files, page, requested;
      }
      assert page != stop;
      NonEmptyBeforeStep(fetch, page);
      races, files := AddPage(fetch, page, races, files);
      page := page + 1;
    }
  }
}
