/**
 * `main`: one reminder run. After the connectivity checks it runs the daily
 * watch-status check when it is due, ingests the requests the request
 * manager reports, registers the addresses of legacy requests, refreshes up
 * to 10 titles, groups the overdue requests by recipient and serves them.
 * An exception in any step but the watch check ends the run.
 */
module Run {
  import opened Wrappers
  import opened Stamps
  import opened Records
  import Users
  import opened Tables
  import opened Send
  import opened Maintenance
  import opened Ingest
  import opened Grouping
  import opened Serve
  import opened ServeFacts

  /** The readings of `datetime.now()` that the steps of a run take. */
  datatype Clock = Clock(start: int, watchCheck: int, ingest: int, refresh: int, overdue: int, serve: int)

  /**
   * What the outside world answers during a run: whether both services are
   * reachable and configured, the clock, the watch history of each sent row
   * the watch check visits, the request manager's list (or that fetching it
   * raised), the answers of the metadata refresh, and those of each attempt.
   */
  datatype Inputs = Inputs(
    reachable: bool,
    clock: Clock,
    watchAnswers: nat -> Reply<Option<int>>,
    upstream: Reply<seq<Upstream>>,
    refresh: RefreshOracles,
    oracles: nat -> Oracles)

  /** The step whose exception ended a run. */
  datatype Stage = Fetching | Ingesting | Registering

  /** How a run ended, and the watch-check counts when the check ran. */
  datatype Ended =
    | Unreachable
    | Failed(stats: Option<Stats>, at: Stage)
    | Finished(stats: Option<Stats>, updates: map<int, string>, serving: Progress)

  /** The refresh's pool size and its limit on titles, as `main` passes them. */
  const RefreshPool := 50
  const RefreshLimit := 10

  /** `now - timedelta(days=DAYS_SINCE_REQUEST)`. */
  function Threshold(cfg: Config, now: int): int {
    now - cfg.daysSinceRequest * Day
  }

  /** The state `check_unwatched_emails_status` leaves. */
  function WatchChecked(db: Db, now: int, answers: nat -> Reply<Option<int>>): Db {
    var pending := Unwatched(db.sent);
    db.(sent := Stamped(db.sent, pending, Verdicts(pending, answers), |pending|), lastWatchCheck := Some(Iso(now)))
  }

  /** Steps 1 to 3 ended: either the run stopped, or it is ready to serve. */
  datatype Prepared =
    | Stopped(db: Db, ended: Ended)
    | Ready(db: Db, stats: Option<Stats>, updates: map<int, string>)

  /** Steps 1 to 3 of `main`: the watch check when due, then the rest. */
  function Prepare(db: Db, cfg: Config, hashOf: string -> int, inp: Inputs): Prepared {
    if !inp.reachable then Stopped(db, Unreachable)
    else if ShouldRunWatchStatusCheck(db.lastWatchCheck, inp.clock.start) then
      var stats := Tally(Verdicts(Unwatched(db.sent), inp.watchAnswers));
      Fetched(WatchChecked(db, inp.clock.watchCheck, inp.watchAnswers), Some(stats), cfg, hashOf, inp)
    else Fetched(db, None, cfg, hashOf, inp)
  }

  /** Steps 2 and 3 of `main`: ingestion, the legacy registration and the refresh. */
  function Fetched(db: Db, stats: Option<Stats>, cfg: Config, hashOf: string -> int, inp: Inputs): Prepared {
    match inp.upstream
    case Raised => Stopped(db, Ended.Failed(stats, Fetching))
    case Returned(ups) =>
      var ingested := IngestAll(db, ups, inp.clock.ingest, hashOf);
      var db2 := ingested.0;
      if ingested.1.Raised? then Stopped(db2, Ended.Failed(stats, Ingesting))
      else
        var legacy := EnsureAll(db2.users, db2.requests, hashOf, 0);
        var db3 := db2.(users := legacy.users);
        if legacy.result.Raised? then Stopped(db3, Ended.Failed(stats, Registering))
        else
          var refreshed := Refresh(db3.requests, RefreshLimit, RefreshPool, Threshold(cfg, inp.clock.refresh), inp.refresh);
          Ready(db3.(requests := refreshed.0), stats, refreshed.1)
  }

  /** The serving environment of a run. */
  function EnvOf(cfg: Config, hashOf: string -> int, inp: Inputs, updates: map<int, string>): Env {
    Env(cfg, updates, inp.clock.serve, hashOf, inp.oracles)
  }

  /** Step 4 of `main` after steps 1 to 3: group the overdue requests and serve the user snapshot. */
  function Serving(db: Db, cfg: Config, hashOf: string -> int, inp: Inputs, updates: map<int, string>): State {
    var groups := Grouped(db.requests, Threshold(cfg, inp.clock.overdue));
    ServeFrom(State(db, Progress(groups, 0, 0, [], Running)), Snapshot(db.users), Serve.Visit(EnvOf(cfg, hashOf, inp, updates)), 0)
  }

  /** One run of `main`: the state it leaves and how it ended. */
  function RunOnce(db: Db, cfg: Config, hashOf: string -> int, inp: Inputs): (Db, Ended) {
    match Prepare(db, cfg, hashOf, inp)
    case Stopped(db1, ended) => (db1, ended)
    case Ready(db1, stats, updates) =>
      var s := Serving(db1, cfg, hashOf, inp, updates);
      (s.db, Finished(stats, updates, s.p))
  }

  /** Steps 1 to 3 on the store. */
  method PrepareOn(st: Store, cfg: Config, hashOf: string -> int, inp: Inputs) returns (prep: Prepared)
    modifies st
    ensures prep == Prepare(old(st.Db()), cfg, hashOf, inp) && prep.db == st.Db()
  {
    if !inp.reachable {
      return Stopped(st.Db(), Unreachable);
    }
    var stats: Option<Stats> := None;
    if ShouldRunWatchStatusCheck(st.lastWatchCheck, inp.clock.start) {
      var counted := CheckUnwatched(st, inp.clock.watchCheck, inp.watchAnswers);
      stats := Some(counted);
    }
    if inp.upstream.Raised? {
      return Stopped(st.Db(), Ended.Failed(stats, Fetching));
    }
    var ingested := IngestRequests(st, inp.upstream.value, inp.clock.ingest, hashOf);
    if ingested.Raised? {
      return Stopped(st.Db(), Ended.Failed(stats, Ingesting));
    }
    var legacy := EnsureLegacyUsers(st, hashOf);
    if legacy.Raised? {
      return Stopped(st.Db(), Ended.Failed(stats, Registering));
    }
    var updates := RefreshMetadata(st, RefreshLimit, RefreshPool, Threshold(cfg, inp.clock.refresh), inp.refresh);
    return Ready(st.Db(), stats, updates);
  }

  /** `main` on the store. */
  method RunReminders(st: Store, cfg: Config, hashOf: string -> int, inp: Inputs) returns (ended: Ended)
    modifies st
    ensures RunOnce(old(st.Db()), cfg, hashOf, inp) == (st.Db(), ended)
  {
    var prep := PrepareOn(st, cfg, hashOf, inp);
    if prep.Stopped? {
      return prep.ended;
    }
    var groups := GroupOverdue(st.requests, Threshold(cfg, inp.clock.overdue));
    var snapshot := Snapshot(st.users);
    var p := ServeUsers(st, groups, snapshot, EnvOf(cfg, hashOf, inp, prep.updates));
    return Finished(prep.stats, prep.updates, p);
  }

  /**
   * Steps 2 and 3 keep the registry valid and only add or back-fill
   * documents; they write neither the sent table nor `last_watch_check`.
   */
  lemma FetchedSpec(db: Db, stats: Option<Stats>, cfg: Config, hashOf: string -> int, inp: Inputs)
    requires Users.RegistryValid(db.users)
    ensures var p := Fetched(db, stats, cfg, hashOf, inp);
            && Users.RegistryValid(p.db.users) && Users.OnlyTouched(db.users, p.db.users)
            && p.db.sent == db.sent && p.db.lastWatchCheck == db.lastWatchCheck
            && (p.Stopped? ==> p.ended.Failed? && p.ended.stats == stats)
  {
    var p := Fetched(db, stats, cfg, hashOf, inp);
    match inp.upstream
    case Raised =>
      assert p == Stopped(db, Ended.Failed(stats, Fetching));
      Users.OnlyTouchedRefl(db.users);
    case Returned(ups) =>
      var ingested := IngestAll(db, ups, inp.clock.ingest, hashOf);
      IngestTouches(db, ups, inp.clock.ingest, hashOf);
      var db2 := ingested.0;
      if ingested.1.Raised? {
        assert p == Stopped(db2, Ended.Failed(stats, Ingesting));
      } else {
        var legacy := EnsureAll(db2.users, db2.requests, hashOf, 0);
        EnsureAllTouches(db2.users, db2.requests, hashOf, 0);
        Users.OnlyTouchedTransitive(db.users, db2.users, legacy.users);
        var db3 := db2.(users := legacy.users);
        if legacy.result.Raised? {
          assert p == Stopped(db3, Ended.Failed(stats, Registering));
        } else {
          var refreshed := Refresh(db3.requests, RefreshLimit, RefreshPool, Threshold(cfg, inp.clock.refresh), inp.refresh);
          assert p == Ready(db3.(requests := refreshed.0), stats, refreshed.1);
        }
      }
  }

  /**
   * Steps 1 to 3 keep the registry valid and only add or back-fill
   * documents; an unreachable service leaves the state as it was; the watch
   * check stamps `last_watch_check` exactly when it is due, and no later step
   * writes the sent table or the stamp.
   */
  lemma PrepareSpec(db: Db, cfg: Config, hashOf: string -> int, inp: Inputs)
    requires Users.RegistryValid(db.users)
    ensures var p := Prepare(db, cfg, hashOf, inp);
            && Users.RegistryValid(p.db.users) && Users.OnlyTouched(db.users, p.db.users)
            && (p.Stopped? ==> !p.ended.Finished?)
            && (!inp.reachable ==> p == Stopped(db, Unreachable))
            && (inp.reachable && ShouldRunWatchStatusCheck(db.lastWatchCheck, inp.clock.start) ==>
                  && p.db.lastWatchCheck == Some(Iso(inp.clock.watchCheck))
                  && p.db.sent == WatchChecked(db, inp.clock.watchCheck, inp.watchAnswers).sent)
            && (inp.reachable && !ShouldRunWatchStatusCheck(db.lastWatchCheck, inp.clock.start) ==>
                  p.db.lastWatchCheck == db.lastWatchCheck && p.db.sent == db.sent)
  {
    if !inp.reachable {
      Users.OnlyTouchedRefl(db.users);
    } else if ShouldRunWatchStatusCheck(db.lastWatchCheck, inp.clock.start) {
      var stats := Tally(Verdicts(Unwatched(db.sent), inp.watchAnswers));
      FetchedSpec(WatchChecked(db, inp.clock.watchCheck, inp.watchAnswers), Some(stats), cfg, hashOf, inp);
    } else {
      FetchedSpec(db, None, cfg, hashOf, inp);
    }
  }

  /**
   * A whole run keeps the registry valid. When it gets to the end, every
   * request it tried was overdue at the serving threshold, every request it
   * sent was eligible and had an address, and in debug mode the serving
   * writes no sent row and sends at most `DEBUG_MAX_EMAILS` mails, the
   * counter matching the sends; outside debug mode the cap never ends it.
   * When no two documents of the prepared registry share a recipient key,
   * each recipient key receives at most one reminder in the run.
   */
  lemma RunSpec(db: Db, cfg: Config, hashOf: string -> int, inp: Inputs)
    requires Users.RegistryValid(db.users)
    ensures Users.RegistryValid(RunOnce(db, cfg, hashOf, inp).0.users)
    ensures var (d, e) := RunOnce(db, cfg, hashOf, inp);
            e.Finished? ==>
              && (forall x :: x in e.serving.log ==> Overdue(x.rec, Threshold(cfg, inp.clock.overdue)))
              && SentWereEligible(e.serving.log)
              && (cfg.debugMode ==> d.sent == Prepare(db, cfg, hashOf, inp).db.sent
                                    && SentCount(e.serving.log) == e.serving.debugSent <= Cap(cfg))
              && (!cfg.debugMode ==> e.serving.halt != CapReached)
              && (DistinctKeys(Snapshot(Prepare(db, cfg, hashOf, inp).db.users)) ==> OneSendPerKey(e.serving.log))
  {
    PrepareSpec(db, cfg, hashOf, inp);
    match Prepare(db, cfg, hashOf, inp)
    case Stopped(db1, ended) =>
      assert RunOnce(db, cfg, hashOf, inp) == (db1, ended);
    case Ready(db1, stats, updates) =>
      var env := EnvOf(cfg, hashOf, inp, updates);
      var threshold := Threshold(cfg, inp.clock.overdue);
      var s := Serving(db1, cfg, hashOf, inp, updates);
      assert s == ServeFrom(State(db1, Progress(Grouped(db1.requests, threshold), 0, 0, [], Running)), Snapshot(db1.users), Serve.Visit(env), 0);
      assert RunOnce(db, cfg, hashOf, inp) == (s.db, Finished(stats, updates, s.p));
      ServeSpec(db1, db1.requests, threshold, Snapshot(db1.users), env);
  }
}
