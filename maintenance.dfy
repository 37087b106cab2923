/**
 * The two housekeeping passes of a run: `check_unwatched_emails_status`,
 * which stamps a watch date on sent rows whose title the recipient has since
 * watched, and `refresh_metadata_for_recent_unknowns`, which looks up titles
 * for overdue requests still named "Unknown". Watch history, metadata and the
 * clock are inputs indexed by the position of the row being visited.
 */
module Maintenance {
  import opened Wrappers
  import opened Stamps
  import opened Records
  import opened Sorting
  import opened Tables

  // ---------------------------------------------------------------------
  // check_unwatched_emails_status
  // ---------------------------------------------------------------------

  /** The counters the check returns. */
  datatype Stats = Stats(checked: nat, watched: nat, failed: nat)

  /** What the check makes of one pending row. */
  datatype Verdict = Incomplete | Unseen | SeenAt(at: int) | Failed

  /** A row without a Plex user name, rating key or media type is skipped (but still counted as checked). */
  predicate Unqueryable(row: SentRow) {
    row.plexUsername == "" || row.ratingKey == "" || row.mediaType == ""
  }

  /**
   * The verdict on one row from the watch-history answer: `Some(at)` is a
   * non-empty history whose watch instant (or the fallback clock) is `at`,
   * `None` an empty history, `Raised` a failed lookup.
   */
  function VerdictOf(row: SentRow, answer: Reply<Option<int>>): Verdict {
    if Unqueryable(row) then Incomplete
    else match answer
      case Raised => Failed
      case Returned(None) => Unseen
      case Returned(Some(at)) => SeenAt(at)
  }

  /** The snapshot the check walks: the rows without a watch date, in store order. */
  function Unwatched(rows: seq<SentRow>): (r: seq<SentRow>)
    ensures |r| <= |rows|
    ensures forall x :: x in r <==> x in rows && !Truthy(x.dateWatched)
  {
    if rows == [] then []
    else
      var rest := Unwatched(rows[1..]);
      assert forall x :: x in rows <==> x == rows[0] || x in rows[1..];
      if !Truthy(rows[0].dateWatched) then [rows[0]] + rest else rest
  }

  function Verdicts(pending: seq<SentRow>, answers: nat -> Reply<Option<int>>): (vs: seq<Verdict>)
    ensures |vs| == |pending|
  {
    seq(|pending|, k requires 0 <= k < |pending| => VerdictOf(pending[k], answers(k)))
  }

  /** The counters after the verdicts `vs`: one check per row, one watch or failure per answered row. */
  function Tally(vs: seq<Verdict>): (t: Stats)
    ensures t.checked == |vs|
    ensures t.watched + t.failed <= t.checked
    ensures (forall k :: 0 <= k < |vs| ==> vs[k].Incomplete?) ==> t.watched == 0 && t.failed == 0
  {
    if vs == [] then Stats(0, 0, 0)
    else Counted(Tally(vs[..|vs| - 1]), vs[|vs| - 1])
  }

  /** The rows of `vs` with a watch hit. */
  ghost function SeenRows(vs: seq<Verdict>): set<int> {
    set k | 0 <= k < |vs| && vs[k].SeenAt?
  }

  /** The rows of `vs` whose lookup failed. */
  ghost function FailedRows(vs: seq<Verdict>): set<int> {
    set k | 0 <= k < |vs| && vs[k].Failed?
  }

  /** One more verdict adds its row to the watch hits exactly when it is one. */
  lemma SeenRowsSnoc(vs: seq<Verdict>)
    requires vs != []
    ensures |SeenRows(vs)| == |SeenRows(vs[..|vs| - 1])| + (if vs[|vs| - 1].SeenAt? then 1 else 0)
  {
    var n := |vs| - 1;
    assert SeenRows(vs) == SeenRows(vs[..n]) + (if vs[n].SeenAt? then {n} else {});
    assert n !in SeenRows(vs[..n]);
  }

  /** One more verdict adds its row to the failed lookups exactly when it is one. */
  lemma FailedRowsSnoc(vs: seq<Verdict>)
    requires vs != []
    ensures |FailedRows(vs)| == |FailedRows(vs[..|vs| - 1])| + (if vs[|vs| - 1].Failed? then 1 else 0)
  {
    var n := |vs| - 1;
    assert FailedRows(vs) == FailedRows(vs[..n]) + (if vs[n].Failed? then {n} else {});
    assert n !in FailedRows(vs[..n]);
  }

  /** `watched` counts exactly the rows with a watch hit, and `failed` exactly the failed lookups. */
  lemma {:induction false} TallyCounts(vs: seq<Verdict>)
    ensures Tally(vs).watched == |SeenRows(vs)|
    ensures Tally(vs).failed == |FailedRows(vs)|
  {
    if vs != [] {
      TallyCounts(vs[..|vs| - 1]);
      SeenRowsSnoc(vs);
      FailedRowsSnoc(vs);
    }
  }

  /** The counters after one more verdict `v`. */
  function Counted(t: Stats, v: Verdict): Stats {
    Stats(t.checked + 1, t.watched + (if v.SeenAt? then 1 else 0), t.failed + (if v.Failed? then 1 else 0))
  }

  /** The sent table after the first `n` pending rows were visited: each watched pair gets its watch date. */
  function Stamped(rows: seq<SentRow>, pending: seq<SentRow>, vs: seq<Verdict>, n: nat): seq<SentRow>
    requires n <= |pending| == |vs|
  {
    if n == 0 then rows
    else
      var prev := Stamped(rows, pending, vs, n - 1);
      if vs[n - 1].SeenAt? then SetDateWatched(prev, pending[n - 1].email, pending[n - 1].tmdbId, vs[n - 1].at)
      else prev
  }

  /** The check writes only watch dates: every row keeps its other fields and its place. */
  lemma {:induction false} StampedOnlyDates(rows: seq<SentRow>, pending: seq<SentRow>, vs: seq<Verdict>, n: nat)
    requires n <= |pending| == |vs|
    ensures |Stamped(rows, pending, vs, n)| == |rows|
    ensures forall i :: 0 <= i < |rows| ==>
              Stamped(rows, pending, vs, n)[i] == rows[i].(dateWatched := Stamped(rows, pending, vs, n)[i].dateWatched)
  {
    if n > 0 {
      StampedOnlyDates(rows, pending, vs, n - 1);
    }
  }

  /** A row whose pair no watched pending row shares is left exactly as it was. */
  lemma {:induction false} StampedUntouched(rows: seq<SentRow>, pending: seq<SentRow>, vs: seq<Verdict>, n: nat, i: nat)
    requires n <= |pending| == |vs| && i < |rows|
    requires forall j :: 0 <= j < n && vs[j].SeenAt? ==> !RowFor(rows[i], pending[j].email, pending[j].tmdbId)
    ensures |Stamped(rows, pending, vs, n)| == |rows|
    ensures Stamped(rows, pending, vs, n)[i] == rows[i]
  {
    StampedOnlyDates(rows, pending, vs, n);
    if n > 0 {
      StampedUntouched(rows, pending, vs, n - 1, i);
    }
  }

  /**
   * A row sharing its (address, TMDB id) pair with a watched pending row ends
   * with the watch date of the last such pending row.
   */
  lemma {:induction false} StampedLast(rows: seq<SentRow>, pending: seq<SentRow>, vs: seq<Verdict>, n: nat, i: nat, j: nat)
    requires n <= |pending| == |vs| && i < |rows| && j < n
    requires vs[j].SeenAt? && RowFor(rows[i], pending[j].email, pending[j].tmdbId)
    requires forall j2 :: j < j2 < n && vs[j2].SeenAt? ==> !RowFor(rows[i], pending[j2].email, pending[j2].tmdbId)
    ensures |Stamped(rows, pending, vs, n)| == |rows|
    ensures Stamped(rows, pending, vs, n)[i].dateWatched == Some(Iso(vs[j].at))
  {
    StampedOnlyDates(rows, pending, vs, n);
    StampedOnlyDates(rows, pending, vs, n - 1);
    var prev := Stamped(rows, pending, vs, n - 1);
    assert RowFor(prev[i], rows[i].email, rows[i].tmdbId);
    if j < n - 1 {
      StampedLast(rows, pending, vs, n - 1, i, j);
    }
  }

  /**
   * `check_unwatched_emails_status`: records `now` as the time of the last
   * check, then visits every row that had no watch date, counting it and,
   * when its history is non-empty, stamping the watch date on its pair.
   */
  method CheckUnwatched(st: Store, now: int, answers: nat -> Reply<Option<int>>) returns (stats: Stats)
    modifies st
    ensures stats == Tally(Verdicts(Unwatched(old(st.sent)), answers))
    ensures st.sent == Stamped(old(st.sent), Unwatched(old(st.sent)), Verdicts(Unwatched(old(st.sent)), answers),
                               |Unwatched(old(st.sent))|)
    ensures st.lastWatchCheck == Some(Iso(now))
    ensures st.requests == old(st.requests) && st.users == old(st.users)
  {
    st.lastWatchCheck := Some(Iso(now));
    var pending := Unwatched(st.sent);
    stats := VisitAll(st, pending, answers);
  }

  /** The loop over the pending rows. */
  method VisitAll(st: Store, pending: seq<SentRow>, answers: nat -> Reply<Option<int>>) returns (stats: Stats)
    modifies st
    ensures stats == Tally(Verdicts(pending, answers))
    ensures st.sent == Stamped(old(st.sent), pending, Verdicts(pending, answers), |pending|)
    ensures st.requests == old(st.requests) && st.users == old(st.users) && st.lastWatchCheck == old(st.lastWatchCheck)
  {
    stats := Stats(0, 0, 0);
    ghost var rows0 := st.sent;
    ghost var vs := Verdicts(pending, answers);
    var k := 0;
    while k < |pending|
      invariant 0 <= k <= |pending|
      invariant stats == Tally(vs[..k])
      invariant st.sent == Stamped(rows0, pending, vs, k)
      invariant st.requests == old(st.requests) && st.users == old(st.users) && st.lastWatchCheck == old(st.lastWatchCheck)
    {
      ghost var before := st.sent;
      var v := VisitRow(st, pending[k], answers(k));
      assert v == vs[k];
      TallyNext(vs, k);
      stats := Counted(stats, v);
      assert Stamped(rows0, pending, vs, k + 1)
             == if v.SeenAt? then SetDateWatched(before, pending[k].email, pending[k].tmdbId, v.at) else before;
      k := k + 1;
    }
    assert vs[..k] == vs;
  }

  /** The visit of one pending row: its verdict, and the watch date stamped on its pair when it was watched. */
  method VisitRow(st: Store, row: SentRow, answer: Reply<Option<int>>) returns (v: Verdict)
    modifies st
    ensures v == VerdictOf(row, answer)
    ensures st.sent == if v.SeenAt? then SetDateWatched(old(st.sent), row.email, row.tmdbId, v.at) else old(st.sent)
    ensures st.requests == old(st.requests) && st.users == old(st.users) && st.lastWatchCheck == old(st.lastWatchCheck)
  {
    if Unqueryable(row) {
      return Incomplete;
    }
    match answer
    case Raised =>
      v := Failed;
    case Returned(None) =>
      v := Unseen;
    case Returned(Some(at)) =>
      st.sent := SetDateWatched(st.sent, row.email, row.tmdbId, at);
      v := SeenAt(at);
  }

  /** Tallying one more verdict. */
  lemma TallyNext(vs: seq<Verdict>, k: nat)
    requires k < |vs|
    ensures Tally(vs[..k + 1]) == Counted(Tally(vs[..k]), vs[k])
  {
    assert vs[..k + 1][..k] == vs[..k];
  }

  // ---------------------------------------------------------------------
  // refresh_metadata_for_recent_unknowns
  // ---------------------------------------------------------------------

  /** Whether a request may have its title refreshed: untitled, with a rating key and a media date at or before `threshold`. */
  predicate Refreshable(r: RequestRecord, threshold: int) {
    (r.title == "" || r.title == "Unknown")
    && HasKey(r.ratingKey)
    && MediaAdded(r).instant.Some? && MediaAdded(r).instant.value <= threshold
  }

  /** The refreshable requests, in store order. */
  function Candidates(rs: seq<RequestRecord>, threshold: int): (r: seq<RequestRecord>)
    ensures |r| <= |rs|
    ensures forall x :: x in r <==> x in rs && Refreshable(x, threshold)
  {
    if rs == [] then []
    else
      var last := rs[|rs| - 1];
      var rest := Candidates(rs[..|rs| - 1], threshold);
      assert forall x :: x in rs <==> x in rs[..|rs| - 1] || x == last by {
        assert rs == rs[..|rs| - 1] + [last];
      }
      if Refreshable(last, threshold) then rest + [last] else rest
  }

  /** A request's media date as the sort key (only ever read on candidates, which have one). */
  function MediaInstant(r: RequestRecord): int {
    if MediaAdded(r).instant.Some? then MediaAdded(r).instant.value else 0
  }

  /** The descending sort by media date. */
  function NewestFirst(): (RequestRecord, RequestRecord) -> bool {
    (a: RequestRecord, b: RequestRecord) => MediaInstant(a) >= MediaInstant(b)
  }

  lemma NewestFirstTotal()
    ensures Total(NewestFirst())
  {
  }

  function Min(a: int, b: int): int {
    if a <= b then a else b
  }

  /** `candidates[:pool_size]` after the descending sort. */
  function Pool(cands: seq<RequestRecord>, poolSize: int): (p: seq<RequestRecord>)
    requires poolSize > 0
  {
    NewestFirstTotal();
    Sort(cands, NewestFirst())[..Min(poolSize, |cands|)]
  }

  /**
   * The pool holds the newest `pool_size` candidates, newest first: it is as
   * long as the pool size allows, each of its members is a candidate, and
   * no candidate left out is newer than any member.
   */
  lemma PoolSpec(rs: seq<RequestRecord>, threshold: int, poolSize: int)
    requires poolSize > 0
    ensures |Pool(Candidates(rs, threshold), poolSize)| == Min(poolSize, |Candidates(rs, threshold)|)
    ensures forall x :: x in Pool(Candidates(rs, threshold), poolSize) ==> x in rs && Refreshable(x, threshold)
    ensures Sorted(Pool(Candidates(rs, threshold), poolSize), NewestFirst())
    ensures forall i, j :: 0 <= i < Min(poolSize, |Candidates(rs, threshold)|) <= j < |Candidates(rs, threshold)| ==>
              MediaInstant(Pool(Candidates(rs, threshold), poolSize)[i]) >= MediaInstant(Sort(Candidates(rs, threshold), NewestFirst())[j])
  {
    var cands := Candidates(rs, threshold);
    NewestFirstTotal();
    var sorted := Sort(cands, NewestFirst());
    var m := Min(poolSize, |cands|);
    var p := Pool(cands, poolSize);
    assert p == sorted[..m];
    forall x | x in p ensures x in rs && Refreshable(x, threshold) {
      assert x in multiset(sorted);
    }
    forall i, j | 0 <= i < m <= j < |cands| ensures MediaInstant(p[i]) >= MediaInstant(sorted[j]) {
      SortedPairwise(sorted, NewestFirst(), i, j);
    }
  }

  /** What Tautulli's watch history says about a pool entry: nothing, or a play whose record may carry a title. */
  datatype History = NoHistory | Seen(title: Option<string>)

  /** The per-entry answers of the history and metadata lookups, and the clock for the watch stamp. */
  datatype RefreshOracles = RefreshOracles(
    history: nat -> Reply<History>,
    metadata: nat -> Reply<string>,
    clock: nat -> int)

  /** The title a request falls back to: its own, else "Unknown". */
  function OwnTitle(r: RequestRecord): string {
    if r.title != "" then r.title else "Unknown"
  }

  /** A title found for a request, and the write that records it. */
  datatype Found = Found(id: int, title: string, write: RequestWrite)

  /**
   * One pool entry: skipped when its id, user name or media type is missing
   * or a lookup raises; otherwise the title from the watch history (the
   * request is then also stamped as watched) or else from the metadata.
   */
  function Visit(r: RequestRecord, k: nat, o: RefreshOracles): (f: Option<Found>)
    ensures f.Some? ==> f.value.id == r.id != 0
    ensures f.Some? ==> f.value.write == Retitle(f.value.title)
                        || f.value.write == RetitleWatched(f.value.title, o.clock(k))
  {
    if r.id == 0 || !HasKey(r.ratingKey) || r.plexUsername == "" || r.mediaType == "" then None
    else match o.history(k)
      case Raised => None
      case Returned(Seen(t)) =>
        var title := if t.Some? then t.value else OwnTitle(r);
        Some(Found(r.id, title, RetitleWatched(title, o.clock(k))))
      case Returned(NoHistory) =>
        match o.metadata(k)
        case Raised => None
        case Returned(m) =>
          var title := if m != "" then m else OwnTitle(r);
          Some(Found(r.id, title, Retitle(title)))
  }

  /** The loop over the pool from entry `k` on, stopping once `limit` titles are found. */
  function RefreshLoop(rs: seq<RequestRecord>, pool: seq<RequestRecord>, o: RefreshOracles, limit: int,
                       k: nat, updates: map<int, string>): (seq<RequestRecord>, map<int, string>)
    requires k <= |pool|
    decreases |pool| - k
  {
    if k == |pool| || |updates| >= limit then (rs, updates)
    else match Visit(pool[k], k, o)
      case None => RefreshLoop(rs, pool, o, limit, k + 1, updates)
      case Some(f) => RefreshLoop(UpdateRequests(rs, f.id, f.write), pool, o, limit, k + 1, updates[f.id := f.title])
  }

  /** `refresh_metadata_for_recent_unknowns`: the request table afterwards and the titles found, by request id. */
  function Refresh(rs: seq<RequestRecord>, limit: int, poolSize: int, threshold: int, o: RefreshOracles)
    : (seq<RequestRecord>, map<int, string>)
  {
    if limit <= 0 || poolSize <= 0 then (rs, map[])
    else RefreshLoop(rs, Pool(Candidates(rs, threshold), poolSize), o, limit, 0, map[])
  }

  /**
   * The table agrees with the titles found: a request whose id has a title
   * carries that title and differs from `rs0` at most in title and watch
   * date; every other request is unchanged.
   */
  ghost predicate Agrees(rs0: seq<RequestRecord>, rs: seq<RequestRecord>, updates: map<int, string>) {
    |rs| == |rs0|
    && forall i :: 0 <= i < |rs0| ==>
         if rs0[i].id in updates then
           rs[i] == rs0[i].(title := updates[rs0[i].id], tautulliWatchDate := rs[i].tautulliWatchDate)
         else rs[i] == rs0[i]
  }

  lemma AgreesStep(rs0: seq<RequestRecord>, rs: seq<RequestRecord>, updates: map<int, string>, f: Found, at: int)
    requires Agrees(rs0, rs, updates)
    requires f.write == Retitle(f.title) || f.write == RetitleWatched(f.title, at)
    ensures Agrees(rs0, UpdateRequests(rs, f.id, f.write), updates[f.id := f.title])
  {
    var rs2 := UpdateRequests(rs, f.id, f.write);
    forall i | 0 <= i < |rs0|
      ensures if rs0[i].id in updates[f.id := f.title] then
                rs2[i] == rs0[i].(title := updates[f.id := f.title][rs0[i].id], tautulliWatchDate := rs2[i].tautulliWatchDate)
              else rs2[i] == rs0[i]
    {
      assert rs[i].id == rs0[i].id;
    }
  }

  /** Every step of the loop keeps the table in agreement with the titles found. */
  lemma {:induction false} RefreshLoopAgrees(rs0: seq<RequestRecord>, rs: seq<RequestRecord>, pool: seq<RequestRecord>,
                                             o: RefreshOracles, limit: int, k: nat, updates: map<int, string>)
    requires k <= |pool|
    requires Agrees(rs0, rs, updates)
    ensures Agrees(rs0, RefreshLoop(rs, pool, o, limit, k, updates).0, RefreshLoop(rs, pool, o, limit, k, updates).1)
    decreases |pool| - k
  {
    if k < |pool| && |updates| < limit {
      var f := Visit(pool[k], k, o);
      if f.Some? {
        AgreesStep(rs0, rs, updates, f.value, o.clock(k));
        RefreshLoopAgrees(rs0, UpdateRequests(rs, f.value.id, f.value.write), pool, o, limit, k + 1, updates[f.value.id := f.value.title]);
      } else {
        RefreshLoopAgrees(rs0, rs, pool, o, limit, k + 1, updates);
      }
    }
  }

  /**
   * The loop's bounds: it stops at `limit` titles, finds at most one title per
   * remaining entry, and every title it adds is for a non-zero id of an entry
   * it visited.
   */
  lemma {:induction false} RefreshLoopBounds(rs: seq<RequestRecord>, pool: seq<RequestRecord>, o: RefreshOracles,
                                             limit: int, k: nat, updates: map<int, string>)
    requires k <= |pool|
    requires |updates| <= limit
    ensures |RefreshLoop(rs, pool, o, limit, k, updates).1| <= limit
    ensures |RefreshLoop(rs, pool, o, limit, k, updates).1| <= |updates| + (|pool| - k)
    decreases |pool| - k
  {
    if k < |pool| && |updates| < limit {
      var f := Visit(pool[k], k, o);
      if f.Some? {
        var u2 := updates[f.value.id := f.value.title];
        var rs2 := UpdateRequests(rs, f.value.id, f.value.write);
        assert RefreshLoop(rs, pool, o, limit, k, updates) == RefreshLoop(rs2, pool, o, limit, k + 1, u2);
        OneMoreTitle(updates, f.value.id, f.value.title);
        RefreshLoopBounds(rs2, pool, o, limit, k + 1, u2);
      } else {
        assert RefreshLoop(rs, pool, o, limit, k, updates) == RefreshLoop(rs, pool, o, limit, k + 1, updates);
        RefreshLoopBounds(rs, pool, o, limit, k + 1, updates);
      }
    } else {
      assert RefreshLoop(rs, pool, o, limit, k, updates) == (rs, updates);
    }
  }

  /** Recording a title adds at most one entry. */
  lemma OneMoreTitle(updates: map<int, string>, id: int, title: string)
    ensures |updates[id := title]| <= |updates| + 1
  {
    assert updates[id := title].Keys == updates.Keys + {id};
    assert |updates.Keys + {id}| <= |updates.Keys| + |{id}|;
  }

  /** Every title the loop returns is for a pooled request with a non-zero id, or was there before. */
  lemma {:induction false} RefreshLoopIds(rs: seq<RequestRecord>, pool: seq<RequestRecord>, o: RefreshOracles,
                                          limit: int, k: nat, updates: map<int, string>)
    requires k <= |pool|
    ensures forall id :: id in RefreshLoop(rs, pool, o, limit, k, updates).1 ==>
              id in updates || (id != 0 && exists j :: k <= j < |pool| && pool[j].id == id)
    decreases |pool| - k
  {
    var r := RefreshLoop(rs, pool, o, limit, k, updates).1;
    if k < |pool| && |updates| < limit {
      var f := Visit(pool[k], k, o);
      if f.Some? {
        var u2 := updates[f.value.id := f.value.title];
        var rs2 := UpdateRequests(rs, f.value.id, f.value.write);
        assert r == RefreshLoop(rs2, pool, o, limit, k + 1, u2).1;
        RefreshLoopIds(rs2, pool, o, limit, k + 1, u2);
        forall id | id in r
          ensures id in updates || (id != 0 && exists j :: k <= j < |pool| && pool[j].id == id)
        {
          if id !in updates && id == f.value.id {
            assert pool[k].id == id;
          }
        }
      } else {
        assert r == RefreshLoop(rs, pool, o, limit, k + 1, updates).1;
        RefreshLoopIds(rs, pool, o, limit, k + 1, updates);
      }
    } else {
      assert r == updates;
    }
  }

  /**
   * What a refresh promises: at most `limit` and at most `pool_size` titles,
   * none for a non-positive bound, each for a refreshable request of the
   * table, and the table afterwards carries exactly the titles returned.
   */
  lemma RefreshSpec(rs: seq<RequestRecord>, limit: int, poolSize: int, threshold: int, o: RefreshOracles)
    ensures limit <= 0 || poolSize <= 0 ==> Refresh(rs, limit, poolSize, threshold, o) == (rs, map[])
    ensures |Refresh(rs, limit, poolSize, threshold, o).1| <= limit || limit <= 0
    ensures |Refresh(rs, limit, poolSize, threshold, o).1| <= poolSize || poolSize <= 0
    ensures forall id :: id in Refresh(rs, limit, poolSize, threshold, o).1 ==>
              id != 0 && exists i :: 0 <= i < |rs| && rs[i].id == id && Refreshable(rs[i], threshold)
    ensures Agrees(rs, Refresh(rs, limit, poolSize, threshold, o).0, Refresh(rs, limit, poolSize, threshold, o).1)
  {
    if limit > 0 && poolSize > 0 {
      var pool := Pool(Candidates(rs, threshold), poolSize);
      PoolSpec(rs, threshold, poolSize);
      RefreshLoopBounds(rs, pool, o, limit, 0, map[]);
      RefreshLoopIds(rs, pool, o, limit, 0, map[]);
      RefreshLoopAgrees(rs, rs, pool, o, limit, 0, map[]);
      forall id | id in Refresh(rs, limit, poolSize, threshold, o).1
        ensures exists i :: 0 <= i < |rs| && rs[i].id == id && Refreshable(rs[i], threshold)
      {
        var j :| 0 <= j < |pool| && pool[j].id == id;
        assert pool[j] in pool;
        var i :| 0 <= i < |rs| && rs[i] == pool[j];
      }
    }
  }

  /**
   * `refresh_metadata_for_recent_unknowns(limit, pool_size)` on the store:
   * collects the candidates, sorts them newest first, and walks the first
   * `pool_size` of them until `limit` titles are found. `threshold` is
   * `now - DAYS_SINCE_REQUEST days`.
   */
  method RefreshMetadata(st: Store, limit: int, poolSize: int, threshold: int, o: RefreshOracles)
    returns (updates: map<int, string>)
    modifies st
    ensures (st.requests, updates) == Refresh(old(st.requests), limit, poolSize, threshold, o)
    ensures st.sent == old(st.sent) && st.users == old(st.users) && st.lastWatchCheck == old(st.lastWatchCheck)
  {
    updates := map[];
    if limit <= 0 || poolSize <= 0 {
      return;
    }
    var cands: seq<RequestRecord> := [];
    var i := 0;
    while i < |st.requests|
      invariant 0 <= i <= |st.requests|
      invariant cands == Candidates(st.requests[..i], threshold)
    {
      assert st.requests[..i + 1][..i] == st.requests[..i];
      if Refreshable(st.requests[i], threshold) {
        cands := cands + [st.requests[i]];
      }
      i := i + 1;
    }
    assert st.requests[..i] == st.requests;
    var pool := Pool(cands, poolSize);
    ghost var rs0 := st.requests;
    var k := 0;
    while k < |pool|
      invariant 0 <= k <= |pool|
      invariant RefreshLoop(st.requests, pool, o, limit, k, updates) == RefreshLoop(rs0, pool, o, limit, 0, map[])
      invariant st.sent == old(st.sent) && st.users == old(st.users) && st.lastWatchCheck == old(st.lastWatchCheck)
    {
      if |updates| >= limit {
        break;
      }
      var found := Visit(pool[k], k, o);
      if found.Some? {
        updates := updates[found.value.id := found.value.title];
        st.requests := UpdateRequests(st.requests, found.value.id, found.value.write);
      }
      k := k + 1;
    }
  }
}
