/**
 * Step 2 of `main`: every available request the request service reports
 * gets its address registered and, when its id is new, a request document
 * with the ingestion defaults; then every stored request's address is
 * registered too. The service's answer, the poster lookup and the clock are
 * inputs.
 */
module Ingest {
  import opened Wrappers
  import opened Text
  import opened Stamps
  import opened Records
  import Users
  import opened PlexUrl
  import opened Tables

  /** One available request as the request service reports it, with the poster lookup's answer. */
  datatype Upstream = Upstream(
    id: int,
    email: string,
    plexUsername: string,
    tmdbId: string,
    ratingKey: Option<string>,
    mediaType: string,
    mediaAddedAt: Option<RawStamp>,
    mediaAddedDate: Option<RawStamp>,
    plexUrl: Option<string>,
    mediaUrl: Option<string>,
    iosPlexUrl: Option<string>,
    poster: string)

  /** Python's `a or b` on optional text. */
  function OrText(a: Option<string>, b: Option<string>): Option<string> {
    if a.Some? && a.value != "" then a else b
  }

  /** The media date a new request is stored with: the reported one when it parses, else the ingestion time. */
  function AddedInstant(u: Upstream, now: int): int {
    var m := ResolveFirst([u.mediaAddedAt, u.mediaAddedDate]);
    if m.instant.Some? then m.instant.value else now
  }

  /** The request document inserted for a request id not seen before. */
  function NewRecord(u: Upstream, now: int): RequestRecord {
    var raw := OrText(u.plexUrl, u.mediaUrl);
    var links := TransformPlexUrl(if raw.Some? then raw.value else "");
    RequestRecord(
      u.id, Strip(u.email), u.plexUsername, u.tmdbId, u.ratingKey,
      if u.mediaType == "movie" then "movie" else "tv show",
      links.browser, OrText(u.iosPlexUrl, links.mobile), u.poster, "Unknown",
      Some(Iso(AddedInstant(u, now))), None, Some(Iso(now)), None,
      false, false, false)
  }

  /**
   * A request ingested in this run waits: it is titled "Unknown" and not yet
   * eligible, so the grouping skips it and a cycle-respecting attempt defers
   * it. It carries a media date, so it becomes overdue once its title is
   * known and enough days have passed.
   */
  lemma NewRecordWaits(u: Upstream, now: int)
    ensures NewRecord(u, now).title == "Unknown" && !NewRecord(u, now).eligibleForEmail
    ensures !NewRecord(u, now).emailSent && !NewRecord(u, now).skipEmail
    ensures !Truthy(NewRecord(u, now).tautulliWatchDate)
    ensures MediaAdded(NewRecord(u, now)).instant.Some?
    ensures NewRecord(u, now).mediaType == "movie" || NewRecord(u, now).mediaType == "tv show"
    ensures NewRecord(u, now).email == Strip(u.email)
  {
    var r := NewRecord(u, now);
    assert Truthy(r.mediaAddedDate);
  }

  /** One reported request: register its address, then insert it when its id is new. */
  function IngestOne(db: Db, u: Upstream, now: int, hashOf: string -> int): (Db, Reply<()>) {
    Admit(db, Users.EnsureUser(db.users, Strip(u.email), hashOf), u, now)
  }

  /** The rest of one step, once the address has been registered with outcome `ens`. */
  function Admit(db: Db, ens: Users.Registered<Reply<Option<EmailUser>>>, u: Upstream, now: int): (Db, Reply<()>) {
    var db1 := db.(users := ens.users);
    if ens.result.Raised? then (db1, Raised)
    else if HasRequest(db1.requests, u.id) then (db1, Returned(()))
    else (db1.(requests := db1.requests + [NewRecord(u, now)]), Returned(()))
  }

  /** The loop over the reported requests, stopping at the first that raises. */
  function IngestAll(db: Db, ups: seq<Upstream>, now: int, hashOf: string -> int): (Db, Reply<()>)
    decreases |ups|
  {
    if ups == [] then (db, Returned(()))
    else
      var step := IngestOne(db, ups[0], now, hashOf);
      if step.1.Raised? then step else IngestAll(step.0, ups[1..], now, hashOf)
  }

  /** `r` is the new-request document of one of the reported requests. */
  ghost predicate IngestedFrom(r: RequestRecord, ups: seq<Upstream>, now: int) {
    exists u :: u in ups && r == NewRecord(u, now)
  }

  /** No two requests share an id. */
  predicate IdsDistinct(rs: seq<RequestRecord>) {
    forall i, j :: 0 <= i < j < |rs| ==> rs[i].id != rs[j].id
  }

  /** What one step does to the request table. */
  lemma IngestOneRequests(db: Db, u: Upstream, now: int, hashOf: string -> int)
    ensures var d := IngestOne(db, u, now, hashOf).0;
            && d.sent == db.sent && d.lastWatchCheck == db.lastWatchCheck
            && (d.requests == db.requests || d.requests == db.requests + [NewRecord(u, now)])
            && (IngestOne(db, u, now, hashOf).1.Returned? ==> HasRequest(d.requests, u.id))
            && (IdsDistinct(db.requests) ==> IdsDistinct(d.requests))
  {
    AdmitRequests(db, Users.EnsureUser(db.users, Strip(u.email), hashOf), u, now);
  }

  lemma AdmitRequests(db: Db, ens: Users.Registered<Reply<Option<EmailUser>>>, u: Upstream, now: int)
    ensures var d := Admit(db, ens, u, now).0;
            && d.sent == db.sent && d.lastWatchCheck == db.lastWatchCheck
            && (d.requests == db.requests || d.requests == db.requests + [NewRecord(u, now)])
            && (Admit(db, ens, u, now).1.Returned? ==> HasRequest(d.requests, u.id))
            && (IdsDistinct(db.requests) ==> IdsDistinct(d.requests))
  {
    var d := Admit(db, ens, u, now).0;
    if Admit(db, ens, u, now).1.Returned? && !HasRequest(db.requests, u.id) {
      assert d.requests[|db.requests|].id == u.id;
    }
  }

  /** Ingesting one item leaves the user registry exactly as the registration left it. */
  lemma IngestOneRegisters(db: Db, u: Upstream, now: int, hashOf: string -> int)
    ensures var ens := Users.EnsureUser(db.users, Strip(u.email), hashOf);
            && IngestOne(db, u, now, hashOf).0.users == ens.users
            && (IngestOne(db, u, now, hashOf).1.Returned? <==> ens.result.Returned?)
  {
  }

  lemma IngestOneUsers(db: Db, u: Upstream, now: int, hashOf: string -> int)
    requires Users.RegistryValid(db.users)
    ensures var d := IngestOne(db, u, now, hashOf).0;
            && Users.RegistryValid(d.users) && Users.OnlyTouched(db.users, d.users)
            && (IngestOne(db, u, now, hashOf).1.Returned? && Strip(u.email) != "" ==>
                  Users.FindUser(d.users, Lower(Strip(u.email))).Some?)
  {
    IngestOneRegisters(db, u, now, hashOf);
    Users.EnsureUserOnlyTouches(db.users, Strip(u.email), hashOf);
    if Strip(u.email) != "" && Users.EnsureUser(db.users, Strip(u.email), hashOf).result.Returned? {
      Users.EnsureUserRegisters(db.users, Strip(u.email), hashOf);
    }
  }

  /**
   * Ingestion leaves the sent table alone and the registry valid, and writes
   * no cooldown or unsubscribe stamp: it only adds or back-fills documents.
   */
  lemma {:induction false} IngestTouches(db: Db, ups: seq<Upstream>, now: int, hashOf: string -> int)
    requires Users.RegistryValid(db.users)
    ensures var d := IngestAll(db, ups, now, hashOf).0;
            && d.sent == db.sent && d.lastWatchCheck == db.lastWatchCheck
            && Users.RegistryValid(d.users) && Users.OnlyTouched(db.users, d.users)
    decreases |ups|
  {
    if ups != [] {
      var step := IngestOne(db, ups[0], now, hashOf);
      IngestOneRequests(db, ups[0], now, hashOf);
      IngestOneUsers(db, ups[0], now, hashOf);
      if step.1.Returned? {
        IngestTouches(step.0, ups[1..], now, hashOf);
        Users.OnlyTouchedTransitive(db.users, step.0.users, IngestAll(step.0, ups[1..], now, hashOf).0.users);
      }
    }
  }

  /** A prefix of a prefix: `c` extends `b`, which extends `a`. */
  lemma PrefixChain<T>(a: seq<T>, b: seq<T>, c: seq<T>)
    requires |a| <= |b| <= |c| && c[..|b|] == b && b[..|a|] == a
    ensures c[..|a|] == a
    ensures forall i :: |a| <= i < |b| ==> c[i] == b[i]
  {
    assert forall i :: 0 <= i < |b| ==> c[i] == c[..|b|][i];
  }

  /** A record ingested from some of the reported requests is ingested from all of them. */
  lemma IngestedFromMore(r: RequestRecord, some: seq<Upstream>, ups: seq<Upstream>, now: int)
    requires IngestedFrom(r, some, now) && forall u :: u in some ==> u in ups
    ensures IngestedFrom(r, ups, now)
  {
  }

  /** What one step appends is the new-request document of its reported request. */
  lemma IngestOneAppends(db: Db, u: Upstream, now: int, hashOf: string -> int)
    ensures var d := IngestOne(db, u, now, hashOf).0;
            && |db.requests| <= |d.requests| && d.requests[..|db.requests|] == db.requests
            && forall i :: |db.requests| <= i < |d.requests| ==> IngestedFrom(d.requests[i], [u], now)
  {
    var d := IngestOne(db, u, now, hashOf).0;
    IngestOneRequests(db, u, now, hashOf);
    if d.requests == db.requests {
      assert d.requests[..|db.requests|] == db.requests;
    } else {
      assert d.requests == db.requests + [NewRecord(u, now)];
      assert d.requests[..|db.requests|] == db.requests;
      assert u in [u];
      forall i | |db.requests| <= i < |d.requests| ensures IngestedFrom(d.requests[i], [u], now) {
        assert i == |db.requests| && d.requests[i] == NewRecord(u, now);
      }
    }
  }

  /**
   * Ingestion only appends: the stored requests stay as they were, in front,
   * and every appended request is the new-request document of a reported
   * request.
   */
  lemma {:induction false} IngestAppends(db: Db, ups: seq<Upstream>, now: int, hashOf: string -> int)
    ensures var d := IngestAll(db, ups, now, hashOf).0;
            && |db.requests| <= |d.requests| && d.requests[..|db.requests|] == db.requests
            && (forall i :: |db.requests| <= i < |d.requests| ==> IngestedFrom(d.requests[i], ups, now))
    decreases |ups|
  {
    if ups != [] {
      var u := ups[0];
      var step := IngestOne(db, u, now, hashOf);
      IngestOneAppends(db, u, now, hashOf);
      var db2 := step.0;
      forall i | |db.requests| <= i < |db2.requests| ensures IngestedFrom(db2.requests[i], ups, now) {
        IngestedFromMore(db2.requests[i], [u], ups, now);
      }
      if step.1.Returned? {
        IngestAppends(db2, ups[1..], now, hashOf);
        var d := IngestAll(db2, ups[1..], now, hashOf).0;
        PrefixChain(db.requests, db2.requests, d.requests);
        forall i | |db2.requests| <= i < |d.requests| ensures IngestedFrom(d.requests[i], ups, now) {
          IngestedFromMore(d.requests[i], ups[1..], ups, now);
        }
      }
    }
  }

  /** Ingestion never inserts a second request with an id already stored. */
  lemma {:induction false} IngestKeepsIdsDistinct(db: Db, ups: seq<Upstream>, now: int, hashOf: string -> int)
    requires IdsDistinct(db.requests)
    ensures IdsDistinct(IngestAll(db, ups, now, hashOf).0.requests)
    decreases |ups|
  {
    if ups != [] {
      var step := IngestOne(db, ups[0], now, hashOf);
      IngestOneRequests(db, ups[0], now, hashOf);
      if step.1.Returned? {
        IngestKeepsIdsDistinct(step.0, ups[1..], now, hashOf);
      }
    }
  }

  /** Every reported id has a request from index `k` on. */
  ghost predicate IdsCovered(rs: seq<RequestRecord>, ups: seq<Upstream>) {
    forall u :: u in ups ==> HasRequest(rs, u.id)
  }

  /** Every reported non-empty address has a registry document. */
  ghost predicate AddressesCovered(us: seq<UserDoc>, ups: seq<Upstream>) {
    forall u :: u in ups && Strip(u.email) != "" ==> Users.FindUser(us, Lower(Strip(u.email))).Some?
  }

  /** A run that gets through ingestion has a request for every reported id. */
  lemma {:induction false} IngestCoversIds(db: Db, ups: seq<Upstream>, now: int, hashOf: string -> int)
    requires IngestAll(db, ups, now, hashOf).1.Returned?
    ensures IdsCovered(IngestAll(db, ups, now, hashOf).0.requests, ups)
    decreases |ups|
  {
    if ups != [] {
      var u := ups[0];
      var step := IngestOne(db, u, now, hashOf);
      IngestOneRequests(db, u, now, hashOf);
      IngestCoversIds(step.0, ups[1..], now, hashOf);
      IngestAppends(step.0, ups[1..], now, hashOf);
      var d := IngestAll(step.0, ups[1..], now, hashOf).0;
      assert HasRequest(d.requests, u.id) by {
        var i :| 0 <= i < |step.0.requests| && step.0.requests[i].id == u.id;
        assert d.requests[i] == d.requests[..|step.0.requests|][i];
      }
      forall u' | u' in ups ensures HasRequest(d.requests, u'.id) {
        if u' != u {
          assert u' in ups[1..];
        }
      }
    }
  }

  /** A run that gets through ingestion has a registry document for every reported non-empty address. */
  lemma {:induction false} IngestCoversAddresses(db: Db, ups: seq<Upstream>, now: int, hashOf: string -> int)
    requires Users.RegistryValid(db.users)
    requires IngestAll(db, ups, now, hashOf).1.Returned?
    ensures AddressesCovered(IngestAll(db, ups, now, hashOf).0.users, ups)
    decreases |ups|
  {
    if ups != [] {
      var u := ups[0];
      var step := IngestOne(db, u, now, hashOf);
      IngestOneUsers(db, u, now, hashOf);
      IngestCoversAddresses(step.0, ups[1..], now, hashOf);
      IngestTouches(step.0, ups[1..], now, hashOf);
      var d := IngestAll(step.0, ups[1..], now, hashOf).0;
      if Strip(u.email) != "" {
        Users.OnlyTouchedKeepsFind(step.0.users, d.users, Lower(Strip(u.email)));
      }
      forall u' | u' in ups && Strip(u'.email) != ""
        ensures Users.FindUser(d.users, Lower(Strip(u'.email))).Some?
      {
        if u' != u {
          assert u' in ups[1..];
        }
      }
    }
  }

  /** One pass of step 2's first loop on the store. */
  method IngestStep(st: Store, u: Upstream, now: int, hashOf: string -> int) returns (r: Reply<()>)
    modifies st
    ensures IngestOne(old(st.Db()), u, now, hashOf) == (st.Db(), r)
  {
    ghost var db0 := st.Db();
    var ens := st.EnsureUser(Strip(u.email), hashOf);
    assert IngestOne(db0, u, now, hashOf) == Admit(db0, Users.Registered(st.users, ens), u, now);
    if ens.Raised? {
      return Raised;
    }
    if !HasRequest(st.requests, u.id) {
      st.requests := st.requests + [NewRecord(u, now)];
    }
    return Returned(());
  }

  /** The loop from reported request `k` on, after the step on request `k` returned `(db2, r)`. */
  lemma IngestAllNext(db: Db, ups: seq<Upstream>, k: nat, now: int, hashOf: string -> int, db2: Db, r: Reply<()>)
    requires k < |ups| && IngestOne(db, ups[k], now, hashOf) == (db2, r)
    ensures IngestAll(db, ups[k..], now, hashOf) == if r.Raised? then (db2, Raised) else IngestAll(db2, ups[k + 1..], now, hashOf)
  {
    assert ups[k..][0] == ups[k] && ups[k..][1..] == ups[k + 1..];
  }

  /** Step 2's first loop on the store. */
  method IngestRequests(st: Store, ups: seq<Upstream>, now: int, hashOf: string -> int) returns (r: Reply<()>)
    modifies st
    ensures IngestAll(old(st.Db()), ups, now, hashOf) == (st.Db(), r)
  {
    var k := 0;
    assert ups[0..] == ups;
    while k < |ups|
      invariant 0 <= k <= |ups|
      invariant IngestAll(old(st.Db()), ups, now, hashOf) == IngestAll(st.Db(), ups[k..], now, hashOf)
    {
      ghost var before := st.Db();
      var step := IngestStep(st, ups[k], now, hashOf);
      IngestAllNext(before, ups, k, now, hashOf, st.Db(), step);
      if step.Raised? {
        return Raised;
      }
      k := k + 1;
    }
    return Returned(());
  }

  /** The legacy loop: register the stripped address of every stored request from index `k` on. */
  function EnsureAll(us: seq<UserDoc>, rs: seq<RequestRecord>, hashOf: string -> int, k: nat): Users.Registered<Reply<()>>
    requires k <= |rs|
    decreases |rs| - k
  {
    if k == |rs| then Users.Registered(us, Returned(()))
    else
      var e := Strip(rs[k].email);
      if e == "" then EnsureAll(us, rs, hashOf, k + 1)
      else
        var ens := Users.EnsureUser(us, e, hashOf);
        if ens.result.Raised? then Users.Registered(ens.users, Raised)
        else EnsureAll(ens.users, rs, hashOf, k + 1)
  }

  /** The legacy loop writes no stamp and keeps the registry valid. */
  lemma {:induction false} EnsureAllTouches(us: seq<UserDoc>, rs: seq<RequestRecord>, hashOf: string -> int, k: nat)
    requires k <= |rs| && Users.RegistryValid(us)
    ensures Users.RegistryValid(EnsureAll(us, rs, hashOf, k).users)
    ensures Users.OnlyTouched(us, EnsureAll(us, rs, hashOf, k).users)
    decreases |rs| - k
  {
    if k == |rs| {
      Users.OnlyTouchedRefl(us);
    } else {
      var e := Strip(rs[k].email);
      if e == "" {
        assert EnsureAll(us, rs, hashOf, k) == EnsureAll(us, rs, hashOf, k + 1);
        EnsureAllTouches(us, rs, hashOf, k + 1);
      } else {
        var ens := Users.EnsureUser(us, e, hashOf);
        Users.EnsureUserOnlyTouches(us, e, hashOf);
        if ens.result.Returned? {
          var fin := EnsureAll(ens.users, rs, hashOf, k + 1);
          assert EnsureAll(us, rs, hashOf, k) == fin;
          EnsureAllTouches(ens.users, rs, hashOf, k + 1);
          Users.OnlyTouchedTransitive(us, ens.users, fin.users);
        } else {
          assert EnsureAll(us, rs, hashOf, k).users == ens.users;
        }
      }
    }
  }

  /** Every request from index `k` on with a non-empty address has a registry document for it. */
  ghost predicate CoveredFrom(us: seq<UserDoc>, rs: seq<RequestRecord>, k: nat) {
    forall i :: k <= i < |rs| && Strip(rs[i].email) != "" ==> Users.FindUser(us, Lower(Strip(rs[i].email))).Some?
  }

  /** Coverage from `k + 1` on, together with request `k`'s address, is coverage from `k` on. */
  lemma CoveredBack(us: seq<UserDoc>, rs: seq<RequestRecord>, k: nat)
    requires k < |rs| && CoveredFrom(us, rs, k + 1)
    requires Strip(rs[k].email) != "" ==> Users.FindUser(us, Lower(Strip(rs[k].email))).Some?
    ensures CoveredFrom(us, rs, k)
  {
  }

  /** When the legacy loop gets through, every request's address from `k` on has a registry document. */
  lemma {:induction false} EnsureAllCovers(us: seq<UserDoc>, rs: seq<RequestRecord>, hashOf: string -> int, k: nat)
    requires k <= |rs| && Users.RegistryValid(us)
    requires EnsureAll(us, rs, hashOf, k).result.Returned?
    ensures CoveredFrom(EnsureAll(us, rs, hashOf, k).users, rs, k)
    decreases |rs| - k
  {
    if k < |rs| {
      var e := Strip(rs[k].email);
      var fin := EnsureAll(us, rs, hashOf, k).users;
      if e == "" {
        assert fin == EnsureAll(us, rs, hashOf, k + 1).users;
        EnsureAllCovers(us, rs, hashOf, k + 1);
        CoveredBack(fin, rs, k);
      } else {
        var ens := Users.EnsureUser(us, e, hashOf);
        assert ens.result.Returned?;
        Users.EnsureUserRegisters(us, e, hashOf);
        assert fin == EnsureAll(ens.users, rs, hashOf, k + 1).users;
        EnsureAllCovers(ens.users, rs, hashOf, k + 1);
        EnsureAllTouches(ens.users, rs, hashOf, k + 1);
        Users.OnlyTouchedKeepsFind(ens.users, fin, Lower(e));
        CoveredBack(fin, rs, k);
      }
    }
  }

  /** One registration of the legacy loop, given what touching the address returned. */
  lemma EnsureAllNext(us: seq<UserDoc>, rs: seq<RequestRecord>, hashOf: string -> int, k: nat,
                      us2: seq<UserDoc>, r: Reply<Option<EmailUser>>)
    requires k < |rs| && Strip(rs[k].email) != ""
    requires Users.EnsureUser(us, Strip(rs[k].email), hashOf) == Users.Registered(us2, r)
    ensures EnsureAll(us, rs, hashOf, k) == if r.Raised? then Users.Registered(us2, Raised) else EnsureAll(us2, rs, hashOf, k + 1)
  {
  }

  /** One pass of the legacy loop's body on the store. */
  method RegisterAt(st: Store, rs: seq<RequestRecord>, hashOf: string -> int, k: nat) returns (raised: bool)
    requires k < |rs|
    modifies st
    ensures raised ==> EnsureAll(old(st.users), rs, hashOf, k) == Users.Registered(st.users, Raised)
    ensures !raised ==> EnsureAll(old(st.users), rs, hashOf, k) == EnsureAll(st.users, rs, hashOf, k + 1)
    ensures st.requests == old(st.requests) && st.sent == old(st.sent) && st.lastWatchCheck == old(st.lastWatchCheck)
  {
    var e := Strip(rs[k].email);
    if e == "" {
      return false;
    }
    var ens := st.EnsureUser(e, hashOf);
    EnsureAllNext(old(st.users), rs, hashOf, k, st.users, ens);
    return ens.Raised?;
  }

  /** The legacy loop on the store. */
  method EnsureLegacyUsers(st: Store, hashOf: string -> int) returns (r: Reply<()>)
    modifies st
    ensures EnsureAll(old(st.users), old(st.requests), hashOf, 0) == Users.Registered(st.users, r)
    ensures st.requests == old(st.requests) && st.sent == old(st.sent) && st.lastWatchCheck == old(st.lastWatchCheck)
  {
    var rs := st.requests;
    var k := 0;
    while k < |rs|
      invariant 0 <= k <= |rs|
      invariant EnsureAll(old(st.users), rs, hashOf, 0) == EnsureAll(st.users, rs, hashOf, k)
      invariant st.requests == old(st.requests) && st.sent == old(st.sent) && st.lastWatchCheck == old(st.lastWatchCheck)
    {
      var raised := RegisterAt(st, rs, hashOf, k);
      if raised {
        return Raised;
      }
      k := k + 1;
    }
    return Returned(());
  }
}
