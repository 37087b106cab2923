/**
 * What the serving loop of `main` promises: per recipient, candidates are
 * tried in group order, every attempt but the last was refused for good, at
 * most one reminder goes out; a delivered reminder was for an overdue request
 * that an earlier run marked eligible; in debug mode nothing is persisted and
 * no more than `DEBUG_MAX_EMAILS` reminders go out in a run.
 */
module ServeFacts {
  import opened Wrappers
  import opened Text
  import opened Records
  import Users
  import opened Send
  import opened SendFacts
  import opened Stamps
  import opened Grouping
  import opened Serve

  /** How many of the attempts delivered a reminder. */
  function SentCount(log: seq<Tried>): (n: nat)
    ensures n <= |log|
  {
    if log == [] then 0 else (if log[0].outcome.sent then 1 else 0) + SentCount(log[1..])
  }

  lemma {:induction false} SentCountAppend(a: seq<Tried>, b: seq<Tried>)
    ensures SentCount(a + b) == SentCount(a) + SentCount(b)
  {
    if a == [] {
      assert a + b == b;
    } else {
      assert (a + b)[0] == a[0];
      assert (a + b)[1..] == a[1..] + b;
      SentCountAppend(a[1..], b);
    }
  }

  /** The number of debug-mode sends after which a run stops: `DEBUG_MAX_EMAILS`, or none when it is not positive. */
  function Cap(cfg: Config): nat {
    if cfg.debugMaxEmails > 0 then cfg.debugMaxEmails else 0
  }

  /**
   * How a turn over `cands` ends: the candidates were tried in order from the
   * first, every attempt but the last was refused with the candidate
   * dropped, what is left of the group is a suffix of it, and every attempt
   * made is counted, including one that raised.
   */
  ghost predicate Ordered(t: Turn, cands: seq<RequestRecord>, attempts: nat, debugMode: bool) {
    && |t.log| <= |cands|
    && (forall j :: 0 <= j < |t.log| ==> t.log[j].rec == cands[j])
    && (forall j :: 0 <= j < |t.log| - 1 ==> !t.log[j].outcome.sent && t.log[j].outcome.removeCandidate)
    && |t.rest| <= |cands| && t.rest == cands[|cands| - |t.rest|..]
    && t.attempts == attempts + |t.log| + (if t.halt == Aborted then 1 else 0)
    && (t.halt == CapReached ==> debugMode)
  }

  /** A turn tries its candidates in order; see `Ordered`. */
  lemma {:induction false} TurnOrder(db: Db, cands: seq<RequestRecord>, attempt: (Db, RequestRecord, nat) -> Attempted,
                                     cfg: Config, attempts: nat, debugSent: nat)
    ensures Ordered(ServeTurn(db, cands, attempt, cfg, attempts, debugSent).turn, cands, attempts, cfg.debugMode)
    decreases |cands|, 1
  {
    if cands != [] && !CapHit(cfg, debugSent) {
      AfterOrder(attempt(db, cands[0], attempts), cands, attempt, cfg, attempts, debugSent);
    }
  }

  lemma {:induction false} AfterOrder(a: Attempted, cands: seq<RequestRecord>, attempt: (Db, RequestRecord, nat) -> Attempted,
                                      cfg: Config, attempts: nat, debugSent: nat)
    requires cands != []
    ensures Ordered(AfterAttempt(a, cands, attempt, cfg, attempts, debugSent).turn, cands, attempts, cfg.debugMode)
    decreases |cands|, 0
  {
    var t := AfterAttempt(a, cands, attempt, cfg, attempts, debugSent).turn;
    if a.reply.Raised? {
      assert t == Turn(cands, attempts + 1, debugSent, [], Aborted);
      assert cands[|cands| - |cands|..] == cands;
    } else if a.reply.value.sent || !a.reply.value.removeCandidate {
      assert t.log == [Tried(cands[0], a.reply.value)] && t.attempts == attempts + 1 && t.halt != Aborted;
      assert (t.rest == cands || t.rest == cands[1..]) && (t.halt == CapReached ==> cfg.debugMode);
      OrderedOne(t, cands, attempts, cfg.debugMode);
    } else {
      TurnOrder(a.db, cands[1..], attempt, cfg, attempts + 1, debugSent);
      var s := ServeTurn(a.db, cands[1..], attempt, cfg, attempts + 1, debugSent).turn;
      assert AfterAttempt(a, cands, attempt, cfg, attempts, debugSent).turn == s.(log := [Tried(cands[0], a.reply.value)] + s.log);
      OrderedCons(s, Tried(cands[0], a.reply.value), cands, attempts, cfg.debugMode);
    }
  }

  /** A turn that made one attempt, on the first candidate, and kept the group or dropped that candidate, is in order. */
  lemma OrderedOne(t: Turn, cands: seq<RequestRecord>, attempts: nat, debugMode: bool)
    requires cands != [] && |t.log| == 1 && t.log[0].rec == cands[0]
    requires t.rest == cands || t.rest == cands[1..]
    requires t.attempts == attempts + 1 && t.halt != Aborted && (t.halt == CapReached ==> debugMode)
    ensures Ordered(t, cands, attempts, debugMode)
  {
    assert cands[|cands| - |cands|..] == cands;
    assert cands[|cands| - (|cands| - 1)..] == cands[1..];
  }

  /** A refusal that dropped the first candidate, followed by a turn over the others in order, is a turn in order. */
  lemma OrderedCons(s: Turn, tried: Tried, cands: seq<RequestRecord>, attempts: nat, debugMode: bool)
    requires cands != [] && tried.rec == cands[0] && !tried.outcome.sent && tried.outcome.removeCandidate
    requires Ordered(s, cands[1..], attempts + 1, debugMode)
    ensures Ordered(s.(log := [tried] + s.log), cands, attempts, debugMode)
  {
    var t := s.(log := [tried] + s.log);
    forall j | 0 <= j < |t.log|
      ensures t.log[j].rec == cands[j]
      ensures j < |t.log| - 1 ==> !t.log[j].outcome.sent && t.log[j].outcome.removeCandidate
    {
      if j > 0 {
        assert t.log[j] == s.log[j - 1];
      }
    }
    assert cands[1..][|cands| - 1 - |s.rest|..] == cands[|cands| - |s.rest|..];
  }

  /**
   * How a turn counts: at most one reminder is delivered; in debug mode each
   * delivery is counted, and a counter at or under the cap stays there.
   */
  ghost predicate Counted(t: Turn, debugSent: nat, cfg: Config) {
    && SentCount(t.log) <= 1
    && t.debugSent == debugSent + (if cfg.debugMode then SentCount(t.log) else 0)
    && (debugSent <= Cap(cfg) ==> t.debugSent <= Cap(cfg))
  }

  /** A turn delivers at most one reminder and keeps the debug count; see `Counted`. */
  lemma {:induction false} TurnCounts(db: Db, cands: seq<RequestRecord>, attempt: (Db, RequestRecord, nat) -> Attempted,
                                      cfg: Config, attempts: nat, debugSent: nat)
    ensures Counted(ServeTurn(db, cands, attempt, cfg, attempts, debugSent).turn, debugSent, cfg)
    decreases |cands|, 1
  {
    if cands != [] && !CapHit(cfg, debugSent) {
      AfterCounts(attempt(db, cands[0], attempts), cands, attempt, cfg, attempts, debugSent);
    }
  }

  lemma {:induction false} AfterCounts(a: Attempted, cands: seq<RequestRecord>, attempt: (Db, RequestRecord, nat) -> Attempted,
                                       cfg: Config, attempts: nat, debugSent: nat)
    requires cands != [] && !CapHit(cfg, debugSent)
    ensures Counted(AfterAttempt(a, cands, attempt, cfg, attempts, debugSent).turn, debugSent, cfg)
    decreases |cands|, 0
  {
    var t := AfterAttempt(a, cands, attempt, cfg, attempts, debugSent).turn;
    if a.reply.Returned? {
      var tried := Tried(cands[0], a.reply.value);
      if !a.reply.value.sent && a.reply.value.removeCandidate {
        TurnCounts(a.db, cands[1..], attempt, cfg, attempts + 1, debugSent);
        var s := ServeTurn(a.db, cands[1..], attempt, cfg, attempts + 1, debugSent).turn;
        assert t.log == [tried] + s.log;
        assert t.log[0] == tried && t.log[1..] == s.log;
      } else {
        assert t.log == [tried];
        assert t.log[1..] == [];
      }
    }
  }

  /** Every attempt that delivered was for a request with an address that an earlier run marked eligible. */
  ghost predicate SentWereEligible(log: seq<Tried>) {
    forall x :: x in log && x.outcome.sent ==>
      x.outcome.reason == Delivered && x.rec.eligibleForEmail && Strip(x.rec.email) != ""
  }

  /** The attempt `a` on `rec` delivered only if `rec` has an address and an earlier run marked it eligible. */
  predicate DeliversEligible(rec: RequestRecord, a: Attempted) {
    a.reply.Returned? && a.reply.value.sent ==>
      a.reply.value.reason == Delivered && rec.eligibleForEmail && Strip(rec.email) != ""
  }

  /** An attempt of the serving loop that delivers had passed the missing-address and the cycle checks. */
  lemma AttemptSentEligible(db: Db, rec: RequestRecord, user: EmailUser, env: Env, n: nat)
    ensures DeliversEligible(rec, Attempt(db, CallFor(rec, user, env), env.hashOf, env.oracles(n)))
  {
    var c := CallFor(rec, user, env);
    OutcomeShape(db, c, env.hashOf, env.oracles(n));
    MissingEmailFirst(db, c, env.hashOf, env.oracles(n));
    CycleDeferralSecond(db, c, env.hashOf, env.oracles(n));
  }

  /** Every attempt `main` makes delivers only for eligible requests with an address. */
  lemma TryEligible(user: EmailUser, env: Env)
    ensures forall d: Db, rec: RequestRecord, n: nat :: DeliversEligible(rec, Try(user, env)(d, rec, n))
  {
    forall d: Db, rec: RequestRecord, n: nat ensures DeliversEligible(rec, Try(user, env)(d, rec, n)) {
      AttemptSentEligible(d, rec, user, env, n);
    }
  }

  /** A turn whose attempts deliver only for eligible requests with an address delivers only for those. */
  lemma {:induction false} TurnSentEligible(db: Db, cands: seq<RequestRecord>, attempt: (Db, RequestRecord, nat) -> Attempted,
                                            cfg: Config, attempts: nat, debugSent: nat)
    requires forall d: Db, rec: RequestRecord, n: nat :: DeliversEligible(rec, attempt(d, rec, n))
    ensures SentWereEligible(ServeTurn(db, cands, attempt, cfg, attempts, debugSent).turn.log)
    decreases |cands|, 1
  {
    if cands != [] && !CapHit(cfg, debugSent) {
      AfterSentEligible(attempt(db, cands[0], attempts), cands, attempt, cfg, attempts, debugSent);
    }
  }

  lemma {:induction false} AfterSentEligible(a: Attempted, cands: seq<RequestRecord>, attempt: (Db, RequestRecord, nat) -> Attempted,
                                             cfg: Config, attempts: nat, debugSent: nat)
    requires cands != [] && DeliversEligible(cands[0], a)
    requires forall d: Db, rec: RequestRecord, n: nat :: DeliversEligible(rec, attempt(d, rec, n))
    ensures SentWereEligible(AfterAttempt(a, cands, attempt, cfg, attempts, debugSent).turn.log)
    decreases |cands|, 0
  {
    if a.reply.Returned? && !a.reply.value.sent && a.reply.value.removeCandidate {
      TurnSentEligible(a.db, cands[1..], attempt, cfg, attempts + 1, debugSent);
    }
  }

  /** No sent row was written, no stamp set, and no request row added or removed. */
  ghost predicate DryRun(db: Db, db2: Db) {
    && db2.sent == db.sent
    && Users.OnlyTouched(db.users, db2.users)
    && |db2.requests| == |db.requests|
  }

  lemma DryRunTransitive(a: Db, b: Db, c: Db)
    requires DryRun(a, b) && DryRun(b, c)
    ensures DryRun(a, c)
  {
    Users.OnlyTouchedTransitive(a.users, b.users, c.users);
  }

  /** From `db` to `db2` a valid registry stays valid and, in debug mode, nothing is persisted. */
  ghost predicate RegistryKept(db: Db, db2: Db, debug: bool) {
    Users.RegistryValid(db.users) ==> Users.RegistryValid(db2.users) && (debug ==> DryRun(db, db2))
  }

  /** Every attempt `main` makes keeps the registry valid and, in debug mode, persists nothing. */
  lemma TryRegistry(user: EmailUser, env: Env)
    ensures forall d: Db, rec: RequestRecord, n: nat :: RegistryKept(d, Try(user, env)(d, rec, n).db, env.cfg.debugMode)
  {
    forall d: Db, rec: RequestRecord, n: nat ensures RegistryKept(d, Try(user, env)(d, rec, n).db, env.cfg.debugMode) {
      if Users.RegistryValid(d.users) {
        var c := CallFor(rec, user, env);
        BookkeepingNeedsDelivery(d, c, env.hashOf, env.oracles(n));
        assert env.cfg.debugMode ==> Quiet(c, env.oracles(n), Attempt(d, c, env.hashOf, env.oracles(n)));
      }
    }
  }

  /** A turn whose attempts keep the registry valid and persist nothing in debug mode does the same. */
  lemma {:induction false} TurnRegistry(db: Db, cands: seq<RequestRecord>, attempt: (Db, RequestRecord, nat) -> Attempted,
                                        cfg: Config, attempts: nat, debugSent: nat)
    requires forall d: Db, rec: RequestRecord, n: nat :: RegistryKept(d, attempt(d, rec, n).db, cfg.debugMode)
    ensures RegistryKept(db, ServeTurn(db, cands, attempt, cfg, attempts, debugSent).db, cfg.debugMode)
    decreases |cands|, 1
  {
    Users.OnlyTouchedRefl(db.users);
    if cands != [] && !CapHit(cfg, debugSent) {
      var a := attempt(db, cands[0], attempts);
      assert RegistryKept(db, a.db, cfg.debugMode);
      AfterRegistry(db, a, cands, attempt, cfg, attempts, debugSent);
    }
  }

  lemma {:induction false} AfterRegistry(db: Db, a: Attempted, cands: seq<RequestRecord>, attempt: (Db, RequestRecord, nat) -> Attempted,
                                         cfg: Config, attempts: nat, debugSent: nat)
    requires cands != [] && RegistryKept(db, a.db, cfg.debugMode)
    requires forall d: Db, rec: RequestRecord, n: nat :: RegistryKept(d, attempt(d, rec, n).db, cfg.debugMode)
    ensures RegistryKept(db, AfterAttempt(a, cands, attempt, cfg, attempts, debugSent).db, cfg.debugMode)
    decreases |cands|, 0
  {
    if a.reply.Returned? && !a.reply.value.sent && a.reply.value.removeCandidate {
      var s := ServeTurn(a.db, cands[1..], attempt, cfg, attempts + 1, debugSent);
      assert AfterAttempt(a, cands, attempt, cfg, attempts, debugSent).db == s.db;
      TurnRegistry(a.db, cands[1..], attempt, cfg, attempts + 1, debugSent);
      if cfg.debugMode && Users.RegistryValid(db.users) {
        DryRunTransitive(db, a.db, s.db);
      }
    }
  }

  /** Every request left in the groups satisfies `ok`. */
  ghost predicate AllGrouped(groups: map<string, seq<RequestRecord>>, ok: RequestRecord -> bool) {
    forall key, x :: key in groups && x in groups[key] ==> ok(x)
  }

  /** Every request tried satisfies `ok`. */
  ghost predicate AllTried(log: seq<Tried>, ok: RequestRecord -> bool) {
    forall x :: x in log ==> ok(x.rec)
  }

  /** The groups `main` builds hold only overdue requests of their own key. */
  lemma GroupedOverdue(rs: seq<RequestRecord>, threshold: int)
    ensures AllGrouped(Grouped(rs, threshold), x => Overdue(x, threshold))
    ensures forall key, x :: key in Grouped(rs, threshold) && x in Grouped(rs, threshold)[key] ==> Key(x) == key
  {
    var g := Grouped(rs, threshold);
    forall key, x | key in g && x in g[key]
      ensures Overdue(x, threshold) && Key(x) == key
    {
      GroupedSpec(rs, threshold);
      OverdueForMembers(rs, threshold, key);
    }
  }

  /** Whether a snapshot document takes a turn: it has an address, is not unsubscribed and has candidates left. */
  predicate TakesTurn(s: State, u: EmailUser) {
    var key := Lower(Strip(u.email));
    Strip(u.email) != "" && !Truthy(Get(u.unsubscribedAt)) && key in s.p.groups && s.p.groups[key] != []
  }

  /** A document that takes a turn after the registry returned `user`: the state its turn leaves. */
  lemma DocumentTurn(s: State, u: EmailUser, env: Env)
    requires TakesTurn(s, u)
    ensures var email := Strip(u.email);
            var ens := Users.EnsureUser(s.db.users, email, env.hashOf);
            var key := Lower(email);
            ens.result.Returned? && ens.result.value.Some? ==>
              var t := ServeTurn(s.db.(users := ens.users), s.p.groups[key], Try(ens.result.value.value, env), env.cfg, s.p.attempts, s.p.debugSent);
              ServeDocument(s, u, env)
              == State(t.db, Progress(s.p.groups[key := t.turn.rest], t.turn.attempts, t.turn.debugSent, s.p.log + t.turn.log, t.turn.halt))
  {
  }

  /** A document that does not take a turn, or whose touch of the registry returned nothing, tries nothing. */
  lemma DocumentNoTurn(s: State, u: EmailUser, env: Env)
    ensures var ens := Users.EnsureUser(s.db.users, Strip(u.email), env.hashOf);
            var r := ServeDocument(s, u, env);
            !TakesTurn(s, u) || ens.result.Raised? || ens.result.value.None? ==>
              && r.p.groups == s.p.groups && r.p.log == s.p.log && r.p.debugSent == s.p.debugSent
              && (r.p.halt == s.p.halt || r.p.halt == Aborted)
              && r.db == (if TakesTurn(s, u) then s.db.(users := ens.users) else s.db)
  {
    if !TakesTurn(s, u) {
      assert ServeDocument(s, u, env) == s;
    } else {
      var ens := Users.EnsureUser(s.db.users, Strip(u.email), env.hashOf);
      var db1 := s.db.(users := ens.users);
      if ens.result.Raised? {
        assert ServeDocument(s, u, env) == State(db1, s.p.(halt := Aborted));
      } else if ens.result.value.None? {
        assert ServeDocument(s, u, env) == State(db1, s.p);
      }
    }
  }

  /** `r`'s log extends `t`'s. */
  ghost predicate Grows(t: State, r: State) {
    |t.p.log| <= |r.p.log| && r.p.log[..|t.p.log|] == t.p.log
  }

  /** From `t` to `r` the groups keep satisfying `ok`, the log only grows, and what was tried in between satisfies `ok`. */
  ghost predicate KeepsOk(t: State, r: State, ok: RequestRecord -> bool) {
    AllGrouped(r.p.groups, ok) && Grows(t, r) && AllTried(r.p.log[|t.p.log|..], ok)
  }

  /** From `t` to `r` the log only grows, and every delivery in between was for an eligible request with an address. */
  ghost predicate SendsEligible(t: State, r: State) {
    Grows(t, r) && SentWereEligible(r.p.log[|t.p.log|..])
  }

  /** From `t` to `r` a valid registry stays valid and, in debug mode, nothing is persisted. */
  ghost predicate KeepsRegistry(t: State, r: State, debug: bool) {
    Users.RegistryValid(t.db.users) ==> Users.RegistryValid(r.db.users) && (debug ==> DryRun(t.db, r.db))
  }

  /**
   * From `t` to `r` the log only grows, the debug counter counts exactly the
   * debug-mode deliveries in between, a counter within the cap stays within
   * it, and only debug mode reaches the cap.
   */
  ghost predicate CountsSends(t: State, r: State, cfg: Config) {
    && Grows(t, r)
    && r.p.debugSent == t.p.debugSent + (if cfg.debugMode then SentCount(r.p.log[|t.p.log|..]) else 0)
    && (t.p.debugSent <= Cap(cfg) ==> r.p.debugSent <= Cap(cfg))
    && (r.p.halt == CapReached ==> cfg.debugMode || t.p.halt == CapReached)
  }

  /** The log of a document's visit extends the log before it. */
  lemma DocumentExtends(s: State, u: EmailUser, env: Env)
    ensures Grows(s, ServeDocument(s, u, env))
  {
    var ens := Users.EnsureUser(s.db.users, Strip(u.email), env.hashOf);
    DocumentNoTurn(s, u, env);
    if TakesTurn(s, u) && ens.result.Returned? && ens.result.value.Some? {
      DocumentTurn(s, u, env);
    }
  }

  /** One document's visit keeps the groups satisfying `ok` and tries only requests satisfying it. */
  lemma DocumentTried(s: State, u: EmailUser, env: Env, ok: RequestRecord -> bool)
    requires AllGrouped(s.p.groups, ok)
    ensures KeepsOk(s, ServeDocument(s, u, env), ok)
  {
    var email := Strip(u.email);
    var key := Lower(email);
    var r := ServeDocument(s, u, env);
    var ens := Users.EnsureUser(s.db.users, email, env.hashOf);
    DocumentNoTurn(s, u, env);
    if TakesTurn(s, u) && ens.result.Returned? && ens.result.value.Some? {
      DocumentTurn(s, u, env);
      var db1 := s.db.(users := ens.users);
      var cands := s.p.groups[key];
      var user := ens.result.value.value;
      TurnOrder(db1, cands, Try(user, env), env.cfg, s.p.attempts, s.p.debugSent);
      var t := ServeTurn(db1, cands, Try(user, env), env.cfg, s.p.attempts, s.p.debugSent).turn;
      OrderedTried(t, cands, s.p.attempts, env.cfg.debugMode, s.p.groups, key, ok);
      assert r.p.groups == s.p.groups[key := t.rest];
      assert r.p.log == s.p.log + t.log;
      assert r.p.log[|s.p.log|..] == t.log;
    } else {
      assert r.p.log[|s.p.log|..] == [];
    }
  }

  /** A turn over a group satisfying `ok` tries only requests satisfying it and leaves the groups satisfying it. */
  lemma OrderedTried(t: Turn, cands: seq<RequestRecord>, attempts: nat, debugMode: bool,
                     groups: map<string, seq<RequestRecord>>, key: string, ok: RequestRecord -> bool)
    requires Ordered(t, cands, attempts, debugMode) && AllGrouped(groups, ok) && key in groups && groups[key] == cands
    ensures AllTried(t.log, ok) && AllGrouped(groups[key := t.rest], ok)
  {
    forall x | x in t.log ensures ok(x.rec) {
      var j :| 0 <= j < |t.log| && t.log[j] == x;
      assert x.rec == cands[j] && x.rec in cands;
    }
    var g := groups[key := t.rest];
    forall k, x | k in g && x in g[k] ensures ok(x) {
      if k == key {
        assert x in cands;
      }
    }
  }

  /** Every delivery of one document's visit was for an eligible request with an address. */
  lemma DocumentEligible(s: State, u: EmailUser, env: Env)
    ensures SendsEligible(s, ServeDocument(s, u, env))
  {
    var email := Strip(u.email);
    var r := ServeDocument(s, u, env);
    var ens := Users.EnsureUser(s.db.users, email, env.hashOf);
    DocumentNoTurn(s, u, env);
    if TakesTurn(s, u) && ens.result.Returned? && ens.result.value.Some? {
      DocumentTurn(s, u, env);
      var db1 := s.db.(users := ens.users);
      var cands := s.p.groups[Lower(email)];
      var user := ens.result.value.value;
      TryEligible(user, env);
      TurnSentEligible(db1, cands, Try(user, env), env.cfg, s.p.attempts, s.p.debugSent);
      var t := ServeTurn(db1, cands, Try(user, env), env.cfg, s.p.attempts, s.p.debugSent).turn;
      assert r.p.log == s.p.log + t.log;
      assert r.p.log[|s.p.log|..] == t.log;
    } else {
      assert r.p.log[|s.p.log|..] == [];
    }
  }

  /** One document's visit keeps the registry valid and, in debug mode, persists nothing. */
  lemma DocumentRegistry(s: State, u: EmailUser, env: Env)
    ensures KeepsRegistry(s, ServeDocument(s, u, env), env.cfg.debugMode)
  {
    if Users.RegistryValid(s.db.users) {
      var email := Strip(u.email);
      var ens := Users.EnsureUser(s.db.users, email, env.hashOf);
      Users.OnlyTouchedRefl(s.db.users);
      Users.EnsureUserOnlyTouches(s.db.users, email, env.hashOf);
      DocumentNoTurn(s, u, env);
      var db1 := s.db.(users := ens.users);
      if TakesTurn(s, u) && ens.result.Returned? && ens.result.value.Some? {
        DocumentTurn(s, u, env);
        var cands := s.p.groups[Lower(email)];
        var user := ens.result.value.value;
        TryRegistry(user, env);
        TurnRegistry(db1, cands, Try(user, env), env.cfg, s.p.attempts, s.p.debugSent);
        if env.cfg.debugMode {
          DryRunTransitive(s.db, db1, ServeTurn(db1, cands, Try(user, env), env.cfg, s.p.attempts, s.p.debugSent).db);
        }
      }
    }
  }

  /** One document's visit counts its debug-mode deliveries and stays under the cap. */
  lemma DocumentCounts(s: State, u: EmailUser, env: Env)
    ensures CountsSends(s, ServeDocument(s, u, env), env.cfg)
  {
    var email := Strip(u.email);
    var r := ServeDocument(s, u, env);
    var ens := Users.EnsureUser(s.db.users, email, env.hashOf);
    DocumentExtends(s, u, env);
    DocumentNoTurn(s, u, env);
    if TakesTurn(s, u) && ens.result.Returned? && ens.result.value.Some? {
      DocumentTurn(s, u, env);
      var db1 := s.db.(users := ens.users);
      var cands := s.p.groups[Lower(email)];
      var user := ens.result.value.value;
      TurnOrder(db1, cands, Try(user, env), env.cfg, s.p.attempts, s.p.debugSent);
      TurnCounts(db1, cands, Try(user, env), env.cfg, s.p.attempts, s.p.debugSent);
      var t := ServeTurn(db1, cands, Try(user, env), env.cfg, s.p.attempts, s.p.debugSent);
      assert r.p.log == s.p.log + t.turn.log;
      assert r.p.log[|s.p.log|..] == t.turn.log;
    } else {
      assert r.p.log[|s.p.log|..] == [];
    }
  }

  /** The serving loop from document `k`, with a body that keeps the groups satisfying `ok`, tries only requests satisfying it. */
  lemma {:induction false} ServeFromTried(s: State, snapshot: seq<EmailUser>, visit: (State, EmailUser) -> State,
                                          k: nat, ok: RequestRecord -> bool)
    requires k <= |snapshot| && AllGrouped(s.p.groups, ok) && AllTried(s.p.log, ok)
    requires forall t: State, u: EmailUser :: AllGrouped(t.p.groups, ok) ==> KeepsOk(t, visit(t, u), ok)
    ensures AllTried(ServeFrom(s, snapshot, visit, k).p.log, ok)
    decreases |snapshot| - k
  {
    if k < |snapshot| && s.p.halt == Running {
      var d := visit(s, snapshot[k]);
      assert ServeFrom(s, snapshot, visit, k) == ServeFrom(d, snapshot, visit, k + 1);
      assert KeepsOk(s, d, ok);
      var tail := d.p.log[|s.p.log|..];
      assert d.p.log == s.p.log + tail;
      forall x | x in d.p.log ensures ok(x.rec) {
        if x !in s.p.log {
          assert x in tail;
        }
      }
      ServeFromTried(d, snapshot, visit, k + 1, ok);
    }
  }

  /** The serving loop from document `k`, with a body whose deliveries are all eligible, delivers only for eligible requests. */
  lemma {:induction false} ServeFromEligible(s: State, snapshot: seq<EmailUser>, visit: (State, EmailUser) -> State, k: nat)
    requires k <= |snapshot| && SentWereEligible(s.p.log)
    requires forall t: State, u: EmailUser :: SendsEligible(t, visit(t, u))
    ensures SentWereEligible(ServeFrom(s, snapshot, visit, k).p.log)
    decreases |snapshot| - k
  {
    if k < |snapshot| && s.p.halt == Running {
      var d := visit(s, snapshot[k]);
      assert ServeFrom(s, snapshot, visit, k) == ServeFrom(d, snapshot, visit, k + 1);
      assert SendsEligible(s, d);
      assert d.p.log == s.p.log + d.p.log[|s.p.log|..];
      ServeFromEligible(d, snapshot, visit, k + 1);
    }
  }

  /** The serving loop from document `k`, with a body that keeps the registry valid and persists nothing in debug mode, does too. */
  lemma {:induction false} ServeFromRegistry(s: State, snapshot: seq<EmailUser>, visit: (State, EmailUser) -> State,
                                             debug: bool, k: nat)
    requires k <= |snapshot| && Users.RegistryValid(s.db.users)
    requires forall t: State, u: EmailUser :: KeepsRegistry(t, visit(t, u), debug)
    ensures var r := ServeFrom(s, snapshot, visit, k);
            Users.RegistryValid(r.db.users) && (debug ==> DryRun(s.db, r.db))
    decreases |snapshot| - k
  {
    Users.OnlyTouchedRefl(s.db.users);
    if k < |snapshot| && s.p.halt == Running {
      var d := visit(s, snapshot[k]);
      var r := ServeFrom(d, snapshot, visit, k + 1);
      assert ServeFrom(s, snapshot, visit, k) == r;
      assert KeepsRegistry(s, d, debug);
      ServeFromRegistry(d, snapshot, visit, debug, k + 1);
      if debug {
        DryRunTransitive(s.db, d.db, r.db);
      }
    }
  }

  /**
   * The serving loop from document `k`, with a body that counts its
   * debug-mode deliveries and respects the cap, counts every debug-mode
   * delivery and stops before the count passes the cap; only debug mode
   * reaches the cap.
   */
  lemma {:induction false} ServeFromCounts(s: State, snapshot: seq<EmailUser>, visit: (State, EmailUser) -> State,
                                           cfg: Config, k: nat)
    requires k <= |snapshot|
    requires forall t: State, u: EmailUser :: CountsSends(t, visit(t, u), cfg)
    ensures CountsSends(s, ServeFrom(s, snapshot, visit, k), cfg)
    decreases |snapshot| - k
  {
    if k < |snapshot| && s.p.halt == Running {
      var d := visit(s, snapshot[k]);
      var r := ServeFrom(d, snapshot, visit, k + 1);
      assert ServeFrom(s, snapshot, visit, k) == r;
      assert CountsSends(s, d, cfg);
      ServeFromCounts(d, snapshot, visit, cfg, k + 1);
      CountsTransitive(s, d, r, cfg);
    } else {
      assert s.p.log[..|s.p.log|] == s.p.log && s.p.log[|s.p.log|..] == [];
    }
  }

  lemma CountsTransitive(a: State, b: State, c: State, cfg: Config)
    requires CountsSends(a, b, cfg) && CountsSends(b, c, cfg)
    ensures CountsSends(a, c, cfg)
  {
    assert c.p.log[..|b.p.log|][..|a.p.log|] == c.p.log[..|a.p.log|];
    SplitTail(a.p.log, b.p.log, c.p.log);
    SentCountAppend(b.p.log[|a.p.log|..], c.p.log[|b.p.log|..]);
  }

  /** The new part of a log extended twice is the two new parts in order. */
  lemma SplitTail(a: seq<Tried>, b: seq<Tried>, c: seq<Tried>)
    requires |a| <= |b| <= |c| && b[..|a|] == a && c[..|b|] == b
    ensures c[|a|..] == b[|a|..] + c[|b|..]
  {
  }

  /** Every visit of `main`'s loop body keeps the groups satisfying `ok` and tries only requests satisfying it. */
  lemma VisitTried(env: Env, ok: RequestRecord -> bool)
    ensures forall t: State, u: EmailUser :: AllGrouped(t.p.groups, ok) ==> KeepsOk(t, Visit(env)(t, u), ok)
  {
    forall t: State, u: EmailUser | AllGrouped(t.p.groups, ok) ensures KeepsOk(t, Visit(env)(t, u), ok) {
      DocumentTried(t, u, env, ok);
    }
  }

  /** Every delivery of a visit of `main`'s loop body is for an eligible request with an address. */
  lemma VisitEligible(env: Env)
    ensures forall t: State, u: EmailUser :: SendsEligible(t, Visit(env)(t, u))
  {
    forall t: State, u: EmailUser ensures SendsEligible(t, Visit(env)(t, u)) {
      DocumentEligible(t, u, env);
    }
  }

  /** Every visit of `main`'s loop body keeps the registry valid and, in debug mode, persists nothing. */
  lemma VisitRegistry(env: Env)
    ensures forall t: State, u: EmailUser :: KeepsRegistry(t, Visit(env)(t, u), env.cfg.debugMode)
  {
    forall t: State, u: EmailUser ensures KeepsRegistry(t, Visit(env)(t, u), env.cfg.debugMode) {
      DocumentRegistry(t, u, env);
    }
  }

  /** Every visit of `main`'s loop body counts its debug-mode deliveries and respects the cap. */
  lemma VisitCounts(env: Env)
    ensures forall t: State, u: EmailUser :: CountsSends(t, Visit(env)(t, u), env.cfg)
  {
    forall t: State, u: EmailUser ensures CountsSends(t, Visit(env)(t, u), env.cfg) {
      DocumentCounts(t, u, env);
    }
  }

  /** The recipient key of a snapshot document: its address stripped and lower-cased. */
  function UserKey(u: EmailUser): string {
    Lower(Strip(u.email))
  }

  /** Every group holds only requests of its own key. */
  ghost predicate KeyedGroups(groups: map<string, seq<RequestRecord>>) {
    forall key, x :: key in groups && x in groups[key] ==> Key(x) == key
  }

  /** No two documents of the snapshot share a recipient key. */
  ghost predicate DistinctKeys(snapshot: seq<EmailUser>) {
    forall i, j :: 0 <= i < j < |snapshot| ==> UserKey(snapshot[i]) != UserKey(snapshot[j])
  }

  /** No two deliveries of the log went to the same recipient key. */
  ghost predicate OneSendPerKey(log: seq<Tried>) {
    forall i, j :: 0 <= i < j < |log| && log[i].outcome.sent && log[j].outcome.sent ==> Key(log[i].rec) != Key(log[j].rec)
  }

  /**
   * From `t` to `r` the groups stay keyed, the log only grows, and what was
   * tried in between is of recipient `key`, with at most one delivery.
   */
  ghost predicate KeyedVisit(t: State, r: State, key: string) {
    && KeyedGroups(r.p.groups) && Grows(t, r)
    && SentCount(r.p.log[|t.p.log|..]) <= 1
    && forall x :: x in r.p.log[|t.p.log|..] ==> Key(x.rec) == key
  }

  /** A log with a delivery counts at least one. */
  lemma {:induction false} SentOnce(l: seq<Tried>, j: nat)
    requires j < |l| && l[j].outcome.sent
    ensures SentCount(l) >= 1
  {
    if j > 0 {
      assert l[1..][j - 1] == l[j];
      SentOnce(l[1..], j - 1);
    }
  }

  /** A log with two deliveries counts at least two. */
  lemma {:induction false} SentTwice(l: seq<Tried>, i: nat, j: nat)
    requires i < j < |l| && l[i].outcome.sent && l[j].outcome.sent
    ensures SentCount(l) >= 2
  {
    assert l[1..][j - 1] == l[j];
    if i == 0 {
      SentOnce(l[1..], j - 1);
    } else {
      assert l[1..][i - 1] == l[i];
      SentTwice(l[1..], i - 1, j - 1);
    }
  }

  /** A log counting at most one delivery has no two deliveries. */
  lemma NoSecondSend(b: seq<Tried>)
    requires SentCount(b) <= 1
    ensures forall i, j :: 0 <= i < j < |b| ==> !(b[i].outcome.sent && b[j].outcome.sent)
  {
    forall i, j | 0 <= i < j < |b| && b[i].outcome.sent
      ensures !b[j].outcome.sent
    {
      if b[j].outcome.sent {
        SentTwice(b, i, j);
      }
    }
  }

  /**
   * Appending the attempts of one recipient, with at most one delivery, to a
   * log that has delivered to nobody of that key keeps one delivery per key.
   */
  lemma OneSendJoin(a: seq<Tried>, b: seq<Tried>, key: string)
    requires OneSendPerKey(a)
    requires forall i, j :: 0 <= i < j < |b| ==> !(b[i].outcome.sent && b[j].outcome.sent)
    requires forall i :: 0 <= i < |a| && a[i].outcome.sent ==> Key(a[i].rec) != key
    requires forall j :: 0 <= j < |b| ==> Key(b[j].rec) == key
    ensures OneSendPerKey(a + b)
  {
    var l := a + b;
    forall i, j | 0 <= i < j < |l| && l[i].outcome.sent && l[j].outcome.sent
      ensures Key(l[i].rec) != Key(l[j].rec)
    {
      if j < |a| {
        assert l[i] == a[i] && l[j] == a[j];
      } else {
        assert l[j] == b[j - |a|];
        if i < |a| {
          assert l[i] == a[i];
        }
      }
    }
  }

  /** A turn in order over a keyed group tries only requests of that key and leaves the groups keyed. */
  lemma OrderedKeyed(t: Turn, cands: seq<RequestRecord>, attempts: nat, debugMode: bool,
                     groups: map<string, seq<RequestRecord>>, key: string)
    requires Ordered(t, cands, attempts, debugMode) && KeyedGroups(groups) && key in groups && groups[key] == cands
    ensures forall j :: 0 <= j < |t.log| ==> Key(t.log[j].rec) == key
    ensures KeyedGroups(groups[key := t.rest])
  {
    forall j | 0 <= j < |t.log| ensures Key(t.log[j].rec) == key {
      assert t.log[j].rec == cands[j] && cands[j] in groups[key];
    }
    var g := groups[key := t.rest];
    forall k, x | k in g && x in g[k] ensures Key(x) == k {
      if k == key {
        var j :| 0 <= j < |t.rest| && t.rest[j] == x;
        assert x == cands[|cands| - |t.rest| + j] && x in groups[key];
      }
    }
  }

  /** One document's visit tries only requests of its own key, delivers at most once, and keeps the groups keyed. */
  lemma DocumentKeyed(s: State, u: EmailUser, env: Env)
    requires KeyedGroups(s.p.groups)
    ensures KeyedVisit(s, ServeDocument(s, u, env), UserKey(u))
  {
    var email := Strip(u.email);
    var key := Lower(email);
    var r := ServeDocument(s, u, env);
    var ens := Users.EnsureUser(s.db.users, email, env.hashOf);
    DocumentExtends(s, u, env);
    DocumentNoTurn(s, u, env);
    if TakesTurn(s, u) && ens.result.Returned? && ens.result.value.Some? {
      DocumentTurn(s, u, env);
      var db1 := s.db.(users := ens.users);
      var cands := s.p.groups[key];
      var user := ens.result.value.value;
      TurnOrder(db1, cands, Try(user, env), env.cfg, s.p.attempts, s.p.debugSent);
      TurnCounts(db1, cands, Try(user, env), env.cfg, s.p.attempts, s.p.debugSent);
      var t := ServeTurn(db1, cands, Try(user, env), env.cfg, s.p.attempts, s.p.debugSent).turn;
      OrderedKeyed(t, cands, s.p.attempts, env.cfg.debugMode, s.p.groups, key);
      assert r.p.groups == s.p.groups[key := t.rest];
      assert r.p.log == s.p.log + t.log;
      assert r.p.log[|s.p.log|..] == t.log;
    } else {
      assert r.p.log[|s.p.log|..] == [];
    }
  }

  /** Every visit of `main`'s loop body tries only requests of the document's key and delivers at most once. */
  lemma VisitKeyed(env: Env)
    ensures forall t: State, u: EmailUser {:trigger Visit(env)(t, u)} :: KeyedGroups(t.p.groups) ==> KeyedVisit(t, Visit(env)(t, u), UserKey(u))
  {
    forall t: State, u: EmailUser | KeyedGroups(t.p.groups) ensures KeyedVisit(t, Visit(env)(t, u), UserKey(u)) {
      DocumentKeyed(t, u, env);
    }
  }

  /** A sequence that starts with `a` is `a` followed by the rest. */
  lemma PrefixSplit<T>(a: seq<T>, l: seq<T>)
    requires |a| <= |l| && l[..|a|] == a
    ensures l == a + l[|a|..]
  {
    assert l == l[..|a|] + l[|a|..];
  }

  /** Nothing delivered in `log` went to the key of a document from `k` on. */
  ghost predicate NoneAhead(log: seq<Tried>, snapshot: seq<EmailUser>, k: nat) {
    forall x, i :: x in log && x.outcome.sent && k <= i < |snapshot| ==> Key(x.rec) != UserKey(snapshot[i])
  }

  /** One keyed visit of document `k` keeps one delivery per key and nothing delivered to a key still ahead. */
  lemma OnePerKeyStep(s: State, d: State, snapshot: seq<EmailUser>, k: nat)
    requires k < |snapshot| && DistinctKeys(snapshot) && OneSendPerKey(s.p.log) && NoneAhead(s.p.log, snapshot, k)
    requires KeyedVisit(s, d, UserKey(snapshot[k]))
    ensures KeyedGroups(d.p.groups) && OneSendPerKey(d.p.log) && NoneAhead(d.p.log, snapshot, k + 1)
  {
    var key := UserKey(snapshot[k]);
    var tail := d.p.log[|s.p.log|..];
    PrefixSplit(s.p.log, d.p.log);
    forall i | 0 <= i < |s.p.log| && s.p.log[i].outcome.sent ensures Key(s.p.log[i].rec) != key {
      assert s.p.log[i] in s.p.log;
    }
    forall j | 0 <= j < |tail| ensures Key(tail[j].rec) == key {
      assert tail[j] in tail;
    }
    NoSecondSend(tail);
    OneSendJoin(s.p.log, tail, key);
    forall x, i | x in d.p.log && x.outcome.sent && k + 1 <= i < |snapshot|
      ensures Key(x.rec) != UserKey(snapshot[i])
    {
      if x !in s.p.log {
        assert x in tail;
        assert UserKey(snapshot[k]) != UserKey(snapshot[i]);
      }
    }
  }

  /**
   * The serving loop from document `k` over a snapshot without repeated
   * keys, with a body that serves one key at most once, delivers to every
   * recipient key at most once, provided nothing delivered so far went to a
   * key still ahead.
   */
  lemma {:induction false} ServeFromOnePerKey(s: State, snapshot: seq<EmailUser>, visit: (State, EmailUser) -> State, k: nat)
    requires k <= |snapshot| && DistinctKeys(snapshot) && KeyedGroups(s.p.groups) && OneSendPerKey(s.p.log)
    requires NoneAhead(s.p.log, snapshot, k)
    requires forall t: State, u: EmailUser {:trigger visit(t, u)} :: KeyedGroups(t.p.groups) ==> KeyedVisit(t, visit(t, u), UserKey(u))
    ensures OneSendPerKey(ServeFrom(s, snapshot, visit, k).p.log)
    decreases |snapshot| - k
  {
    if k < |snapshot| && s.p.halt == Running {
      var d := visit(s, snapshot[k]);
      assert KeyedVisit(s, d, UserKey(snapshot[k]));
      OnePerKeyStep(s, d, snapshot, k);
      ServeFromOnePerKey(d, snapshot, visit, k + 1);
      assert ServeFrom(s, snapshot, visit, k) == ServeFrom(d, snapshot, visit, k + 1);
    }
  }

  /**
   * Over a snapshot in which no two documents share a recipient key, a whole
   * serving loop delivers at most one reminder per recipient key.
   */
  lemma ServeOnePerKey(db: Db, rs: seq<RequestRecord>, threshold: int, snapshot: seq<EmailUser>, env: Env)
    requires DistinctKeys(snapshot)
    ensures OneSendPerKey(ServeFrom(State(db, Progress(Grouped(rs, threshold), 0, 0, [], Running)), snapshot, Visit(env), 0).p.log)
  {
    var s := State(db, Progress(Grouped(rs, threshold), 0, 0, [], Running));
    GroupedOverdue(rs, threshold);
    assert KeyedGroups(s.p.groups);
    VisitKeyed(env);
    ServeFromOnePerKey(s, snapshot, Visit(env), 0);
  }

  /**
   * A registry whose addresses are stored stripped and lower-cased, as
   * `_ensure_email_user_record` writes them for the stripped addresses
   * `main` passes, has no two documents with the same recipient key.
   */
  lemma NormalizedDistinct(us: seq<UserDoc>)
    requires Users.RegistryValid(us)
    requires forall i :: 0 <= i < |us| ==> Lower(Strip(us[i].user.email)) == us[i].user.email
    ensures DistinctKeys(Snapshot(us))
  {
  }

  /**
   * The whole serving loop over the groups `main` builds: every request
   * tried is overdue, every delivery was for an eligible request, and in
   * debug mode nothing is persisted and at most `DEBUG_MAX_EMAILS` reminders
   * go out.
   */
  lemma ServeSpec(db: Db, rs: seq<RequestRecord>, threshold: int, snapshot: seq<EmailUser>, env: Env)
    requires Users.RegistryValid(db.users)
    ensures var r := ServeFrom(State(db, Progress(Grouped(rs, threshold), 0, 0, [], Running)), snapshot, Visit(env), 0);
            && Users.RegistryValid(r.db.users)
            && (forall x :: x in r.p.log ==> Overdue(x.rec, threshold))
            && SentWereEligible(r.p.log)
            && (env.cfg.debugMode ==> DryRun(db, r.db) && SentCount(r.p.log) == r.p.debugSent <= Cap(env.cfg))
            && (!env.cfg.debugMode ==> r.p.halt != CapReached && r.p.debugSent == 0)
            && (DistinctKeys(snapshot) ==> OneSendPerKey(r.p.log))
  {
    var s := State(db, Progress(Grouped(rs, threshold), 0, 0, [], Running));
    var ok := x => Overdue(x, threshold);
    GroupedOverdue(rs, threshold);
    VisitTried(env, ok);
    ServeFromTried(s, snapshot, Visit(env), 0, ok);
    VisitEligible(env);
    ServeFromEligible(s, snapshot, Visit(env), 0);
    VisitRegistry(env);
    ServeFromRegistry(s, snapshot, Visit(env), env.cfg.debugMode, 0);
    VisitCounts(env);
    ServeFromCounts(s, snapshot, Visit(env), env.cfg, 0);
    var r := ServeFrom(s, snapshot, Visit(env), 0);
    assert r.p.log[0..] == r.p.log;
    if DistinctKeys(snapshot) {
      ServeOnePerKey(db, rs, threshold, snapshot, env);
    }
  }
}
