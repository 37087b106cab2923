/**
 * Step 4 of `main` after the grouping: for every document of the e-mail-user
 * snapshot, the overdue requests of that recipient are attempted in store
 * order until one is sent, one must wait, the debug cap is reached or an
 * attempt raises. Each attempt is `Send.Attempt` with the cycle and the
 * cooldown respected and, in debug mode, nothing persisted.
 */
module Serve {
  import opened Wrappers
  import opened Text
  import opened Stamps
  import opened Records
  import Users
  import opened Tables
  import opened Send

  /**
   * What every attempt of the serving loop shares: the settings, the titles
   * of the metadata refresh, the run's `now_dt`, the address hash, and the
   * outside world's answers to the attempt with a given running number.
   */
  datatype Env = Env(cfg: Config, updates: map<int, string>, nowDt: int, hashOf: string -> int, oracles: nat -> Oracles)

  /** The arguments `main` passes to `_attempt_send_request`. */
  function CallFor(rec: RequestRecord, user: EmailUser, env: Env): Call {
    Call(rec, env.updates, Some(user), Flags(true, true, !env.cfg.debugMode), env.nowDt, env.cfg.hoursBetweenEmails)
  }

  /** One attempt the loop made and what it returned. */
  datatype Tried = Tried(rec: RequestRecord, outcome: SendOutcome)

  /** Why the loop stopped: it goes on, the debug cap ended the run, or an attempt raised and ended it. */
  datatype Halt = Running | CapReached | Aborted

  /**
   * One recipient's turn: the candidates left in the group, the running
   * number of attempts, the debug-mode send counter, what was tried, and how
   * the turn ended.
   */
  datatype Turn = Turn(rest: seq<RequestRecord>, attempts: nat, debugSent: nat, log: seq<Tried>, halt: Halt)

  /** The state after a turn and the turn. */
  datatype Served = Served(db: Db, turn: Turn)

  /** `DEBUG_MODE and debug_emails_sent >= DEBUG_MAX_EMAILS`. */
  predicate CapHit(cfg: Config, debugSent: nat) {
    cfg.debugMode && debugSent >= cfg.debugMaxEmails
  }

  /**
   * The attempt `main` makes on candidate `rec` for `user` as the loop's
   * attempt number `n`: `_attempt_send_request` with the loop's arguments.
   */
  function Try(user: EmailUser, env: Env): (Db, RequestRecord, nat) -> Attempted {
    (db: Db, rec: RequestRecord, n: nat) => Attempt(db, CallFor(rec, user, env), env.hashOf, env.oracles(n))
  }

  /** The `while candidates` loop for one recipient, with `attempt` as the attempt on a candidate. */
  function ServeTurn(db: Db, cands: seq<RequestRecord>, attempt: (Db, RequestRecord, nat) -> Attempted, cfg: Config,
                     attempts: nat, debugSent: nat): Served
    decreases |cands|, 1
  {
    if cands == [] then Served(db, Turn([], attempts, debugSent, [], Running))
    else if CapHit(cfg, debugSent) then Served(db, Turn(cands, attempts, debugSent, [], CapReached))
    else AfterAttempt(attempt(db, cands[0], attempts), cands, attempt, cfg, attempts, debugSent)
  }

  /**
   * What the loop does with the attempt on the first candidate: pop it and go
   * on when it is refused for good, stop when it must wait, count a debug-mode
   * send, and pop it and stop after a send.
   */
  function AfterAttempt(a: Attempted, cands: seq<RequestRecord>, attempt: (Db, RequestRecord, nat) -> Attempted, cfg: Config,
                        attempts: nat, debugSent: nat): Served
    requires cands != []
    decreases |cands|, 0
  {
    match a.reply
    case Raised => Served(a.db, Turn(cands, attempts + 1, debugSent, [], Aborted))
    case Returned(out) =>
      var tried := Tried(cands[0], out);
      if !out.sent then
        if out.removeCandidate then
          var s := ServeTurn(a.db, cands[1..], attempt, cfg, attempts + 1, debugSent);
          Served(s.db, s.turn.(log := [tried] + s.turn.log))
        else Served(a.db, Turn(cands, attempts + 1, debugSent, [tried], Running))
      else if cfg.debugMode && debugSent + 1 >= cfg.debugMaxEmails then
        Served(a.db, Turn(cands, attempts + 1, debugSent + 1, [tried], CapReached))
      else
        Served(a.db, Turn(cands[1..], attempts + 1, if cfg.debugMode then debugSent + 1 else debugSent, [tried], Running))
  }

  /** The serving loop's counters and the groups as it has left them. */
  datatype Progress = Progress(groups: map<string, seq<RequestRecord>>, attempts: nat, debugSent: nat, log: seq<Tried>, halt: Halt)

  /** The state during the serving loop. */
  datatype State = State(db: Db, p: Progress)

  /** The copy of the user table the loop walks, taken before it starts. */
  function Snapshot(us: seq<UserDoc>): (s: seq<EmailUser>)
    ensures |s| == |us| && forall i :: 0 <= i < |us| ==> s[i] == us[i].user
  {
    seq(|us|, i requires 0 <= i < |us| => us[i].user)
  }

  /**
   * One document of the snapshot: one without an address, an unsubscribed one
   * and one whose key has no candidates left are skipped; the others are
   * touched in the registry and take their turn. Popped candidates stay
   * popped for a later document with the same key.
   */
  function ServeDocument(s: State, u: EmailUser, env: Env): State {
    var email := Strip(u.email);
    var key := Lower(email);
    if email == "" || Truthy(Get(u.unsubscribedAt)) || key !in s.p.groups || s.p.groups[key] == [] then s
    else
      var ens := Users.EnsureUser(s.db.users, email, env.hashOf);
      var db1 := s.db.(users := ens.users);
      match ens.result
      case Raised => State(db1, s.p.(halt := Aborted))
      case Returned(None) => State(db1, s.p)
      case Returned(Some(user)) =>
        var t := ServeTurn(db1, s.p.groups[key], Try(user, env), env.cfg, s.p.attempts, s.p.debugSent);
        State(t.db, Progress(s.p.groups[key := t.turn.rest], t.turn.attempts, t.turn.debugSent, s.p.log + t.turn.log, t.turn.halt))
  }

  /** The body of `main`'s loop over the snapshot. */
  function Visit(env: Env): (State, EmailUser) -> State {
    (s, u) => ServeDocument(s, u, env)
  }

  /**
   * The `for user_record in user_records_snapshot` loop from document `k` on,
   * with `visit` as its body, until something halts it.
   */
  function ServeFrom(s: State, snapshot: seq<EmailUser>, visit: (State, EmailUser) -> State, k: nat): State
    requires k <= |snapshot|
    decreases |snapshot| - k
  {
    if k == |snapshot| || s.p.halt != Running then s
    else ServeFrom(visit(s, snapshot[k]), snapshot, visit, k + 1)
  }

  /** `Served` with `l` put in front of its log. */
  function Prefixed(l: seq<Tried>, s: Served): Served {
    Served(s.db, s.turn.(log := l + s.turn.log))
  }

  lemma PrefixedTwice(l1: seq<Tried>, l2: seq<Tried>, s: Served)
    ensures Prefixed(l1, Prefixed(l2, s)) == Prefixed(l1 + l2, s)
  {
    assert l1 + (l2 + s.turn.log) == (l1 + l2) + s.turn.log;
  }

  /** The attempt on the first candidate, on the store. */
  method AttemptFirst(st: Store, cands: seq<RequestRecord>, user: EmailUser, env: Env, attempts: nat, debugSent: nat)
    returns (reply: Reply<SendOutcome>)
    requires cands != [] && !CapHit(env.cfg, debugSent)
    modifies st
    ensures ServeTurn(old(st.Db()), cands, Try(user, env), env.cfg, attempts, debugSent)
            == AfterAttempt(Attempted(st.Db(), reply), cands, Try(user, env), env.cfg, attempts, debugSent)
  {
    reply := AttemptSend(st, CallFor(cands[0], user, env), env.hashOf, env.oracles(attempts));
  }

  /**
   * One pass of the `while candidates` body on the store: either the turn goes
   * on with the candidates in `step.rest` after what `step.log` records, or it
   * is over and `step` is its result.
   */
  method TurnStep(st: Store, cands: seq<RequestRecord>, user: EmailUser, env: Env, attempts: nat, debugSent: nat)
    returns (step: Turn, more: bool)
    modifies st
    ensures more ==> && |step.rest| < |cands|
                     && ServeTurn(old(st.Db()), cands, Try(user, env), env.cfg, attempts, debugSent)
                        == Prefixed(step.log, ServeTurn(st.Db(), step.rest, Try(user, env), env.cfg, step.attempts, step.debugSent))
    ensures !more ==> ServeTurn(old(st.Db()), cands, Try(user, env), env.cfg, attempts, debugSent) == Served(st.Db(), step)
  {
    if cands == [] {
      return Turn([], attempts, debugSent, [], Running), false;
    }
    if env.cfg.debugMode && debugSent >= env.cfg.debugMaxEmails {
      return Turn(cands, attempts, debugSent, [], CapReached), false;
    }
    var reply := AttemptFirst(st, cands, user, env, attempts, debugSent);
    if reply.Raised? {
      return Turn(cands, attempts + 1, debugSent, [], Aborted), false;
    }
    var out := reply.value;
    var tried := Tried(cands[0], out);
    if !out.sent {
      if out.removeCandidate {
        return Turn(cands[1..], attempts + 1, debugSent, [tried], Running), true;
      }
      return Turn(cands, attempts + 1, debugSent, [tried], Running), false;
    }
    if env.cfg.debugMode {
      if debugSent + 1 >= env.cfg.debugMaxEmails {
        return Turn(cands, attempts + 1, debugSent + 1, [tried], CapReached), false;
      }
      return Turn(cands[1..], attempts + 1, debugSent + 1, [tried], Running), false;
    }
    return Turn(cands[1..], attempts + 1, debugSent, [tried], Running), false;
  }

  /** One recipient's turn on the store: the `while candidates` loop. */
  method ServeUser(st: Store, cands0: seq<RequestRecord>, user: EmailUser, env: Env, attempts0: nat, debugSent0: nat)
    returns (t: Turn)
    modifies st
    ensures ServeTurn(old(st.Db()), cands0, Try(user, env), env.cfg, attempts0, debugSent0) == Served(st.Db(), t)
  {
    var cands := cands0;
    var attempts := attempts0;
    var debugSent := debugSent0;
    var log: seq<Tried> := [];
    while true
      invariant ServeTurn(old(st.Db()), cands0, Try(user, env), env.cfg, attempts0, debugSent0)
                == Prefixed(log, ServeTurn(st.Db(), cands, Try(user, env), env.cfg, attempts, debugSent))
      decreases |cands|
    {
      var step, more := TurnStep(st, cands, user, env, attempts, debugSent);
      if !more {
        return step.(log := log + step.log);
      }
      PrefixedTwice(log, step.log, ServeTurn(st.Db(), step.rest, Try(user, env), env.cfg, step.attempts, step.debugSent));
      log := log + step.log;
      cands, attempts, debugSent := step.rest, step.attempts, step.debugSent;
    }
  }

  /** One document of the snapshot on the store. */
  method ServeDocumentOn(st: Store, p0: Progress, u: EmailUser, env: Env) returns (p: Progress)
    modifies st
    ensures ServeDocument(State(old(st.Db()), p0), u, env) == State(st.Db(), p)
  {
    p := p0;
    var email := Strip(u.email);
    var key := Lower(email);
    if email == "" || Truthy(Get(u.unsubscribedAt)) || key !in p.groups || p.groups[key] == [] {
      return;
    }
    var user := st.EnsureUser(email, env.hashOf);
    if user.Raised? {
      p := p.(halt := Aborted);
      return;
    }
    if user.value.Some? {
      var t := ServeUser(st, p.groups[key], user.value.value, env, p.attempts, p.debugSent);
      p := Progress(p.groups[key := t.rest], t.attempts, t.debugSent, p.log + t.log, t.halt);
    }
  }

  /** The loop over the user snapshot on the store. */
  method ServeUsers(st: Store, groups0: map<string, seq<RequestRecord>>, snapshot: seq<EmailUser>, env: Env)
    returns (p: Progress)
    modifies st
    ensures ServeFrom(State(old(st.Db()), Progress(groups0, 0, 0, [], Running)), snapshot, Visit(env), 0) == State(st.Db(), p)
  {
    p := Progress(groups0, 0, 0, [], Running);
    var k := 0;
    while k < |snapshot| && p.halt == Running
      invariant 0 <= k <= |snapshot|
      invariant ServeFrom(State(old(st.Db()), Progress(groups0, 0, 0, [], Running)), snapshot, Visit(env), 0)
                == ServeFrom(State(st.Db(), p), snapshot, Visit(env), k)
    {
      ghost var before := State(st.Db(), p);
      p := ServeDocumentOn(st, p, snapshot[k], env);
      assert Visit(env)(before, snapshot[k]) == State(st.Db(), p);
      k := k + 1;
    }
  }
}
