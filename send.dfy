/**
 * `_attempt_send_request`: one reminder attempt for one request, an ordered
 * chain of checks where the first that applies decides the outcome, followed
 * by delivery and the bookkeeping of a delivered reminder. Watch history,
 * the metadata lookup, template rendering, delivery and the clock are
 * inputs (`Oracles`); each may raise.
 */
module Send {
  import opened Wrappers
  import opened Text
  import opened Stamps
  import opened Records
  import Users
  import opened Tables

  /** Why an attempt ended the way it did (the `message` of the outcome). */
  datatype Reason =
    | MissingEmail
    | CycleDeferred
    | Unsubscribed
    | AlreadyWatched
    | AlreadySent
    | CooldownActive(until: int)
    | RecentlySent
    | Delivered

  /** `SendOutcome`. */
  datatype SendOutcome = SendOutcome(
    sent: bool,
    removeCandidate: bool,
    reason: Reason,
    title: string,
    recipient: Option<string>,
    sentAt: Option<int>)

  /** An outcome with nothing sent. */
  function Refused(reason: Reason, remove: bool, title: string): SendOutcome {
    SendOutcome(false, remove, reason, title, None, None)
  }

  /** The keyword flags of `_attempt_send_request`. */
  datatype Flags = Flags(respectCycle: bool, respectCooldown: bool, performDbUpdates: bool)

  /**
   * One call's arguments: the request, the titles found by the metadata
   * refresh (by request id), the caller's e-mail-user document if it has one,
   * the flags, the run's `now_dt` and `HOURS_BETWEEN_EMAILS`.
   */
  datatype Call = Call(
    rec: RequestRecord,
    updates: map<int, string>,
    userRecord: Option<EmailUser>,
    flags: Flags,
    nowDt: int,
    hours: int)

  /**
   * What the outside world answers during the call: whether the watch history
   * is non-empty, the metadata title (`""` when it has none), whether
   * rendering succeeds, the recipient delivery reports, and `datetime.now()`
   * at the moment the attempt stamps a watch date or a send.
   */
  datatype Oracles = Oracles(
    watched: Reply<bool>,
    metadataTitle: Reply<string>,
    render: Reply<()>,
    delivery: Reply<string>,
    clock: int)

  /** The state after an attempt, and what the attempt returned or that it raised. */
  datatype Attempted = Attempted(db: Db, reply: Reply<SendOutcome>)

  /** The title before any lookup: a refreshed title, else the stored one, else `"Unknown"`. */
  function InitialTitle(rec: RequestRecord, updates: map<int, string>): (t: string)
    ensures t != ""
    ensures rec.id in updates && updates[rec.id] != "" ==> t == updates[rec.id]
    ensures !(rec.id in updates && updates[rec.id] != "") ==> t == (if rec.title != "" then rec.title else "Unknown")
  {
    if rec.id in updates && updates[rec.id] != "" then updates[rec.id]
    else if rec.title != "" then rec.title
    else "Unknown"
  }

  /** The sent row a persisted delivery upserts. */
  function SentRowFor(rec: RequestRecord, email: string, title: string, at: int): SentRow {
    var media := MediaAdded(rec).raw;
    SentRow(email, rec.tmdbId, KeyText(rec.ratingKey), rec.plexUsername, title, rec.posterUrl, rec.mediaType,
            if media.Some? then media else rec.createdAt, Some(Iso(at)), None)
  }

  /** The whole attempt: missing address, cycle deferral and unsubscribe, then the rest of the chain. */
  function Attempt(db: Db, c: Call, hashOf: string -> int, o: Oracles): Attempted {
    var title := InitialTitle(c.rec, c.updates);
    var email := Strip(c.rec.email);
    if email == "" then Attempted(db, Returned(Refused(MissingEmail, true, title)))
    else if c.flags.respectCycle && !c.rec.eligibleForEmail then
      Attempted(db.(requests := UpdateRequests(db.requests, c.rec.id, MarkEligible)), Returned(Refused(CycleDeferred, false, title)))
    else
      var unsub := Users.IsUnsubscribed(db.users, email, hashOf);
      var db1 := db.(users := unsub.users);
      match unsub.result
      case Raised => Attempted(db1, Raised)
      case Returned(true) => Attempted(db1, Returned(Refused(Unsubscribed, false, title)))
      case Returned(false) => AfterUnsubscribeCheck(db1, c, email, title, hashOf, o)
  }

  /** The live watch check, then the `"Unknown"` title backfill. */
  function AfterUnsubscribeCheck(db: Db, c: Call, email: string, title: string, hashOf: string -> int, o: Oracles): Attempted {
    match o.watched
    case Raised => Attempted(db, Raised)
    case Returned(true) =>
      Attempted(db.(requests := UpdateRequests(db.requests, c.rec.id, StampWatched(o.clock))), Returned(Refused(AlreadyWatched, true, title)))
    case Returned(false) =>
      if title == "Unknown" then
        match o.metadataTitle
        case Raised => Attempted(db, Raised)
        case Returned(m) =>
          var t := if m != "" then m else title;
          AfterTitle(db.(requests := UpdateRequests(db.requests, c.rec.id, Retitle(t))), c, email, t, hashOf, o)
      else AfterTitle(db, c, email, title, hashOf, o)
  }

  /** The already-sent check, then the effective user document. */
  function AfterTitle(db: Db, c: Call, email: string, title: string, hashOf: string -> int, o: Oracles): Attempted {
    if HasRowFor(db.sent, email, c.rec.tmdbId) then
      Attempted(db.(requests := UpdateRequests(db.requests, c.rec.id, MarkSent)), Returned(Refused(AlreadySent, true, title)))
    else
      var eff := if c.userRecord.Some? then Users.Registered(db.users, Returned(c.userRecord))
                 else Users.EnsureUser(db.users, email, hashOf);
      var db1 := db.(users := eff.users);
      match eff.result
      case Raised => Attempted(db1, Raised)
      case Returned(user) => Cooldowns(db1, c, email, title, user, hashOf, o)
  }

  /** `next_email_at` as the cooldown check reads it: `None` for no user or the sentinel. */
  function NextAllowed(user: Option<EmailUser>): Option<int> {
    if user.Some? then ParseIso(Get(user.value.nextEmailAt)) else None
  }

  /** Whether the legacy cooldown applies: no user, or no `last_email_at`. */
  predicate NeedsLegacyCheck(user: Option<EmailUser>) {
    user.None? || !Truthy(Get(user.value.lastEmailAt))
  }

  /** The cooldown and the legacy cooldown, then delivery. */
  function Cooldowns(db: Db, c: Call, email: string, title: string, user: Option<EmailUser>, hashOf: string -> int, o: Oracles): Attempted {
    var next := NextAllowed(user);
    if c.flags.respectCooldown && next.Some? && c.nowDt < next.value then
      Attempted(db, Returned(Refused(CooldownActive(next.value), false, title)))
    else if c.flags.respectCooldown && NeedsLegacyCheck(user) && FirstRowTo(db.sent, email).Some? then
      match ParseIso(FirstRowTo(db.sent, email).value.emailSentAt)
      case None => Attempted(db, Raised)
      case Some(t) =>
        if c.nowDt - t < c.hours * Hour then Attempted(db, Returned(Refused(RecentlySent, false, title)))
        else Deliver(db, c, email, title, hashOf, o)
    else Deliver(db, c, email, title, hashOf, o)
  }

  /** Rendering and delivery, then the bookkeeping of a persisted send. */
  function Deliver(db: Db, c: Call, email: string, title: string, hashOf: string -> int, o: Oracles): Attempted {
    if o.render.Raised? || o.delivery.Raised? then Attempted(db, Raised)
    else
      var outcome := SendOutcome(true, true, Delivered, title, Some(o.delivery.value), Some(o.clock));
      if !c.flags.performDbUpdates then Attempted(db, Returned(outcome))
      else
        var db1 := db.(requests := UpdateRequests(db.requests, c.rec.id, MarkSentAs(title)));
        var mark := Users.MarkEmailUser(db1.users, email, o.clock, c.hours, hashOf);
        var db2 := db1.(users := mark.users);
        if mark.result.Raised? then Attempted(db2, Raised)
        else Attempted(db2.(sent := UpsertSent(db2.sent, SentRowFor(c.rec, email, title, o.clock))), Returned(outcome))
  }

  /**
   * `_attempt_send_request` on the shared store, step by step; it leaves the
   * store as `Attempt` says and returns what `Attempt` returns. The later
   * steps of the chain are the methods below, one per stage of `Attempt`.
   */
  method AttemptSend(st: Store, c: Call, hashOf: string -> int, o: Oracles) returns (r: Reply<SendOutcome>)
    modifies st
    ensures Attempt(old(st.Db()), c, hashOf, o) == Attempted(st.Db(), r)
  {
    var title := InitialTitle(c.rec, c.updates);
    var email := Strip(c.rec.email);
    if email == "" {
      return Returned(Refused(MissingEmail, true, title));
    }
    if c.flags.respectCycle && !c.rec.eligibleForEmail {
      st.requests := UpdateRequests(st.requests, c.rec.id, MarkEligible);
      return Returned(Refused(CycleDeferred, false, title));
    }
    var unsubscribed := st.IsUnsubscribed(email, hashOf);
    if unsubscribed.Raised? {
      return Raised;
    }
    if unsubscribed.value {
      return Returned(Refused(Unsubscribed, false, title));
    }
    r := WatchAndTitleStep(st, c, email, title, hashOf, o);
  }

  /** The live watch check and the title backfill on the store. */
  method WatchAndTitleStep(st: Store, c: Call, email: string, title: string, hashOf: string -> int, o: Oracles)
    returns (r: Reply<SendOutcome>)
    modifies st
    ensures AfterUnsubscribeCheck(old(st.Db()), c, email, title, hashOf, o) == Attempted(st.Db(), r)
  {
    if o.watched.Raised? {
      return Raised;
    }
    if o.watched.value {
      st.requests := UpdateRequests(st.requests, c.rec.id, StampWatched(o.clock));
      return Returned(Refused(AlreadyWatched, true, title));
    }
    var t := title;
    if title == "Unknown" {
      if o.metadataTitle.Raised? {
        return Raised;
      }
      if o.metadataTitle.value != "" {
        t := o.metadataTitle.value;
      }
      st.requests := UpdateRequests(st.requests, c.rec.id, Retitle(t));
    }
    r := SentCheckStep(st, c, email, t, hashOf, o);
  }

  /** The already-sent check and the effective user document on the store. */
  method SentCheckStep(st: Store, c: Call, email: string, title: string, hashOf: string -> int, o: Oracles)
    returns (r: Reply<SendOutcome>)
    modifies st
    ensures AfterTitle(old(st.Db()), c, email, title, hashOf, o) == Attempted(st.Db(), r)
  {
    if HasRowFor(st.sent, email, c.rec.tmdbId) {
      st.requests := UpdateRequests(st.requests, c.rec.id, MarkSent);
      return Returned(Refused(AlreadySent, true, title));
    }
    var user := c.userRecord;
    if user.None? {
      var fetched := st.EnsureUser(email, hashOf);
      if fetched.Raised? {
        return Raised;
      }
      user := fetched.value;
    }
    r := CooldownStep(st, c, email, title, user, hashOf, o);
  }

  /** The cooldown and the legacy cooldown on the store. */
  method CooldownStep(st: Store, c: Call, email: string, title: string, user: Option<EmailUser>, hashOf: string -> int, o: Oracles)
    returns (r: Reply<SendOutcome>)
    modifies st
    ensures Cooldowns(old(st.Db()), c, email, title, user, hashOf, o) == Attempted(st.Db(), r)
  {
    var next := NextAllowed(user);
    if c.flags.respectCooldown && next.Some? && c.nowDt < next.value {
      return Returned(Refused(CooldownActive(next.value), false, title));
    }
    if c.flags.respectCooldown && NeedsLegacyCheck(user) {
      var legacy := FirstRowTo(st.sent, email);
      if legacy.Some? {
        var lastSentAt := ParseIso(legacy.value.emailSentAt);
        if lastSentAt.None? {
          return Raised;
        }
        if c.nowDt - lastSentAt.value < c.hours * Hour {
          return Returned(Refused(RecentlySent, false, title));
        }
      }
    }
    r := DeliverStep(st, c, email, title, hashOf, o);
  }

  /** Delivery and the bookkeeping of a persisted send on the store. */
  method DeliverStep(st: Store, c: Call, email: string, title: string, hashOf: string -> int, o: Oracles)
    returns (r: Reply<SendOutcome>)
    modifies st
    ensures Deliver(old(st.Db()), c, email, title, hashOf, o) == Attempted(st.Db(), r)
  {
    if o.render.Raised? || o.delivery.Raised? {
      return Raised;
    }
    var outcome := SendOutcome(true, true, Delivered, title, Some(o.delivery.value), Some(o.clock));
    if c.flags.performDbUpdates {
      st.requests := UpdateRequests(st.requests, c.rec.id, MarkSentAs(title));
      var marked := st.MarkEmailUser(email, o.clock, c.hours, hashOf);
      if marked.Raised? {
        return Raised;
      }
      st.sent := UpsertSent(st.sent, SentRowFor(c.rec, email, title, o.clock));
    }
    return Returned(outcome);
  }
}
