/**
 * What `_attempt_send_request` promises: the order of its checks, the writes
 * each refusal makes, and that the bookkeeping of a send happens only after a
 * delivery that returned normally.
 */
module SendFacts {
  import opened Wrappers
  import opened Text
  import opened Stamps
  import opened Records
  import Users
  import opened Send

  /**
   * None of a delivery's bookkeeping happened: no sent row, no cooldown or
   * unsubscribe stamp, and `email_sent` changed only by the already-sent check.
   */
  ghost predicate NoBookkeeping(db: Db, a: Attempted) {
    && a.db.sent == db.sent
    && Users.OnlyTouched(db.users, a.db.users)
    && |a.db.requests| == |db.requests|
    && forall i :: 0 <= i < |db.requests| && a.db.requests[i].emailSent != db.requests[i].emailSent ==>
         a.reply.Returned? && a.reply.value.reason == AlreadySent
  }

  /** Rendering or delivery raised, nothing is to be persisted, or the attempt was refused. */
  predicate Quiet(c: Call, o: Oracles, a: Attempted) {
    o.render.Raised? || o.delivery.Raised? || !c.flags.performDbUpdates || (a.reply.Returned? && !a.reply.value.sent)
  }

  lemma DeliverQuiet(db: Db, c: Call, email: string, title: string, hashOf: string -> int, o: Oracles)
    ensures Quiet(c, o, Deliver(db, c, email, title, hashOf, o)) ==> Deliver(db, c, email, title, hashOf, o).db == db
  {
  }

  lemma CooldownsQuiet(db: Db, c: Call, email: string, title: string, user: Option<EmailUser>, hashOf: string -> int, o: Oracles)
    ensures Quiet(c, o, Cooldowns(db, c, email, title, user, hashOf, o)) ==> Cooldowns(db, c, email, title, user, hashOf, o).db == db
  {
    DeliverQuiet(db, c, email, title, hashOf, o);
  }

  lemma CooldownsValid(db: Db, c: Call, email: string, title: string, user: Option<EmailUser>, hashOf: string -> int, o: Oracles)
    requires Users.RegistryValid(db.users)
    ensures Users.RegistryValid(Cooldowns(db, c, email, title, user, hashOf, o).db.users)
  {
    var a := Cooldowns(db, c, email, title, user, hashOf, o);
    var d := Deliver(db, c, email, title, hashOf, o);
    if a.db != db {
      assert a == d;
      assert d.db.users == Users.MarkEmailUser(db.users, email, o.clock, c.hours, hashOf).users;
      Users.MarkEmailUserValid(db.users, email, o.clock, c.hours, hashOf);
    }
  }

  lemma AfterTitleQuiet(db: Db, c: Call, email: string, title: string, hashOf: string -> int, o: Oracles)
    requires Users.RegistryValid(db.users)
    ensures var a := AfterTitle(db, c, email, title, hashOf, o);
            Users.RegistryValid(a.db.users) && (Quiet(c, o, a) ==> NoBookkeeping(db, a))
  {
    Users.OnlyTouchedRefl(db.users);
    if !HasRowFor(db.sent, email, c.rec.tmdbId) {
      var eff := if c.userRecord.Some? then Users.Registered(db.users, Returned(c.userRecord))
                 else Users.EnsureUser(db.users, email, hashOf);
      Users.EnsureUserOnlyTouches(db.users, email, hashOf);
      assert Users.RegistryValid(eff.users) && Users.OnlyTouched(db.users, eff.users);
      var db1 := db.(users := eff.users);
      if eff.result.Returned? {
        CooldownsQuiet(db1, c, email, title, eff.result.value, hashOf, o);
        CooldownsValid(db1, c, email, title, eff.result.value, hashOf, o);
      }
    }
  }

  /** Composing a stage that rewrote only titles or watch dates with a quiet later stage. */
  lemma NoBookkeepingThrough(db: Db, db2: Db, a: Attempted)
    requires db2.sent == db.sent && db2.users == db.users && |db2.requests| == |db.requests|
    requires forall i :: 0 <= i < |db.requests| ==> db2.requests[i].emailSent == db.requests[i].emailSent
    requires NoBookkeeping(db2, a)
    ensures NoBookkeeping(db, a)
  {
  }

  lemma AfterUnsubscribeQuiet(db: Db, c: Call, email: string, title: string, hashOf: string -> int, o: Oracles)
    requires Users.RegistryValid(db.users)
    ensures var a := AfterUnsubscribeCheck(db, c, email, title, hashOf, o);
            Users.RegistryValid(a.db.users) && (Quiet(c, o, a) ==> NoBookkeeping(db, a))
  {
    Users.OnlyTouchedRefl(db.users);
    if o.watched == Returned(false) {
      if title == "Unknown" {
        if o.metadataTitle.Returned? {
          var m := o.metadataTitle.value;
          var t := if m != "" then m else title;
          var db2 := db.(requests := UpdateRequests(db.requests, c.rec.id, Retitle(t)));
          AfterTitleQuiet(db2, c, email, t, hashOf, o);
          var a := AfterTitle(db2, c, email, t, hashOf, o);
          if Quiet(c, o, a) {
            NoBookkeepingThrough(db, db2, a);
          }
        }
      } else {
        AfterTitleQuiet(db, c, email, title, hashOf, o);
      }
    }
  }

  /**
   * No `email_sent`, cooldown or sent-row write happens unless rendering and
   * delivery returned normally with persistence on: a refusal, a failed
   * delivery or a dry run leaves all three alone (the already-sent check
   * aside, which sets `email_sent` without sending). Every attempt keeps the
   * registry valid.
   */
  lemma BookkeepingNeedsDelivery(db: Db, c: Call, hashOf: string -> int, o: Oracles)
    requires Users.RegistryValid(db.users)
    ensures var a := Attempt(db, c, hashOf, o);
            Users.RegistryValid(a.db.users) && (Quiet(c, o, a) ==> NoBookkeeping(db, a))
  {
    var a := Attempt(db, c, hashOf, o);
    AttemptKeepsRegistry(db, c, hashOf, o);
    if Quiet(c, o, a) {
      QuietAttempt(db, c, hashOf, o);
    }
  }

  /** Every attempt keeps the registry valid. */
  lemma AttemptKeepsRegistry(db: Db, c: Call, hashOf: string -> int, o: Oracles)
    requires Users.RegistryValid(db.users)
    ensures Users.RegistryValid(Attempt(db, c, hashOf, o).db.users)
  {
    EarlyOutcomes(db, c, hashOf, o);
    if Address(c) != "" && PassesCycle(c) {
      var unsub := Users.IsUnsubscribed(db.users, Address(c), hashOf);
      Users.IsUnsubscribedOnlyTouches(db.users, Address(c), hashOf);
      if unsub.result == Returned(false) {
        AfterUnsubscribeQuiet(db.(users := unsub.users), c, Address(c), InitialTitle(c.rec, c.updates), hashOf, o);
      }
    }
  }

  /** A quiet attempt does none of a delivery's bookkeeping. */
  lemma QuietAttempt(db: Db, c: Call, hashOf: string -> int, o: Oracles)
    requires Users.RegistryValid(db.users) && Quiet(c, o, Attempt(db, c, hashOf, o))
    ensures NoBookkeeping(db, Attempt(db, c, hashOf, o))
  {
    var a := Attempt(db, c, hashOf, o);
    var title := InitialTitle(c.rec, c.updates);
    var e := Address(c);
    EarlyOutcomes(db, c, hashOf, o);
    Users.OnlyTouchedRefl(db.users);
    if e == "" {
      assert a.db == db;
      assert NoBookkeeping(db, a);
    } else if !PassesCycle(c) {
      MarkEligibleAt(db.requests, c.rec.id);
      assert NoBookkeeping(db, a);
    } else {
      var unsub := Users.IsUnsubscribed(db.users, e, hashOf);
      Users.IsUnsubscribedOnlyTouches(db.users, e, hashOf);
      var db1 := db.(users := unsub.users);
      if unsub.result == Returned(false) {
        assert a == AfterUnsubscribeCheck(db1, c, e, title, hashOf, o);
        AfterUnsubscribeQuiet(db1, c, e, title, hashOf, o);
        assert NoBookkeeping(db1, a);
        Users.OnlyTouchedTransitive(db.users, db1.users, a.db.users);
        assert NoBookkeeping(db, a);
      } else {
        assert a.db == db1;
        assert NoBookkeeping(db, a);
      }
    }
  }

  /** The address the attempt works with: stripped, not lower-cased. */
  function Address(c: Call): string {
    Strip(c.rec.email)
  }

  /** The cycle check lets the attempt through. */
  predicate PassesCycle(c: Call) {
    !(c.flags.respectCycle && !c.rec.eligibleForEmail)
  }

  /** The title after the `"Unknown"` backfill: the metadata title when there is one. */
  function FinalTitle(c: Call, o: Oracles): string {
    var t := InitialTitle(c.rec, c.updates);
    if t == "Unknown" && o.metadataTitle.Returned? && o.metadataTitle.value != "" then o.metadataTitle.value else t
  }

  /** The state when the already-sent check runs: the registry touched, the title backfilled. */
  function TitledDb(db: Db, c: Call, hashOf: string -> int, o: Oracles): Db {
    db.(users := Users.IsUnsubscribed(db.users, Address(c), hashOf).users,
        requests := if InitialTitle(c.rec, c.updates) == "Unknown"
                    then UpdateRequests(db.requests, c.rec.id, Retitle(FinalTitle(c, o)))
                    else db.requests)
  }

  /** The address, cycle, unsubscribe, watch and title steps all let the attempt through. */
  ghost predicate ReachesSentCheck(db: Db, c: Call, hashOf: string -> int, o: Oracles) {
    && Address(c) != ""
    && PassesCycle(c)
    && Users.IsUnsubscribed(db.users, Address(c), hashOf).result == Returned(false)
    && o.watched == Returned(false)
    && (InitialTitle(c.rec, c.updates) != "Unknown" || o.metadataTitle.Returned?)
  }

  /** ... and no reminder was sent before for the (address, TMDB id) pair. */
  ghost predicate ReachesCooldown(db: Db, c: Call, hashOf: string -> int, o: Oracles) {
    ReachesSentCheck(db, c, hashOf, o) && !HasRowFor(db.sent, Address(c), c.rec.tmdbId)
  }

  /** The user document the cooldown checks read: the caller's, else the registry's. */
  function EffectiveUser(db: Db, c: Call, hashOf: string -> int): Option<EmailUser> {
    if c.userRecord.Some? then c.userRecord
    else match Users.EnsureUser(db.users, Address(c), hashOf).result
      case Returned(u) => u
      case Raised => None
  }

  /** The cooldown blocks: a parsed `next_email_at` still in the future. */
  predicate CooldownBlocks(c: Call, user: Option<EmailUser>) {
    c.flags.respectCooldown && NextAllowed(user).Some? && c.nowDt < NextAllowed(user).value
  }

  /** The legacy cooldown consults the first sent row to the address. */
  predicate LegacyApplies(db: Db, c: Call, user: Option<EmailUser>) {
    c.flags.respectCooldown && NeedsLegacyCheck(user) && FirstRowTo(db.sent, Address(c)).Some?
  }

  /** The legacy cooldown blocks: the first sent row to the address is younger than the cooldown. */
  predicate LegacyBlocks(db: Db, c: Call, user: Option<EmailUser>) {
    && LegacyApplies(db, c, user)
    && var t := ParseIso(FirstRowTo(db.sent, Address(c)).value.emailSentAt);
       t.Some? && c.nowDt - t.value < c.hours * Hour
  }

  /** Reading the legacy row raises: its `email_sent_at` does not parse. */
  predicate LegacyRaises(db: Db, c: Call, user: Option<EmailUser>) {
    LegacyApplies(db, c, user) && ParseIso(FirstRowTo(db.sent, Address(c)).value.emailSentAt).None?
  }

  /** ... and neither cooldown stops the attempt, nor does reading the legacy row raise. */
  ghost predicate ReachesDelivery(db: Db, c: Call, hashOf: string -> int, o: Oracles) {
    var user := EffectiveUser(db, c, hashOf);
    ReachesCooldown(db, c, hashOf, o) && !CooldownBlocks(c, user) && !LegacyBlocks(db, c, user) && !LegacyRaises(db, c, user)
  }

  /** Past the early checks, the attempt continues with the already-sent check on `TitledDb`. */
  lemma ReachAfterTitle(db: Db, c: Call, hashOf: string -> int, o: Oracles)
    requires ReachesSentCheck(db, c, hashOf, o)
    ensures Attempt(db, c, hashOf, o) == AfterTitle(TitledDb(db, c, hashOf, o), c, Address(c), FinalTitle(c, o), hashOf, o)
  {
    var db1 := db.(users := Users.IsUnsubscribed(db.users, Address(c), hashOf).users);
    assert Attempt(db, c, hashOf, o) == AfterUnsubscribeCheck(db1, c, Address(c), InitialTitle(c.rec, c.updates), hashOf, o);
  }

  /** The unsubscribe check already touched the registry, so the effective user's touch changes nothing. */
  lemma EffectiveUserStable(db: Db, c: Call, hashOf: string -> int, o: Oracles)
    requires Users.RegistryValid(db.users) && ReachesSentCheck(db, c, hashOf, o)
    ensures var t := TitledDb(db, c, hashOf, o);
            var eff := if c.userRecord.Some? then Users.Registered(t.users, Returned(c.userRecord))
                       else Users.EnsureUser(t.users, Address(c), hashOf);
            eff == Users.Registered(t.users, Returned(EffectiveUser(db, c, hashOf)))
  {
    var e := Address(c);
    var ens := Users.EnsureUser(db.users, e, hashOf);
    assert Users.IsUnsubscribed(db.users, e, hashOf).users == ens.users;
    assert ens.result.Returned?;
    Users.EnsureUserIdempotent(db.users, e, hashOf);
  }

  /** Past the already-sent check, the attempt continues with the cooldowns. */
  lemma ReachCooldowns(db: Db, c: Call, hashOf: string -> int, o: Oracles)
    requires Users.RegistryValid(db.users) && ReachesCooldown(db, c, hashOf, o)
    ensures Attempt(db, c, hashOf, o)
            == Cooldowns(TitledDb(db, c, hashOf, o), c, Address(c), FinalTitle(c, o), EffectiveUser(db, c, hashOf), hashOf, o)
  {
    ReachAfterTitle(db, c, hashOf, o);
    EffectiveUserStable(db, c, hashOf, o);
  }

  /** Past both cooldowns, the attempt renders and delivers. */
  lemma ReachDeliver(db: Db, c: Call, hashOf: string -> int, o: Oracles)
    requires Users.RegistryValid(db.users) && ReachesDelivery(db, c, hashOf, o)
    ensures Attempt(db, c, hashOf, o) == Deliver(TitledDb(db, c, hashOf, o), c, Address(c), FinalTitle(c, o), hashOf, o)
  {
    ReachCooldowns(db, c, hashOf, o);
  }

  /** An outcome that only a check after the unsubscribe check can give. */
  predicate LateReason(r: Reason) {
    r.AlreadyWatched? || r.AlreadySent? || r.CooldownActive? || r.RecentlySent? || r.Delivered?
  }

  /** Whether an outcome takes the request off the user's queue. */
  predicate Terminal(r: Reason) {
    r.MissingEmail? || r.AlreadyWatched? || r.AlreadySent? || r.Delivered?
  }

  /** What delivery returns: a sent, removable outcome naming the recipient and the send time. */
  lemma DeliverShape(db: Db, c: Call, email: string, title: string, hashOf: string -> int, o: Oracles)
    ensures var a := Deliver(db, c, email, title, hashOf, o);
            a.reply.Returned? ==> o.delivery.Returned? && a.reply.value == SendOutcome(true, true, Delivered, title, Some(o.delivery.value), Some(o.clock))
  {
  }

  /**
   * An outcome's flags follow its reason: sent exactly when delivered, removed
   * exactly for the terminal reasons, and a recipient and a send time exactly
   * when sent, those of the delivery.
   */
  predicate Shaped(out: SendOutcome, o: Oracles) {
    && (out.sent <==> out.reason == Delivered)
    && (out.removeCandidate <==> Terminal(out.reason))
    && (out.sent ==> o.delivery.Returned? && out.recipient == Some(o.delivery.value) && out.sentAt == Some(o.clock))
    && (!out.sent ==> out.recipient.None? && out.sentAt.None?)
  }

  /** From the cooldown on, an outcome is a cooldown refusal or a delivery under `title`. */
  lemma CooldownsShape(db: Db, c: Call, email: string, title: string, user: Option<EmailUser>, hashOf: string -> int, o: Oracles)
    ensures var a := Cooldowns(db, c, email, title, user, hashOf, o);
            a.reply.Returned? ==>
              && (a.reply.value.reason.CooldownActive? || a.reply.value.reason == RecentlySent || a.reply.value.reason == Delivered)
              && Shaped(a.reply.value, o) && (a.reply.value.sent ==> a.reply.value.title == title)
  {
    var a := Cooldowns(db, c, email, title, user, hashOf, o);
    var next := NextAllowed(user);
    DeliverShape(db, c, email, title, hashOf, o);
    if c.flags.respectCooldown && next.Some? && c.nowDt < next.value {
      assert a.reply == Returned(Refused(CooldownActive(next.value), false, title));
    } else if c.flags.respectCooldown && NeedsLegacyCheck(user) && FirstRowTo(db.sent, email).Some? {
      match ParseIso(FirstRowTo(db.sent, email).value.emailSentAt)
      case None =>
        assert a.reply == Raised;
      case Some(t) =>
        if c.nowDt - t < c.hours * Hour {
          assert a.reply == Returned(Refused(RecentlySent, false, title));
        } else {
          assert a == Deliver(db, c, email, title, hashOf, o);
        }
    } else {
      assert a == Deliver(db, c, email, title, hashOf, o);
    }
  }

  /** From the already-sent check on, an outcome is already-sent, a cooldown refusal or a delivery under `title`. */
  lemma AfterTitleShape(db: Db, c: Call, email: string, title: string, hashOf: string -> int, o: Oracles)
    ensures var a := AfterTitle(db, c, email, title, hashOf, o);
            a.reply.Returned? ==>
              && (a.reply.value.reason == AlreadySent || a.reply.value.reason.CooldownActive?
                  || a.reply.value.reason == RecentlySent || a.reply.value.reason == Delivered)
              && Shaped(a.reply.value, o) && (a.reply.value.sent ==> a.reply.value.title == title)
  {
    var a := AfterTitle(db, c, email, title, hashOf, o);
    if HasRowFor(db.sent, email, c.rec.tmdbId) {
      assert a.reply == Returned(Refused(AlreadySent, true, title));
    } else {
      var eff := if c.userRecord.Some? then Users.Registered(db.users, Returned(c.userRecord))
                 else Users.EnsureUser(db.users, email, hashOf);
      var db1 := db.(users := eff.users);
      if eff.result.Raised? {
        assert a.reply == Raised;
      } else {
        assert a == Cooldowns(db1, c, email, title, eff.result.value, hashOf, o);
        CooldownsShape(db1, c, email, title, eff.result.value, hashOf, o);
      }
    }
  }

  /** From the watch check on, an outcome has one of the late reasons and its flags follow it. */
  lemma AfterUnsubscribeShape(db: Db, c: Call, email: string, title: string, hashOf: string -> int, o: Oracles)
    ensures var a := AfterUnsubscribeCheck(db, c, email, title, hashOf, o);
            a.reply.Returned? ==> LateReason(a.reply.value.reason) && Shaped(a.reply.value, o)
  {
    var a := AfterUnsubscribeCheck(db, c, email, title, hashOf, o);
    match o.watched
    case Raised =>
      assert a.reply == Raised;
    case Returned(true) =>
      assert a.reply == Returned(Refused(AlreadyWatched, true, title));
    case Returned(false) =>
      if title == "Unknown" {
        match o.metadataTitle
        case Raised =>
          assert a.reply == Raised;
        case Returned(m) =>
          var t := if m != "" then m else title;
          var db2 := db.(requests := UpdateRequests(db.requests, c.rec.id, Retitle(t)));
          assert a == AfterTitle(db2, c, email, t, hashOf, o);
          AfterTitleShape(db2, c, email, t, hashOf, o);
      } else {
        assert a == AfterTitle(db, c, email, title, hashOf, o);
        AfterTitleShape(db, c, email, title, hashOf, o);
      }
  }

  /**
   * The outcome's flags follow its reason: it is sent exactly when delivered,
   * and the request leaves the queue exactly for a missing address, a watched
   * title, an earlier reminder or a delivery; only a delivery names a recipient.
   */
  lemma OutcomeShape(db: Db, c: Call, hashOf: string -> int, o: Oracles)
    ensures var a := Attempt(db, c, hashOf, o);
            a.reply.Returned? ==>
              && (a.reply.value.sent <==> a.reply.value.reason == Delivered)
              && (a.reply.value.removeCandidate <==> Terminal(a.reply.value.reason))
              && (a.reply.value.sent ==> o.delivery.Returned? && a.reply.value.recipient == Some(o.delivery.value) && a.reply.value.sentAt == Some(o.clock))
              && (!a.reply.value.sent ==> a.reply.value.recipient.None? && a.reply.value.sentAt.None?)
  {
    var a := Attempt(db, c, hashOf, o);
    var title := InitialTitle(c.rec, c.updates);
    var email := Strip(c.rec.email);
    if email == "" {
      assert a.reply == Returned(Refused(MissingEmail, true, title));
    } else if !PassesCycle(c) {
      assert a.reply == Returned(Refused(CycleDeferred, false, title));
    } else {
      var unsub := Users.IsUnsubscribed(db.users, email, hashOf);
      var db1 := db.(users := unsub.users);
      match unsub.result
      case Raised =>
        assert a.reply == Raised;
      case Returned(true) =>
        assert a.reply == Returned(Refused(Unsubscribed, false, title));
      case Returned(false) =>
        assert a == AfterUnsubscribeCheck(db1, c, email, title, hashOf, o);
        AfterUnsubscribeShape(db1, c, email, title, hashOf, o);
    }
  }

  /** What the first three checks decide, and where the attempt goes past them. */
  lemma EarlyOutcomes(db: Db, c: Call, hashOf: string -> int, o: Oracles)
    ensures var a := Attempt(db, c, hashOf, o);
            var title := InitialTitle(c.rec, c.updates);
            var unsub := Users.IsUnsubscribed(db.users, Address(c), hashOf);
            var db1 := db.(users := unsub.users);
            && (Address(c) == "" ==> a == Attempted(db, Returned(Refused(MissingEmail, true, title))))
            && (Address(c) != "" && !PassesCycle(c) ==>
                  a == Attempted(db.(requests := UpdateRequests(db.requests, c.rec.id, MarkEligible)), Returned(Refused(CycleDeferred, false, title))))
            && (Address(c) != "" && PassesCycle(c) ==>
                  && (unsub.result.Raised? ==> a == Attempted(db1, Raised))
                  && (unsub.result == Returned(true) ==> a == Attempted(db1, Returned(Refused(Unsubscribed, false, title))))
                  && (unsub.result == Returned(false) ==> a == AfterUnsubscribeCheck(db1, c, Address(c), title, hashOf, o)))
  {
    var a := Attempt(db, c, hashOf, o);
    var title := InitialTitle(c.rec, c.updates);
    var e := Address(c);
    if e == "" {
      assert a == Attempted(db, Returned(Refused(MissingEmail, true, title)));
    } else if !PassesCycle(c) {
      assert a == Attempted(db.(requests := UpdateRequests(db.requests, c.rec.id, MarkEligible)), Returned(Refused(CycleDeferred, false, title)));
    } else {
      var unsub := Users.IsUnsubscribed(db.users, e, hashOf);
      var db1 := db.(users := unsub.users);
      match unsub.result
      case Raised =>
        assert a == Attempted(db1, Raised);
      case Returned(true) =>
        assert a == Attempted(db1, Returned(Refused(Unsubscribed, false, title)));
      case Returned(false) =>
        assert a == AfterUnsubscribeCheck(db1, c, e, title, hashOf, o);
    }
  }

  /** First check: an empty address refuses with (sent = false, remove = true) and writes nothing. */
  lemma MissingEmailFirst(db: Db, c: Call, hashOf: string -> int, o: Oracles)
    ensures var a := Attempt(db, c, hashOf, o);
            (a.reply.Returned? && a.reply.value.reason == MissingEmail) <==> Address(c) == ""
    ensures Address(c) == "" ==>
              var a := Attempt(db, c, hashOf, o);
              a.db == db && a.reply == Returned(SendOutcome(false, true, MissingEmail, InitialTitle(c.rec, c.updates), None, None))
  {
    EarlyOutcomes(db, c, hashOf, o);
    if Address(c) != "" && PassesCycle(c) && Users.IsUnsubscribed(db.users, Address(c), hashOf).result == Returned(false) {
      var unsub := Users.IsUnsubscribed(db.users, Address(c), hashOf);
      AfterUnsubscribeShape(db.(users := unsub.users), c, Address(c), InitialTitle(c.rec, c.updates), hashOf, o);
    }
  }

  /**
   * Second check: with `respect_cycle`, a request not yet eligible is marked
   * eligible (every request with its id, nothing else) and deferred with
   * (false, false).
   */
  lemma CycleDeferralSecond(db: Db, c: Call, hashOf: string -> int, o: Oracles)
    ensures var a := Attempt(db, c, hashOf, o);
            (a.reply.Returned? && a.reply.value.reason == CycleDeferred) <==> Address(c) != "" && !PassesCycle(c)
    ensures Address(c) != "" && !PassesCycle(c) ==>
              var a := Attempt(db, c, hashOf, o);
              && a.reply == Returned(SendOutcome(false, false, CycleDeferred, InitialTitle(c.rec, c.updates), None, None))
              && a.db.sent == db.sent && a.db.users == db.users && |a.db.requests| == |db.requests|
              && forall i :: 0 <= i < |db.requests| ==>
                   a.db.requests[i] == if db.requests[i].id == c.rec.id then db.requests[i].(eligibleForEmail := true) else db.requests[i]
  {
    EarlyOutcomes(db, c, hashOf, o);
    if Address(c) != "" && !PassesCycle(c) {
      MarkEligibleAt(db.requests, c.rec.id);
    } else if Address(c) != "" && Users.IsUnsubscribed(db.users, Address(c), hashOf).result == Returned(false) {
      var unsub := Users.IsUnsubscribed(db.users, Address(c), hashOf);
      AfterUnsubscribeShape(db.(users := unsub.users), c, Address(c), InitialTitle(c.rec, c.updates), hashOf, o);
    }
  }

  /** Third check: an unsubscribed address refuses with (false, false); only the registry is touched. */
  lemma UnsubscribedThird(db: Db, c: Call, hashOf: string -> int, o: Oracles)
    ensures var a := Attempt(db, c, hashOf, o);
            (a.reply.Returned? && a.reply.value.reason == Unsubscribed)
              <==> Address(c) != "" && PassesCycle(c) && Users.IsUnsubscribed(db.users, Address(c), hashOf).result == Returned(true)
    ensures var a := Attempt(db, c, hashOf, o);
            a.reply.Returned? && a.reply.value.reason == Unsubscribed ==>
              && !a.reply.value.sent && !a.reply.value.removeCandidate
              && a.db == db.(users := Users.IsUnsubscribed(db.users, Address(c), hashOf).users)
  {
    EarlyOutcomes(db, c, hashOf, o);
    if Address(c) != "" && PassesCycle(c) && Users.IsUnsubscribed(db.users, Address(c), hashOf).result == Returned(false) {
      var unsub := Users.IsUnsubscribed(db.users, Address(c), hashOf);
      AfterUnsubscribeShape(db.(users := unsub.users), c, Address(c), InitialTitle(c.rec, c.updates), hashOf, o);
    }
  }

  /**
   * Fourth check: a non-empty watch history stamps `tautulli_watch_date` on
   * every request with the id and refuses with (false, true).
   */
  lemma WatchedFourth(db: Db, c: Call, hashOf: string -> int, o: Oracles)
    ensures var a := Attempt(db, c, hashOf, o);
            (a.reply.Returned? && a.reply.value.reason == AlreadyWatched)
              <==> && Address(c) != "" && PassesCycle(c)
                   && Users.IsUnsubscribed(db.users, Address(c), hashOf).result == Returned(false)
                   && o.watched == Returned(true)
    ensures var a := Attempt(db, c, hashOf, o);
            a.reply.Returned? && a.reply.value.reason == AlreadyWatched ==>
              && !a.reply.value.sent && a.reply.value.removeCandidate
              && a.db.sent == db.sent && |a.db.requests| == |db.requests|
              && forall i :: 0 <= i < |db.requests| ==>
                   a.db.requests[i] == if db.requests[i].id == c.rec.id then db.requests[i].(tautulliWatchDate := Some(Iso(o.clock))) else db.requests[i]
  {
    EarlyOutcomes(db, c, hashOf, o);
    if Address(c) != "" && PassesCycle(c) && Users.IsUnsubscribed(db.users, Address(c), hashOf).result == Returned(false) {
      var unsub := Users.IsUnsubscribed(db.users, Address(c), hashOf);
      AfterUnsubscribeWatched(db.(users := unsub.users), c, Address(c), InitialTitle(c.rec, c.updates), hashOf, o);
      if o.watched == Returned(true) {
        StampWatchedAt(db.requests, c.rec.id, o.clock);
      }
    }
  }

  /** Marking eligible by id, request by request. */
  lemma MarkEligibleAt(rs: seq<RequestRecord>, id: int)
    ensures var r := UpdateRequests(rs, id, MarkEligible);
            && |r| == |rs|
            && forall i :: 0 <= i < |rs| ==> r[i] == if rs[i].id == id then rs[i].(eligibleForEmail := true) else rs[i]
  {
  }

  /** Stamping the watch date by id, request by request. */
  lemma StampWatchedAt(rs: seq<RequestRecord>, id: int, at: int)
    ensures var r := UpdateRequests(rs, id, StampWatched(at));
            && |r| == |rs|
            && forall i :: 0 <= i < |rs| ==> r[i] == if rs[i].id == id then rs[i].(tautulliWatchDate := Some(Iso(at))) else rs[i]
  {
  }

  /** The watch check refuses exactly when the history is non-empty, and then only stamps the watch date. */
  lemma AfterUnsubscribeWatched(db: Db, c: Call, email: string, title: string, hashOf: string -> int, o: Oracles)
    ensures var a := AfterUnsubscribeCheck(db, c, email, title, hashOf, o);
            (a.reply.Returned? && a.reply.value.reason == AlreadyWatched) <==> o.watched == Returned(true)
    ensures o.watched == Returned(true) ==>
              AfterUnsubscribeCheck(db, c, email, title, hashOf, o)
              == Attempted(db.(requests := UpdateRequests(db.requests, c.rec.id, StampWatched(o.clock))), Returned(Refused(AlreadyWatched, true, title)))
  {
    if o.watched == Returned(false) {
      if title == "Unknown" {
        if o.metadataTitle.Returned? {
          var m := o.metadataTitle.value;
          var t := if m != "" then m else title;
          AfterTitleShape(db.(requests := UpdateRequests(db.requests, c.rec.id, Retitle(t))), c, email, t, hashOf, o);
        }
      } else {
        AfterTitleShape(db, c, email, title, hashOf, o);
      }
    }
  }

  /**
   * Fifth check: a sent row for the (address, TMDB id) pair marks every
   * request with the id `email_sent` and refuses with (false, true).
   */
  lemma AlreadySentFifth(db: Db, c: Call, hashOf: string -> int, o: Oracles)
    ensures var a := Attempt(db, c, hashOf, o);
            (a.reply.Returned? && a.reply.value.reason == AlreadySent)
              <==> ReachesSentCheck(db, c, hashOf, o) && HasRowFor(db.sent, Address(c), c.rec.tmdbId)
    ensures var a := Attempt(db, c, hashOf, o);
            a.reply.Returned? && a.reply.value.reason == AlreadySent ==>
              && !a.reply.value.sent && a.reply.value.removeCandidate
              && a.db.sent == db.sent && |a.db.requests| == |db.requests|
              && forall i :: 0 <= i < |db.requests| ==> (a.db.requests[i].emailSent <==> db.requests[i].emailSent || db.requests[i].id == c.rec.id)
  {
    if ReachesSentCheck(db, c, hashOf, o) {
      ReachAfterTitle(db, c, hashOf, o);
      var t := TitledDb(db, c, hashOf, o);
      AfterTitleAlreadySent(t, c, Address(c), FinalTitle(c, o), hashOf, o);
      if HasRowFor(db.sent, Address(c), c.rec.tmdbId) {
        TitledDbRequests(db, c, hashOf, o);
        MarkSentOver(db.requests, t.requests, c.rec.id);
      }
    } else {
      EarlyReasons(db, c, hashOf, o);
    }
  }

  /** Setting `email_sent` by id over requests that agree with `rs` on ids and `email_sent`. */
  lemma MarkSentOver(rs: seq<RequestRecord>, ts: seq<RequestRecord>, id: int)
    requires |ts| == |rs|
    requires forall i :: 0 <= i < |rs| ==> ts[i].id == rs[i].id && ts[i].emailSent == rs[i].emailSent
    ensures var r := UpdateRequests(ts, id, MarkSent);
            && |r| == |rs|
            && forall i :: 0 <= i < |rs| ==> (r[i].emailSent <==> rs[i].emailSent || rs[i].id == id)
  {
  }

  /** The already-sent check refuses exactly when the pair has a row, and then only sets `email_sent`. */
  lemma AfterTitleAlreadySent(db: Db, c: Call, email: string, title: string, hashOf: string -> int, o: Oracles)
    ensures var a := AfterTitle(db, c, email, title, hashOf, o);
            (a.reply.Returned? && a.reply.value.reason == AlreadySent) <==> HasRowFor(db.sent, email, c.rec.tmdbId)
    ensures HasRowFor(db.sent, email, c.rec.tmdbId) ==>
              AfterTitle(db, c, email, title, hashOf, o)
              == Attempted(db.(requests := UpdateRequests(db.requests, c.rec.id, MarkSent)), Returned(Refused(AlreadySent, true, title)))
  {
    AfterTitleShape(db, c, email, title, hashOf, o);
    if !HasRowFor(db.sent, email, c.rec.tmdbId) {
      var eff := if c.userRecord.Some? then Users.Registered(db.users, Returned(c.userRecord))
                 else Users.EnsureUser(db.users, email, hashOf);
      if eff.result.Returned? {
        CooldownsShape(db.(users := eff.users), c, email, title, eff.result.value, hashOf, o);
      }
    }
  }

  /** The title backfill changes only titles: ids and `email_sent` stay. */
  lemma TitledDbRequests(db: Db, c: Call, hashOf: string -> int, o: Oracles)
    ensures var t := TitledDb(db, c, hashOf, o);
            && t.sent == db.sent
            && |t.requests| == |db.requests|
            && forall i :: 0 <= i < |db.requests| ==>
                 t.requests[i].id == db.requests[i].id && t.requests[i].emailSent == db.requests[i].emailSent
  {
    if InitialTitle(c.rec, c.updates) == "Unknown" {
      RetitleKeeps(db.requests, c.rec.id, FinalTitle(c, o));
    }
  }

  /** Retitling by id keeps every request's id and `email_sent`. */
  lemma RetitleKeeps(rs: seq<RequestRecord>, id: int, title: string)
    ensures var r := UpdateRequests(rs, id, Retitle(title));
            && |r| == |rs|
            && forall i :: 0 <= i < |rs| ==> r[i].id == rs[i].id && r[i].emailSent == rs[i].emailSent
  {
  }

  /** Before the already-sent check, only the first four reasons can come out. */
  lemma EarlyReasons(db: Db, c: Call, hashOf: string -> int, o: Oracles)
    requires !ReachesSentCheck(db, c, hashOf, o)
    ensures var a := Attempt(db, c, hashOf, o);
            a.reply.Returned? ==> a.reply.value.reason in {MissingEmail, CycleDeferred, Unsubscribed, AlreadyWatched}
  {
    var a := Attempt(db, c, hashOf, o);
    var title := InitialTitle(c.rec, c.updates);
    var e := Address(c);
    if e == "" {
      assert a.reply == Returned(Refused(MissingEmail, true, title));
    } else if !PassesCycle(c) {
      assert a.reply == Returned(Refused(CycleDeferred, false, title));
    } else {
      var unsub := Users.IsUnsubscribed(db.users, e, hashOf);
      var db1 := db.(users := unsub.users);
      if unsub.result == Returned(false) {
        assert a == AfterUnsubscribeCheck(db1, c, e, title, hashOf, o);
        WatchOrTitleStops(db1, c, e, title, hashOf, o);
      } else if unsub.result.Raised? {
        assert a.reply == Raised;
      } else {
        assert a.reply == Returned(Refused(Unsubscribed, false, title));
      }
    }
  }

  /** A watch check that does not return an empty history, or a failed title lookup, ends the attempt there. */
  lemma WatchOrTitleStops(db: Db, c: Call, email: string, title: string, hashOf: string -> int, o: Oracles)
    requires !(o.watched == Returned(false) && (title != "Unknown" || o.metadataTitle.Returned?))
    ensures var a := AfterUnsubscribeCheck(db, c, email, title, hashOf, o);
            a.reply.Returned? ==> a.reply.value.reason == AlreadyWatched
  {
  }

  /** Before the cooldowns, only the first five reasons can come out. */
  lemma BeforeCooldownReasons(db: Db, c: Call, hashOf: string -> int, o: Oracles)
    requires !ReachesCooldown(db, c, hashOf, o)
    ensures var a := Attempt(db, c, hashOf, o);
            a.reply.Returned? ==> a.reply.value.reason in {MissingEmail, CycleDeferred, Unsubscribed, AlreadyWatched, AlreadySent}
  {
    if ReachesSentCheck(db, c, hashOf, o) {
      AlreadySentFifth(db, c, hashOf, o);
    } else {
      EarlyReasons(db, c, hashOf, o);
    }
  }

  /**
   * Sixth check: with `respect_cooldown`, a parsed `next_email_at` later than
   * `now_dt` refuses with (false, false), writing nothing more.
   */
  lemma CooldownSixth(db: Db, c: Call, hashOf: string -> int, o: Oracles)
    requires Users.RegistryValid(db.users)
    ensures var a := Attempt(db, c, hashOf, o);
            (a.reply.Returned? && a.reply.value.reason.CooldownActive?)
              <==> ReachesCooldown(db, c, hashOf, o) && CooldownBlocks(c, EffectiveUser(db, c, hashOf))
    ensures ReachesCooldown(db, c, hashOf, o) && CooldownBlocks(c, EffectiveUser(db, c, hashOf)) ==>
              var a := Attempt(db, c, hashOf, o);
              && a.reply == Returned(Refused(CooldownActive(NextAllowed(EffectiveUser(db, c, hashOf)).value), false, FinalTitle(c, o)))
              && a.db == TitledDb(db, c, hashOf, o)
  {
    if ReachesCooldown(db, c, hashOf, o) {
      ReachCooldowns(db, c, hashOf, o);
      DeliverShape(TitledDb(db, c, hashOf, o), c, Address(c), FinalTitle(c, o), hashOf, o);
    } else {
      BeforeCooldownReasons(db, c, hashOf, o);
    }
  }

  /**
   * Seventh check: with `respect_cooldown` and no `last_email_at`, the first
   * sent row to the address younger than `HOURS_BETWEEN_EMAILS` refuses with
   * (false, false); a row whose `email_sent_at` does not parse raises.
   */
  lemma LegacyCooldownSeventh(db: Db, c: Call, hashOf: string -> int, o: Oracles)
    requires Users.RegistryValid(db.users)
    ensures var a := Attempt(db, c, hashOf, o);
            var user := EffectiveUser(db, c, hashOf);
            (a.reply.Returned? && a.reply.value.reason == RecentlySent)
              <==> ReachesCooldown(db, c, hashOf, o) && !CooldownBlocks(c, user) && LegacyBlocks(db, c, user)
    ensures var a := Attempt(db, c, hashOf, o);
            var user := EffectiveUser(db, c, hashOf);
            ReachesCooldown(db, c, hashOf, o) && !CooldownBlocks(c, user) && LegacyRaises(db, c, user) ==>
              a == Attempted(TitledDb(db, c, hashOf, o), Raised)
  {
    if ReachesCooldown(db, c, hashOf, o) {
      ReachCooldowns(db, c, hashOf, o);
      var t := TitledDb(db, c, hashOf, o);
      var user := EffectiveUser(db, c, hashOf);
      CooldownsLegacy(t, c, FinalTitle(c, o), user, hashOf, o);
      assert LegacyBlocks(t, c, user) == LegacyBlocks(db, c, user) && LegacyRaises(t, c, user) == LegacyRaises(db, c, user);
    } else {
      BeforeCooldownReasons(db, c, hashOf, o);
    }
  }

  /** The legacy cooldown refuses exactly when it blocks, and raises when the row's time does not parse. */
  lemma CooldownsLegacy(db: Db, c: Call, title: string, user: Option<EmailUser>, hashOf: string -> int, o: Oracles)
    ensures var a := Cooldowns(db, c, Address(c), title, user, hashOf, o);
            && ((a.reply.Returned? && a.reply.value.reason == RecentlySent) <==> !CooldownBlocks(c, user) && LegacyBlocks(db, c, user))
            && (!CooldownBlocks(c, user) && LegacyRaises(db, c, user) ==> a == Attempted(db, Raised))
  {
    var e := Address(c);
    var a := Cooldowns(db, c, e, title, user, hashOf, o);
    DeliverShape(db, c, e, title, hashOf, o);
    if CooldownBlocks(c, user) {
      assert a.reply == Returned(Refused(CooldownActive(NextAllowed(user).value), false, title));
    } else if LegacyApplies(db, c, user) {
      match ParseIso(FirstRowTo(db.sent, e).value.emailSentAt)
      case None =>
        assert a == Attempted(db, Raised);
      case Some(t) =>
        if c.nowDt - t < c.hours * Hour {
          assert a.reply == Returned(Refused(RecentlySent, false, title));
        } else {
          assert a == Deliver(db, c, e, title, hashOf, o);
        }
    } else {
      assert a == Deliver(db, c, e, title, hashOf, o);
    }
  }

  /**
   * A reminder is sent exactly when every check lets it through and
   * rendering and delivery return normally; the outcome then carries the
   * backfilled title, the recipient and the send time.
   */
  lemma SentIffChecksPass(db: Db, c: Call, hashOf: string -> int, o: Oracles)
    requires Users.RegistryValid(db.users)
    ensures var a := Attempt(db, c, hashOf, o);
            (a.reply.Returned? && a.reply.value.sent)
              <==> ReachesDelivery(db, c, hashOf, o) && o.render.Returned? && o.delivery.Returned?
    ensures var a := Attempt(db, c, hashOf, o);
            a.reply.Returned? && a.reply.value.sent ==>
              o.delivery.Returned?
              && a.reply.value == SendOutcome(true, true, Delivered, FinalTitle(c, o), Some(o.delivery.value), Some(o.clock))
  {
    var a := Attempt(db, c, hashOf, o);
    OutcomeShape(db, c, hashOf, o);
    if ReachesDelivery(db, c, hashOf, o) {
      ReachDeliver(db, c, hashOf, o);
      var t := TitledDb(db, c, hashOf, o);
      DeliverShape(t, c, Address(c), FinalTitle(c, o), hashOf, o);
      if o.render.Returned? && o.delivery.Returned? && c.flags.performDbUpdates {
        var db1 := t.(requests := UpdateRequests(t.requests, c.rec.id, MarkSentAs(FinalTitle(c, o))));
        assert db1.users == Users.EnsureUser(db.users, Address(c), hashOf).users;
        Users.MarkAfterEnsure(db.users, Address(c), o.clock, c.hours, hashOf);
      }
    } else if ReachesCooldown(db, c, hashOf, o) {
      CooldownSixth(db, c, hashOf, o);
      LegacyCooldownSeventh(db, c, hashOf, o);
      ReachCooldowns(db, c, hashOf, o);
    } else {
      BeforeCooldownReasons(db, c, hashOf, o);
    }
  }

  /** The document with its cooldown stamped for a delivery at `at`. */
  function Stamped(u: Option<EmailUser>, at: int, hours: int): Option<EmailUser> {
    if u.Some? then Some(ApplyUserWrite(Cooldown(at, at + hours * Hour), u.value)) else None
  }

  /** The state a persisted send leaves: titles and `email_sent`, the cooldown stamp, the upserted row. */
  lemma PersistedState(db: Db, c: Call, hashOf: string -> int, o: Oracles)
    requires Users.RegistryValid(db.users) && c.flags.performDbUpdates
    requires Attempt(db, c, hashOf, o).reply.Returned? && Attempt(db, c, hashOf, o).reply.value.sent
    ensures var t := TitledDb(db, c, hashOf, o);
            var ens := Users.EnsureUser(db.users, Address(c), hashOf);
            && ReachesDelivery(db, c, hashOf, o)
            && ens.result.Returned?
            && Attempt(db, c, hashOf, o).db
               == Records.Db(UpdateRequests(t.requests, c.rec.id, MarkSentAs(FinalTitle(c, o))),
                             UpsertSent(db.sent, SentRowFor(c.rec, Address(c), FinalTitle(c, o), o.clock)),
                             Users.MarkEmailUser(ens.users, Address(c), o.clock, c.hours, hashOf).users,
                             db.lastWatchCheck)
  {
    SentIffChecksPass(db, c, hashOf, o);
    ReachDeliver(db, c, hashOf, o);
    Users.MarkAfterEnsure(db.users, Address(c), o.clock, c.hours, hashOf);
  }

  /** A persisted send marks every request with the id sent, under the backfilled title, and changes no other request. */
  lemma PersistedSendMarksRequests(db: Db, c: Call, hashOf: string -> int, o: Oracles)
    requires Users.RegistryValid(db.users) && c.flags.performDbUpdates
    requires Attempt(db, c, hashOf, o).reply.Returned? && Attempt(db, c, hashOf, o).reply.value.sent
    ensures var a := Attempt(db, c, hashOf, o);
            && |a.db.requests| == |db.requests|
            && (forall i :: 0 <= i < |db.requests| ==>
                  a.db.requests[i] == if db.requests[i].id == c.rec.id
                                      then db.requests[i].(emailSent := true, title := FinalTitle(c, o))
                                      else db.requests[i])
  {
    PersistedState(db, c, hashOf, o);
    MarkSentAfterTitles(db, c, hashOf, o);
  }

  /** Marking sent after the title backfill, request by request. */
  lemma MarkSentAfterTitles(db: Db, c: Call, hashOf: string -> int, o: Oracles)
    ensures var r := UpdateRequests(TitledDb(db, c, hashOf, o).requests, c.rec.id, MarkSentAs(FinalTitle(c, o)));
            && |r| == |db.requests|
            && forall i :: 0 <= i < |db.requests| ==>
                 r[i] == if db.requests[i].id == c.rec.id then db.requests[i].(emailSent := true, title := FinalTitle(c, o)) else db.requests[i]
  {
    var t := TitledDb(db, c, hashOf, o);
    var title := FinalTitle(c, o);
    var r := UpdateRequests(t.requests, c.rec.id, MarkSentAs(title));
    TitledDbRequests(db, c, hashOf, o);
    forall i | 0 <= i < |db.requests|
      ensures r[i] == if db.requests[i].id == c.rec.id then db.requests[i].(emailSent := true, title := title) else db.requests[i]
    {
      TitledDbRequestAt(db, c, hashOf, o, i);
      if db.requests[i].id == c.rec.id {
        assert r[i] == ApplyRequestWrite(MarkSentAs(title), t.requests[i]);
      } else {
        assert r[i] == t.requests[i];
      }
    }
  }

  /**
   * A persisted send stamps the address's user document with `last_email_at
   * = sent_at` and `next_email_at = sent_at + HOURS_BETWEEN_EMAILS`, and
   * changes nothing else of it.
   */
  lemma PersistedSendStampsCooldown(db: Db, c: Call, hashOf: string -> int, o: Oracles)
    requires Users.RegistryValid(db.users) && c.flags.performDbUpdates
    requires Attempt(db, c, hashOf, o).reply.Returned? && Attempt(db, c, hashOf, o).reply.value.sent
    ensures var a := Attempt(db, c, hashOf, o);
            var touched := Users.EnsureUser(db.users, Address(c), hashOf).users;
            && Users.UserFor(touched, Address(c)).Some?
            && Users.UserFor(a.db.users, Address(c)) == Stamped(Users.UserFor(touched, Address(c)), o.clock, c.hours)
  {
    PersistedState(db, c, hashOf, o);
    StampAfterEnsure(db.users, Address(c), o.clock, c.hours, hashOf);
  }

  /** Stamping the cooldown on a touched registry rewrites the address's document and only its cooldown keys. */
  lemma StampAfterEnsure(us: seq<UserDoc>, e: string, at: int, hours: int, hashOf: string -> int)
    requires Users.RegistryValid(us) && e != "" && Users.EnsureUser(us, e, hashOf).result.Returned?
    ensures var touched := Users.EnsureUser(us, e, hashOf).users;
            && Users.UserFor(touched, e).Some?
            && Users.UserFor(Users.MarkEmailUser(touched, e, at, hours, hashOf).users, e) == Stamped(Users.UserFor(touched, e), at, hours)
  {
    var ens := Users.EnsureUser(us, e, hashOf);
    Users.EnsureUserFound(us, e, hashOf);
    assert Users.UserFor(ens.users, e) == ens.result.value;
    Users.EnsureUserIdempotent(us, e, hashOf);
    Users.MarkEmailUserSpec(ens.users, e, at, hours, hashOf);
  }

  /**
   * A persisted send leaves exactly one sent row for the (address, TMDB id)
   * pair, the new one stamped with the send time, not yet watched, and
   * holding the text of the rating key (`"None"` when the request has none);
   * the table stays free of duplicate pairs.
   */
  lemma PersistedSendOneRow(db: Db, c: Call, hashOf: string -> int, o: Oracles)
    requires Users.RegistryValid(db.users) && SentUnique(db.sent) && c.flags.performDbUpdates
    requires Attempt(db, c, hashOf, o).reply.Returned? && Attempt(db, c, hashOf, o).reply.value.sent
    ensures var a := Attempt(db, c, hashOf, o);
            && SentUnique(a.db.sent)
            && CountRowsFor(a.db.sent, Address(c), c.rec.tmdbId) == 1
            && (forall i :: 0 <= i < |a.db.sent| && RowFor(a.db.sent[i], Address(c), c.rec.tmdbId) ==>
                  a.db.sent[i] == SentRowFor(c.rec, Address(c), FinalTitle(c, o), o.clock)
                  && a.db.sent[i].ratingKey == (if c.rec.ratingKey.Some? then c.rec.ratingKey.value else "None")
                  && a.db.sent[i].emailSentAt == Some(Iso(o.clock))
                  && a.db.sent[i].dateWatched == None)
  {
    PersistedState(db, c, hashOf, o);
    UpsertSentExactlyOne(db.sent, SentRowFor(c.rec, Address(c), FinalTitle(c, o), o.clock));
  }

  /** One request after the title backfill: only a request with the id can have a new title. */
  lemma TitledDbRequestAt(db: Db, c: Call, hashOf: string -> int, o: Oracles, i: int)
    requires 0 <= i < |db.requests|
    ensures |TitledDb(db, c, hashOf, o).requests| == |db.requests|
    ensures TitledDb(db, c, hashOf, o).requests[i]
            == if db.requests[i].id == c.rec.id && InitialTitle(c.rec, c.updates) == "Unknown"
               then db.requests[i].(title := FinalTitle(c, o)) else db.requests[i]
  {
  }

  /**
   * Without `perform_db_updates` a delivered reminder is still reported as
   * (sent = true, remove = true), yet no sent row, cooldown stamp or
   * `email_sent` is written.
   */
  lemma DryRunPersistsNothing(db: Db, c: Call, hashOf: string -> int, o: Oracles)
    requires Users.RegistryValid(db.users) && !c.flags.performDbUpdates
    ensures var a := Attempt(db, c, hashOf, o);
            a.reply.Returned? && a.reply.value.sent ==>
              && a.reply.value.removeCandidate
              && a.db.sent == db.sent
              && Users.OnlyTouched(db.users, a.db.users)
              && |a.db.requests| == |db.requests|
              && forall i :: 0 <= i < |db.requests| ==> a.db.requests[i].emailSent == db.requests[i].emailSent
  {
    BookkeepingNeedsDelivery(db, c, hashOf, o);
    OutcomeShape(db, c, hashOf, o);
  }

  /**
   * The manual send-now path calls with `respect_cycle` and
   * `respect_cooldown` off: it is never deferred for the cycle and never held
   * back by either cooldown.
   */
  lemma SendNowNeverDefers(db: Db, c: Call, hashOf: string -> int, o: Oracles)
    requires Users.RegistryValid(db.users) && !c.flags.respectCycle && !c.flags.respectCooldown
    ensures var a := Attempt(db, c, hashOf, o);
            a.reply.Returned? ==>
              a.reply.value.reason != CycleDeferred && !a.reply.value.reason.CooldownActive? && a.reply.value.reason != RecentlySent
  {
    CycleDeferralSecond(db, c, hashOf, o);
    CooldownSixth(db, c, hashOf, o);
    LegacyCooldownSeventh(db, c, hashOf, o);
  }
}
