/**
 * The three tables as one mutable store, the way the module-level TinyDB
 * handles are shared by every operation. Each registry method changes the
 * user table exactly as the corresponding function of `Users` says and
 * leaves the other tables alone.
 */
module Tables {
  import opened Wrappers
  import opened Text
  import opened Stamps
  import opened Records
  import Users

  class Store {
    var requests: seq<RequestRecord>
    var sent: seq<SentRow>
    var users: seq<UserDoc>
    var lastWatchCheck: Option<RawStamp>

    /** The whole persisted state as a value. */
    function Db(): Db
      reads this
    {
      Records.Db(requests, sent, users, lastWatchCheck)
    }

    constructor(db: Db)
      ensures Db() == db
    {
      requests := db.requests;
      sent := db.sent;
      users := db.users;
      lastWatchCheck := db.lastWatchCheck;
    }

    /** `_ensure_email_user_record`: look up, else probe and insert, then back-fill. */
    method EnsureUser(email: string, hashOf: string -> int) returns (r: Reply<Option<EmailUser>>)
      modifies this
      ensures Users.EnsureUser(old(users), email, hashOf) == Users.Registered(users, r)
      ensures requests == old(requests) && sent == old(sent) && lastWatchCheck == old(lastWatchCheck)
    {
      if email == "" {
        return Returned(None);
      }
      var e := Lower(email);
      var found := Users.FindUser(users, e);
      if found.None? {
        var d := Users.ProbeDocId(users, e, Users.StableDocId(hashOf(e)));
        if d.None? {
          return Raised;
        }
        users := users + [UserDoc(d.value, Users.Fresh(e))];
        return Returned(Some(users[|users| - 1].user));
      }
      var record := users[found.value].user;
      if Users.HasMissing(record) {
        users := UpdateUsers(users, e, FillMissing(record));
        record := users[found.value].user;
      }
      return Returned(Some(record));
    }

    /** `is_unsubscribed`. */
    method IsUnsubscribed(email: string, hashOf: string -> int) returns (r: Reply<bool>)
      modifies this
      ensures Users.IsUnsubscribed(old(users), email, hashOf) == Users.Registered(users, r)
      ensures requests == old(requests) && sent == old(sent) && lastWatchCheck == old(lastWatchCheck)
    {
      if email == "" {
        return Returned(false);
      }
      var record := EnsureUser(email, hashOf);
      match record
      case Raised => return Raised;
      case Returned(None) => return Returned(false);
      case Returned(Some(u)) => return Returned(Users.Unsubscribed(u));
    }

    /** `add_unsubscribed_email`, with the current time passed in as `at`. */
    method AddUnsubscribed(email: string, at: int, hashOf: string -> int) returns (r: Reply<()>)
      modifies this
      ensures Users.AddUnsubscribed(old(users), email, at, hashOf) == Users.Registered(users, r)
      ensures requests == old(requests) && sent == old(sent) && lastWatchCheck == old(lastWatchCheck)
    {
      if email == "" {
        return Returned(());
      }
      var record := EnsureUser(email, hashOf);
      if record.Returned? && record.value.Some? {
        users := UpdateUsers(users, record.value.value.email, Unsubscribe(at));
      }
      return if record.Raised? then Raised else Returned(());
    }

    /** `remove_unsubscribed_email`. */
    method RemoveUnsubscribed(email: string, hashOf: string -> int) returns (r: Reply<bool>)
      modifies this
      ensures Users.RemoveUnsubscribed(old(users), email, hashOf) == Users.Registered(users, r)
      ensures requests == old(requests) && sent == old(sent) && lastWatchCheck == old(lastWatchCheck)
    {
      if email == "" {
        return Returned(false);
      }
      var record := EnsureUser(email, hashOf);
      if record.Raised? {
        return Raised;
      }
      if record.value.None? || !Truthy(Get(record.value.value.unsubscribedAt)) {
        return Returned(false);
      }
      users := UpdateUsers(users, record.value.value.email, Resubscribe);
      return Returned(true);
    }

    /** `mark_email_user`: the cooldown stamps for a delivery at `at`. */
    method MarkEmailUser(email: string, at: int, hours: int, hashOf: string -> int) returns (r: Reply<()>)
      modifies this
      ensures Users.MarkEmailUser(old(users), email, at, hours, hashOf) == Users.Registered(users, r)
      ensures requests == old(requests) && sent == old(sent) && lastWatchCheck == old(lastWatchCheck)
    {
      if email == "" {
        return Returned(());
      }
      var record := EnsureUser(email, hashOf);
      if record.Returned? && record.value.Some? {
        users := UpdateUsers(users, record.value.value.email, Cooldown(at, at + hours * Hour));
      }
      return if record.Raised? then Raised else Returned(());
    }
  }
}
