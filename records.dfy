/**
 * The persisted state: the request table, the sent-email table and the
 * e-mail-user table, each as its documents in store order, plus the
 * recorded time of the last watch-status check. Every write the reminder
 * logic performs is one of the updates defined here.
 */
module Records {
  import opened Wrappers
  import opened Text
  import opened Stamps

  /**
   * One fulfilled media request. Text fields hold `""` where the document has
   * no value; the rating key keeps an absent value (`None`) apart, since the
   * sent row stores its text.
   */
  datatype RequestRecord = RequestRecord(
    id: int,
    email: string,
    plexUsername: string,
    tmdbId: string,
    ratingKey: Option<string>,
    mediaType: string,
    plexUrl: Option<string>,
    mobilePlexUrl: Option<string>,
    posterUrl: string,
    title: string,
    mediaAddedDate: Option<RawStamp>,
    mediaAddedAt: Option<RawStamp>,
    createdAt: Option<RawStamp>,
    tautulliWatchDate: Option<RawStamp>,
    emailSent: bool,
    skipEmail: bool,
    eligibleForEmail: bool)

  /** Python's truth value of a stored rating key: present and not empty. */
  predicate HasKey(k: Option<string>) {
    k.Some? && k.value != ""
  }

  /** `str(rating_key)`: the text of a present key, `"None"` for an absent one. */
  function KeyText(k: Option<string>): string {
    if k.Some? then k.value else "None"
  }

  /** One delivered reminder, keyed by the stripped (not lower-cased) address and the TMDB id. */
  datatype SentRow = SentRow(
    email: string,
    tmdbId: string,
    ratingKey: string,
    plexUsername: string,
    title: string,
    posterUrl: string,
    mediaType: string,
    mediaAddedAt: Option<RawStamp>,
    emailSentAt: Option<RawStamp>,
    dateWatched: Option<RawStamp>)

  /** A key of an e-mail-user document: absent from the document, or present (possibly `None`). */
  datatype Field = Missing | Value(v: Option<RawStamp>)

  /** `record.get(key)`: an absent key reads as `None`. */
  function Get(f: Field): Option<RawStamp> {
    if f.Value? then f.v else None
  }

  /** The per-recipient cooldown and unsubscribe state, keyed by the lower-cased address. */
  datatype EmailUser = EmailUser(email: string, lastEmailAt: Field, nextEmailAt: Field, unsubscribedAt: Field)

  /** An e-mail-user document and its document id. */
  datatype UserDoc = UserDoc(docId: int, user: EmailUser)

  /**
   * The settings read from the environment: `DAYS_SINCE_REQUEST`,
   * `HOURS_BETWEEN_EMAILS`, `DEBUG_MODE` and `DEBUG_MAX_EMAILS`.
   */
  datatype Config = Config(daysSinceRequest: int, hoursBetweenEmails: int, debugMode: bool, debugMaxEmails: int)

  /** The defaults the settings take when the environment leaves them unset. */
  const Defaults := Config(90, 24, false, 2)

  datatype Db = Db(requests: seq<RequestRecord>, sent: seq<SentRow>, users: seq<UserDoc>, lastWatchCheck: Option<RawStamp>)

  /** `_resolve_media_added` on a request: `mediaAddedDate`, then `mediaAddedAt`, then `createdAt`. */
  function MediaAdded(r: RequestRecord): Resolved {
    ResolveFirst([r.mediaAddedDate, r.mediaAddedAt, r.createdAt])
  }

  /** The grouping key of a request: its address stripped and lower-cased. */
  function Key(r: RequestRecord): string {
    Lower(Strip(r.email))
  }

  /** The field sets the send logic writes to a request. */
  datatype RequestWrite =
    | MarkEligible                     // {'eligible_for_email': True}
    | StampWatched(at: int)            // {'tautulli_watch_date': now}
    | Retitle(title: string)           // {'title': title}
    | MarkSent                         // {'email_sent': True}
    | MarkSentAs(title: string)        // {'email_sent': True, 'title': title}
    | RetitleWatched(title: string, at: int)  // {'title': title, 'tautulli_watch_date': now}

  function ApplyRequestWrite(w: RequestWrite, r: RequestRecord): RequestRecord {
    match w
    case MarkEligible => r.(eligibleForEmail := true)
    case StampWatched(at) => r.(tautulliWatchDate := Some(Iso(at)))
    case Retitle(title) => r.(title := title)
    case MarkSent => r.(emailSent := true)
    case MarkSentAs(title) => r.(emailSent := true, title := title)
    case RetitleWatched(title, at) => r.(title := title, tautulliWatchDate := Some(Iso(at)))
  }

  /** `request_db.update(fields, Request.id == id)`: every request with that id gets the fields. */
  function UpdateRequests(rs: seq<RequestRecord>, id: int, w: RequestWrite): (r: seq<RequestRecord>)
    ensures |r| == |rs|
    ensures forall i :: 0 <= i < |rs| ==> r[i] == if rs[i].id == id then ApplyRequestWrite(w, rs[i]) else rs[i]
  {
    seq(|rs|, i requires 0 <= i < |rs| => if rs[i].id == id then ApplyRequestWrite(w, rs[i]) else rs[i])
  }

  /** Whether some request has the id (`request_db.search(Request.id == id)` is non-empty). */
  predicate HasRequest(rs: seq<RequestRecord>, id: int) {
    exists i :: 0 <= i < |rs| && rs[i].id == id
  }

  /** The field sets written to an e-mail-user document. */
  datatype UserWrite =
    | Unsubscribe(at: int)             // {'unsubscribed_at': now}
    | Resubscribe                      // {'unsubscribed_at': None}
    | Cooldown(last: int, next: int)   // {'last_email_at': last, 'next_email_at': next}
    | FillMissing(of: EmailUser)       // the keys missing from `of`, set to None

  function ApplyUserWrite(w: UserWrite, u: EmailUser): EmailUser {
    match w
    case Unsubscribe(at) => u.(unsubscribedAt := Value(Some(Iso(at))))
    case Resubscribe => u.(unsubscribedAt := Value(None))
    case Cooldown(last, next) => u.(lastEmailAt := Value(Some(Iso(last))), nextEmailAt := Value(Some(Iso(next))))
    case FillMissing(of) =>
      u.(lastEmailAt := if of.lastEmailAt.Missing? then Value(None) else u.lastEmailAt,
         nextEmailAt := if of.nextEmailAt.Missing? then Value(None) else u.nextEmailAt,
         unsubscribedAt := if of.unsubscribedAt.Missing? then Value(None) else u.unsubscribedAt)
  }

  /** `email_users_db.update(fields, EmailUser.email == email)`. */
  function UpdateUsers(us: seq<UserDoc>, email: string, w: UserWrite): (r: seq<UserDoc>)
    ensures |r| == |us|
    ensures forall i :: 0 <= i < |us| ==>
              r[i] == if us[i].user.email == email then UserDoc(us[i].docId, ApplyUserWrite(w, us[i].user)) else us[i]
  {
    seq(|us|, i requires 0 <= i < |us| =>
      if us[i].user.email == email then UserDoc(us[i].docId, ApplyUserWrite(w, us[i].user)) else us[i])
  }

  /** Whether a sent row is the one for this (address, TMDB id) pair. */
  predicate RowFor(row: SentRow, email: string, tmdbId: string) {
    row.email == email && row.tmdbId == tmdbId
  }

  /** `email_db.search((Email.email == email) & (Email.tmdbId == tmdbId))` is non-empty. */
  predicate HasRowFor(rows: seq<SentRow>, email: string, tmdbId: string) {
    exists i :: 0 <= i < |rows| && RowFor(rows[i], email, tmdbId)
  }

  /** The first row, in store order, sent to the (stripped) address: `email_db.search(Email.email == email)[0]`. */
  function FirstRowTo(rows: seq<SentRow>, email: string): (r: Option<SentRow>)
    ensures r.None? <==> forall i :: 0 <= i < |rows| ==> rows[i].email != email
    ensures r.Some? ==> exists k :: 0 <= k < |rows| && rows[k] == r.value && r.value.email == email
                                    && forall i :: 0 <= i < k ==> rows[i].email != email
  {
    if rows == [] then None
    else if rows[0].email == email then Some(rows[0])
    else
      var r := FirstRowTo(rows[1..], email);
      assert r.Some? ==> exists k :: 0 <= k < |rows| && rows[k] == r.value && r.value.email == email
                                     && forall i :: 0 <= i < k ==> rows[i].email != email by {
        if r.Some? {
          var k :| 0 <= k < |rows[1..]| && rows[1..][k] == r.value && r.value.email == email
                   && forall i :: 0 <= i < k ==> rows[1..][i].email != email;
          assert rows[k + 1] == r.value && forall i :: 0 <= i < k + 1 ==> rows[i].email != email;
        }
      }
      r
  }

  /**
   * `email_db.upsert(row, (Email.email == e) & (Email.tmdbId == t))`: every
   * row for the pair is replaced by `row`; when there is none, `row` is appended.
   */
  function UpsertSent(rows: seq<SentRow>, row: SentRow): (r: seq<SentRow>)
  {
    if HasRowFor(rows, row.email, row.tmdbId) then
      seq(|rows|, i requires 0 <= i < |rows| => if RowFor(rows[i], row.email, row.tmdbId) then row else rows[i])
    else rows + [row]
  }

  /** `email_db.update({'date_watched': at}, (Email.email == e) & (Email.tmdbId == t))`. */
  function SetDateWatched(rows: seq<SentRow>, email: string, tmdbId: string, at: int): (r: seq<SentRow>)
    ensures |r| == |rows|
    ensures forall i :: 0 <= i < |rows| ==>
              r[i] == if RowFor(rows[i], email, tmdbId) then rows[i].(dateWatched := Some(Iso(at))) else rows[i]
  {
    seq(|rows|, i requires 0 <= i < |rows| =>
      if RowFor(rows[i], email, tmdbId) then rows[i].(dateWatched := Some(Iso(at))) else rows[i])
  }

  /** The number of rows for the pair. */
  function CountRowsFor(rows: seq<SentRow>, email: string, tmdbId: string): nat {
    if rows == [] then 0
    else (if RowFor(rows[0], email, tmdbId) then 1 else 0) + CountRowsFor(rows[1..], email, tmdbId)
  }

  /** The at-most-once guarantee: no (address, TMDB id) pair has two rows. */
  ghost predicate SentUnique(rows: seq<SentRow>) {
    forall i, j :: 0 <= i < j < |rows| ==> !(rows[i].email == rows[j].email && rows[i].tmdbId == rows[j].tmdbId)
  }

  lemma {:induction false} CountRowsForZero(rows: seq<SentRow>, email: string, tmdbId: string)
    requires !HasRowFor(rows, email, tmdbId)
    ensures CountRowsFor(rows, email, tmdbId) == 0
  {
    if rows != [] {
      assert !HasRowFor(rows[1..], email, tmdbId) by {
        forall i | 0 <= i < |rows[1..]| ensures !RowFor(rows[1..][i], email, tmdbId) {
          assert rows[1..][i] == rows[i + 1];
        }
      }
      CountRowsForZero(rows[1..], email, tmdbId);
    }
  }

  lemma {:induction false} CountRowsForOne(rows: seq<SentRow>, email: string, tmdbId: string, k: int)
    requires 0 <= k < |rows| && RowFor(rows[k], email, tmdbId)
    requires forall i :: 0 <= i < |rows| && i != k ==> !RowFor(rows[i], email, tmdbId)
    ensures CountRowsFor(rows, email, tmdbId) == 1
  {
    if k == 0 {
      assert !HasRowFor(rows[1..], email, tmdbId) by {
        forall i | 0 <= i < |rows[1..]| ensures !RowFor(rows[1..][i], email, tmdbId) {
          assert rows[1..][i] == rows[i + 1];
        }
      }
      CountRowsForZero(rows[1..], email, tmdbId);
    } else {
      assert forall i :: 0 <= i < |rows[1..]| ==> rows[1..][i] == rows[i + 1];
      CountRowsForOne(rows[1..], email, tmdbId, k - 1);
    }
  }

  /**
   * The upsert behind at-most-once delivery: afterwards the pair has exactly
   * one row, holding the new values, and every other row is as it was.
   */
  lemma UpsertSentExactlyOne(rows: seq<SentRow>, row: SentRow)
    requires SentUnique(rows)
    ensures SentUnique(UpsertSent(rows, row))
    ensures CountRowsFor(UpsertSent(rows, row), row.email, row.tmdbId) == 1
    ensures forall i :: 0 <= i < |UpsertSent(rows, row)| && RowFor(UpsertSent(rows, row)[i], row.email, row.tmdbId)
                        ==> UpsertSent(rows, row)[i] == row
    ensures forall x :: x in rows && !RowFor(x, row.email, row.tmdbId) ==> x in UpsertSent(rows, row)
  {
    var r := UpsertSent(rows, row);
    if HasRowFor(rows, row.email, row.tmdbId) {
      var k :| 0 <= k < |rows| && RowFor(rows[k], row.email, row.tmdbId);
      forall x | x in rows && !RowFor(x, row.email, row.tmdbId) ensures x in r {
        var i :| 0 <= i < |rows| && rows[i] == x;
        assert r[i] == x;
      }
      CountRowsForOne(r, row.email, row.tmdbId, k);
    } else {
      assert r[|rows|] == row;
      CountRowsForOne(r, row.email, row.tmdbId, |rows|);
    }
  }
}
